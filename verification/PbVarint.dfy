/** Variable-length integers of pb_encode.c and pb_decode.c. */
module PbVarint {
  import opened Bytes

  /** The base-128 form, least significant group first, continuation bit on all but the last. */
  function VarintBytes(v: nat): (s: seq<byte>)
    ensures |s| >= 1
  {
    if v < 128 then [v] else [v % 128 + 128] + VarintBytes(v / 128)
  }

  /** result |= (uint64_t)(b & 0x7F) << bitpos */
  function OrField64(result: uint64, b: byte, bitpos: nat): uint64 {
    var field := Shl(b % 128, bitpos) % TWO64;
    ShlWords();
    BitOrBound(result, field, 64);
    BitOr(result, field)
  }

  /** result |= (uint32_t)(b & 0x7F) << bitpos */
  function OrField32(result: uint32, b: byte, bitpos: nat): uint32 {
    var field := Shl(b % 128, bitpos) % TWO32;
    ShlWords();
    BitOrBound(result, field, 32);
    BitOr(result, field)
  }

  /** The loop of pb_decode_varint, from the state (bitpos, result). */
  function Varint64From(s: seq<byte>, bitpos: nat, result: uint64): (p: Parse<uint64>)
    ensures p.Got? ==> |p.rest| < |s|
  {
    if bitpos >= 64 || s == [] then Fail
    else
      var r := OrField64(result, s[0], bitpos);
      if s[0] < 128 then Got(r, s[1..]) else Varint64From(s[1..], bitpos + 7, r)
  }

  function Varint64(s: seq<byte>): (p: Parse<uint64>)
    ensures p.Got? ==> |p.rest| < |s|
  {
    Varint64From(s, 0, 0)
  }

  /** One pass through the body of the loop of pb_decode_varint32_eof; None is "varint overflow". */
  function Varint32Step(b: byte, bitpos: nat, result: uint32): Option<uint32> {
    if bitpos >= 32 then
      var signExtension := if bitpos < 63 then 0xFF else 0x01;
      if b % 128 != 0 && (result < TWO31 || b != signExtension) then None else Some(result)
    else
      Some(OrField32(result, b, bitpos))
  }

  /** The multibyte loop of pb_decode_varint32_eof; bitpos is an 8-bit variable there. */
  function Varint32From(s: seq<byte>, bitpos: nat, result: uint32): (p: Parse<uint32>)
    ensures p.Got? ==> |p.rest| < |s|
  {
    if s == [] then Fail
    else
      match Varint32Step(s[0], bitpos, result)
      case None => Fail
      case Some(r) =>
        var next := (bitpos + 7) % 256;
        if s[0] >= 128 then Varint32From(s[1..], next, r)
        else if next == 35 && (s[0] / 16) % 8 != 0 then Fail
        else Got(r, s[1..])
  }

  function Varint32(s: seq<byte>): (p: Parse<uint32>)
    ensures p.Got? ==> |p.rest| < |s|
  {
    if s == [] then Fail
    else if s[0] < 128 then Got(s[0], s[1..])
    else Varint32From(s[1..], 7, s[0] % 128)
  }

  // ---- both decoders against the encoder ----

  lemma {:induction false} EncodingHead(v: nat, rest: seq<byte>)
    ensures (VarintBytes(v) + rest)[0] == if v < 128 then v else v % 128 + 128
    ensures (VarintBytes(v) + rest)[1..] == if v < 128 then rest else VarintBytes(v / 128) + rest
  {
    var s := VarintBytes(v) + rest;
    if v < 128 {
      assert s[1..] == rest;
    } else {
      assert s[1..] == VarintBytes(v / 128) + rest;
    }
  }

  /** A 7-bit group placed at bit n stays below bit n + 7. */
  lemma {:induction false} GroupBelow(g: nat, acc: nat, n: nat)
    requires g < 128 && acc < Shl(1, n)
    ensures acc + Shl(g, n) < Shl(1, n + 7)
  {
    ShlSeven(1, n);
    ShlSum(127, 1, n);
    ShlMono(g, 127, n);
  }

  lemma {:induction false} OrField64Sum(acc: uint64, b: byte, n: nat)
    requires acc < Shl(1, n) && Shl(b % 128, n) < TWO64
    ensures OrField64(acc, b, n) == acc + Shl(b % 128, n) < Shl(1, n + 7)
  {
    GroupBelow(b % 128, acc, n);
    BitOrIsSum(acc, b % 128, n);
    NoWrap(Shl(b % 128, n), TWO64);
  }

  lemma {:induction false} NoWrap(x: nat, m: nat)
    requires x < m
    ensures x % m == x
  {
  }

  lemma {:induction false} Varint64FromInverts(v: nat, n: nat, acc: uint64, rest: seq<byte>)
    requires n < 64 && acc < Shl(1, n) && acc + Shl(v, n) < TWO64
    ensures Varint64From(VarintBytes(v) + rest, n, acc) == Got(acc + Shl(v, n), rest)
    decreases v
  {
    EncodingHead(v, rest);
    var s := VarintBytes(v) + rest;
    ShlSplit(v, n);
    OrField64Sum(acc, s[0], n);
    if v >= 128 {
      TopBitFits(v / 128, n + 7);
      Varint64FromInverts(v / 128, n + 7, OrField64(acc, s[0], n), rest);
    }
  }

  /** A positive number shifted by n that still fits 64 bits was shifted by less than 64. */
  lemma {:induction false} TopBitFits(v: nat, n: nat)
    requires v > 0 && Shl(v, n) < TWO64
    ensures n < 64
  {
    ShlWords();
    ShlMono(1, v, n);
    if n >= 64 {
      ShlGrows(64, n);
    }
  }

  lemma {:induction false} ShlGrows(m: nat, n: nat)
    requires m <= n
    ensures Shl(1, m) <= Shl(1, n)
  {
    if m < n {
      ShlGrows(m, n - 1);
    }
  }

  /** pb_decode_varint inverts pb_encode_varint on every 64-bit value. */
  lemma {:induction false} Varint64Inverts(v: uint64, rest: seq<byte>)
    ensures Varint64(VarintBytes(v) + rest) == Got(v, rest)
  {
    Varint64FromInverts(v, 0, 0, rest);
  }

  /** What the sign-extension test lets through from bit 35 on: each further group is empty, or the
      32-bit result is negative and the byte is the one a sign-extended value has there. */
  predicate SignTail(w: nat, n: nat, r: uint32) {
    var b := if w < 128 then w else w % 128 + 128;
    && (w % 128 == 0 || (r >= TWO31 && b == if n < 63 then 0xFF else 0x01))
    && (w < 128 || SignTail(w / 128, n + 7, r))
  }

  lemma {:induction false} Varint32Tail(w: nat, n: nat, r: uint32, rest: seq<byte>)
    requires 35 <= n <= 63 && n % 7 == 0 && Shl(w, n) < TWO64
    ensures Varint32From(VarintBytes(w) + rest, n, r) == if SignTail(w, n, r) then Got(r, rest) else Fail
    decreases w
  {
    EncodingHead(w, rest);
    HighStep(VarintBytes(w) + rest, n, r);
    if w >= 128 {
      ShlSplit(w, n);
      TopBitFits(w / 128, n + 7);
      Varint32Tail(w / 128, n + 7, r, rest);
    }
  }

  lemma {:induction false} HighStep(s: seq<byte>, n: nat, r: uint32)
    requires 35 <= n <= 63 && s != []
    ensures Varint32From(s, n, r) ==
      if s[0] % 128 != 0 && (r < TWO31 || s[0] != if n < 63 then 0xFF else 0x01) then Fail
      else if s[0] >= 128 then Varint32From(s[1..], n + 7, r)
      else Got(r, s[1..])
  {
  }

  /** The first four groups of the 32-bit result. */
  lemma {:induction false} OrField32Low(acc: uint32, b: byte, n: nat)
    requires 7 <= n <= 21 && acc < Shl(1, n)
    ensures OrField32(acc, b, n) == acc + Shl(b % 128, n) < Shl(1, n + 7)
  {
    GroupBelow(b % 128, acc, n);
    ShlGrows(n + 7, 28);
    assert Shl(b % 128, n) % TWO32 == Shl(b % 128, n) by { Shl28(1); }
    BitOrIsSum(acc, b % 128, n);
  }

  /** The fifth group keeps its low four bits. */
  lemma {:induction false} OrField32Fifth(acc: uint32, b: byte)
    requires acc < 0x1000_0000
    ensures OrField32(acc, b, 28) == acc + 0x1000_0000 * (b % 16 as nat)
  {
    FifthFieldBits(b);
    Shl28(1);
    BitOrIsSum(acc, b % 16, 28);
  }

  lemma {:induction false} FifthFieldBits(b: byte)
    ensures Shl(b % 128, 28) % TWO32 == Shl(b % 16, 28) == 0x1000_0000 * (b % 16 as nat)
  {
    Shl28(b % 128);
    Shl28(b % 16);
    Nibbles(b);
    GroupSplits(b % 128, b / 16 % 8, b % 16);
  }

  lemma {:induction false} Nibbles(b: byte)
    ensures b % 128 == 16 * (b / 16 % 8) + b % 16
  {
  }

  lemma {:induction false} GroupSplits(g: nat, high: nat, low: nat)
    requires g == 16 * high + low && low < 16
    ensures 0x1000_0000 * g % TWO32 == 0x1000_0000 * low
  {
    assert 0x1000_0000 * g == TWO32 * high + 0x1000_0000 * low;
    Quotient(0x1000_0000 * g, TWO32, high, 0x1000_0000 * low);
  }

  /** The last group that still touches the 32-bit result. */
  lemma {:induction false} Varint32Fifth(v: nat, acc: uint32, rest: seq<byte>)
    requires acc < 0x1000_0000 && 0x1000_0000 * v < TWO64
    ensures Varint32From(VarintBytes(v) + rest, 28, acc) == Read32(acc + 0x1000_0000 * v, rest)
  {
    EncodingHead(v, rest);
    var s, r := VarintBytes(v) + rest, acc + 0x1000_0000 * (v % 16);
    OrField32Fifth(acc, s[0]);
    FifthArithmetic(v, acc);
    FifthUnfold(s, acc);
    if v >= 128 {
      Shl35(v / 128);
      Varint32Tail(v / 128, 35, r, rest);
    } else {
      assert s[0] == v;
    }
  }

  lemma {:induction false} FifthUnfold(s: seq<byte>, acc: uint32)
    requires s != []
    ensures var r := OrField32(acc, s[0], 28);
      Varint32From(s, 28, acc) ==
        if s[0] >= 128 then Varint32From(s[1..], 35, r) else if (s[0] / 16) % 8 != 0 then Fail else Got(r, s[1..])
  {
  }

  lemma {:induction false} FifthArithmetic(v: nat, acc: nat)
    requires acc < 0x1000_0000
    ensures (acc + 0x1000_0000 * v) % TWO32 == acc + 0x1000_0000 * (v % 16)
    ensures (acc + 0x1000_0000 * v) / 0x8_0000_0000 == v / 128
    ensures (v % 128 + 128) % 16 == v % 16
  {
    var q, u := v / 128, v % 128;
    var w, z := u / 16, u % 16;
    var x := acc + 0x1000_0000 * v;
    assert v == 128 * q + 16 * w + z && w < 8;
    Quotient(x, 0x8_0000_0000, q, TWO32 * w + 0x1000_0000 * z + acc);
    assert v == 16 * (8 * q + w) + z;
    Quotient(v, 16, 8 * q + w, z);
    assert x == TWO32 * (8 * q + w) + (0x1000_0000 * z + acc);
    Quotient(x, TWO32, 8 * q + w, 0x1000_0000 * z + acc);
  }

  /** Quotient and remainder are unique. */
  lemma {:induction false} Quotient(x: nat, d: nat, q: nat, r: nat)
    requires r < d && x == d * q + r
    ensures x / d == q && x % d == r
  {
    var e := x / d - q;
    assert d * e == r - x % d;
    assert e >= 1 ==> d * e >= d;
    assert e <= -1 ==> d * e <= -(d as int);
  }

  /** The values whose encoding the 32-bit decoder takes. */
  predicate Accepts32(v: nat) {
    v < TWO32 || (v >= 0x8_0000_0000 && SignTail(v / 0x8_0000_0000, 35, v % TWO32))
  }

  function Read32(v: nat, rest: seq<byte>): Parse<uint32> {
    if Accepts32(v) then Got(v % TWO32, rest) else Fail
  }

  /** One pass of the 32-bit loop over an encoding, before the fifth group. */
  lemma {:induction false} Varint32LowStep(v: nat, n: nat, acc: uint32, rest: seq<byte>)
    requires 7 <= n <= 21 && acc < Shl(1, n)
    ensures var acc' := acc + Shl(v % 128, n);
      && acc' < Shl(1, n + 7) && acc' < 0x1000_0000 && acc' + Shl(v / 128, n + 7) == acc + Shl(v, n)
      && Varint32From(VarintBytes(v) + rest, n, acc)
         == if v < 128 then Got(acc', rest) else Varint32From(VarintBytes(v / 128) + rest, n + 7, acc')
  {
    LowGroup(v, n, acc);
    EncodingHead(v, rest);
    var s := VarintBytes(v) + rest;
    Varint32Unfold(s, n, acc);
    OrField32Low(acc, s[0], n);
    HeadBits(v, s[0]);
  }

  lemma {:induction false} LowGroup(v: nat, n: nat, acc: nat)
    requires n <= 21 && acc < Shl(1, n)
    ensures var acc' := acc + Shl(v % 128, n);
      acc' < Shl(1, n + 7) && acc' < 0x1000_0000 && acc' + Shl(v / 128, n + 7) == acc + Shl(v, n)
  {
    GroupBelow(v % 128, acc, n);
    ShlSplit(v, n);
    BelowBit28(acc + Shl(v % 128, n), n + 7);
  }

  lemma {:induction false} HeadBits(v: nat, b: byte)
    requires b == if v < 128 then v else v % 128 + 128
    ensures b % 128 == v % 128 && (b >= 128 <==> v >= 128)
  {
  }

  lemma {:induction false} BelowBit28(acc: nat, n: nat)
    requires acc < Shl(1, n) && n <= 28
    ensures acc < 0x1000_0000
  {
    ShlGrows(n, 28);
    Shl28(1);
  }

  lemma {:induction false} Varint32Unfold(s: seq<byte>, n: nat, acc: uint32)
    requires n <= 21 && s != []
    ensures var r := OrField32(acc, s[0], n);
      Varint32From(s, n, acc) == if s[0] < 128 then Got(r, s[1..]) else Varint32From(s[1..], n + 7, r)
  {
  }

  lemma {:induction false} Varint32Low(v: nat, k: nat, acc: uint32, rest: seq<byte>)
    requires 1 <= k <= 4 && acc < Shl(1, 7 * k) && acc + Shl(v, 7 * k) < TWO64
    ensures Varint32From(VarintBytes(v) + rest, 7 * k, acc) == Read32(acc + Shl(v, 7 * k), rest)
    decreases 4 - k
  {
    if k == 4 {
      FifthRead(v, acc, rest);
    } else if v < 128 {
      LastLowGroup(v, 7 * k, acc, rest);
    } else {
      var n := 7 * k;
      Varint32LowStep(v, n, acc, rest);
      Varint32Low(v / 128, k + 1, acc + Shl(v % 128, n), rest);
    }
  }

  lemma {:induction false} LastLowGroup(v: nat, n: nat, acc: uint32, rest: seq<byte>)
    requires 7 <= n <= 21 && v < 128 && acc < Shl(1, n)
    ensures Varint32From(VarintBytes(v) + rest, n, acc) == Read32(acc + Shl(v, n), rest)
  {
    Varint32LowStep(v, n, acc, rest);
    ShlZero(n + 7);
    Accepts32Small(acc + Shl(v, n), rest);
  }

  lemma {:induction false} FifthRead(v: nat, acc: uint32, rest: seq<byte>)
    requires acc < Shl(1, 28) && acc + Shl(v, 28) < TWO64
    ensures Varint32From(VarintBytes(v) + rest, 28, acc) == Read32(acc + Shl(v, 28), rest)
  {
    Shl28(1);
    Shl28(v);
    Varint32Fifth(v, acc, rest);
  }

  lemma {:induction false} ShlZero(n: nat)
    ensures Shl(0, n) == 0
  {
    if n > 0 {
      ShlZero(n - 1);
    }
  }

  lemma {:induction false} Accepts32Small(v: uint32, rest: seq<byte>)
    ensures Read32(v, rest) == Got(v, rest)
  {
  }

  /** pb_decode_varint32 on every encoding: the value modulo 2^32 when it accepts, else an error. */
  lemma {:induction false} Varint32OfEncoding(v: uint64, rest: seq<byte>)
    ensures Varint32(VarintBytes(v) + rest) == Read32(v, rest)
  {
    EncodingHead(v, rest);
    if v >= 128 {
      SecondGroup(v);
      var s := VarintBytes(v) + rest;
      assert s[0] % 128 == v % 128;
      Varint32Low(v / 128, 1, v % 128, rest);
    } else {
      Accepts32Small(v, rest);
    }
  }

  lemma {:induction false} SecondGroup(v: nat)
    ensures v % 128 < Shl(1, 7) && v % 128 + Shl(v / 128, 7) == v
  {
    Shl7(1);
    Shl7(v / 128);
  }

  /** The 7-bit group of v at bit 7k, for the groups above bit 35. */
  predicate EmptyOrFull(v: nat) {
    && (v / 0x8_0000_0000) % 128 in {0, 127}
    && (v / 0x400_0000_0000) % 128 in {0, 127}
    && (v / 0x2_0000_0000_0000) % 128 in {0, 127}
    && (v / 0x100_0000_0000_0000) % 128 in {0, 127}
  }

  /** Exactly which 64-bit values the 32-bit decoder takes: the 32-bit ones, and those with the top
      bit and bit 31 set whose groups in between are all zeros or all ones (bits 32 to 34 are lost). */
  lemma {:induction false} Accepts32Exactly(v: uint64)
    ensures Accepts32(v) <==> v < TWO32 || (v >= TWO63 && v % TWO32 >= TWO31 && EmptyOrFull(v))
    ensures TWO32 <= v < TWO63 ==> !Accepts32(v)
    ensures v >= TWO64 - TWO31 ==> Accepts32(v)
  {
    var w5 := v / 0x8_0000_0000;
    var w6, w7, w8, w9 := w5 / 128, w5 / 128 / 128, w5 / 128 / 128 / 128, w5 / 128 / 128 / 128 / 128;
    assert w6 == v / 0x400_0000_0000 && w7 == v / 0x2_0000_0000_0000;
    assert w8 == v / 0x100_0000_0000_0000 && w9 == v / TWO63;
    if v >= 0x8_0000_0000 {
      var r := v % TWO32;
      assert SignTail(w5, 35, r) <==>
        (w5 % 128 == 0 || (r >= TWO31 && w5 >= 128 && w5 % 128 == 127)) && (w5 < 128 || SignTail(w6, 42, r));
      assert w6 > 0 ==> (SignTail(w6, 42, r) <==>
        (w6 % 128 == 0 || (r >= TWO31 && w6 >= 128 && w6 % 128 == 127)) && (w6 < 128 || SignTail(w7, 49, r)));
      assert w7 > 0 ==> (SignTail(w7, 49, r) <==>
        (w7 % 128 == 0 || (r >= TWO31 && w7 >= 128 && w7 % 128 == 127)) && (w7 < 128 || SignTail(w8, 56, r)));
      assert w8 > 0 ==> (SignTail(w8, 56, r) <==>
        (w8 % 128 == 0 || (r >= TWO31 && w8 >= 128 && w8 % 128 == 127)) && (w8 < 128 || SignTail(w9, 63, r)));
      assert w9 > 0 ==> w9 == 1 && (SignTail(w9, 63, r) <==> r >= TWO31);
    }
  }

  // ---- the two decoders against each other ----

  /** From bit 35 on a group leaves the low 32 bits alone. */
  lemma {:induction false} HighField(acc: uint64, b: byte, n: nat)
    requires (n == 35 || n == 42 || n == 49 || n == 56 || n == 63) && acc < Shl(1, n)
    ensures OrField64(acc, b, n) % TWO32 == acc % TWO32
    ensures n < 63 ==> OrField64(acc, b, n) < Shl(1, n + 7)
  {
    var g := if n == 63 then b % 2 else b % 128;
    HighFieldArithmetic(b, g, n);
    BitOrIsSum(acc, g, n);
    GroupBelow(g, acc, n);
    SameLowWord(acc, Shl(g, n));
  }

  lemma {:induction false} SameLowWord(acc: nat, x: nat)
    requires x % TWO32 == 0
    ensures (acc + x) % TWO32 == acc % TWO32
  {
  }

  lemma {:induction false} HighFieldArithmetic(b: byte, g: nat, n: nat)
    requires (n == 35 || n == 42 || n == 49 || n == 56 || n == 63) && g == if n == 63 then b % 2 else b % 128
    ensures Shl(b % 128, n) % TWO64 == Shl(g, n) && Shl(g, n) % TWO32 == 0
  {
    if n == 63 {
      TopField(b);
    } else if n == 35 {
      Shl35(g);
      Multiple(Shl(g, n), 8 * g);
    } else if n == 42 {
      Shl42(g);
      Multiple(Shl(g, n), 0x400 * g);
    } else if n == 49 {
      Shl49(g);
      Multiple(Shl(g, n), 0x2_0000 * g);
    } else {
      Shl56(g);
      Multiple(Shl(g, n), 0x100_0000 * g);
    }
  }

  lemma {:induction false} Multiple(x: nat, q: nat)
    requires x == TWO32 * q && x < TWO64
    ensures x % TWO32 == 0 && x % TWO64 == x
  {
  }

  lemma {:induction false} TopField(b: byte)
    ensures Shl(b % 128, 63) % TWO64 == Shl(b % 2, 63) && Shl(b % 2, 63) % TWO32 == 0
  {
    Shl63(b % 128);
    Shl63(b % 2);
    var q := b % 128 / 2;
    assert b % 128 == 2 * q + b % 2;
    Quotient(TWO63 * (b % 128), TWO64, q, TWO63 * (b % 2));
    Multiple(TWO63 * (b % 2), 0x8000_0000 * (b % 2));
  }

  /** Parallel runs from bit 35 on: the 32-bit result is already fixed. */
  lemma {:induction false} DecodersAgreeHigh(s: seq<byte>, k: nat, acc: uint64, r: uint32)
    requires 5 <= k <= 9 && acc < Shl(1, 7 * k) && acc % TWO32 == r
    requires Varint64From(s, 7 * k, acc).Got? && Varint32From(s, 7 * k, r).Got?
    ensures Varint64From(s, 7 * k, acc).rest == Varint32From(s, 7 * k, r).rest
    ensures Varint64From(s, 7 * k, acc).value % TWO32 == Varint32From(s, 7 * k, r).value
    decreases 9 - k
  {
    HighField(acc, s[0], 7 * k);
    Varint64Step(s, 7 * k, acc);
    HighStep(s, 7 * k, r);
    if s[0] >= 128 {
      DecodersAgreeHigh(s[1..], k + 1, OrField64(acc, s[0], 7 * k), r);
    }
  }

  lemma {:induction false} Varint64Step(s: seq<byte>, n: nat, acc: uint64)
    requires Varint64From(s, n, acc).Got?
    ensures n < 64 && s != []
    ensures var r := OrField64(acc, s[0], n);
      Varint64From(s, n, acc) == if s[0] < 128 then Got(r, s[1..]) else Varint64From(s[1..], n + 7, r)
  {
  }

  lemma {:induction false} Varint32Low4Step(s: seq<byte>, n: nat, acc: uint32)
    requires n < 32 && Varint32From(s, n, acc).Got?
    ensures s != []
    ensures var r := OrField32(acc, s[0], n);
      Varint32From(s, n, acc) == if s[0] < 128 then Got(r, s[1..]) else Varint32From(s[1..], n + 7, r)
  {
  }

  /** Parallel runs below bit 35: both decoders hold the same bits. */
  lemma {:induction false} DecodersAgreeLow(s: seq<byte>, k: nat, acc: uint32)
    requires 1 <= k <= 4 && acc < Shl(1, 7 * k)
    requires Varint64From(s, 7 * k, acc).Got? && Varint32From(s, 7 * k, acc).Got?
    ensures Varint64From(s, 7 * k, acc).rest == Varint32From(s, 7 * k, acc).rest
    ensures Varint64From(s, 7 * k, acc).value % TWO32 == Varint32From(s, 7 * k, acc).value
    decreases 4 - k
  {
    if k == 4 {
      DecodersAgreeFifth(s, acc);
    } else {
      var n := 7 * k;
      LowStepsAgree(s, n, acc);
      NoWrap(OrField32(acc, s[0], n), TWO32);
      if s[0] >= 128 {
        DecodersAgreeLow(s[1..], k + 1, OrField32(acc, s[0], n));
      }
    }
  }

  lemma {:induction false} LowStepsAgree(s: seq<byte>, n: nat, acc: uint32)
    requires 7 <= n <= 21 && acc < Shl(1, n) && Varint64From(s, n, acc).Got? && Varint32From(s, n, acc).Got?
    ensures s != []
    ensures var r := OrField32(acc, s[0], n);
      && r < Shl(1, n + 7)
      && Varint64From(s, n, acc) == (if s[0] < 128 then Got(r, s[1..]) else Varint64From(s[1..], n + 7, r))
      && Varint32From(s, n, acc) == (if s[0] < 128 then Got(r, s[1..]) else Varint32From(s[1..], n + 7, r))
  {
    Varint64Step(s, n, acc);
    Varint32Low4Step(s, n, acc);
    LowField64(acc, s[0], n);
    OrField32Low(acc, s[0], n);
  }

  lemma {:induction false} DecodersAgreeFifth(s: seq<byte>, acc: uint32)
    requires acc < Shl(1, 28) && Varint64From(s, 28, acc).Got? && Varint32From(s, 28, acc).Got?
    ensures Varint64From(s, 28, acc).rest == Varint32From(s, 28, acc).rest
    ensures Varint64From(s, 28, acc).value % TWO32 == Varint32From(s, 28, acc).value
  {
    Varint64Step(s, 28, acc);
    Varint32Low4Step(s, 28, acc);
    LowField64(acc, s[0], 28);
    FifthField(acc, s[0]);
    if s[0] >= 128 {
      DecodersAgreeHigh(s[1..], 5, OrField64(acc, s[0], 28), OrField32(acc, s[0], 28));
    }
  }

  lemma {:induction false} FifthField(acc: uint32, b: byte)
    requires acc < Shl(1, 28)
    ensures OrField64(acc, b, 28) % TWO32 == OrField32(acc, b, 28)
  {
    LowField64(acc, b, 28);
    FifthLow(acc, b % 128, b);
  }

  lemma {:induction false} FifthLow(acc: uint32, x: nat, b: byte)
    requires acc < Shl(1, 28) && x == b % 128
    ensures (acc + Shl(x, 28)) % TWO32 == OrField32(acc, b, 28)
  {
    Shl28(1);
    Shl28(x);
    OrField32Fifth(acc, b);
    FifthArithmetic(x, acc);
    LowNibble(b);
  }

  lemma {:induction false} LowNibble(b: byte)
    ensures b % 128 % 16 == b % 16
  {
  }

  lemma {:induction false} LowField64(acc: uint32, b: byte, n: nat)
    requires n <= 28 && acc < Shl(1, n)
    ensures OrField64(acc, b, n) == acc + Shl(b % 128, n) < Shl(1, n + 7)
  {
    GroupBelow(b % 128, acc, n);
    ShlGrows(n + 7, 35);
    Shl35(1);
    OrField64Sum(acc, b, n);
  }

  /** On any input that both decoders take, canonical or not, they stop at the same byte and their
      results agree modulo 2^32. */
  lemma {:induction false} DecodersAgree(s: seq<byte>)
    requires Varint64(s).Got? && Varint32(s).Got?
    ensures Varint64(s).rest == Varint32(s).rest
    ensures Varint64(s).value % TWO32 == Varint32(s).value
  {
    Varint64Step(s, 0, 0);
    LowField64(0, s[0], 0);
    assert OrField64(0, s[0], 0) == s[0] % 128;
    if s[0] >= 128 {
      Shl7(1);
      DecodersAgreeLow(s[1..], 1, s[0] % 128);
    }
  }
}
