/** Bytes, machine words and the bit-field arithmetic that the wire formats need. */
module Bytes {
  type byte = x: nat | x < 256

  const TWO31: nat := 0x8000_0000
  const TWO32: nat := 0x1_0000_0000
  const TWO63: nat := 0x8000_0000_0000_0000
  const TWO64: nat := 0x1_0000_0000_0000_0000

  type uint16 = x: nat | x < 0x1_0000
  type uint24 = x: nat | x < 0x100_0000
  type uint32 = x: nat | x < TWO32
  type uint64 = x: nat | x < TWO64

  datatype Option<+T> = None | Some(value: T)

  /** What a read leaves: nothing on failure, a value and the unread input otherwise. */
  datatype Parse<+T> = Fail | Got(value: T, rest: seq<byte>)

  lemma {:induction false} Regroup<T>(a: seq<T>, b: seq<T>, c: seq<T>)
    ensures a + b + c == a + (b + c)
  {
  }

  /** v << n, without truncation. */
  function Shl(v: nat, n: nat): nat
    decreases n, v
  {
    if n == 0 then v else 2 * Shl(v, n - 1)
  }

  /** v >> n */
  function Shr(v: nat, n: nat): nat
    decreases n, v
  {
    if n == 0 then v else Shr(v / 2, n - 1)
  }

  /** Bitwise or of two unsigned words, bit by bit. */
  function BitOr(a: nat, b: nat): nat {
    if a == 0 && b == 0 then 0
    else (if a % 2 == 1 || b % 2 == 1 then 1 else 0) + 2 * BitOr(a / 2, b / 2)
  }

  lemma {:induction false} ShlSum(a: nat, b: nat, n: nat)
    ensures Shl(a + b, n) == Shl(a, n) + Shl(b, n)
  {
    if n > 0 {
      ShlSum(a, b, n - 1);
    }
  }

  lemma {:induction false} ShlMono(a: nat, b: nat, n: nat)
    requires a <= b
    ensures Shl(a, n) <= Shl(b, n)
    ensures a > 0 ==> Shl(a, n) >= a
  {
    if n > 0 {
      ShlMono(a, b, n - 1);
    }
  }

  /** Seven more places to the left is a factor of 128 in the operand. */
  lemma {:induction false} ShlSeven(v: nat, n: nat)
    ensures Shl(v, n + 7) == Shl(128 * v, n)
  {
    if n == 0 {
      assert Shl(v, 0) == v;
      assert Shl(v, 1) == 2 * v;
      assert Shl(v, 2) == 4 * v;
      assert Shl(v, 3) == 8 * v;
      assert Shl(v, 4) == 16 * v;
      assert Shl(v, 5) == 32 * v;
      assert Shl(v, 6) == 64 * v;
      assert Shl(v, 7) == 128 * v == Shl(128 * v, 0);
    } else {
      ShlSeven(v, n - 1);
    }
  }

  /** Splitting off the low 7-bit group of v, at bit n. */
  lemma {:induction false} ShlSplit(v: nat, n: nat)
    ensures Shl(v, n) == Shl(v % 128, n) + Shl(v / 128, n + 7)
  {
    ShlSeven(v / 128, n);
    ShlSum(v % 128, 128 * (v / 128), n);
  }

  /** Or-ing in a field that starts at bit n adds it, when the low operand stays below bit n. */
  lemma {:induction false} BitOrIsSum(a: nat, b: nat, n: nat)
    requires a < Shl(1, n)
    ensures BitOr(a, Shl(b, n)) == a + Shl(b, n)
  {
    if n == 0 {
      BitOrZero(b);
    } else {
      BitOrIsSum(a / 2, b, n - 1);
    }
  }

  lemma {:induction false} BitOrZero(b: nat)
    ensures BitOr(0, b) == b
  {
    if b > 0 {
      BitOrZero(b / 2);
    }
  }

  lemma {:induction false} BitOrSymmetric(a: nat, b: nat)
    ensures BitOr(a, b) == BitOr(b, a)
  {
    if a != 0 || b != 0 {
      BitOrSymmetric(a / 2, b / 2);
    }
  }

  lemma {:induction false} BitOrBound(a: nat, b: nat, n: nat)
    requires a < Shl(1, n) && b < Shl(1, n)
    ensures BitOr(a, b) < Shl(1, n)
  {
    if n > 0 {
      BitOrBound(a / 2, b / 2, n - 1);
    }
  }

  lemma {:induction false} ShlScale(v: nat, n: nat)
    ensures Shl(v, n + 7) == 128 * Shl(v, n)
  {
    if n == 0 {
      ShlSeven(v, 0);
    } else {
      ShlScale(v, n - 1);
    }
  }

  // Shifts by whole 7-bit groups, as multiplications.

  lemma {:induction false} Shl7(v: nat) ensures Shl(v, 7) == 0x80 * v { ShlScale(v, 0); }
  lemma {:induction false} Shl14(v: nat) ensures Shl(v, 14) == 0x4000 * v { Shl7(v); ShlScale(v, 7); }
  lemma {:induction false} Shl21(v: nat) ensures Shl(v, 21) == 0x20_0000 * v { Shl14(v); ShlScale(v, 14); }
  lemma {:induction false} Shl28(v: nat) ensures Shl(v, 28) == 0x1000_0000 * v { Shl21(v); ShlScale(v, 21); }
  lemma {:induction false} Shl35(v: nat) ensures Shl(v, 35) == 0x8_0000_0000 * v { Shl28(v); ShlScale(v, 28); }
  lemma {:induction false} Shl42(v: nat) ensures Shl(v, 42) == 0x400_0000_0000 * v { Shl35(v); ShlScale(v, 35); }
  lemma {:induction false} Shl49(v: nat) ensures Shl(v, 49) == 0x2_0000_0000_0000 * v { Shl42(v); ShlScale(v, 42); }
  lemma {:induction false} Shl56(v: nat) ensures Shl(v, 56) == 0x100_0000_0000_0000 * v { Shl49(v); ShlScale(v, 49); }
  lemma {:induction false} Shl63(v: nat) ensures Shl(v, 63) == TWO63 * v { Shl56(v); ShlScale(v, 56); }

  /** The word sizes as shifts. */
  lemma {:induction false} ShlWords()
    ensures Shl(1, 32) == TWO32 && Shl(1, 63) == TWO63 && Shl(1, 64) == TWO64
  {
    Shl28(1);
    Shl63(1);
    assert Shl(1, 32) == 2 * Shl(1, 31) == 4 * Shl(1, 30) == 8 * Shl(1, 29);
  }

  /** The low n bits of v: what an n-bit register keeps. */
  function Low(v: nat, n: nat): nat
    decreases n, v
  {
    if n == 0 then 0 else v % 2 + 2 * Low(v / 2, n - 1)
  }

  predicate BitAt(v: nat, i: nat)
    decreases i, v
  {
    if i == 0 then v % 2 == 1 else BitAt(v / 2, i - 1)
  }

  lemma {:induction false} LowBound(v: nat, n: nat)
    ensures Low(v, n) < Shl(1, n)
  {
    if n > 0 {
      LowBound(v / 2, n - 1);
    }
  }

  lemma {:induction false} LowKeeps(v: nat, n: nat)
    requires v < Shl(1, n)
    ensures Low(v, n) == v
  {
    if n > 0 {
      LowKeeps(v / 2, n - 1);
    }
  }

  lemma {:induction false} LowBit(v: nat, n: nat, i: nat)
    ensures BitAt(Low(v, n), i) <==> i < n && BitAt(v, i)
    decreases i
  {
    if n > 0 && i > 0 {
      LowBit(v / 2, n - 1, i - 1);
    } else if n == 0 {
      ZeroBit(i);
    }
  }

  lemma {:induction false} ZeroBit(i: nat)
    ensures !BitAt(0, i)
  {
    if i > 0 {
      ZeroBit(i - 1);
    }
  }

  lemma {:induction false} ShlBit(v: nat, n: nat, i: nat)
    ensures BitAt(Shl(v, n), i) <==> i >= n && BitAt(v, i - n)
  {
    if n > 0 && i > 0 {
      ShlBit(v, n - 1, i - 1);
    }
  }

  lemma {:induction false} OneBit(n: nat, i: nat)
    ensures BitAt(Shl(1, n), i) <==> i == n
  {
    ShlBit(1, n, i);
    if i > n {
      ZeroBit(i - n - 1);
    }
  }

  lemma {:induction false} OrBit(a: nat, b: nat, i: nat)
    ensures BitAt(BitOr(a, b), i) <==> BitAt(a, i) || BitAt(b, i)
    decreases i
  {
    if a == 0 && b == 0 {
      ZeroBit(i);
    } else if i > 0 {
      OrBit(a / 2, b / 2, i - 1);
    }
  }

  /** A big-endian integer. */
  function BigEndian(s: seq<byte>): nat {
    if s == [] then 0 else 256 * BigEndian(s[..|s| - 1]) + s[|s| - 1]
  }

  /** The low len bytes of n, big end first. */
  function BigEndianBytes(n: nat, len: nat): (s: seq<byte>)
    ensures |s| == len
    decreases len, n
  {
    if len == 0 then [] else BigEndianBytes(n / 256, len - 1) + [n % 256]
  }

  lemma {:induction false} BigEndianRoundTrip(n: nat, len: nat)
    requires n < Shl(1, 8 * len)
    ensures BigEndian(BigEndianBytes(n, len)) == n
  {
    if len > 0 {
      ShlScale(1, 8 * (len - 1));
      assert Shl(1, 8 * len) == 2 * Shl(1, 8 * len - 1);
      BigEndianRoundTrip(n / 256, len - 1);
      assert BigEndianBytes(n, len)[..len - 1] == BigEndianBytes(n / 256, len - 1);
    }
  }

  lemma {:induction false} BigEndianBound(s: seq<byte>)
    ensures BigEndian(s) < Shl(1, 8 * |s|)
  {
    if s != [] {
      BigEndianBound(s[..|s| - 1]);
      ShlScale(1, 8 * (|s| - 1));
      assert Shl(1, 8 * |s|) == 2 * Shl(1, 8 * |s| - 1);
    }
  }

  lemma {:induction false} BigEndianSplit(s: seq<byte>, n: nat)
    requires n <= |s|
    ensures BigEndian(s) == Shl(1, 8 * (|s| - n)) * BigEndian(s[..n]) + BigEndian(s[n..])
  {
    if n == |s| {
      assert s[..n] == s;
    } else {
      var front := s[..|s| - 1];
      BigEndianSplit(front, n);
      assert front[..n] == s[..n] && s[n..][..|s| - n - 1] == front[n..];
      var k := 8 * (|s| - n - 1);
      ShlScale(1, k);
      assert Shl(1, k + 8) == 2 * Shl(1, k + 7);
      assert Shl(1, k + 8) == 256 * Shl(1, k);
      AddDigit(Shl(1, k), BigEndian(s[..n]), BigEndian(front[n..]), s[|s| - 1]);
    }
  }

  lemma {:induction false} AddDigit(scale: nat, high: nat, low: nat, digit: nat)
    ensures 256 * (scale * high + low) + digit == (256 * scale) * high + (256 * low + digit)
  {
    assert 256 * (scale * high) == (256 * scale) * high;
  }

  /** Sequences of one length are told apart by the number they spell. */
  lemma {:induction false} BigEndianInjective(s: seq<byte>, t: seq<byte>)
    requires |s| == |t| && BigEndian(s) == BigEndian(t)
    ensures s == t
  {
    if s != [] {
      BigEndianInjective(s[..|s| - 1], t[..|t| - 1]);
      assert s == s[..|s| - 1] + [s[|s| - 1]] && t == t[..|t| - 1] + [t[|t| - 1]];
    }
  }

  /** Big-endian 16- and 24-bit fields. */
  function U16(n: uint16): seq<byte> {
    [n / 256, n % 256]
  }

  function U24(n: uint24): seq<byte> {
    [n / 65536, (n / 256) % 256, n % 256]
  }

  lemma {:induction false} U16RoundTrip(n: uint16)
    ensures GetU16(U16(n)) == n
  {
  }

  lemma {:induction false} U24RoundTrip(n: uint24)
    ensures GetU24(U24(n)) == n
  {
    var high, low := n / 256, n % 256;
    assert n == 256 * high + low && high == 256 * (high / 256) + high % 256;
    assert n / 65536 == high / 256;
  }

  lemma {:induction false} GetU24RoundTrip(s: seq<byte>)
    requires |s| == 3
    ensures U24(GetU24(s)) == s
  {
    var high: nat := 256 * (s[0] as nat) + s[1];
    assert GetU24(s) == 256 * high + s[2] && GetU24(s) / 256 == high && GetU24(s) / 65536 == s[0];
  }

  function GetU16(s: seq<byte>): uint16
    requires |s| == 2
  {
    256 * (s[0] as nat) + s[1]
  }

  function GetU24(s: seq<byte>): uint24
    requires |s| == 3
  {
    65536 * (s[0] as nat) + 256 * (s[1] as nat) + s[2]
  }
}
