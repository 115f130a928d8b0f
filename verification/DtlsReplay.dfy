/** The replay window of dtls_record.cc: a 64-bit map of the record numbers below the highest seen. */
module DtlsReplay {
  import opened Bytes

  const kWindowSize: nat := 64

  // ---- record numbers ----

  /** to_u64_be */
  method ToU64Be(input: seq<byte>) returns (ret: uint64)
    requires |input| == 8
    ensures ret == BigEndian(input)
  {
    ret := 0;
    for i := 0 to 8
      invariant ret == BigEndian(input[..i])
    {
      NextByte(input, i);
      ret := BitOr(Low(Shl(ret, 8), 64), input[i]);
    }
    assert input[..8] == input;
  }

  /** One turn of the loop. */
  lemma {:induction false} NextByte(s: seq<byte>, i: nat)
    requires i < |s| <= 8
    ensures BitOr(Low(Shl(BigEndian(s[..i]), 8), 64), s[i]) == BigEndian(s[..i + 1]) < TWO64
  {
    var v := BigEndian(s[..i]);
    BigEndianBound(s[..i]);
    RoomForByte(v, i, 64);
    ShiftInByte(v, s[i]);
    assert s[..i + 1][..i] == s[..i];
    ShlWords();
    BigEndianBound(s[..i + 1]);
    ShlGrowsTo(8 * (i + 1));
  }

  lemma {:induction false} ShlGrowsTo(n: nat)
    requires n <= 64
    ensures Shl(1, n) <= Shl(1, 64)
  {
    if n < 64 {
      ShlOneBelow(n, 64);
    }
  }

  lemma {:induction false} RoomForByte(v: nat, i: nat, width: nat)
    requires v < Shl(1, 8 * i) && 8 * i + 8 <= width
    ensures 256 * v < Shl(1, width)
  {
    ShlScale(1, 8 * i);
    assert Shl(1, 8 * i + 8) == 2 * Shl(1, 8 * i + 7);
    if 8 * i + 8 < width {
      ShlOneBelow(8 * i + 8, width);
    }
  }

  lemma {:induction false} ShiftInByte(v: nat, b: byte)
    requires 256 * v < Shl(1, 64)
    ensures BitOr(Low(Shl(v, 8), 64), b) == 256 * v + b
  {
    assert Shl(v, 8) == 2 * Shl(v, 7);
    Shl7(v);
    LowKeeps(256 * v, 64);
    assert Shl(1, 8) == 2 * Shl(1, 7);
    Shl7(1);
    BitOrIsSum(b, v, 8);
    BitOrSymmetric(b, 256 * v);
  }

  // ---- the window ----

  datatype Window = Window(bits: uint64, maxSeqNum: uint64)

  predicate Stale(w: Window, n: uint64) {
    n <= w.maxSeqNum && (w.maxSeqNum - n >= kWindowSize || BitAt(w.bits, w.maxSeqNum - n))
  }

  function Slide(w: Window, n: uint64): Window
  {
    if n <= w.maxSeqNum then w
    else Window(if n - w.maxSeqNum >= kWindowSize then 0 else ShiftLeft(w.bits, n - w.maxSeqNum), n)
  }

  function Recorded(w: Window, n: uint64): Window {
    var s := Slide(w, n);
    if s.maxSeqNum - n < kWindowSize then s.(bits := SetBit(s.bits, s.maxSeqNum - n)) else s
  }

  function ShiftLeft(bits: uint64, n: nat): uint64 {
    LowBound(Shl(bits, n), 64);
    ShlWords();
    Low(Shl(bits, n), 64)
  }

  function SetBit(bits: uint64, n: nat): uint64
    requires n < 64
  {
    ShlWords();
    ShlOneBelow(n, 64);
    BitOrBound(bits, Shl(1, n), 64);
    BitOr(bits, Shl(1, n))
  }

  lemma {:induction false} ShlOneBelow(n: nat, m: nat)
    requires n < m
    ensures Shl(1, n) < Shl(1, m)
  {
    ShlMono(1, 1, n);
    if n < m - 1 {
      ShlOneBelow(n, m - 1);
    }
  }

  class ReplayBitmap {
    var bits: uint64
    var maxSeqNum: uint64

    ghost function Model(): Window
      reads this
    {
      Window(bits, maxSeqNum)
    }

    constructor ()
      ensures Model() == Window(0, 0)
    {
      bits, maxSeqNum := 0, 0;
    }

    /** dtls1_bitmap_should_discard */
    method ShouldDiscard(seqNum: seq<byte>) returns (discard: bool)
      requires |seqNum| == 8
      ensures BigEndian(seqNum) < TWO64 && (discard <==> Stale(Model(), BigEndian(seqNum)))
    {
      var n := ToU64Be(seqNum);
      if n > maxSeqNum {
        return false;
      }
      var idx := maxSeqNum - n;
      return idx >= kWindowSize || BitAt(bits, idx);
    }

    /** dtls1_bitmap_record */
    method RecordSeqNum(seqNum: seq<byte>)
      requires |seqNum| == 8
      modifies this
      ensures BigEndian(seqNum) < TWO64 && Model() == Recorded(old(Model()), BigEndian(seqNum))
    {
      var n := ToU64Be(seqNum);
      if n > maxSeqNum {
        var shift := n - maxSeqNum;
        bits := if shift >= kWindowSize then 0 else ShiftLeft(bits, shift);
        maxSeqNum := n;
      }
      var idx := maxSeqNum - n;
      if idx < kWindowSize {
        bits := SetBit(bits, idx);
      }
    }
  }

  // ---- the window against the set of numbers recorded ----

  function Highest(history: seq<uint64>): uint64 {
    if history == [] then 0
    else
      var h := Highest(history[..|history| - 1]);
      if history[|history| - 1] > h then history[|history| - 1] else h
  }

  function After(history: seq<uint64>): Window {
    if history == [] then Window(0, 0) else Recorded(After(history[..|history| - 1]), history[|history| - 1])
  }

  lemma {:induction false} RecordBit(w: Window, n: uint64, i: nat)
    requires i < kWindowSize
    ensures var r := Recorded(w, n);
      BitAt(r.bits, i) <==>
        i == r.maxSeqNum - n || (r.maxSeqNum - w.maxSeqNum <= i && BitAt(w.bits, i - (r.maxSeqNum - w.maxSeqNum)))
  {
    var s := Slide(w, n);
    if n > w.maxSeqNum {
      var shift := n - w.maxSeqNum;
      if shift >= kWindowSize {
        ZeroBit(i);
      } else {
        LowBit(Shl(w.bits, shift), 64, i);
        ShlBit(w.bits, shift, i);
      }
    }
    if s.maxSeqNum - n < kWindowSize {
      OrBit(s.bits, Shl(1, s.maxSeqNum - n), i);
      OneBit(s.maxSeqNum - n, i);
    }
  }

  /** What is recorded is discarded from then on. */
  lemma {:induction false} RecordedIsStale(w: Window, n: uint64)
    ensures Stale(Recorded(w, n), n)
  {
    var i := Slide(w, n).maxSeqNum - n;
    if i < kWindowSize {
      RecordBit(w, n, i);
    }
  }

  /** The window remembers the highest number, and every number recorded within reach below it. */
  lemma {:induction false} WindowHolds(history: seq<uint64>, n: uint64)
    ensures After(history).maxSeqNum == Highest(history)
    ensures n in history ==> n <= Highest(history)
    ensures n <= Highest(history) && Highest(history) - n < kWindowSize ==>
      (BitAt(After(history).bits, Highest(history) - n) <==> n in history)
  {
    if history == [] {
      ZeroBit(0);
    } else {
      var front, last := history[..|history| - 1], history[|history| - 1];
      assert history == front + [last];
      WindowHolds(front, n);
      if n <= Highest(history) && Highest(history) - n < kWindowSize {
        RecordBit(After(front), last, Highest(history) - n);
      }
    }
  }

  /** After any history, a number is discarded exactly when it was recorded or lies a full window back. */
  lemma {:induction false} WindowRefinesSet(history: seq<uint64>, n: uint64)
    ensures Stale(After(history), n) <==> n in history || (n <= Highest(history) && Highest(history) - n >= 64)
  {
    WindowHolds(history, n);
  }
}
