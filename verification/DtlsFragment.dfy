/** hm_fragment of d1_both.cc: a message buffer with a bitmap of the bytes received, updated in place. */
module DtlsFragment {
  import opened Bytes
  import opened DtlsMessage

  // ---- bits of a byte ----

  /** 1u << n, for n at most 8 */
  function OneShl(n: nat): bv32
    requires n <= 8
  {
    if n == 0 then 1 else if n == 1 then 2 else if n == 2 then 4 else if n == 3 then 8
    else if n == 4 then 16 else if n == 5 then 32 else if n == 6 then 64 else if n == 7 then 128 else 256
  }

  predicate BitSet(x: bv8, k: nat)
    requires k < 8
  {
    (x as bv32) & OneShl(k) != 0
  }

  /** bit_range */
  function BitRange(start: nat, end: nat): bv8
    requires start <= 8 && end <= 8
  {
    (!(OneShl(start) - 1) & (OneShl(end) - 1) & 0xFF) as bv8
  }

  lemma {:induction false} BitRangeBits(start: nat, end: nat, k: nat)
    requires start <= 8 && end <= 8 && k < 8
    ensures BitSet(BitRange(start, end), k) <==> start <= k < end
  {
  }

  lemma {:induction false} OrBits(x: bv8, y: bv8, k: nat)
    requires k < 8
    ensures BitSet(x | y, k) <==> BitSet(x, k) || BitSet(y, k)
  {
  }

  lemma {:induction false} OnesByte(x: bv8)
    ensures x == 0xFF <==> forall k: nat :: k < 8 ==> BitSet(x, k)
  {
    assert x == 0xFF <== BitSet(x, 0) && BitSet(x, 1) && BitSet(x, 2) && BitSet(x, 3) && BitSet(x, 4) && BitSet(x, 5) &&
      BitSet(x, 6) && BitSet(x, 7);
  }

  lemma {:induction false} SameBits(x: bv8, y: bv8)
    requires forall k: nat :: k < 8 ==> (BitSet(x, k) <==> BitSet(y, k))
    ensures x == y
  {
    assert (BitSet(x, 0) <==> BitSet(y, 0)) && (BitSet(x, 1) <==> BitSet(y, 1)) && (BitSet(x, 2) <==> BitSet(y, 2)) &&
      (BitSet(x, 3) <==> BitSet(y, 3));
    assert (BitSet(x, 4) <==> BitSet(y, 4)) && (BitSet(x, 5) <==> BitSet(y, 5)) && (BitSet(x, 6) <==> BitSet(y, 6)) &&
      (BitSet(x, 7) <==> BitSet(y, 7));
  }

  // ---- bitmaps ----

  predicate Bit(mask: seq<bv8>, i: nat)
    requires i < 8 * |mask|
  {
    BitSet(mask[i / 8], i % 8)
  }

  function BitsOf(mask: seq<bv8>, n: nat): seq<bool>
    requires n <= 8 * |mask|
  {
    seq(n, i requires 0 <= i < n => Bit(mask, i))
  }

  function Clamp(n: int): nat {
    if n < 0 then 0 else if n > 8 then 8 else n
  }

  /** The bits of byte j that lie in [start, end). */
  function Cover(j: nat, start: nat, end: nat): bv8 {
    BitRange(Clamp(start - 8 * j), Clamp(end - 8 * j))
  }

  /** Or-ing every byte with its cover sets exactly the bits of the range. */
  lemma {:induction false} CoverBits(before: seq<bv8>, after: seq<bv8>, start: nat, end: nat)
    requires |before| == |after|
    requires forall j :: 0 <= j < |before| ==> after[j] == before[j] | Cover(j, start, end)
    ensures forall i: nat :: i < 8 * |before| ==> (Bit(after, i) <==> Bit(before, i) || start <= i < end)
  {
    forall i: nat | i < 8 * |before| ensures Bit(after, i) <==> Bit(before, i) || start <= i < end {
      OrBits(before[i / 8], Cover(i / 8, start, end), i % 8);
      BitRangeBits(Clamp(start - 8 * (i / 8)), Clamp(end - 8 * (i / 8)), i % 8);
    }
  }

  lemma {:induction false} CoverOutside(x: bv8, j: nat, start: nat, end: nat)
    requires 8 * j + 8 <= start || end <= 8 * j
    ensures x | Cover(j, start, end) == x
  {
    forall k: nat | k < 8 ensures BitSet(x | Cover(j, start, end), k) <==> BitSet(x, k) {
      OrBits(x, Cover(j, start, end), k);
      BitRangeBits(Clamp(start - 8 * j), Clamp(end - 8 * j), k);
    }
    SameBits(x | Cover(j, start, end), x);
  }

  lemma {:induction false} CoverInside(x: bv8, j: nat, start: nat, end: nat)
    requires start <= 8 * j && 8 * j + 8 <= end
    ensures x | Cover(j, start, end) == 0xFF
  {
    assert BitRange(0, 8) == 0xFF;
    assert x | 0xFF == 0xFF;
  }

  lemma {:induction false} ClearBits(mask: seq<bv8>)
    requires forall j :: 0 <= j < |mask| ==> mask[j] == 0
    ensures forall i: nat :: i < 8 * |mask| ==> !Bit(mask, i)
  {
    assert forall k: nat :: k < 8 ==> !BitSet(0, k);
  }

  /** The bytes that a bitmap for n bits keeps in use all hold ones: the completeness test. */
  predicate AllOnes(mask: seq<bv8>, n: nat)
    requires |mask| == (n + 7) / 8
  {
    && (forall j :: 0 <= j < n / 8 ==> mask[j] == 0xFF)
    && (n % 8 != 0 ==> mask[n / 8] == BitRange(0, n % 8))
  }

  /** With no bit at n or above, the test holds exactly when the first n bits are all set. */
  lemma {:induction false} AllOnesMeansAll(mask: seq<bv8>, n: nat)
    requires Tracks(mask, n)
    ensures AllOnes(mask, n) <==> forall i: nat :: i < n ==> Bit(mask, i)
  {
    forall j: nat | j < n / 8 ensures mask[j] == 0xFF <==> forall i: nat :: 8 * j <= i < 8 * j + 8 ==> Bit(mask, i) {
      OnesByte(mask[j]);
      assert forall k: nat :: k < 8 ==> BitSet(mask[j], k) == Bit(mask, 8 * j + k);
    }
    if n % 8 != 0 {
      LastByte(mask, n);
    }
  }

  lemma {:induction false} LastByte(mask: seq<bv8>, n: nat)
    requires Tracks(mask, n) && n % 8 != 0
    ensures mask[n / 8] == BitRange(0, n % 8) <==> forall i: nat :: 8 * (n / 8) <= i < n ==> Bit(mask, i)
  {
    var j := n / 8;
    forall k: nat | k < 8
      ensures BitSet(mask[j], k) == Bit(mask, 8 * j + k)
      ensures BitSet(BitRange(0, n % 8), k) <==> 8 * j + k < n
    {
      BitRangeBits(0, n % 8, k);
      assert (8 * j + k) / 8 == j && (8 * j + k) % 8 == k;
    }
    if forall i: nat :: 8 * j <= i < n ==> Bit(mask, i) {
      SameBits(mask[j], BitRange(0, n % 8));
    } else {
      var i: nat :| 8 * j <= i < n && !Bit(mask, i);
      assert !BitSet(mask[j], i - 8 * j);
    }
  }

  /** A bitmap for n bits: just large enough, and nothing set at n or above. */
  predicate Tracks(mask: seq<bv8>, n: nat) {
    |mask| == (n + 7) / 8 && forall i: nat :: n <= i < 8 * |mask| ==> !Bit(mask, i)
  }

  // ---- hm_fragment ----

  class HmFragment {
    const typ: byte
    const seqno: uint16
    const msgLen: uint24
    const data: array<byte>
    var reassembly: array?<bv8>
    ghost const Repr: set<object>

    ghost predicate Valid()
      reads this, Repr
    {
      && this in Repr && data in Repr && (reassembly != null ==> reassembly in Repr)
      && data.Length == DTLS1_HM_HEADER_LENGTH + msgLen
      && data[..12] == HeaderBytes(Header(typ, msgLen, seqno, 0, msgLen))
      && (reassembly != null ==> Tracks(reassembly[..], msgLen) && !All(BitsOf(reassembly[..], msgLen)))
    }

    /** The partial message held. */
    ghost function Model(): Partial
      requires Valid()
      reads this, Repr
    {
      Partial(Message(typ, seqno, data[12..]), if reassembly == null then seq(msgLen, _ => true)
        else BitsOf(reassembly[..], msgLen))
    }

    /** dtls1_hm_fragment_new */
    constructor (h: Header)
      ensures Valid() && fresh(Repr)
      ensures Model() == EmptyPartial(h)
      ensures typ == h.typ && seqno == h.seqno && msgLen == h.msgLen
    {
      typ, seqno, msgLen := h.typ, h.seqno, h.msgLen;
      var header := HeaderBytes(Header(h.typ, h.msgLen, h.seqno, 0, h.msgLen));
      var d := new byte[DTLS1_HM_HEADER_LENGTH + h.msgLen](i => if 0 <= i < |header| then header[i] else 0);
      data := d;
      reassembly := null;
      Repr := {this, d};
      if h.msgLen > 0 {
        var mask := new bv8[(h.msgLen + 7) / 8](_ => 0);
        reassembly := mask;
        Repr := {this, d, mask};
      }
      new;
      assert d[..12] == header;
      if h.msgLen > 0 {
        ClearBits(reassembly[..]);
        assert !BitsOf(reassembly[..], msgLen)[0];
      }
    }

    /** dtls1_hm_fragment_mark */
    method Mark(start: nat, end: nat)
      requires Valid() && reassembly != null && start <= end <= msgLen
      modifies this`reassembly, reassembly
      ensures Valid() && (reassembly == null || reassembly == old(reassembly))
      ensures Model() == Marked(old(Model()), start, end)
      ensures reassembly == null <==> Model().Complete()
    {
      if start == end {
        assert Marked(Model(), start, end).got == Model().got;
        return;
      }
      var complete := MarkMask(reassembly, msgLen, start, end, Model());
      if complete {
        reassembly := null;
      }
    }

    /** A fragment's bytes copied to their place and marked as received. */
    method Store(off: nat, body: seq<byte>)
      requires Valid() && reassembly != null && off + |body| <= msgLen
      modifies Repr
      ensures Valid() && (reassembly == null || reassembly == old(reassembly))
      ensures Model() == Insert(old(Model()), off, body)
      ensures reassembly == null <==> Model().Complete()
    {
      ghost var before, mask := data[..], reassembly[..];
      forall i | 0 <= i < |body| {
        data[DTLS1_HM_HEADER_LENGTH + off + i] := body[i];
      }
      assert data[..12] == before[..12];
      assert data[12..] == Overwrite(before[12..], off, body);
      assert reassembly[..] == mask;
      Mark(off, off + |body|);
    }
  }

  /** The bitmap's part of dtls1_hm_fragment_mark: set the range, then look for a bit still clear. */
  method MarkMask(mask: array<bv8>, n: nat, start: nat, end: nat, ghost p: Partial) returns (complete: bool)
    requires Tracks(mask[..], n) && p.got == BitsOf(mask[..], n) && start < end <= n
    modifies mask
    ensures Tracks(mask[..], n) && BitsOf(mask[..], n) == Marked(p, start, end).got
    ensures complete <==> All(Marked(p, start, end).got)
  {
    ghost var before := mask[..];
    MarkRange(mask, start, end);
    MarkedBits(p, before, mask[..], start, end);
    complete := IsComplete(mask, n);
  }

  lemma {:induction false} MarkedBits(p: Partial, before: seq<bv8>, after: seq<bv8>, start: nat, end: nat)
    requires |before| == |after| && end <= |p.got| <= 8 * |before| && p.got == BitsOf(before, |p.got|)
    requires forall i: nat :: i < 8 * |before| ==> (Bit(after, i) <==> Bit(before, i) || start <= i < end)
    ensures Marked(p, start, end).got == BitsOf(after, |p.got|)
    ensures Marked(p, start, end).Complete() <==> forall i: nat :: i < |p.got| ==> Bit(after, i)
  {
    var q := Marked(p, start, end);
    assert forall i :: 0 <= i < |p.got| ==> q.got[i] == Bit(after, i);
  }

  /** The completeness half of dtls1_hm_fragment_mark. */
  method IsComplete(mask: array<bv8>, n: nat) returns (complete: bool)
    requires Tracks(mask[..], n)
    ensures complete <==> forall i: nat :: i < n ==> Bit(mask[..], i)
  {
    AllOnesMeansAll(mask[..], n);
    for i := 0 to n / 8
      invariant forall j :: 0 <= j < i ==> mask[j] == 0xFF
    {
      if mask[i] != 0xFF {
        return false;
      }
    }
    return n % 8 == 0 || mask[n / 8] == BitRange(0, n % 8);
  }

  /** The marking half of dtls1_hm_fragment_mark: a partial byte, whole bytes, and a partial byte. */
  method MarkRange(mask: array<bv8>, start: nat, end: nat)
    requires start < end <= 8 * mask.Length
    modifies mask
    ensures forall i: nat :: i < 8 * mask.Length ==> (Bit(mask[..], i) <==> Bit(old(mask[..]), i) || start <= i < end)
  {
    var first, last := start / 8, end / 8;
    ghost var before := mask[..];
    ghost var goal := Covered(before, start, end);
    CoveredParts(before, start, end);
    CoverBits(before, goal, start, end);
    if first == last {
      mask[first] := mask[first] | BitRange(start % 8, end % 8);
    } else {
      mask[first] := mask[first] | BitRange(start % 8, 8);
      for i := first + 1 to last
        invariant forall j :: 0 <= j < i ==> mask[j] == goal[j]
        invariant forall j :: i <= j < mask.Length ==> mask[j] == before[j]
      {
        mask[i] := 0xFF;
      }
      if end % 8 != 0 {
        mask[last] := mask[last] | BitRange(0, end % 8);
      }
    }
    assert mask[..] == goal;
  }

  function Covered(before: seq<bv8>, start: nat, end: nat): seq<bv8> {
    seq(|before|, j requires 0 <= j < |before| => before[j] | Cover(j, start, end))
  }

  /** The covered bitmap, byte by byte, as the marking loop writes it. */
  lemma {:induction false} CoveredParts(before: seq<bv8>, start: nat, end: nat)
    requires start < end <= 8 * |before|
    ensures var r, first, last := Covered(before, start, end), start / 8, end / 8;
      && (forall j :: 0 <= j < first || last < j < |before| ==> r[j] == before[j])
      && (forall j :: first < j < last ==> r[j] == 0xFF)
      && (if first == last then r[first] == before[first] | BitRange(start % 8, end % 8)
          else r[first] == before[first] | BitRange(start % 8, 8))
      && (first < last && last < |before| ==> r[last] == before[last] | BitRange(0, end % 8))
      && (end % 8 == 0 && last < |before| ==> r[last] == before[last])
  {
    var first, last := start / 8, end / 8;
    forall j | 0 <= j < |before|
      ensures j < first || last < j || (j == last && end % 8 == 0) ==> before[j] | Cover(j, start, end) == before[j]
      ensures first < j < last ==> before[j] | Cover(j, start, end) == 0xFF
    {
      if j < first || last < j || (j == last && end % 8 == 0) {
        CoverOutside(before[j], j, start, end);
      } else if first < j < last {
        CoverInside(before[j], j, start, end);
      }
    }
  }

  // ---- any number of marks ----

  function MarkedBy(p: Partial, ranges: seq<(nat, nat)>): Partial {
    if ranges == [] then p
      else Marked(MarkedBy(p, ranges[..|ranges| - 1]), ranges[|ranges| - 1].0, ranges[|ranges| - 1].1)
  }

  /** After any marks on a new message, a byte counts as received exactly when some mark covers it. */
  lemma {:induction false} BitmapIsExact(h: Header, ranges: seq<(nat, nat)>)
    ensures |MarkedBy(EmptyPartial(h), ranges).got| == h.msgLen
    ensures forall i :: 0 <= i < h.msgLen ==>
      (MarkedBy(EmptyPartial(h), ranges).got[i] <==> exists r <- ranges :: r.0 <= i < r.1)
  {
    if ranges != [] {
      var front, last := ranges[..|ranges| - 1], ranges[|ranges| - 1];
      BitmapIsExact(h, front);
      assert ranges == front + [last];
    }
  }
}
