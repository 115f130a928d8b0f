/** The TLS write path: handshake records gathered into a flight (s3_both.cc), application records sealed
    into the write buffer and retried (s3_pkt.cc), and the transport that takes some of what it is given. */
module TlsWrite {
  import opened Bytes
  import opened Ssl

  const INT_MAX: nat := 0x7FFF_FFFF

  /** A record as sealed: by which sealing, its type, its plaintext and the bytes it became. */
  datatype Sealed = Sealed(n: nat, typ: byte, plain: seq<byte>, bytes: seq<byte>, early: bool)

  /** Each record is what its sealing made of its plaintext, and no sealing before the bound made two of them. */
  ghost predicate Genuine(seal: SealFunction, log: seq<Sealed>, bound: nat) {
    || log == []
    || (var r := log[|log| - 1];
        r.n < bound && seal(r.n, r.typ, r.plain) == Some(r.bytes) && Genuine(seal, log[..|log| - 1], r.n))
  }

  /** The same, record by record. */
  lemma {:induction false} GenuineEverywhere(seal: SealFunction, log: seq<Sealed>, bound: nat, i: nat)
    requires Genuine(seal, log, bound) && i < |log|
    ensures log[i].n < bound && seal(log[i].n, log[i].typ, log[i].plain) == Some(log[i].bytes)
    ensures forall j :: i < j < |log| ==> log[i].n < log[j].n
  {
    var front, last := log[..|log| - 1], log[|log| - 1];
    if i < |log| - 1 {
      GenuineEverywhere(seal, front, last.n, i);
      forall j | i < j < |log| ensures log[i].n < log[j].n {
        assert j < |front| ==> front[j] == log[j];
      }
    }
  }

  lemma {:induction false} GenuineGrows(seal: SealFunction, log: seq<Sealed>, r: Sealed, bound: nat)
    requires Genuine(seal, log, r.n) && r.n < bound && seal(r.n, r.typ, r.plain) == Some(r.bytes)
    ensures Genuine(seal, log + [r], bound)
  {
    assert (log + [r])[..|log|] == log;
  }

  /** All sealed bytes, in sealing order. */
  ghost function SealedBytes(log: seq<Sealed>): seq<byte> {
    if log == [] then [] else SealedBytes(log[..|log| - 1]) + log[|log| - 1].bytes
  }

  /** All plaintext of one type, in sealing order. */
  ghost function PlainOf(log: seq<Sealed>, typ: byte): seq<byte> {
    if log == [] then []
    else PlainOf(log[..|log| - 1], typ) + if log[|log| - 1].typ == typ then log[|log| - 1].plain else []
  }

  ghost function EarlyBytes(log: seq<Sealed>): nat {
    if log == [] then 0 else EarlyBytes(log[..|log| - 1]) + if log[|log| - 1].early then |log[|log| - 1].plain| else 0
  }

  lemma {:induction false} LogGrows(log: seq<Sealed>, r: Sealed, typ: byte)
    ensures SealedBytes(log + [r]) == SealedBytes(log) + r.bytes
    ensures PlainOf(log + [r], typ) == if r.typ == typ then PlainOf(log, typ) + r.plain else PlainOf(log, typ)
    ensures EarlyBytes(log + [r]) == EarlyBytes(log) + if r.early then |r.plain| else 0
  {
    assert (log + [r])[..|log|] == log;
  }

  /** Only handshake records of at most max bytes came after the first log. */
  ghost predicate Chunked(first: seq<Sealed>, log: seq<Sealed>, max: nat) {
    first <= log && forall i :: |first| <= i < |log| ==> log[i].typ == SSL3_RT_HANDSHAKE && |log[i].plain| <= max
  }

  /** No application record of more than max bytes came after the first log. */
  ghost predicate AppWithin(first: seq<Sealed>, log: seq<Sealed>, max: nat) {
    && first <= log
    && forall i :: |first| <= i < |log| && log[i].typ == SSL3_RT_APPLICATION_DATA ==> |log[i].plain| <= max
  }

  lemma {:induction false} WithinOn(first: seq<Sealed>, now: seq<Sealed>, log: seq<Sealed>, max: nat)
    requires AppWithin(first, now, max) && AppWithin(now, log, max)
    ensures AppWithin(first, log, max)
  {
  }

  /** One record was sealed: that one. */
  ghost predicate Added(before: seq<Sealed>, log: seq<Sealed>, typ: byte, plain: seq<byte>) {
    before <= log && |log| == |before| + 1 && log[|before|].typ == typ && log[|before|].plain == plain
  }

  /** What a record holds, and of which type. */
  datatype Fragment = Fragment(typ: byte, plain: seq<byte>)

  /** Data cut into fragments, each the lesser of max bytes and what is left. */
  ghost function Fragments(typ: byte, data: seq<byte>, max: nat): seq<Fragment>
    decreases |data|
  {
    if data == [] || max == 0 then []
    else
      var n := Lesser(max, |data|);
      [Fragment(typ, data[..n])] + Fragments(typ, data[n..], max)
  }

  /** What the records hold that came after the first n. */
  ghost function Held(log: seq<Sealed>, n: nat): seq<Fragment> {
    if |log| <= n then []
    else
      var last := log[|log| - 1];
      Held(log[..|log| - 1], n) + [Fragment(last.typ, last.plain)]
  }

  function Lesser(a: nat, b: nat): nat {
    if a < b then a else b
  }

  /** What came after the first n records are the fragments of buf from start on, up to tot. */
  ghost predicate SentTo(log: seq<Sealed>, n: nat, typ: byte, buf: seq<byte>, start: nat, tot: nat, max: nat) {
    && start <= tot <= |buf|
    && Held(log, n) + Fragments(typ, buf[tot..], max) == Fragments(typ, buf[start..], max)
  }

  lemma {:induction false} NoneSent(log: seq<Sealed>, typ: byte, buf: seq<byte>, start: nat, max: nat)
    requires start <= |buf|
    ensures SentTo(log, |log|, typ, buf, start, start, max)
  {
    assert Held(log, |log|) == [];
  }

  lemma {:induction false} FragmentSent(now: seq<Sealed>, log: seq<Sealed>, n: nat, typ: byte, buf: seq<byte>,
    start: nat,
    tot: nat, next: nat, max: nat)
    requires n <= |now| && SentTo(now, n, typ, buf, start, tot, max)
    requires tot < next <= |buf| && next - tot == Lesser(max, |buf| - tot) && Added(now, log, typ, buf[tot..next])
    ensures SentTo(log, n, typ, buf, start, next, max)
  {
    assert log[..|log| - 1] == now;
    assert buf[tot..][..next - tot] == buf[tot..next] && buf[tot..][next - tot..] == buf[next..];
    FragmentRegroup(Held(now, n), Fragment(typ, buf[tot..next]), Fragments(typ, buf[next..], max));
  }

  lemma {:induction false} FragmentRegroup(a: seq<Fragment>, f: Fragment, b: seq<Fragment>)
    ensures (a + [f]) + b == a + ([f] + b)
  {
  }

  /** A message is cut up to tot into the handshake records after the first ones; an empty one makes one record. */
  ghost predicate Cutting(first: seq<Sealed>, log: seq<Sealed>, msg: seq<byte>, tot: nat, max: nat, started: bool) {
    && first <= log && tot <= |msg|
    && PlainOf(log, SSL3_RT_HANDSHAKE) == PlainOf(first, SSL3_RT_HANDSHAKE) + msg[..tot]
    && if started && msg == [] then Held(log, |first|) == [Fragment(SSL3_RT_HANDSHAKE, [])]
       else SentTo(log, |first|, SSL3_RT_HANDSHAKE, msg, 0, tot, max)
  }

  lemma {:induction false} NoneCut(log: seq<Sealed>, msg: seq<byte>, max: nat)
    ensures Cutting(log, log, msg, 0, max, false)
  {
    NoneSent(log, SSL3_RT_HANDSHAKE, msg, 0, max);
    assert PlainOf(log, SSL3_RT_HANDSHAKE) + msg[..0] == PlainOf(log, SSL3_RT_HANDSHAKE);
  }

  lemma {:induction false} CutOn(first: seq<Sealed>, now: seq<Sealed>, r: Sealed, msg: seq<byte>, tot: nat, k: nat,
    max: nat, started: bool)
    requires Cutting(first, now, msg, tot, max, started) && (tot < |msg| || (!started && msg == [])) && max > 0
    requires k == Lesser(max, |msg| - tot) && r.typ == SSL3_RT_HANDSHAKE && r.plain == msg[tot..tot + k]
    ensures Cutting(first, now + [r], msg, tot + k, max, true)
  {
    assert PlainOf(now + [r], SSL3_RT_HANDSHAKE) == PlainOf(first, SSL3_RT_HANDSHAKE) + msg[..tot + k] by {
      LogGrows(now, r, SSL3_RT_HANDSHAKE);
      assert msg[..tot] + msg[tot..tot + k] == msg[..tot + k];
      Regroup(PlainOf(first, SSL3_RT_HANDSHAKE), msg[..tot], r.plain);
    }
    if msg == [] {
      EmptyCut(now, r, |first|, max);
    } else {
      FragmentSent(now, now + [r], |first|, SSL3_RT_HANDSHAKE, msg, 0, tot, tot + k, max);
    }
  }

  lemma {:induction false} EmptyCut(now: seq<Sealed>, r: Sealed, n: nat, max: nat)
    requires n <= |now| && SentTo(now, n, SSL3_RT_HANDSHAKE, [], 0, 0, max)
    requires r.typ == SSL3_RT_HANDSHAKE && r.plain == []
    ensures Held(now + [r], n) == [Fragment(SSL3_RT_HANDSHAKE, [])]
  {
    assert (now + [r])[..|now|] == now && Held(now, n) + [] == Held(now, n);
  }

  lemma {:induction false} CutWhole(first: seq<Sealed>, log: seq<Sealed>, msg: seq<byte>, max: nat)
    requires Cutting(first, log, msg, |msg|, max, true)
    ensures PlainOf(log, SSL3_RT_HANDSHAKE) == PlainOf(first, SSL3_RT_HANDSHAKE) + msg
    ensures Held(log, |first|)
      == if msg == [] then [Fragment(SSL3_RT_HANDSHAKE, [])] else Fragments(SSL3_RT_HANDSHAKE, msg, max)
  {
    assert msg[..|msg|] == msg && msg[|msg|..] == [] && msg[0..] == msg;
    assert Held(log, |first|) + [] == Held(log, |first|);
  }

  /** A write sends all of the rest, or one fragment of it. */
  lemma {:induction false} WriteSent(log: seq<Sealed>, n: nat, typ: byte, buf: seq<byte>, start: nat, tot: nat,
    max: nat)
    requires SentTo(log, n, typ, buf, start, tot, max) && start < tot && max > 0
    requires tot == |buf| || tot == start + max
    ensures Held(log, n) == Fragments(typ, buf[start..tot], max)
  {
    if tot == |buf| {
      assert buf[tot..] == [] && buf[start..tot] == buf[start..];
      assert Held(log, n) + [] == Held(log, n);
    } else {
      var data, rest := buf[start..tot], Fragments(typ, buf[tot..], max);
      assert buf[start..][..max] == data && buf[start..][max..] == buf[tot..];
      assert data[..max] == data && data[max..] == [];
      assert Fragments(typ, data, max) == [Fragment(typ, data)];
      assert Held(log, n) + rest == [Fragment(typ, data)] + rest;
      SameFront(Held(log, n), [Fragment(typ, data)], rest);
    }
  }

  lemma {:induction false} SameFront(a: seq<Fragment>, b: seq<Fragment>, rest: seq<Fragment>)
    requires a + rest == b + rest
    ensures a == b
  {
    assert |a| == |b|;
    assert (a + rest)[..|a|] == a && (b + rest)[..|b|] == b;
  }

  lemma {:induction false} PlainAppends(first: seq<Sealed>, more: seq<Sealed>, typ: byte)
    ensures PlainOf(first + more, typ) == PlainOf(first, typ) + PlainOf(more, typ)
  {
    if more == [] {
      assert first + more == first;
    } else {
      var front, last := more[..|more| - 1], more[|more| - 1];
      PlainAppends(first, front, typ);
      SplitLast(first, more);
      LogGrows(first + front, last, typ);
      LogGrows(front, last, typ);
      Regroup(PlainOf(first, typ), PlainOf(front, typ), last.plain);
    }
  }

  lemma {:induction false} SplitLast(first: seq<Sealed>, more: seq<Sealed>)
    requires more != []
    ensures more == more[..|more| - 1] + [more[|more| - 1]]
    ensures first + more == first + more[..|more| - 1] + [more[|more| - 1]]
  {
  }

  lemma {:induction false} RestOfLog(before: seq<Sealed>, after: seq<Sealed>, typ: byte)
    requires before <= after
    ensures PlainOf(after, typ) == PlainOf(before, typ) + PlainOf(after[|before|..], typ)
  {
    PlainAppends(before, after[|before|..], typ);
    assert after == before + after[|before|..];
  }

  // ---- moving bytes between queues ----

  /** The wire, then what the write buffer holds, then what the flight holds, is all: wire + buffer + flight
      == all (OrderedMeans), taken byte by byte so that the verifier need not concatenate at every step. */
  ghost predicate Ordered(wire: seq<byte>, buffer: seq<byte>, flight: seq<byte>, all: seq<byte>) {
    if wire == [] then buffer + flight == all
    else all != [] && wire[0] == all[0] && Ordered(wire[1..], buffer, flight, all[1..])
  }

  lemma {:induction false} OrderedMeans(wire: seq<byte>, buffer: seq<byte>, flight: seq<byte>, all: seq<byte>)
    ensures Ordered(wire, buffer, flight, all) <==> wire + buffer + flight == all
  {
    if wire == [] {
      assert wire + buffer + flight == buffer + flight;
    } else {
      assert wire + buffer + flight == [wire[0]] + (wire[1..] + buffer + flight);
      if all != [] {
        assert all == [all[0]] + all[1..];
        OrderedMeans(wire[1..], buffer, flight, all[1..]);
      }
    }
  }

  lemma {:induction false} MoveFront(a: seq<byte>, b: seq<byte>, n: nat)
    requires n <= |b|
    ensures a + b[..n] + b[n..] == a + b
  {
  }

  /** now is before, and behind it buf from one place to another. */
  ghost predicate Grown(before: seq<byte>, from: nat, buf: seq<byte>, to: nat, now: seq<byte>) {
    if to == from then now == before else from < to <= |buf| && now == before + buf[from..to]
  }

  /** One record more of buf is sealed behind now, or none: then the place in buf stays as well. */
  ghost predicate OneMore(buf: seq<byte>, tot: nat, to: nat, now: seq<byte>, next: nat, more: seq<byte>) {
    (more == now && next == to) || (to == tot < next <= |buf| && more == now + buf[to..next])
  }

  lemma {:induction false} GrownOn(before: seq<byte>, from: nat, buf: seq<byte>, to: nat, now: seq<byte>, next: nat,
    more: seq<byte>, tot: nat)
    requires Grown(before, from, buf, to, now) && OneMore(buf, tot, to, now, next, more)
    ensures Grown(before, from, buf, next, more)
  {
    if next > to > from {
      assert buf[from..to] + buf[to..next] == buf[from..next];
      Regroup(before, buf[from..to], buf[to..next]);
    }
  }

  lemma {:induction false} PlaceKept(full: seq<byte>, buf: seq<byte>, before: seq<byte>, from: nat, to: nat,
    now: seq<byte>)
    requires buf <= full && from <= |full| && before == full[..from] && Grown(before, from, buf, to, now)
    ensures to <= |full| && now == full[..to]
  {
    if to > from {
      FrontGrows(full, buf, from, to);
    }
  }

  lemma {:induction false} FrontGrows(full: seq<byte>, buf: seq<byte>, from: nat, to: nat)
    requires buf <= full && from <= to <= |buf|
    ensures full[..from] + buf[from..to] == buf[..to] == full[..to]
  {
  }

  lemma {:induction false} BufferToWire(wire: seq<byte>, buffer: seq<byte>, flight: seq<byte>, all: seq<byte>, k: nat)
    requires Ordered(wire, buffer, flight, all) && k <= |buffer|
    ensures Ordered(wire + buffer[..k], buffer[k..], flight, all)
  {
    OrderedMeans(wire, buffer, flight, all);
    OrderedMeans(wire + buffer[..k], buffer[k..], flight, all);
    MoveFront(wire, buffer, k);
  }

  lemma {:induction false} FlightToWire(wire: seq<byte>, flight: seq<byte>, off: nat, all: seq<byte>, k: nat)
    requires off + k <= |flight| && Ordered(wire, [], flight[off..], all)
    ensures Ordered(wire + flight[off..off + k], [], flight[off + k..], all)
  {
    FlightToBuffer(wire, flight[off..], all);
    BufferToWire(wire, flight[off..], [], all, k);
    assert flight[off..][..k] == flight[off..off + k] && flight[off..][k..] == flight[off + k..];
    BufferToFlight(wire + flight[off..off + k], flight[off + k..], all);
  }

  lemma {:induction false} FlightToBuffer(wire: seq<byte>, flight: seq<byte>, all: seq<byte>)
    requires Ordered(wire, [], flight, all)
    ensures Ordered(wire, flight, [], all)
  {
    OrderedMeans(wire, [], flight, all);
    OrderedMeans(wire, flight, [], all);
    assert wire + [] + flight == wire + flight + [];
  }

  lemma {:induction false} BufferToFlight(wire: seq<byte>, buffer: seq<byte>, all: seq<byte>)
    requires Ordered(wire, buffer, [], all)
    ensures Ordered(wire, [], buffer, all)
  {
    OrderedMeans(wire, buffer, [], all);
    OrderedMeans(wire, [], buffer, all);
    assert wire + buffer + [] == wire + [] + buffer;
  }

  lemma {:induction false} SealIntoFlight(wire: seq<byte>, buffer: seq<byte>, flight: seq<byte>, all: seq<byte>,
    more: seq<byte>)
    requires Ordered(wire, buffer, flight, all)
    ensures Ordered(wire, buffer, flight + more, all + more)
  {
    OrderedMeans(wire, buffer, flight, all);
    OrderedMeans(wire, buffer, flight + more, all + more);
    Regroup(wire + buffer, flight, more);
  }

  lemma {:induction false} SealIntoBuffer(wire: seq<byte>, buffer: seq<byte>, all: seq<byte>, more: seq<byte>)
    requires Ordered(wire, buffer, [], all)
    ensures Ordered(wire, buffer + more, [], all + more)
  {
    BufferToFlight(wire, buffer, all);
    SealIntoFlight(wire, [], buffer, all, more);
    FlightToBuffer(wire, buffer + more, all + more);
  }

  /** tls_seal_record: the bytes of the n-th record, or failure. It may be two records, as the 1/n-1 split makes. */
  type SealFunction = (nat, byte, seq<byte>) -> Option<seq<byte>>

  /** BIO_write: what the n-th call of an operation answers when offered so many bytes. */
  type Bio = (nat, nat) -> int

  ghost predicate BioOk(bio: Bio) {
    forall n: nat, len: nat :: bio(n, len) <= len
  }

  /** The transport takes something whenever it is offered something. */
  ghost predicate Takes(bio: Bio) {
    forall n: nat, len: nat :: len > 0 ==> bio(n, len) > 0
  }

  /** The wpend fields: the arguments of the write whose record is not all written. */
  datatype PendingWrite = PendingWrite(pending: bool, tot: nat, buf: int, typ: byte, ret: nat)

  class WritePath {
    const sealRecord: SealFunction
    const maxSealOverhead: nat
    const acceptMovingWriteBuffer: bool
    const partialWrite: bool
    var maxSendFragment: nat
    var writeShutdown: bool
    var sealCount: nat

    var pendingFlight: Option<seq<byte>>
    var pendingFlightOffset: nat
    var writeBuffer: seq<byte>

    // a write in progress
    var wnum: nat
    var wpend: PendingWrite

    // early data
    var inEarlyData: bool
    var canEarlyWrite: bool
    var ticketMaxEarlyData: nat
    var earlyDataWritten: nat

    var transcript: seq<byte>

    /** What the transport took, what was sealed, and the application data that finished writes and the
        write in progress have sealed. */
    ghost var wire: seq<byte>
    ghost var log: seq<Sealed>
    ghost var finished: seq<byte>
    ghost var session: seq<byte>

    ghost function FlightLeft(): seq<byte>
      reads this
    {
      if pendingFlight.Some? &&
        pendingFlightOffset <= |pendingFlight.value| then pendingFlight.value[pendingFlightOffset..] else []
    }

    /** Nothing lost, nothing repeated, nothing out of order. */
    ghost predicate InOrder()
      reads this
    {
      && (pendingFlight.None? ==> pendingFlightOffset == 0)
      && (pendingFlight.Some? ==> pendingFlightOffset <= |pendingFlight.value|)
      && Ordered(wire, writeBuffer, FlightLeft(), SealedBytes(log))
    }

    /** Early data sealed is what is counted as written, a record not yet written out, and extra bytes about
        to be counted; once early data is over, the count may lag. */
    ghost predicate EarlyOk(extra: nat)
      reads this
    {
      && EarlyBytes(log) <= ticketMaxEarlyData
      && earlyDataWritten + extra <= EarlyBytes(log)
      && (Early() ==> EarlyBytes(log) == earlyDataWritten + extra + if AppPending() then wpend.tot else 0)
    }

    predicate Early()
      reads this
    {
      inEarlyData && canEarlyWrite
    }

    ghost predicate AppPending()
      reads this
    {
      wpend.pending && wpend.typ == SSL3_RT_APPLICATION_DATA
    }

    ghost predicate Valid()
      reads this
    {
      Core() && EarlyOk(0)
    }

    ghost predicate Core()
      reads this
    {
      0 < maxSendFragment <= SSL3_RT_MAX_PLAIN_LENGTH && InOrder() && AppOk() && Genuine(sealRecord, log, sealCount)
    }

    /** Application data sealed is that of finished writes, then that of the write in progress. */
    ghost predicate AppOk()
      reads this
    {
      && (wpend.pending ==> wpend.ret == wpend.tot > 0)
      && PlainOf(log, SSL3_RT_APPLICATION_DATA) == finished + session
      && (AppPending() ==> wpend.tot <= |session|)
    }

    /** buf may be what the write in progress was given: what that write has sealed is its front. */
    ghost predicate Retries(buf: seq<byte>)
      reads this
    {
      Follows(buf, wnum)
    }

    constructor (sealRecord: SealFunction, maxSealOverhead: nat, maxSendFragment: nat, acceptMoving: bool,
      partialWrite: bool)
      requires 0 < maxSendFragment <= SSL3_RT_MAX_PLAIN_LENGTH
      ensures Valid() && wire == [] && log == [] && transcript == [] && !wpend.pending && wnum == 0 && session == [] &&
        finished == []
    {
      this.sealRecord, this.maxSealOverhead, this.maxSendFragment := sealRecord, maxSealOverhead, maxSendFragment;
      acceptMovingWriteBuffer, this.partialWrite := acceptMoving, partialWrite;
      writeShutdown, sealCount, pendingFlight, pendingFlightOffset, writeBuffer := false, 0, None, 0, [];
      wnum, wpend := 0, PendingWrite(false, 0, 0, 0, 0);
      inEarlyData, canEarlyWrite, ticketMaxEarlyData, earlyDataWritten := false, false, 0, 0;
      transcript, wire, log, finished, session := [], [], [], [], [];
    }

    /** What the n-th sealing gives fits the room made for it. */
    predicate SealFits(n: nat, typ: byte, plain: seq<byte>) {
      var out := sealRecord(n, typ, plain);
      out.Some? && |out.value| <= |plain| + maxSealOverhead
    }

    ghost predicate AlwaysSeals() {
      forall n: nat, typ: byte, plain: seq<byte> :: SealFits(n, typ, plain)
    }

    /** A record may be sealed: of a length allowed, with nothing in the write buffer and room behind the flight. */
    ghost predicate CanSeal(typ: byte, plain: seq<byte>)
      reads this
    {
      && 0 < |plain| <= SSL3_RT_MAX_PLAIN_LENGTH && writeBuffer == []
      && |plain| + maxSealOverhead + |FlightLeft()| <= 0xFFFF && SealFits(sealCount, typ, plain)
    }

    /** No record waits to be written out, and there is room for a fragment. */
    ghost predicate Idle()
      reads this
    {
      !wpend.pending && writeBuffer == [] && maxSendFragment + maxSealOverhead + |FlightLeft()| <= 0xFFFF
    }

    lemma {:induction false} IdleSeals(typ: byte, plain: seq<byte>)
      requires 0 < |plain| <= maxSendFragment <= SSL3_RT_MAX_PLAIN_LENGTH && Idle() && AlwaysSeals()
      ensures CanSeal(typ, plain)
    {
      assert SealFits(sealCount, typ, plain);
    }

    /** Early data has room for that much more, if this is early data. */
    ghost predicate WithinEarly(n: nat)
      reads this
    {
      Early() ==> n <= ticketMaxEarlyData - earlyDataWritten
    }

    /** Nothing is in the way of a write of what follows a place in buf. */
    ghost predicate Unhindered(buf: seq<byte>, start: nat, bios: nat -> Bio)
      reads this
    {
      && Idle() && AlwaysSeals() && (forall i :: Takes(bios(i)))
      && start < |buf| && WithinEarly(|buf| - start)
    }

    /** Where a write that nothing hinders ends. */
    function EndOfWrite(buf: seq<byte>, start: nat): nat
      reads this
      requires start <= |buf|
    {
      if partialWrite then start + Lesser(maxSendFragment, |buf| - start) else |buf|
    }

    // ---- handshake flights ----

    lemma {:induction false} FlightGrew(before: seq<Sealed>, r: Sealed, flight: seq<byte>)
      requires Ordered(wire, writeBuffer, flight, SealedBytes(before))
      requires pendingFlightOffset == 0 && pendingFlight == Some(flight + r.bytes) && log == before + [r]
      ensures InOrder()
    {
      ghost var more := flight + r.bytes;
      assert more[0..] == more;
      LogGrows(before, r, r.typ);
      SealIntoFlight(wire, writeBuffer, flight, SealedBytes(before), r.bytes);
    }

    /** Append to the flight what a record became. */
    method PushToFlight(ghost r: Sealed, bytes: seq<byte>)
      requires Valid() && pendingFlightOffset == 0 && pendingFlight.Some?
      requires r.typ != SSL3_RT_APPLICATION_DATA && r.bytes == bytes && !r.early
      requires r.n < sealCount && Genuine(sealRecord, log, r.n) && sealRecord(r.n, r.typ, r.plain) == Some(bytes)
      modifies this`pendingFlight, this`log
      ensures Valid() && pendingFlight.Some? && log == old(log) + [r]
    {
      var flight := pendingFlight.value;
      ghost var before := log;
      assert flight[0..] == flight;
      pendingFlight := Some(flight + bytes);
      log := log + [r];
      FlightGrew(before, r, flight);
      LogGrows(before, r, SSL3_RT_APPLICATION_DATA);
      GenuineGrows(sealRecord, before, r, sealCount);
    }

    /** add_record_to_flight */
    method AddRecordToFlight(typ: byte, plain: seq<byte>) returns (ok: bool, ghost r: Sealed)
      requires Valid() && pendingFlightOffset == 0 && typ != SSL3_RT_APPLICATION_DATA
      modifies this`pendingFlight, this`sealCount, this`log
      ensures Valid() && pendingFlight.Some?
      ensures log == if ok then old(log) + [r] else old(log)
      ensures ok ==> r.typ == typ && r.plain == plain && !r.early
      ensures ok <==> SealFits(old(sealCount), typ, plain)
    {
      if pendingFlight.None? {
        pendingFlight := Some([]);
      }
      var out := NextSealed(typ, plain);
      ok := out.Some?;
      r := Sealed(sealCount - 1, typ, plain, if ok then out.value else [], false);
      if ok {
        PushToFlight(r, out.value);
      }
    }

    /** One turn of the loop in ssl3_add_message. */
    method AddChunk(msg: seq<byte>, tot: nat, ghost first: seq<Sealed>, ghost started: bool) returns (ok: bool,
      next: nat)
      requires Valid() && pendingFlightOffset == 0 && Chunked(first, log, maxSendFragment)
      requires Cutting(first, log, msg, tot, maxSendFragment, started) && (tot < |msg| || (!started && msg == []))
      modifies this`pendingFlight, this`sealCount, this`log
      ensures Valid() && Chunked(first, log, maxSendFragment) && (AlwaysSeals() ==> ok)
      ensures next <= |msg| && (tot < |msg| ==> next > tot)
      ensures ok ==> |log| > |first| && Cutting(first, log, msg, next, maxSendFragment, true)
    {
      var n := Lesser(maxSendFragment, |msg| - tot);
      next := tot + n;
      ghost var r, now;
      now := log;
      ok, r := AddRecordToFlight(SSL3_RT_HANDSHAKE, msg[tot..next]);
      if ok {
        CutOn(first, now, r, msg, tot, n, maxSendFragment, started);
      }
    }

    /** ssl3_add_message: one record, or as many as the fragment size makes of it. */
    method AddMessage(msg: seq<byte>) returns (ok: bool)
      requires Valid() && pendingFlightOffset == 0
      modifies this`pendingFlight, this`sealCount, this`log, this`transcript
      ensures Valid() && (AlwaysSeals() ==> ok)
      ensures transcript == if ok then old(transcript) + msg else old(transcript)
      ensures ok ==> PlainOf(log, SSL3_RT_HANDSHAKE) == PlainOf(old(log), SSL3_RT_HANDSHAKE) + msg
      ensures Chunked(old(log), log, maxSendFragment) && (ok ==> |log| > |old(log)|)
      ensures ok && msg == [] ==> Held(log, |old(log)|) == [Fragment(SSL3_RT_HANDSHAKE, [])]
      ensures ok && msg != [] ==> Held(log, |old(log)|) == Fragments(SSL3_RT_HANDSHAKE, msg, maxSendFragment)
    {
      var tot: nat, first: bool := 0, true;
      ok := true;
      NoneCut(log, msg, maxSendFragment);
      while ok && (first || tot < |msg|)
        invariant Valid() && pendingFlightOffset == 0 && transcript == old(transcript)
        invariant Chunked(old(log), log, maxSendFragment) && (AlwaysSeals() ==> ok)
        invariant ok && !first ==> |log| > |old(log)|
        invariant tot <= |msg| && (first ==> tot == 0)
        invariant ok ==> Cutting(old(log), log, msg, tot, maxSendFragment, !first)
        decreases ok, first, |msg| - tot
      {
        ok, tot := AddChunk(msg, tot, old(log), !first);
        first := false;
      }
      if ok {
        CutWhole(old(log), log, msg, maxSendFragment);
        transcript := transcript + msg;
      }
    }

    /** ssl3_add_change_cipher_spec: a record, but no part of the transcript. */
    method AddChangeCipherSpec() returns (ok: bool, ghost r: Sealed)
      requires Valid() && pendingFlightOffset == 0
      modifies this`pendingFlight, this`sealCount, this`log
      ensures Valid()
      ensures log == if ok then old(log) + [r] else old(log)
      ensures ok ==> r.typ == SSL3_RT_CHANGE_CIPHER_SPEC && r.plain == [SSL3_MT_CCS]
    {
      ok, r := AddRecordToFlight(SSL3_RT_CHANGE_CIPHER_SPEC, [SSL3_MT_CCS]);
    }

    /** tls_write_buffer_flush */
    method FlushWriteBuffer(bio: Bio) returns (ret: int)
      requires InOrder() && BioOk(bio)
      modifies this`writeBuffer, this`wire
      ensures InOrder() && old(wire) <= wire
      ensures ret <= 1 && (ret == 1 <==> writeBuffer == [])
      ensures Takes(bio) ==> ret == 1
    {
      var n := 0;
      while writeBuffer != []
        invariant InOrder() && old(wire) <= wire
        decreases |writeBuffer|
      {
        ret := bio(n, |writeBuffer|);
        n := n + 1;
        if ret <= 0 {
          return;
        }
        BufferToWire(wire, writeBuffer, FlightLeft(), SealedBytes(log), ret);
        wire := wire + writeBuffer[..ret];
        writeBuffer := writeBuffer[ret..];
      }
      return 1;
    }

    /** ssl3_flush_flight. The write buffer goes first. */
    method FlushFlight(bio: Bio, flushed: int) returns (ret: int)
      requires Valid() && BioOk(bio)
      modifies this`pendingFlight, this`pendingFlightOffset, this`writeBuffer, this`wire
      ensures Valid() && old(wire) <= wire
      ensures ret <= 1
      ensures ret == 1 ==> pendingFlight.None?
      ensures ret == 1 && old(pendingFlight).Some? ==> wire == SealedBytes(log)
      ensures old(pendingFlight.None? || (!writeShutdown && |pendingFlight.value| <= INT_MAX)) && Takes(bio) &&
        flushed > 0
        ==> ret == 1
    {
      if pendingFlight.None? {
        return 1;
      }
      if writeShutdown {
        return -1;
      }
      if |pendingFlight.value| > INT_MAX {
        return -1;
      }
      ret := 1;
      if writeBuffer != [] {
        ret := FlushWriteBuffer(bio);
      }
      if ret > 0 {
        ret := WriteFlight(bio);
      }
      if ret > 0 {
        if flushed <= 0 {
          return -1;
        }
        ReleaseFlight();
      }
    }

    /** The end of ssl3_flush_flight: all of it is on the wire. */
    method ReleaseFlight()
      requires Valid() && writeBuffer == [] && pendingFlight.Some? && pendingFlightOffset == |pendingFlight.value|
      modifies this`pendingFlight, this`pendingFlightOffset
      ensures Valid() && pendingFlight.None? && wire == SealedBytes(log)
    {
      assert FlightLeft() == [];
      pendingFlight := None;
      pendingFlightOffset := 0;
      OrderedMeans(wire, [], [], SealedBytes(log));
      assert wire + [] + [] == wire;
    }

    /** The transport took k bytes of the flight. */
    method FlightWritten(k: nat)
      requires InOrder() && writeBuffer == [] && pendingFlight.Some? && pendingFlightOffset + k <= |pendingFlight.value|
      modifies this`pendingFlightOffset, this`wire
      ensures InOrder() && old(wire) <= wire && pendingFlightOffset == old(pendingFlightOffset) + k
    {
      FlightToWire(wire, pendingFlight.value, pendingFlightOffset, SealedBytes(log), k);
      wire := wire + pendingFlight.value[pendingFlightOffset..pendingFlightOffset + k];
      pendingFlightOffset := pendingFlightOffset + k;
    }

    /** The loop of ssl3_flush_flight. */
    method WriteFlight(bio: Bio) returns (ret: int)
      requires InOrder() && BioOk(bio) && pendingFlight.Some? && writeBuffer == []
      modifies this`pendingFlightOffset, this`wire
      ensures InOrder() && old(wire) <= wire
      ensures ret <= 1 && (ret == 1 ==> pendingFlightOffset == |pendingFlight.value|)
      ensures Takes(bio) ==> ret == 1
    {
      var n := 0;
      while pendingFlightOffset < |pendingFlight.value|
        invariant InOrder() && old(wire) <= wire && writeBuffer == [] && pendingFlight == old(pendingFlight)
        decreases |pendingFlight.value| - pendingFlightOffset
      {
        ret := bio(n, |pendingFlight.value| - pendingFlightOffset);
        n := n + 1;
        if ret <= 0 {
          return;
        }
        FlightWritten(ret);
      }
      return 1;
    }

    // ---- application data ----

    /** Early data begins: so far no application data was sent. */
    method StartEarlyData(limit: nat)
      requires Valid() && EarlyBytes(log) == 0 && earlyDataWritten == 0 && !AppPending()
      modifies this`inEarlyData, this`canEarlyWrite, this`ticketMaxEarlyData
      ensures Valid() && Early() && ticketMaxEarlyData == limit
    {
      inEarlyData, canEarlyWrite, ticketMaxEarlyData := true, true, limit;
    }

    /** Early data is over, accepted or not. */
    method StopEarlyData()
      requires Valid()
      modifies this`inEarlyData
      ensures Valid() && !Early()
    {
      inEarlyData := false;
    }

    /** ssl3_write_pending */
    method WritePending(typ: byte, addr: int, len: nat, bio: Bio, ghost early: bool) returns (ret: int)
      requires Core() && EarlyOk(0) && wpend.pending && BioOk(bio)
      requires early <==> Early() && typ == SSL3_RT_APPLICATION_DATA
      modifies this`writeBuffer, this`wire, this`wpend
      ensures Core() && EarlyOk(if ret > 0 && early then ret else 0) && old(wire) <= wire
      ensures wpend == old(wpend).(pending := ret <= 0)
      ensures ret > 0 ==> ret == wpend.ret <= len && wpend.typ == typ && writeBuffer == []
      ensures var refused := wpend.tot > len || (!acceptMovingWriteBuffer && wpend.buf != addr) || wpend.typ != typ;
        if refused then ret == -1 && wire == old(wire) && writeBuffer == old(writeBuffer)
          else (ret > 0 <==> writeBuffer == []) && (Takes(bio) ==> ret > 0)
    {
      if wpend.tot > len || (!acceptMovingWriteBuffer && wpend.buf != addr) || wpend.typ != typ {
        return -1;
      }
      ret := FlushWriteBuffer(bio);
      if ret <= 0 {
        return;
      }
      wpend := wpend.(pending := false);
      return wpend.ret;
    }

    /** Unflushed handshake data becomes the front of the write buffer. */
    method TakeFlight()
      requires Core() && writeBuffer == []
      modifies this`writeBuffer, this`pendingFlight, this`pendingFlightOffset
      ensures Core() && writeBuffer == old(FlightLeft()) && pendingFlight.None?
    {
      if pendingFlight.Some? {
        FlightToBuffer(wire, FlightLeft(), SealedBytes(log));
        writeBuffer := pendingFlight.value[pendingFlightOffset..];
        pendingFlight := None;
        pendingFlightOffset := 0;
      }
    }

    lemma {:induction false} BufferGrew(before: seq<Sealed>, buffer: seq<byte>, r: Sealed)
      requires Ordered(wire, buffer, [], SealedBytes(before)) && pendingFlight.None? && pendingFlightOffset == 0
      requires writeBuffer == buffer + r.bytes && log == before + [r]
      ensures InOrder()
    {
      LogGrows(before, r, r.typ);
      SealIntoBuffer(wire, buffer, SealedBytes(before), r.bytes);
    }

    lemma {:induction false} SessionGrew(before: seq<Sealed>, done: seq<byte>, r: Sealed)
      requires PlainOf(before, SSL3_RT_APPLICATION_DATA) == finished + done && log == before + [r]
      requires wpend.pending && wpend.ret == wpend.tot && wpend.tot == |r.plain| && wpend.tot > 0 && wpend.typ == r.typ
      requires session == if r.typ == SSL3_RT_APPLICATION_DATA then done + r.plain else done
      ensures AppOk()
    {
      LogGrows(before, r, SSL3_RT_APPLICATION_DATA);
      Regroup(finished, done, r.plain);
    }

    lemma {:induction false} EarlyGrew(before: seq<Sealed>, r: Sealed)
      requires EarlyBytes(before) <= ticketMaxEarlyData && earlyDataWritten <= EarlyBytes(before) && log == before + [r]
      requires Early() ==> EarlyBytes(before) == earlyDataWritten
      requires r.early ==> |r.plain| <= ticketMaxEarlyData - earlyDataWritten
      requires r.early <==> Early() && r.typ == SSL3_RT_APPLICATION_DATA
      requires wpend.pending && wpend.tot == |r.plain| && wpend.typ == r.typ
      ensures EarlyOk(0)
    {
      LogGrows(before, r, r.typ);
    }

    lemma {:induction false} PendingStarted(before: seq<Sealed>, buffer: seq<byte>, done: seq<byte>, r: Sealed)
      requires 0 < maxSendFragment <= SSL3_RT_MAX_PLAIN_LENGTH
      requires Ordered(wire, buffer, [], SealedBytes(before)) && pendingFlight.None? && pendingFlightOffset == 0
      requires PlainOf(before, SSL3_RT_APPLICATION_DATA) == finished + done
      requires EarlyBytes(before) <= ticketMaxEarlyData && earlyDataWritten <= EarlyBytes(before)
      requires Early() ==> EarlyBytes(before) == earlyDataWritten
      requires r.early ==> |r.plain| <= ticketMaxEarlyData - earlyDataWritten
      requires r.early <==> Early() && r.typ == SSL3_RT_APPLICATION_DATA
      requires wpend.pending && wpend.ret == wpend.tot && wpend.tot == |r.plain| && wpend.tot > 0 && wpend.typ == r.typ
      requires session == if r.typ == SSL3_RT_APPLICATION_DATA then done + r.plain else done
      requires r.n < sealCount && Genuine(sealRecord, before, r.n) && sealRecord(r.n, r.typ, r.plain) == Some(r.bytes)
      requires writeBuffer == buffer + r.bytes && log == before + [r]
      ensures Core() && EarlyOk(0)
    {
      BufferGrew(before, buffer, r);
      SessionGrew(before, done, r);
      EarlyGrew(before, r);
      GenuineGrows(sealRecord, before, r, sealCount);
    }

    /** A sealed record joins the write buffer, and the arguments are remembered for a retry. */
    method StartPending(ghost n: nat, typ: byte, plain: seq<byte>, addr: int, out: seq<byte>, ghost early: bool)
      returns (ghost r: Sealed)
      requires Core() && EarlyOk(0) && !wpend.pending && pendingFlight.None? && plain != []
      requires n < sealCount && Genuine(sealRecord, log, n) && sealRecord(n, typ, plain) == Some(out)
      requires early ==> |plain| <= ticketMaxEarlyData - earlyDataWritten
      requires early <==> Early() && typ == SSL3_RT_APPLICATION_DATA
      modifies this`writeBuffer, this`wpend, this`log, this`session
      ensures Core() && EarlyOk(0) && wpend == PendingWrite(true, |plain|, addr, typ, |plain|)
      ensures r == Sealed(n, typ, plain, out, early) && log == old(log) + [r]
      ensures session == if typ == SSL3_RT_APPLICATION_DATA then old(session) + plain else old(session)
    {
      r := Sealed(n, typ, plain, out, early);
      ghost var before, buffer, done := log, writeBuffer, session;
      ghost var grown := if typ == SSL3_RT_APPLICATION_DATA then session + plain else session;
      writeBuffer, log, session := writeBuffer + out, log + [r], grown;
      wpend := PendingWrite(true, |plain|, addr, typ, |plain|);
      PendingStarted(before, buffer, done, r);
    }

    /** What a call of do_ssl3_write may do to the records sealed: nothing, or add the one it was given. */
    twostate predicate SealedOne(sealed: bool, r: Sealed)
      reads this
    {
      && log == (if sealed then old(log) + [r] else old(log))
      && session == (if sealed && r.typ == SSL3_RT_APPLICATION_DATA then old(session) + r.plain else old(session))
    }

    /** The part of do_ssl3_write that seals: not while earlier bytes wait in the buffer, and the flight
        not yet sent goes in front. */
    method SealNew(typ: byte, plain: seq<byte>, addr: int, ghost early: bool) returns (ret: int, ghost r: Sealed)
      requires Core() && EarlyOk(0) && !wpend.pending
      requires early ==> |plain| <= ticketMaxEarlyData - earlyDataWritten
      requires early <==> Early() && typ == SSL3_RT_APPLICATION_DATA
      modifies this`writeBuffer, this`pendingFlight, this`pendingFlightOffset, this`sealCount
      modifies this`wpend, this`log, this`session
      ensures Core() && EarlyOk(0) && SealedOne(ret > 0, r)
      ensures wpend.pending <==> ret > 0
      ensures ret > 0 <==> old(CanSeal(typ, plain))
      ensures r.typ == typ && r.plain == plain && r.early == early
      ensures ret > 0 ==> wpend == PendingWrite(true, |plain|, addr, typ, |plain|) && pendingFlight.None?
    {
      r := Sealed(0, typ, plain, [], early);
      if |plain| > SSL3_RT_MAX_PLAIN_LENGTH || writeBuffer != [] {
        return -1, r;
      }
      if plain == [] {
        return 0, r;
      }
      var flightLen := if pendingFlight.Some? then |pendingFlight.value| - pendingFlightOffset else 0;
      if |plain| + maxSealOverhead + flightLen > 0xFFFF {
        return -1, r;
      }
      ret, r := SealBehindFlight(typ, plain, addr, early);
    }

    method SealBehindFlight(typ: byte, plain: seq<byte>, addr: int, ghost early: bool) returns (ret: int,
      ghost r: Sealed)
      requires Core() && EarlyOk(0) && !wpend.pending && writeBuffer == [] && plain != []
      requires early ==> |plain| <= ticketMaxEarlyData - earlyDataWritten
      requires early <==> Early() && typ == SSL3_RT_APPLICATION_DATA
      modifies this`writeBuffer, this`pendingFlight, this`pendingFlightOffset, this`sealCount, this`wpend, this`log,
        this`session
      ensures Core() && EarlyOk(0) && SealedOne(ret > 0, r)
      ensures wpend.pending <==> ret > 0
      ensures ret > 0 <==> SealFits(old(sealCount), typ, plain)
      ensures r.typ == typ && r.plain == plain && r.early == early && pendingFlight.None?
      ensures ret > 0 ==> wpend == PendingWrite(true, |plain|, addr, typ, |plain|)
    {
      TakeFlight();
      ret, r := SealLast(typ, plain, addr, early);
    }

    /** The record itself, once nothing unsent is in front of the write buffer. */
    method SealLast(typ: byte, plain: seq<byte>, addr: int, ghost early: bool) returns (ret: int, ghost r: Sealed)
      requires Core() && EarlyOk(0) && !wpend.pending && pendingFlight.None? && plain != []
      requires early ==> |plain| <= ticketMaxEarlyData - earlyDataWritten
      requires early <==> Early() && typ == SSL3_RT_APPLICATION_DATA
      modifies this`writeBuffer, this`sealCount, this`wpend, this`log, this`session
      ensures Core() && EarlyOk(0) && SealedOne(ret > 0, r)
      ensures wpend.pending <==> ret > 0
      ensures ret > 0 <==> SealFits(old(sealCount), typ, plain)
      ensures r.typ == typ && r.plain == plain && r.early == early
      ensures ret > 0 ==> wpend == PendingWrite(true, |plain|, addr, typ, |plain|)
    {
      r := Sealed(0, typ, plain, [], early);
      var out := NextSealed(typ, plain);
      ret := -1;
      if out.Some? {
        r := StartPending(sealCount - 1, typ, plain, addr, out.value, early);
        ret := 1;
      }
    }

    /** The next sealing, if it fits. */
    method NextSealed(typ: byte, plain: seq<byte>) returns (out: Option<seq<byte>>)
      requires Genuine(sealRecord, log, sealCount)
      modifies this`sealCount
      ensures sealCount == old(sealCount) + 1 && Genuine(sealRecord, log, sealCount)
      ensures out.Some? <==> SealFits(old(sealCount), typ, plain)
      ensures out.Some? ==> out == sealRecord(old(sealCount), typ, plain)
    {
      out := sealRecord(sealCount, typ, plain);
      sealCount := sealCount + 1;
      if out.Some? && |out.value| > |plain| + maxSealOverhead {
        out := None;
      }
    }

    /** do_ssl3_write with no record pending. */
    method WriteNew(typ: byte, plain: seq<byte>, addr: int, bio: Bio, ghost early: bool) returns (ret: int,
      ghost r: Sealed)
      requires Core() && EarlyOk(0) && !wpend.pending && BioOk(bio)
      requires early ==> |plain| <= ticketMaxEarlyData - earlyDataWritten
      requires early <==> Early() && typ == SSL3_RT_APPLICATION_DATA
      modifies this`writeBuffer, this`wire, this`pendingFlight, this`pendingFlightOffset, this`sealCount, this`wpend,
        this`log, this`session
      ensures Core() && EarlyOk(if ret > 0 && early then ret else 0) && old(wire) <= wire
      ensures SealedOne(ret > 0 || wpend.pending, r) && r.typ == typ && r.plain == plain && r.early == early
      ensures wpend.pending || ret > 0 ==> wpend == PendingWrite(ret <= 0, |plain|, addr, typ, |plain|)
      ensures ret > 0 ==> ret == |plain| && !wpend.pending && writeBuffer == [] && pendingFlight.None?
      ensures old(CanSeal(typ, plain)) && Takes(bio) ==> ret > 0
    {
      ret, r := SealNew(typ, plain, addr, early);
      if ret > 0 {
        ret := WritePending(typ, addr, |plain|, bio, early);
      }
    }

    /** do_ssl3_write: with a record already pending nothing more is sealed. */
    method DoWrite(typ: byte, plain: seq<byte>, addr: int, bio: Bio, ghost early: bool) returns (ret: int,
      ghost sealed: bool, ghost r: Sealed)
      requires Core() && EarlyOk(0) && BioOk(bio)
      requires early ==> |plain| <= ticketMaxEarlyData - earlyDataWritten
      requires early <==> Early() && typ == SSL3_RT_APPLICATION_DATA
      modifies this`writeBuffer, this`wire, this`pendingFlight, this`pendingFlightOffset, this`sealCount, this`wpend,
        this`log, this`session
      ensures Core() && EarlyOk(if ret > 0 && early then ret else 0) && old(wire) <= wire
      ensures SealedOne(sealed, r) &&
        (sealed ==> !old(wpend.pending) && r.typ == typ && r.plain == plain && r.early == early)
      ensures old(wpend.pending) || sealed ==>
        wpend == (if sealed then PendingWrite(true, |plain|, addr, typ, |plain|) else old(wpend)).(pending := ret <= 0)
      ensures !old(wpend.pending) && !sealed ==> !wpend.pending && ret <= 0
      ensures ret > 0 ==> ret == wpend.tot <= |plain| && wpend.typ == typ
      ensures old(!wpend.pending && CanSeal(typ, plain)) && Takes(bio) ==> ret > 0
      ensures ret > 0 && sealed ==> writeBuffer == [] && pendingFlight.None?
    {
      sealed, r := false, Sealed(0, typ, plain, [], early);
      if wpend.pending {
        ret := WritePending(typ, addr, |plain|, bio, early);
      } else {
        ret, r := WriteNew(typ, plain, addr, bio, early);
        sealed := ret > 0 || wpend.pending;
      }
    }

    /** The largest record there is room for: the fragment size, and what is left of early data. */
    method MaxRecord() returns (max: nat, early: bool)
      requires Valid()
      ensures early == Early()
      ensures max == if Early() && maxSendFragment > ticketMaxEarlyData - earlyDataWritten then
        ticketMaxEarlyData - earlyDataWritten else maxSendFragment
    {
      early := inEarlyData && canEarlyWrite;
      max := maxSendFragment;
      if early {
        var left: nat := ticketMaxEarlyData - earlyDataWritten;
        if max > left {
          max := left;
        }
      }
    }

    /** How much of what is left goes into the next record, and whether early data has room for any. */
    method NextLength(left: nat) returns (nw: nat, early: bool, noEarlyData: bool)
      requires Valid()
      ensures early == Early() && (noEarlyData <==> early && ticketMaxEarlyData == earlyDataWritten)
      ensures nw <= left && nw <= maxSendFragment && (early ==> nw <= ticketMaxEarlyData - earlyDataWritten)
      ensures left > 0 && WithinEarly(left) ==> !noEarlyData && nw == Lesser(maxSendFragment, left)
    {
      var max;
      max, early := MaxRecord();
      noEarlyData := early && max == 0;
      nw := if left > max then max else left;
    }

    /** How much of a buffer is sealed when tot bytes of it are written: those, and the record still pending. */
    ghost function Place(tot: nat): nat
      reads this
    {
      tot + if AppPending() then wpend.tot else 0
    }

    /** What the write in progress has sealed is buf up to its place in it. */
    ghost predicate Follows(buf: seq<byte>, tot: nat)
      reads this
    {
      Place(tot) <= |buf| && session == buf[..Place(tot)]
    }

    /** Behind what was sealed before comes what of buf was sealed since, from a place in it on. */
    ghost predicate Grew(before: seq<byte>, from: nat, buf: seq<byte>, tot: nat)
      reads this
    {
      Grown(before, from, buf, Place(tot), session)
    }

    /** The slice of buf that follows what is sealed, as a record; or the record still pending. */
    method WriteSlice(buf: seq<byte>, addr: int, tot: nat, nw: nat, bio: Bio, ghost early: bool) returns (ret: int)
      requires Valid() && BioOk(bio) && tot + nw <= |buf| && nw <= maxSendFragment
      requires early == Early() && (early ==> nw <= ticketMaxEarlyData - earlyDataWritten)
      modifies this`writeBuffer, this`wire, this`pendingFlight, this`pendingFlightOffset, this`sealCount, this`wpend,
        this`log, this`session
      ensures Core() && EarlyOk(if ret > 0 && early then ret else 0) && old(wire) <= wire
      ensures AppWithin(old(log), log, maxSendFragment)
      ensures ret <= nw
      ensures ret > 0 ==> !wpend.pending
      ensures old(Idle()) && AlwaysSeals() && Takes(bio) && nw > 0 ==>
        ret == nw && Idle() && Added(old(log), log, SSL3_RT_APPLICATION_DATA, buf[tot..tot + nw])
      ensures OneMore(buf, tot, old(Place(tot)), old(session), Place(if ret > 0 then tot + ret else tot), session)
    {
      if Idle() && AlwaysSeals() && nw > 0 {
        IdleSeals(SSL3_RT_APPLICATION_DATA, buf[tot..tot + nw]);
      }
      ghost var sealed, r;
      ret, sealed, r := DoWrite(SSL3_RT_APPLICATION_DATA, buf[tot..tot + nw], addr + tot, bio, early);
    }

    method CountEarlyData(n: nat)
      requires Core() && EarlyOk(n) && !wpend.pending
      modifies this`earlyDataWritten
      ensures Valid() && !AppPending() && earlyDataWritten == old(earlyDataWritten) + n
    {
      earlyDataWritten := earlyDataWritten + n;
    }

    method WriteAndCount(buf: seq<byte>, addr: int, tot: nat, nw: nat, bio: Bio, early: bool) returns (ret: int)
      requires Valid() && BioOk(bio) && tot + nw <= |buf| && nw <= maxSendFragment
      requires early == Early() && (early ==> nw <= ticketMaxEarlyData - earlyDataWritten)
      modifies this`writeBuffer, this`wire, this`pendingFlight, this`pendingFlightOffset, this`sealCount, this`wpend,
        this`log, this`session, this`earlyDataWritten
      ensures Valid() && old(wire) <= wire && AppWithin(old(log), log, maxSendFragment)
      ensures ret <= nw
      ensures ret > 0 ==> !wpend.pending
      ensures earlyDataWritten == old(earlyDataWritten) + if ret > 0 && early then ret else 0
      ensures old(Idle()) && AlwaysSeals() && Takes(bio) && nw > 0 ==>
        ret == nw && Idle() && Added(old(log), log, SSL3_RT_APPLICATION_DATA, buf[tot..tot + nw])
      ensures OneMore(buf, tot, old(Place(tot)), old(session), Place(if ret > 0 then tot + ret else tot), session)
    {
      ret := WriteSlice(buf, addr, tot, nw, bio, early);
      if ret > 0 && early {
        CountEarlyData(ret);
      }
    }

    /** One turn of the loop in ssl3_write_app_data. */
    method WriteOneRecord(buf: seq<byte>, addr: int, tot: nat, bio: Bio) returns (ret: int, noEarlyData: bool)
      requires Valid() && BioOk(bio) && tot <= |buf|
      modifies this`writeBuffer, this`wire, this`pendingFlight, this`pendingFlightOffset, this`sealCount, this`wpend,
        this`log, this`session, this`earlyDataWritten
      ensures Valid() && old(wire) <= wire && AppWithin(old(log), log, maxSendFragment)
      ensures old(Idle() && WithinEarly(|buf| - tot)) && AlwaysSeals() && Takes(bio) && tot < |buf| ==>
        && ret == Lesser(maxSendFragment, |buf| - tot) && Idle() && WithinEarly(|buf| - tot - ret)
        && Added(old(log), log, SSL3_RT_APPLICATION_DATA, buf[tot..tot + ret])
      ensures noEarlyData ==> ret == -1 && log == old(log) && ticketMaxEarlyData == earlyDataWritten
      ensures ret <= |buf| - tot
      ensures ret > 0 ==> !wpend.pending
      ensures OneMore(buf, tot, old(Place(tot)), old(session), Place(if ret > 0 then tot + ret else tot), session)
    {
      var nw, early;
      nw, early, noEarlyData := NextLength(|buf| - tot);
      if noEarlyData {
        return -1, true;
      }
      ret := WriteAndCount(buf, addr, tot, nw, bio, early);
    }

    /** The same, on top of the fragments sent so far. */
    method WriteFragment(buf: seq<byte>, addr: int, ghost start: nat, tot: nat, bio: Bio, ghost first: seq<Sealed>,
      ghost before: seq<byte>, ghost from: nat, ghost smooth: bool) returns (ret: int, noEarlyData: bool, next: nat)
      requires Valid() && BioOk(bio) && start <= tot <= |buf| && AppWithin(first, log, maxSendFragment)
      requires Grew(before, from, buf, tot)
      requires smooth ==> Idle() && WithinEarly(|buf| - tot) && AlwaysSeals() && Takes(bio) && tot < |buf|
      requires smooth ==> SentTo(log, |first|, SSL3_RT_APPLICATION_DATA, buf, start, tot, maxSendFragment)
      modifies this`writeBuffer, this`wire, this`pendingFlight, this`pendingFlightOffset, this`sealCount, this`wpend,
        this`log, this`session, this`earlyDataWritten
      ensures Valid() && old(wire) <= wire && AppWithin(first, log, maxSendFragment)
      ensures smooth ==> ret == Lesser(maxSendFragment, |buf| - tot) && Idle() && WithinEarly(|buf| - tot - ret)
      ensures smooth ==>
        SentTo(log, |first|, SSL3_RT_APPLICATION_DATA, buf, start, next, maxSendFragment)
      ensures noEarlyData ==> ret == -1
      ensures next == (if ret > 0 then tot + ret else tot) <= |buf|
      ensures ret > 0 ==> !wpend.pending
      ensures Grew(before, from, buf, next)
    {
      ghost var now, place, had := log, Place(tot), session;
      ret, noEarlyData := WriteOneRecord(buf, addr, tot, bio);
      next := if ret > 0 then tot + ret else tot;
      GrownOn(before, from, buf, place, had, Place(next), session, tot);
      WithinOn(first, now, log, maxSendFragment);
      if smooth {
        FragmentSent(now, log, |first|, SSL3_RT_APPLICATION_DATA, buf, start, tot, tot + ret, maxSendFragment);
      }
    }

    /** A write has returned what it wrote: the next one starts afresh. */
    ghost method FinishSession()
      requires Valid() && !wpend.pending
      modifies this`finished, this`session
      ensures Valid() && finished == old(finished) + old(session) && old(finished) <= finished && session == []
    {
      finished, session := finished + session, [];
    }

    /** Between two moments when no write is in progress, the application records sealed hold exactly what
        the writes that finished in between reported. */
    twostate lemma RecordsHoldWrites()
      requires old(Valid()) && old(session) == [] && old(log) <= log && old(finished) <= finished
      requires Valid() && session == []
      ensures PlainOf(log[|old(log)|..], SSL3_RT_APPLICATION_DATA) == finished[|old(finished)|..]
    {
      RestOfLog(old(log), log, SSL3_RT_APPLICATION_DATA);
      assert old(finished) + old(session) == old(finished) && finished + session == finished;
    }

    /** ssl3_write_app_data. Called again with what it was given before it failed, it goes on where it
        stopped: when it succeeds, the records sealed since the first call hold the buffer's front, each
        byte once, whatever went wrong in between. Its place in that buffer outlives a failed call with any
        front of it, except exactly one with less than had been written: the next call then begins again, and
        seals behind what was sealed before whatever it is given from its new place on. */
    method WriteAppData(buf: seq<byte>, addr: int, bios: nat -> Bio, ghost full: seq<byte>)
      returns (ret: int, needsHandshake: bool)
      requires Valid() && |buf| <= INT_MAX && buf <= full && forall i :: BioOk(bios(i))
      modifies this`writeBuffer, this`wire, this`pendingFlight, this`pendingFlightOffset, this`sealCount, this`wpend,
        this`log, this`session
      modifies this`earlyDataWritten, this`canEarlyWrite, this`wnum, this`finished
      ensures Valid() && old(wire) <= wire && AppWithin(old(log), log, maxSendFragment) && old(finished) <= finished
      ensures old(!writeShutdown && Unhindered(buf, wnum, bios)) ==> ret == EndOfWrite(buf, old(wnum)) > old(wnum)
      ensures old(!writeShutdown && Unhindered(buf, wnum, bios)) ==>
        Held(log, |old(log)|) == Fragments(SSL3_RT_APPLICATION_DATA, buf[old(wnum)..ret], maxSendFragment)
      ensures ret > 0 ==>
        ret <= |buf| && (!partialWrite ==> ret == |buf|) && session == [] && wnum == 0 && !wpend.pending
      ensures ret > 0 ==>
        old(Place(wnum)) <= ret && finished == old(finished) + (old(session) + buf[old(Place(wnum))..ret])
      ensures old(Retries(full)) && ret > 0 ==> finished == old(finished) + buf[..ret]
      ensures ret <= 0 ==> finished == old(finished)
      ensures old(Retries(full)) && ret <= 0 ==> (Retries(full) <==> writeShutdown || |buf| >= old(wnum))
      ensures writeShutdown ==> ret == -1 && log == old(log) && wnum == old(wnum)
      ensures !writeShutdown && |buf| < old(wnum) ==> ret == -1 && log == old(log) && wnum == 0
      ensures needsHandshake ==> ret == -1 && !canEarlyWrite
    {
      var tot, ok := TakePlace(|buf|);
      if !ok {
        return -1, false;
      }
      ret, needsHandshake := WriteRest(buf, addr, tot, bios, full);
    }

    /** How far the write in progress has come, if it may go on with so many bytes. */
    method TakePlace(len: nat) returns (tot: nat, ok: bool)
      requires Valid()
      modifies this`wnum
      ensures Valid() && tot == old(wnum) && wnum == if writeShutdown then old(wnum) else 0
      ensures ok <==> !writeShutdown && tot <= len
    {
      tot := wnum;
      if writeShutdown {
        return tot, false;
      }
      wnum := 0;
      return tot, tot <= len;
    }

    /** What ssl3_write_app_data does once its place is found. */
    method WriteRest(buf: seq<byte>, addr: int, start: nat, bios: nat -> Bio, ghost full: seq<byte>)
      returns (ret: int, needsHandshake: bool)
      requires Valid() && wnum == 0 && start <= |buf| && buf <= full && forall i :: BioOk(bios(i))
      modifies this`writeBuffer, this`wire, this`pendingFlight, this`pendingFlightOffset, this`sealCount, this`wpend,
        this`log, this`session
      modifies this`earlyDataWritten, this`canEarlyWrite, this`wnum, this`finished
      ensures Valid() && old(wire) <= wire && AppWithin(old(log), log, maxSendFragment) && old(finished) <= finished
      ensures old(Unhindered(buf, start, bios)) ==> ret == EndOfWrite(buf, start) > start
      ensures old(Unhindered(buf, start, bios)) ==>
        Held(log, |old(log)|) == Fragments(SSL3_RT_APPLICATION_DATA, buf[start..ret], maxSendFragment)
      ensures ret > 0 ==>
        ret <= |buf| && (!partialWrite ==> ret == |buf|) && session == [] && wnum == 0 && !wpend.pending
      ensures ret > 0 ==>
        old(Place(start)) <= ret && finished == old(finished) + (old(session) + buf[old(Place(start))..ret])
      ensures ret <= 0 ==> finished == old(finished)
      ensures old(Follows(full, start)) ==> if ret > 0 then finished == old(finished) + buf[..ret] else Retries(full)
      ensures needsHandshake ==> ret == -1 && !canEarlyWrite
    {
      var done, tot;
      ghost var from, before := Place(start), session;
      ret, needsHandshake, done, tot := WriteRecords(buf, addr, start, bios);
      if from <= |full| && before == full[..from] {
        PlaceKept(full, buf, before, from, Place(tot), session);
      }
      if done {
        FinishSession();
        ret := tot;
      } else {
        Suspend(tot, needsHandshake);
      }
    }

    lemma {:induction false} GrewTo(before: seq<byte>, from: nat, buf: seq<byte>, tot: nat)
      requires Grew(before, from, buf, tot) && !wpend.pending && tot <= |buf|
      ensures from <= tot && session == before + buf[from..tot]
    {
      assert from == tot ==> before + buf[from..tot] == before;
    }

    /** The loop of ssl3_write_app_data. */
    method WriteRecords(buf: seq<byte>, addr: int, start: nat, bios: nat -> Bio)
      returns (ret: int, needsHandshake: bool, done: bool, tot: nat)
      requires Valid() && wnum == 0 && start <= |buf| && forall i :: BioOk(bios(i))
      modifies this`writeBuffer, this`wire, this`pendingFlight, this`pendingFlightOffset, this`sealCount, this`wpend,
        this`log, this`session
      modifies this`earlyDataWritten
      ensures Valid() && old(wire) <= wire && AppWithin(old(log), log, maxSendFragment)
      ensures start <= tot <= |buf| && Grew(old(session), old(Place(start)), buf, tot)
      ensures old(Unhindered(buf, start, bios)) ==> done && tot == EndOfWrite(buf, start)
      ensures old(Unhindered(buf, start, bios)) ==>
        Held(log, |old(log)|) == Fragments(SSL3_RT_APPLICATION_DATA, buf[start..tot], maxSendFragment)
      ensures done ==> old(Place(start)) <= tot && session == old(session) + buf[old(Place(start))..tot]
      ensures if done then tot > 0 && !wpend.pending && (tot == |buf| || partialWrite) else ret <= 0
      ensures needsHandshake ==> ret == -1 && !done
    {
      var i := 0;
      tot, done, needsHandshake, ret := start, false, false, 1;
      ghost var from, smooth := Place(start), Unhindered(buf, start, bios);
      NoneSent(log, SSL3_RT_APPLICATION_DATA, buf, start, maxSendFragment);
      while ret > 0 && !done
        invariant Valid() && old(wire) <= wire && AppWithin(old(log), log, maxSendFragment)
        invariant start <= tot <= |buf| && Grew(old(session), from, buf, tot)
        invariant smooth ==>
          ret > 0 && tot == if done then EndOfWrite(buf, start) else if partialWrite then start else tot
        invariant smooth && !done ==> Idle() && WithinEarly(|buf| - tot) && tot < |buf|
        invariant smooth ==> SentTo(log, |old(log)|, SSL3_RT_APPLICATION_DATA, buf, start, tot, maxSendFragment)
        invariant done ==> ret > 0 && tot > 0 && !wpend.pending && (tot == |buf| || partialWrite)
        invariant needsHandshake ==> ret == -1
        decreases |buf| - tot, if ret > 0 && !done then 1 else 0
      {
        ret, needsHandshake, tot := WriteFragment(buf, addr, start, tot, bios(i), old(log), old(session), from, smooth);
        i := i + 1;
        done := ret > 0 && (tot == |buf| || partialWrite);
      }
      if done {
        GrewTo(old(session), from, buf, tot);
      }
      if smooth {
        WriteSent(log, |old(log)|, SSL3_RT_APPLICATION_DATA, buf, start, tot, maxSendFragment);
      }
    }

    method Suspend(tot: nat, noEarlyData: bool)
      requires Valid()
      modifies this`wnum, this`canEarlyWrite
      ensures Valid() && wnum == tot && canEarlyWrite == (old(canEarlyWrite) && !noEarlyData)
    {
      wnum := tot;
      if noEarlyData {
        canEarlyWrite := false;
      }
    }

    /** ssl3_dispatch_alert. Behind a pending application record it is a bad retry. */
    method DispatchAlert(alert: seq<byte>, addr: int, bio: Bio) returns (ret: int)
      requires Valid() && BioOk(bio) && |alert| == 2
      modifies this`writeBuffer, this`wire, this`pendingFlight, this`pendingFlightOffset, this`sealCount, this`wpend,
        this`log, this`session
      ensures Valid() && old(wire) <= wire && session == old(session)
      ensures log == old(log) || Added(old(log), log, SSL3_RT_ALERT, alert)
      ensures old(AppPending()) ==> ret <= 0 && log == old(log)
      ensures ret > 0 ==> ret == 1 && !wpend.pending && (old(!wpend.pending) ==> log != old(log))
      ensures old(!wpend.pending && CanSeal(SSL3_RT_ALERT, alert)) && Takes(bio) ==> ret == 1
    {
      ghost var sealed, r;
      ret, sealed, r := DoWrite(SSL3_RT_ALERT, alert, addr, bio, false);
      if ret > 0 {
        ret := 1;
      }
    }
  }
}
