/** The DTLS record layer: dtls_record.cc, and the changes of keys in dtls_method.cc. */
module DtlsRecord {
  import opened Bytes
  import opened Ssl
  import opened DtlsReplay

  const DTLS1_RT_HEADER_LENGTH: nat := 13
  const SSL3_RT_MAX_ENCRYPTED_LENGTH: nat := 16384 + 256 + 64
  const DTLS1_VERSION_MAJOR: nat := 0xFE

  datatype Alert = DecodeError | IllegalParameter | UnexpectedMessage | InternalError | RecordOverflow

  datatype OpenResult = OpenSuccess | OpenDiscard | OpenPartial | OpenCloseNotify | OpenError(alert: Alert)

  /** What dtls_open_record makes of a packet: a record, or a result to pass on. */
  datatype Opened = Record(typ: byte, data: seq<byte>) | NoRecord(result: OpenResult)

  // ---- reading ----

  /** An AEAD context that reads: open takes the type, version, record number and ciphertext. */
  datatype ReadAead = ReadAead(nullCipher: bool, recordVersion: nat,
    open: (byte, nat, seq<byte>, seq<byte>) -> Option<seq<byte>>)

  datatype RecordHeader = RecordHeader(typ: byte, version: nat, sequence: seq<byte>)

  /** The record header and body: nothing when it is cut short or its length is out of range. */
  function ParseRecord(s: seq<byte>): (p: Parse<(RecordHeader, seq<byte>)>)
    ensures p.Got? ==> |p.value.0.sequence| == 8 && |p.rest| + DTLS1_RT_HEADER_LENGTH + |p.value.1| == |s|
  {
    if |s| < 13 then Fail
    else
      var n := GetU16(s[11..13]);
      if |s| < 13 + n || n > SSL3_RT_MAX_ENCRYPTED_LENGTH then Fail
      else Got((RecordHeader(s[0], GetU16(s[1..3]), s[3..11]), s[13..13 + n]), s[13 + n..])
  }

  function NumberOf(sequence: seq<byte>): uint64
    requires |sequence| == 8
  {
    BigEndianBound(sequence);
    ShlWords();
    BigEndian(sequence)
  }

  datatype Reading = Reading(epoch: nat, window: Window)

  predicate VersionOk(aead: ReadAead, version: nat) {
    if aead.nullCipher then version / 256 == DTLS1_VERSION_MAJOR else version == aead.recordVersion
  }

  /** The record a packet begins with is opened: it is well formed, of this version and epoch, new to the
      window, and genuine. */
  function Unsealed(r: Reading, aead: ReadAead, s: seq<byte>): Option<(RecordHeader, seq<byte>)> {
    match ParseRecord(s)
    case Fail => None
    case Got((h, body), _) =>
      if !VersionOk(aead, h.version) || GetU16(h.sequence[..2]) != r.epoch ||
        Stale(r.window, NumberOf(h.sequence)) then None
      else
        match aead.open(h.typ, h.version, h.sequence, body)
        case None => None
        case Some(plain) => Some((h, plain))
  }

  /** It gets through if it is not too long either. */
  function Accepted(r: Reading, aead: ReadAead, s: seq<byte>): Option<(RecordHeader, seq<byte>)> {
    var u := Unsealed(r, aead, s);
    if u.Some? && |u.value.1| > SSL3_RT_MAX_PLAIN_LENGTH then None else u
  }

  /** The bytes of a record header say that it is whole, of the version and of the epoch. */
  predicate HeaderFits(epoch: nat, aead: ReadAead, s: seq<byte>) {
    && |s| >= 13
    && 256 * (s[11] as nat) + s[12] <= 16384 + 256 + 64 && |s| >= 13 + 256 * (s[11] as nat) + s[12]
    && (if aead.nullCipher then s[1] == 0xFE else 256 * (s[1] as nat) + s[2] == aead.recordVersion)
    && 256 * (s[3] as nat) + s[4] == epoch
  }

  /** What the bytes of the record open to. */
  function OpenBytes(aead: ReadAead, s: seq<byte>): Option<seq<byte>>
    requires |s| >= 13 && |s| >= 13 + 256 * (s[11] as nat) + s[12]
  {
    aead.open(s[0], 256 * (s[1] as nat) + s[2], s[3..11], s[13..13 + (256 * (s[11] as nat) + s[12])])
  }

  /** Byte by byte, exactly which packets begin with a record that gets through, and with what. */
  lemma {:induction false} AcceptedExactly(r: Reading, aead: ReadAead, s: seq<byte>)
    ensures Accepted(r, aead, s).Some? <==>
      HeaderFits(r.epoch, aead, s) && !Stale(r.window, NumberOf(s[3..11])) &&
        OpenBytes(aead, s).Some? && |OpenBytes(aead, s).value| <= 16384
    ensures Accepted(r, aead, s).Some? ==>
      var (h, plain) := Accepted(r, aead, s).value;
      h.typ == s[0] && h.sequence == s[3..11] && Some(plain) == OpenBytes(aead, s)
    ensures Accepted(r, aead, s).Some? ==> NumberOf(s[3..11]) / SEQUENCES == r.epoch
  {
    if |s| >= 13 {
      assert s[3..11][..2] == s[3..5];
      EpochOfNumber(s[3..11]);
    }
  }

  /** The 16 high bits of a record's 64-bit number are its epoch. */
  lemma {:induction false} EpochOfNumber(s: seq<byte>)
    requires |s| == 8
    ensures NumberOf(s) / SEQUENCES == GetU16(s[..2])
  {
    BigEndianSplit(s, 2);
    BigEndianBound(s[2..]);
    Widths();
    TwoBytes(s[..2]);
    HighPart(NumberOf(s), GetU16(s[..2]), BigEndian(s[2..]));
  }

  lemma {:induction false} TwoBytes(s: seq<byte>)
    requires |s| == 2
    ensures BigEndian(s) == GetU16(s)
  {
    var high := s[..1];
    assert high[..0] == [] && high[0] == s[0];
    assert BigEndian(high) == s[0];
  }

  lemma {:induction false} HighPart(x: nat, high: nat, low: nat)
    requires x == SEQUENCES * high + low && low < SEQUENCES
    ensures x / SEQUENCES == high
  {
    var e := x / SEQUENCES - high;
    assert SEQUENCES * e == low - x % SEQUENCES;
    assert e >= 1 ==> SEQUENCES * e >= SEQUENCES;
    assert e <= -1 ==> SEQUENCES * e <= -(SEQUENCES as int);
  }

  class ReadState {
    const bitmap: ReplayBitmap
    var rEpoch: nat
    var closeNotify: bool

    ghost function Model(): Reading
      reads this, bitmap
    {
      Reading(rEpoch, bitmap.Model())
    }

    constructor ()
      ensures Model() == Reading(0, Window(0, 0)) && !closeNotify && fresh(bitmap)
    {
      bitmap := new ReplayBitmap();
      rEpoch, closeNotify := 0, false;
    }

    /** dtls_open_record. Alerts go to the caller's handler. */
    method OpenRecord(input: seq<byte>, aead: ReadAead, processAlert: seq<byte> -> OpenResult)
      returns (opening: Opened, consumed: nat)
      modifies bitmap
      ensures var a := Accepted(old(Model()), aead, input);
        if closeNotify || input == [] || a.None? then
          && Model() == old(Model())
          && opening == NoRecord(
            if closeNotify then OpenCloseNotify
            else if input == [] then OpenPartial
            else if Unsealed(old(Model()), aead, input).Some? then OpenError(RecordOverflow)
            else OpenDiscard)
        else
          && Model() == old(Model()).(window := Recorded(old(Model()).window, NumberOf(a.value.0.sequence)))
          && opening == if a.value.0.typ == SSL3_RT_ALERT then NoRecord(processAlert(a.value.1))
            else Record(a.value.0.typ, a.value.1)
      ensures !HeaderFits(old(rEpoch), aead, input) ==> Model() == old(Model()) && opening.NoRecord?
      ensures opening.Record? ==> opening.typ == input[0] && Some(opening.data) == OpenBytes(aead, input)
      ensures consumed == if closeNotify then 0 else match ParseRecord(input)
        case Fail => |input|
        case Got((h, _), rest) => if VersionOk(aead, h.version) then |input| - |rest| else |input|
    {
      AcceptedExactly(Model(), aead, input);
      if closeNotify {
        return NoRecord(OpenCloseNotify), 0;
      }
      if input == [] {
        return NoRecord(OpenPartial), 0;
      }
      var p := ParseRecord(input);
      if p.Fail? || !VersionOk(aead, p.value.0.version) {
        return NoRecord(OpenDiscard), |input|;
      }
      var (h, body) := p.value;
      consumed := |input| - |p.rest|;
      var replay := bitmap.ShouldDiscard(h.sequence);
      if GetU16(h.sequence[..2]) != rEpoch || replay {
        return NoRecord(OpenDiscard), consumed;
      }
      var plain := aead.open(h.typ, h.version, h.sequence, body);
      if plain.None? {
        return NoRecord(OpenDiscard), consumed;
      }
      if |plain.value| > SSL3_RT_MAX_PLAIN_LENGTH {
        return NoRecord(OpenError(RecordOverflow)), consumed;
      }
      bitmap.RecordSeqNum(h.sequence);
      if h.typ == SSL3_RT_ALERT {
        return NoRecord(processAlert(plain.value)), consumed;
      }
      return Record(h.typ, plain.value), consumed;
    }

    /** The record half of dtls1_set_read_state: the next epoch starts with an empty window. */
    method SetReadState()
      modifies this, bitmap
      ensures Model() == Reading((old(rEpoch) + 1) % 0x1_0000, Window(0, 0)) && closeNotify == old(closeNotify)
    {
      rEpoch := (rEpoch + 1) % 0x1_0000;
      bitmap.bits, bitmap.maxSeqNum := 0, 0;
    }
  }

  predicate AllDifferent<T(==)>(s: seq<T>) {
    forall i, j :: 0 <= i < j < |s| ==> s[i] != s[j]
  }

  lemma {:induction false} OneMoreDiffers<T>(s: seq<T>, x: T)
    ensures AllDifferent(s + [x]) <==> AllDifferent(s) && x !in s
  {
    var t := s + [x];
    assert t[|s|] == x && forall i :: 0 <= i < |s| ==> t[i] == s[i];
  }

  /** What a reader meets: packets, each with an AEAD of its own perhaps, and changes of its keys. */
  datatype ReadStep = Arrival(aead: ReadAead, bytes: seq<byte>) | NextEpoch

  /** Where that leaves it. earlier, current: the numbers of the records that got through, before the last
      change of keys and since; inForce: the epoch the reader was in at each of them. */
  datatype Received = Received(
    reading: Reading, earlier: seq<uint64>, current: seq<uint64>, inForce: seq<nat>, changes: nat)

  function Receive(steps: seq<ReadStep>): Received {
    if steps == [] then Received(Reading(0, Window(0, 0)), [], [], [], 0)
    else Meet(Receive(steps[..|steps| - 1]), steps[|steps| - 1])
  }

  function Meet(g: Received, s: ReadStep): Received {
    match s
    case NextEpoch =>
      var next := Reading((g.reading.epoch + 1) % EPOCHS, Window(0, 0));
      Received(next, g.earlier + g.current, [], g.inForce, g.changes + 1)
    case Arrival(aead, bytes) =>
      var a := Accepted(g.reading, aead, bytes);
      if a.None? then g
      else
        var n := NumberOf(a.value.0.sequence);
        g.(reading := g.reading.(window := Recorded(g.reading.window, n)), current := g.current + [n],
           inForce := g.inForce + [g.reading.epoch])
  }

  /** The window holds what got through in this epoch; each record carries the epoch it got through in. */
  predicate InEpoch(g: Received) {
    && g.reading.window == After(g.current)
    && (forall n <- g.current :: n / SEQUENCES == g.reading.epoch)
    && |g.inForce| == |g.earlier + g.current|
    && forall i :: 0 <= i < |g.inForce| ==> (g.earlier + g.current)[i] / SEQUENCES == g.inForce[i]
  }

  lemma {:induction false} PacketInEpoch(g: Received, n: uint64)
    requires InEpoch(g) && n / SEQUENCES == g.reading.epoch
    ensures InEpoch(g.(reading := g.reading.(window := Recorded(g.reading.window, n)), current := g.current + [n],
      inForce := g.inForce + [g.reading.epoch]))
  {
    assert (g.current + [n])[..|g.current|] == g.current;
    assert g.earlier + (g.current + [n]) == (g.earlier + g.current) + [n];
  }

  lemma {:induction false} AllInEpoch(steps: seq<ReadStep>)
    ensures InEpoch(Receive(steps))
  {
    if steps != [] {
      var g, last := Receive(steps[..|steps| - 1]), steps[|steps| - 1];
      AllInEpoch(steps[..|steps| - 1]);
      if last.NextEpoch? {
        assert g.earlier + g.current + [] == g.earlier + g.current;
      } else {
        AcceptedExactly(g.reading, last.aead, last.bytes);
        if Accepted(g.reading, last.aead, last.bytes).Some? {
          PacketInEpoch(g, NumberOf(last.bytes[3..11]));
        }
      }
    }
  }

  /** Until the epoch wraps: it counts the changes, what came before has an earlier one, and all differ. */
  predicate AllNew(g: Received) {
    && g.reading.epoch == g.changes
    && (forall n <- g.earlier :: n / SEQUENCES < g.reading.epoch)
    && AllDifferent(g.earlier + g.current)
  }

  lemma {:induction false} PacketIsNew(g: Received, n: uint64)
    requires InEpoch(g) && AllNew(g) && n / SEQUENCES == g.reading.epoch && !Stale(g.reading.window, n)
    ensures AllDifferent(g.earlier + (g.current + [n]))
  {
    WindowRefinesSet(g.current, n);
    OneMoreDiffers(g.earlier + g.current, n);
    assert g.earlier + (g.current + [n]) == (g.earlier + g.current) + [n];
  }

  /** Over any run of packets and key changes: each record that gets through carries the epoch then in
      force, and until the 16-bit epoch wraps no epoch and sequence number get through twice. */
  lemma {:induction false} NoReplays(steps: seq<ReadStep>)
    ensures var g := Receive(steps); var got := g.earlier + g.current;
      && |got| == |g.inForce| && (forall i :: 0 <= i < |got| ==> got[i] / SEQUENCES == g.inForce[i])
      && (g.changes < EPOCHS ==> AllDifferent(got))
  {
    AllInEpoch(steps);
    if Receive(steps).changes < EPOCHS {
      AllAreNew(steps);
    }
  }

  lemma {:induction false} AllAreNew(steps: seq<ReadStep>)
    requires Receive(steps).changes < EPOCHS
    ensures AllNew(Receive(steps))
  {
    if steps != [] {
      var front := steps[..|steps| - 1];
      AllAreNew(front);
      AllInEpoch(front);
      MeetKeepsNew(Receive(front), steps[|steps| - 1]);
    }
  }

  lemma {:induction false} MeetKeepsNew(g: Received, s: ReadStep)
    requires InEpoch(g) && AllNew(g) && Meet(g, s).changes < EPOCHS
    ensures AllNew(Meet(g, s))
  {
    if s.NextEpoch? {
      assert g.earlier + g.current + [] == g.earlier + g.current;
    } else {
      AcceptedExactly(g.reading, s.aead, s.bytes);
      if Accepted(g.reading, s.aead, s.bytes).Some? {
        PacketIsNew(g, NumberOf(s.bytes[3..11]));
      }
    }
  }

  // ---- writing ----

  const EPOCHS: nat := 0x1_0000
  /** 2^48 */
  const SEQUENCES: nat := 0x1_0000_0000_0000

  type uint48 = x: nat | x < SEQUENCES

  /** An AEAD context that writes: seal takes the type, version, record number and plaintext. */
  datatype WriteAead = WriteAead(maxOverhead: nat, explicitNonceLen: nat,
    seal: (byte, uint16, seq<byte>, seq<byte>) -> Option<seq<byte>>)
  {
    /** It seals whatever it is given. */
    ghost predicate Total() {
      forall t: byte, v: uint16, n: seq<byte>, p: seq<byte> :: seal(t, v, n, p).Some?
    }

    /** MaxOverhead bounds the expansion. */
    ghost predicate Valid() {
      explicitNonceLen <= maxOverhead &&
      forall t: byte, v: uint16, n: seq<byte>, p: seq<byte> :: seal(t, v, n, p).Some? ==>
        |seal(t, v, n, p).value| <= |p| + maxOverhead
    }
  }

  /** The record number: an epoch, and a sequence number within it. */
  datatype Number = Number(epoch: uint16, sequence: uint48)

  function NumberBytes(n: Number): seq<byte> {
    BigEndianBytes(n.epoch, 2) + BigEndianBytes(n.sequence, 6)
  }

  function RecordBytes(typ: byte, version: uint16, n: Number, body: seq<byte>): seq<byte>
    requires |body| < 0x1_0000
  {
    [typ] + U16(version) + NumberBytes(n) + U16(|body|) + body
  }

  /** What decides record numbers: both epochs' counters, the numbers sealed under so far, and whether
      no counter has wrapped. */
  datatype Writing = Writing(epoch: uint16, next: uint48, lastNext: uint48, used: seq<Number>, intact: bool)

  datatype NumberStep = Seal(previous: bool) | ChangeKeys

  /** A seal increments a 48-bit counter, a change of keys a 16-bit one. */
  function Step(w: Writing, s: NumberStep): Writing {
    match s
    case Seal(previous) =>
      if previous && w.epoch == 0 then w
      else if previous then
        w.(lastNext := (w.lastNext + 1) % SEQUENCES, used := w.used + [Number(w.epoch - 1, w.lastNext)], intact :=
          w.intact && w.lastNext + 1 < SEQUENCES)
      else
        w.(next := (w.next + 1) % SEQUENCES, used := w.used + [Number(w.epoch, w.next)], intact := w.intact &&
          w.next + 1 < SEQUENCES)
    case ChangeKeys =>
      w.(epoch := (w.epoch + 1) % EPOCHS, next := 0, lastNext := w.next, intact := w.intact && w.epoch + 1 < EPOCHS)
  }

  function Steps(steps: seq<NumberStep>): Writing {
    if steps == [] then Writing(0, 0, 0, [], true) else Step(Steps(steps[..|steps| - 1]), steps[|steps| - 1])
  }

  /** Numbers used are below the counters: none is left to be used again. */
  predicate Fresh(w: Writing) {
    && AllDifferent(w.used)
    && (forall n <- w.used :: n.epoch <= w.epoch)
    && (forall n <- w.used :: n.epoch == w.epoch ==> n.sequence < w.next)
    && (forall n <- w.used :: n.epoch + 1 == w.epoch ==> n.sequence < w.lastNext)
  }

  lemma {:induction false} StepKeepsFresh(w: Writing, s: NumberStep)
    requires Fresh(w) && Step(w, s).intact
    ensures Fresh(Step(w, s))
  {
    var r := Step(w, s);
    if s.Seal? && r != w {
      var n := r.used[|w.used|];
      assert r.used == w.used + [n] && n !in w.used;
      OneMoreDiffers(w.used, n);
      assert forall m <- r.used :: m in w.used || m == n;
    }
  }

  /** Until a counter wraps, no two records are sealed under one number. */
  lemma {:induction false} NumbersAreUnique(steps: seq<NumberStep>)
    requires Steps(steps).intact
    ensures Fresh(Steps(steps)) && AllDifferent(Steps(steps).used)
  {
    if steps != [] {
      NumbersAreUnique(steps[..|steps| - 1]);
      StepKeepsFresh(Steps(steps[..|steps| - 1]), steps[|steps| - 1]);
    }
  }

  lemma {:induction false} AfterOne(steps: seq<NumberStep>, s: NumberStep)
    ensures Steps(steps + [s]) == Step(Steps(steps), s)
  {
    assert (steps + [s])[..|steps|] == steps;
  }

  lemma {:induction false} CountersHaveNoGaps(steps: seq<NumberStep>, k: uint48)
    requires Steps(steps).intact
    ensures k < Steps(steps).next ==> Number(Steps(steps).epoch, k) in Steps(steps).used
  {
    if steps != [] {
      CountersHaveNoGaps(steps[..|steps| - 1], k);
    }
  }

  /** The 48-bit counter is where it ends: the record after the one that wraps it repeats a number. */
  lemma {:induction false} WrapRepeatsANumber(steps: seq<NumberStep>)
    requires Steps(steps).intact && Steps(steps).next == SEQUENCES - 1
    ensures AllDifferent(Steps(steps + [Seal(false)]).used)
    ensures !AllDifferent(Steps(steps + [Seal(false)] + [Seal(false)]).used)
  {
    CountersHaveNoGaps(steps, 0);
    NumbersAreUnique(steps);
    var w, once := Steps(steps), steps + [Seal(false)];
    AfterOne(steps, Seal(false));
    AfterOne(once, Seal(false));
    OneMoreDiffers(w.used, Number(w.epoch, w.next));
    OneMoreDiffers(Steps(once).used, Number(w.epoch, 0));
  }

  // ---- exactly when a number repeats ----

  /** The number a step seals under, if it seals. */
  function Under(w: Writing, s: NumberStep): Option<Number> {
    if s.ChangeKeys? || (s.previous && w.epoch == 0) then None
    else if s.previous then Some(Number(w.epoch - 1, w.lastNext))
    else Some(Number(w.epoch, w.next))
  }

  /** How far the counters of an epoch have counted, over all the times that the epoch came round. */
  function CountedTo(steps: seq<NumberStep>, epoch: uint16): nat {
    if steps == [] then 0
    else
      var front := steps[..|steps| - 1];
      CountOn(CountedTo(front, epoch), Under(Steps(front), steps[|steps| - 1]), epoch)
  }

  function CountOn(r: nat, n: Option<Number>, epoch: uint16): nat {
    if n.Some? && n.value.epoch == epoch && n.value.sequence >= r then n.value.sequence + 1 else r
  }

  /** Some record is sealed at a counter behind where a counter of its epoch has already been. */
  predicate FallsBehind(steps: seq<NumberStep>) {
    steps != [] &&
    var front := steps[..|steps| - 1];
    var n := Under(Steps(front), steps[|steps| - 1]);
    FallsBehind(front) || (n.Some? && n.value.sequence < CountedTo(front, n.value.epoch))
  }

  /** The last step, taken on its own. */
  lemma {:induction false} LastStep(steps: seq<NumberStep>, epoch: uint16)
    requires steps != []
    ensures var w := Steps(steps[..|steps| - 1]); var n := Under(w, steps[|steps| - 1]);
      && Steps(steps) == Step(w, steps[|steps| - 1])
      && Steps(steps).used == (if n.Some? then w.used + [n.value] else w.used)
      && CountedTo(steps, epoch) == CountOn(CountedTo(steps[..|steps| - 1], epoch), n, epoch)
  {
  }

  lemma {:induction false} SealMoves(w: Writing, s: NumberStep, now: nat, last: nat)
    requires s.Seal? && w.next <= now && (w.epoch > 0 ==> w.lastNext <= last)
    ensures var r, n := Step(w, s), Under(w, s);
      && r.epoch == w.epoch && r.next <= CountOn(now, n, w.epoch)
      && (w.epoch > 0 ==> r.lastNext <= CountOn(last, n, w.epoch - 1))
  {
  }

  /** No counter is above what its epoch has counted to. */
  lemma {:induction false} CountersBelowCount(steps: seq<NumberStep>)
    ensures var w := Steps(steps); w.next <= CountedTo(steps, w.epoch)
    ensures var w := Steps(steps); w.epoch > 0 ==> w.lastNext <= CountedTo(steps, w.epoch - 1)
  {
    if steps != [] {
      var front, s := steps[..|steps| - 1], steps[|steps| - 1];
      CountersBelowCount(front);
      var v := Steps(front);
      LastStep(steps, v.epoch);
      if s.ChangeKeys? {
        KeysMove(v);
      } else if v.epoch > 0 {
        LastStep(steps, v.epoch - 1);
        SealMoves(v, s, CountedTo(front, v.epoch), CountedTo(front, v.epoch - 1));
      } else {
        SealMoves(v, s, CountedTo(front, v.epoch), 0);
      }
    }
  }

  lemma {:induction false} KeysMove(w: Writing)
    ensures var r := Step(w, ChangeKeys);
      r.next == 0 && r.lastNext == w.next && (r.epoch > 0 ==> r.epoch == w.epoch + 1)
  {
  }

  /** The numbers used of an epoch are those below what it has counted to. */
  lemma {:induction false} UsedIsBelowCount(steps: seq<NumberStep>, n: Number)
    ensures n in Steps(steps).used <==> n.sequence < CountedTo(steps, n.epoch)
  {
    if steps != [] {
      var front := steps[..|steps| - 1];
      UsedIsBelowCount(front, n);
      CountersBelowCount(front);
      LastStep(steps, n.epoch);
      OneMoreCounted(Steps(front).used, CountedTo(front, n.epoch), Under(Steps(front), steps[|steps| - 1]), n);
    }
  }

  lemma {:induction false} OneMoreCounted(used: seq<Number>, r: nat, under: Option<Number>, n: Number)
    requires n in used <==> n.sequence < r
    requires under.Some? && under.value.epoch == n.epoch ==> under.value.sequence <= r
    ensures n in (if under.Some? then used + [under.value] else used) <==> n.sequence < CountOn(r, under, n.epoch)
  {
  }

  /** For every run, wrapped or not: record numbers repeat exactly when a counter falls behind. */
  lemma {:induction false} NumbersRepeatExactly(steps: seq<NumberStep>)
    ensures AllDifferent(Steps(steps).used) <==> !FallsBehind(steps)
  {
    if steps != [] {
      var front := steps[..|steps| - 1];
      NumbersRepeatExactly(front);
      var n := Under(Steps(front), steps[|steps| - 1]);
      if n.Some? {
        UsedIsBelowCount(front, n.value);
        OneMoreDiffers(Steps(front).used, n.value);
      }
    }
  }

  /** What a caller sees of it: whether this epoch's counter and the one before's have run out (a seal
      has failed at the last number), whether a record was sealed at a counter that had, and whether the
      epoch is still the number of key changes. */
  datatype Limits = Limits(now: bool, last: bool, again: bool, epochs: bool)

  function Watched(w: Writing, l: Limits, s: NumberStep): Limits {
    if s.ChangeKeys? then Limits(false, l.now, l.again, l.epochs && w.epoch + 1 < EPOCHS)
    else if s.previous && w.epoch == 0 then l
    else if s.previous then l.(last := l.last || w.lastNext + 1 == SEQUENCES, again := l.again || l.last)
    else l.(now := l.now || w.next + 1 == SEQUENCES, again := l.again || l.now)
  }

  function Watch(steps: seq<NumberStep>): Limits {
    if steps == [] then Limits(false, false, false, true)
    else
      var front := steps[..|steps| - 1];
      Watched(Steps(front), Watch(front), steps[|steps| - 1])
  }

  /** While the epoch has not wrapped, no later epoch has sealed a record. */
  lemma {:induction false} NothingLater(steps: seq<NumberStep>, later: uint16)
    requires Watch(steps).epochs && later > Steps(steps).epoch
    ensures CountedTo(steps, later) == 0
  {
    if steps != [] {
      NothingLater(steps[..|steps| - 1], later);
      LastStep(steps, later);
    }
  }

  /** How far a counter has counted: all the way if it has run out. */
  function HowFar(runOut: bool, next: uint48): nat {
    if runOut then SEQUENCES else next
  }

  lemma {:induction false} SealCounts(runOut: bool, next: uint48, epoch: uint16)
    ensures CountOn(HowFar(runOut, next), Some(Number(epoch, next)), epoch)
      == HowFar(runOut || next + 1 == SEQUENCES, (next + 1) % SEQUENCES)
  {
  }

  lemma {:induction false} SealKeepsCounts(w: Writing, l: Limits, s: NumberStep, now: nat, last: nat)
    requires s.Seal? && now == HowFar(l.now, w.next) && (w.epoch > 0 ==> last == HowFar(l.last, w.lastNext))
    ensures var r, m, n := Step(w, s), Watched(w, l, s), Under(w, s);
      && r.epoch == w.epoch && CountOn(now, n, w.epoch) == HowFar(m.now, r.next)
      && (w.epoch > 0 ==> CountOn(last, n, w.epoch - 1) == HowFar(m.last, r.lastNext))
  {
    if !s.previous {
      SealCounts(l.now, w.next, w.epoch);
    } else if w.epoch > 0 {
      SealCounts(l.last, w.lastNext, w.epoch - 1);
    }
  }

  /** A counter that has run out has used every number of its epoch, any other those below it. */
  predicate CountsKnown(steps: seq<NumberStep>) {
    var w, l := Steps(steps), Watch(steps);
    && CountedTo(steps, w.epoch) == HowFar(l.now, w.next)
    && (w.epoch > 0 ==> CountedTo(steps, w.epoch - 1) == HowFar(l.last, w.lastNext))
  }

  lemma {:induction false} KnownAfterSeal(steps: seq<NumberStep>)
    requires steps != [] && CountsKnown(steps[..|steps| - 1]) && steps[|steps| - 1].Seal?
    ensures CountsKnown(steps)
  {
    var front, s := steps[..|steps| - 1], steps[|steps| - 1];
    var w := Steps(front);
    var last := if w.epoch > 0 then w.epoch - 1 else 0;
    LastStep(steps, w.epoch);
    LastStep(steps, last);
    SealKeepsCounts(w, Watch(front), s, CountedTo(front, w.epoch), CountedTo(front, last));
    assert Watch(steps) == Watched(w, Watch(front), s);
  }

  lemma {:induction false} KnownAfterKeys(steps: seq<NumberStep>)
    requires steps != [] && CountsKnown(steps[..|steps| - 1]) && steps[|steps| - 1].ChangeKeys? && Watch(steps).epochs
    ensures CountsKnown(steps)
  {
    var front := steps[..|steps| - 1];
    var w := Steps(front);
    KeysMove(w);
    LastStep(steps, w.epoch);
    LastStep(steps, w.epoch + 1);
    NothingLater(front, w.epoch + 1);
    assert Watch(steps) == Watched(w, Watch(front), ChangeKeys);
  }

  lemma {:induction false} CountsAreKnown(steps: seq<NumberStep>)
    requires Watch(steps).epochs
    ensures CountsKnown(steps)
  {
    if steps != [] {
      CountsAreKnown(steps[..|steps| - 1]);
      if steps[|steps| - 1].ChangeKeys? {
        KnownAfterKeys(steps);
      } else {
        KnownAfterSeal(steps);
      }
    }
  }

  lemma {:induction false} BehindIsAgain(steps: seq<NumberStep>)
    requires Watch(steps).epochs
    ensures FallsBehind(steps) <==> Watch(steps).again
  {
    if steps != [] {
      var front := steps[..|steps| - 1];
      BehindIsAgain(front);
      CountsAreKnown(front);
    }
  }

  /** While the epoch has not wrapped, numbers stay unique exactly as long as no record is sealed at a
      counter that has run out. */
  lemma {:induction false} UniqueUntilSealedAgain(steps: seq<NumberStep>)
    requires Watch(steps).epochs
    ensures AllDifferent(Steps(steps).used) <==> !Watch(steps).again
  {
    NumbersRepeatExactly(steps);
    BehindIsAgain(steps);
  }

  // ---- the counter, byte by byte ----

  function Increment(s: seq<byte>): (r: seq<byte>)
    ensures |r| == |s|
  {
    if s == [] then []
    else if s[|s| - 1] < 255 then s[..|s| - 1] + [s[|s| - 1] + 1]
    else Increment(s[..|s| - 1]) + [0]
  }

  predicate AllOnes(s: seq<byte>) {
    forall i :: 0 <= i < |s| ==> s[i] == 255
  }

  /** A big-endian counter goes up by one, and from its greatest value to 0. */
  lemma {:induction false} IncrementCounts(s: seq<byte>)
    ensures BigEndian(s) + 1 <= Shl(1, 8 * |s|)
    ensures AllOnes(s) <==> BigEndian(s) + 1 == Shl(1, 8 * |s|)
    ensures BigEndian(Increment(s)) == if AllOnes(s) then 0 else BigEndian(s) + 1
  {
    if s != [] {
      var front := s[..|s| - 1];
      IncrementCounts(front);
      ShlScale(1, 8 * (|s| - 1));
      assert Shl(1, 8 * |s|) == 2 * Shl(1, 8 * |s| - 1);
      assert AllOnes(s) <==> s[|s| - 1] == 255 && AllOnes(front);
      assert Increment(s)[..|s| - 1] == if s[|s| - 1] < 255 then front else Increment(front);
    }
  }

  /** One byte of the loop. */
  lemma {:induction false} IncrementAt(s: seq<byte>, i: nat, tail: seq<byte>)
    requires i < |s|
    ensures Increment(s[..i + 1]) + tail
      == if s[i] == 255 then Increment(s[..i]) + ([0] + tail) else s[..i] + ([s[i] + 1] + tail)
    ensures AllOnes(s[i..]) <==> s[i] == 255 && AllOnes(s[i + 1..])
  {
    assert s[..i + 1][..i] == s[..i];
    Regroup(if s[i] == 255 then Increment(s[..i]) else s[..i], [if s[i] == 255 then 0 else s[i] + 1], tail);
    assert s[i..] == [s[i]] + s[i + 1..];
  }

  method BumpByte(s: array<byte>, i: nat)
    requires i < s.Length
    modifies s
    ensures s[i] == (if old(s[i]) == 255 then 0 else old(s[i]) + 1) && s[i..] == [s[i]] + old(s[i + 1..])
    ensures s[..i] == old(s[..i]) && s[..] == old(s[..i]) + s[i..]
  {
    s[i] := if s[i] == 255 then 0 else s[i] + 1;
  }

  /** ssl_record_sequence_update */
  method RecordSequenceUpdate(s: array<byte>) returns (ok: bool)
    modifies s
    ensures s[..] == Increment(old(s[..]))
    ensures ok <==> !AllOnes(old(s[..]))
  {
    ghost var before := s[..];
    var i := s.Length;
    assert before[..i] == before && s[i..] == [];
    while i > 0
      invariant 0 <= i <= s.Length && s[..i] == before[..i] && AllOnes(before[i..])
      invariant Increment(before) == Increment(before[..i]) + s[i..]
    {
      i := i - 1;
      IncrementAt(before, i, s[i + 1..]);
      BumpByte(s, i);
      if s[i] != 0 {
        return true;
      }
    }
    assert s[0..] == s[..] && before[0..] == before;
    return false;
  }

  class WriteState {
    var wEpoch: uint16
    var writeSequence: uint48
    var lastWriteSequence: uint48
    var aead: WriteAead
    var lastAead: WriteAead
    var recordVersion: uint16
    ghost var used: seq<Number>
    ghost var intact: bool

    ghost function Model(): Writing
      reads this
    {
      Writing(wEpoch, writeSequence, lastWriteSequence, used, intact)
    }

    constructor (aead: WriteAead, recordVersion: uint16)
      ensures Model() == Steps([]) && this.aead == aead && this.recordVersion == recordVersion
    {
      wEpoch, writeSequence, lastWriteSequence := 0, 0, 0;
      this.aead, lastAead, this.recordVersion := aead, aead, recordVersion;
      used, intact := [], true;
    }

    function WriteAeadOf(previous: bool): WriteAead
      reads this
    {
      if previous then lastAead else aead
    }

    function NextNumber(previous: bool): Number
      requires previous ==> wEpoch >= 1
      reads this
    {
      if previous then Number(wEpoch - 1, lastWriteSequence) else Number(wEpoch, writeSequence)
    }

    /** dtls_seal_record, into a buffer of maxOut bytes. The counter moves once the plaintext is sealed,
        whatever fails after that. */
    method SealRecord(typ: byte, data: seq<byte>, previous: bool, maxOut: nat) returns (out: Option<seq<byte>>)
      requires previous ==> wEpoch >= 1
      modifies this`writeSequence, this`lastWriteSequence, this`used, this`intact
      ensures var n := old(NextNumber(previous)); var body :=
        WriteAeadOf(previous).seal(typ, recordVersion, NumberBytes(n), data);
        if body.None? || DTLS1_RT_HEADER_LENGTH + |body.value| > maxOut then out.None? && Model() == old(Model())
        else
          && Model() == Step(old(Model()), Seal(previous))
          && (out.Some? <==> n.sequence + 1 < SEQUENCES && |body.value| < 0x1_0000)
          && (out.Some? ==> out.value == RecordBytes(typ, recordVersion, n, body.value))
    {
      var epoch, context, sequence := wEpoch, aead, writeSequence;
      if previous {
        epoch, context, sequence := wEpoch - 1, lastAead, lastWriteSequence;
      }
      if maxOut < DTLS1_RT_HEADER_LENGTH {
        return None;
      }
      var number := BigEndianBytes(epoch, 2) + BigEndianBytes(sequence, 6);
      var sealed := context.seal(typ, recordVersion, number, data);
      if sealed.None? || |sealed.value| > maxOut - DTLS1_RT_HEADER_LENGTH {
        return None;
      }
      used := used + [Number(epoch, sequence)];
      intact := intact && sequence + 1 < SEQUENCES;
      if previous {
        lastWriteSequence := (sequence + 1) % SEQUENCES;
      } else {
        writeSequence := (sequence + 1) % SEQUENCES;
      }
      if sequence + 1 == SEQUENCES || |sealed.value| >= 0x1_0000 {
        return None;
      }
      out := Some([typ] + U16(recordVersion) + number + U16(|sealed.value|) + sealed.value);
    }

    /** dtls1_set_write_state */
    method SetWriteState(next: WriteAead)
      modifies this
      ensures Model() == Step(old(Model()), ChangeKeys)
      ensures aead == next && lastAead == old(aead) && recordVersion == old(recordVersion)
    {
      intact := intact && wEpoch + 1 < EPOCHS;
      wEpoch := (wEpoch + 1) % EPOCHS;
      lastWriteSequence := writeSequence;
      writeSequence := 0;
      lastAead := aead;
      aead := next;
    }
  }

  /** A sealed record in front of anything reads back: header, number and body. */
  lemma {:induction false} RecordRoundTrip(typ: byte, version: uint16, n: Number, body: seq<byte>, rest: seq<byte>)
    requires |body| <= SSL3_RT_MAX_ENCRYPTED_LENGTH
    ensures ParseRecord(RecordBytes(typ, version, n, body) + rest)
      == Got((RecordHeader(typ, version, NumberBytes(n)), body), rest)
    ensures GetU16(NumberBytes(n)[..2]) == n.epoch
  {
    var s := RecordBytes(typ, version, n, body) + rest;
    assert s[1..3] == U16(version) && s[3..11] == NumberBytes(n) && s[11..13] == U16(|body|);
    assert s[13..13 + |body|] == body && s[13 + |body|..] == rest;
    assert NumberBytes(n)[..2] == BigEndianBytes(n.epoch, 2);
    assert BigEndianBytes(n.epoch / 256, 1) == BigEndianBytes(n.epoch / 256 / 256, 0) + [n.epoch / 256 % 256];
  }

  /** Different record numbers are different 64-bit numbers to the replay window. */
  lemma {:induction false} NumbersDiffer(m: Number, n: Number)
    requires NumberOf(NumberBytes(m)) == NumberOf(NumberBytes(n))
    ensures m == n
  {
    BigEndianInjective(NumberBytes(m), NumberBytes(n));
    assert NumberBytes(m)[..2] == BigEndianBytes(m.epoch, 2) && NumberBytes(n)[..2] == BigEndianBytes(n.epoch, 2);
    assert NumberBytes(m)[2..] == BigEndianBytes(m.sequence, 6) && NumberBytes(n)[2..] == BigEndianBytes(n.sequence, 6);
    Widths();
    BigEndianRoundTrip(m.epoch, 2);
    BigEndianRoundTrip(n.epoch, 2);
    BigEndianRoundTrip(m.sequence, 6);
    BigEndianRoundTrip(n.sequence, 6);
  }

  lemma {:induction false} Widths()
    ensures Shl(1, 8 * 2) == EPOCHS && Shl(1, 8 * 6) == SEQUENCES
  {
    Shl14(1);
    Shl42(1);
    assert Shl(1, 16) == 2 * Shl(1, 15);
    assert Shl(1, 48) == 2 * Shl(1, 47) == 4 * Shl(1, 46) == 8 * Shl(1, 45);
    assert Shl(1, 45) == 2 * Shl(1, 44) == 4 * Shl(1, 43) == 8 * Shl(1, 42);
  }

  /** A record sealed in the reader's epoch gets through the first time: the reader's AEAD opens what the
      writer's sealed, and its number is not stale. */
  lemma {:induction false} SealedRecordGetsThrough(r: Reading, w: WriteAead, a: ReadAead, typ: byte, version: uint16,
    n: Number, plain: seq<byte>, rest: seq<byte>)
    requires VersionOk(a, version) && n.epoch == r.epoch && |plain| <= SSL3_RT_MAX_PLAIN_LENGTH
    requires w.seal(typ, version, NumberBytes(n), plain).Some? &&
      |w.seal(typ, version, NumberBytes(n), plain).value| <= SSL3_RT_MAX_ENCRYPTED_LENGTH
    requires a.open(typ, version, NumberBytes(n), w.seal(typ, version, NumberBytes(n), plain).value) == Some(plain)
    ensures var packet := RecordBytes(typ, version, n, w.seal(typ, version, NumberBytes(n), plain).value) + rest;
      Accepted(r, a, packet) == if Stale(r.window, NumberOf(NumberBytes(n))) then None
        else Some((RecordHeader(typ, version, NumberBytes(n)), plain))
  {
    RecordRoundTrip(typ, version, n, w.seal(typ, version, NumberBytes(n), plain).value, rest);
  }
}
