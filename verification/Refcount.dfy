/** Reference counts: the compare-and-swap loops of refcount_c11.c against the locked version of
    refcount_lock.c, under any interleaving of threads and with spurious failures. */
module Refcount {
  import opened Bytes

  const CRYPTO_REFCOUNT_MAX: uint32 := 0xFFFF_FFFF

  datatype Op = Inc | Dec

  /** What an operation does to its caller. */
  datatype Result = Nothing | ReachedZero(zero: bool) | Abort

  // ---- the locked version ----

  /** One critical section: the count it leaves, and its result. */
  function Locked(op: Op, count: uint32): (uint32, Result) {
    match op
    case Inc => (if count < CRYPTO_REFCOUNT_MAX then count + 1 else count, Nothing)
    case Dec =>
      if count == 0 then (count, Abort)
      else
        var after := if count < CRYPTO_REFCOUNT_MAX then count - 1 else count;
        (after, ReachedZero(after == 0))
  }

  class LockedCount {
    var count: uint32

    constructor (count: uint32)
      ensures this.count == count
    {
      this.count := count;
    }

    /** CRYPTO_refcount_inc */
    method RefcountInc()
      modifies this
      ensures count == Locked(Inc, old(count)).0 == if old(count) < 0xFFFF_FFFF then old(count) + 1 else old(count)
    {
      if count < CRYPTO_REFCOUNT_MAX {
        count := count + 1;
      }
    }

    /** CRYPTO_refcount_dec_and_test_zero */
    method RefcountDecAndTestZero() returns (r: Result)
      modifies this
      ensures (count, r) == Locked(Dec, old(count))
      ensures r == Abort <==> old(count) == 0
      ensures old(count) == 0 || old(count) == 0xFFFF_FFFF ==> count == old(count)
      ensures 0 < old(count) < 0xFFFF_FFFF ==> count == old(count) - 1
      ensures old(count) > 0 ==> r == ReachedZero(old(count) == 1)
    {
      if count == 0 {
        return Abort;
      }
      if count < CRYPTO_REFCOUNT_MAX {
        count := count - 1;
      }
      return ReachedZero(count == 0);
    }
  }

  // ---- the atomic version, one call at a time ----

  /** What other threads leave in the count before an atomic operation, and whether it fails without cause. */
  datatype Interference = Interference(count: uint32, spurious: bool)

  /** The value a loop works with ends it: nothing is left to exchange. */
  predicate Terminal(op: Op, expected: uint32) {
    expected == CRYPTO_REFCOUNT_MAX || (op == Dec && expected == 0)
  }

  function Next(op: Op, expected: uint32): uint32
    requires !Terminal(op, expected)
  {
    if op == Inc then expected + 1 else expected - 1
  }

  /** The count at the moment a loop's operation takes effect: the expected value if that ends the loop or
      the exchange of it succeeds, else the one of what the next attempt sees. */
  function Moment(op: Op, expected: uint32, others: seq<Interference>): uint32
    decreases |others|
  {
    if Terminal(op, expected) || others == [] || (others[0].count == expected && !others[0].spurious) then expected
    else Moment(op, others[0].count, others[1..])
  }

  /** It is the count the call found, or one that another thread left before an attempt. */
  lemma {:induction false} MomentIsSeen(op: Op, count: uint32, others: seq<Interference>)
    ensures Seen(Moment(op, count, others), count, others)
    decreases |others|
  {
    if Moment(op, count, others) != count {
      MomentIsSeen(op, others[0].count, others[1..]);
    }
  }

  predicate Seen(at: uint32, count: uint32, others: seq<Interference>) {
    at == count || exists k :: 0 <= k < |others| && at == others[k].count
  }

  class AtomicCount {
    var count: uint32

    constructor (count: uint32)
      ensures this.count == count
    {
      this.count := count;
    }

    /** atomic_compare_exchange_weak, after interference if any is left. */
    method CompareExchangeWeak(expected: uint32, desired: uint32, others: seq<Interference>) returns (ok: bool,
      seen: uint32)
      modifies this
      ensures seen == if others == [] then old(count) else others[0].count
      ensures ok <==> seen == expected && (others == [] || !others[0].spurious)
      ensures count == if ok then desired else seen
    {
      var spurious := false;
      if others != [] {
        count, spurious := others[0].count, others[0].spurious;
      }
      seen := count;
      ok := seen == expected && !spurious;
      if ok {
        count := desired;
      }
    }

    /** CRYPTO_refcount_inc. at: the count at the moment the operation takes effect. */
    method RefcountInc(others: seq<Interference>) returns (ghost at: uint32)
      modifies this
      ensures at == Moment(Inc, old(count), others) && Seen(at, old(count), others)
      ensures others == [] ==> at == old(count)
      ensures count == Locked(Inc, at).0
    {
      var expected, i := count, 0;
      at := Moment(Inc, count, others);
      MomentIsSeen(Inc, count, others);
      while expected != CRYPTO_REFCOUNT_MAX
        invariant 0 <= i <= |others| && expected == count && at == Moment(Inc, expected, others[i..])
        decreases |others| - i
      {
        var ok, seen := CompareExchangeWeak(expected, expected + 1, others[i..]);
        if ok {
          return;
        }
        assert others[i..][1..] == others[i + 1..];
        i := i + 1;
        expected := seen;
      }
    }

    /** CRYPTO_refcount_dec_and_test_zero */
    method RefcountDecAndTestZero(others: seq<Interference>) returns (r: Result, ghost at: uint32)
      modifies this
      ensures at == Moment(Dec, old(count), others) && Seen(at, old(count), others)
      ensures others == [] ==> at == old(count)
      ensures (count, r) == Locked(Dec, at)
    {
      var expected, i := count, 0;
      at := Moment(Dec, count, others);
      MomentIsSeen(Dec, count, others);
      while true
        invariant 0 <= i <= |others| && expected == count && at == Moment(Dec, expected, others[i..])
        decreases |others| - i
      {
        if expected == 0 {
          return Abort, at;
        }
        if expected == CRYPTO_REFCOUNT_MAX {
          return ReachedZero(false), at;
        }
        var ok, seen := CompareExchangeWeak(expected, expected - 1, others[i..]);
        if ok {
          return ReachedZero(expected == 1), at;
        }
        assert others[i..][1..] == others[i + 1..];
        i := i + 1;
        expected := seen;
      }
    }
  }

  // ---- the atomic version, all threads at once ----

  /** Where a thread is: idle, about to load the count, in its loop with an expected value, or dead. */
  datatype Call = Idle | Loading(op: Op) | Looping(op: Op, expected: uint32) | Dead

  /** held: the references the thread owns. */
  datatype Thread = Thread(held: nat, call: Call)

  datatype Event = Event(t: nat, op: Op, result: Result)

  /** effects: operations in the order they took effect; returns: in the order they returned. */
  datatype System = System(count: uint32, threads: seq<Thread>, effects: seq<Event>, returned: seq<Event>)

  datatype Step = Begin(t: nat, op: Op) | Load(t: nat) | Turn(t: nat, spurious: bool) | Give(t: nat, to: nat)

  function SetCall(s: System, t: nat, call: Call): System
    requires t < |s.threads|
  {
    s.(threads := s.threads[t := s.threads[t].(call := call)])
  }

  /** A thread takes v for the count: if that ends its loop, this is when its operation takes effect. */
  function Read(s: System, t: nat, op: Op): System
    requires t < |s.threads|
  {
    var r := SetCall(s, t, Looping(op, s.count));
    if Terminal(op, s.count) then r.(effects := s.effects + [Event(t, op, Locked(op, s.count).1)]) else r
  }

  /** One atomic step of one thread. A step a thread is not ready for changes nothing. */
  function Do(s: System, step: Step): System {
    match step
    case Begin(t, op) =>
      if t >= |s.threads| || !s.threads[t].call.Idle? then s
      else
        var held := s.threads[t].held;
        s.(threads := s.threads[t := Thread(if op == Dec && held > 0 then held - 1 else held, Loading(op))])
    case Load(t) => if t < |s.threads| && s.threads[t].call.Loading? then Read(s, t, s.threads[t].call.op) else s
    case Turn(t, spurious) =>
      if t >= |s.threads| || !s.threads[t].call.Looping? then s
      else
        var op, e := s.threads[t].call.op, s.threads[t].call.expected;
        if Terminal(op, e) then
          var result := Locked(op, e).1;
          SetCall(s, t, if result == Abort then Dead else Idle).(returned := s.returned + [Event(t, op, result)])
        else if s.count == e && !spurious then
          var event := Event(t, op, Locked(op, e).1);
          var held := s.threads[t].held;
          s.(count := Next(op, e), threads := s.threads[t := Thread(if op == Inc then held + 1 else held, Idle)],
             effects := s.effects + [event], returned := s.returned + [event])
        else Read(s, t, op)
    case Give(t, to) =>
      if t >= |s.threads| || to >= |s.threads| || t == to || s.threads[t].held == 0 then s
      else
        var given := s.threads[t := s.threads[t].(held := s.threads[t].held - 1)];
        s.(threads := given[to := s.threads[to].(held := s.threads[to].held + 1)])
  }

  function Run(start: System, steps: seq<Step>): System {
    if steps == [] then start else Do(Run(start, steps[..|steps| - 1]), steps[|steps| - 1])
  }

  // ---- linearizing to the locked version ----

  /** The count that the locked version reaches by the events in order; nothing if a result differs. */
  function Replay(count: uint32, events: seq<Event>): Option<uint32> {
    if events == [] then Some(count)
    else
      var e := events[|events| - 1];
      match Replay(count, events[..|events| - 1])
      case None => None
      case Some(c) => if Locked(e.op, c).1 == e.result then Some(Locked(e.op, c).0) else None
  }

  function Of(t: nat, events: seq<Event>): seq<Event> {
    if events == [] then []
    else Of(t, events[..|events| - 1]) + if events[|events| - 1].t == t then [events[|events| - 1]] else []
  }

  /** An operation that took effect but has not returned. */
  function Unreturned(t: nat, call: Call): seq<Event> {
    if call.Looping? && Terminal(call.op, call.expected) then [Event(t, call.op, Locked(call.op, call.expected).1)]
      else []
  }

  ghost predicate Linear(start: uint32, s: System) {
    && Replay(start, s.effects) == Some(s.count)
    && forall t :: 0 <= t < |s.threads| ==> InOrder(t, s)
  }

  /** The operations of a thread took effect in the order it made them, the last perhaps before it returned. */
  ghost predicate InOrder(t: nat, s: System)
    requires t < |s.threads|
  {
    Of(t, s.effects) == Of(t, s.returned) + Unreturned(t, s.threads[t].call)
  }

  lemma {:induction false} EventAdded(start: uint32, events: seq<Event>, e: Event, t: nat)
    ensures Of(t, events + [e]) == if e.t == t then Of(t, events) + [e] else Of(t, events)
    ensures Replay(start, events).Some? && Locked(e.op, Replay(start, events).value).1 == e.result ==>
      Replay(start, events + [e]) == Some(Locked(e.op, Replay(start, events).value).0)
  {
    assert (events + [e])[..|events|] == events;
  }

  /** A thread moves from one place in its call to another, and the events that go with that are noted. */
  lemma {:induction false} MoveLinear(start: uint32, s: System, r: System, t: nat, effect: seq<Event>, back: seq<Event>)
    requires Linear(start, s) && t < |s.threads| == |r.threads| && |effect| <= 1 && |back| <= 1
    requires forall u :: 0 <= u < |s.threads| && u != t ==> r.threads[u].call == s.threads[u].call
    requires r.effects == s.effects + effect && r.returned == s.returned + back
    requires OfThread(t, effect) && OfThread(t, back)
    requires Unreturned(t, s.threads[t].call) + effect == back + Unreturned(t, r.threads[t].call)
    requires if effect == [] then r.count == s.count else (r.count, effect[0].result) == Locked(effect[0].op, s.count)
    ensures Linear(start, r)
  {
    EffectReplays(start, s.effects, effect);
    forall u | 0 <= u < |s.threads| ensures InOrder(u, r) {
      assert InOrder(u, s);
      OfAppended(u, t, s.effects, effect);
      OfAppended(u, t, s.returned, back);
      if u == t {
        MoveInOrder(Of(t, s.returned), Unreturned(t, s.threads[t].call), effect, back,
          Unreturned(t, r.threads[t].call));
      }
    }
  }

  predicate OfThread(t: nat, events: seq<Event>) {
    forall e <- events :: e.t == t
  }

  lemma {:induction false} EffectReplays(start: uint32, effects: seq<Event>, effect: seq<Event>)
    requires Replay(start, effects).Some? && |effect| <= 1
    requires effect != [] ==> Locked(effect[0].op, Replay(start, effects).value).1 == effect[0].result
    ensures Replay(start, effects + effect)
      == Some(if effect == [] then Replay(start, effects).value
        else Locked(effect[0].op, Replay(start, effects).value).0)
  {
    if effect == [] {
      assert effects + effect == effects;
    } else {
      assert effect == [effect[0]];
      EventAdded(start, effects, effect[0], effect[0].t);
    }
  }

  lemma {:induction false} MoveInOrder(returned: seq<Event>, before: seq<Event>, effect: seq<Event>, back: seq<Event>,
    after: seq<Event>)
    requires before + effect == back + after
    ensures returned + before + effect == returned + back + after
  {
    assert returned + before + effect == returned + (before + effect);
    assert returned + back + after == returned + (back + after);
  }

  lemma {:induction false} OfAppended(u: nat, t: nat, events: seq<Event>, more: seq<Event>)
    requires |more| <= 1 && OfThread(t, more)
    ensures Of(u, events + more) == if u == t then Of(u, events) + more else Of(u, events)
  {
    if more == [] {
      assert events + more == events;
    } else {
      assert more == [more[0]] && more[0] in more;
      EventAdded(0, events, more[0], u);
    }
  }

  lemma {:induction false} ReadLinear(start: uint32, s: System, t: nat, op: Op)
    requires Linear(start, s) && t < |s.threads| && Unreturned(t, s.threads[t].call) == []
    ensures Linear(start, Read(s, t, op))
  {
    var r := Read(s, t, op);
    var effect := Unreturned(t, r.threads[t].call);
    assert r.effects == s.effects + effect && r.returned == s.returned + [];
    MoveLinear(start, s, r, t, effect, []);
  }

  lemma {:induction false} TurnLinear(start: uint32, s: System, t: nat, spurious: bool)
    requires Linear(start, s) && t < |s.threads| && s.threads[t].call.Looping?
    ensures Linear(start, Do(s, Turn(t, spurious)))
  {
    var r, op, e := Do(s, Turn(t, spurious)), s.threads[t].call.op, s.threads[t].call.expected;
    var event := Event(t, op, Locked(op, e).1);
    if Terminal(op, e) {
      assert r.effects == s.effects + [];
      MoveLinear(start, s, r, t, [], [event]);
    } else if s.count == e && !spurious {
      MoveLinear(start, s, r, t, [event], [event]);
    } else {
      ReadLinear(start, s, t, op);
    }
  }

  lemma {:induction false} StepLinear(start: uint32, s: System, step: Step)
    requires Linear(start, s)
    ensures Linear(start, Do(s, step)) && |Do(s, step).threads| == |s.threads|
  {
    match step
    case Load(t) => if t < |s.threads| && s.threads[t].call.Loading? { ReadLinear(start, s, t, s.threads[t].call.op); }
    case Turn(t, spurious) => if t < |s.threads| && s.threads[t].call.Looping? { TurnLinear(start, s, t, spurious); }
    case _ => SilentLinear(start, s, Do(s, step));
  }

  /** Nothing takes effect, nothing returns, and no thread is in a loop that was not. */
  lemma {:induction false} SilentLinear(start: uint32, s: System, r: System)
    requires Linear(start, s) && |r.threads| == |s.threads|
    requires r.effects == s.effects && r.returned == s.returned && r.count == s.count
    requires forall t :: 0 <= t < |s.threads| ==> Unreturned(t, r.threads[t].call) == Unreturned(t, s.threads[t].call)
    ensures Linear(start, r)
  {
    forall t | 0 <= t < |s.threads| ensures InOrder(t, r) {
      assert InOrder(t, s);
    }
  }

  predicate Quiet(s: System) {
    s.effects == [] && s.returned == [] && forall t :: 0 <= t < |s.threads| ==> s.threads[t].call.Idle?
  }

  /** Under any interleaving, the operations took effect one by one as the locked version would have them,
      with its results and to its count; each thread's operations in its order, each between its beginning
      and its return, and each with the result it returned. */
  lemma {:induction false} Linearizable(start: System, steps: seq<Step>)
    requires Quiet(start)
    ensures Linear(start.count, Run(start, steps)) && |Run(start, steps).threads| == |start.threads|
  {
    if steps != [] {
      Linearizable(start, steps[..|steps| - 1]);
      StepLinear(start.count, Run(start, steps[..|steps| - 1]), steps[|steps| - 1]);
    }
  }

  /** Once saturated, the count never changes again. */
  lemma {:induction false} Saturated(s: System, steps: seq<Step>)
    requires s.count == CRYPTO_REFCOUNT_MAX
    ensures Run(s, steps).count == CRYPTO_REFCOUNT_MAX
  {
    if steps != [] {
      Saturated(s, steps[..|steps| - 1]);
    }
  }

  // ---- references held ----

  /** The references a thread accounts for: those it holds, and one it is about to drop. */
  function Owned(t: Thread): nat {
    t.held + if Dropping(t.call) then 1 else 0
  }

  predicate Dropping(call: Call) {
    (call.Loading? && call.op == Dec) || (call.Looping? && call.op == Dec)
  }

  function Total(threads: seq<Thread>): nat {
    if threads == [] then 0 else Total(threads[..|threads| - 1]) + Owned(threads[|threads| - 1])
  }

  lemma {:induction false} TotalAfter(threads: seq<Thread>, t: nat, x: Thread)
    requires t < |threads|
    ensures Total(threads[t := x]) == Total(threads) - Owned(threads[t]) + Owned(x)
    ensures Total(threads) >= Owned(threads[t])
  {
    var n := |threads| - 1;
    if t == n {
      assert threads[t := x][..n] == threads[..n];
    } else {
      assert threads[t := x][..n] == threads[..n][t := x];
      TotalAfter(threads[..n], t, x);
    }
  }

  /** A thread begins only what it holds a reference for, and gives away none that an increment rests on. */
  predicate Fair(s: System, step: Step) {
    match step
    case Begin(t, op) => t < |s.threads| ==> s.threads[t].held > 0
    case Give(t, to) => t < |s.threads| && !s.threads[t].call.Idle? ==> s.threads[t].held > 1
    case _ => true
  }

  predicate FairRun(start: System, steps: seq<Step>) {
    steps == [] || (
      && FairRun(start, steps[..|steps| - 1])
      && Fair(Run(start, steps[..|steps| - 1]), steps[|steps| - 1])
      && Run(start, steps).count < CRYPTO_REFCOUNT_MAX)
  }

  /** The count is what the threads account for; an increment rests on a reference held, and no loop sees 0. */
  predicate Accounted(s: System) {
    && s.count == Total(s.threads) && s.count < CRYPTO_REFCOUNT_MAX
    && forall t :: 0 <= t < |s.threads| ==> ThreadOk(s.threads[t])
  }

  predicate ThreadOk(t: Thread) {
    && !t.call.Dead?
    && ((t.call.Loading? || t.call.Looping?) && t.call.op == Inc ==> t.held > 0)
    && (t.call.Looping? ==> 0 < t.call.expected < CRYPTO_REFCOUNT_MAX)
  }

  lemma {:induction false} TurnAccounted(s: System, t: nat, spurious: bool)
    requires Accounted(s) && t < |s.threads| && s.threads[t].call.Looping? &&
      Do(s, Turn(t, spurious)).count < CRYPTO_REFCOUNT_MAX
    ensures Accounted(Do(s, Turn(t, spurious)))
    ensures Took(s, Do(s, Turn(t, spurious)))
  {
    var r := Do(s, Turn(t, spurious));
    TotalAfter(s.threads, t, r.threads[t]);
    assert ThreadOk(s.threads[t]);
    var op, e := s.threads[t].call.op, s.threads[t].call.expected;
    if s.count == e && !spurious {
      var event := Event(t, op, Locked(op, e).1);
      assert r.effects == s.effects + [event];
      assert event.result == ReachedZero(true) <==> r.count == 0;
    }
  }

  /** Nothing took effect, or one operation did, on a count that was not zero. */
  ghost predicate Took(s: System, r: System) {
    || (r.effects == s.effects && r.count == s.count)
    || (s.count > 0 && exists e :: r.effects == s.effects + [e] && (e.result == ReachedZero(true) <==> r.count == 0))
  }

  lemma {:induction false} GiveAccounted(s: System, t: nat, to: nat)
    requires Accounted(s) && Fair(s, Give(t, to))
    ensures Accounted(Do(s, Give(t, to)))
  {
    var r := Do(s, Give(t, to));
    if r != s {
      var once := s.threads[t := s.threads[t].(held := s.threads[t].held - 1)];
      TotalAfter(s.threads, t, once[t]);
      TotalAfter(once, to, r.threads[to]);
      assert ThreadOk(s.threads[t]) && ThreadOk(s.threads[to]);
    }
  }

  lemma {:induction false} LoadAccounted(s: System, t: nat)
    requires Accounted(s)
    ensures Accounted(Do(s, Load(t))) && Do(s, Load(t)).effects == s.effects
  {
    var r := Do(s, Load(t));
    if r != s {
      TotalAfter(s.threads, t, r.threads[t]);
      assert ThreadOk(s.threads[t]);
    }
  }

  lemma {:induction false} StepAccounted(s: System, step: Step)
    requires Accounted(s) && Fair(s, step) && Do(s, step).count < CRYPTO_REFCOUNT_MAX
    ensures Accounted(Do(s, step)) && Took(s, Do(s, step))
  {
    var r := Do(s, step);
    match step
    case Begin(t, op) => if r != s { TotalAfter(s.threads, t, r.threads[t]); }
    case Load(t) => LoadAccounted(s, t);
    case Turn(t, spurious) => if t < |s.threads| && s.threads[t].call.Looping? { TurnAccounted(s, t, spurious); }
    case Give(t, to) => GiveAccounted(s, t, to);
  }

  /** The decrement that reports zero, if the count is zero, is the last event and the only such one. */
  predicate ZeroIsLast(s: System) {
    && (forall i :: 0 <= i < |s.effects| && s.effects[i].result == ReachedZero(true) ==> i == |s.effects| - 1)
    && (s.effects != [] ==> (s.count == 0 <==> s.effects[|s.effects| - 1].result == ReachedZero(true)))
  }

  lemma {:induction false} StepZero(s: System, r: System)
    requires ZeroIsLast(s) && Took(s, r)
    ensures ZeroIsLast(r)
  {
    if r.effects != s.effects {
      var e :| r.effects == s.effects + [e] && (e.result == ReachedZero(true) <==> r.count == 0);
    }
  }

  /** Threads that use only the references they hold never abort; the count is the references left; and a
      decrement reports zero exactly when none is left, after which nothing takes effect. */
  lemma {:induction false} HeldReferences(start: System, steps: seq<Step>)
    requires Quiet(start) && Accounted(start) && FairRun(start, steps)
    ensures Accounted(Run(start, steps)) && ZeroIsLast(Run(start, steps))
  {
    if steps != [] {
      var s := Run(start, steps[..|steps| - 1]);
      HeldReferences(start, steps[..|steps| - 1]);
      StepAccounted(s, steps[|steps| - 1]);
      StepZero(s, Run(start, steps));
    }
  }
}
