/** Hot reloads against queries in flight (`src/server.rs`, `src/resolver.rs`). A
    reload takes the reload lock, stores the next generation and then clears the
    response cache; a query remembers the generation it started under, compares it
    with the current one when its response arrives, and inserts in a separate step. */
module Reload {
  import opened Prelude

  const GENERATIONS: nat := 0x1_0000_0000_0000_0000

  /** Who wrote a cached response: the generation the query ran under, and the times
      of its check and of its insert. */
  datatype Entry = Entry(generation: nat, checkedAt: nat, insertedAt: nat)

  datatype Query =
    | Running(generation: nat)
    | Checked(generation: nat, checkedAt: nat)
    | Finished

  /** The reload lock is free, held by a reload preparing `next`, or held by a reload
      that has stored its generation and has yet to clear the cache. */
  datatype Phase = Idle | Preparing(next: nat) | MustClear

  /** `storedAt[g]` is when generation `g` became current, `clearedAt[g]` when the
      clear that followed it ran. */
  datatype State = State(
    now: nat,
    generation: nat,
    phase: Phase,
    queries: seq<Query>,
    cache: map<u64, Entry>,
    storedAt: seq<nat>,
    clearedAt: seq<nat>)

  function Init(): State {
    State(1, 0, Idle, [], map[], [0], [0])
  }

  datatype Event =
    | Start
    | Check(q: nat)
    | Insert(q: nat, key: u64)
    | Evict(key: u64)
    | Lock
    | Abort
    | Store
    | Clear

  /** Fewer than 2^64 reloads happen, so the wrapping counter does not repeat. */
  predicate Enabled(s: State, e: Event) {
    match e
    case Start => true
    case Check(q) => q < |s.queries| && s.queries[q].Running?
    case Insert(q, _) => q < |s.queries| && s.queries[q].Checked?
    case Evict(_) => true
    case Lock => s.phase.Idle? && s.generation + 1 < GENERATIONS
    case Abort => s.phase.Preparing?
    case Store => s.phase.Preparing?
    case Clear => s.phase.MustClear?
  }

  function Step(s: State, e: Event): State
    requires Enabled(s, e)
  {
    match e
    case Start => s.(queries := s.queries + [Running(s.generation)])
    case Check(q) =>
      var g := s.queries[q].generation;
      var next := if g % GENERATIONS == s.generation % GENERATIONS then Checked(g, s.now) else Finished;
      s.(queries := s.queries[q := next])
    case Insert(q, key) =>
      s.(queries := s.queries[q := Finished],
         cache := s.cache[key := Entry(s.queries[q].generation, s.queries[q].checkedAt, s.now)])
    case Evict(key) => s.(cache := s.cache - {key})
    case Lock => s.(phase := Preparing(s.generation + 1))
    case Abort => s.(phase := Idle)
    case Store => s.(phase := MustClear, generation := s.phase.next, storedAt := s.storedAt + [s.now])
    case Clear => s.(phase := Idle, cache := map[], clearedAt := s.clearedAt + [s.now])
  }

  function Apply(s: State, e: Event): State
    requires Enabled(s, e)
  {
    Step(s, e).(now := s.now + 1)
  }

  ghost predicate IsRun(start: State, events: seq<Event>, states: seq<State>) {
    && |states| == |events| + 1
    && states[0] == start
    && forall i :: 0 <= i < |events| ==> Enabled(states[i], events[i]) && states[i + 1] == Apply(states[i], events[i])
  }

  // The invariant.

  /** A check for generation `g` at time `t` ran while `g` was current. */
  ghost predicate WhileCurrent(s: State, g: nat, t: nat) {
    && g < |s.storedAt|
    && s.storedAt[g] < t < s.now
    && (g + 1 < |s.storedAt| ==> t < s.storedAt[g + 1])
  }

  ghost predicate QueryOk(s: State, q: nat) {
    q < |s.queries| ==>
      && (s.queries[q].Running? ==> s.queries[q].generation <= s.generation)
      && (s.queries[q].Checked? ==> s.queries[q].generation <= s.generation
                                    && WhileCurrent(s, s.queries[q].generation, s.queries[q].checkedAt))
  }

  ghost predicate EntryOk(s: State, key: u64) {
    key in s.cache ==>
      var e := s.cache[key];
      && e.generation <= s.generation
      && WhileCurrent(s, e.generation, e.checkedAt)
      && e.checkedAt < e.insertedAt < s.now
      && |s.clearedAt| > 0 && s.clearedAt[|s.clearedAt| - 1] < e.insertedAt
  }

  ghost predicate Counts(s: State) {
    && s.generation < GENERATIONS
    && |s.storedAt| == s.generation + 1
    && |s.clearedAt| == s.generation + (if s.phase.MustClear? then 0 else 1)
    && |s.clearedAt| > 0
    && s.now > 0
    && (s.phase.Preparing? ==> s.phase.next == s.generation + 1 < GENERATIONS)
  }

  /** Generation `g` is stored after the clear of the one before and before its own. */
  ghost predicate ClockAt(s: State, g: nat) {
    && (g < |s.storedAt| ==> s.storedAt[g] < s.now)
    && (g < |s.clearedAt| ==> g < |s.storedAt| && s.storedAt[g] <= s.clearedAt[g] < s.now)
    && (0 < g < |s.storedAt| ==> g - 1 < |s.clearedAt| && s.clearedAt[g - 1] < s.storedAt[g])
  }

  ghost predicate Inv(s: State) {
    && Counts(s)
    && (forall g: nat :: ClockAt(s, g))
    && (forall q: nat :: QueryOk(s, q))
    && (forall key: u64 :: EntryOk(s, key))
  }

  lemma {:induction false} StepClock(s: State, e: Event, g: nat)
    requires Counts(s) && Enabled(s, e) && ClockAt(s, g) && ClockAt(s, s.generation)
    ensures Counts(Apply(s, e)) && ClockAt(Apply(s, e), g)
  {
  }

  lemma {:induction false} StepQuery(s: State, e: Event, q: nat)
    requires Counts(s) && Enabled(s, e) && QueryOk(s, q) && ClockAt(s, s.generation)
    ensures QueryOk(Apply(s, e), q)
  {
  }

  lemma {:induction false} StepEntry(s: State, e: Event, key: u64)
    requires Counts(s) && Enabled(s, e) && EntryOk(s, key) && (e.Insert? ==> QueryOk(s, e.q))
    requires ClockAt(s, |s.clearedAt| - 1)
    ensures EntryOk(Apply(s, e), key)
  {
  }

  lemma {:induction false} StepInv(s: State, e: Event)
    requires Inv(s) && Enabled(s, e)
    ensures Inv(Apply(s, e))
  {
    assert |s.clearedAt| > 0;
    hide Counts, ClockAt, QueryOk, EntryOk, Step, Enabled;
    var s' := Apply(s, e);
    StepClock(s, e, 0);
    forall g: nat ensures ClockAt(s', g) { StepClock(s, e, g); }
    forall q: nat ensures QueryOk(s', q) { StepQuery(s, e, q); }
    forall key: u64 ensures EntryOk(s', key) { StepEntry(s, e, key); }
  }

  lemma {:induction false} RunInv(events: seq<Event>, states: seq<State>, i: nat)
    requires IsRun(Init(), events, states) && i < |states|
    ensures Inv(states[i])
  {
    if i > 0 {
      RunInv(events, states, i - 1);
      hide Inv, Enabled, Apply;
      StepInv(states[i - 1], events[i - 1]);
    }
  }

  // What follows for every run.

  /** The current generation never goes back, and every store advances it by one. */
  lemma {:induction false} GenerationsIncrease(events: seq<Event>, states: seq<State>, i: nat)
    requires IsRun(Init(), events, states) && i < |events|
    ensures states[i + 1].generation == states[i].generation + (if events[i].Store? then 1 else 0) < GENERATIONS
  {
    RunInv(events, states, i);
    RunInv(events, states, i + 1);
  }

  /** Written by a query of an earlier generation. */
  predicate Stale(s: State, e: Entry) {
    e.generation < s.generation
  }

  /** Once the clear that followed the current generation has run, a stale entry in the
      cache can only stem from a query that checked before the next generation was
      stored and inserted after that clear. */
  lemma {:induction false} StaleMeansRace(events: seq<Event>, states: seq<State>, i: nat, key: u64)
    requires IsRun(Init(), events, states) && i < |states|
    requires key in states[i].cache && Stale(states[i], states[i].cache[key])
    requires !states[i].phase.MustClear?
    ensures var s := states[i];
            var e := s.cache[key];
            && e.generation + 1 < |s.storedAt| && |s.clearedAt| == |s.storedAt| == s.generation + 1
            && s.storedAt[e.generation] < e.checkedAt < s.storedAt[e.generation + 1]
            && s.clearedAt[s.generation] < e.insertedAt
  {
    RunInv(events, states, i);
    assert EntryOk(states[i], key);
  }

  /** No stale entry is cached and none is about to be inserted. */
  ghost predicate Settled(s: State) {
    && (forall key :: key in s.cache ==> !Stale(s, s.cache[key]))
    && (forall q :: 0 <= q < |s.queries| && s.queries[q].Checked? ==> s.queries[q].generation == s.generation)
  }

  lemma {:induction false} StepSettled(s: State, e: Event)
    requires Inv(s) && Settled(s) && Enabled(s, e) && !e.Store?
    ensures Settled(Apply(s, e))
  {
    if e.Check? { assert QueryOk(s, e.q); }
  }

  /** From a settled state on, no stale entry appears until the next store. */
  lemma {:induction false} SettledStays(start: State, events: seq<Event>, states: seq<State>, i: nat)
    requires Inv(start) && Settled(start) && IsRun(start, events, states) && i < |states|
    requires forall k :: 0 <= k < i ==> !events[k].Store?
    ensures Inv(states[i]) && Settled(states[i])
  {
    if i > 0 {
      SettledStays(start, events, states, i - 1);
      hide Inv, Settled, Enabled, Apply;
      StepInv(states[i - 1], events[i - 1]);
      StepSettled(states[i - 1], events[i - 1]);
    }
  }

  /** Some query of an earlier generation stands between its check and its insert. */
  ghost predicate InTheGap(s: State) {
    exists q :: 0 <= q < |s.queries| && s.queries[q].Checked? && s.queries[q].generation < s.generation
  }

  /** Right after a clear, whether a stale entry can still appear before the next
      reload depends on one thing: whether a query is then between its check and its
      insert. Without one no continuation has a stale entry; with one the next step
      may create it. */
  lemma {:induction false} ClearIsEnoughIff(events: seq<Event>, states: seq<State>, i: nat, key: u64)
    requires IsRun(Init(), events, states) && i < |events| && events[i].Clear?
    ensures !InTheGap(states[i + 1]) ==> Settled(states[i + 1])
    ensures InTheGap(states[i + 1]) ==>
              exists q :: Enabled(states[i + 1], Insert(q, key)) &&
                var s' := Apply(states[i + 1], Insert(q, key)); key in s'.cache && Stale(s', s'.cache[key])
  {
    RunInv(events, states, i + 1);
    var s := states[i + 1];
    if InTheGap(s) {
      var q :| 0 <= q < |s.queries| && s.queries[q].Checked? && s.queries[q].generation < s.generation;
      assert Enabled(s, Insert(q, key));
    } else {
      forall q | 0 <= q < |s.queries| && s.queries[q].Checked? ensures s.queries[q].generation == s.generation {
        assert QueryOk(s, q);
      }
    }
  }

  /** The gap is real: a run that ends idle, fully cleared, with a stale entry. */
  lemma {:induction false} StaleEntryWitness(key: u64) returns (events: seq<Event>, states: seq<State>)
    ensures IsRun(Init(), events, states)
    ensures var s := states[|events|];
            s.phase.Idle? && key in s.cache && Stale(s, s.cache[key]) && |s.clearedAt| == s.generation + 1
  {
    events := [Start, Check(0), Lock, Store, Clear, Insert(0, key)];
    var s0 := Init();
    var s1 := Apply(s0, Start);
    var s2 := Apply(s1, Check(0));
    var s3 := Apply(s2, Lock);
    var s4 := Apply(s3, Store);
    var s5 := Apply(s4, Clear);
    var s6 := Apply(s5, Insert(0, key));
    states := [s0, s1, s2, s3, s4, s5, s6];
  }
}
