/** Every interleaving of callers, leaders and followers over the singleflight table,
    with the leader guard of `src/resolver.rs`. A leader publishes in three steps:
    it takes its waiters out under the lock, sends to them one by one, and then marks
    itself published; dropping an unpublished leader removes its key instead. */
module SingleflightRuns {
  import opened Prelude
  import opened Singleflight

  /** Waiters still to be served, and what they are to get. */
  datatype Job = Job(rest: Waiters, value: Outcome)

  datatype Leader = Leader(
    cacheKey: u64, generation: u64, published: bool, gone: bool, job: Option<Job>, result: Option<Outcome>)

  /** `leader` is who was in flight when this caller joined. */
  datatype Follower = Follower(cacheKey: u64, generation: u64, leader: nat, received: seq<Outcome>)

  /** `owner` records which leader put each key into the table. */
  datatype State = State(table: Table, owner: map<u64, nat>, leaders: seq<Leader>, followers: seq<Follower>)

  function Init(): State {
    State(seq(SHARDS, _ => map[]), map[], [], [])
  }

  datatype Event =
    | Arrive(cacheKey: u64, generation: u64)
    | Publish(l: nat, value: Outcome)
    | SendNext(l: nat)
    | MarkPublished(l: nat)
    | DropLeader(l: nat)

  function LeaderKey(l: Leader): u64 {
    FlightKey(l.cacheKey, l.generation)
  }

  function FollowerKey(f: Follower): u64 {
    FlightKey(f.cacheKey, f.generation)
  }

  /** In flight: neither published nor dropped, and not busy publishing. */
  predicate Active(l: Leader) {
    !l.published && !l.gone && l.job.None?
  }

  predicate Enabled(s: State, e: Event) {
    && TableOk(s.table)
    && match e
       case Arrive(ck, g) => FlightKey(ck, g) in s.owner || Find(s.table, FlightKey(ck, g)).None?
       case Publish(l, v) => l < |s.leaders| && Active(s.leaders[l]) && v != Closed
       case SendNext(l) => l < |s.leaders| && s.leaders[l].job.Some? && s.leaders[l].job.value.rest != []
                           && s.leaders[l].job.value.rest[0] < |s.followers|
       case MarkPublished(l) => l < |s.leaders| && !s.leaders[l].gone && s.leaders[l].job.Some?
                                && s.leaders[l].job.value.rest == []
       case DropLeader(l) => l < |s.leaders| && !s.leaders[l].gone && s.leaders[l].job.None?
  }

  /** Take the waiters of `l`'s key out of the table and start serving them `v`. */
  function StartJob(s: State, l: nat, v: Outcome, gone: bool): State
    requires TableOk(s.table) && l < |s.leaders|
  {
    var key := LeaderKey(s.leaders[l]);
    s.(table := Delete(s.table, key),
       owner := s.owner - {key},
       leaders := s.leaders[l := s.leaders[l].(
         job := Some(Job(WaitersOf(s.table, key), v)), result := Some(v), gone := gone)])
  }

  function Apply(s: State, e: Event): State
    requires Enabled(s, e)
  {
    match e
    case Arrive(ck, g) =>
      var key := FlightKey(ck, g);
      if Find(s.table, key).Some? then
        s.(table := Put(s.table, key, Find(s.table, key).value + [|s.followers|]),
           followers := s.followers + [Follower(ck, g, s.owner[key], [])])
      else
        s.(table := Put(s.table, key, []),
           owner := s.owner[key := |s.leaders|],
           leaders := s.leaders + [Leader(ck, g, false, false, None, None)])
    case Publish(l, v) => StartJob(s, l, v, false)
    case SendNext(l) =>
      var job := s.leaders[l].job.value;
      var f := job.rest[0];
      s.(leaders := s.leaders[l := s.leaders[l].(job := Some(Job(job.rest[1..], job.value)))],
         followers := s.followers[f := s.followers[f].(received := s.followers[f].received + [job.value])])
    case MarkPublished(l) =>
      s.(leaders := s.leaders[l := s.leaders[l].(published := true, job := None)])
    case DropLeader(l) =>
      if !s.leaders[l].published then StartJob(s, l, Closed, true)
      else s.(leaders := s.leaders[l := s.leaders[l].(gone := true)])
  }

  ghost predicate IsRun(events: seq<Event>, states: seq<State>) {
    && |states| == |events| + 1
    && states[0] == Init()
    && forall i :: 0 <= i < |events| ==> Enabled(states[i], events[i]) && states[i + 1] == Apply(states[i], events[i])
  }

  // The invariant.

  ghost predicate NoDup(w: Waiters) {
    forall i, j :: 0 <= i < j < |w| ==> w[i] != w[j]
  }

  /** A key is in the table exactly when its owner is an active leader of that key. */
  ghost predicate KeyOk(s: State, k: u64)
    requires TableOk(s.table)
  {
    && (Find(s.table, k).Some? <==> k in s.owner)
    && (k in s.owner ==>
          && s.owner[k] < |s.leaders|
          && Active(s.leaders[s.owner[k]]) && LeaderKey(s.leaders[s.owner[k]]) == k
          && NoDup(Find(s.table, k).value)
          && forall f :: f in Find(s.table, k).value ==>
               f < |s.followers| && FollowerKey(s.followers[f]) == k && s.followers[f].leader == s.owner[k])
  }

  /** An active leader owns its key; one that is serving waiters serves its own. */
  ghost predicate LeaderOk(s: State, l: nat)
    requires TableOk(s.table)
  {
    l < |s.leaders| ==>
      && (Active(s.leaders[l]) ==>
            var k := LeaderKey(s.leaders[l]);
            k in s.owner && s.owner[k] == l && s.leaders[l].result.None?)
      && (s.leaders[l].job.Some? ==>
            && s.leaders[l].result == Some(s.leaders[l].job.value.value)
            && NoDup(s.leaders[l].job.value.rest)
            && forall f :: f in s.leaders[l].job.value.rest ==> f < |s.followers| && s.followers[f].leader == l)
      && (!Active(s.leaders[l]) ==> s.leaders[l].result.Some?)
  }

  ghost predicate InTable(s: State, f: nat)
    requires TableOk(s.table) && f < |s.followers|
  {
    var k := FollowerKey(s.followers[f]);
    Find(s.table, k).Some? && f in Find(s.table, k).value
  }

  ghost predicate InJob(s: State, f: nat)
    requires f < |s.followers|
  {
    var l := s.followers[f].leader;
    l < |s.leaders| && s.leaders[l].job.Some? && f in s.leaders[l].job.value.rest
  }

  /** A follower waits in the table, waits in its leader's job, or has received
      exactly what its leader decided. */
  ghost predicate FollowerOk(s: State, f: nat)
    requires TableOk(s.table)
  {
    f < |s.followers| ==>
      var x := s.followers[f];
      && x.leader < |s.leaders|
      && LeaderKey(s.leaders[x.leader]) == FollowerKey(x)
      && (InTable(s, f) ==> !InJob(s, f) && x.received == [] && Active(s.leaders[x.leader]))
      && (InJob(s, f) ==> x.received == [])
      && (!InTable(s, f) && !InJob(s, f) ==>
            s.leaders[x.leader].result.Some? && x.received == [s.leaders[x.leader].result.value])
  }

  ghost predicate Inv(s: State) {
    && TableOk(s.table)
    && (forall k: u64 :: KeyOk(s, k))
    && (forall l: nat :: LeaderOk(s, l))
    && (forall f: nat :: FollowerOk(s, f))
  }

  lemma {:induction false} JoinKeeps(s: State, e: Event, k: u64, l: nat, f: nat)
    requires Enabled(s, e) && e.Arrive? && Find(s.table, FlightKey(e.cacheKey, e.generation)).Some?
    requires KeyOk(s, FlightKey(e.cacheKey, e.generation)) && KeyOk(s, k) && LeaderOk(s, l) && FollowerOk(s, f)
    ensures var s' := Apply(s, e); TableOk(s'.table) && KeyOk(s', k) && LeaderOk(s', l) && FollowerOk(s', f)
  {
    hide TableOk, Find, Put, FlightKey;
    var w := Find(s.table, FlightKey(e.cacheKey, e.generation)).value;
    var n := |s.followers|;
    assert NoDup(w + [n]) by { assert forall i :: 0 <= i < |w| ==> w[i] in w; }
    assert forall x :: x in w + [n] <==> x in w || x == n;
  }

  lemma {:induction false} LeadKeeps(s: State, e: Event, k: u64, l: nat, f: nat)
    requires Enabled(s, e) && e.Arrive? && Find(s.table, FlightKey(e.cacheKey, e.generation)).None?
    requires KeyOk(s, FlightKey(e.cacheKey, e.generation)) && KeyOk(s, k) && LeaderOk(s, l) && FollowerOk(s, f)
    ensures var s' := Apply(s, e); TableOk(s'.table) && KeyOk(s', k) && LeaderOk(s', l) && FollowerOk(s', f)
  {
    hide TableOk, Find, Put, FlightKey;
  }

  lemma {:induction false} StartJobKeeps(s: State, i: nat, v: Outcome, gone: bool, k: u64, l: nat, f: nat)
    requires TableOk(s.table) && i < |s.leaders| && Active(s.leaders[i])
    requires LeaderOk(s, i) && KeyOk(s, LeaderKey(s.leaders[i]))
    requires KeyOk(s, k) && LeaderOk(s, l) && FollowerOk(s, f)
    requires f < |s.followers| ==> KeyOk(s, FollowerKey(s.followers[f]))
    ensures var s' := StartJob(s, i, v, gone); TableOk(s'.table) && KeyOk(s', k) && LeaderOk(s', l) && FollowerOk(s', f)
  {
    hide TableOk, Find, Delete, FlightKey;
  }

  lemma {:induction false} SendKeeps(s: State, e: Event, k: u64, l: nat, f: nat)
    requires Enabled(s, e) && e.SendNext? && LeaderOk(s, e.l) && FollowerOk(s, s.leaders[e.l].job.value.rest[0])
    requires KeyOk(s, k) && LeaderOk(s, l) && FollowerOk(s, f)
    ensures var s' := Apply(s, e); KeyOk(s', k) && LeaderOk(s', l) && FollowerOk(s', f)
  {
    hide TableOk, Find, FlightKey;
    var rest := s.leaders[e.l].job.value.rest;
    assert rest == [rest[0]] + rest[1..];
    assert forall x :: x in rest <==> x == rest[0] || x in rest[1..];
    assert NoDup(rest[1..]) && rest[0] !in rest[1..];
  }

  lemma {:induction false} EndKeeps(s: State, e: Event, k: u64, l: nat, f: nat)
    requires Enabled(s, e) && (e.MarkPublished? || (e.DropLeader? && s.leaders[e.l].published))
    requires LeaderOk(s, e.l) && KeyOk(s, k) && LeaderOk(s, l) && FollowerOk(s, f)
    ensures var s' := Apply(s, e); KeyOk(s', k) && LeaderOk(s', l) && FollowerOk(s', f)
  {
    hide TableOk, Find, FlightKey;
  }

  lemma {:induction false} StepPointwise(s: State, e: Event, k: u64, l: nat, f: nat)
    requires Inv(s) && Enabled(s, e)
    ensures var s' := Apply(s, e); TableOk(s'.table) && KeyOk(s', k) && LeaderOk(s', l) && FollowerOk(s', f)
  {
    hide TableOk, KeyOk, LeaderOk, FollowerOk, StartJob, Find, FlightKey;
    match e
    case Arrive(ck, g) =>
      if Find(s.table, FlightKey(ck, g)).Some? { JoinKeeps(s, e, k, l, f); } else { LeadKeeps(s, e, k, l, f); }
    case Publish(i, v) => StartJobKeeps(s, i, v, false, k, l, f);
    case SendNext(i) => SendKeeps(s, e, k, l, f);
    case MarkPublished(i) => EndKeeps(s, e, k, l, f);
    case DropLeader(i) =>
      if s.leaders[i].published { EndKeeps(s, e, k, l, f); } else { StartJobKeeps(s, i, Closed, true, k, l, f); }
  }

  lemma {:induction false} StepInv(s: State, e: Event)
    requires Inv(s) && Enabled(s, e)
    ensures Inv(Apply(s, e))
  {
    hide TableOk, KeyOk, LeaderOk, FollowerOk, Apply, Enabled;
    var s' := Apply(s, e);
    StepPointwise(s, e, 0, 0, 0);
    forall k: u64 ensures KeyOk(s', k) { StepPointwise(s, e, k, 0, 0); }
    forall l: nat ensures LeaderOk(s', l) { StepPointwise(s, e, 0, l, 0); }
    forall f: nat ensures FollowerOk(s', f) { StepPointwise(s, e, 0, 0, f); }
  }

  lemma {:induction false} RunInv(events: seq<Event>, states: seq<State>, i: nat)
    requires IsRun(events, states) && i < |states|
    ensures Inv(states[i])
  {
    if i > 0 {
      RunInv(events, states, i - 1);
      hide Inv;
      StepInv(states[i - 1], events[i - 1]);
    }
  }

  // What follows for every run.

  /** A key is in the table exactly when one active leader owns it, and no second
      active leader has the same key. So a leader that has published, and is dropped
      only later, can never take the key away from the one that follows it. */
  lemma {:induction false} OneActiveLeader(events: seq<Event>, states: seq<State>, i: nat, k: u64)
    requires IsRun(events, states) && i < |states|
    ensures TableOk(states[i].table)
    ensures Find(states[i].table, k).Some? <==>
              exists l :: && 0 <= l < |states[i].leaders| && Active(states[i].leaders[l])
                          && LeaderKey(states[i].leaders[l]) == k
    ensures forall a, b ::
              (&& 0 <= a < |states[i].leaders| && 0 <= b < |states[i].leaders|
               && Active(states[i].leaders[a]) && Active(states[i].leaders[b])
               && LeaderKey(states[i].leaders[a]) == LeaderKey(states[i].leaders[b])) ==> a == b
  {
    hide TableOk, Find, FlightKey, FollowerOk;
    RunInv(events, states, i);
    var s := states[i];
    assert KeyOk(s, k);
    if k in s.owner { assert Active(s.leaders[s.owner[k]]); }
    forall l | 0 <= l < |s.leaders| && Active(s.leaders[l]) 
      ensures LeaderKey(s.leaders[l]) in s.owner && s.owner[LeaderKey(s.leaders[l])] == l
    {
      assert LeaderOk(s, l);
    }
  }

  /** No follower ever receives more than one outcome; once its leader has decided
      and served its waiters, it has received exactly that leader's outcome. */
  lemma {:induction false} OneOutcomeEach(events: seq<Event>, states: seq<State>, i: nat, f: nat)
    requires IsRun(events, states) && i < |states| && f < |states[i].followers|
    ensures var s := states[i];
            var x := s.followers[f];
            && x.leader < |s.leaders| && |x.received| <= 1
            && (x.received != [] ==> s.leaders[x.leader].result == Some(x.received[0]))
            && (&& !Active(s.leaders[x.leader])
                && (s.leaders[x.leader].job.None? || s.leaders[x.leader].job.value.rest == []) ==>
                  |x.received| == 1)
  {
    hide TableOk, Find, FlightKey;
    RunInv(events, states, i);
    assert FollowerOk(states[i], f);
  }

  /** Callers of different routing generations with the same cache key never share an
      upstream exchange. */
  lemma {:induction false} GenerationsApart(events: seq<Event>, states: seq<State>, i: nat, f: nat)
    requires IsRun(events, states) && i < |states| && f < |states[i].followers|
    ensures var s := states[i];
            var x := s.followers[f];
            && x.leader < |s.leaders|
            && FollowerKey(x) == LeaderKey(s.leaders[x.leader])
            && (x.cacheKey == s.leaders[x.leader].cacheKey ==> x.generation == s.leaders[x.leader].generation)
  {
    hide TableOk, Find, FlightKey;
    RunInv(events, states, i);
    assert FollowerOk(states[i], f);
    var x := states[i].followers[f];
    if x.cacheKey == states[i].leaders[x.leader].cacheKey {
      FlightKeySeparates(x.cacheKey, x.generation, states[i].leaders[x.leader].generation);
    }
  }

  /** A caller can always register. */
  lemma {:induction false} ArrivalsNeverBlock(events: seq<Event>, states: seq<State>, i: nat, cacheKey: u64,
                                              generation: u64)
    requires IsRun(events, states) && i < |states|
    ensures Enabled(states[i], Arrive(cacheKey, generation))
  {
    hide Find, FlightKey;
    RunInv(events, states, i);
    assert KeyOk(states[i], FlightKey(cacheKey, generation));
  }

  // Whose outcome it is.

  /** What this event decides for leader `l`, if anything. */
  ghost function Decision(s: State, e: Event, l: nat): Option<Outcome>
    requires l < |s.leaders|
  {
    if e.Publish? && e.l == l then Some(e.value)
    else if e == DropLeader(l) && !s.leaders[l].published then Some(Closed)
    else None
  }

  lemma {:induction false} StepDecides(s: State, e: Event, l: nat)
    requires Enabled(s, e) && l < |s.leaders|
    ensures var s' := Apply(s, e);
            && l < |s'.leaders|
            && s'.leaders[l].result ==
               if Decision(s, e, l).Some? then Decision(s, e, l) else s.leaders[l].result
  {
    hide TableOk, Find, FlightKey, Delete, Put, WaitersOf;
    match e
    case Arrive(_, _) =>
    case Publish(_, _) =>
    case SendNext(_) =>
    case MarkPublished(_) =>
    case DropLeader(_) =>
  }

  /** In every run a leader's outcome is decided once: by what it published, or as closed
      when it was dropped before. */
  lemma {:induction false} DecidedOnce(events: seq<Event>, states: seq<State>, i: nat, j: nat, l: nat)
    requires IsRun(events, states) && i < j < |states| && l < |states[i].leaders|
    requires Decision(states[i], events[i], l).Some?
    ensures l < |states[j].leaders| && states[j].leaders[l].result == Decision(states[i], events[i], l)
    ensures !Active(states[j].leaders[l])
    decreases j
  {
    hide Enabled, Apply;
    if j == i + 1 {
      StepDecides(states[i], events[i], l);
      DecidedInactive(states[i], events[i], l);
    } else {
      DecidedOnce(events, states, i, j - 1, l);
      StepDecides(states[j - 1], events[j - 1], l);
      StaysInactive(states[j - 1], events[j - 1], l);
    }
  }

  lemma {:induction false} DecidedInactive(s: State, e: Event, l: nat)
    requires Enabled(s, e) && l < |s.leaders| && Decision(s, e, l).Some?
    ensures l < |Apply(s, e).leaders| && !Active(Apply(s, e).leaders[l])
  {
    hide TableOk, Find, FlightKey, Delete, Put, WaitersOf;
  }

  lemma {:induction false} StaysInactive(s: State, e: Event, l: nat)
    requires Enabled(s, e) && l < |s.leaders| && !Active(s.leaders[l])
    ensures l < |Apply(s, e).leaders| && !Active(Apply(s, e).leaders[l])
    ensures Decision(s, e, l) in {None, s.leaders[l].result}
  {
    hide TableOk, Find, FlightKey, Delete, Put, WaitersOf;
    match e
    case Arrive(_, _) =>
    case Publish(_, _) =>
    case SendNext(_) =>
    case MarkPublished(_) =>
    case DropLeader(_) =>
  }

  /** A leader in flight can publish any real outcome. */
  lemma {:induction false} CanPublish(events: seq<Event>, states: seq<State>, i: nat, l: nat, v: Outcome)
    requires IsRun(events, states) && i < |states| && l < |states[i].leaders| && Active(states[i].leaders[l])
    ensures Enabled(states[i], Publish(l, v)) <==> v != Closed
  {
    hide FlightKey;
    RunInv(events, states, i);
  }
}
