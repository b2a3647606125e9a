/** Resolution of `?bootstrap=` references between servers (`src/config/parse.rs`).
    What a server's URLs resolve to is a parameter `resolve` of the entry and of what
    the servers it bootstraps from resolved to; it may fail. */
module Bootstrap {
  import opened Prelude

  datatype Pending = Pending(name: string, isFixed: bool, deps: seq<string>)

  datatype ResolveError =
    | SelfReference(name: string)
    | NoSuchServer(name: string, dep: string)
    | FixedReference(name: string, dep: string)
    | Unparseable(name: string)
    | ReferenceCycle(stuck: seq<string>)

  // The bootstrap graph.

  ghost predicate UniqueNames(ps: seq<Pending>) {
    forall i, j :: 0 <= i < j < |ps| ==> ps[i].name != ps[j].name
  }

  predicate NamesReal(ps: seq<Pending>, dep: string) {
    exists j :: 0 <= j < |ps| && ps[j].name == dep && !ps[j].isFixed
  }

  /** Every reference names a different, existing server with real upstreams. */
  ghost predicate ValidRefs(ps: seq<Pending>) {
    forall i, k :: 0 <= i < |ps| && 0 <= k < |ps[i].deps| ==>
      ps[i].deps[k] != ps[i].name && NamesReal(ps, ps[i].deps[k])
  }

  ghost predicate DependsOn(ps: seq<Pending>, a: string, b: string) {
    exists i :: 0 <= i < |ps| && ps[i].name == a && b in ps[i].deps
  }

  ghost predicate Link(ps: seq<Pending>, walk: seq<string>, k: nat)
    requires k + 1 < |walk|
  {
    DependsOn(ps, walk[k], walk[k + 1])
  }

  /** A walk along references. */
  ghost predicate IsWalk(ps: seq<Pending>, walk: seq<string>) {
    forall k: nat :: k + 1 < |walk| ==> Link(ps, walk, k)
  }

  ghost predicate IsCycle(ps: seq<Pending>, walk: seq<string>) {
    |walk| >= 2 && walk[0] == walk[|walk| - 1] && IsWalk(ps, walk)
  }

  ghost predicate Acyclic(ps: seq<Pending>) {
    forall walk :: !IsCycle(ps, walk)
  }

  /** A cycle among these names. */
  ghost predicate CycleAmong(ps: seq<Pending>, names: seq<string>) {
    exists walk :: IsCycle(ps, walk) && forall x :: x in walk ==> x in names
  }

  ghost predicate Repeats(walk: seq<string>) {
    exists i, j :: 0 <= i < j < |walk| && walk[i] == walk[j]
  }

  /** Following references from `a` one can come back to a name. */
  ghost predicate ReachesCycle(ps: seq<Pending>, a: string) {
    exists walk :: IsWalk(ps, walk) && Repeats(walk) && walk[0] == a
  }

  // Validation.

  /** The error is a true statement about some reference. */
  ghost predicate Explains(ps: seq<Pending>, e: ResolveError) {
    match e
    case SelfReference(n) => DependsOn(ps, n, n)
    case NoSuchServer(n, d) => DependsOn(ps, n, d) && forall j :: 0 <= j < |ps| ==> ps[j].name != d
    case FixedReference(n, d) => DependsOn(ps, n, d) && exists j :: 0 <= j < |ps| && ps[j].name == d && ps[j].isFixed
    case _ => false
  }

  method ValidateRefs(ps: seq<Pending>) returns (r: Option<ResolveError>)
    requires UniqueNames(ps)
    ensures r.None? <==> ValidRefs(ps)
    ensures r.Some? ==> Explains(ps, r.value)
  {
    for i := 0 to |ps|
      invariant forall a, k :: 0 <= a < i && 0 <= k < |ps[a].deps| ==>
                  ps[a].deps[k] != ps[a].name && NamesReal(ps, ps[a].deps[k])
    {
      for k := 0 to |ps[i].deps|
        invariant forall b :: 0 <= b < k ==> ps[i].deps[b] != ps[i].name && NamesReal(ps, ps[i].deps[b])
      {
        var dep := ps[i].deps[k];
        assert DependsOn(ps, ps[i].name, dep);
        if dep == ps[i].name { return Some(SelfReference(dep)); }
        if !(exists j :: 0 <= j < |ps| && ps[j].name == dep) { return Some(NoSuchServer(ps[i].name, dep)); }
        if exists j :: 0 <= j < |ps| && ps[j].name == dep && ps[j].isFixed {
          assert !NamesReal(ps, dep);
          return Some(FixedReference(ps[i].name, dep));
        }
      }
    }
    return None;
  }

  // Resolution in dependency order.

  predicate DepsReady<T>(p: Pending, targets: map<string, T>) {
    forall k :: 0 <= k < |p.deps| ==> p.deps[k] in targets
  }

  function DepTargets<T>(p: Pending, targets: map<string, T>): seq<T>
    requires DepsReady(p, targets)
  {
    seq(|p.deps|, k requires 0 <= k < |p.deps| => targets[p.deps[k]])
  }

  function Unresolved<T>(resolved: seq<Option<T>>): nat {
    if resolved == [] then 0
    else Unresolved(resolved[1..]) + (if resolved[0].None? then 1 else 0)
  }

  lemma {:induction false} UnresolvedSet<T>(resolved: seq<Option<T>>, i: nat, v: T)
    requires i < |resolved| && resolved[i].None?
    ensures Unresolved(resolved[i := Some(v)]) == Unresolved(resolved) - 1
  {
    if i > 0 {
      assert resolved[i := Some(v)][1..] == resolved[1..][i - 1 := Some(v)];
      UnresolvedSet(resolved[1..], i - 1, v);
    }
  }

  lemma {:induction false} UnresolvedZero<T>(resolved: seq<Option<T>>)
    ensures Unresolved(resolved) == 0 <==> forall i :: 0 <= i < |resolved| ==> resolved[i].Some?
  {
    if resolved != [] {
      UnresolvedZero(resolved[1..]);
      assert resolved == [resolved[0]] + resolved[1..];
    }
  }

  lemma {:induction false} UnresolvedAll<T>(resolved: seq<Option<T>>)
    requires forall i :: 0 <= i < |resolved| ==> resolved[i].None?
    ensures Unresolved(resolved) == |resolved|
  {
    if resolved != [] { UnresolvedAll(resolved[1..]); }
  }

  /** Slot `i` is filled with what the entry resolves to on top of its dependencies,
      each of which was resolved earlier. */
  ghost predicate SlotOk<T(!new)>(ps: seq<Pending>, resolve: (Pending, seq<T>) -> Option<T>, resolved: seq<Option<T>>,
                                  targets: map<string, T>, rank: map<string, nat>, i: nat)
    requires |resolved| == |ps|
  {
    i < |ps| && resolved[i].Some? ==>
      && DepsReady(ps[i], targets)
      && resolve(ps[i], DepTargets(ps[i], targets)) == resolved[i]
      && ps[i].name in rank
      && (!ps[i].isFixed ==> ps[i].name in targets && targets[ps[i].name] == resolved[i].value)
      && (forall k :: 0 <= k < |ps[i].deps| ==> ps[i].deps[k] in rank && rank[ps[i].deps[k]] < rank[ps[i].name])
  }

  /** Only resolved servers with real upstreams are bootstrap targets. */
  ghost predicate TargetOk<T>(ps: seq<Pending>, resolved: seq<Option<T>>, targets: map<string, T>, name: string)
    requires |resolved| == |ps|
  {
    name in targets ==> exists j :: 0 <= j < |ps| && ps[j].name == name && !ps[j].isFixed && resolved[j].Some?
  }

  /** Filling a slot whose dependencies are ready keeps what holds of all slots. */
  lemma {:induction false} FillSlot<T(!new)>(ps: seq<Pending>, resolve: (Pending, seq<T>) -> Option<T>,
                                             resolved: seq<Option<T>>, targets: map<string, T>,
                                             rank: map<string, nat>, i: nat, now: nat, targets': map<string, T>,
                                             j: nat)
    requires |resolved| == |ps| && UniqueNames(ps) && i < |ps| && resolved[i].None?
    requires DepsReady(ps[i], targets) && resolve(ps[i], DepTargets(ps[i], targets)).Some?
    requires forall n :: n in rank ==> rank[n] < now
    requires forall n :: n in targets ==> n in rank
    requires ps[i].name !in rank
    requires var v := resolve(ps[i], DepTargets(ps[i], targets)).value;
             targets' == if ps[i].isFixed then targets else targets[ps[i].name := v]
    requires SlotOk(ps, resolve, resolved, targets, rank, j)
    ensures SlotOk(ps, resolve, resolved[i := resolve(ps[i], DepTargets(ps[i], targets))], targets',
                   rank[ps[i].name := now], j)
  {
    var v := resolve(ps[i], DepTargets(ps[i], targets));
    if j < |ps| && resolved[i := v][j].Some? {
      assert forall k :: 0 <= k < |ps[j].deps| ==> ps[j].deps[k] in targets && ps[j].deps[k] != ps[i].name;
      assert DepTargets(ps[j], targets') == DepTargets(ps[j], targets);
    }
  }

  function Lookup<T>(out: seq<(string, T)>, name: string): Option<T> {
    if out == [] then None else if out[0].0 == name then Some(out[0].1) else Lookup(out[1..], name)
  }

  lemma {:induction false} LookupAt<T>(out: seq<(string, T)>, i: nat)
    requires i < |out| && forall a, b :: 0 <= a < b < |out| ==> out[a].0 != out[b].0
    ensures Lookup(out, out[i].0) == Some(out[i].1)
  {
    if i > 0 {
      assert out[0].0 != out[i].0;
      LookupAt(out[1..], i - 1);
    }
  }

  ghost predicate DepsPresent<T>(p: Pending, out: seq<(string, T)>) {
    forall k :: 0 <= k < |p.deps| ==> Lookup(out, p.deps[k]).Some?
  }

  ghost function DepValues<T>(p: Pending, out: seq<(string, T)>): seq<T>
    requires DepsPresent(p, out)
  {
    seq(|p.deps|, k requires 0 <= k < |p.deps| => Lookup(out, p.deps[k]).value)
  }

  /** One result per server in the given order, each on top of the results it depends on. */
  ghost predicate Solution<T(!new)>(ps: seq<Pending>, resolve: (Pending, seq<T>) -> Option<T>, out: seq<(string, T)>) {
    && |out| == |ps|
    && forall i :: 0 <= i < |ps| ==>
         && out[i].0 == ps[i].name
         && DepsPresent(ps[i], out)
         && resolve(ps[i], DepValues(ps[i], out)) == Some(out[i].1)
  }

  ghost predicate WaitsIn(ps: seq<Pending>, stuck: seq<string>, a: string) {
    exists b :: b in stuck && DependsOn(ps, a, b)
  }

  /** Every stuck name waits for another stuck name. */
  ghost predicate Knot(ps: seq<Pending>, stuck: seq<string>) {
    && stuck != []
    && forall a :: a in stuck ==> WaitsIn(ps, stuck, a)
  }

  lemma {:induction false} SolutionFromSlots<T(!new)>(ps: seq<Pending>, resolve: (Pending, seq<T>) -> Option<T>,
                                                      resolved: seq<Option<T>>, targets: map<string, T>,
                                                      rank: map<string, nat>, out: seq<(string, T)>)
    requires |resolved| == |ps| && UniqueNames(ps) && |out| == |ps|
    requires forall i: nat :: SlotOk(ps, resolve, resolved, targets, rank, i)
    requires forall n :: TargetOk(ps, resolved, targets, n)
    requires forall i :: 0 <= i < |ps| ==> resolved[i].Some? && out[i] == (ps[i].name, resolved[i].value)
    ensures Solution(ps, resolve, out)
  {
    forall i | 0 <= i < |ps|
      ensures DepsPresent(ps[i], out) && resolve(ps[i], DepValues(ps[i], out)) == Some(out[i].1)
    {
      assert SlotOk(ps, resolve, resolved, targets, rank, i);
      forall k | 0 <= k < |ps[i].deps| ensures Lookup(out, ps[i].deps[k]) == Some(targets[ps[i].deps[k]]) {
        var dep := ps[i].deps[k];
        assert TargetOk(ps, resolved, targets, dep);
        var j :| 0 <= j < |ps| && ps[j].name == dep && !ps[j].isFixed && resolved[j].Some?;
        assert SlotOk(ps, resolve, resolved, targets, rank, j);
        LookupAt(out, j);
      }
      assert DepValues(ps[i], out) == DepTargets(ps[i], targets);
    }
  }

  // Cycles.

  /** A rank that falls along every reference of a ranked name. */
  ghost predicate Falls(ps: seq<Pending>, rank: map<string, nat>) {
    forall a, b :: DependsOn(ps, a, b) && a in rank ==> b in rank && rank[b] < rank[a]
  }

  lemma {:induction false} RankFalls(ps: seq<Pending>, rank: map<string, nat>, walk: seq<string>, i: nat, j: nat)
    requires Falls(ps, rank) && IsWalk(ps, walk) && i <= j < |walk| && walk[i] in rank
    ensures walk[j] in rank && rank[walk[j]] + (j - i) <= rank[walk[i]]
    decreases j - i
  {
    hide DependsOn;
    if i < j {
      RankFalls(ps, rank, walk, i, j - 1);
      assert Link(ps, walk, j - 1);
    }
  }

  lemma {:induction false} RankedAcyclic(ps: seq<Pending>, rank: map<string, nat>)
    requires Falls(ps, rank) && forall i :: 0 <= i < |ps| ==> ps[i].name in rank
    ensures Acyclic(ps)
  {
    forall walk ensures !IsCycle(ps, walk) {
      if |walk| >= 2 && IsWalk(ps, walk) {
        assert Link(ps, walk, 0);
        RankFalls(ps, rank, walk, 0, |walk| - 1);
      }
    }
  }

  /** No cycle is reached from a ranked name. */
  lemma {:induction false} RankedReachesNone(ps: seq<Pending>, rank: map<string, nat>, a: string)
    requires Falls(ps, rank) && a in rank
    ensures !ReachesCycle(ps, a)
  {
    hide Falls, IsWalk;
    forall walk | IsWalk(ps, walk) && walk != [] && walk[0] == a ensures !Repeats(walk) {
      forall i, j | 0 <= i < j < |walk| ensures walk[i] != walk[j] {
        RankFalls(ps, rank, walk, 0, i);
        RankFalls(ps, rank, walk, i, j);
      }
    }
  }

  /** Inside a knot one can walk on for ever. */
  lemma {:induction false} LongWalk(ps: seq<Pending>, stuck: seq<string>, a: string, n: nat)
    returns (walk: seq<string>)
    requires Knot(ps, stuck) && a in stuck
    ensures |walk| == n + 1 && walk[0] == a && IsWalk(ps, walk) && forall x :: x in walk ==> x in stuck
    decreases n
  {
    hide DependsOn;
    if n == 0 {
      walk := [a];
    } else {
      var w := LongWalk(ps, stuck, a, n - 1);
      assert w[n - 1] in stuck && WaitsIn(ps, stuck, w[n - 1]);
      var next :| next in stuck && DependsOn(ps, w[n - 1], next);
      WalkOn(ps, w, next);
      walk := w + [next];
    }
  }

  lemma {:induction false} WalkOn(ps: seq<Pending>, w: seq<string>, next: string)
    requires w != [] && IsWalk(ps, w) && DependsOn(ps, w[|w| - 1], next)
    ensures IsWalk(ps, w + [next])
  {
    hide DependsOn;
    var walk := w + [next];
    forall k: nat | k + 1 < |walk| ensures Link(ps, walk, k) {
      if k + 1 < |w| { assert Link(ps, w, k); }
    }
  }

  lemma {:induction false} NoDupBound(walk: seq<string>, within: set<string>)
    requires forall x :: x in walk ==> x in within
    requires forall i, j :: 0 <= i < j < |walk| ==> walk[i] != walk[j]
    ensures |walk| <= |within|
    decreases |walk|
  {
    if walk != [] {
      var n := |walk| - 1;
      assert walk[n] in within;
      forall x | x in walk[..n] ensures x in within - {walk[n]} {
        var i :| 0 <= i < n && walk[i] == x;
      }
      NoDupBound(walk[..n], within - {walk[n]});
    }
  }

  /** From every name of a knot a cycle can be reached. */
  lemma {:induction false} KnotReaches(ps: seq<Pending>, stuck: seq<string>, a: string) returns (walk: seq<string>)
    requires Knot(ps, stuck) && a in stuck
    ensures IsWalk(ps, walk) && Repeats(walk) && walk[0] == a && forall x :: x in walk ==> x in stuck
    ensures ReachesCycle(ps, a)
  {
    hide IsWalk, Knot;
    var within := set x | x in stuck;
    walk := LongWalk(ps, stuck, a, |within|);
    if !Repeats(walk) { NoDupBound(walk, within); }
  }

  /** A knot contains a cycle. */
  lemma {:induction false} KnotHasCycle(ps: seq<Pending>, stuck: seq<string>)
    requires Knot(ps, stuck)
    ensures CycleAmong(ps, stuck) && !Acyclic(ps)
  {
    hide DependsOn;
    var walk := KnotReaches(ps, stuck, stuck[0]);
    var i, j :| 0 <= i < j < |walk| && walk[i] == walk[j];
    var loop := walk[i..j + 1];
    forall k: nat | k + 1 < |loop| ensures Link(ps, loop, k) {
      assert Link(ps, walk, i + k);
    }
    assert IsCycle(ps, loop);
    assert forall x :: x in loop ==> x in walk;
  }

  // The resolution loop.

  ghost predicate Consistent<T(!new)>(ps: seq<Pending>, resolve: (Pending, seq<T>) -> Option<T>,
                                      resolved: seq<Option<T>>, targets: map<string, T>, rank: map<string, nat>,
                                      now: nat) {
    && |resolved| == |ps|
    && (forall i: nat :: SlotOk(ps, resolve, resolved, targets, rank, i))
    && (forall n :: TargetOk(ps, resolved, targets, n))
    && (forall n :: n in rank ==> rank[n] < now)
    && (forall n :: n in targets ==> n in rank)
    && (forall i :: 0 <= i < |ps| ==> (ps[i].name in rank <==> resolved[i].Some?))
  }

  lemma {:induction false} Fill<T(!new)>(ps: seq<Pending>, resolve: (Pending, seq<T>) -> Option<T>,
                                         resolved: seq<Option<T>>, targets: map<string, T>, rank: map<string, nat>,
                                         now: nat, i: nat, targets': map<string, T>)
    requires UniqueNames(ps) && Consistent(ps, resolve, resolved, targets, rank, now)
    requires i < |ps| && resolved[i].None?
    requires DepsReady(ps[i], targets) && resolve(ps[i], DepTargets(ps[i], targets)).Some?
    requires var v := resolve(ps[i], DepTargets(ps[i], targets)).value;
             targets' == if ps[i].isFixed then targets else targets[ps[i].name := v]
    ensures Consistent(ps, resolve, resolved[i := resolve(ps[i], DepTargets(ps[i], targets))], targets',
                       rank[ps[i].name := now], now + 1)
  {
    var resolved' := resolved[i := resolve(ps[i], DepTargets(ps[i], targets))];
    var rank' := rank[ps[i].name := now];
    forall j: nat ensures SlotOk(ps, resolve, resolved', targets', rank', j) {
      FillSlot(ps, resolve, resolved, targets, rank, i, now, targets', j);
    }
    hide SlotOk;
    forall n ensures TargetOk(ps, resolved', targets', n) {
      if n in targets' {
        if n in targets {
          assert TargetOk(ps, resolved, targets, n);
          var j :| 0 <= j < |ps| && ps[j].name == n && !ps[j].isFixed && resolved[j].Some?;
          assert resolved'[j].Some?;
        } else {
          assert ps[i].name == n && resolved'[i].Some?;
        }
      }
    }
  }

  function StuckNames<T>(ps: seq<Pending>, resolved: seq<Option<T>>): seq<string>
    requires |ps| == |resolved|
  {
    if ps == [] then []
    else (if resolved[0].None? then [ps[0].name] else []) + StuckNames(ps[1..], resolved[1..])
  }

  lemma {:induction false} StuckIfOpen<T>(ps: seq<Pending>, resolved: seq<Option<T>>, i: nat)
    requires |ps| == |resolved| && i < |ps| && resolved[i].None?
    ensures ps[i].name in StuckNames(ps, resolved)
    decreases |ps|
  {
    if i > 0 { StuckIfOpen(ps[1..], resolved[1..], i - 1); }
  }

  lemma {:induction false} OpenIfStuck<T>(ps: seq<Pending>, resolved: seq<Option<T>>, n: string) returns (i: nat)
    requires |ps| == |resolved| && n in StuckNames(ps, resolved)
    ensures i < |ps| && ps[i].name == n && resolved[i].None?
    decreases |ps|
  {
    if resolved[0].None? && ps[0].name == n {
      i := 0;
    } else {
      i := OpenIfStuck(ps[1..], resolved[1..], n);
      i := i + 1;
    }
  }

  ghost predicate Waits<T>(p: Pending, targets: map<string, T>) {
    exists k :: 0 <= k < |p.deps| && p.deps[k] !in targets
  }

  /** A pass without progress leaves a knot. */
  lemma {:induction false} NoProgressIsKnot<T(!new)>(ps: seq<Pending>, resolve: (Pending, seq<T>) -> Option<T>,
                                                     resolved: seq<Option<T>>, targets: map<string, T>,
                                                     rank: map<string, nat>, now: nat)
    requires |resolved| == |ps| && ValidRefs(ps) && Consistent(ps, resolve, resolved, targets, rank, now)
    requires Unresolved(resolved) > 0
    requires forall i :: 0 <= i < |ps| && resolved[i].None? ==> Waits(ps[i], targets)
    ensures Knot(ps, StuckNames(ps, resolved))
  {
    hide StuckNames, Consistent, Waits, WaitsIn, ValidRefs, Unresolved;
    var stuck := StuckNames(ps, resolved);
    UnresolvedZero(resolved);
    var i :| 0 <= i < |resolved| && resolved[i].None?;
    StuckIfOpen(ps, resolved, i);
    forall a | a in stuck ensures WaitsIn(ps, stuck, a) {
      var j := OpenIfStuck(ps, resolved, a);
      WaitsForStuck(ps, resolve, resolved, targets, rank, now, j);
    }
  }

  lemma {:induction false} WaitsForStuck<T(!new)>(ps: seq<Pending>, resolve: (Pending, seq<T>) -> Option<T>,
                                                  resolved: seq<Option<T>>, targets: map<string, T>,
                                                  rank: map<string, nat>, now: nat, j: nat)
    requires ValidRefs(ps) && Consistent(ps, resolve, resolved, targets, rank, now)
    requires j < |ps| && Waits(ps[j], targets)
    ensures WaitsIn(ps, StuckNames(ps, resolved), ps[j].name)
  {
    hide StuckNames, TargetOk;
    var k :| 0 <= k < |ps[j].deps| && ps[j].deps[k] !in targets;
    var b := ps[j].deps[k];
    assert NamesReal(ps, b);
    var m :| 0 <= m < |ps| && ps[m].name == b && !ps[m].isFixed;
    assert SlotOk(ps, resolve, resolved, targets, rank, m);
    StuckIfOpen(ps, resolved, m);
    assert DependsOn(ps, ps[j].name, b);
  }

  lemma {:induction false} SlotsFall<T(!new)>(ps: seq<Pending>, resolve: (Pending, seq<T>) -> Option<T>,
                                              resolved: seq<Option<T>>, targets: map<string, T>,
                                              rank: map<string, nat>, now: nat)
    requires Consistent(ps, resolve, resolved, targets, rank, now)
    ensures Falls(ps, rank)
  {
    forall a, b | DependsOn(ps, a, b) && a in rank ensures b in rank && rank[b] < rank[a] {
      var i :| 0 <= i < |ps| && ps[i].name == a && b in ps[i].deps;
      assert SlotOk(ps, resolve, resolved, targets, rank, i);
    }
  }

  /** The servers left when nothing progresses are exactly those from which a cycle can be
      reached. */
  lemma {:induction false} StuckExact<T(!new)>(ps: seq<Pending>, resolve: (Pending, seq<T>) -> Option<T>,
                                               resolved: seq<Option<T>>, targets: map<string, T>,
                                               rank: map<string, nat>, now: nat, i: nat)
    requires Consistent(ps, resolve, resolved, targets, rank, now) && i < |ps|
    requires UniqueNames(ps) && Knot(ps, StuckNames(ps, resolved))
    ensures ps[i].name in StuckNames(ps, resolved) <==> ReachesCycle(ps, ps[i].name)
  {
    hide StuckNames, Knot, ReachesCycle, Falls;
    if resolved[i].None? {
      StuckIfOpen(ps, resolved, i);
      var _ := KnotReaches(ps, StuckNames(ps, resolved), ps[i].name);
    } else {
      SlotsFall(ps, resolve, resolved, targets, rank, now);
      RankedReachesNone(ps, rank, ps[i].name);
      if ps[i].name in StuckNames(ps, resolved) {
        var j := OpenIfStuck(ps, resolved, ps[i].name);
        assert false;
      }
    }
  }

  method ParseServers<T(!new)>(ps: seq<Pending>, resolve: (Pending, seq<T>) -> Option<T>)
    returns (r: Result<seq<(string, T)>, ResolveError>)
    requires UniqueNames(ps)
    ensures r.Ok? ==> ValidRefs(ps) && Acyclic(ps) && Solution(ps, resolve, r.value)
    ensures r.Err? && r.error.ReferenceCycle? ==>
              ValidRefs(ps) && Knot(ps, r.error.stuck) && CycleAmong(ps, r.error.stuck) && !Acyclic(ps)
    ensures r.Err? && r.error.ReferenceCycle? ==>
              forall i :: 0 <= i < |ps| ==> (ps[i].name in r.error.stuck <==> ReachesCycle(ps, ps[i].name))
    ensures r.Err? && r.error.Unparseable? ==>
              ValidRefs(ps) && exists i, ts :: 0 <= i < |ps| && ps[i].name == r.error.name && resolve(ps[i], ts).None?
    ensures r.Err? && !r.error.ReferenceCycle? && !r.error.Unparseable? ==> !ValidRefs(ps) && Explains(ps, r.error)
    ensures ValidRefs(ps) && (forall p, ts :: resolve(p, ts).Some?) ==> (r.Ok? <==> Acyclic(ps))
  {
    hide Acyclic, Falls, SlotOk, TargetOk, Unresolved, Knot, CycleAmong, ReachesCycle, StuckNames;
    var invalid := ValidateRefs(ps);
    if invalid.Some? { return Err(invalid.value); }
    var resolved: seq<Option<T>> := seq(|ps|, _ => None);
    var targets: map<string, T> := map[];
    var remaining := |ps|;
    ghost var rank: map<string, nat> := map[];
    ghost var now := 0;
    UnresolvedAll(resolved);
    StartConsistent(ps, resolve);
    while remaining > 0
      invariant Consistent(ps, resolve, resolved, targets, rank, now)
      invariant remaining == Unresolved(resolved)
    {
      var progressed := false;
      ghost var before := remaining;
      for i := 0 to |ps|
        invariant Consistent(ps, resolve, resolved, targets, rank, now)
        invariant remaining == Unresolved(resolved)
        invariant if progressed then remaining < before else remaining == before
        invariant !progressed ==> forall k :: 0 <= k < i && resolved[k].None? ==> Waits(ps[k], targets)
      {
        if resolved[i].Some? { continue; }
        if !DepsReady(ps[i], targets) { continue; }
        var spec := resolve(ps[i], DepTargets(ps[i], targets));
        if spec.None? { return Err(Unparseable(ps[i].name)); }
        ghost var targets0 := targets;
        if !ps[i].isFixed { targets := targets[ps[i].name := spec.value]; }
        Fill(ps, resolve, resolved, targets0, rank, now, i, targets);
        UnresolvedSet(resolved, i, spec.value);
        resolved := resolved[i := spec];
        rank := rank[ps[i].name := now];
        now := now + 1;
        remaining := remaining - 1;
        progressed := true;
      }
      if !progressed {
        var stuck := StuckNames(ps, resolved);
        NoProgressIsKnot(ps, resolve, resolved, targets, rank, now);
        KnotHasCycle(ps, stuck);
        forall i | 0 <= i < |ps| ensures ps[i].name in stuck <==> ReachesCycle(ps, ps[i].name) {
          StuckExact(ps, resolve, resolved, targets, rank, now, i);
        }
        return Err(ReferenceCycle(stuck));
      }
    }
    UnresolvedZero(resolved);
    SlotsFall(ps, resolve, resolved, targets, rank, now);
    RankedAcyclic(ps, rank);
    var out := seq(|ps|, i requires 0 <= i < |ps| => (ps[i].name, resolved[i].value));
    SolutionFromSlots(ps, resolve, resolved, targets, rank, out);
    return Ok(out);
  }

  lemma {:induction false} StartConsistent<T(!new)>(ps: seq<Pending>, resolve: (Pending, seq<T>) -> Option<T>)
    ensures Consistent(ps, resolve, seq(|ps|, _ => None), map[], map[], 0)
  {
  }
}
