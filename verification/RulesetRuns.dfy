/** One session of the ruleset file watcher (`src/server.rs`): files are written and removed
    at any moment, the kernel queues or drops the events of writes, the watcher collects them
    and reloads, reading one file at a time. */
module RulesetRuns {
  import opened Prelude
  import opened Ruleset

  /** What the kernel queues: a changed file, or the notice that events were dropped. */
  datatype Notice = Changed(path: string) | Overflow

  /** A reload in progress: the next spec to load and what is loaded so far. */
  datatype Loading = Loading(next: nat, db: Db)

  datatype State = State(
    files: Files, queue: seq<Notice>, changed: set<string>, db: Option<Db>, loading: Option<Loading>)

  datatype Event =
    | Write(path: string, content: seq<byte>, dropped: bool)
    | Remove(path: string)
    | Collect(count: nat)
    | Begin
    | ReadSpec
    | Finish
    | Skip

  function Targets(x: Setup): set<string> {
    set i | 0 <= i < |x.specs| :: x.specs[i].path
  }

  function Fold(x: Setup, changed: set<string>, queue: seq<Notice>): set<string> {
    if queue == [] then changed
    else
      var sofar := Fold(x, changed, queue[..|queue| - 1]);
      match queue[|queue| - 1]
      case Overflow => sofar + Targets(x)
      case Changed(path) => if path in Targets(x) then sofar + {path} else sofar
  }

  method CollectChangedPaths(x: Setup, queue: seq<Notice>, changed: set<string>)
    returns (r: set<string>, relevant: bool)
    ensures r == Fold(x, changed, queue)
    ensures relevant <==> exists i :: 0 <= i < |queue| && (queue[i].Overflow? || queue[i].path in Targets(x))
  {
    r, relevant := changed, false;
    for i := 0 to |queue|
      invariant r == Fold(x, changed, queue[..i])
      invariant relevant <==> exists j :: 0 <= j < i && (queue[j].Overflow? || queue[j].path in Targets(x))
    {
      assert queue[..i + 1][..i] == queue[..i];
      if queue[i].Overflow? {
        r, relevant := r + Targets(x), true;
      } else if queue[i].path in Targets(x) {
        r, relevant := r + {queue[i].path}, true;
      }
    }
    assert queue[..|queue|] == queue;
  }

  function ReuseOf(s: State): Option<Reuse> {
    if s.db.None? then None else Some(Reuse(s.db.value, s.changed))
  }

  predicate Enabled(x: Setup, s: State, e: Event) {
    match e
    case Write(_, _, _) => true
    case Remove(_) => true
    case Collect(count) => s.loading.None? && count <= |s.queue|
    case Begin => s.loading.None?
    case ReadSpec => s.loading.Some? && s.loading.value.next < |x.specs|
    case Finish => s.loading.Some? && s.loading.value.next == |x.specs|
    case Skip => s.loading.None? && x.domainTags == {} && x.cidrTags == {}
  }

  function Next(x: Setup, s: State, e: Event): State
    requires Enabled(x, s, e)
  {
    match e
    case Write(path, content, dropped) =>
      // Events of one queue are dropped only when an overflow notice is, or is put, in it.
      s.(files := s.files[path := content], queue := s.queue + [if dropped then Overflow else Changed(path)])
    case Remove(path) =>
      // The watch covers writes and files moved in, not files that go away.
      s.(files := s.files - {path})
    case Collect(count) => s.(changed := Fold(x, s.changed, s.queue[..count]), queue := s.queue[count..])
    case Begin => s.(loading := Some(Loading(0, map[])))
    case ReadSpec =>
      var l := s.loading.value;
      (match LoadSpec(x, s.files, ReuseOf(s), x.specs[l.next], l.db)
       case None => s.(loading := None)
       case Some(db) => s.(loading := Some(Loading(l.next + 1, db))))
    case Finish =>
      if TagsOk(x, s.loading.value.db) then
        s.(db := Some(s.loading.value.db), changed := {}, loading := None)
      else s.(loading := None)
    case Skip => s.(changed := {})
  }

  /** A change of this file is still in the queue. */
  ghost predicate Queued(s: State, path: string) {
    exists i :: 0 <= i < |s.queue| && (s.queue[i] == Overflow || s.queue[i] == Changed(path))
  }

  /** `entry` is what the file of `p` holds now, unless it is gone. */
  ghost predicate Current(x: Setup, s: State, p: Spec, entry: TagEntry) {
    p.path in s.files ==> Fresh(x, s.files, p) == Some(entry)
  }

  /** The file of `p` can be read, unless it is gone. */
  ghost predicate Readable(x: Setup, s: State, p: Spec) {
    p.path in s.files ==> Fresh(x, s.files, p).Some?
  }

  /** What is in use under `tag`, loaded from its last spec `p`. */
  ghost predicate InUseOk(x: Setup, s: State, db: Db, tag: string) {
    tag in db ==>
      && Needed(x, tag) && LastSpec(x, |x.specs|, tag).Some?
      && var p := LastSpec(x, |x.specs|, tag).value;
         Queued(s, p.path) || p.path in s.changed || Current(x, s, p, db[tag])
  }

  /** Every needed spec of a loaded database could be read, unless its file changed since. */
  ghost predicate ReadableOk(x: Setup, s: State, i: nat)
    requires i < |x.specs|
  {
    var p := x.specs[i];
    Needed(x, p.tag) ==> Queued(s, p.path) || p.path in s.changed || Readable(x, s, p)
  }

  /** What the running reload has loaded under `tag`; files it has read may have changed
      again since, but then a notice is in the queue. */
  ghost predicate LoadedOk(x: Setup, s: State, l: Loading, tag: string)
    requires l.next <= |x.specs|
  {
    tag in l.db ==>
      && Needed(x, tag) && LastSpec(x, l.next, tag).Some?
      && var p := LastSpec(x, l.next, tag).value;
         LastSpec(x, |x.specs|, tag) == Some(p) ==> Queued(s, p.path) || Current(x, s, p, l.db[tag])
  }

  ghost predicate ReadOk(x: Setup, s: State, l: Loading, i: nat)
    requires i < |x.specs|
  {
    var p := x.specs[i];
    i < l.next && Needed(x, p.tag) ==> Queued(s, p.path) || Readable(x, s, p)
  }

  ghost predicate Inv(x: Setup, s: State) {
    && (s.db.Some? ==>
          && (forall tag: string :: InUseOk(x, s, s.db.value, tag))
          && (forall i :: 0 <= i < |x.specs| ==> ReadableOk(x, s, i)))
    && (s.loading.Some? ==>
          && s.loading.value.next <= |x.specs|
          && (forall tag: string :: LoadedOk(x, s, s.loading.value, tag))
          && (forall i :: 0 <= i < |x.specs| ==> ReadOk(x, s, s.loading.value, i)))
  }

  // Start of a session.

  ghost predicate Init(x: Setup, s: State) {
    && s.queue == [] && s.changed == {} && s.loading.None?
    && s.db == (match Load(x, s.files, None) case Ok(db) => Some(db) case Err(_) => None)
  }

  lemma {:induction false} InitInv(x: Setup, s: State)
    requires Init(x, s)
    ensures Inv(x, s)
  {
    hide Fresh, LastSpec, LoadSpecs, TagsOk;
    if s.db.Some? {
      var db := s.db.value;
      forall tag: string ensures InUseOk(x, s, db, tag) { FullLoad(x, s.files, |x.specs|, tag); }
      forall i | 0 <= i < |x.specs| ensures ReadableOk(x, s, i) {
        if Needed(x, x.specs[i].tag) { FullLoadReads(x, s.files, |x.specs|, i); }
      }
    }
  }

  // Writes and removals.

  lemma {:induction false} ChangeKeeps(x: Setup, s: State, e: Event, p: Spec)
    requires e.Write? || e.Remove?
    ensures var t := Next(x, s, e);
            && (Queued(s, p.path) ==> Queued(t, p.path))
            && (Queued(t, p.path) || (p.path in t.files ==> p.path in s.files && t.files[p.path] == s.files[p.path]))
  {
    var t := Next(x, s, e);
    if e.Remove? {
      assert t.queue == s.queue;
      return;
    }
    if Queued(s, p.path) {
      var i :| 0 <= i < |s.queue| && (s.queue[i] == Overflow || s.queue[i] == Changed(p.path));
      assert t.queue[i] == s.queue[i];
    }
    if e.dropped || e.path == p.path { assert t.queue[|s.queue|] == Overflow || t.queue[|s.queue|] == Changed(p.path); }
  }

  lemma {:induction false} ChangeInv(x: Setup, s: State, e: Event)
    requires Inv(x, s) && (e.Write? || e.Remove?)
    ensures Inv(x, Next(x, s, e))
  {
    hide LastSpec, Queued, Needed;
    var t := Next(x, s, e);
    if s.db.Some? {
      forall tag: string ensures InUseOk(x, t, t.db.value, tag) {
        assert InUseOk(x, s, s.db.value, tag);
        if LastSpec(x, |x.specs|, tag).Some? { ChangeKeeps(x, s, e, LastSpec(x, |x.specs|, tag).value); }
      }
      forall i | 0 <= i < |x.specs| ensures ReadableOk(x, t, i) {
        assert ReadableOk(x, s, i);
        ChangeKeeps(x, s, e, x.specs[i]);
      }
    }
    if s.loading.Some? {
      var l := s.loading.value;
      forall tag: string ensures LoadedOk(x, t, l, tag) {
        assert LoadedOk(x, s, l, tag);
        if LastSpec(x, l.next, tag).Some? { ChangeKeeps(x, s, e, LastSpec(x, l.next, tag).value); }
      }
      forall i | 0 <= i < |x.specs| ensures ReadOk(x, t, l, i) {
        assert ReadOk(x, s, l, i);
        ChangeKeeps(x, s, e, x.specs[i]);
      }
    }
  }

  // Collecting.

  lemma {:induction false} FoldHas(x: Setup, changed: set<string>, queue: seq<Notice>, i: nat, path: string)
    requires i < |queue| && path in Targets(x) && (queue[i] == Overflow || queue[i] == Changed(path))
    ensures path in Fold(x, changed, queue)
    decreases |queue|
  {
    hide Targets;
    if i < |queue| - 1 { FoldHas(x, changed, queue[..|queue| - 1], i, path); }
  }

  lemma {:induction false} FoldKeeps(x: Setup, changed: set<string>, queue: seq<Notice>)
    ensures changed <= Fold(x, changed, queue)
    decreases |queue|
  {
    if queue != [] { FoldKeeps(x, changed, queue[..|queue| - 1]); }
  }

  lemma {:induction false} CollectKeeps(x: Setup, s: State, e: Event, path: string)
    requires e.Collect? && Enabled(x, s, e) && path in Targets(x) && (Queued(s, path) || path in s.changed)
    ensures var t := Next(x, s, e); Queued(t, path) || path in t.changed
  {
    hide Targets, Fold;
    var t := Next(x, s, e);
    if path in s.changed {
      FoldKeeps(x, s.changed, s.queue[..e.count]);
    } else {
      var i :| 0 <= i < |s.queue| && (s.queue[i] == Overflow || s.queue[i] == Changed(path));
      if i < e.count {
        FoldHas(x, s.changed, s.queue[..e.count], i, path);
      } else {
        assert t.queue[i - e.count] == s.queue[i];
      }
    }
  }

  lemma {:induction false} SpecTargets(x: Setup, n: nat, tag: string)
    requires n <= |x.specs| && LastSpec(x, n, tag).Some?
    ensures LastSpec(x, n, tag).value.path in Targets(x) && LastSpec(x, n, tag).value.tag == tag
    decreases n
  {
    if x.specs[n - 1].tag != tag { SpecTargets(x, n - 1, tag); }
  }

  lemma {:induction false} CollectInv(x: Setup, s: State, e: Event)
    requires Inv(x, s) && e.Collect? && Enabled(x, s, e)
    ensures Inv(x, Next(x, s, e))
  {
    hide Fresh, LastSpec, Queued, Needed, Targets, Fold;
    var t := Next(x, s, e);
    if s.db.Some? {
      forall tag: string ensures InUseOk(x, t, t.db.value, tag) {
        assert InUseOk(x, s, s.db.value, tag);
        if tag in s.db.value {
          SpecTargets(x, |x.specs|, tag);
          var p := LastSpec(x, |x.specs|, tag).value;
          if Queued(s, p.path) || p.path in s.changed { CollectKeeps(x, s, e, p.path); }
        }
      }
      forall i | 0 <= i < |x.specs| ensures ReadableOk(x, t, i) {
        assert ReadableOk(x, s, i);
        SpecPath(x, i);
        var path := x.specs[i].path;
        if Queued(s, path) || path in s.changed { CollectKeeps(x, s, e, path); }
      }
    }
  }

  lemma {:induction false} SpecPath(x: Setup, i: nat)
    requires i < |x.specs|
    ensures x.specs[i].path in Targets(x)
  {
  }

  // Reloading.

  lemma {:induction false} BeginInv(x: Setup, s: State)
    requires Inv(x, s) && Enabled(x, s, Begin)
    ensures Inv(x, Next(x, s, Begin))
  {
    hide Fresh, LastSpec, Queued, Needed;
    var t := Next(x, s, Begin);
    if s.db.Some? {
      forall tag: string ensures InUseOk(x, t, t.db.value, tag) {
        assert InUseOk(x, s, s.db.value, tag);
        SameQueue(s, t);
      }
      forall i | 0 <= i < |x.specs| ensures ReadableOk(x, t, i) { assert ReadableOk(x, s, i); SameQueue(s, t); }
    }
  }

  lemma {:induction false} SameQueue(s: State, t: State)
    requires s.queue == t.queue
    ensures forall path :: Queued(s, path) == Queued(t, path)
  {
  }

  lemma {:induction false} ReadInv(x: Setup, s: State)
    requires Inv(x, s) && Enabled(x, s, ReadSpec)
    ensures Inv(x, Next(x, s, ReadSpec))
  {
    hide Fresh, LastSpec, Queued, Needed;
    var t := Next(x, s, ReadSpec);
    SameQueue(s, t);
    if s.db.Some? {
      forall tag: string ensures InUseOk(x, t, t.db.value, tag) { assert InUseOk(x, s, s.db.value, tag); }
      forall i | 0 <= i < |x.specs| ensures ReadableOk(x, t, i) { assert ReadableOk(x, s, i); }
    }
    if t.loading.Some? {
      var l, m := s.loading.value, t.loading.value;
      var p := x.specs[l.next];
      if s.db.Some? { assert InUseOk(x, s, s.db.value, p.tag) && ReadableOk(x, s, l.next); }
      forall tag: string ensures LoadedOk(x, t, m, tag) {
        assert LoadedOk(x, s, l, tag);
        LastSpecStep(x, m.next, tag);
      }
      forall i | 0 <= i < |x.specs| ensures ReadOk(x, t, m, i) { assert ReadOk(x, s, l, i); }
    }
  }

  lemma {:induction false} FinishInv(x: Setup, s: State)
    requires Inv(x, s) && Enabled(x, s, Finish)
    ensures Inv(x, Next(x, s, Finish))
  {
    hide Fresh, LastSpec, Queued, Needed, TagsOk;
    var t := Next(x, s, Finish);
    SameQueue(s, t);
    var l := s.loading.value;
    if TagsOk(x, l.db) {
      forall tag: string ensures InUseOk(x, t, t.db.value, tag) { assert LoadedOk(x, s, l, tag); }
      forall i | 0 <= i < |x.specs| ensures ReadableOk(x, t, i) { assert ReadOk(x, s, l, i); }
    } else if s.db.Some? {
      forall tag: string ensures InUseOk(x, t, t.db.value, tag) { assert InUseOk(x, s, s.db.value, tag); }
      forall i | 0 <= i < |x.specs| ensures ReadableOk(x, t, i) { assert ReadableOk(x, s, i); }
    }
  }

  lemma {:induction false} SkipInv(x: Setup, s: State)
    requires Inv(x, s) && Enabled(x, s, Skip)
    ensures Inv(x, Next(x, s, Skip))
  {
    hide Fresh, LastSpec, Queued;
    var t := Next(x, s, Skip);
    if s.db.Some? {
      forall tag: string ensures InUseOk(x, t, t.db.value, tag) { assert InUseOk(x, s, s.db.value, tag); }
    }
  }

  lemma {:induction false} StepInv(x: Setup, s: State, e: Event)
    requires Inv(x, s) && Enabled(x, s, e)
    ensures Inv(x, Next(x, s, e))
  {
    hide Inv, Next;
    match e
    case Write(_, _, _) => ChangeInv(x, s, e);
    case Remove(_) => ChangeInv(x, s, e);
    case Collect(_) => CollectInv(x, s, e);
    case Begin => BeginInv(x, s);
    case ReadSpec => ReadInv(x, s);
    case Finish => FinishInv(x, s);
    case Skip => SkipInv(x, s);
  }

  ghost predicate IsRun(x: Setup, events: seq<Event>, states: seq<State>) {
    && |states| == |events| + 1 && Init(x, states[0])
    && forall i :: 0 <= i < |events| ==>
         Enabled(x, states[i], events[i]) && states[i + 1] == Next(x, states[i], events[i])
  }

  lemma {:induction false} RunInv(x: Setup, events: seq<Event>, states: seq<State>, i: nat)
    requires IsRun(x, events, states) && i < |states|
    ensures Inv(x, states[i])
  {
    hide Inv, Next, Init, Enabled;
    if i == 0 { InitInv(x, states[0]); } else {
      RunInv(x, events, states, i - 1);
      StepInv(x, states[i - 1], events[i - 1]);
    }
  }

  // What follows for every run.

  /** A ruleset in use whose file has no queued and no collected change is what a fresh
      parse of that file gives if and only if the file is still there. */
  lemma {:induction false} InUseIsFresh(x: Setup, events: seq<Event>, states: seq<State>, i: nat, tag: string)
    requires IsRun(x, events, states) && i < |states|
    requires states[i].db.Some? && tag in states[i].db.value
    ensures LastSpec(x, |x.specs|, tag).Some?
    ensures var s, p := states[i], LastSpec(x, |x.specs|, tag).value;
            || Queued(s, p.path) || p.path in s.changed
            || (Fresh(x, s.files, p) == Some(s.db.value[tag]) <==> p.path in s.files)
  {
    hide LastSpec, Queued, Next, Init, Enabled;
    RunInv(x, events, states, i);
    assert InUseOk(x, states[i], states[i].db.value, tag);
  }

  /** Every needed spec that a reload of `s` would reuse still has its file. */
  ghost predicate ReusedPresent(x: Setup, s: State) {
    forall j :: 0 <= j < |x.specs| && Needed(x, x.specs[j].tag) && Reusable(ReuseOf(s), x.specs[j]) ==>
      x.specs[j].path in s.files
  }

  /** With no notice left in the queue, an incremental reload now gives what reading every
      file again would, the same error included, if and only if every reused file is still
      there or some file that has to be read cannot be. */
  lemma {:induction false} ReloadIsFullIff(x: Setup, events: seq<Event>, states: seq<State>, i: nat)
    requires IsRun(x, events, states) && i < |states| && states[i].queue == []
    ensures var s := states[i];
            Load(x, s.files, ReuseOf(s)) == Load(x, s.files, None) <==>
            ReusedPresent(x, s) || CannotRead(x, s.files, ReuseOf(s), |x.specs|)
  {
    hide LastSpec, Next, Init, Enabled, Needed, LoadSpecs, TagsOk, CannotRead;
    RunInv(x, events, states, i);
    var s := states[i];
    UnreadableIff(x, s.files, ReuseOf(s), |x.specs|);
    if ReusedPresent(x, s) {
      PresentIsFull(x, s);
    } else {
      var j :| 0 <= j < |x.specs| && Needed(x, x.specs[j].tag) && Reusable(ReuseOf(s), x.specs[j]) &&
        x.specs[j].path !in s.files;
      FullFails(x, s.files, j);
    }
  }

  lemma {:induction false} PresentIsFull(x: Setup, s: State)
    requires Inv(x, s) && s.queue == [] && ReusedPresent(x, s)
    ensures Load(x, s.files, ReuseOf(s)) == Load(x, s.files, None)
  {
    hide LastSpec, Needed, Load;
    if s.db.Some? {
      var reuse := Reuse(s.db.value, s.changed);
      forall j | 0 <= j < |x.specs| ensures SpecUpToDate(x, s.files, reuse, x.specs[j]) {
        assert ReadableOk(x, s, j) && InUseOk(x, s, s.db.value, x.specs[j].tag);
      }
      IncrementalIsFull(x, s.files, reuse);
    }
  }

  lemma {:induction false} FullFails(x: Setup, files: Files, j: nat)
    requires j < |x.specs| && Needed(x, x.specs[j].tag) && x.specs[j].path !in files
    ensures LoadSpecs(x, files, None, |x.specs|).None?
  {
    hide LoadSpecs, Needed;
    UnreadableIff(x, files, None, |x.specs|);
    assert Blocks(x, files, None, x.specs[j]);
  }

  // A file that goes away.

  function AcceptAll(b: Behavior, content: seq<byte>): Option<seq<string>> {
    Some([])
  }

  /** Two needed rulesets, each in a file of its own. */
  function Two(a: string, b: string): Setup {
    Setup([Spec(a, DomainRules, a), Spec(b, DomainRules, b)], {a, b}, {}, AcceptAll)
  }

  const EMPTY := TagEntry(DomainRules, [])

  lemma {:induction false} LoadTwo(a: string, b: string, files: Files, reuse: Option<Reuse>)
    ensures var x := Two(a, b);
            Load(x, files, reuse) ==
            match LoadSpec(x, files, reuse, x.specs[0], map[])
            case None => Err(Unreadable)
            case Some(db) =>
              match LoadSpec(x, files, reuse, x.specs[1], db)
              case None => Err(Unreadable)
              case Some(both) => if TagsOk(x, both) then Ok(both) else Err(BadTag)
  {
    hide LoadSpec, TagsOk;
    var x := Two(a, b);
    assert LoadSpecs(x, files, reuse, 0) == Some(map[]);
    assert LoadSpecs(x, files, reuse, 1) == LoadSpec(x, files, reuse, x.specs[0], map[]);
  }

  /** The state a full load of both files starts. */
  function Loaded(a: string, b: string): State {
    State(map[a := [], b := []], [], {}, Some(map[a := EMPTY, b := EMPTY]), None)
  }

  lemma {:induction false} LoadedInit(a: string, b: string)
    requires a != b
    ensures Init(Two(a, b), Loaded(a, b))
  {
    hide Load, LoadSpecs;
    LoadTwo(a, b, map[a := [], b := []], None);
  }

  /** The state once the first file is removed and the change of the second is collected. */
  function Collected(a: string, b: string): State {
    Loaded(a, b).(files := map[b := [1]], changed := {b})
  }

  lemma {:induction false} CollectedLoads(a: string, b: string)
    requires a != b
    ensures var x, s := Two(a, b), Collected(a, b);
            && Load(x, s.files, ReuseOf(s)) == Ok(map[a := EMPTY, b := EMPTY])
            && Load(x, s.files, None) == Err(Unreadable)
  {
    hide Load, LoadSpecs;
    var s := Collected(a, b);
    LoadTwo(a, b, s.files, ReuseOf(s));
    LoadTwo(a, b, s.files, None);
  }

  lemma {:induction false} OneCollected(x: Setup, path: string)
    requires path in Targets(x)
    ensures Fold(x, {}, [Changed(path)]) == {path}
  {
    hide Targets;
    assert [Changed(path)][..0] == [];
    assert Fold(x, {}, []) == {};
  }

  lemma {:induction false} SecondWatched(a: string, b: string)
    ensures b in Targets(Two(a, b))
  {
    assert Two(a, b).specs[1].path == b;
  }

  lemma {:induction false} Collecting(a: string, b: string) returns (s1: State, s2: State)
    requires a != b
    ensures var x := Two(a, b);
            && s1 == Next(x, Loaded(a, b), Remove(a)) && s2 == Next(x, s1, Write(b, [1], false))
            && Enabled(x, s2, Collect(1)) && Next(x, s2, Collect(1)) == Collected(a, b)
  {
    hide LoadSpec, TagsOk, Fold, Targets, Two;
    var x, s := Two(a, b), Loaded(a, b);
    s1 := s.(files := s.files - {a});
    s2 := s1.(files := s1.files[b := [1]], queue := [Changed(b)]);
    assert s2.files == map[b := [1]];
    assert s2.queue[..1] == [Changed(b)] && s2.queue[1..] == [];
    SecondWatched(a, b);
    OneCollected(x, b);
  }

  lemma {:induction false} Reloading(a: string, b: string) returns (s4: State, s5: State, s6: State)
    requires a != b
    ensures var x, s := Two(a, b), Collected(a, b);
            && s4 == Next(x, s, Begin)
            && Enabled(x, s4, ReadSpec) && s5 == Next(x, s4, ReadSpec)
            && Enabled(x, s5, ReadSpec) && s6 == Next(x, s5, ReadSpec)
            && Enabled(x, s6, Finish) && Next(x, s6, Finish) == s.(changed := {})
  {
    hide Fold;
    var x, s := Two(a, b), Collected(a, b);
    s4 := s.(loading := Some(Loading(0, map[])));
    s5 := s.(loading := Some(Loading(1, map[a := EMPTY])));
    s6 := s.(loading := Some(Loading(2, map[a := EMPTY, b := EMPTY])));
    assert map[a := EMPTY][b := EMPTY] == map[a := EMPTY, b := EMPTY];
  }

  /** Remove one file and write the other: the reload succeeds on the removed ruleset, and
      reading every file again would fail. */
  lemma {:induction false} RemovedWitness(a: string, b: string) returns (events: seq<Event>, states: seq<State>)
    requires a != b
    ensures IsRun(Two(a, b), events, states) && |states| == 8
    ensures var x, before, after := Two(a, b), states[3], states[7];
            && before.queue == [] && Load(x, before.files, ReuseOf(before)).Ok?
            && Load(x, before.files, None) == Err(Unreadable)
            && after.queue == [] && after.changed == {} && after.db.Some? && a in after.db.value
            && Fresh(x, after.files, x.specs[0]) == None
  {
    hide Load, LoadSpec, TagsOk, Fold, Init, Next;
    var x, s0, s3 := Two(a, b), Loaded(a, b), Collected(a, b);
    LoadedInit(a, b);
    CollectedLoads(a, b);
    var s1, s2 := Collecting(a, b);
    var s4, s5, s6 := Reloading(a, b);
    events := [Remove(a), Write(b, [1], false), Collect(1), Begin, ReadSpec, ReadSpec, Finish];
    states := [s0, s1, s2, s3, s4, s5, s6, s3.(changed := {})];
  }
}
