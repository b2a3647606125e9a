/** Loading rulesets, all of them or only the changed ones (`src/ruleset.rs`). Paths are in
    the normalised form the file watcher uses. */
module Ruleset {
  import opened Prelude

  datatype Behavior = DomainRules | CidrRules

  datatype Spec = Spec(tag: string, behavior: Behavior, path: string)

  datatype TagEntry = TagEntry(behavior: Behavior, rules: seq<string>)

  type Db = map<string, TagEntry>

  type Files = map<string, seq<byte>>

  /** The configured rulesets, the tags the routing rules need, and how a file is parsed. */
  datatype Setup = Setup(
    specs: seq<Spec>, domainTags: set<string>, cidrTags: set<string>,
    parse: (Behavior, seq<byte>) -> Option<seq<string>>)

  predicate Needed(x: Setup, tag: string) {
    tag in x.domainTags || tag in x.cidrTags
  }

  /** A spec's entry as its file stands, or None when it cannot be read. */
  function Fresh(x: Setup, files: Files, s: Spec): Option<TagEntry> {
    if s.path !in files then None
    else
      match x.parse(s.behavior, files[s.path])
      case None => None
      case Some(rules) => Some(TagEntry(s.behavior, rules))
  }

  /** The database loaded before, and the files changed since. */
  datatype Reuse = Reuse(db: Db, changed: set<string>)

  predicate Reusable(reuse: Option<Reuse>, s: Spec) {
    reuse.Some? && s.path !in reuse.value.changed && s.tag in reuse.value.db
  }

  function LoadSpec(x: Setup, files: Files, reuse: Option<Reuse>, s: Spec, db: Db): Option<Db> {
    if !Needed(x, s.tag) then Some(db)
    else if Reusable(reuse, s) then Some(db[s.tag := reuse.value.db[s.tag]])
    else
      match Fresh(x, files, s)
      case None => None
      case Some(e) => Some(db[s.tag := e])
  }

  /** The first `n` specs loaded. */
  function LoadSpecs(x: Setup, files: Files, reuse: Option<Reuse>, n: nat): Option<Db>
    requires n <= |x.specs|
  {
    if n == 0 then Some(map[])
    else
      match LoadSpecs(x, files, reuse, n - 1)
      case None => None
      case Some(db) => LoadSpec(x, files, reuse, x.specs[n - 1], db)
  }

  /** Every needed tag is there and of the kind it is needed as. */
  predicate TagsOk(x: Setup, db: Db) {
    && (forall t :: t in x.domainTags ==> t in db && db[t].behavior == DomainRules)
    && (forall t :: t in x.cidrTags ==> t in db && db[t].behavior == CidrRules)
  }

  datatype LoadError = Unreadable | BadTag

  function Load(x: Setup, files: Files, reuse: Option<Reuse>): Result<Db, LoadError> {
    match LoadSpecs(x, files, reuse, |x.specs|)
    case None => Err(Unreadable)
    case Some(db) => if TagsOk(x, db) then Ok(db) else Err(BadTag)
  }

  method LoadRulesets(x: Setup, files: Files, reuse: Option<Reuse>) returns (r: Result<Db, LoadError>)
    ensures r == Load(x, files, reuse)
  {
    var db: Db := map[];
    for i := 0 to |x.specs|
      invariant LoadSpecs(x, files, reuse, i) == Some(db)
    {
      var s := x.specs[i];
      if !Needed(x, s.tag) { continue; }
      if reuse.Some? && s.path !in reuse.value.changed && s.tag in reuse.value.db {
        db := db[s.tag := reuse.value.db[s.tag]];
        continue;
      }
      var e := Fresh(x, files, s);
      if e.None? {
        FailsFrom(x, files, reuse, i + 1, |x.specs|);
        return Err(Unreadable);
      }
      db := db[s.tag := e.value];
    }
    var domainOk := TagsHave(x.domainTags, db, DomainRules);
    if !domainOk { return Err(BadTag); }
    var cidrOk := TagsHave(x.cidrTags, db, CidrRules);
    if !cidrOk { return Err(BadTag); }
    return Ok(db);
  }

  method TagsHave(tags: set<string>, db: Db, b: Behavior) returns (ok: bool)
    ensures ok <==> forall t :: t in tags ==> t in db && db[t].behavior == b
  {
    var rest := tags;
    while rest != {}
      invariant rest <= tags
      invariant forall t :: t in tags - rest ==> t in db && db[t].behavior == b
      decreases |rest|
    {
      var t :| t in rest;
      if t !in db || db[t].behavior != b { return false; }
      rest := rest - {t};
    }
    return true;
  }

  lemma {:induction false} FailsFrom(x: Setup, files: Files, reuse: Option<Reuse>, m: nat, n: nat)
    requires m <= n <= |x.specs| && LoadSpecs(x, files, reuse, m).None?
    ensures LoadSpecs(x, files, reuse, n).None?
    decreases n - m
  {
    if m < n { FailsFrom(x, files, reuse, m + 1, n); }
  }

  /** A needed spec that has to be read and cannot be. */
  ghost predicate Blocks(x: Setup, files: Files, reuse: Option<Reuse>, s: Spec) {
    Needed(x, s.tag) && !Reusable(reuse, s) && Fresh(x, files, s).None?
  }

  ghost predicate CannotRead(x: Setup, files: Files, reuse: Option<Reuse>, n: nat)
    requires n <= |x.specs|
  {
    exists i :: 0 <= i < n && Blocks(x, files, reuse, x.specs[i])
  }

  /** Loading is cut short exactly by a file that has to be read and cannot be. */
  lemma {:induction false} UnreadableIff(x: Setup, files: Files, reuse: Option<Reuse>, n: nat)
    requires n <= |x.specs|
    ensures LoadSpecs(x, files, reuse, n).None? <==> CannotRead(x, files, reuse, n)
    decreases n
  {
    hide Fresh, Needed, Reusable;
    if n > 0 {
      UnreadableIff(x, files, reuse, n - 1);
      assert LoadSpecs(x, files, reuse, n - 1).Some? ==>
             (LoadSpecs(x, files, reuse, n).None? <==> Blocks(x, files, reuse, x.specs[n - 1]));
    }
  }

  // The last spec of a tag decides.

  function LastSpec(x: Setup, n: nat, tag: string): Option<Spec>
    requires n <= |x.specs|
  {
    if n == 0 then None
    else if x.specs[n - 1].tag == tag then Some(x.specs[n - 1])
    else LastSpec(x, n - 1, tag)
  }

  /** A full load holds exactly the needed tags that have a spec, each as its last spec
      reads. */
  lemma {:induction false} FullLoad(x: Setup, files: Files, n: nat, tag: string)
    requires n <= |x.specs| && LoadSpecs(x, files, None, n).Some?
    ensures var db := LoadSpecs(x, files, None, n).value;
            && (tag in db <==> Needed(x, tag) && LastSpec(x, n, tag).Some?)
            && (tag in db ==> Fresh(x, files, LastSpec(x, n, tag).value) == Some(db[tag]))
    decreases n
  {
    if n > 0 { FullLoad(x, files, n - 1, tag); }
  }

  lemma {:induction false} FullLoadReads(x: Setup, files: Files, n: nat, i: nat)
    requires i < n <= |x.specs| && LoadSpecs(x, files, None, n).Some? && Needed(x, x.specs[i].tag)
    ensures Fresh(x, files, x.specs[i]).Some?
    decreases n
  {
    if i < n - 1 { FullLoadReads(x, files, n - 1, i); }
  }

  /** What is reused is what a fresh parse would give. */
  ghost predicate UpToDate(x: Setup, files: Files, reuse: Reuse) {
    forall i :: 0 <= i < |x.specs| ==> SpecUpToDate(x, files, reuse, x.specs[i])
  }

  ghost predicate SpecUpToDate(x: Setup, files: Files, reuse: Reuse, s: Spec) {
    Needed(x, s.tag) && Reusable(Some(reuse), s) ==>
      && Fresh(x, files, s).Some?
      && LastSpec(x, |x.specs|, s.tag).Some?
      && (LastSpec(x, |x.specs|, s.tag).value == s ==> Fresh(x, files, s) == Some(reuse.db[s.tag]))
  }

  /** The two databases agree on every tag whose last spec is among the first `n`. */
  ghost predicate SameSettled(x: Setup, a: Db, b: Db, n: nat)
    requires n <= |x.specs|
  {
    forall t :: SettledAt(x, a, b, n, t)
  }

  ghost predicate SettledAt(x: Setup, a: Db, b: Db, n: nat, t: string)
    requires n <= |x.specs|
  {
    && (t in a <==> t in b) && (t in a ==> Needed(x, t))
    && (t in a && LastSpec(x, n, t) == LastSpec(x, |x.specs|, t) ==> a[t] == b[t])
  }

  lemma {:induction false} LastSpecStep(x: Setup, n: nat, tag: string)
    requires 0 < n <= |x.specs|
    ensures LastSpec(x, n, tag) == if x.specs[n - 1].tag == tag then Some(x.specs[n - 1]) else LastSpec(x, n - 1, tag)
  {
  }

  lemma {:induction false} SpecsAgree(x: Setup, files: Files, reuse: Reuse, n: nat)
    requires n <= |x.specs| && UpToDate(x, files, reuse)
    ensures LoadSpecs(x, files, Some(reuse), n).Some? <==> LoadSpecs(x, files, None, n).Some?
    ensures LoadSpecs(x, files, None, n).Some? ==>
              SameSettled(x, LoadSpecs(x, files, Some(reuse), n).value, LoadSpecs(x, files, None, n).value, n)
    decreases n
  {
    hide Fresh, LastSpec, Needed;
    if n > 0 {
      SpecsAgree(x, files, reuse, n - 1);
      var s := x.specs[n - 1];
      assert SpecUpToDate(x, files, reuse, s);
      if LoadSpecs(x, files, None, n).Some? {
        var a, b := LoadSpecs(x, files, Some(reuse), n).value, LoadSpecs(x, files, None, n).value;
        var a0, b0 := LoadSpecs(x, files, Some(reuse), n - 1).value, LoadSpecs(x, files, None, n - 1).value;
        forall t ensures SettledAt(x, a, b, n, t) {
          assert SettledAt(x, a0, b0, n - 1, t);
          LastSpecStep(x, n, t);
        }
      }
    }
  }

  /** Reading only the changed files gives the same database, or the same error, as
      reading all of them. */
  lemma {:induction false} IncrementalIsFull(x: Setup, files: Files, reuse: Reuse)
    requires UpToDate(x, files, reuse)
    ensures Load(x, files, Some(reuse)) == Load(x, files, None)
  {
    hide LoadSpecs, UpToDate, LastSpec;
    var n := |x.specs|;
    SpecsAgree(x, files, reuse, n);
    if LoadSpecs(x, files, None, n).Some? {
      var a, b := LoadSpecs(x, files, Some(reuse), n).value, LoadSpecs(x, files, None, n).value;
      forall t ensures (t in a <==> t in b) && (t in a ==> a[t] == b[t]) { assert SettledAt(x, a, b, n, t); }
      assert a == b;
    }
  }

  /** The spec that decides about a tag: no later one has it. */
  ghost predicate Decides(x: Setup, i: nat, tag: string) {
    i < |x.specs| && x.specs[i].tag == tag && forall j :: i < j < |x.specs| ==> x.specs[j].tag != tag
  }

  lemma {:induction false} LastDecides(x: Setup, n: nat, i: nat, tag: string)
    requires i < n <= |x.specs| && x.specs[i].tag == tag && forall j :: i < j < n ==> x.specs[j].tag != tag
    ensures LastSpec(x, n, tag) == Some(x.specs[i])
    decreases n
  {
    if i < n - 1 { LastDecides(x, n - 1, i, tag); }
  }

  lemma {:induction false} LastExists(x: Setup, n: nat, tag: string) returns (i: nat)
    requires n <= |x.specs| && LastSpec(x, n, tag).Some?
    ensures i < n && x.specs[i].tag == tag && forall j :: i < j < n ==> x.specs[j].tag != tag
    decreases n
  {
    if x.specs[n - 1].tag == tag { i := n - 1; } else { i := LastExists(x, n - 1, tag); }
  }

  /** The entry of a deciding spec, as its file is parsed. */
  ghost predicate ReadAs(x: Setup, files: Files, s: Spec, e: TagEntry) {
    s.path in files && x.parse(s.behavior, files[s.path]) == Some(e.rules) && e.behavior == s.behavior
  }

  ghost predicate Parses(x: Setup, files: Files, s: Spec) {
    s.path in files && x.parse(s.behavior, files[s.path]).Some?
  }

  /** Every tag of one kind has a deciding spec of that kind. */
  ghost predicate TagsServed(x: Setup, tags: set<string>, b: Behavior) {
    forall t :: t in tags ==> exists i: nat :: Decides(x, i, t) && x.specs[i].behavior == b
  }

  lemma {:induction false} ServedIff(x: Setup, files: Files, db: Db, tags: set<string>, b: Behavior)
    requires LoadSpecs(x, files, None, |x.specs|) == Some(db) && tags <= x.domainTags + x.cidrTags
    ensures (forall t :: t in tags ==> t in db && db[t].behavior == b) <==> TagsServed(x, tags, b)
  {
    hide LoadSpecs, LastSpec;
    forall t | t in tags
      ensures (t in db && db[t].behavior == b) <==> exists i: nat :: Decides(x, i, t) && x.specs[i].behavior == b
    {
      FullLoad(x, files, |x.specs|, t);
      if t in db { var i := LastExists(x, |x.specs|, t); assert Decides(x, i, t); LastDecides(x, |x.specs|, i, t); }
      if i: nat :| Decides(x, i, t) && x.specs[i].behavior == b { LastDecides(x, |x.specs|, i, t); }
    }
  }

  /** A full load in terms of specs and files: it fails to read exactly when the file of a
      spec with a wanted tag is missing or does not parse, and else exactly when a wanted tag
      has no spec or its last one is of the other kind. */
  lemma {:induction false} FullLoadIff(x: Setup, files: Files)
    ensures Load(x, files, None) == Err(Unreadable) <==>
            exists i :: 0 <= i < |x.specs| && x.specs[i].tag in x.domainTags + x.cidrTags
              && !Parses(x, files, x.specs[i])
    ensures Load(x, files, None).Ok? <==>
            && Load(x, files, None) != Err(Unreadable)
            && TagsServed(x, x.domainTags, DomainRules) && TagsServed(x, x.cidrTags, CidrRules)
  {
    hide LoadSpecs, TagsServed;
    UnreadableIff(x, files, None, |x.specs|);
    forall i | 0 <= i < |x.specs|
      ensures Blocks(x, files, None, x.specs[i]) <==>
              x.specs[i].tag in x.domainTags + x.cidrTags && !Parses(x, files, x.specs[i]) {}
    var all := LoadSpecs(x, files, None, |x.specs|);
    if all.Some? {
      ServedIff(x, files, all.value, x.domainTags, DomainRules);
      ServedIff(x, files, all.value, x.cidrTags, CidrRules);
    }
  }

  /** And what a successful one holds. */
  lemma {:induction false} FullLoadHolds(x: Setup, files: Files, tag: string)
    requires Load(x, files, None).Ok?
    ensures var db := Load(x, files, None).value;
            && (tag in db <==> tag in x.domainTags + x.cidrTags && exists i: nat :: Decides(x, i, tag))
            && (forall i: nat :: tag in db && Decides(x, i, tag) ==> ReadAs(x, files, x.specs[i], db[tag]))
  {
    hide LoadSpecs, LastSpec;
    FullLoad(x, files, |x.specs|, tag);
    forall i: nat | Decides(x, i, tag) ensures LastSpec(x, |x.specs|, tag) == Some(x.specs[i]) {
      LastDecides(x, |x.specs|, i, tag);
    }
    if LastSpec(x, |x.specs|, tag).Some? { var i := LastExists(x, |x.specs|, tag); assert Decides(x, i, tag); }
  }
}
