/** The compiled routing index of `src/route_index.rs` and its agreement with a
    top-to-bottom scan of the rules. */
module RouteIndex {
  import opened Prelude
  import opened BitWords
  import opened Domain

  /** One entry of a rule's `matcher` list. */
  datatype Matcher = OnDomain(p: Pattern) | OnTags(included: seq<string>, excluded: seq<string>)

  /** A rule is its matcher list; an empty list matches everything. */
  type Rule = seq<Matcher>

  /** The loaded ruleset: does `tag` contain the name? */
  type Db = (string, string) -> bool

  const USIZE_MAX: nat := 0xFFFF_FFFF_FFFF_FFFF
  const TAG_IDS: nat := 0x1_0000

  // The declarative scan.

  predicate AnyTag(tags: seq<string>, db: Db, q: string) {
    exists i :: 0 <= i < |tags| && db(tags[i], q)
  }

  predicate GroupHolds(included: seq<string>, excluded: seq<string>, db: Db, q: string) {
    (included == [] || AnyTag(included, db, q)) && !AnyTag(excluded, db, q)
  }

  predicate MatcherHolds(m: Matcher, q: string, db: Option<Db>) {
    match m
    case OnDomain(p) => PatternMatches(p, q)
    case OnTags(included, excluded) => db.Some? && GroupHolds(included, excluded, db.value, q)
  }

  predicate RuleMatches(rule: Rule, q: string, db: Option<Db>) {
    rule == [] || exists k :: 0 <= k < |rule| && MatcherHolds(rule[k], q, db)
  }

  /** The first rule from `i` on that matches. */
  function Scan(rules: seq<Rule>, q: string, db: Option<Db>, i: nat): Option<nat>
    requires i <= |rules|
    decreases |rules| - i
  {
    if i == |rules| then None
    else if RuleMatches(rules[i], q, db) then Some(i)
    else Scan(rules, q, db, i + 1)
  }

  lemma {:induction false} ScanFinds(rules: seq<Rule>, q: string, db: Option<Db>, i: nat, j: nat)
    requires i <= j < |rules| && RuleMatches(rules[j], q, db)
    requires forall k :: i <= k < j ==> !RuleMatches(rules[k], q, db)
    ensures Scan(rules, q, db, i) == Some(j)
    decreases j - i
  {
    if i < j { ScanFinds(rules, q, db, i + 1, j); }
  }

  lemma {:induction false} ScanMisses(rules: seq<Rule>, q: string, db: Option<Db>, i: nat)
    requires i <= |rules| && forall k :: i <= k < |rules| ==> !RuleMatches(rules[k], q, db)
    ensures Scan(rules, q, db, i) == None
    decreases |rules| - i
  {
    if i < |rules| { ScanMisses(rules, q, db, i + 1); }
  }

  // The index.

  datatype TagGroup = TagGroup(included: seq<u16>, excluded: seq<u16>)
  datatype MatchEntry = MatchEntry(ruleIdx: nat, domains: DomainMatcher, tags: seq<TagGroup>)
  datatype Index = Index(
    entries: seq<MatchEntry>,
    catchAll: Option<nat>,
    needsRuleset: bool,
    constant: Option<Option<nat>>,
    tagNames: seq<string>)

  /** `id` is the position of `tag` among the interned names, cut to 16 bits. */
  ghost predicate Encodes(names: seq<string>, tag: string, id: u16) {
    exists i :: 0 <= i < |names| && names[i] == tag && id == i % TAG_IDS
  }

  ghost predicate EncodesAll(names: seq<string>, tags: seq<string>, ids: seq<u16>) {
    |ids| == |tags| && forall k :: 0 <= k < |tags| ==> Encodes(names, tags[k], ids[k])
  }

  ghost predicate CompiledGroup(names: seq<string>, g: TagGroup, m: Matcher) {
    m.OnTags? && EncodesAll(names, m.included, g.included) && EncodesAll(names, m.excluded, g.excluded)
  }

  /** The tag expressions of a rule, in order. */
  function TagsOf(rule: Rule): seq<Matcher> {
    if rule == [] then []
    else
      var m := rule[|rule| - 1];
      TagsOf(rule[..|rule| - 1]) + (if m.OnTags? then [m] else [])
  }

  function DomainsOf(rule: Rule): DomainMatcher {
    if rule == [] then EMPTY_MATCHER
    else
      var m := rule[|rule| - 1];
      var d := DomainsOf(rule[..|rule| - 1]);
      if m.OnDomain? then Insert(d, m.p) else d
  }

  ghost predicate CompiledTags(names: seq<string>, gs: seq<TagGroup>, ms: seq<Matcher>) {
    |gs| == |ms| && forall k :: 0 <= k < |gs| ==> CompiledGroup(names, gs[k], ms[k])
  }

  ghost predicate CompiledEntry(names: seq<string>, e: MatchEntry, rules: seq<Rule>) {
    && e.ruleIdx < |rules|
    && e.domains == DomainsOf(rules[e.ruleIdx])
    && CompiledTags(names, e.tags, TagsOf(rules[e.ruleIdx]))
  }

  /** Indices of the rules with a non-empty matcher, in order. */
  function Conditional(rules: seq<Rule>, n: nat): seq<nat>
    requires n <= |rules|
  {
    if n == 0 then [] else Conditional(rules, n - 1) + (if rules[n - 1] != [] then [n - 1] else [])
  }

  function FirstCatchAll(rules: seq<Rule>, n: nat): Option<nat>
    requires n <= |rules|
  {
    if n == 0 then None
    else
      var before := FirstCatchAll(rules, n - 1);
      if before.Some? then before else if rules[n - 1] == [] then Some(n - 1) else None
  }

  ghost predicate CompiledEntries(names: seq<string>, entries: seq<MatchEntry>, rules: seq<Rule>, n: nat)
    requires n <= |rules|
  {
    && |entries| == |Conditional(rules, n)|
    && forall k :: 0 <= k < |entries| ==>
         entries[k].ruleIdx == Conditional(rules, n)[k] && CompiledEntry(names, entries[k], rules)
  }

  ghost predicate Distinct(names: seq<string>) {
    forall i, j :: 0 <= i < j < |names| ==> names[i] != names[j]
  }

  ghost predicate Compiled(ix: Index, rules: seq<Rule>) {
    && CompiledEntries(ix.tagNames, ix.entries, rules, |rules|)
    && ix.catchAll == FirstCatchAll(rules, |rules|)
    && (ix.needsRuleset <==> exists k :: 0 <= k < |ix.entries| && ix.entries[k].tags != [])
    && ix.constant == (if ix.catchAll == Some(0) || ix.entries == [] then Some(ix.catchAll) else None)
    && Distinct(ix.tagNames)
  }

  // Building.

  /** The names after `tag` is looked up: new ones are added at the end. */
  function Noted(names: seq<string>, tag: string): seq<string> {
    if tag in names then names else names + [tag]
  }

  function NotedAll(names: seq<string>, tags: seq<string>): seq<string> {
    if tags == [] then names else Noted(NotedAll(names, tags[..|tags| - 1]), tags[|tags| - 1])
  }

  function NotedRule(names: seq<string>, rule: Rule): seq<string> {
    if rule == [] then names
    else
      var before := NotedRule(names, rule[..|rule| - 1]);
      match rule[|rule| - 1]
      case OnDomain(_) => before
      case OnTags(included, excluded) => NotedAll(NotedAll(before, included), excluded)
  }

  /** The tags of the first `n` rules in the order they first occur. */
  function TagOrder(rules: seq<Rule>, n: nat): seq<string>
    requires n <= |rules|
  {
    if n == 0 then [] else NotedRule(TagOrder(rules, n - 1), rules[n - 1])
  }

  ghost predicate Interned(names: seq<string>, ids: map<string, u16>) {
    && Distinct(names)
    && (forall n :: n in ids <==> n in names)
    && (forall i :: 0 <= i < |names| ==> names[i] in ids && ids[names[i]] == i % TAG_IDS)
  }

  method Intern(names: seq<string>, ids: map<string, u16>, tag: string)
    returns (names': seq<string>, ids': map<string, u16>, id: u16)
    requires Interned(names, ids)
    ensures Interned(names', ids') && names <= names' && Encodes(names', tag, id)
    ensures names' == Noted(names, tag)
  {
    if tag in ids {
      names', ids', id := names, ids, ids[tag];
    } else {
      id := |names| % TAG_IDS;
      names' := names + [tag];
      ids' := ids[tag := id];
      assert names'[|names|] == tag;
    }
  }

  lemma {:induction false} EncodesGrows(names: seq<string>, names': seq<string>, tag: string, id: u16)
    requires names <= names' && Encodes(names, tag, id)
    ensures Encodes(names', tag, id)
  {
    var i :| 0 <= i < |names| && names[i] == tag && id == i % TAG_IDS;
    assert names'[i] == tag;
  }

  lemma {:induction false} EncodesAllGrows(names: seq<string>, names': seq<string>, tags: seq<string>, ids: seq<u16>)
    requires names <= names' && EncodesAll(names, tags, ids)
    ensures EncodesAll(names', tags, ids)
  {
    hide Encodes;
    forall k | 0 <= k < |tags| ensures Encodes(names', tags[k], ids[k]) {
      EncodesGrows(names, names', tags[k], ids[k]);
    }
  }

  lemma {:induction false} TagsGrow(names: seq<string>, names': seq<string>, gs: seq<TagGroup>, ms: seq<Matcher>)
    requires names <= names' && CompiledTags(names, gs, ms)
    ensures CompiledTags(names', gs, ms)
  {
    hide EncodesAll;
    forall k | 0 <= k < |gs| ensures CompiledGroup(names', gs[k], ms[k]) {
      EncodesAllGrows(names, names', ms[k].included, gs[k].included);
      EncodesAllGrows(names, names', ms[k].excluded, gs[k].excluded);
    }
  }

  lemma {:induction false} EntriesGrow(names: seq<string>, names': seq<string>, entries: seq<MatchEntry>,
                                       rules: seq<Rule>, n: nat)
    requires n <= |rules| && names <= names' && CompiledEntries(names, entries, rules, n)
    ensures CompiledEntries(names', entries, rules, n)
  {
    hide CompiledTags, TagsOf, DomainsOf, Conditional;
    forall k | 0 <= k < |entries| ensures CompiledEntry(names', entries[k], rules) {
      TagsGrow(names, names', entries[k].tags, TagsOf(rules[entries[k].ruleIdx]));
    }
  }

  method InternAll(names: seq<string>, ids: map<string, u16>, tags: seq<string>)
    returns (names': seq<string>, ids': map<string, u16>, out: seq<u16>)
    requires Interned(names, ids)
    ensures Interned(names', ids') && names <= names' && EncodesAll(names', tags, out)
    ensures names' == NotedAll(names, tags)
  {
    hide Encodes, Interned, Noted;
    names', ids', out := names, ids, [];
    for k := 0 to |tags|
      invariant Interned(names', ids') && names <= names'
      invariant EncodesAll(names', tags[..k], out)
      invariant names' == NotedAll(names, tags[..k])
    {
      assert tags[..k + 1][..k] == tags[..k];
      ghost var before := names';
      var id;
      names', ids', id := Intern(names', ids', tags[k]);
      EncodesAllGrows(before, names', tags[..k], out);
      out := out + [id];
    }
    assert tags[..|tags|] == tags;
  }

  method CompileRule(names: seq<string>, ids: map<string, u16>, rule: Rule)
    returns (names': seq<string>, ids': map<string, u16>, domains: DomainMatcher, tags: seq<TagGroup>)
    requires Interned(names, ids)
    ensures Interned(names', ids') && names <= names'
    ensures domains == DomainsOf(rule) && CompiledTags(names', tags, TagsOf(rule))
    ensures names' == NotedRule(names, rule)
  {
    hide EncodesAll, Interned, NotedAll;
    names', ids', domains, tags := names, ids, EMPTY_MATCHER, [];
    for k := 0 to |rule|
      invariant Interned(names', ids') && names <= names'
      invariant domains == DomainsOf(rule[..k])
      invariant CompiledTags(names', tags, TagsOf(rule[..k]))
      invariant names' == NotedRule(names, rule[..k])
    {
      assert rule[..k + 1][..k] == rule[..k];
      match rule[k]
      case OnDomain(p) => domains := Insert(domains, p);
      case OnTags(included, excluded) =>
        ghost var before := names';
        var inc, exc;
        names', ids', inc := InternAll(names', ids', included);
        ghost var middle := names';
        names', ids', exc := InternAll(names', ids', excluded);
        EncodesAllGrows(middle, names', included, inc);
        TagsGrow(before, names', tags, TagsOf(rule[..k]));
        tags := tags + [TagGroup(inc, exc)];
    }
    assert rule[..|rule|] == rule;
  }

  method Build(rules: seq<Rule>) returns (ix: Index)
    ensures Compiled(ix, rules) && ix.tagNames == TagOrder(rules, |rules|)
  {
    hide CompiledTags, TagsOf, DomainsOf, Interned;
    var names: seq<string>, ids: map<string, u16> := [], map[];
    var entries: seq<MatchEntry>, catchAll: Option<nat> := [], None;
    NothingInterned();
    for idx := 0 to |rules|
      invariant Interned(names, ids)
      invariant CompiledEntries(names, entries, rules, idx)
      invariant catchAll == FirstCatchAll(rules, idx)
      invariant names == TagOrder(rules, idx)
    {
      if rules[idx] == [] {
        if catchAll.None? { catchAll := Some(idx); }
      } else {
        ghost var before := names;
        var domains, tags;
        names, ids, domains, tags := CompileRule(names, ids, rules[idx]);
        EntriesGrow(before, names, entries, rules, idx);
        entries := entries + [MatchEntry(idx, domains, tags)];
      }
    }
    var needs := exists k :: 0 <= k < |entries| && entries[k].tags != [];
    var constant := if catchAll == Some(0) || entries == [] then Some(catchAll) else None;
    InternedDistinct(names, ids);
    ix := Index(entries, catchAll, needs, constant, names);
  }

  lemma {:induction false} NothingInterned()
    ensures Interned([], map[])
  {
  }

  lemma {:induction false} InternedDistinct(names: seq<string>, ids: map<string, u16>)
    requires Interned(names, ids)
    ensures Distinct(names)
  {
  }

  // Tag identifiers have 16 bits: a tag interned at `i` is looked up as the one at `i % 65536`.

  ghost predicate Decodes(names: seq<string>, tag: string, id: u16) {
    id < |names| && names[id] == tag
  }

  function Position(names: seq<string>, tag: string): (i: nat)
    requires tag in names
    ensures i < |names| && names[i] == tag
  {
    if names[|names| - 1] == tag then |names| - 1 else Position(names[..|names| - 1], tag)
  }

  /** The tag that is looked up in place of `tag`. */
  function AliasTag(names: seq<string>, tag: string): string {
    if tag in names then names[Position(names, tag) % TAG_IDS] else tag
  }

  function AliasTags(names: seq<string>, tags: seq<string>): (r: seq<string>)
    ensures |r| == |tags| && forall k :: 0 <= k < |tags| ==> r[k] == AliasTag(names, tags[k])
  {
    seq(|tags|, k requires 0 <= k < |tags| => AliasTag(names, tags[k]))
  }

  function AliasMatcher(names: seq<string>, m: Matcher): Matcher {
    match m
    case OnDomain(_) => m
    case OnTags(included, excluded) => OnTags(AliasTags(names, included), AliasTags(names, excluded))
  }

  function AliasRule(names: seq<string>, rule: Rule): (r: Rule)
    ensures |r| == |rule| && forall k :: 0 <= k < |rule| ==> r[k] == AliasMatcher(names, rule[k])
  {
    seq(|rule|, k requires 0 <= k < |rule| => AliasMatcher(names, rule[k]))
  }

  /** The rules as the index evaluates them. */
  function Aliased(rules: seq<Rule>, names: seq<string>): (r: seq<Rule>)
    ensures |r| == |rules| && forall i :: 0 <= i < |rules| ==> r[i] == AliasRule(names, rules[i])
  {
    seq(|rules|, i requires 0 <= i < |rules| => AliasRule(names, rules[i]))
  }

  lemma {:induction false} EncodedDecodes(names: seq<string>, tag: string, id: u16)
    requires Encodes(names, tag, id) && Distinct(names)
    ensures Decodes(names, AliasTag(names, tag), id)
  {
    var i :| 0 <= i < |names| && names[i] == tag && id == i % TAG_IDS;
    assert Position(names, tag) == i;
  }

  /** A tag is looked up as itself exactly when it was interned among the first 65536. */
  lemma {:induction false} AliasItselfIff(names: seq<string>, tag: string)
    requires Distinct(names) && tag in names
    ensures AliasTag(names, tag) == tag <==> Position(names, tag) < TAG_IDS
  {
    var i := Position(names, tag);
    if i >= TAG_IDS { assert names[i % TAG_IDS] != names[i]; }
  }

  // The per-query memo.

  datatype Chunk = Chunk(seen: nat, matched: nat)

  class TagMemo {
    var chunks: seq<Chunk>

    constructor (numTags: nat)
      ensures |chunks| == (numTags + 63) / 64
      ensures forall names, db, q :: Holds(names, db, q)
    {
      chunks := seq((numTags + 63) / 64, _ => Chunk(0, 0));
      new;
      forall id: nat ensures !Bit(0, id) { BitOfZero(id); }
    }

    /** What has been seen is remembered right, and only what has been seen is marked. */
    ghost predicate Holds(names: seq<string>, db: Db, q: string)
      reads this
    {
      && (forall c, j: nat :: 0 <= c < |chunks| && Bit(chunks[c].matched, j) ==> Bit(chunks[c].seen, j))
      && (forall id: nat :: id < |names| && id / 64 < |chunks| && Bit(chunks[id / 64].seen, id % 64) ==>
            (Bit(chunks[id / 64].matched, id % 64) <==> db(names[id], q)))
    }

    method Check(ghost names: seq<string>, db: Db, id: u16, tag: string, q: string) returns (v: bool)
      requires Holds(names, db, q) && Decodes(names, tag, id)
      modifies this
      ensures Holds(names, db, q) && v == db(tag, q)
    {
      hide Bit, And, Or, Pow2;
      var c := id / 64;
      var bit := Pow2(id % 64);
      if c < |chunks| {
        AndPow2(chunks[c].seen, id % 64);
        AndPow2(chunks[c].matched, id % 64);
        if And(chunks[c].seen, bit) != 0 { return And(chunks[c].matched, bit) != 0; }
      }
      v := db(tag, q);
      if c < |chunks| {
        ghost var old0 := chunks[c];
        var chunk := Chunk(Or(chunks[c].seen, bit), if v then Or(chunks[c].matched, bit) else chunks[c].matched);
        forall j: nat ensures Bit(chunk.seen, j) <==> Bit(old0.seen, j) || j == id % 64 {
          OrPow2(old0.seen, id % 64, j);
        }
        forall j: nat ensures Bit(chunk.matched, j) <==> Bit(old0.matched, j) || (v && j == id % 64) {
          OrPow2(old0.matched, id % 64, j);
        }
        chunks := chunks[c := chunk];
      }
    }
  }

  // Evaluating an entry.

  ghost predicate DecodesAll(names: seq<string>, tags: seq<string>, ids: seq<u16>) {
    |ids| == |tags| && forall k :: 0 <= k < |tags| ==> Decodes(names, tags[k], ids[k])
  }

  ghost predicate DecodedGroup(names: seq<string>, g: TagGroup, m: Matcher) {
    m.OnTags? && DecodesAll(names, m.included, g.included) && DecodesAll(names, m.excluded, g.excluded)
  }

  ghost predicate DecodedTags(names: seq<string>, gs: seq<TagGroup>, ms: seq<Matcher>) {
    |gs| == |ms| && forall k :: 0 <= k < |gs| ==> DecodedGroup(names, gs[k], ms[k])
  }

  ghost predicate DecodedEntry(names: seq<string>, e: MatchEntry, rules: seq<Rule>) {
    && e.ruleIdx < |rules|
    && e.domains == DomainsOf(rules[e.ruleIdx])
    && DecodedTags(names, e.tags, TagsOf(rules[e.ruleIdx]))
  }

  /** The index evaluates `rules`: every identifier in it leads to the tag they name. */
  ghost predicate Decoded(ix: Index, rules: seq<Rule>) {
    && |ix.entries| == |Conditional(rules, |rules|)|
    && (forall k :: 0 <= k < |ix.entries| ==>
          ix.entries[k].ruleIdx == Conditional(rules, |rules|)[k] && DecodedEntry(ix.tagNames, ix.entries[k], rules))
    && ix.catchAll == FirstCatchAll(rules, |rules|)
    && (ix.needsRuleset <==> exists k :: 0 <= k < |ix.entries| && ix.entries[k].tags != [])
    && ix.constant == (if ix.catchAll == Some(0) || ix.entries == [] then Some(ix.catchAll) else None)
  }

  lemma {:induction false} EncodedAllDecode(names: seq<string>, tags: seq<string>, ids: seq<u16>)
    requires EncodesAll(names, tags, ids) && Distinct(names)
    ensures DecodesAll(names, AliasTags(names, tags), ids)
  {
    hide Encodes, Decodes, AliasTag;
    forall k | 0 <= k < |tags| ensures Decodes(names, AliasTags(names, tags)[k], ids[k]) {
      EncodedDecodes(names, tags[k], ids[k]);
    }
  }

  lemma {:induction false} CompiledTagsDecode(names: seq<string>, gs: seq<TagGroup>, ms: seq<Matcher>)
    requires CompiledTags(names, gs, ms) && Distinct(names)
    ensures DecodedTags(names, gs, AliasRule(names, ms))
  {
    hide EncodesAll, DecodesAll, AliasTags;
    forall k | 0 <= k < |gs| ensures DecodedGroup(names, gs[k], AliasRule(names, ms)[k]) {
      EncodedAllDecode(names, ms[k].included, gs[k].included);
      EncodedAllDecode(names, ms[k].excluded, gs[k].excluded);
    }
  }

  /** Aliasing touches neither the domain patterns nor the number of tag expressions. */
  lemma {:induction false} AliasSplits(names: seq<string>, rule: Rule)
    ensures DomainsOf(AliasRule(names, rule)) == DomainsOf(rule)
    ensures TagsOf(AliasRule(names, rule)) == AliasRule(names, TagsOf(rule))
    decreases |rule|
  {
    hide AliasTags, Insert;
    var aliased := AliasRule(names, rule);
    if rule != [] {
      var n := |rule| - 1;
      AliasSplits(names, rule[..n]);
      assert aliased[..n] == AliasRule(names, rule[..n]);
      assert AliasRule(names, TagsOf(rule)) == AliasRule(names, TagsOf(rule[..n])) +
             (if rule[n].OnTags? then [aliased[n]] else []);
    }
  }

  lemma {:induction false} AliasShape(rules: seq<Rule>, names: seq<string>, n: nat)
    requires n <= |rules|
    ensures Conditional(Aliased(rules, names), n) == Conditional(rules, n)
    ensures FirstCatchAll(Aliased(rules, names), n) == FirstCatchAll(rules, n)
  {
    if n > 0 { AliasShape(rules, names, n - 1); }
  }

  /** A built index evaluates the aliased rules. */
  lemma {:induction false} CompiledDecodes(ix: Index, rules: seq<Rule>)
    requires Compiled(ix, rules)
    ensures Decoded(ix, Aliased(rules, ix.tagNames))
  {
    hide CompiledTags, DecodedTags, TagsOf, DomainsOf, Conditional, FirstCatchAll, AliasMatcher;
    var names := ix.tagNames;
    var aliased := Aliased(rules, names);
    AliasShape(rules, names, |rules|);
    forall k | 0 <= k < |ix.entries| ensures DecodedEntry(names, ix.entries[k], aliased) {
      var e := ix.entries[k];
      AliasSplits(names, rules[e.ruleIdx]);
      CompiledTagsDecode(names, e.tags, TagsOf(rules[e.ruleIdx]));
    }
  }

  method AnyIdMatches(ids: seq<u16>, ghost tags: seq<string>, names: seq<string>, db: Db, q: string, memo: TagMemo)
    returns (hit: bool)
    requires DecodesAll(names, tags, ids) && memo.Holds(names, db, q)
    modifies memo
    ensures memo.Holds(names, db, q) && hit == AnyTag(tags, db, q)
  {
    for k := 0 to |ids|
      invariant memo.Holds(names, db, q)
      invariant forall j :: 0 <= j < k ==> !db(tags[j], q)
    {
      var v := memo.Check(names, db, ids[k], names[ids[k]], q);
      if v { return true; }
    }
    return false;
  }

  method TagGroupMatches(g: TagGroup, ghost m: Matcher, names: seq<string>, db: Db, q: string, memo: TagMemo)
    returns (hit: bool)
    requires DecodedGroup(names, g, m) && memo.Holds(names, db, q)
    modifies memo
    ensures memo.Holds(names, db, q) && hit == GroupHolds(m.included, m.excluded, db, q)
  {
    var positive := true;
    if g.included != [] { positive := AnyIdMatches(g.included, m.included, names, db, q, memo); }
    if !positive { return false; }
    var negative := AnyIdMatches(g.excluded, m.excluded, names, db, q, memo);
    return !negative;
  }

  /** Some entry of the list holds. */
  ghost predicate AnyMatcher(ms: seq<Matcher>, q: string, db: Option<Db>) {
    exists k :: 0 <= k < |ms| && MatcherHolds(ms[k], q, db)
  }

  lemma {:induction false} AnyMatcherSnoc(ms: seq<Matcher>, m: Matcher, q: string, db: Option<Db>)
    ensures AnyMatcher(ms + [m], q, db) <==> AnyMatcher(ms, q, db) || MatcherHolds(m, q, db)
  {
    hide MatcherHolds;
    var all := ms + [m];
    if k :| 0 <= k < |ms| && MatcherHolds(ms[k], q, db) { assert all[k] == ms[k]; }
    if MatcherHolds(m, q, db) { assert all[|ms|] == m; }
  }

  /** Splitting a matcher list into compiled domains and tag expressions loses nothing. */
  lemma {:induction false} RuleSplits(rule: Rule, q: string, db: Option<Db>)
    ensures AnyMatcher(rule, q, db) <==> Hits(DomainsOf(rule), q) || AnyMatcher(TagsOf(rule), q, db)
    decreases |rule|
  {
    if rule != [] {
      var n := |rule| - 1;
      var m, front := rule[n], rule[..n];
      assert rule == front + [m];
      RuleSplits(front, q, db);
      hide AnyMatcher, Hits, PatternMatches;
      AnyMatcherSnoc(front, m, q, db);
      if m.OnDomain? {
        HitsInsert(DomainsOf(front), m.p, q);
        assert TagsOf(rule) == TagsOf(front) + [] == TagsOf(front);
      } else {
        AnyMatcherSnoc(TagsOf(front), m, q, db);
      }
    } else {
      assert !Hits(EMPTY_MATCHER, q);
    }
  }

  method MatchEntryMatches(e: MatchEntry, ghost rules: seq<Rule>, names: seq<string>, q: string, db: Option<Db>,
                           memo: TagMemo)
    returns (hit: bool)
    requires DecodedEntry(names, e, rules) && rules[e.ruleIdx] != []
    requires db.Some? ==> memo.Holds(names, db.value, q)
    modifies memo
    ensures db.Some? ==> memo.Holds(names, db.value, q)
    ensures hit == RuleMatches(rules[e.ruleIdx], q, db)
  {
    hide DecodedGroup, GroupHolds, DomainsOf, TagsOf, UnderName, WildcardMatches;
    ghost var rule := rules[e.ruleIdx];
    ghost var tags := TagsOf(rule);
    RuleSplits(rule, q, db);
    OnlyTags(rule);
    var specific := LookupSpecific(e.domains, q);
    if specific { return true; }
    var fuzzy := LookupFuzzy(e.domains, q);
    if fuzzy { return true; }
    if db.None? { return false; }
    for k := 0 to |e.tags|
      invariant memo.Holds(names, db.value, q)
      invariant forall j :: 0 <= j < k ==> !MatcherHolds(tags[j], q, db)
    {
      var v := TagGroupMatches(e.tags[k], tags[k], names, db.value, q, memo);
      if v { return true; }
    }
    return false;
  }

  lemma {:induction false} OnlyTags(rule: Rule)
    ensures forall k :: 0 <= k < |TagsOf(rule)| ==> TagsOf(rule)[k].OnTags?
  {
    if rule != [] { OnlyTags(rule[..|rule| - 1]); }
  }

  // Merging the two streams.

  function IndexOrMax(r: Option<nat>): nat {
    if r.Some? then r.value else USIZE_MAX
  }

  /** Before the `k`-th conditional rule there are only catch-alls and earlier ones. */
  lemma {:induction false} ConditionalBefore(rules: seq<Rule>, n: nat, k: nat, i: nat) returns (j: nat)
    requires i < n <= |rules| && k <= |Conditional(rules, n)| && rules[i] != []
    requires i < if k < |Conditional(rules, n)| then Conditional(rules, n)[k] else n
    ensures j < k && Conditional(rules, n)[j] == i
    decreases n
  {
    var front := Conditional(rules, n - 1);
    if i == n - 1 {
      ConditionalBelow(rules, n);
      j := |front|;
    } else if k <= |front| {
      ConditionalBelow(rules, n - 1);
      j := ConditionalBefore(rules, n - 1, k, i);
    } else {
      j := ConditionalBefore(rules, n - 1, |front|, i);
    }
  }

  lemma {:induction false} ConditionalBelow(rules: seq<Rule>, n: nat)
    requires n <= |rules|
    ensures forall k :: 0 <= k < |Conditional(rules, n)| ==>
              Conditional(rules, n)[k] < n && rules[Conditional(rules, n)[k]] != []
  {
    if n > 0 { ConditionalBelow(rules, n - 1); }
  }

  lemma {:induction false} CatchAllFirst(rules: seq<Rule>, n: nat)
    requires n <= |rules|
    ensures var c := FirstCatchAll(rules, n);
            && (c.Some? ==> c.value < n && rules[c.value] == [])
            && forall i :: 0 <= i < (if c.Some? then c.value else n) ==> rules[i] != []
  {
    if n > 0 { CatchAllFirst(rules, n - 1); }
  }

  /** If no conditional rule before the `k`-th matches and no catch-all comes before
      `limit`, the scan has found nothing before `limit`. */
  lemma {:induction false} NothingBefore(rules: seq<Rule>, q: string, db: Option<Db>, k: nat, limit: nat)
    requires k <= |Conditional(rules, |rules|)|
    requires limit <= if k < |Conditional(rules, |rules|)| then Conditional(rules, |rules|)[k] else |rules|
    requires forall j :: 0 <= j < k ==>
               && Conditional(rules, |rules|)[j] < |rules|
               && !RuleMatches(rules[Conditional(rules, |rules|)[j]], q, db)
    requires forall i :: 0 <= i < limit <= |rules| ==> rules[i] != []
    ensures forall i :: 0 <= i < limit && i < |rules| ==> !RuleMatches(rules[i], q, db)
  {
    hide RuleMatches, Conditional;
    forall i | 0 <= i < limit && i < |rules| ensures !RuleMatches(rules[i], q, db) {
      ConditionalBelow(rules, |rules|);
      var j := ConditionalBefore(rules, |rules|, k, i);
    }
  }

  method RouteIndexUncached(ix: Index, ghost rules: seq<Rule>, q: string, db: Option<Db>, memo: TagMemo)
    returns (idx: nat)
    requires Decoded(ix, rules) && |rules| < USIZE_MAX
    requires db.Some? ==> memo.Holds(ix.tagNames, db.value, q)
    modifies memo
    ensures idx == IndexOrMax(Scan(rules, q, db, 0))
  {
    hide RuleMatches, Conditional, DecodedEntry, Scan, FirstCatchAll;
    CatchAllFirst(rules, |rules|);
    ConditionalBelow(rules, |rules|);
    var catchAll := IndexOrMax(ix.catchAll);
    if ix.catchAll.Some? { CatchAllMatches(rules[ix.catchAll.value], q, db); }
    if ix.entries == [] {
      FallThrough(rules, q, db, ix.catchAll, 0);
      return catchAll;
    }
    for k := 0 to |ix.entries|
      invariant db.Some? ==> memo.Holds(ix.tagNames, db.value, q)
      invariant forall j :: 0 <= j < k ==> !RuleMatches(rules[Conditional(rules, |rules|)[j]], q, db)
    {
      var e := ix.entries[k];
      if catchAll < e.ruleIdx {
        FallThrough(rules, q, db, ix.catchAll, k);
        return catchAll;
      }
      EntryInRange(ix.tagNames, e, rules);
      var hit := MatchEntryMatches(e, rules, ix.tagNames, q, db, memo);
      if hit {
        NothingBefore(rules, q, db, k, e.ruleIdx);
        ScanFinds(rules, q, db, 0, e.ruleIdx);
        return e.ruleIdx;
      }
    }
    FallThrough(rules, q, db, ix.catchAll, |ix.entries|);
    return catchAll;
  }

  lemma {:induction false} EntryInRange(names: seq<string>, e: MatchEntry, rules: seq<Rule>)
    requires DecodedEntry(names, e, rules)
    ensures e.ruleIdx < |rules|
  {
  }

  lemma {:induction false} CatchAllMatches(rule: Rule, q: string, db: Option<Db>)
    requires rule == []
    ensures RuleMatches(rule, q, db)
  {
  }

  /** No conditional rule ahead of the catch-all matches: the catch-all decides. */
  lemma {:induction false} FallThrough(rules: seq<Rule>, q: string, db: Option<Db>, c: Option<nat>, k: nat)
    requires c == FirstCatchAll(rules, |rules|) && k <= |Conditional(rules, |rules|)|
    requires forall j :: 0 <= j < k ==>
               && Conditional(rules, |rules|)[j] < |rules|
               && !RuleMatches(rules[Conditional(rules, |rules|)[j]], q, db)
    requires k < |Conditional(rules, |rules|)| ==> c.Some? && c.value < Conditional(rules, |rules|)[k]
    ensures Scan(rules, q, db, 0) == c
  {
    hide RuleMatches, Conditional, Scan, FirstCatchAll;
    CatchAllFirst(rules, |rules|);
    NothingBefore(rules, q, db, k, if c.Some? then c.value else |rules|);
    if c.Some? {
      CatchAllMatches(rules[c.value], q, db);
      ScanFinds(rules, q, db, 0, c.value);
    } else {
      ScanMisses(rules, q, db, 0);
    }
  }

  // Routing with the decision cache.

  lemma {:induction false} ConstantIsScan(ix: Index, rules: seq<Rule>, q: string, db: Option<Db>)
    requires Decoded(ix, rules) && ix.constant.Some?
    ensures Scan(rules, q, db, 0) == ix.constant.value
  {
    hide RuleMatches, Conditional, Scan, FirstCatchAll, DecodedEntry;
    ConditionalBelow(rules, |rules|);
    CatchAllFirst(rules, |rules|);
    FallThrough(rules, q, db, ix.catchAll, 0);
  }

  /** Without tag expressions the ruleset plays no part. */
  lemma {:induction false} RuleWithoutTags(rule: Rule, q: string, a: Option<Db>, b: Option<Db>)
    requires TagsOf(rule) == []
    ensures RuleMatches(rule, q, a) == RuleMatches(rule, q, b)
  {
    RuleSplits(rule, q, a);
    RuleSplits(rule, q, b);
  }

  lemma {:induction false} ScanWithoutTags(rules: seq<Rule>, q: string, a: Option<Db>, b: Option<Db>, i: nat)
    requires i <= |rules| && forall k :: 0 <= k < |rules| ==> TagsOf(rules[k]) == []
    ensures Scan(rules, q, a, i) == Scan(rules, q, b, i)
    decreases |rules| - i
  {
    hide RuleMatches, TagsOf;
    if i < |rules| {
      RuleWithoutTags(rules[i], q, a, b);
      ScanWithoutTags(rules, q, a, b, i + 1);
    }
  }

  lemma {:induction false} NoTagsAnywhere(ix: Index, rules: seq<Rule>)
    requires Decoded(ix, rules) && !ix.needsRuleset
    ensures forall i :: 0 <= i < |rules| ==> TagsOf(rules[i]) == []
  {
    hide Conditional, FirstCatchAll;
    forall i | 0 <= i < |rules| ensures TagsOf(rules[i]) == [] {
      if rules[i] != [] {
        ConditionalBelow(rules, |rules|);
        var j := ConditionalBefore(rules, |rules|, |Conditional(rules, |rules|)|, i);
        assert DecodedEntry(ix.tagNames, ix.entries[j], rules);
      }
    }
  }

  function RuleAt(rules: seq<Rule>, idx: nat): Option<nat> {
    if idx < |rules| then Some(idx) else None
  }

  /** One generation's routing state: fixed rules and ruleset, and a cache of decisions
      that may lose any entry at any time. */
  class Router {
    const rules: seq<Rule>
    const db: Db
    const ix: Index
    var cache: map<string, nat>

    /** The rules this router follows. */
    ghost function Followed(): seq<Rule> {
      Aliased(rules, ix.tagNames)
    }

    ghost predicate Valid()
      reads this
    {
      && Compiled(ix, rules) && |rules| < USIZE_MAX
      && forall q :: q in cache ==> cache[q] == IndexOrMax(Scan(Followed(), q, Some(db), 0))
    }

    constructor (rules: seq<Rule>, db: Db, ix: Index)
      requires Compiled(ix, rules) && |rules| < USIZE_MAX
      ensures Valid() && this.rules == rules && this.db == db && this.ix == ix && cache == map[]
    {
      this.rules, this.db, this.ix := rules, db, ix;
      cache := map[];
    }

    /** `loaded` tells whether the ruleset is available to this call. */
    method Route(q: string, loaded: bool) returns (r: Option<nat>)
      requires Valid()
      modifies this
      ensures Valid()
      ensures r == Scan(Aliased(rules, ix.tagNames), q, if loaded then Some(db) else None, 0)
    {
      hide Compiled, Decoded, Scan, Aliased;
      ghost var followed := Followed();
      CompiledDecodes(ix, rules);
      ghost var ruleset := if loaded then Some(db) else None;
      ScanInRange(followed, q, ruleset, 0);
      if ix.constant.Some? {
        ConstantIsScan(ix, followed, q, ruleset);
        return if ix.constant.value.Some? then RuleAt(rules, ix.constant.value.value) else None;
      }
      var useCache := loaded || !ix.needsRuleset;
      if !ix.needsRuleset {
        NoTagsAnywhere(ix, followed);
        ScanWithoutTags(followed, q, ruleset, Some(db), 0);
      }
      if useCache && q in cache {
        var idx := cache[q];
        return if idx == USIZE_MAX then None else RuleAt(rules, idx);
      }
      var memo := new TagMemo(|ix.tagNames|);
      var idx := RouteIndexUncached(ix, followed, q, if loaded then Some(db) else None, memo);
      if useCache { cache := cache[q := idx]; }
      return RuleAt(rules, idx);
    }

    method Evict(q: string)
      requires Valid()
      modifies this
      ensures Valid() && cache == old(cache) - {q}
    {
      cache := cache - {q};
    }
  }

  lemma {:induction false} ScanInRange(rules: seq<Rule>, q: string, db: Option<Db>, i: nat)
    requires i <= |rules|
    ensures Scan(rules, q, db, i).Some? ==> i <= Scan(rules, q, db, i).value < |rules|
    decreases |rules| - i
  {
    if i < |rules| { ScanInRange(rules, q, db, i + 1); }
  }

  // When the rules followed are the rules written.

  ghost predicate LowTags(names: seq<string>, tags: seq<string>) {
    forall k :: 0 <= k < |tags| ==> tags[k] in names && Position(names, tags[k]) < TAG_IDS
  }

  ghost predicate LowMatcher(names: seq<string>, m: Matcher) {
    m.OnTags? ==> LowTags(names, m.included) && LowTags(names, m.excluded)
  }

  ghost predicate LowRule(names: seq<string>, rule: Rule) {
    forall k :: 0 <= k < |rule| ==> LowMatcher(names, rule[k])
  }

  ghost predicate KnownTags(names: seq<string>, tags: seq<string>) {
    forall k :: 0 <= k < |tags| ==> tags[k] in names
  }

  ghost predicate KnownMatcher(names: seq<string>, m: Matcher) {
    m.OnTags? ==> KnownTags(names, m.included) && KnownTags(names, m.excluded)
  }

  ghost predicate KnownRule(names: seq<string>, rule: Rule) {
    forall k :: 0 <= k < |rule| ==> KnownMatcher(names, rule[k])
  }

  lemma {:induction false} TagsFollowedIff(names: seq<string>, tags: seq<string>)
    requires Distinct(names) && KnownTags(names, tags)
    ensures AliasTags(names, tags) == tags <==> LowTags(names, tags)
  {
    hide AliasTag, Position, Distinct;
    forall k | 0 <= k < |tags| ensures AliasTag(names, tags[k]) == tags[k] <==> Position(names, tags[k]) < TAG_IDS {
      AliasItselfIff(names, tags[k]);
    }
    var r := AliasTags(names, tags);
    if r == tags {
      forall k | 0 <= k < |tags| ensures Position(names, tags[k]) < TAG_IDS { assert r[k] == tags[k]; }
    }
  }

  lemma {:induction false} RuleFollowedIff(names: seq<string>, rule: Rule)
    requires Distinct(names) && KnownRule(names, rule)
    ensures AliasRule(names, rule) == rule <==> LowRule(names, rule)
  {
    hide AliasTags, LowTags, KnownTags, Distinct;
    forall k | 0 <= k < |rule| ensures AliasMatcher(names, rule[k]) == rule[k] <==> LowMatcher(names, rule[k]) {
      assert KnownMatcher(names, rule[k]);
      if rule[k].OnTags? {
        TagsFollowedIff(names, rule[k].included);
        TagsFollowedIff(names, rule[k].excluded);
      }
    }
    var r := AliasRule(names, rule);
    if r == rule {
      forall k | 0 <= k < |rule| ensures LowMatcher(names, rule[k]) { assert r[k] == rule[k]; }
    }
  }

  /** The index follows the rules as written exactly when each of their tags is interned
      among the first 65536. */
  lemma {:induction false} FollowedAsWrittenIff(names: seq<string>, rules: seq<Rule>)
    requires Distinct(names) && forall i :: 0 <= i < |rules| ==> KnownRule(names, rules[i])
    ensures Aliased(rules, names) == rules <==> forall i :: 0 <= i < |rules| ==> LowRule(names, rules[i])
  {
    hide AliasRule, LowRule, KnownRule, Distinct;
    forall i | 0 <= i < |rules| ensures AliasRule(names, rules[i]) == rules[i] <==> LowRule(names, rules[i]) {
      RuleFollowedIff(names, rules[i]);
    }
    var r := Aliased(rules, names);
    if r == rules {
      forall i | 0 <= i < |rules| ensures LowRule(names, rules[i]) { assert r[i] == rules[i]; }
    }
  }

  lemma {:induction false} TagsOfHas(rule: Rule, k: nat) returns (n: nat)
    requires k < |rule| && rule[k].OnTags?
    ensures n < |TagsOf(rule)| && TagsOf(rule)[n] == rule[k]
    decreases |rule|
  {
    if k == |rule| - 1 {
      n := |TagsOf(rule[..k])|;
    } else {
      n := TagsOfHas(rule[..|rule| - 1], k);
    }
  }

  lemma {:induction false} EncodedKnown(names: seq<string>, tags: seq<string>, ids: seq<u16>)
    requires EncodesAll(names, tags, ids)
    ensures KnownTags(names, tags)
  {
    forall k | 0 <= k < |tags| ensures tags[k] in names { assert Encodes(names, tags[k], ids[k]); }
  }

  lemma {:induction false} CompiledKnown(ix: Index, rules: seq<Rule>, i: nat)
    requires Compiled(ix, rules) && i < |rules|
    ensures KnownRule(ix.tagNames, rules[i])
  {
    hide Conditional, FirstCatchAll, TagsOf, DomainsOf, EncodesAll, KnownTags;
    if rules[i] != [] {
      ConditionalBelow(rules, |rules|);
      var j := ConditionalBefore(rules, |rules|, |Conditional(rules, |rules|)|, i);
      var e := ix.entries[j];
      forall k | 0 <= k < |rules[i]| ensures KnownMatcher(ix.tagNames, rules[i][k]) {
        if rules[i][k].OnTags? {
          var n := TagsOfHas(rules[i], k);
          assert CompiledGroup(ix.tagNames, e.tags[n], rules[i][k]);
          EncodedKnown(ix.tagNames, rules[i][k].included, e.tags[n].included);
          EncodedKnown(ix.tagNames, rules[i][k].excluded, e.tags[n].excluded);
        }
      }
    }
  }

  /** For every rule list: a built index follows it as written if and only if all its tags
      are interned among the first 65536. */
  lemma {:induction false} RoutesAsWrittenIff(ix: Index, rules: seq<Rule>)
    requires Compiled(ix, rules)
    ensures Aliased(rules, ix.tagNames) == rules <==> forall i :: 0 <= i < |rules| ==> LowRule(ix.tagNames, rules[i])
    ensures |ix.tagNames| <= TAG_IDS ==> Aliased(rules, ix.tagNames) == rules
  {
    hide Aliased, KnownRule, AliasRule, CompiledEntries, FirstCatchAll;
    forall i | 0 <= i < |rules| ensures KnownRule(ix.tagNames, rules[i]) { CompiledKnown(ix, rules, i); }
    FollowedAsWrittenIff(ix.tagNames, rules);
    if |ix.tagNames| <= TAG_IDS {
      forall i | 0 <= i < |rules| ensures LowRule(ix.tagNames, rules[i]) { FewAreLow(ix.tagNames, rules[i]); }
    }
  }

  lemma {:induction false} FewAreLow(names: seq<string>, rule: Rule)
    requires |names| <= TAG_IDS && KnownRule(names, rule)
    ensures LowRule(names, rule)
  {
    forall k | 0 <= k < |rule| ensures LowMatcher(names, rule[k]) { assert KnownMatcher(names, rule[k]); }
  }

  // What the late tags do to routes.

  /** The tag is not among the first 65536. */
  predicate Late(names: seq<string>, tag: string) {
    tag in names && Position(names, tag) >= TAG_IDS
  }

  /** The ruleset in which every tag has what its number leads to. */
  function Seen(names: seq<string>, db: Db): Db {
    (tag, q) => db(AliasTag(names, tag), q)
  }

  function SeenIn(names: seq<string>, db: Option<Db>): Option<Db> {
    match db case None => None case Some(d) => Some(Seen(names, d))
  }

  lemma {:induction false} AnyTagSeen(names: seq<string>, tags: seq<string>, db: Db, q: string)
    ensures AnyTag(AliasTags(names, tags), db, q) <==> AnyTag(tags, Seen(names, db), q)
  {
    hide AliasTag;
    var r, d := AliasTags(names, tags), Seen(names, db);
    forall k | 0 <= k < |tags| ensures db(r[k], q) == d(tags[k], q) {}
    if AnyTag(r, db, q) { var k :| 0 <= k < |r| && db(r[k], q); assert d(tags[k], q); }
    if AnyTag(tags, d, q) { var k :| 0 <= k < |tags| && d(tags[k], q); assert db(r[k], q); }
  }

  lemma {:induction false} RuleSeen(names: seq<string>, rule: Rule, q: string, db: Option<Db>)
    ensures RuleMatches(AliasRule(names, rule), q, db) <==> RuleMatches(rule, q, SeenIn(names, db))
  {
    hide AliasTags, AnyTag, Seen, PatternMatches;
    var r, d := AliasRule(names, rule), SeenIn(names, db);
    forall k | 0 <= k < |rule| ensures MatcherHolds(r[k], q, db) == MatcherHolds(rule[k], q, d) {
      if rule[k].OnTags? && db.Some? {
        AnyTagSeen(names, rule[k].included, db.value, q);
        AnyTagSeen(names, rule[k].excluded, db.value, q);
        AliasedLength(names, rule[k].included);
      }
    }
  }

  lemma {:induction false} AliasedLength(names: seq<string>, tags: seq<string>)
    ensures |AliasTags(names, tags)| == |tags|
  {
  }

  /** Following the replaced tags is following the rules as written, on the ruleset seen
      through the replacement. */
  lemma {:induction false} ScanSeen(names: seq<string>, rules: seq<Rule>, q: string, db: Option<Db>, i: nat)
    requires i <= |rules|
    ensures Scan(Aliased(rules, names), q, db, i) == Scan(rules, q, SeenIn(names, db), i)
    decreases |rules| - i
  {
    hide RuleMatches, AliasRule, SeenIn;
    if i < |rules| {
      RuleSeen(names, rules[i], q, db);
      ScanSeen(names, rules, q, db, i + 1);
    }
  }

  /** The rulesets agree on the name, late tags aside. */
  ghost predicate SameEarly(names: seq<string>, q: string, a: Db, b: Db) {
    forall tag: string :: !Late(names, tag) ==> a(tag, q) == b(tag, q)
  }

  /** What late tags contain makes no difference to a scan for `q`. */
  ghost predicate IgnoresLate(names: seq<string>, rules: seq<Rule>, q: string) {
    forall a: Db, b: Db :: SameEarly(names, q, a, b) ==> Scan(rules, q, Some(a), 0) == Scan(rules, q, Some(b), 0)
  }

  ghost predicate RoutedAsWritten(names: seq<string>, rules: seq<Rule>, q: string) {
    forall db: Option<Db> :: Scan(Aliased(rules, names), q, db, 0) == Scan(rules, q, db, 0)
  }

  lemma {:induction false} AliasEarly(names: seq<string>, tag: string)
    requires Distinct(names)
    ensures !Late(names, AliasTag(names, tag))
    ensures !Late(names, tag) ==> AliasTag(names, tag) == tag
  {
    if tag in names {
      var i := Position(names, tag) % TAG_IDS;
      assert i < TAG_IDS && Position(names, names[i]) == i;
    }
  }

  lemma {:induction false} ScanDepends(rules: seq<Rule>, q: string, a: Db, b: Db, i: nat)
    requires i <= |rules| && forall tag: string :: a(tag, q) == b(tag, q)
    ensures Scan(rules, q, Some(a), i) == Scan(rules, q, Some(b), i)
    decreases |rules| - i
  {
    if i < |rules| {
      forall k | 0 <= k < |rules[i]|
        ensures MatcherHolds(rules[i][k], q, Some(a)) == MatcherHolds(rules[i][k], q, Some(b)) {}
      ScanDepends(rules, q, a, b, i + 1);
    }
  }

  /** No route depends on what a late tag contains. */
  lemma {:induction false} LateUnseen(names: seq<string>, rules: seq<Rule>, q: string, a: Db, b: Db)
    requires Distinct(names) && SameEarly(names, q, a, b)
    ensures Scan(Aliased(rules, names), q, Some(a), 0) == Scan(Aliased(rules, names), q, Some(b), 0)
  {
    hide Scan, AliasTag, Late, Aliased, Distinct;
    ScanSeen(names, rules, q, Some(a), 0);
    ScanSeen(names, rules, q, Some(b), 0);
    forall tag: string ensures Seen(names, a)(tag, q) == Seen(names, b)(tag, q) { AliasEarly(names, tag); }
    ScanDepends(rules, q, Seen(names, a), Seen(names, b), 0);
  }

  /** A name is routed as the rules are written, whatever the ruleset holds, if and only if
      their scan for it does not depend on what late tags contain. */
  lemma {:induction false} RoutedAsWrittenIff(names: seq<string>, rules: seq<Rule>, q: string)
    requires Distinct(names)
    ensures RoutedAsWritten(names, rules, q) <==> IgnoresLate(names, rules, q)
  {
    hide Scan, AliasTag, Late, Aliased, Distinct;
    if RoutedAsWritten(names, rules, q) {
      forall a: Db, b: Db | SameEarly(names, q, a, b) ensures Scan(rules, q, Some(a), 0) == Scan(rules, q, Some(b), 0) {
        LateUnseen(names, rules, q, a, b);
      }
    }
    if IgnoresLate(names, rules, q) {
      forall db: Option<Db> ensures Scan(Aliased(rules, names), q, db, 0) == Scan(rules, q, db, 0) {
        ScanSeen(names, rules, q, db, 0);
        if db.Some? {
          forall tag: string | !Late(names, tag) ensures Seen(names, db.value)(tag, q) == db.value(tag, q) {
            AliasEarly(names, tag);
          }
          assert SameEarly(names, q, Seen(names, db.value), db.value);
        }
      }
    }
  }

  // One tag too many.

  /** The `k`-th of a sequence of distinct tags. */
  function ManyTag(k: nat): string {
    seq(k, _ => 'a')
  }

  /** One rule per tag. */
  function ManyRules(n: nat): (r: seq<Rule>)
    ensures |r| == n && forall k :: 0 <= k < n ==> r[k] == [OnTags([ManyTag(k)], [])]
  {
    seq(n, (k: nat) => [OnTags([ManyTag(k)], [])])
  }

  function ManyTags(n: nat): (r: seq<string>)
    ensures |r| == n && forall k :: 0 <= k < n ==> r[k] == ManyTag(k)
  {
    seq(n, (k: nat) => ManyTag(k))
  }

  /** A ruleset in which only the tag `ManyTag(n)` has entries. */
  function OnlyTag(n: nat): Db {
    (tag, q) => tag == ManyTag(n)
  }

  lemma {:induction false} ManyDistinct(a: nat, b: nat)
    ensures ManyTag(a) == ManyTag(b) <==> a == b
  {
    assert |ManyTag(a)| == a && |ManyTag(b)| == b;
  }

  lemma {:induction false} OneNoted(names: seq<string>, tag: string)
    requires tag !in names
    ensures NotedRule(names, [OnTags([tag], [])]) == names + [tag]
  {
    var rule: Rule := [OnTags([tag], [])];
    assert rule[..0] == [] && [tag][..0] == [];
    assert NotedAll(names, []) == names && NotedAll(names, [tag]) == names + [tag];
    assert NotedAll(names + [tag], []) == names + [tag];
  }

  lemma {:induction false} ManyOrder(total: nat, n: nat)
    requires n <= total
    ensures TagOrder(ManyRules(total), n) == ManyTags(n)
    decreases n
  {
    hide NotedRule, ManyTag;
    if n > 0 {
      ManyOrder(total, n - 1);
      var tag := ManyTag(n - 1);
      var names := ManyTags(n - 1);
      forall k | 0 <= k < |names| ensures names[k] != tag { ManyDistinct(k, n - 1); }
      OneNoted(names, tag);
      assert ManyTags(n) == names + [tag];
    }
  }

  lemma {:induction false} SingleTag(tag: string, q: string, db: Db)
    ensures RuleMatches([OnTags([tag], [])], q, Some(db)) <==> db(tag, q)
  {
    var rule: Rule := [OnTags([tag], [])];
    assert MatcherHolds(rule[0], q, Some(db)) <==> db(tag, q) by {
      assert AnyTag([tag], db, q) <==> db([tag][0], q);
    }
  }

  lemma {:induction false} ManyAlias(k: nat)
    requires k <= TAG_IDS
    ensures AliasTag(ManyTags(TAG_IDS + 1), ManyTag(k)) == ManyTag(k % TAG_IDS)
  {
    hide ManyTag;
    var names := ManyTags(TAG_IDS + 1);
    assert names[k] == ManyTag(k);
    var i := Position(names, ManyTag(k));
    ManyDistinct(i, k);
  }

  lemma {:induction false} AliasedMany(k: nat)
    requires k <= TAG_IDS
    ensures Aliased(ManyRules(TAG_IDS + 1), ManyTags(TAG_IDS + 1))[k] == [OnTags([ManyTag(k % TAG_IDS)], [])]
  {
    hide AliasTag, ManyTag;
    var names := ManyTags(TAG_IDS + 1);
    ManyAlias(k);
    var rule := AliasRule(names, [OnTags([ManyTag(k)], [])]);
    assert rule[0] == OnTags([ManyTag(k % TAG_IDS)], []);
  }

  /** With 65537 tags the last rule is written to match, and is not followed. */
  lemma {:induction false} ManyScans(q: string)
    ensures var rules, db := ManyRules(TAG_IDS + 1), OnlyTag(TAG_IDS);
            && Scan(rules, q, Some(db), 0) == Some(TAG_IDS)
            && Scan(Aliased(rules, ManyTags(TAG_IDS + 1)), q, Some(db), 0) == None
  {
    hide ManyTag, RuleMatches, Scan, AliasRule;
    var rules, db := ManyRules(TAG_IDS + 1), OnlyTag(TAG_IDS);
    forall k | 0 <= k <= TAG_IDS ensures RuleMatches(rules[k], q, Some(db)) <==> k == TAG_IDS {
      SingleTag(ManyTag(k), q, db);
      ManyDistinct(k, TAG_IDS);
    }
    ScanFinds(rules, q, Some(db), 0, TAG_IDS);
    var aliased := Aliased(rules, ManyTags(TAG_IDS + 1));
    forall k | 0 <= k <= TAG_IDS ensures !RuleMatches(aliased[k], q, Some(db)) {
      AliasedMany(k);
      SingleTag(ManyTag(k % TAG_IDS), q, db);
      ManyDistinct(k % TAG_IDS, TAG_IDS);
    }
    ScanMisses(aliased, q, Some(db), 0);
  }

  method MisroutedWitness(q: string) returns (rules: seq<Rule>, db: Db, r: Option<nat>)
    ensures |rules| == 65537 && Scan(rules, q, Some(db), 0) == Some(65536) && r == None
  {
    hide Scan, Compiled, Aliased;
    rules, db := ManyRules(TAG_IDS + 1), OnlyTag(TAG_IDS);
    var ix := Build(rules);
    ManyOrder(TAG_IDS + 1, TAG_IDS + 1);
    ManyScans(q);
    var router := new Router(rules, db, ix);
    r := router.Route(q, true);
  }
}
