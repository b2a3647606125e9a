/** Every interleaving of insertions, lookups, evictions and invalidations of the
    response cache: where each served answer comes from and what it looks like. */
module CacheRuns {
  import opened Prelude
  import opened Wire
  import opened Question
  import opened Edns
  import opened Ttl
  import opened Cache
  import CacheKey

  datatype Event =
    | Add(ins: Insert, policy: Policy, ruleId: u16, now: nat, evicted: set<u64>)
    | Look(lookup: Lookup, now: nat)
    | Drop(keys: set<u64>)
    | Clear

  predicate EventOk(e: Event) {
    e.Add? ==> InsertOk(e.ins)
  }

  function Next(s: Store, e: Event): (r: Store)
    requires StoreOk(s) && EventOk(e)
    ensures StoreOk(r)
  {
    match e
    case Add(ins, policy, ruleId, now, evicted) => Added(s, ins, policy, ruleId, now, evicted)
    case Look(l, now) => AfterLookup(s, l, now)
    case Drop(keys) => s - keys
    case Clear => map[]
  }

  /** The store after the first `i` events, starting from `s0`: nothing, or what a file held. */
  function StoreAt(s0: Store, events: seq<Event>, i: nat): (r: Store)
    requires StoreOk(s0) && i <= |events| && forall j :: 0 <= j < |events| ==> EventOk(events[j])
    ensures StoreOk(r)
  {
    if i == 0 then s0 else Next(StoreAt(s0, events, i - 1), events[i - 1])
  }

  function EntryOf(e: Event): Option<Entry>
    requires e.Add?
  {
    MakeEntry(e.ins, e.policy, e.ruleId, e.now)
  }

  predicate Stores(e: Event, key: u64) {
    e.Add? && e.ins.key == key && EntryOf(e).Some?
  }

  /** The insertion that stored something under `key` last, since the last invalidation. */
  function LastAdd(events: seq<Event>, i: nat, key: u64): (r: Option<nat>)
    requires i <= |events|
    ensures r.Some? ==> r.value < i && Stores(events[r.value], key)
  {
    if i == 0 || events[i - 1].Clear? then None
    else if Stores(events[i - 1], key) then Some(i - 1)
    else LastAdd(events, i - 1, key)
  }

  lemma {:induction false} NoneSince(events: seq<Event>, i: nat, key: u64, j: nat)
    requires i <= |events| && LastAdd(events, i, key).Some? && LastAdd(events, i, key).value < j < i
    ensures !events[j].Clear? && !Stores(events[j], key)
    decreases i
  {
    hide Stores;
    if j < i - 1 { NoneSince(events, i - 1, key, j); }
  }

  ghost predicate NeverCleared(events: seq<Event>, i: nat)
    requires i <= |events|
  {
    forall j :: 0 <= j < i ==> !events[j].Clear?
  }

  /** Whatever is stored was put there by the last insertion under its key, or was there
      from the start and never touched. */
  lemma {:induction false} StoredByLast(s0: Store, events: seq<Event>, i: nat, key: u64)
    requires StoreOk(s0) && i <= |events| && forall j :: 0 <= j < |events| ==> EventOk(events[j])
    requires key in StoreAt(s0, events, i)
    ensures var last := LastAdd(events, i, key);
            && (last.Some? ==> EntryOf(events[last.value]) == Some(StoreAt(s0, events, i)[key]))
            && (last.None? ==> key in s0 && StoreAt(s0, events, i)[key] == s0[key] && NeverCleared(events, i))
    decreases i
  {
    hide MakeEntry, Matches, Fresh;
    if i > 0 && !Stores(events[i - 1], key) { StoredByLast(s0, events, i - 1, key); }
  }

  // What is served.

  lemma {:induction false} Readdressing(p: seq<byte>, l: Lookup)
    requires 12 <= l.questionEnd <= |l.query| && l.questionEnd <= |p|
    ensures var r := Readdressed(SetId(p, 0), l);
            && |r| == |p| && U16(r, 0) == l.clientId
            && r[12..l.questionEnd] == l.query[12..l.questionEnd]
            && forall j :: 2 <= j < |p| && (j < 12 || l.questionEnd <= j) ==> r[j] == p[j]
  {
    var a := SetId(p, 0);
    var b := SetId(a, l.clientId);
    assert b == Be16(l.clientId) + p[2..];
    var r := Readdressed(a, l);
    assert r[12..l.questionEnd] == l.query[12..l.questionEnd];
    assert r[..2] == Be16(l.clientId);
    assert U16(r, 0) == U16(r[..2], 0);
  }

  /** `r` is the response `p`, `age` seconds after it was stored under `policy`, for
      lookup `l`: its ID and question bytes are the client's, it parses into the same
      records, their lifetimes have counted down, and all other bytes are unchanged. */
  ghost predicate Serves(r: seq<byte>, p: seq<byte>, policy: Policy, l: Lookup, age: nat) {
    var end := l.questionEnd;
    && 12 <= end <= |l.query| && end <= |p| && |r| == |p|
    && AllRecords(p, end).Some? && EffectiveTtl(p, end, policy).Some?
    && U16(r, 0) == l.clientId && r[12..end] == l.query[12..end]
    && var rs := AllRecords(p, end).value;
       && (forall j :: 2 <= j < |p| && (j < 12 || end <= j) && !InField(Offsets(rs), j) ==> r[j] == p[j])
       && AllRecords(r, end).Some? && |AllRecords(r, end).value| == |rs|
       && forall k :: 0 <= k < |rs| ==> ServedRecord(r, p, policy, end, age, k)
  }

  ghost predicate ServedRecord(r: seq<byte>, p: seq<byte>, policy: Policy, end: nat, age: nat, k: nat)
    requires |p| >= 12 && |r| >= 12 && AllRecords(p, end).Some? && EffectiveTtl(p, end, policy).Some?
    requires AllRecords(r, end).Some? && k < |AllRecords(r, end).value| && k < |AllRecords(p, end).value|
  {
    var was, got := AllRecords(p, end).value[k], AllRecords(r, end).value[k];
    var life := EffectiveTtl(p, end, policy).value;
    && got == was.(ttl := got.ttl)
    && (was.rrType == OPT ==> got.ttl == was.ttl)
    && (was.rrType != OPT ==> ServedAfter(p, life, policy, was, age, got.ttl))
    && (k < AnCount(p) && was.rrType != OPT && age < life.ttl ==> got.ttl >= 1)
  }

  lemma {:induction false} ServedMeaning(ins: Insert, policy: Policy, ruleId: u16, now: nat, l: Lookup, later: nat)
    requires InsertOk(ins) && MakeEntry(ins, policy, ruleId, now).Some?
    requires 12 <= l.questionEnd <= |l.query| && ins.questionEnd == l.questionEnd
    ensures Serves(Served(MakeEntry(ins, policy, ruleId, now).value, l, later), ins.packet, policy, l, Age(later, now))
  {
    hide Records, Offsets, Patched, EffectiveTtl, ServedAfter, InField, Readdressed, SetId, IsTruncated;
    var p, end := ins.packet, l.questionEnd;
    var life := EffectiveTtl(p, end, policy).value;
    var age := Age(later, now);
    PairsOfScan(p, end, policy);
    Readdressing(p, l);
    var base := Readdressed(SetId(p, 0), l);
    TailLifetimes(p, base, end, policy);
    PatchedRescan(base, end, policy, age);
    TailRecords(p, base, end, end, AnCount(p) + NsCount(p) + ArCount(p));
    SameServed(p, base, life, policy);
    var r := Patched(base, life.offsets, age);
    assert r[..end] == base[..end];
    SamePrefix(r, base, end);
    var rs := AllRecords(p, end).value;
    forall k | 0 <= k < |rs| ensures ServedRecord(r, p, policy, end, age, k) {}
  }

  lemma {:induction false} SamePrefix(r: seq<byte>, base: seq<byte>, end: nat)
    requires 12 <= end <= |base| && |r| == |base| && r[..end] == base[..end]
    ensures U16(r, 0) == U16(base, 0) && r[12..end] == base[12..end]
  {
    assert r[0] == r[..end][0] && r[1] == r[..end][1];
    assert r[12..end] == r[..end][12..] && base[12..end] == base[..end][12..];
  }

  lemma {:induction false} SameServed(p: seq<byte>, q: seq<byte>, life: Lifetimes, policy: Policy)
    requires |p| == |q| && |p| >= 12 && AnCount(p) == AnCount(q)
    ensures forall r: Rr, age: nat, ttl: u32 ::
              ServedAfter(p, life, policy, r, age, ttl) == ServedAfter(q, life, policy, r, age, ttl)
  {
  }

  /** The variants agree, the subnet and the other options aside when `strip` is set. */
  ghost predicate AgreeingVariants(v: Variant, w: Variant, strip: bool) {
    && v.hasOpt == w.hasOpt && v.doBit == w.doBit && v.version == w.version
    && v.rd == w.rd && v.ad == w.ad && v.cd == w.cd
    && (!strip ==> v.ecs == w.ecs && CacheKey.ExtraHash(v.extra) == CacheKey.ExtraHash(w.extra))
  }

  /** `hit` answers `l` from what `add` inserted `age` seconds ago. */
  ghost predicate HitFrom(hit: Hit, l: Lookup, add: Event, age: nat) {
    && add.Add? && InsertOk(add.ins) && add.ins.questionEnd == l.questionEnd <= |l.query|
    && SameQuestion(add.ins.query[12..l.questionEnd], l.query[12..l.questionEnd])
    && AgreeingVariants(add.ins.variant, l.variant, l.strip)
    && EntryOf(add).Some? && age < EntryOf(add).value.ttl
    && hit.ruleId == add.ruleId && hit.qname == add.ins.qname
    && Serves(hit.packet, add.ins.packet, add.policy, l, age)
  }

  /** Every hit of every run: it answers from the last insertion under its key since the
      last invalidation, while that is fresh, to a query with the same question, and,
      unless subnets are being ignored, the same variant; or, without such an insertion and
      without an invalidation, likewise from an entry that was there from the start.
      Colliding keys do not matter. */
  lemma {:induction false} HitOrigin(s0: Store, events: seq<Event>, i: nat)
    requires StoreOk(s0) && i < |events| && forall j :: 0 <= j < |events| ==> EventOk(events[j])
    requires events[i].Look? && Answer(StoreAt(s0, events, i), events[i].lookup, events[i].now).Some?
    ensures var l, now, last := events[i].lookup, events[i].now, LastAdd(events, i, events[i].lookup.key);
            var hit := Answer(StoreAt(s0, events, i), l, now).value;
            && 12 <= l.questionEnd <= |l.query|
            && (last.Some? ==> HitFrom(hit, l, events[last.value], Age(now, events[last.value].now)))
            && (last.None? ==>
                  && l.key in s0 && NeverCleared(events, i) && QueriesMatch(s0[l.key], l) && Fresh(s0[l.key], now)
                  && hit == Hit(Served(s0[l.key], l, now), s0[l.key].qname, s0[l.key].ruleId))
  {
    hide EffectiveTtl, Served, Serves, StoreAt, LastAdd, QuestionsMatch, SameQuestion, CacheKey.ExtraHash;
    var l, now := events[i].lookup, events[i].now;
    StoredByLast(s0, events, i, l.key);
    var last := LastAdd(events, i, l.key);
    if last.Some? {
      var add := events[last.value];
      MatchExact(add.ins.query[12..l.questionEnd], l.query[12..l.questionEnd]);
      ServedMeaning(add.ins, add.policy, add.ruleId, add.now, l, now);
    }
  }

  /** A stored answer is found again, as long as nothing under its key is inserted,
      evicted or invalidated, by every query of the same question and variant. */
  ghost predicate Keeps(s: Store, e: Event, key: u64)
    requires StoreOk(s) && EventOk(e)
  {
    match e
    case Add(ins, _, _, _, evicted) => ins.key != key && key !in evicted
    case Look(l, now) => l.key != key || key !in s || Fresh(s[key], now)
    case Drop(keys) => key !in keys
    case Clear => false
  }

  lemma {:induction false} KeptWhile(s0: Store, events: seq<Event>, from: nat, i: nat, key: u64)
    requires StoreOk(s0) && from <= i <= |events| && forall j :: 0 <= j < |events| ==> EventOk(events[j])
    requires key in StoreAt(s0, events, from)
    requires forall j :: from <= j < i ==> Keeps(StoreAt(s0, events, j), events[j], key)
    ensures key in StoreAt(s0, events, i) && StoreAt(s0, events, i)[key] == StoreAt(s0, events, from)[key]
    decreases i
  {
    hide MakeEntry, Fresh;
    if i > from {
      KeptWhile(s0, events, from, i - 1, key);
      assert Keeps(StoreAt(s0, events, i - 1), events[i - 1], key);
    }
  }

  lemma {:induction false} FreshHit(s0: Store, events: seq<Event>, j: nat, i: nat, l: Lookup, now: nat)
    requires StoreOk(s0) && j < i <= |events| && forall k :: 0 <= k < |events| ==> EventOk(events[k])
    requires events[j].Add? && EntryOf(events[j]).Some? && events[j].ins.key !in events[j].evicted
    requires var ins := events[j].ins;
             && InsertOk(ins)
             && ins.key == CacheKey.KeyOf(ins.query[12..ins.questionEnd], ins.variant, false)
             && ins.questionEnd == l.questionEnd <= |l.query|
             && l.key == CacheKey.KeyOf(l.query[12..l.questionEnd], l.variant, false)
             && PlainFrom(ins.query[12..ins.questionEnd], 0) && PlainFrom(l.query[12..l.questionEnd], 0)
             && CacheKey.AddrFits(ins.variant.ecs) && CacheKey.AddrFits(l.variant.ecs)
             && QuestionsMatch(ins.query[12..ins.questionEnd], l.query[12..l.questionEnd])
             && SameVariant(ins.variant, l.variant)
    requires forall k :: j < k < i ==> Keeps(StoreAt(s0, events, k), events[k], l.key)
    requires Age(now, events[j].now) < EntryOf(events[j]).value.ttl
    ensures Answer(StoreAt(s0, events, i), l, now).Some?
  {
    hide CacheKey.KeyOf, PlainFrom, QuestionsMatch, CacheKey.SameFlags, CacheKey.ExtraHash, Served, EffectiveTtl,
         StoreAt;
    var add := events[j];
    SameKey(add.ins.query[12..l.questionEnd], add.ins.variant, l.query[12..l.questionEnd], l.variant);
    StoreStep(s0, events, j);
    KeptWhile(s0, events, j + 1, i, l.key);
  }

  lemma {:induction false} StoreStep(s0: Store, events: seq<Event>, i: nat)
    requires StoreOk(s0) && i < |events| && forall j :: 0 <= j < |events| ==> EventOk(events[j])
    ensures StoreAt(s0, events, i + 1) == Next(StoreAt(s0, events, i), events[i])
  {
  }

  lemma {:induction false} SameKey(a: seq<byte>, v: Variant, b: seq<byte>, w: Variant)
    requires PlainFrom(a, 0) && PlainFrom(b, 0) && CacheKey.AddrFits(v.ecs) && CacheKey.AddrFits(w.ecs)
    requires QuestionsMatch(a, b) && SameVariant(v, w)
    ensures CacheKey.KeyOf(a, v, false) == CacheKey.KeyOf(b, w, false)
  {
    hide PlainFrom, QuestionsMatch, CacheKey.SameFlags, CacheKey.ExtraHash, CacheKey.KeyStream;
    CacheKey.KeyStreamExact(a, v, false, b, w, false);
  }

  // The fallback for queries with a client subnet.

  /** An answer stored without regard to subnets serves every client that asks the same
      question with the same flags and other options, whatever its subnet. */
  lemma {:induction false} SubnetBlind(s: Store, e: Entry, v: Variant, query: seq<byte>, end: nat, id: u16,
                                       w: Variant, now: nat)
    requires StoreOk(s) && 12 <= end <= |query| && e.questionEnd == end <= |e.query| && w.ecs.Some?
    requires var key := CacheKey.KeyOf(e.query[12..end], v, true); key in s && s[key] == e
    requires PlainFrom(e.query[12..end], 0) && PlainFrom(query[12..end], 0)
    requires CacheKey.AddrFits(v.ecs) && CacheKey.AddrFits(w.ecs)
    requires QuestionsMatch(e.query[12..end], query[12..end])
    requires CacheKey.SameFlags(v, w) && CacheKey.SameFlags(e.variant, w)
    requires CacheKey.ExtraHash(v.extra) == CacheKey.ExtraHash(w.extra)
    requires Fresh(e, now)
    ensures Probe(s, query, end, id, w, now).Some?
  {
    hide CacheKey.KeyStream, PlainFrom, QuestionsMatch, CacheKey.SameFlags, CacheKey.ExtraHash, Served;
    CacheKey.KeyStreamExact(e.query[12..end], v, true, query[12..end], w, true);
  }

  /** The entry that answers a probe. */
  ghost function AnsweringEntry(s: Store, query: seq<byte>, end: nat, id: u16, v: Variant, now: nat): Entry
    requires StoreOk(s) && 12 <= end <= |query| && Probe(s, query, end, id, v, now).Some?
  {
    var regular := RegularLookup(query, end, id, v);
    if Answer(s, regular, now).Some? then s[regular.key] else s[StrippedLookup(query, end, id, v).key]
  }

  /** A probe is answered from an entry of another variant exactly when the query has a
      subnet, its own key does not answer, and the subnet-blind key holds a fresh entry for
      the same question and flags that differs in the subnet or the other options. */
  lemma {:induction false} ForeignVariantIff(s: Store, query: seq<byte>, end: nat, id: u16, v: Variant, now: nat)
    requires StoreOk(s) && 12 <= end <= |query|
    ensures var key := CacheKey.KeyOf(query[12..end], v, true);
            (&& Probe(s, query, end, id, v, now).Some?
             && !SameVariant(AnsweringEntry(s, query, end, id, v, now).variant, v)) <==>
            && v.ecs.Some? && Answer(s, RegularLookup(query, end, id, v), now).None?
            && key in s && Fresh(s[key], now) && s[key].questionEnd == end && 12 <= |s[key].query|
            && QuestionsMatch(s[key].query[12..end], query[12..end]) && CacheKey.SameFlags(s[key].variant, v)
            && (s[key].variant.ecs != v.ecs || CacheKey.ExtraHash(s[key].variant.extra) != CacheKey.ExtraHash(v.extra))
    ensures Probe(s, query, end, id, v, now).Some? ==>
              var e := AnsweringEntry(s, query, end, id, v, now);
              && Fresh(e, now)
              && Probe(s, query, end, id, v, now).value.packet == Served(e, RegularLookup(query, end, id, v), now)
  {
    hide CacheKey.KeyOf, QuestionsMatch, CacheKey.SameFlags, CacheKey.ExtraHash, Patched, SetId;
    var regular, stripped := RegularLookup(query, end, id, v), StrippedLookup(query, end, id, v);
    if Matches(s, stripped) && Fresh(s[stripped.key], now) {
      assert Answer(AfterLookup(s, regular, now), stripped, now).Some?;
    }
  }

  // What lookups take out.

  /** A lookup takes out the entry under its key exactly when that matches and has expired,
      and nothing else. */
  lemma {:induction false} LookupDrops(s: Store, l: Lookup, now: nat, k: u64)
    requires StoreOk(s) && k in s
    ensures k in AfterLookup(s, l, now) ==> AfterLookup(s, l, now)[k] == s[k]
    ensures k !in AfterLookup(s, l, now) <==>
            && k == l.key && 12 <= l.questionEnd <= |l.query| && QueriesMatch(s[k], l)
            && (s[k].ttl == 0 || s[k].inserted + s[k].ttl * 1_000_000_000 <= now)
  {
    hide QueriesMatch;
    AgeReached(now, s[k].inserted, s[k].ttl);
  }

  lemma {:induction false} AgeReached(now: nat, inserted: nat, ttl: nat)
    ensures Age(now, inserted) >= ttl <==> ttl == 0 || inserted + ttl * NANOS <= now
  {
  }

  /** A probe with its fallback takes out no fresh entry, and only under its two keys. */
  lemma {:induction false} ProbeKeeps(s: Store, query: seq<byte>, end: nat, id: u16, v: Variant, now: nat, k: u64)
    requires StoreOk(s) && 12 <= end <= |query| && k in s
    requires Fresh(s[k], now)
             || (k != CacheKey.KeyOf(query[12..end], v, false) && k != CacheKey.KeyOf(query[12..end], v, true))
    ensures var after := AfterProbe(s, query, end, id, v, now); k in after && after[k] == s[k]
  {
    hide CacheKey.KeyOf, QueriesMatch;
  }

  /** Expired entries that match are gone afterwards, the one under the subnet-blind key when
      the fallback is taken. */
  lemma {:induction false} ProbeDrops(s: Store, query: seq<byte>, end: nat, id: u16, v: Variant, now: nat)
    requires StoreOk(s) && 12 <= end <= |query|
    ensures var l := RegularLookup(query, end, id, v);
            Matches(s, l) && !Fresh(s[l.key], now) ==> l.key !in AfterProbe(s, query, end, id, v, now)
    ensures var l := StrippedLookup(query, end, id, v);
            v.ecs.Some? && Probe(s, query, end, id, v, now).None? && Matches(s, l) ==>
              l.key !in AfterProbe(s, query, end, id, v, now)
    ensures Answer(s, RegularLookup(query, end, id, v), now).Some? ==> AfterProbe(s, query, end, id, v, now) == s
  {
    hide CacheKey.KeyOf, QueriesMatch;
  }
}
