/** The response cache of `src/cache.rs`. Times are nanoseconds of one clock. Which
    entries the backing store gives up on an insertion is decided from outside. */
module Cache {
  import opened Prelude
  import opened Wire
  import opened Question
  import opened Edns
  import opened Ttl
  import CacheKey

  const NANOS: nat := 1_000_000_000
  const U32_MAX: nat := 0xFFFF_FFFF

  datatype Entry = Entry(
    packet: seq<byte>, query: seq<byte>, qname: seq<byte>, questionEnd: nat, variant: Variant,
    inserted: nat, ttl: u32, offsets: seq<Pair>, ruleId: u16)

  type Store = map<u64, Entry>

  /** Comparing the entry with a query slices no further than the stored query goes. */
  predicate EntryOk(e: Entry) {
    12 <= e.questionEnd && (|e.query| < 12 || e.questionEnd <= |e.query|)
  }

  predicate StoreOk(s: Store) {
    forall k :: k in s ==> EntryOk(s[k])
  }

  /** Whole seconds since `inserted`. */
  function Age(now: nat, inserted: nat): nat {
    if now < inserted then 0 else (now - inserted) / NANOS
  }

  /** The age is the number of whole seconds that have passed, none before the start. */
  lemma {:induction false} AgeExact(now: nat, inserted: nat, age: nat)
    ensures Age(now, inserted) == age <==>
            (now < inserted && age == 0) || inserted + age * 1_000_000_000 <= now < inserted + (age + 1) * 1_000_000_000
  {
  }

  // Inserting.

  datatype Insert = Insert(
    key: u64, qname: seq<byte>, questionEnd: nat, query: seq<byte>, variant: Variant, packet: seq<byte>)

  predicate InsertOk(ins: Insert) {
    12 <= ins.questionEnd <= |ins.query|
  }

  predicate IsTruncated(p: seq<byte>) {
    |p| >= 4 && (p[2] / 2) % 2 == 1
  }

  /** The packet with its ID replaced, if it has one. */
  function SetId(p: seq<byte>, id: u16): (r: seq<byte>)
    ensures |r| == |p|
  {
    if |p| < 2 then p else Be16(id) + p[2..]
  }

  function MakeEntry(ins: Insert, policy: Policy, ruleId: u16, now: nat): Option<Entry> {
    if IsTruncated(ins.packet) then None
    else
      match EffectiveTtl(ins.packet, ins.questionEnd, policy)
      case None => None
      case Some(life) =>
        Some(Entry(SetId(ins.packet, 0), ins.query, ins.qname, ins.questionEnd, ins.variant, now,
                   life.ttl, life.offsets, ruleId))
  }

  lemma {:induction false} TruncatedRead(p: seq<byte>, f: Flags)
    requires HasFlags(p, f)
    ensures IsTruncated(p) <==> f.tc
  {
    var high := Weight(f.qr, 0x20) + 2 * f.opcode + Weight(f.aa, 1);
    assert p[2] == 4 * high + Weight(f.tc, 2) + Weight(f.rd, 1);
    assert p[2] / 2 == 2 * high + Weight(f.tc, 1);
  }

  /** A complete reply without error, or for a name that does not exist. */
  ghost predicate Cacheable(p: seq<byte>) {
    |p| >= 12 && exists f: Flags :: HasFlags(p, f) && f.qr && !f.tc && (f.rcode == 0 || f.rcode == 3)
  }

  /** Exactly such responses are stored, if all their records can be read. */
  lemma {:induction false} StoredIff(ins: Insert, policy: Policy, ruleId: u16, now: nat)
    ensures MakeEntry(ins, policy, ruleId, now).Some? <==>
            && Cacheable(ins.packet) && ins.questionEnd <= |ins.packet|
            && AllRecords(ins.packet, ins.questionEnd).Some?
  {
    hide HasFlags, IsTruncated, IsGoodReply, Records, SoaTtl, Offsets, MinTtl;
    var p := ins.packet;
    if |p| >= 12 {
      var f := FlagsExist(p);
      forall g: Flags | HasFlags(p, g)
        ensures IsTruncated(p) <==> g.tc
        ensures IsGoodReply(p) <==> g.qr && (g.rcode == 0 || g.rcode == 3)
      {
        TruncatedRead(p, g);
        ReplyRead(p, g);
      }
    } else {
      ShortReply(p);
    }
  }

  /** An entry is the response without its ID, and the query as it was asked. */
  lemma {:induction false} EntryStored(ins: Insert, policy: Policy, ruleId: u16, now: nat)
    requires MakeEntry(ins, policy, ruleId, now).Some?
    ensures var e := MakeEntry(ins, policy, ruleId, now).value;
            && |e.packet| == |ins.packet| >= 12 && e.packet[0] == 0 == e.packet[1]
            && (forall j :: 2 <= j < |ins.packet| ==> e.packet[j] == ins.packet[j])
            && e.query == ins.query && e.qname == ins.qname && e.questionEnd == ins.questionEnd
            && e.variant == ins.variant && e.inserted == now && e.ruleId == ruleId
  {
    hide ScanOf, MinTtl;
    assert Be16(0) == [0, 0];
  }

  lemma {:induction false} ShortReply(p: seq<byte>)
    requires |p| < 12
    ensures !IsGoodReply(p)
  {
  }

  function Added(s: Store, ins: Insert, policy: Policy, ruleId: u16, now: nat, evicted: set<u64>): (r: Store)
    requires StoreOk(s) && InsertOk(ins)
    ensures StoreOk(r)
  {
    match MakeEntry(ins, policy, ruleId, now)
    case None => s
    case Some(e) => s[ins.key := e] - evicted
  }

  // Looking up.

  datatype Lookup = Lookup(key: u64, query: seq<byte>, questionEnd: nat, clientId: u16, strip: bool, variant: Variant)

  datatype Hit = Hit(packet: seq<byte>, qname: seq<byte>, ruleId: u16)

  /** Variants are compared through the hash of their other options. */
  predicate SameVariant(v: Variant, w: Variant) {
    CacheKey.SameFlags(v, w) && v.ecs == w.ecs && CacheKey.ExtraHash(v.extra) == CacheKey.ExtraHash(w.extra)
  }

  predicate QueriesMatch(e: Entry, l: Lookup)
    requires EntryOk(e)
  {
    && l.questionEnd <= |l.query| && e.questionEnd == l.questionEnd && 12 <= |e.query|
    && QuestionsMatch(e.query[12..l.questionEnd], l.query[12..l.questionEnd])
    && (if l.strip then CacheKey.SameFlags(e.variant, l.variant) else SameVariant(e.variant, l.variant))
  }

  predicate Matches(s: Store, l: Lookup)
    requires StoreOk(s)
  {
    12 <= l.questionEnd <= |l.query| && l.key in s && QueriesMatch(s[l.key], l)
  }

  /** Comparing `e` with the query of `l` takes a slice that ends behind the stored query. */
  predicate SlicesPast(e: Entry, l: Lookup) {
    && 12 <= l.questionEnd <= |l.query| && e.questionEnd == l.questionEnd && 12 <= |e.query|
    && |e.query| < l.questionEnd
  }

  /** No lookup does. */
  ghost predicate LookupsSafe(s: Store) {
    forall l: Lookup :: l.key in s ==> !SlicesPast(s[l.key], l)
  }

  lemma {:induction false} SafeIff(s: Store)
    requires forall k :: k in s ==> 12 <= s[k].questionEnd
    ensures StoreOk(s) <==> LookupsSafe(s)
  {
    if LookupsSafe(s) {
      forall k | k in s ensures EntryOk(s[k]) {
        var e := s[k];
        var l := Lookup(k, seq(e.questionEnd, _ => 0), e.questionEnd, 0, false, e.variant);
        assert !SlicesPast(s[l.key], l);
      }
    }
  }

  predicate Fresh(e: Entry, now: nat) {
    Age(now, e.inserted) < e.ttl
  }

  /** The stored packet under the client's ID and with the client's spelling of the question. */
  function Readdressed(p: seq<byte>, l: Lookup): (r: seq<byte>)
    requires 12 <= l.questionEnd <= |l.query|
    ensures |r| == |p|
  {
    var q := SetId(p, l.clientId);
    if |q| >= l.questionEnd then q[..12] + l.query[12..l.questionEnd] + q[l.questionEnd..] else q
  }

  function Served(e: Entry, l: Lookup, now: nat): seq<byte>
    requires 12 <= l.questionEnd <= |l.query|
  {
    Patched(Readdressed(e.packet, l), e.offsets, Age(now, e.inserted))
  }

  function Answer(s: Store, l: Lookup, now: nat): Option<Hit>
    requires StoreOk(s)
  {
    if Matches(s, l) && Fresh(s[l.key], now) then
      Some(Hit(Served(s[l.key], l, now), s[l.key].qname, s[l.key].ruleId))
    else None
  }

  /** A matching entry that has expired is dropped. */
  function AfterLookup(s: Store, l: Lookup, now: nat): (r: Store)
    requires StoreOk(s)
    ensures StoreOk(r)
  {
    if Matches(s, l) && !Fresh(s[l.key], now) then s - {l.key} else s
  }

  class DnsCache {
    const enabled: bool
    var entries: Store

    ghost predicate Valid()
      reads this
    {
      StoreOk(entries) && (!enabled ==> entries == map[])
    }

    constructor (capacity: nat)
      ensures Valid() && enabled == (capacity > 0) && entries == map[]
    {
      enabled := capacity > 0;
      entries := map[];
    }

    method Add(ins: Insert, policy: Policy, ruleId: u16, now: nat, evicted: set<u64>)
      requires Valid() && InsertOk(ins)
      modifies this
      ensures Valid()
      ensures entries == if enabled then Added(old(entries), ins, policy, ruleId, now, evicted) else old(entries)
    {
      if !enabled { return; }
      if IsTruncated(ins.packet) { return; }
      var life := EffectiveTtlAndOffsets(ins.packet, ins.questionEnd, policy);
      if life.None? { return; }
      var packet := SetId(ins.packet, 0);
      var e := Entry(packet, ins.query, ins.qname, ins.questionEnd, ins.variant, now,
                     life.value.ttl, life.value.offsets, ruleId);
      entries := entries[ins.key := e] - evicted;
    }

    method InvalidateAll()
      requires Valid()
      modifies this
      ensures Valid() && entries == map[]
    {
      entries := map[];
    }

    method LookupKeyed(l: Lookup, now: nat) returns (r: Option<Hit>)
      requires Valid()
      modifies this
      ensures Valid()
      ensures r == Answer(old(entries), l, now) && entries == AfterLookup(old(entries), l, now)
    {
      hide Patched, CacheKey.ExtraHash, NamesMatch;
      if !enabled { return None; }
      if l.questionEnd < 12 || l.questionEnd > |l.query| { return None; }
      if l.key !in entries { return None; }
      var e := entries[l.key];
      var matched := Match(e, l);
      if !matched { return None; }
      var age := Age(now, e.inserted);
      if age >= e.ttl {
        entries := entries - {l.key};
        return None;
      }
      var elapsed := if age <= U32_MAX then age else U32_MAX;
      var out := CopyOut(e.packet, l);
      PatchTtlsAt(out, e.offsets, elapsed);
      return Some(Hit(out[..], e.qname, e.ruleId));
    }

    /** First under the key that includes the client subnet, then, for a query that has
        one, under the key that leaves it out. */
    method GetWithEcsFallback(query: seq<byte>, questionEnd: nat, id: u16, v: Variant, now: nat)
      returns (r: Option<Hit>)
      requires Valid() && 12 <= questionEnd <= |query|
      modifies this
      ensures Valid()
      ensures r == Probe(old(entries), query, questionEnd, id, v, now)
      ensures entries == AfterProbe(old(entries), query, questionEnd, id, v, now)
    {
      hide Answer, AfterLookup;
      r := LookupKeyed(RegularLookup(query, questionEnd, id, v), now);
      if r.None? && v.ecs.Some? {
        r := LookupKeyed(StrippedLookup(query, questionEnd, id, v), now);
      }
    }
  }

  method Match(e: Entry, l: Lookup) returns (r: bool)
    requires EntryOk(e) && 12 <= l.questionEnd
    ensures r == QueriesMatch(e, l)
  {
    hide CacheKey.ExtraHash, NamesMatch;
    if l.questionEnd > |l.query| || e.questionEnd != l.questionEnd || |l.query| < 12 || |e.query| < 12 { return false; }
    var same := CompareQuestions(e.query[12..l.questionEnd], l.query[12..l.questionEnd]);
    if !same { return false; }
    return if l.strip then CacheKey.SameFlags(e.variant, l.variant) else SameVariant(e.variant, l.variant);
  }

  method CopyOut(p: seq<byte>, l: Lookup) returns (out: array<byte>)
    requires 12 <= l.questionEnd <= |l.query|
    ensures fresh(out) && out[..] == Readdressed(p, l)
  {
    out := new byte[|p|](i requires 0 <= i < |p| => p[i]);
    assert out[..] == p;
    if |p| >= 2 {
      var b := Be16(l.clientId);
      out[0], out[1] := b[0], b[1];
    }
    assert out[..] == SetId(p, l.clientId);
    if |p| >= l.questionEnd { CopyQuestion(out, l.query, l.questionEnd); }
  }

  method CopyQuestion(out: array<byte>, query: seq<byte>, end: nat)
    requires 12 <= end <= |query| && end <= out.Length
    modifies out
    ensures out[..] == old(out[..])[..12] + query[12..end] + old(out[..])[end..]
  {
    ghost var before := out[..];
    for i := 12 to end
      invariant forall j :: 12 <= j < i ==> out[j] == query[j]
      invariant forall j :: 0 <= j < out.Length && !(12 <= j < i) ==> out[j] == before[j]
    {
      out[i] := query[i];
    }
  }

  function RegularLookup(query: seq<byte>, questionEnd: nat, id: u16, v: Variant): Lookup
    requires 12 <= questionEnd <= |query|
  {
    Lookup(CacheKey.KeyOf(query[12..questionEnd], v, false), query, questionEnd, id, false, v)
  }

  function StrippedLookup(query: seq<byte>, questionEnd: nat, id: u16, v: Variant): Lookup
    requires 12 <= questionEnd <= |query|
  {
    Lookup(CacheKey.KeyOf(query[12..questionEnd], v, true), query, questionEnd, id, true, v)
  }

  function Probe(s: Store, query: seq<byte>, questionEnd: nat, id: u16, v: Variant, now: nat): Option<Hit>
    requires StoreOk(s) && 12 <= questionEnd <= |query|
  {
    var regular := RegularLookup(query, questionEnd, id, v);
    var first := Answer(s, regular, now);
    if first.Some? || v.ecs.None? then first
    else Answer(AfterLookup(s, regular, now), StrippedLookup(query, questionEnd, id, v), now)
  }

  function AfterProbe(s: Store, query: seq<byte>, questionEnd: nat, id: u16, v: Variant, now: nat): Store
    requires StoreOk(s) && 12 <= questionEnd <= |query|
  {
    var regular := RegularLookup(query, questionEnd, id, v);
    var s1 := AfterLookup(s, regular, now);
    if Answer(s, regular, now).Some? || v.ecs.None? then s1
    else AfterLookup(s1, StrippedLookup(query, questionEnd, id, v), now)
  }
}
