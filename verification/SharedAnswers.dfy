/** Answers that cross subnets: an answer stored for a query without a subnet is served to
    queries that have one, and networks of the two address families can share a variant. */
module SharedAnswers {
  import opened Prelude
  import opened Wire
  import opened Question
  import opened Edns
  import opened Ecs
  import opened EcsLaws
  import opened Ttl
  import opened Cache
  import opened CacheRuns
  import BitWords
  import CacheKey
  import CacheKeyLaws

  /** A query with a well-formed OPT record that holds no subnet and has room for one. */
  ghost predicate TakesSubnet(p: seq<byte>) {
    && IsQuery(p) && PlainFrom(p[12..QuestionEnd(p).value], 0)
    && Locate(p).Found?
    && var r := Locate(p).rr;
       WellFormed(p[r.rdata..r.end], 0) && !HasEcs(OptionsAt(p, r)) && r.end - r.rdata + 24 < 0x1_0000
  }

  lemma {:induction false} NoSubnet(os: seq<Opt>)
    requires !HasEcs(os)
    ensures EcsOf(os) == None && ExtraOf(os)[ECS := 0] == ExtraOf(os)
  {
    hide EcsOf, ExtraOf, HasEcs, NonEcs;
    NonEcsIdem(os);
    NonEcsData(os);
  }

  /** Putting a subnet in changes nothing else a lookup looks at. */
  lemma {:induction false} WithSubnet(p: seq<byte>, s: Subnet)
    requires TakesSubnet(p) && s.Valid()
    ensures Inject(p, s).Some? && VariantOf(p).ecs == None
    ensures var q, end := Inject(p, s).value, QuestionEnd(p).value;
            && IsQuery(q) && QuestionEnd(q) == QuestionEnd(p) && end <= |q| && q[12..end] == p[12..end]
            && VariantOf(q) == VariantOf(p).(ecs := Some(NetworkOf(s)))
  {
    hide VariantOf, NetworkOf, EcsOption, EncodeOpt, Splice, LooseOptions, WellFormed, HasEcs, NonEcs, EncodeAll,
         Locate, ExtraOf, EcsOf, QuestionEnd, PlainFrom;
    var r, end := Locate(p).rr, QuestionEnd(p).value;
    var rd := p[r.rdata..r.end];
    KeptSame(rd);
    EncodeSize(EcsOption(s));
    OptionSize(s);
    InjectVariant(p, s);
    VariantFound(p);
    NoSubnet(OptionsAt(p, r));
    var more := Kept(rd).value + EncodeOpt(EcsOption(s));
    SpliceAt(p, r, more);
    FoundBehind(p);
    var q, m := Splice(p, r, more), r.fixed + 8;
    assert q[12..end] == q[..m][12..end] == p[..m][12..end] == p[12..end];
  }

  /** An insertion under the key of its own query. */
  ghost predicate OwnKey(e: Event) {
    && e.Add? && InsertOk(e.ins) && EntryOf(e).Some? && e.ins.key !in e.evicted
    && IsQuery(e.ins.query) && QuestionEnd(e.ins.query) == Some(e.ins.questionEnd)
    && e.ins.variant == VariantOf(e.ins.query)
    && e.ins.key == CacheKey.KeyOf(e.ins.query[12..e.ins.questionEnd], e.ins.variant, false)
  }

  lemma {:induction false} StoredAlone(e: Event)
    requires OwnKey(e)
    ensures EventOk(e)
    ensures var s := StoreAt(map[], [e], 1);
            e.ins.key in s && s[e.ins.key] == EntryOf(e).value && EntryOk(s[e.ins.key])
  {
    hide CacheKey.KeyOf, VariantOf, EffectiveTtl, QuestionEnd;
    StoreStep(map[], [e], 0);
  }

  lemma {:induction false} EntryFields(e: Event)
    requires e.Add? && EntryOf(e).Some?
    ensures var x := EntryOf(e).value;
            x.query == e.ins.query && x.variant == e.ins.variant && x.questionEnd == e.ins.questionEnd
  {
    hide EffectiveTtl;
  }

  lemma {:induction false} Fitting(p: seq<byte>)
    requires IsQuery(p)
    ensures CacheKey.AddrFits(VariantOf(p).ecs)
  {
    hide ExtractVariant, CacheKey.AddrFits;
    CacheKeyLaws.VariantFits(p, QuestionEnd(p).value);
  }

  /** The answer stored for any query without a subnet is served, while fresh, to the same
      query with any subnet. */
  lemma {:induction false} SubnetServedPlain(e: Event, s: Subnet, id: u16, now: nat)
    requires OwnKey(e) && TakesSubnet(e.ins.query) && s.Valid() && Fresh(EntryOf(e).value, now)
    ensures EventOk(e) && Inject(e.ins.query, s).Some?
    ensures var q, end := Inject(e.ins.query, s).value, e.ins.questionEnd;
            && IsQuery(q) && 12 <= end <= |q|
            && e.ins.variant.ecs == None && VariantOf(q).ecs == Some(NetworkOf(s))
            && Probe(StoreAt(map[], [e], 1), q, end, id, VariantOf(q), now).Some?
  {
    hide VariantOf, NetworkOf, StoreAt, CacheKey.KeyOf, CacheKey.ExtraHash, IsQuery, Probe, Fresh, PlainFrom,
         QuestionsMatch, CacheKey.AddrFits, Inject, MakeEntry, Locate, LooseOptions, HasEcs, WellFormed, QuestionEnd;
    var p, end, v := e.ins.query, e.ins.questionEnd, e.ins.variant;
    WithSubnet(p, s);
    var q := Inject(p, s).value;
    StoredAlone(e);
    EntryFields(e);
    MatchItself(p[12..end]);
    CacheKeyLaws.NoSubnetOneKey(p[12..end], v);
    assert v.(ecs := None) == v;
    Fitting(p);
    Fitting(q);
    var store := StoreAt(map[], [e], 1);
    SubnetBlind(store, store[e.ins.key], v, q, end, id, VariantOf(q), now);
  }

  /** Entries of queries with an OPT record answer no query without one, and vice versa. */
  lemma {:induction false} OptApart(s: Store, query: seq<byte>, end: nat, id: u16, v: Variant, now: nat)
    requires StoreOk(s) && 12 <= end <= |query| && forall k :: k in s ==> s[k].variant.hasOpt != v.hasOpt
    ensures Probe(s, query, end, id, v, now).None?
  {
    hide CacheKey.KeyOf, QuestionsMatch, CacheKey.ExtraHash, Served;
  }

  lemma {:induction false} StoredOnly(e: Event, k: u64)
    requires OwnKey(e)
    ensures EventOk(e) && (k in StoreAt(map[], [e], 1) ==> StoreAt(map[], [e], 1)[k] == EntryOf(e).value)
  {
    hide CacheKey.KeyOf, VariantOf, EffectiveTtl, QuestionEnd;
    StoreStep(map[], [e], 0);
  }

  lemma {:induction false} BareVariant(p: seq<byte>)
    requires IsQuery(p) && Locate(p) == Absent
    ensures !VariantOf(p).hasOpt
  {
    hide Locate, FindOptRecord, QuestionEnd;
    LocateIsFind(p);
  }

  /** A query without OPT record differs from itself with a subnet in having one, so the
      answer stored for it is not served across. */
  lemma {:induction false} SubnetUnservedBare(e: Event, s: Subnet, id: u16, now: nat)
    requires OwnKey(e) && s.Valid() && Locate(e.ins.query) == Absent
    requires U16(e.ins.query, 10) < 0xFFFF && SectionsEnd(e.ins.query) == Some(|e.ins.query|)
    ensures EventOk(e) && Inject(e.ins.query, s).Some?
    ensures var q, end := Inject(e.ins.query, s).value, e.ins.questionEnd;
            && IsQuery(q) && 12 <= end <= |q| && VariantOf(q).ecs == Some(NetworkOf(s))
            && Probe(StoreAt(map[], [e], 1), q, end, id, VariantOf(q), now).None?
  {
    hide VariantOf, NetworkOf, StoreAt, CacheKey.KeyOf, Probe, MakeEntry, Locate, QuestionEnd, SectionsEnd, Inject;
    var p, end := e.ins.query, e.ins.questionEnd;
    Appended(p, s);
    AppendedVariant(p, s);
    BareVariant(p);
    var q := Inject(p, s).value;
    EntryFields(e);
    StoredAlone(e);
    forall k | k in StoreAt(map[], [e], 1) ensures !StoreAt(map[], [e], 1)[k].variant.hasOpt { StoredOnly(e, k); }
    OptApart(StoreAt(map[], [e], 1), q, end, id, VariantOf(q), now);
  }

  lemma {:induction false} MatchItself(q: seq<byte>)
    requires PlainFrom(q, 0)
    ensures QuestionsMatch(q, q)
  {
    MatchMeaning(q, q);
  }

  // The two address families.

  lemma {:induction false} ZeroNetworks(a: Subnet, b: Subnet)
    requires a == V4([0, 0, 0, 0], 0) && b == V6(seq(16, _ => 0), 0)
    ensures a.Valid() && b.Valid() && NetworkOf(a) == NetworkOf(b)
  {
    hide PaddedValue, BitWords.BlockStart, BitWords.Pow2;
    SentNetwork(a);
    SentNetwork(b);
    var x, y := EcsOption(a).data, EcsOption(b).data;
    assert x[4..] == [] && y[4..] == [];
    assert U16(x, 0) == 1 && U16(y, 0) == 2;
    PaddedEmpty(4);
    PaddedEmpty(16);
    ZeroBlock(BitWords.Pow2(32));
    ZeroBlock(BitWords.Pow2(128));
  }

  lemma {:induction false} ZeroBlock(d: nat)
    requires d > 0
    ensures BitWords.BlockStart(0, d) == 0
  {
  }

  lemma {:induction false} FamilyByte(p: seq<byte>, s: Subnet)
    requires TakesSubnet(p) && s.Valid()
    ensures Inject(p, s).Some?
    ensures var r, kept := Locate(p).rr, |Kept(p[Locate(p).rr.rdata..Locate(p).rr.end]).value|;
            var q, at := Inject(p, s).value, r.rdata + kept + 5;
            at < |q| && q[at] == s.Family()
  {
    hide Splice, Locate, Kept, WellFormed, HasEcs, LooseOptions, IsQuery, PlainFrom, QuestionEnd, EncodeOpt, EcsOption;
    KeptSome(p);
    var r := Locate(p).rr;
    var rd, x := p[r.rdata..r.end], EncodeOpt(EcsOption(s));
    var kept := Kept(rd).value;
    EncodeSize(EcsOption(s));
    OptionSize(s);
    SpliceAt(p, r, kept + x);
    var q := Splice(p, r, kept + x);
    OptionFamily(s);
    var at := |kept| + 5;
    assert (kept + x)[at] == x[5];
    assert q[r.rdata..r.rdata + |kept + x|][at] == q[r.rdata + at];
  }

  lemma {:induction false} OptionFamily(s: Subnet)
    requires s.Valid()
    ensures |EncodeOpt(EcsOption(s))| > 5 && EncodeOpt(EcsOption(s))[5] == s.Family()
  {
    var o := EcsOption(s);
    assert o.data[1] == Be16(s.Family())[1] == s.Family();
    assert EncodeOpt(o)[5] == o.data[1];
  }

  lemma {:induction false} KeptSome(p: seq<byte>)
    requires TakesSubnet(p)
    ensures var r := Locate(p).rr; var rd := p[r.rdata..r.end];
            Kept(rd).Some? && |Kept(rd).value| <= |rd|
  {
    hide Locate, EncodeAll, NonEcs, HasEcs, LooseOptions, IsQuery, PlainFrom, QuestionEnd;
    var r := Locate(p).rr;
    KeptSame(p[r.rdata..r.end]);
  }

  /** Any such query, once with the IPv4 and once with the IPv6 network of all addresses:
      two queries, one variant, and the answer to the first is served to the second. */
  lemma {:induction false} FamiliesShare(p: seq<byte>, e: Event, a: Subnet, b: Subnet, id: u16, now: nat)
    requires TakesSubnet(p) && a == V4([0, 0, 0, 0], 0) && b == V6(seq(16, _ => 0), 0)
    requires Inject(p, a).Some? && OwnKey(e) && e.ins.query == Inject(p, a).value && Fresh(EntryOf(e).value, now)
    ensures EventOk(e) && Inject(p, b).Some?
    ensures var q, end := Inject(p, b).value, e.ins.questionEnd;
            && e.ins.query != q && IsQuery(q) && 12 <= end <= |q|
            && VariantOf(q) == VariantOf(e.ins.query)
            && Probe(StoreAt(map[], [e], 1), q, end, id, VariantOf(q), now).Some?
  {
    hide VariantOf, NetworkOf, StoreAt, CacheKey.KeyOf, IsQuery, Fresh, PlainFrom, Inject, MakeEntry, Kept, QuestionEnd,
         Locate, Probe, WellFormed, HasEcs, LooseOptions;
    ZeroNetworks(a, b);
    WithSubnet(p, a);
    WithSubnet(p, b);
    FamilyByte(p, a);
    FamilyByte(p, b);
    TwinAnswered(e, Inject(p, b).value, id, now);
  }

  /** A query with the same question bytes and variant is answered alike. */
  lemma {:induction false} TwinAnswered(e: Event, q: seq<byte>, id: u16, now: nat)
    requires OwnKey(e) && Fresh(EntryOf(e).value, now)
    requires IsQuery(q) && QuestionEnd(q) == Some(e.ins.questionEnd) && VariantOf(q) == e.ins.variant
    requires q[12..e.ins.questionEnd] == e.ins.query[12..e.ins.questionEnd]
    requires PlainFrom(q[12..e.ins.questionEnd], 0)
    ensures EventOk(e) && Probe(StoreAt(map[], [e], 1), q, e.ins.questionEnd, id, VariantOf(q), now).Some?
  {
    hide VariantOf, StoreAt, CacheKey.KeyOf, CacheKey.ExtraHash, IsQuery, Fresh, PlainFrom, QuestionsMatch, MakeEntry,
         Served, QuestionEnd;
    StoredAlone(e);
    EntryFields(e);
    MatchItself(q[12..e.ins.questionEnd]);
  }

  // There are such queries and insertions.

  /** A query for the root's addresses with an empty OPT record. */
  const QUERY: seq<byte> :=
    [0, 0, 1, 0, 0, 1, 0, 0, 0, 0, 0, 1, 0, 0, 1, 0, 1, 0, 0, 41, 0x10, 0, 0, 0, 0, 0, 0, 0]

  /** An empty answer to it, and a policy that keeps it for a minute. */
  const REPLY: seq<byte> := [0, 0, 0x81, 0, 0, 1, 0, 0, 0, 0, 0, 0, 0, 0, 1, 0, 1]
  const POLICY: Policy := Policy(0, 60, 0)

  lemma {:induction false} QueryFields()
    ensures |QUERY| == 28 && QUERY[12] == 0 && QUERY[17] == 0
    ensures U16(QUERY, 4) == 1 && U16(QUERY, 6) == 0 && U16(QUERY, 8) == 0 && U16(QUERY, 10) == 1
    ensures U16(QUERY, 18) == OPT && U32(QUERY, 22) == 0 && U16(QUERY, 26) == 0
  {
  }

  lemma {:induction false} RootName(p: seq<byte>, pos: nat)
    requires pos < |p| && p[pos] == 0
    ensures SkipName(p, pos) == Some(pos + 1)
  {
  }

  /** A root question followed by an empty OPT record at the end of the packet. */
  lemma {:induction false} RootQuery(p: seq<byte>)
    requires |p| == 28 && p[12] == 0 && p[17] == 0
    requires U16(p, 4) == 1 && U16(p, 6) == 0 && U16(p, 8) == 0 && U16(p, 10) == 1
    requires U16(p, 18) == OPT && U32(p, 22) == 0 && U16(p, 26) == 0
    ensures IsQuery(p) && QuestionEnd(p) == Some(17) && Locate(p) == Found(Rr(17, 18, OPT, 0, 28, 28))
  {
    hide SkipName, SearchOpt, U16, U32, AdditionalStart, ParseRr;
    RootName(p, 12);
    QueryStart(p);
    RootRr(p, 17);
    SearchStep(p, 17, 1);
  }

  lemma {:induction false} QueryParses()
    ensures IsQuery(QUERY) && QuestionEnd(QUERY) == Some(17)
    ensures Locate(QUERY) == Found(Rr(17, 18, OPT, 0, 28, 28))
  {
    hide IsQuery, QuestionEnd, Locate, U16, U32;
    QueryFields();
    RootQuery(QUERY);
  }

  lemma {:induction false} QueryPlain()
    ensures PlainFrom(QUERY[12..17], 0) && QUERY[28..28] == []
  {
    var q := QUERY[12..17];
    assert q == [0, 0, 1, 0, 1];
  }

  lemma {:induction false} NoOptions()
    ensures LooseOptions([], 0) == [] && WellFormed([], 0) && !HasEcs([])
  {
  }

  lemma {:induction false} QueryTakesSubnet()
    ensures TakesSubnet(QUERY) && QuestionEnd(QUERY) == Some(17)
  {
    hide Locate, IsQuery, QuestionEnd, PlainFrom, WellFormed, HasEcs, LooseOptions;
    QueryParses();
    QueryPlain();
    NoOptions();
  }

  lemma {:induction false} ReplyKept()
    ensures EffectiveTtl(REPLY, 17, POLICY).Some? && EffectiveTtl(REPLY, 17, POLICY).value.ttl == 60
    ensures !IsTruncated(REPLY)
  {
    assert AnCount(REPLY) == 0 && NsCount(REPLY) == 0 && ArCount(REPLY) == 0;
    NoRecords(REPLY, 17);
  }

  /** The insertion of `REPLY` as the answer to `query`, at time zero. */
  ghost function ReplyTo(query: seq<byte>): Event
    requires IsQuery(query) && QuestionEnd(query) == Some(17)
  {
    var v := VariantOf(query);
    Add(Insert(CacheKey.KeyOf(query[12..17], v, false), [], 17, query, v, REPLY), POLICY, 0, 0, {})
  }

  /** Every such query has its insertion, fresh for a minute. */
  lemma {:induction false} ReplyStored(query: seq<byte>, now: nat)
    requires IsQuery(query) && QuestionEnd(query) == Some(17) && now < 60 * NANOS
    ensures OwnKey(ReplyTo(query)) && Fresh(EntryOf(ReplyTo(query)).value, now)
  {
    hide VariantOf, CacheKey.KeyOf, EffectiveTtl;
    ReplyKept();
  }

  /** The two theorems above apply to `QUERY`, with and without a subnet, for a minute. */
  lemma {:induction false} CrossingExists(s: Subnet, now: nat)
    requires s.Valid() && now < 60 * NANOS
    ensures TakesSubnet(QUERY) && QuestionEnd(QUERY) == Some(17)
    ensures OwnKey(ReplyTo(QUERY)) && Fresh(EntryOf(ReplyTo(QUERY)).value, now)
    ensures Inject(QUERY, s).Some?
    ensures var q := Inject(QUERY, s).value;
            && IsQuery(q) && QuestionEnd(q) == Some(17)
            && OwnKey(ReplyTo(q)) && ReplyTo(q).ins.query == q && Fresh(EntryOf(ReplyTo(q)).value, now)
  {
    hide Locate, IsQuery, QuestionEnd, PlainFrom, WellFormed, HasEcs, LooseOptions, VariantOf, CacheKey.KeyOf, Inject,
         MakeEntry, OwnKey, Fresh;
    QueryTakesSubnet();
    WithSubnet(QUERY, s);
    ReplyStored(QUERY, now);
    ReplyStored(Inject(QUERY, s).value, now);
  }
}
