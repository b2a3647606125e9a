/** What stripping and injecting a client subnet do to a query: the rest of the packet
    and of the query variant stay, and each undoes the other. */
module EcsLaws {
  import opened Prelude
  import opened BitWords
  import opened ByteOrder
  import opened Wire
  import opened Question
  import opened Edns
  import opened Ecs

  // Parsing depends only on the bytes it reads.

  ghost predicate Agree(p: seq<byte>, q: seq<byte>, lo: nat, hi: nat) {
    hi <= |p| && hi <= |q| && forall j: nat :: lo <= j < hi ==> p[j] == q[j]
  }

  lemma {:induction false} QuestionsSame(p: seq<byte>, q: seq<byte>, pos: nat, n: nat)
    requires SkipQuestions(p, pos, n).Some? && Agree(p, q, pos, SkipQuestions(p, pos, n).value)
    ensures SkipQuestions(q, pos, n) == SkipQuestions(p, pos, n)
    decreases n
  {
    hide SkipName, SkipQuestions;
    QuestionStep(p, pos, n);
    QuestionStep(q, pos, n);
    if n > 0 {
      SkipNameSame(p, q, pos);
      QuestionsSame(p, q, SkipName(p, pos).value + 4, n - 1);
    }
  }

  lemma {:induction false} RrSame(p: seq<byte>, q: seq<byte>, pos: nat, len: nat)
    requires ParseRr(p, pos).Some?
    requires var r := ParseRr(p, pos).value;
             && Agree(p, q, pos, r.fixed + 8) && r.rdata + len <= |q| && U16(q, r.fixed + 8) == len
    ensures ParseRr(q, pos) == Some(ParseRr(p, pos).value.(end := ParseRr(p, pos).value.rdata + len))
  {
    hide SkipName;
    SkipNameSame(p, q, pos);
  }

  lemma {:induction false} RunSame(p: seq<byte>, q: seq<byte>, pos: nat, n: nat)
    requires Records(p, pos, n).Some? && Agree(p, q, pos, RecordsEnd(Records(p, pos, n).value, pos))
    ensures Records(q, pos, n) == Records(p, pos, n)
    decreases n
  {
    hide ParseRr;
    if n > 0 {
      var r := ParseRr(p, pos).value;
      var rest := Records(p, r.end, n - 1).value;
      assert RecordsEnd([r] + rest, pos) == RecordsEnd(rest, r.end);
      RecordsEndAfter(p, r.end, rest);
      RrLength(p, pos);
      RrSame(p, q, pos, U16(p, r.fixed + 8));
      RunSame(p, q, r.end, n - 1);
    }
  }

  lemma {:induction false} RrLength(p: seq<byte>, pos: nat)
    requires ParseRr(p, pos).Some?
    ensures var r := ParseRr(p, pos).value; r.end == r.rdata + U16(p, r.fixed + 8)
  {
  }

  lemma {:induction false} SearchSame(p: seq<byte>, q: seq<byte>, pos: nat, n: nat, len: nat)
    requires SearchOpt(p, pos, n).Found?
    requires var r := SearchOpt(p, pos, n).rr;
             Agree(p, q, pos, r.fixed + 8) && r.rdata + len <= |q| && U16(q, r.fixed + 8) == len
    ensures var r := SearchOpt(p, pos, n).rr; SearchOpt(q, pos, n) == Found(r.(end := r.rdata + len))
    decreases n
  {
    hide SearchOpt, ParseRr;
    if n == 0 { SearchEnd(p, pos); } else {
      SearchStep(p, pos, n);
      SearchStep(q, pos, n);
      var r := ParseRr(p, pos).value;
      if r.rrType == OPT {
        RrSame(p, q, pos, len);
      } else {
        RrLength(p, pos);
        RrSame(p, q, pos, U16(p, r.fixed + 8));
        SearchSame(p, q, r.end, n - 1, len);
      }
    }
  }

  lemma {:induction false} StartSame(p: seq<byte>, q: seq<byte>)
    requires |p| >= 12 && |q| >= 12 && Agree(p, q, 4, 10)
    requires AdditionalStart(p).Some? && Agree(p, q, 12, AdditionalStart(p).value)
    ensures AdditionalStart(q) == AdditionalStart(p)
  {
    hide SkipQuestions, Records;
    assert U16(q, 4) == U16(p, 4) && U16(q, 6) == U16(p, 6) && U16(q, 8) == U16(p, 8);
    var pos := SkipQuestions(p, 12, U16(p, 4)).value;
    var n := U16(p, 6) as nat + U16(p, 8);
    RecordsEndAfter(p, pos, Records(p, pos, n).value);
    QuestionsSame(p, q, 12, U16(p, 4));
    RunSame(p, q, pos, n);
  }

  /** The bytes of a splice; the length field holds the size modulo 65536. */
  lemma {:induction false} SpliceAt(p: seq<byte>, r: Rr, rd: seq<byte>)
    requires RrFits(p, r.start, r)
    ensures var q := Splice(p, r, rd);
            && |q| == r.rdata + |rd| + |p| - r.end
            && q[..r.fixed + 8] == p[..r.fixed + 8]
            && Agree(p, q, 0, r.fixed + 8)
            && U16(q, r.fixed + 8) == |rd| % 0x1_0000
            && q[r.rdata..r.rdata + |rd|] == rd
            && q[r.rdata + |rd|..] == p[r.end..]
  {
    var q := Splice(p, r, rd);
    assert q[..r.fixed + 8] == p[..r.fixed + 8];
    forall j: nat | j < r.fixed + 8 ensures q[j] == p[j] {
      assert q[..r.fixed + 8][j] == p[..r.fixed + 8][j];
    }
  }

  /** The rewritten packet has its OPT record in the same place. */
  lemma {:induction false} LocateSpliced(p: seq<byte>, rd: seq<byte>)
    requires Locate(p).Found?
    ensures var r := Locate(p).rr;
            Locate(Splice(p, r, rd)) == Found(r.(end := r.rdata + |rd| % 0x1_0000))
  {
    hide Splice, AdditionalStart, SearchOpt;
    var r := Locate(p).rr;
    var q := Splice(p, r, rd);
    SpliceAt(p, r, rd);
    assert U16(q, 10) == U16(p, 10);
    StartSame(p, q);
    SearchSame(p, q, AdditionalStart(p).value, U16(p, 10), |rd| % 0x1_0000);
  }

  // Options survive being written and read again.

  lemma {:induction false} EncodeSnoc(os: seq<Opt>, k: nat)
    requires k < |os|
    ensures EncodeAll(os[..k + 1]) == EncodeAll(os[..k]) + EncodeOpt(os[k])
  {
    assert os[..k + 1][..k] == os[..k];
  }

  lemma {:induction false} EncodePrefix(os: seq<Opt>, k: nat)
    requires k <= |os|
    ensures EncodeAll(os[..k]) <= EncodeAll(os)
    decreases |os| - k
  {
    hide EncodeAll, EncodeOpt;
    if k == |os| { assert os[..k] == os; } else {
      EncodeSnoc(os, k);
      EncodePrefix(os, k + 1);
    }
  }

  lemma {:induction false} OptAt(rd: seq<byte>, pos: nat, o: Opt)
    requires pos + 4 + |o.data| <= |rd| && rd[pos..pos + 4 + |o.data|] == EncodeOpt(o)
    ensures U16(rd, pos) == o.code && U16(rd, pos + 2) == |o.data| && rd[pos + 4..pos + 4 + |o.data|] == o.data
  {
    var e := EncodeOpt(o);
    var s := rd[pos..pos + 4 + |o.data|];
    assert s[0] == rd[pos] && s[1] == rd[pos + 1] && s[2] == rd[pos + 2] && s[3] == rd[pos + 3];
    assert rd[pos + 4..pos + 4 + |o.data|] == s[4..];
    assert e[4..] == o.data;
  }

  lemma {:induction false} ReadBackFrom(os: seq<Opt>, k: nat)
    requires k <= |os|
    ensures var rd := EncodeAll(os); var pos := |EncodeAll(os[..k])|;
            LooseOptions(rd, pos) == os[k..] && WellFormed(rd, pos)
    decreases |os| - k
  {
    hide EncodeAll, EncodeOpt, LooseOptions, WellFormed;
    var rd := EncodeAll(os);
    var pos := |EncodeAll(os[..k])|;
    if k == |os| {
      assert os[..k] == os;
      LooseEnd(rd, pos);
      FormedEnd(rd, pos);
    } else {
      var o := os[k];
      EncodeSnoc(os, k);
      EncodePrefix(os, k + 1);
      EncodeSize(o);
      var upTo := EncodeAll(os[..k + 1]);
      assert rd[pos..|upTo|] == upTo[pos..] == EncodeOpt(o);
      OptAt(rd, pos, o);
      LooseStep(rd, pos);
      OptionStep(rd, pos);
      ReadBackFrom(os, k + 1);
      assert [o] + os[k + 1..] == os[k..];
    }
  }

  lemma {:induction false} EncodeSize(o: Opt)
    ensures |EncodeOpt(o)| == 4 + |o.data|
  {
  }

  lemma {:induction false} ReadBack(os: seq<Opt>)
    ensures LooseOptions(EncodeAll(os), 0) == os && WellFormed(EncodeAll(os), 0)
  {
    ReadBackFrom(os, 0);
    assert os[..0] == [] && os[0..] == os && EncodeAll([]) == [];
  }

  lemma {:induction false} NonEcsIdem(os: seq<Opt>)
    requires !HasEcs(os)
    ensures NonEcs(os) == os
    decreases |os|
  {
    if os != [] {
      var front := os[..|os| - 1];
      assert os[|os| - 1].code != ECS;
      forall i | 0 <= i < |front| ensures front[i].code != ECS { assert os[i].code != ECS; }
      NonEcsIdem(front);
      assert os == front + [os[|os| - 1]];
    }
  }

  /** Dropping the subnet changes the other recorded options exactly when a truncated
      subnet option, which the variant files under "other", goes with it. */
  lemma {:induction false} NonEcsData(os: seq<Opt>)
    ensures EcsOf(NonEcs(os)) == None
    ensures ExtraOf(NonEcs(os))[ECS] == 0
    ensures forall c: u16 :: c != ECS ==> ExtraOf(NonEcs(os))[c] == ExtraOf(os)[c]
    ensures ExtraOf(os)[ECS] > 0 <==> HasShortEcs(os)
    decreases |os|
  {
    hide ParseEcs, EcsOf, ExtraOf, NonEcs, HasShortEcs;
    NonEcsNone();
    DataNone();
    if os != [] {
      var front, last := os[..|os| - 1], os[|os| - 1];
      assert os == front + [last];
      NonEcsData(front);
      DataSnoc(front, last);
      DataSnoc(NonEcs(front), last);
      ShortSnoc(front, last);
      NonEcsSnoc(front, last);
    }
  }

  lemma {:induction false} NonEcsNone()
    ensures NonEcs([]) == [] && !HasShortEcs([])
  {
  }

  lemma {:induction false} NonEcsSnoc(os: seq<Opt>, o: Opt)
    ensures NonEcs(os + [o]) == if o.code == ECS then NonEcs(os) else NonEcs(os) + [o]
  {
    assert (os + [o])[..|os|] == os;
  }

  lemma {:induction false} ShortSnoc(os: seq<Opt>, o: Opt)
    ensures HasShortEcs(os + [o]) == (HasShortEcs(os) || (o.code == ECS && |o.data| < 4))
  {
    var all := os + [o];
    if HasShortEcs(os) {
      var i :| 0 <= i < |os| && os[i].code == ECS && |os[i].data| < 4;
      assert all[i] == os[i];
    }
    if o.code == ECS && |o.data| < 4 { assert all[|os|] == o; }
  }

  // Sizes.

  lemma {:induction false} KeptSize(os: seq<Opt>)
    ensures |EncodeAll(NonEcs(os))| + (if HasEcs(os) then 4 else 0) <= |EncodeAll(os)|
    decreases |os|
  {
    hide EncodeAll, NonEcs, HasEcs, EncodeOpt;
    if os == [] { EmptyKept(); } else {
      var front, last := os[..|os| - 1], os[|os| - 1];
      assert os == front + [last];
      KeptSize(front);
      KeptSnoc(front, last);
      EncodeSnoc(os, |front|);
      assert os[..|front| + 1] == os;
      EncodeSize(last);
    }
  }

  lemma {:induction false} LooseSize(rd: seq<byte>, pos: nat, done: seq<Opt>)
    requires pos <= |rd| && EncodeAll(done) == rd[..pos]
    ensures EncodeAll(done + LooseOptions(rd, pos)) <= rd
    decreases |rd| - pos
  {
    hide EncodeAll, EncodeOpt, LooseOptions, WellFormed;
    if pos + 4 > |rd| {
      LooseEnd(rd, pos);
      assert done + [] == done;
    } else {
      LooseStep(rd, pos);
      OptionStep(rd, pos);
      var end := pos + 4 + U16(rd, pos + 2);
      if end > |rd| {
        assert done + [] == done;
      } else {
        var o := Opt(U16(rd, pos), rd[pos + 4..end]);
        var more := done + [o];
        EncodeSnoc(more, |done|);
        assert more[..|done|] == done && more[..|done| + 1] == more;
        assert rd[..end] == rd[..pos] + rd[pos..end];
        LooseSize(rd, end, more);
        assert done + ([o] + LooseOptions(rd, end)) == more + LooseOptions(rd, end);
      }
    }
  }

  /** What is read are the bytes of the record, up to a possible rest. */
  lemma {:induction false} LoosePrefix(rd: seq<byte>)
    ensures EncodeAll(LooseOptions(rd, 0)) <= rd
  {
    LooseSize(rd, 0, []);
    assert [] + LooseOptions(rd, 0) == LooseOptions(rd, 0);
  }

  /** The rewritten RDATA is the old one exactly when there was no subnet and nothing
      was left over behind the last option. */
  lemma {:induction false} KeptSame(rd: seq<byte>)
    requires WellFormed(rd, 0)
    ensures |Kept(rd).value| <= |rd|
    ensures var os := LooseOptions(rd, 0);
            Kept(rd).value == rd <==> !HasEcs(os) && |EncodeAll(os)| == |rd|
  {
    hide EncodeAll, NonEcs, HasEcs, LooseOptions, WellFormed;
    var os := LooseOptions(rd, 0);
    LoosePrefix(rd);
    KeptSize(os);
    if !HasEcs(os) { NonEcsIdem(os); }
  }

  // The located record, and putting one RDATA in place of another.

  lemma {:induction false} SearchParsed(p: seq<byte>, pos: nat, n: nat)
    requires SearchOpt(p, pos, n).Found?
    ensures var r := SearchOpt(p, pos, n).rr; ParseRr(p, r.start) == Some(r)
    decreases n
  {
    hide SearchOpt, ParseRr;
    if n == 0 { SearchEnd(p, pos); } else {
      SearchStep(p, pos, n);
      var r := ParseRr(p, pos).value;
      if r.rrType != OPT { SearchParsed(p, r.end, n - 1); } else { RrStart(p, pos); }
    }
  }

  lemma {:induction false} RrStart(p: seq<byte>, pos: nat)
    requires ParseRr(p, pos).Some?
    ensures ParseRr(p, pos).value.start == pos
  {
  }

  lemma {:induction false} LocateSize(p: seq<byte>)
    requires Locate(p).Found?
    ensures var r := Locate(p).rr; r.end == r.rdata + U16(p, r.fixed + 8)
  {
    hide AdditionalStart, SearchOpt;
    SearchParsed(p, AdditionalStart(p).value, U16(p, 10));
    RrLength(p, Locate(p).rr.start);
  }

  lemma {:induction false} SpliceSplice(p: seq<byte>, r: Rr, a: seq<byte>, b: seq<byte>)
    requires RrFits(p, r.start, r) && |a| < 0x1_0000
    ensures var q := Splice(p, r, a); var r2 := r.(end := r.rdata + |a|);
            RrFits(q, r2.start, r2) && Splice(q, r2, b) == Splice(p, r, b)
  {
    SpliceAt(p, r, a);
  }

  lemma {:induction false} SpliceItself(p: seq<byte>, r: Rr)
    requires RrFits(p, r.start, r) && r.end == r.rdata + U16(p, r.fixed + 8)
    ensures Splice(p, r, p[r.rdata..r.end]) == p
  {
    hide U16, Be16;
    Be16Of(p, r.fixed + 8);
    assert p == p[..r.fixed + 8] + p[r.fixed + 8..r.rdata] + p[r.rdata..r.end] + p[r.end..];
  }

  lemma {:induction false} SpliceSame(p: seq<byte>, r: Rr, rd: seq<byte>)
    requires RrFits(p, r.start, r) && r.end == r.rdata + U16(p, r.fixed + 8)
    ensures Splice(p, r, rd) == p <==> rd == p[r.rdata..r.end]
  {
    hide Splice, U16, Agree;
    SpliceAt(p, r, rd);
    SpliceItself(p, r);
  }

  // Laws of stripping.

  ghost function OptionsAt(p: seq<byte>, r: Rr): seq<Opt>
    requires RrFits(p, r.start, r)
  {
    LooseOptions(p[r.rdata..r.end], 0)
  }

  /** The stripped packet differs only in the OPT record's length and RDATA; the options
      left are the others, in order. */
  lemma {:induction false} StripKeepsRest(p: seq<byte>)
    requires Strip(p).Some?
    ensures Locate(p).Found?
    ensures var q, r := Strip(p).value, Locate(p).rr;
            && Locate(q).Found?
            && var r2 := Locate(q).rr;
               && r2 == r.(end := r2.end)
               && q[..r.fixed + 8] == p[..r.fixed + 8]
               && q[r2.end..] == p[r.end..]
               && OptionsAt(q, r2) == NonEcs(OptionsAt(p, r))
               && WellFormed(q[r2.rdata..r2.end], 0)
  {
    hide Locate, LooseOptions, WellFormed, NonEcs, HasEcs, EncodeAll, Splice;
    var r := Locate(p).rr;
    var rd := p[r.rdata..r.end];
    var kept := Kept(rd).value;
    LocateSize(p);
    KeptSame(rd);
    SpliceAt(p, r, kept);
    LocateSpliced(p, kept);
    ReadBack(NonEcs(LooseOptions(rd, 0)));
  }

  /** There is nothing left to strip. */
  lemma {:induction false} StripTwice(p: seq<byte>)
    requires Strip(p).Some?
    ensures Strip(Strip(p).value) == None
  {
    hide Locate, LooseOptions, WellFormed, EncodeAll, Splice;
    StripKeepsRest(p);
  }

  // Queries: one question, no answer and no authority records.

  ghost predicate IsQuery(p: seq<byte>) {
    |p| >= 12 && U16(p, 4) == 1 && U16(p, 6) == 0 && U16(p, 8) == 0 && QuestionEnd(p).Some?
  }

  lemma {:induction false} QueryStart(p: seq<byte>)
    requires IsQuery(p)
    ensures AdditionalStart(p) == QuestionEnd(p)
  {
    hide SkipQuestions, Records, RecordsEnd, SkipName;
    QuestionStep(p, 12, 1);
    var end := SkipName(p, 12).value;
    QuestionStep(p, end + 4, 0);
    RecordsStep(p, end + 4, 0);
  }

  /** On a query the two ways of finding the OPT record agree. */
  lemma {:induction false} LocateIsFind(p: seq<byte>)
    requires IsQuery(p)
    ensures FindOptRecord(p, QuestionEnd(p).value) ==
            match Locate(p) case Found(r) => Some(r) case _ => None
  {
    hide AdditionalStart, SearchOpt, QuestionEnd, ParseRr;
    QueryStart(p);
    var pos := QuestionEnd(p).value;
    if U16(p, 10) > 0 && pos >= |p| {
      SearchStep(p, pos, U16(p, 10));
      NothingBehind(p, pos);
    }
  }

  lemma {:induction false} NothingBehind(p: seq<byte>, pos: nat)
    requires pos >= |p|
    ensures ParseRr(p, pos) == None
  {
  }

  /** Rewriting the OPT record keeps a query a query. */
  lemma {:induction false} QueryKept(p: seq<byte>, q: seq<byte>, m: nat)
    requires IsQuery(p) && |q| >= 12 && Agree(p, q, 0, 10)
    requires Agree(p, q, 12, m) && QuestionEnd(p).value <= m
    ensures IsQuery(q) && QuestionEnd(q) == QuestionEnd(p)
  {
    hide SkipName;
    SkipNameSame(p, q, 12);
  }

  lemma {:induction false} FoundBehind(p: seq<byte>)
    requires IsQuery(p) && Locate(p).Found?
    ensures QuestionEnd(p).value <= Locate(p).rr.start
  {
    hide AdditionalStart, SearchOpt, QuestionEnd;
    QueryStart(p);
    SearchAfter(p, AdditionalStart(p).value, U16(p, 10));
  }

  lemma {:induction false} SearchAfter(p: seq<byte>, pos: nat, n: nat)
    requires SearchOpt(p, pos, n).Found?
    ensures pos <= SearchOpt(p, pos, n).rr.start
  {
  }

  ghost function VariantOf(p: seq<byte>): Variant
    requires IsQuery(p)
  {
    ExtractVariant(p, QuestionEnd(p).value)
  }

  /** The variant of a query with an OPT record, in terms of that record. */
  lemma {:induction false} VariantFound(p: seq<byte>)
    requires IsQuery(p) && Locate(p).Found?
    ensures var r, v := Locate(p).rr, VariantOf(p);
            && v.hasOpt && v.doBit == (p[r.fixed + 6] >= 0x80) && v.version == p[r.fixed + 5]
            && v.rd == (p[2] % 2 == 1) && v.ad == ((p[3] / 0x20) % 2 == 1) && v.cd == ((p[3] / 0x10) % 2 == 1)
            && v.ecs == EcsOf(OptionsAt(p, r)) && v.extra == ExtraOf(OptionsAt(p, r))
  {
    hide LooseOptions, EcsOf, ExtraOf, FindOptRecord, Locate;
    LocateIsFind(p);
  }

  /** A splice of the located record changes the variant only through the options. */
  lemma {:induction false} VariantSpliced(p: seq<byte>, os: seq<Opt>)
    requires IsQuery(p) && Locate(p).Found? && |EncodeAll(os)| < 0x1_0000
    ensures var q := Splice(p, Locate(p).rr, EncodeAll(os));
            && IsQuery(q) && QuestionEnd(q) == QuestionEnd(p)
            && VariantOf(q) == VariantOf(p).(ecs := EcsOf(os), extra := ExtraOf(os))
  {
    hide LooseOptions, EcsOf, ExtraOf, ExtractVariant, Locate, Splice, EncodeAll, QuestionEnd;
    var r, rd := Locate(p).rr, EncodeAll(os);
    var q := Splice(p, r, rd);
    SpliceAt(p, r, rd);
    LocateSpliced(p, rd);
    ReadBack(os);
    FoundBehind(p);
    QueryKept(p, q, r.fixed);
    VariantFound(p);
    VariantFound(q);
  }

  lemma {:induction false} ExtraDropped(os: seq<Opt>)
    ensures ExtraOf(NonEcs(os)) == ExtraOf(os)[ECS := 0]
  {
    hide ExtraOf, NonEcs, EcsOf;
    NonEcsData(os);
    var a, b := ExtraOf(NonEcs(os)), ExtraOf(os)[ECS := 0];
    assert forall c: u16 :: a[c] == b[c];
  }

  /** Stripping a query takes exactly the client subnet out of its variant. Only a subnet
      option too short to be one, counted among the other options, goes with it. */
  lemma {:induction false} StripVariant(p: seq<byte>)
    requires IsQuery(p) && Strip(p).Some?
    ensures var q := Strip(p).value;
            && IsQuery(q) && QuestionEnd(q) == QuestionEnd(p)
            && VariantOf(q) == VariantOf(p).(ecs := None, extra := VariantOf(p).extra[ECS := 0])
            && (VariantOf(q).extra == VariantOf(p).extra <==> !HasShortEcs(OptionsAt(p, Locate(p).rr)))
  {
    hide LooseOptions, EcsOf, ExtraOf, ExtractVariant, Locate, Splice, EncodeAll, QuestionEnd, NonEcs, HasEcs,
         HasShortEcs, WellFormed;
    var r := Locate(p).rr;
    var rd := p[r.rdata..r.end];
    var os := LooseOptions(rd, 0);
    LocateSize(p);
    KeptSame(rd);
    VariantSpliced(p, NonEcs(os));
    VariantFound(p);
    NonEcsData(os);
    ExtraDropped(os);
  }

  // Laws of injecting.

  /** The network a subnet stands for, as the query variant records it. */
  ghost function NetworkOf(s: Subnet): EcsSrc
    requires s.Valid()
  {
    var width := 8 * s.Bytes();
    var plen := MinNat(s.prefixLen, width);
    EcsSrc(Masked(PaddedValue(s.octets, s.Bytes()), width, plen), plen)
  }

  lemma {:induction false} BlockStartAdd(x: nat, w: nat, d: nat)
    requires d > 0
    ensures BlockStart(x * d + w, d) == x * d + BlockStart(w, d)
  {
    var q, t := w / d, w % d;
    assert w == q * d + t;
    assert x * d + w == (x + q) * d + t;
    DivUnique(x * d + w, d, x + q, t);
    assert (x + q) * d == x * d + q * d;
  }

  lemma {:induction false} PaddedBound(bytes: seq<byte>, n: nat)
    ensures PaddedValue(bytes, n) < Pow2(8 * n)
    decreases n
  {
    hide Pow2;
    Pow2Step(0);
    if n > 0 {
      var tail := if bytes == [] then [] else bytes[1..];
      PaddedBound(tail, n - 1);
      ByteStep(n - 1);
      var head := if bytes == [] then 0 else bytes[0];
      MulLe(head, 255, Pow2(8 * (n - 1)));
    }
  }

  lemma {:induction false} PaddedEmpty(n: nat)
    ensures PaddedValue([], n) == 0
    decreases n
  {
    if n > 0 { PaddedEmpty(n - 1); }
  }

  /** Sending only the first `k` octets clears the low bits of the address. */
  lemma {:induction false} PaddedPrefix(bytes: seq<byte>, k: nat, n: nat)
    requires |bytes| == n && k <= n
    ensures PaddedValue(bytes[..k], n) == BlockStart(PaddedValue(bytes, n), Pow2(8 * (n - k)))
    decreases n
  {
    hide Pow2, BlockStart;
    var d := Pow2(8 * (n - k));
    if k == 0 {
      PaddedEmpty(n);
      PaddedBound(bytes, n);
      BlockStartSmall(PaddedValue(bytes, n), d);
    } else {
      var tail := bytes[1..];
      assert bytes[..k][1..] == tail[..k - 1];
      PaddedPrefix(tail, k - 1, n - 1);
      Pow2Sum(8 * (k - 1), 8 * (n - k));
      var x := bytes[0] * Pow2(8 * (k - 1));
      assert bytes[0] * Pow2(8 * (n - 1)) == x * d by { MulAssoc(bytes[0], Pow2(8 * (k - 1)), d); }
      BlockStartAdd(x, PaddedValue(tail, n - 1), d);
    }
  }

  lemma {:induction false} MulAssoc(a: nat, b: nat, c: nat)
    ensures a * (b * c) == (a * b) * c
  {
  }

  lemma {:induction false} BlockStartSmall(w: nat, d: nat)
    requires w < d
    ensures BlockStart(w, d) == 0
  {
    DivUnique(w, d, 0, w);
  }

  /** The option carries its network: the octets left off are outside the prefix. */
  lemma {:induction false} SentNetwork(s: Subnet)
    requires s.Valid()
    ensures ParseEcs(EcsOption(s).data) == Some(NetworkOf(s))
  {
    hide PaddedValue, BlockStart, Pow2;
    var data := EcsOption(s).data;
    var n, k := s.Bytes(), SentBytes(s);
    var sent := s.octets[..k];
    assert data[4..] == sent && data[2] == s.prefixLen;
    assert U16(data, 0) == s.Family();
    assert sent[..MinNat(|sent|, n)] == sent;
    PaddedPrefix(s.octets, k, n);
    var plen := MinNat(s.prefixLen, 8 * n);
    var a := 8 * (n - k);
    var b := 8 * n - plen - a;
    BlockStartTwice(PaddedValue(s.octets, n), a, b);
    assert a + b == 8 * n - plen;
  }

  /** Injecting and then stripping gives back what stripping alone would leave; that is
      the packet itself exactly when it had no subnet and no bytes behind its options. */
  lemma {:induction false} InjectThenStrip(p: seq<byte>, s: Subnet)
    requires s.Valid() && Locate(p).Found? && Inject(p, s).Some?
    requires |Kept(p[Locate(p).rr.rdata..Locate(p).rr.end]).value| + |EncodeOpt(EcsOption(s))| < 0x1_0000
    ensures var r := Locate(p).rr; var os := OptionsAt(p, r);
            && Strip(Inject(p, s).value).Some?
            && var back := Strip(Inject(p, s).value).value;
               && (HasEcs(os) ==> Strip(p) == Some(back))
               && (back == p <==> !HasEcs(os) && |EncodeAll(os)| == r.end - r.rdata)
  {
    hide Locate, LooseOptions, WellFormed, NonEcs, HasEcs, EncodeAll, Splice, EncodeOpt, EcsOption;
    var r := Locate(p).rr;
    var rd := p[r.rdata..r.end];
    var os := LooseOptions(rd, 0);
    var kept := NonEcs(os);
    var more := kept + [EcsOption(s)];
    InjectedOptions(kept, EcsOption(s));
    IsEcsOption(s);
    ReadBack(more);
    LocateSize(p);
    KeptSame(rd);
    LocateSpliced(p, EncodeAll(more));
    SpliceAt(p, r, EncodeAll(more));
    SpliceSplice(p, r, EncodeAll(more), EncodeAll(kept));
    SpliceSame(p, r, EncodeAll(kept));
  }

  lemma {:induction false} IsEcsOption(s: Subnet)
    requires s.Valid()
    ensures EcsOption(s).code == ECS && IsEcs(EcsOption(s))
  {
  }

  lemma {:induction false} InjectedOptions(kept: seq<Opt>, o: Opt)
    ensures EncodeAll(kept + [o]) == EncodeAll(kept) + EncodeOpt(o)
    ensures !HasEcs(kept) && o.code == ECS ==> HasEcs(kept + [o]) && NonEcs(kept + [o]) == kept
  {
    assert (kept + [o])[..|kept|] == kept && (kept + [o])[|kept|] == o;
    if !HasEcs(kept) && o.code == ECS { NonEcsIdem(kept); }
  }

  /** A query with an OPT record keeps its variant but for the subnet, which is the
      injected network. */
  lemma {:induction false} InjectVariant(p: seq<byte>, s: Subnet)
    requires s.Valid() && IsQuery(p) && Locate(p).Found? && Inject(p, s).Some?
    requires |Kept(p[Locate(p).rr.rdata..Locate(p).rr.end]).value| + |EncodeOpt(EcsOption(s))| < 0x1_0000
    ensures var q := Inject(p, s).value;
            && IsQuery(q) && QuestionEnd(q) == QuestionEnd(p)
            && VariantOf(q) == VariantOf(p).(ecs := Some(NetworkOf(s)), extra := VariantOf(p).extra[ECS := 0])
  {
    hide LooseOptions, EcsOf, ExtraOf, ExtractVariant, Locate, Splice, EncodeAll, QuestionEnd, NonEcs, HasEcs,
         WellFormed, EncodeOpt, EcsOption, ParseEcs, NetworkOf;
    var r := Locate(p).rr;
    var os := OptionsAt(p, r);
    var kept := NonEcs(os);
    InjectedOptions(kept, EcsOption(s));
    IsEcsOption(s);
    SentNetwork(s);
    DataSnoc(kept, EcsOption(s));
    VariantSpliced(p, kept + [EcsOption(s)]);
    VariantFound(p);
    ExtraDropped(os);
  }

  /** The rewritten data fits for every query that is a DNS message at all. */
  lemma {:induction false} InjectFits(p: seq<byte>, s: Subnet)
    requires s.Valid() && IsQuery(p) && Locate(p).Found? && Inject(p, s).Some? && |p| <= 0xFFFF
    ensures |Kept(p[Locate(p).rr.rdata..Locate(p).rr.end]).value| + |EncodeOpt(EcsOption(s))| < 0x1_0000
  {
    hide Locate, LooseOptions, WellFormed, NonEcs, HasEcs, EncodeAll, Splice, EncodeOpt, EcsOption, QuestionEnd;
    var r := Locate(p).rr;
    KeptSame(p[r.rdata..r.end]);
    FoundBehind(p);
    EncodeSize(EcsOption(s));
    OptionSize(s);
  }

  /** Past 65535 bytes the length field keeps only the rest modulo 65536: the record found
      then holds fewer than 24 bytes, the start of the rewritten data. */
  lemma {:induction false} InjectOversized(p: seq<byte>, s: Subnet)
    requires s.Valid() && Locate(p).Found? && Inject(p, s).Some?
    requires |Kept(p[Locate(p).rr.rdata..Locate(p).rr.end]).value| + |EncodeOpt(EcsOption(s))| >= 0x1_0000
    ensures var r, q := Locate(p).rr, Inject(p, s).value;
            var rd := Kept(p[r.rdata..r.end]).value + EncodeOpt(EcsOption(s));
            var left := |rd| - 0x1_0000;
            && left < 24 && Locate(q) == Found(r.(end := r.rdata + left))
            && q[r.rdata..r.rdata + left] == rd[..left]
  {
    hide Locate, LooseOptions, WellFormed, NonEcs, HasEcs, EncodeAll, Splice, EncodeOpt, EcsOption;
    var r := Locate(p).rr;
    LocateSize(p);
    KeptSame(p[r.rdata..r.end]);
    EncodeSize(EcsOption(s));
    OptionSize(s);
    var rd := Kept(p[r.rdata..r.end]).value + EncodeOpt(EcsOption(s));
    LocateSpliced(p, rd);
    SpliceAt(p, r, rd);
    SliceStart(Splice(p, r, rd), r.rdata, |rd|, |rd| - 0x1_0000);
  }

  lemma {:induction false} SliceStart(q: seq<byte>, at: nat, n: nat, m: nat)
    requires m <= n && at + n <= |q|
    ensures q[at..at + m] == q[at..at + n][..m]
  {
  }

  // A packet without OPT record gets one behind its last byte.

  /** Where the last record of the packet ends. */
  ghost function SectionsEnd(p: seq<byte>): Option<nat>
    requires |p| >= 12
  {
    match AdditionalStart(p)
    case None => None
    case Some(pos) =>
      match Records(p, pos, U16(p, 10))
      case None => None
      case Some(rs) => Some(RecordsEnd(rs, pos))
  }

  /** Records without an OPT, read again in a longer packet, lead on to what follows. */
  lemma {:induction false} AbsentMore(p: seq<byte>, q: seq<byte>, pos: nat, n: nat)
    requires SearchOpt(p, pos, n) == Absent && Agree(p, q, pos, |p|)
    ensures Records(p, pos, n).Some?
    ensures SearchOpt(q, pos, n + 1) == SearchOpt(q, RecordsEnd(Records(p, pos, n).value, pos), 1)
    decreases n
  {
    hide SearchOpt, ParseRr;
    if n > 0 {
      SearchStep(p, pos, n);
      SearchStep(q, pos, n + 1);
      var r := ParseRr(p, pos).value;
      RrLength(p, pos);
      RrSame(p, q, pos, U16(p, r.fixed + 8));
      AbsentMore(p, q, r.end, n - 1);
      var rest := Records(p, r.end, n - 1).value;
      assert RecordsEnd([r] + rest, pos) == RecordsEnd(rest, r.end);
    }
  }

  ghost function FreshRecord(p: seq<byte>, s: Subnet): Rr
    requires s.Valid()
  {
    Rr(|p|, |p| + 1, OPT, 0, |p| + 11, |p| + 11 + |EncodeOpt(EcsOption(s))|)
  }

  lemma {:induction false} Appended(p: seq<byte>, s: Subnet)
    requires s.Valid() && Locate(p) == Absent
    ensures |p| >= 12 && Inject(p, s).Some?
    ensures var q := Inject(p, s).value;
            && |q| == |p| + 11 + |EncodeOpt(EcsOption(s))|
            && Agree(p, q, 0, 10) && Agree(p, q, 12, |p|)
            && U16(q, 10) == (U16(p, 10) + 1) % 0x1_0000
            && q[|p|..] == MinimalOpt(EcsOption(s))
  {
    LocateShort(p);
    var o := EcsOption(s);
    var head := WithArcount(p, (U16(p, 10) + 1) % 0x1_0000);
    var q := Inject(p, s).value;
    assert q == head + MinimalOpt(o);
    assert |head| == |p| && q[|p|..] == MinimalOpt(o);
  }

  lemma {:induction false} AppendedParses(p: seq<byte>, s: Subnet)
    requires s.Valid() && Locate(p) == Absent
    ensures var q, r := Inject(p, s).value, FreshRecord(p, s);
            && ParseRr(q, |p|) == Some(r)
            && q[r.fixed + 5] == 0 && q[r.fixed + 6] == 0 && q[r.rdata..r.end] == EncodeOpt(EcsOption(s))
  {
    hide Inject, MinimalOpt, EncodeOpt, EcsOption, ParseRr, U16, U32, Be16, Be32, Agree;
    Appended(p, s);
    var q, o, n := Inject(p, s).value, EcsOption(s), |p|;
    EncodeSize(o);
    OptionSize(s);
    MinimalBytes(o);
    MinimalAt(q, n, MinimalOpt(o));
    RootRr(q, n);
    assert q[n + 11..|q|] == q[n + 11..];
  }

  lemma {:induction false} RootRr(q: seq<byte>, n: nat)
    requires n + 11 <= |q| && q[n] == 0 && n + 11 + U16(q, n + 9) <= |q|
    ensures ParseRr(q, n) == Some(Rr(n, n + 1, U16(q, n + 1), U32(q, n + 5), n + 11, n + 11 + U16(q, n + 9)))
  {
  }

  lemma {:induction false} OptionSize(s: Subnet)
    requires s.Valid()
    ensures |EcsOption(s).data| <= 20
  {
  }

  lemma {:induction false} MinimalAt(q: seq<byte>, n: nat, m: seq<byte>)
    requires n <= |q| && q[n..] == m && |m| >= 11
    ensures q[n] == m[0] && q[n + 6] == m[6] && q[n + 7] == m[7]
    ensures U16(q, n + 1) == U16(m, 1) && U32(q, n + 5) == U32(m, 5) && U16(q, n + 9) == U16(m, 9)
    ensures q[n + 11..] == m[11..]
  {
    assert q[n + 11..] == q[n..][11..];
    forall j | 0 <= j < 11 ensures q[n + j] == m[j] { assert q[n..][j] == m[j]; }
  }

  lemma {:induction false} MinimalBytes(o: Opt)
    requires |o.data| <= 20
    ensures var m := MinimalOpt(o);
            && m[0] == 0 && U16(m, 1) == OPT && m[6] == 0 && m[7] == 0 && U32(m, 5) == 0
            && U16(m, 9) == |EncodeOpt(o)| && m[11..] == EncodeOpt(o)
  {
    var m := MinimalOpt(o);
    var fixed := [0] + Be16(OPT) + Be16(4096) + Be32(0) + Be16((4 + |o.data|) % 0x1_0000);
    assert m == fixed + EncodeOpt(o) && |fixed| == 11;
    assert fixed[9..11] == Be16(4 + |o.data|) && fixed[1..3] == Be16(OPT) && fixed[5..9] == Be32(0);
    assert m[9] == fixed[9..11][0] && m[10] == fixed[9..11][1];
    assert m[1] == fixed[1..3][0] && m[2] == fixed[1..3][1];
    assert m[5] == fixed[5..9][0] && m[6] == fixed[5..9][1] && m[7] == fixed[5..9][2] && m[8] == fixed[5..9][3];
  }

  /** The appended record is found exactly when the count of records can still grow and
      no stray bytes lie between it and the record before. */
  lemma {:induction false} AppendedFound(p: seq<byte>, s: Subnet)
    requires s.Valid() && Locate(p) == Absent
    ensures |p| >= 12
    ensures Locate(Inject(p, s).value) == Found(FreshRecord(p, s)) <==>
            U16(p, 10) < 0xFFFF && SectionsEnd(p) == Some(|p|)
  {
    hide Inject, SearchOpt, AdditionalStart, FreshRecord, ParseRr, Records, MinimalOpt;
    Appended(p, s);
    AppendedParses(p, s);
    var q, r, ar := Inject(p, s).value, FreshRecord(p, s), U16(p, 10);
    FreshStart(p, s);
    if Locate(q) == Found(r) {
      SearchAfter(q, AdditionalStart(q).value, U16(q, 10));
      StartSame(q, p);
      AppendedLast(p, q, AdditionalStart(p).value, ar);
    }
    if ar < 0xFFFF && SectionsEnd(p) == Some(|p|) {
      var pos := AdditionalStart(p).value;
      RecordsEndAfter(p, pos, Records(p, pos, ar).value);
      StartSame(p, q);
      AppendedLast(p, q, pos, ar);
    }
  }

  lemma {:induction false} FreshStart(p: seq<byte>, s: Subnet)
    requires s.Valid()
    ensures FreshRecord(p, s).start == |p| && FreshRecord(p, s).rrType == OPT
  {
  }

  /** Where the search of the longer packet ends up. */
  lemma {:induction false} AppendedLast(p: seq<byte>, q: seq<byte>, pos: nat, ar: nat)
    requires |p| >= 12 && Locate(p) == Absent && AdditionalStart(p) == Some(pos) && ar == U16(p, 10)
    requires Agree(p, q, pos, |p|) && ParseRr(q, |p|).Some? && ParseRr(q, |p|).value.rrType == OPT
    ensures Records(p, pos, ar).Some?
    ensures var e := RecordsEnd(Records(p, pos, ar).value, pos);
            && (e == |p| ==> SearchOpt(q, pos, ar + 1) == Found(ParseRr(q, |p|).value))
            && (SearchOpt(q, pos, ar + 1).Found? ==> SearchOpt(q, pos, ar + 1).rr.start == e)
  {
    hide SearchOpt, AdditionalStart, ParseRr, Records, RecordsEnd;
    if ar == 0 { SearchEnd(p, pos); }
    AbsentMore(p, q, pos, ar);
    var e := RecordsEnd(Records(p, pos, ar).value, pos);
    SearchStep(q, e, 1);
    if ParseRr(q, e).Some? {
      RrStart(q, e);
      SearchEnd(q, ParseRr(q, e).value.end);
    }
  }

  /** A query without OPT record becomes one with the injected network and no other
      difference in its variant. */
  lemma {:induction false} AppendedVariant(p: seq<byte>, s: Subnet)
    requires s.Valid() && IsQuery(p) && Locate(p) == Absent
    requires U16(p, 10) < 0xFFFF && SectionsEnd(p) == Some(|p|)
    ensures var q := Inject(p, s).value;
            && IsQuery(q) && QuestionEnd(q) == QuestionEnd(p)
            && VariantOf(q) == VariantOf(p).(hasOpt := true, ecs := Some(NetworkOf(s)))
  {
    hide LooseOptions, EcsOf, ExtraOf, Locate, EncodeAll, QuestionEnd, EncodeOpt, EcsOption, ParseEcs, NetworkOf,
         Inject, SectionsEnd, FindOptRecord;
    Appended(p, s);
    var q, r, o := Inject(p, s).value, FreshRecord(p, s), EcsOption(s);
    AppendedParses(p, s);
    AppendedFound(p, s);
    QueryKept(p, q, |p|);
    LocateIsFind(p);
    VariantFound(q);
    InjectedOptions([], o);
    assert [] + [o] == [o] && EncodeAll([]) + EncodeOpt(o) == EncodeOpt(o) by { EmptyKept(); NoneKept(); }
    ReadBack([o]);
    DataSnoc([], o);
    DataNone();
    IsEcsOption(s);
    SentNetwork(s);
  }

  lemma {:induction false} NoneKept()
    ensures EncodeAll([]) == []
  {
  }

  // Networks of the two address families.

  /** Whatever subnet options two queries carry, their variants tell an IPv4 network from an
      IPv6 one unless both are all zeros with the same prefix length. */
  lemma {:induction false} FamiliesApart(a: seq<byte>, b: seq<byte>)
    requires |a| >= 4 && |b| >= 4 && U16(a, 0) == 1 && U16(b, 0) == 2
    ensures ParseEcs(a).Some? && ParseEcs(b).Some?
    ensures ParseEcs(a) == ParseEcs(b) <==>
            && MinNat(a[2], 32) == MinNat(b[2], 128)
            && ParseEcs(a).value.addr == 0 == ParseEcs(b).value.addr
  {
    hide PaddedValue, BlockStart, Pow2, U16;
    var pa, pb := MinNat(a[2], 32), MinNat(b[2], 128);
    if pa == pb {
      var u, v := a[4..][..MinNat(|a[4..]|, 4)], b[4..][..MinNat(|b[4..]|, 16)];
      PaddedBound(u, 4);
      BlockStartLe(PaddedValue(u, 4), Pow2(32 - pa));
      Pow2Sum(96, 32 - pb);
      Pow2Sum(32, 64);
      BlockStartMultiple(PaddedValue(v, 16), Pow2(96), Pow2(32 - pb));
    }
  }
}
