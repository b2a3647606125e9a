/** Removing and adding client subnets, said of whole messages as they are written: which
    message the rewritten bytes are (`src/dns/ecs.rs`, RFC 7871). */
module SubnetWritten {
  import opened Prelude
  import opened Wire
  import opened Edns
  import opened Ecs
  import opened Message
  import opened OptWritten

  // Where the records of a message stand.

  datatype Question = Question(name: Name, qtype: u16, qclass: u16)

  predicate QuestionsOk(qs: seq<Question>) {
    forall i :: 0 <= i < |qs| ==> NameOk(qs[i].name)
  }

  function QuestionsBytes(qs: seq<Question>): seq<byte>
    requires QuestionsOk(qs)
  {
    if qs == [] then []
    else
      var q := qs[0];
      NameBytes(q.name) + [q.qtype / 0x100, q.qtype % 0x100, q.qclass / 0x100, q.qclass % 0x100]
      + QuestionsBytes(qs[1..])
  }

  /** A message with these questions. */
  ghost predicate Asks(m: Message, qs: seq<Question>) {
    MessageOk(m) && QuestionsOk(qs) && m.questions == |qs| && m.question == QuestionsBytes(qs)
  }

  lemma {:induction false} QuestionsSkipped(p: seq<byte>, pos: nat, qs: seq<Question>)
    requires QuestionsOk(qs) && At(p, pos, QuestionsBytes(qs))
    ensures SkipQuestions(p, pos, |qs|) == Some(pos + |QuestionsBytes(qs)|)
    decreases |qs|
  {
    hide NameBytes, At, SkipName;
    if qs != [] {
      var q := qs[0];
      var name, rest := NameBytes(q.name), QuestionsBytes(qs[1..]);
      var four := [q.qtype / 0x100, q.qtype % 0x100, q.qclass / 0x100, q.qclass % 0x100];
      AtCat(p, pos, name + four, rest);
      AtCat(p, pos, name, four);
      AtWithin(p, pos + |name|, four);
      NameWritten(p, pos, q.name);
      QuestionsSkipped(p, pos + |name| + 4, qs[1..]);
    }
  }

  lemma {:induction false} AllBytesCat(a: seq<Record>, b: seq<Record>)
    requires RecordsOk(a) && RecordsOk(b)
    ensures AllBytes(a + b) == AllBytes(a) + AllBytes(b)
    decreases |a|
  {
    hide RecordBytes;
    if a == [] {
      assert a + b == b;
    } else {
      assert (a + b)[0] == a[0] && (a + b)[1..] == a[1..] + b;
      AllBytesCat(a[1..], b);
    }
  }

  /** The records in front of the additional section. */
  function Front(m: Message): seq<Record> {
    m.answers + m.authority
  }

  function AdditionalAt(m: Message): nat
    requires MessageOk(m)
  {
    AnswersStart(m) + |AllBytes(Front(m))|
  }

  lemma {:induction false} PlacedEnds(rs: seq<Record>, pos: nat)
    requires RecordsOk(rs)
    ensures RecordsEnd(PlacedAll(rs, pos), pos) == pos + |AllBytes(rs)|
    decreases |rs|
  {
    hide RecordBytes, Placed, RecordsEnd;
    if rs == [] {
      NothingEnds(pos);
    } else {
      var next := pos + |RecordBytes(rs[0])|;
      PlacedEnd(rs[0], pos);
      PlacedEnds(rs[1..], next);
      ConsEnds(Placed(rs[0], pos), PlacedAll(rs[1..], next), pos);
    }
  }

  lemma {:induction false} NothingEnds(pos: nat)
    ensures RecordsEnd([], pos) == pos
  {
  }

  lemma {:induction false} ConsEnds(r: Rr, rest: seq<Rr>, pos: nat)
    ensures RecordsEnd([r] + rest, pos) == RecordsEnd(rest, r.end)
  {
  }

  /** The bytes of a message in three parts. */
  lemma {:induction false} MessageParts(m: Message)
    requires MessageOk(m)
    ensures var p := MessageBytes(m);
            && p == HeaderBytes(m) + m.question + AllBytes(Front(m)) + AllBytes(m.additional)
            && At(p, 12, m.question) && At(p, AnswersStart(m), AllBytes(Front(m)))
            && At(p, AdditionalAt(m), AllBytes(m.additional)) && |p| == AdditionalAt(m) + |AllBytes(m.additional)|
  {
    hide HeaderBytes, AllBytes, RecordBytes;
    var h, a, b := HeaderBytes(m), AllBytes(Front(m)), AllBytes(m.additional);
    AllBytesCat(Front(m), m.additional);
    var p := MessageBytes(m);
    assert p == h + m.question + a + b;
    assert p[12..12 + |m.question|] == m.question;
    assert p[AnswersStart(m)..AdditionalAt(m)] == a;
    assert p[AdditionalAt(m)..] == b;
  }

  lemma {:induction false} AdditionalStarts(m: Message, qs: seq<Question>)
    requires Asks(m, qs)
    ensures |MessageBytes(m)| >= 12 && U16(MessageBytes(m), 10) == |m.additional|
    ensures AdditionalStart(MessageBytes(m)) == Some(AdditionalAt(m))
  {
    hide HeaderBytes, AllBytes, RecordBytes, PlacedAll, Records, SkipQuestions, QuestionsBytes, At, HasFlags,
         MessageBytes, RecordsEnd, U16;
    MessageParts(m);
    MessageRead(m);
    var p := MessageBytes(m);
    CountRead(m);
    QuestionsSkipped(p, 12, qs);
    RecordsWritten(p, AnswersStart(m), Front(m));
    PlacedEnds(Front(m), AnswersStart(m));
  }

  lemma {:induction false} CountRead(m: Message)
    requires MessageOk(m)
    ensures |MessageBytes(m)| >= 12 && U16(MessageBytes(m), 4) == m.questions
  {
    hide HeaderBytes, AllBytes, U16;
    var all := m.answers + m.authority + m.additional;
    HeaderRead(m, m.question + AllBytes(all));
    assert MessageBytes(m) == HeaderBytes(m) + (m.question + AllBytes(all));
  }

  /** The OPT record is found where the first one of the additional section stands. */
  lemma {:induction false} LocateWritten(m: Message, qs: seq<Question>, k: nat)
    requires Asks(m, qs) && FirstOpt(m, k)
    ensures Locate(MessageBytes(m)) == Found(PlacedAll(m.additional, AdditionalAt(m))[k])
  {
    hide AllBytes, RecordBytes, PlacedAll, AdditionalStart, SearchOpt, At, MessageBytes, U16, QuestionsBytes;
    AdditionalStarts(m, qs);
    MessageParts(m);
    SearchFinds(MessageBytes(m), AdditionalAt(m), m.additional, k);
  }

  lemma {:induction false} LocateNone(m: Message, qs: seq<Question>)
    requires Asks(m, qs) && forall i :: 0 <= i < |m.additional| ==> m.additional[i].rrType != 41
    ensures Locate(MessageBytes(m)) == Absent
  {
    hide AllBytes, RecordBytes, AdditionalStart, SearchOpt, At, MessageBytes, U16, QuestionsBytes;
    AdditionalStarts(m, qs);
    MessageParts(m);
    SearchFindsNone(MessageBytes(m), AdditionalAt(m), m.additional);
  }

  // Changing the data of one record.

  /** The message with other data in its additional record `k`. */
  function WithData(m: Message, k: nat, data: seq<byte>): Message
    requires k < |m.additional|
  {
    m.(additional := m.additional[k := m.additional[k].(data := data)])
  }

  lemma {:induction false} WithDataOk(m: Message, k: nat, data: seq<byte>)
    requires MessageOk(m) && k < |m.additional| && |data| < 0x1_0000
    ensures MessageOk(WithData(m, k, data)) && HeaderBytes(WithData(m, k, data)) == HeaderBytes(m)
  {
    var n := WithData(m, k, data);
    forall i | 0 <= i < |n.additional| ensures RecordOk(n.additional[i]) { assert RecordOk(m.additional[i]); }
  }

  /** A message around its additional record `k`. */
  lemma {:induction false} AroundRecord(m: Message, k: nat)
    requires MessageOk(m) && k < |m.additional|
    ensures RecordsOk(m.additional[..k]) && RecordsOk(m.additional[k + 1..]) && RecordOk(m.additional[k])
    ensures MessageBytes(m) ==
            HeaderBytes(m) + m.question + AllBytes(Front(m)) + AllBytes(m.additional[..k]) +
            RecordBytes(m.additional[k]) + AllBytes(m.additional[k + 1..])
    ensures PlacedAll(m.additional, AdditionalAt(m))[k] ==
            Placed(m.additional[k], AdditionalAt(m) + |AllBytes(m.additional[..k])|)
  {
    hide HeaderBytes, RecordBytes, AllBytes, PlacedAll, Placed;
    MessageParts(m);
    var before, r, after := m.additional[..k], m.additional[k], m.additional[k + 1..];
    assert m.additional == before + ([r] + after);
    AllBytesCat(before, [r] + after);
    AllBytesCat([r], after);
    OneRecord(r);
    PlaceOf(m.additional, AdditionalAt(m), k);
    var a, b, c := HeaderBytes(m) + m.question + AllBytes(Front(m)), AllBytes(before), RecordBytes(r) + AllBytes(after);
    assert a + (b + c) == a + b + RecordBytes(r) + AllBytes(after);
  }

  lemma {:induction false} OneRecord(r: Record)
    requires RecordOk(r)
    ensures RecordsOk([r]) && AllBytes([r]) == RecordBytes(r)
  {
    hide RecordBytes;
    assert [r][1..] == [] && AllBytes([]) == [];
  }

  lemma {:induction false} PlaceOf(rs: seq<Record>, pos: nat, k: nat)
    requires RecordsOk(rs) && k < |rs|
    ensures PlacedAll(rs, pos)[k] == Placed(rs[k], pos + |AllBytes(rs[..k])|)
    decreases k
  {
    hide RecordBytes, Placed;
    if k > 0 {
      PlaceOf(rs[1..], pos + |RecordBytes(rs[0])|, k - 1);
      assert rs[1..][..k - 1] == rs[..k][1..];
    }
  }

  lemma {:induction false} FixedKept(r: Record, data: seq<byte>)
    requires RecordOk(r) && |data| < 0x1_0000
    ensures FixedBytes(r.(data := data)) == FixedBytes(r)[..8] + Be16(|data|)
  {
  }

  lemma {:induction false} SpliceParts(a: seq<byte>, name: seq<byte>, fixed: seq<byte>, data: seq<byte>, b: seq<byte>)
    requires |fixed| == 10
    ensures var p, n := a + (name + fixed + data) + b, |a| + |name|;
            && p[..n + 8] == a + name + fixed[..8]
            && p[n + 10..n + 10 + |data|] == data && p[n + 10 + |data|..] == b
  {
    var p := a + (name + fixed + data) + b;
    assert p == (a + name + fixed[..8]) + (fixed[8..] + data + b);
    assert p == (a + name + fixed) + data + b;
  }

  /** Splicing data into the OPT record of a message gives the message with that data. */
  lemma {:induction false} SpliceWritten(m: Message, k: nat, data: seq<byte>)
    requires MessageOk(m) && k < |m.additional| && |data| < 0x1_0000
    ensures var p, x := MessageBytes(m), PlacedAll(m.additional, AdditionalAt(m))[k];
            && RrFits(p, x.start, x) && p[x.rdata..x.end] == m.additional[k].data
            && MessageOk(WithData(m, k, data)) && Splice(p, x, data) == MessageBytes(WithData(m, k, data))
  {
    hide HeaderBytes, AllBytes, PlacedAll, NameBytes, FixedBytes, MessageBytes, Be16;
    var p, n, r := MessageBytes(m), WithData(m, k, data), m.additional[k];
    WithDataOk(m, k, data);
    AroundRecord(m, k);
    AroundRecord(n, k);
    assert n.additional[..k] == m.additional[..k] && n.additional[k + 1..] == m.additional[k + 1..];
    var a := HeaderBytes(m) + m.question + AllBytes(Front(m)) + AllBytes(m.additional[..k]);
    var b := AllBytes(m.additional[k + 1..]);
    var name := NameBytes(r.name);
    assert |a| == AdditionalAt(m) + |AllBytes(m.additional[..k])|;
    SpliceParts(a, name, FixedBytes(r), r.data, b);
    FixedKept(r, data);
    assert p == a + (name + FixedBytes(r) + r.data) + b;
    assert MessageBytes(n) == a + (name + FixedBytes(n.additional[k]) + data) + b;
    NameSome(r.name);
  }

  lemma {:induction false} NameSome(n: Name)
    requires NameOk(n)
    ensures |NameBytes(n)| > 0
  {
  }

  // The options that stay.

  /** The options but for client subnets, in order. */
  function Others(os: seq<Opt>): seq<Opt> {
    if os == [] then [] else (if os[0].code == 8 then [] else [os[0]]) + Others(os[1..])
  }

  lemma {:induction false} OthersSnoc(os: seq<Opt>, o: Opt)
    ensures Others(os + [o]) == Others(os) + (if o.code == 8 then [] else [o])
    decreases |os|
  {
    if os == [] {
      assert os + [o] == [o] && [o][1..] == [];
    } else {
      assert (os + [o])[1..] == os[1..] + [o];
      OthersSnoc(os[1..], o);
    }
  }

  lemma {:induction false} NonEcsIs(os: seq<Opt>)
    ensures NonEcs(os) == Others(os)
    decreases |os|
  {
    if os != [] {
      var front, last := os[..|os| - 1], os[|os| - 1];
      NonEcsIs(front);
      OthersSnoc(front, last);
      assert os == front + [last];
    }
  }

  lemma {:induction false} OptionBytesAre(o: Opt)
    ensures EncodeOpt(o) == OptionBytes(o)
  {
  }

  lemma {:induction false} OptionsBytesSnoc(os: seq<Opt>, o: Opt)
    ensures OptionsBytes(os + [o]) == OptionsBytes(os) + OptionBytes(o)
    decreases |os|
  {
    hide OptionBytes;
    if os == [] {
      assert os + [o] == [o] && [o][1..] == [];
    } else {
      assert (os + [o])[0] == os[0] && (os + [o])[1..] == os[1..] + [o];
      OptionsBytesSnoc(os[1..], o);
    }
  }

  lemma {:induction false} EncodeAllIs(os: seq<Opt>)
    ensures EncodeAll(os) == OptionsBytes(os)
    decreases |os|
  {
    hide EncodeOpt, OptionBytes;
    if os != [] {
      var front, last := os[..|os| - 1], os[|os| - 1];
      EncodeAllIs(front);
      OptionBytesAre(last);
      OptionsBytesSnoc(front, last);
      assert os == front + [last];
    }
  }

  lemma {:induction false} OthersShorter(os: seq<Opt>)
    ensures |OptionsBytes(Others(os))| <= |OptionsBytes(os)|
    decreases |os|
  {
    hide OptionBytes;
    if os != [] {
      OthersShorter(os[1..]);
      if os[0].code != 8 {
        assert Others(os)[0] == os[0] && Others(os)[1..] == Others(os[1..]);
      } else {
        assert Others(os) == Others(os[1..]);
      }
    }
  }

  ghost predicate HasSubnet(os: seq<Opt>) {
    exists i :: 0 <= i < |os| && os[i].code == 8
  }

  /** The data of a message's first OPT record is these options and at most three bytes. */
  ghost predicate Carries(m: Message, k: nat, os: seq<Opt>) {
    FirstOpt(m, k) && exists stray: seq<byte> :: |stray| < 4 && m.additional[k].data == OptionsBytes(os) + stray
  }

  lemma {:induction false} KeptWritten(m: Message, k: nat, os: seq<Opt>)
    requires MessageOk(m) && Carries(m, k, os)
    ensures var rd := m.additional[k].data;
            Kept(rd) == Some(OptionsBytes(Others(os))) && LooseOptions(rd, 0) == os && (HasEcs(os) <==> HasSubnet(os))
    ensures |OptionsBytes(Others(os))| < 0x1_0000
  {
    hide LooseOptions, WellFormed, OptionsBytes, EncodeAll, NonEcs, Others;
    OptionsExact(m.additional[k].data, os);
    NonEcsIs(os);
    EncodeAllIs(Others(os));
    OthersShorter(os);
    assert RecordOk(m.additional[k]);
  }

  /** Stripping gives the same message with the subnets taken out of its OPT record, and
      nothing when there are none. */
  lemma {:induction false} StripWritten(m: Message, qs: seq<Question>, k: nat, os: seq<Opt>)
    requires Asks(m, qs) && Carries(m, k, os)
    ensures MessageOk(WithData(m, k, OptionsBytes(Others(os))))
    ensures Strip(MessageBytes(m)) ==
            if HasSubnet(os) then Some(MessageBytes(WithData(m, k, OptionsBytes(Others(os))))) else None
  {
    hide MessageBytes, PlacedAll, Locate, Kept, LooseOptions, OptionsBytes, Others, Splice, HasEcs, QuestionsBytes,
         WithData;
    LocateWritten(m, qs, k);
    KeptWritten(m, k, os);
    SpliceWritten(m, k, OptionsBytes(Others(os)));
  }

  lemma {:induction false} NothingKept(m: Message, k: nat)
    requires FirstOpt(m, k) && forall os: seq<Opt> :: !Carries(m, k, os)
    ensures Kept(m.additional[k].data) == None
  {
    hide LooseOptions, WellFormed, OptionsBytes;
    var rd := m.additional[k].data;
    OptionsExact(rd, LooseOptions(rd, 0));
    assert !Carries(m, k, LooseOptions(rd, 0));
  }

  /** A message whose OPT data is no list of options is neither stripped nor given a subnet. */
  lemma {:induction false} BrokenWritten(m: Message, qs: seq<Question>, k: nat, s: Subnet)
    requires Asks(m, qs) && FirstOpt(m, k) && (forall os: seq<Opt> :: !Carries(m, k, os)) && s.Valid()
    ensures Strip(MessageBytes(m)) == None && Inject(MessageBytes(m), s) == None
  {
    hide MessageBytes, PlacedAll, Locate, Kept, LooseOptions, Splice, HasEcs, QuestionsBytes, WithData, Carries,
         EcsOption;
    LocateWritten(m, qs, k);
    NothingKept(m, k);
    SpliceWritten(m, k, []);
  }

  // Adding a subnet.

  /** `n` octets are enough for the prefix, and no fewer are. */
  ghost predicate Enough(s: Subnet, n: nat) {
    var bits := if s.prefixLen <= 8 * |s.octets| then s.prefixLen as nat else 8 * |s.octets|;
    bits <= 8 * n < bits + 8
  }

  /** The option for a subnet: family, prefix length, a zero byte and the octets. */
  function SubnetOption(s: Subnet, n: nat): Opt
    requires n <= |s.octets| <= 16
  {
    Opt(8, [0, if s.V4? then 1 else 2, s.prefixLen, 0] + s.octets[..n])
  }

  lemma {:induction false} OptionSent(s: Subnet) returns (n: nat)
    requires s.Valid()
    ensures n <= |s.octets| <= 16 && Enough(s, n) && EcsOption(s) == SubnetOption(s, n)
  {
    n := SentBytes(s);
  }

  lemma {:induction false} SubnetSize(s: Subnet, n: nat)
    requires n <= |s.octets| <= 16
    ensures |OptionBytes(SubnetOption(s, n))| == 8 + n
  {
  }

  /** A subnet is put into the OPT record in place of those that were there. */
  lemma {:induction false} InjectWritten(m: Message, qs: seq<Question>, k: nat, os: seq<Opt>, s: Subnet)
    returns (n: nat)
    requires Asks(m, qs) && Carries(m, k, os) && s.Valid() && |m.additional[k].data| + 24 < 0x1_0000
    ensures n <= |s.octets| <= 16 && Enough(s, n)
    ensures var data := OptionsBytes(Others(os) + [SubnetOption(s, n)]);
            && MessageOk(WithData(m, k, data))
            && Inject(MessageBytes(m), s) == Some(MessageBytes(WithData(m, k, data)))
  {
    hide MessageBytes, PlacedAll, Locate, Kept, LooseOptions, OptionsBytes, Others, Splice, HasEcs, QuestionsBytes,
         WithData, EcsOption, SubnetOption, Enough, OptionBytes, EncodeOpt;
    n := OptionSent(s);
    var o := SubnetOption(s, n);
    LocateWritten(m, qs, k);
    KeptWritten(m, k, os);
    OptionsBytesSnoc(Others(os), o);
    OptionBytesAre(o);
    SubnetSize(s, n);
    OthersFit(m, k, os);
    SpliceWritten(m, k, OptionsBytes(Others(os) + [o]));
  }

  lemma {:induction false} OthersFit(m: Message, k: nat, os: seq<Opt>)
    requires Carries(m, k, os)
    ensures |OptionsBytes(Others(os))| <= |m.additional[k].data|
  {
    hide OptionsBytes, Others;
    OthersShorter(os);
  }

  /** Without an OPT record, one with just the subnet is added behind everything else. */
  lemma {:induction false} InjectAppends(m: Message, qs: seq<Question>, s: Subnet) returns (n: nat)
    requires Asks(m, qs) && s.Valid() && |m.additional| + 1 < 0x1_0000
    requires forall i :: 0 <= i < |m.additional| ==> m.additional[i].rrType != 41
    ensures n <= |s.octets| <= 16 && Enough(s, n)
    ensures var opt := Record(Name([], Root), 41, 4096, 0, OptionBytes(SubnetOption(s, n)));
            && MessageOk(m.(additional := m.additional + [opt]))
            && Inject(MessageBytes(m), s) == Some(MessageBytes(m.(additional := m.additional + [opt])))
  {
    hide MessageBytes, Locate, QuestionsBytes, EcsOption, SubnetOption, Enough, OptionBytes, MinimalOpt, U16;
    n := OptionSent(s);
    var o := SubnetOption(s, n);
    LocateNone(m, qs);
    SubnetSize(s, n);
    var opt := Record(Name([], Root), 41, 4096, 0, OptionBytes(o));
    MinimalWritten(o);
    AdditionalStarts(m, qs);
    AppendWritten(m, opt);
  }

  lemma {:induction false} MinimalWritten(o: Opt)
    requires |OptionBytes(o)| < 0x1_0000
    ensures RecordOk(Record(Name([], Root), 41, 4096, 0, OptionBytes(o)))
    ensures MinimalOpt(o) == RecordBytes(Record(Name([], Root), 41, 4096, 0, OptionBytes(o)))
  {
    var r := Record(Name([], Root), 41, 4096, 0, OptionBytes(o));
    OptionBytesAre(o);
    EndRead(Root);
    assert FixedBytes(r) == Be16(OPT) + Be16(4096) + Be32(0) + Be16((4 + |o.data|) % 0x1_0000);
  }

  lemma {:induction false} AppendWritten(m: Message, r: Record)
    requires MessageOk(m) && RecordOk(r) && |m.additional| + 1 < 0x1_0000
    ensures var n := m.(additional := m.additional + [r]);
            && MessageOk(n) && |MessageBytes(m)| >= 12
            && MessageBytes(n) == WithArcount(MessageBytes(m), |m.additional| + 1) + RecordBytes(r)
  {
    hide AllBytes, RecordBytes, HeaderBytes;
    var n := m.(additional := m.additional + [r]);
    forall i | 0 <= i < |n.additional| ensures RecordOk(n.additional[i]) {
      if i < |m.additional| { assert RecordOk(m.additional[i]); }
    }
    MessageParts(m);
    MessageParts(n);
    OneRecord(r);
    AllBytesCat(m.additional, [r]);
    CountRaised(m, n);
    var rest := m.question + AllBytes(Front(m)) + AllBytes(m.additional);
    assert MessageBytes(m) == HeaderBytes(m) + rest;
    assert MessageBytes(n) == HeaderBytes(n) + rest + RecordBytes(r);
    assert WithArcount(MessageBytes(m), |m.additional| + 1) ==
           HeaderBytes(m)[..10] + Be16(|m.additional| + 1) + rest;
  }

  lemma {:induction false} CountRaised(m: Message, n: Message)
    requires MessageOk(m) && MessageOk(n) && n == m.(additional := n.additional)
    ensures HeaderBytes(n) == HeaderBytes(m)[..10] + Be16(|n.additional|)
  {
  }
}
