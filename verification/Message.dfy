/** Whole responses as they are written (section 4.1 of RFC 1035), and the lifetime the scan
    of `src/dns/ttl.rs` finds in them. */
module Message {
  import opened Prelude
  import opened Wire
  import opened Ttl

  datatype Message = Message(
    id: u16, flags: Flags, questions: u16, question: seq<byte>,
    answers: seq<Record>, authority: seq<Record>, additional: seq<Record>)

  predicate RecordsOk(rs: seq<Record>) {
    forall i :: 0 <= i < |rs| ==> RecordOk(rs[i])
  }

  predicate MessageOk(m: Message) {
    && m.flags.opcode < 16 && m.flags.rcode < 16
    && |m.answers| < 0x1_0000 && |m.authority| < 0x1_0000 && |m.additional| < 0x1_0000
    && RecordsOk(m.answers) && RecordsOk(m.authority) && RecordsOk(m.additional)
  }

  function HeaderBytes(m: Message): (s: seq<byte>)
    requires MessageOk(m)
    ensures |s| == 12
  {
    var f, an, ns, ar := m.flags, |m.answers|, |m.authority|, |m.additional|;
    [m.id / 0x100, m.id % 0x100,
     Weight(f.qr, 0x80) + 8 * f.opcode + Weight(f.aa, 4) + Weight(f.tc, 2) + Weight(f.rd, 1),
     Weight(f.ra, 0x80) + Weight(f.z, 0x40) + Weight(f.ad, 0x20) + Weight(f.cd, 0x10) + f.rcode,
     m.questions / 0x100, m.questions % 0x100, an / 0x100, an % 0x100, ns / 0x100, ns % 0x100, ar / 0x100, ar % 0x100]
  }

  function AllBytes(rs: seq<Record>): seq<byte>
    requires RecordsOk(rs)
  {
    if rs == [] then [] else RecordBytes(rs[0]) + AllBytes(rs[1..])
  }

  function MessageBytes(m: Message): seq<byte>
    requires MessageOk(m)
  {
    HeaderBytes(m) + m.question + AllBytes(m.answers + m.authority + m.additional)
  }

  function AnswersStart(m: Message): nat {
    12 + |m.question|
  }

  // What is read.

  function PlacedAll(rs: seq<Record>, pos: nat): (r: seq<Rr>)
    requires RecordsOk(rs)
    ensures |r| == |rs|
  {
    if rs == [] then [] else [Placed(rs[0], pos)] + PlacedAll(rs[1..], pos + |RecordBytes(rs[0])|)
  }

  /** Record `i` of a run of records stands at the place it is read from. */
  lemma {:induction false} PlacedAt(p: seq<byte>, rs: seq<Record>, pos: nat, i: nat)
    requires RecordsOk(rs) && At(p, pos, AllBytes(rs)) && i < |rs|
    ensures var at := PlacedAll(rs, pos)[i].start;
            PlacedAll(rs, pos)[i] == Placed(rs[i], at) && At(p, at, RecordBytes(rs[i]))
    decreases i
  {
    hide RecordBytes, At;
    AtCat(p, pos, RecordBytes(rs[0]), AllBytes(rs[1..]));
    if i > 0 { PlacedAt(p, rs[1..], pos + |RecordBytes(rs[0])|, i - 1); }
  }

  lemma {:induction false} RecordsWritten(p: seq<byte>, pos: nat, rs: seq<Record>)
    requires RecordsOk(rs) && At(p, pos, AllBytes(rs))
    ensures Records(p, pos, |rs|) == Some(PlacedAll(rs, pos))
    decreases |rs|
  {
    hide RecordBytes, At, Records, ParseRr;
    if rs == [] {
      NoRecords(p, pos);
    } else {
      var first, rest := RecordBytes(rs[0]), rs[1..];
      AtCat(p, pos, first, AllBytes(rest));
      RecordWritten(p, pos, rs[0]);
      PlacedEnd(rs[0], pos);
      RecordsWritten(p, pos + |first|, rest);
      RecordsCons(p, pos, |rs|);
    }
  }

  lemma {:induction false} PlacedEnd(r: Record, pos: nat)
    requires RecordOk(r)
    ensures Placed(r, pos).end == pos + |RecordBytes(r)|
  {
  }

  lemma {:induction false} HeaderRead(m: Message, rest: seq<byte>)
    requires MessageOk(m)
    ensures var p := HeaderBytes(m) + rest;
            && |p| >= 12 && HasFlags(p, m.flags) && U16(p, 0) == m.id && U16(p, 4) == m.questions
            && AnCount(p) == |m.answers| && NsCount(p) == |m.authority| && ArCount(p) == |m.additional|
  {
    var h := HeaderBytes(m);
    var p := h + rest;
    assert forall i :: 0 <= i < 12 ==> p[i] == h[i];
    assert p[0] == h[0] && p[1] == h[1] && p[4] == h[4] && p[6] == h[6] && p[8] == h[8] && p[10] == h[10];
  }

  /** The records of the three sections, in order. */
  lemma {:induction false} MessageRead(m: Message)
    requires MessageOk(m)
    ensures var p, all := MessageBytes(m), m.answers + m.authority + m.additional;
            && |p| >= 12 && HasFlags(p, m.flags) && AnswersStart(m) <= |p| && At(p, AnswersStart(m), AllBytes(all))
            && AnCount(p) == |m.answers| && NsCount(p) == |m.authority| && ArCount(p) == |m.additional|
            && AllRecords(p, AnswersStart(m)) == Some(PlacedAll(all, AnswersStart(m)))
  {
    hide HeaderBytes, AllBytes, Records, PlacedAll, HasFlags, U16;
    var p, all := MessageBytes(m), m.answers + m.authority + m.additional;
    HeaderRead(m, m.question + AllBytes(all));
    assert p == HeaderBytes(m) + (m.question + AllBytes(all));
    assert p[AnswersStart(m)..] == AllBytes(all);
    RecordsWritten(p, AnswersStart(m), all);
  }

  // When a response can be cached and for how long.

  /** A message has lifetimes exactly when it is a reply without error, or for a name that
      does not exist. */
  lemma {:induction false} AcceptedIff(m: Message, policy: Policy)
    requires MessageOk(m)
    ensures EffectiveTtl(MessageBytes(m), AnswersStart(m), policy).Some? <==>
            m.flags.qr && (m.flags.rcode == 0 || m.flags.rcode == 3)
  {
    hide Records, PlacedAll, MessageBytes, HasFlags, IsGoodReply, AllBytes;
    MessageRead(m);
    ReplyRead(MessageBytes(m), m.flags);
  }

  /** The lifetime of a response with answers is that of its shortest answer, clamped. */
  lemma {:induction false} AnswersLifetime(m: Message, policy: Policy)
    requires MessageOk(m) && m.answers != []
    requires EffectiveTtl(MessageBytes(m), AnswersStart(m), policy).Some?
    ensures var ttl := EffectiveTtl(MessageBytes(m), AnswersStart(m), policy).value.ttl;
            && (forall i, c: u32 ::
                  (&& 0 <= i < |m.answers| && m.answers[i].rrType != 41
                   && Clamped(m.answers[i].ttl, policy.minTtl, policy.maxTtl, c)) ==> ttl <= c)
            && ((exists i :: 0 <= i < |m.answers| && m.answers[i].rrType != 41
                   && Clamped(m.answers[i].ttl, policy.minTtl, policy.maxTtl, ttl))
                || (ttl == policy.nodataTtl && forall i :: 0 <= i < |m.answers| ==> m.answers[i].rrType == 41))
  {
    hide Records, PlacedAll, MessageBytes, HasFlags, EffectiveTtl, AllBytes, Clamped, RecordBytes;
    MessageRead(m);
    EntryLifetime(MessageBytes(m), AnswersStart(m), policy);
    var p, all := MessageBytes(m), m.answers + m.authority + m.additional;
    var rs := PlacedAll(all, AnswersStart(m));
    forall i | 0 <= i < |all| ensures rs[i].rrType == all[i].rrType && rs[i].ttl == all[i].ttl {
      PlacedAt(p, all, AnswersStart(m), i);
    }
    forall i | 0 <= i < |m.answers| ensures all[i] == m.answers[i] {}
    forall i | 0 <= i < |rs| ensures CountedAnswer(p, rs, i) <==> i < |m.answers| && all[i].rrType != 41 {}
  }

  // Responses without answers.

  /** The data of a SOA record (section 3.3.13 of RFC 1035): two names, four numbers of which
      nothing is used, and MINIMUM; more may follow. */
  datatype Soa = Soa(mname: Name, rname: Name, unused: seq<byte>, minimum: u32, more: seq<byte>)

  predicate SoaOk(s: Soa) {
    NameOk(s.mname) && NameOk(s.rname) && |s.unused| == 16
  }

  function MinimumBytes(n: u32): (s: seq<byte>)
    ensures |s| == 4
  {
    [n / 0x100_0000, n / 0x1_0000 % 0x100, n / 0x100 % 0x100, n % 0x100]
  }

  function SoaBytes(s: Soa): seq<byte>
    requires SoaOk(s)
  {
    NameBytes(s.mname) + (NameBytes(s.rname) + (s.unused + (MinimumBytes(s.minimum) + s.more)))
  }

  lemma {:induction false} MinimumRead(p: seq<byte>, pos: nat, n: u32)
    requires At(p, pos, MinimumBytes(n))
    ensures pos + 4 <= |p| && U32(p, pos) == n
  {
    var s := MinimumBytes(n);
    assert forall i :: 0 <= i < 4 ==> p[pos + i] == p[pos..pos + 4][i] == s[i];
    assert p[pos + 0] == s[0];
    Be32Digits(n);
  }

  lemma {:induction false} SoaRead(p: seq<byte>, rdata: nat, end: nat, s: Soa)
    requires SoaOk(s) && end <= |p| && At(p, rdata, SoaBytes(s)) && end == rdata + |SoaBytes(s)|
    ensures ExtractSoaMinimum(p, rdata, end) == Some(s.minimum)
  {
    hide NameBytes, At, MinimumBytes, SkipName, U32;
    var a, b, n := NameBytes(s.mname), NameBytes(s.rname), MinimumBytes(s.minimum);
    AtCat(p, rdata, a, b + (s.unused + (n + s.more)));
    AtCat(p, rdata + |a|, b, s.unused + (n + s.more));
    AtCat(p, rdata + |a| + |b|, s.unused, n + s.more);
    AtCat(p, rdata + |a| + |b| + 16, n, s.more);
    NameWritten(p, rdata, s.mname);
    NameWritten(p, rdata + |a|, s.rname);
    MinimumRead(p, rdata + |a| + |b| + 16, s.minimum);
  }

  lemma {:induction false} DataAt(p: seq<byte>, at: nat, r: Record)
    requires RecordOk(r) && At(p, at, RecordBytes(r))
    ensures At(p, Placed(r, at).rdata, r.data) && Placed(r, at).end == Placed(r, at).rdata + |r.data| <= |p|
  {
    hide At, NameBytes, FixedBytes;
    AtCat(p, at, NameBytes(r.name) + FixedBytes(r), r.data);
    AtWithin(p, at + |NameBytes(r.name) + FixedBytes(r)|, r.data);
  }

  /** The first SOA record of the authority section, read as `s`. */
  ghost predicate FirstSoa(m: Message, j: nat, s: Soa) {
    && j < |m.authority| && m.authority[j].rrType == 6 && SoaOk(s) && m.authority[j].data == SoaBytes(s)
    && forall i :: 0 <= i < j ==> m.authority[i].rrType != 6
  }

  function SmallerOf(m: Message, j: nat, s: Soa): u32
    requires j < |m.authority|
  {
    if m.authority[j].ttl <= s.minimum then m.authority[j].ttl else s.minimum
  }

  /** What the authority section says about how long a name without answers stays so. */
  ghost predicate Allows(m: Message, policy: Policy, seconds: u32) {
    || (seconds == policy.nodataTtl && forall i :: 0 <= i < |m.authority| ==> m.authority[i].rrType != 6)
    || exists j: nat, s: Soa :: FirstSoa(m, j, s) && seconds == SmallerOf(m, j, s)
  }

  /** Everything `SoaTtl` looks at in the record behind `i`. */
  lemma {:induction false} AuthorityRead(m: Message, i: nat)
    requires MessageOk(m) && m.answers == [] && i < |m.authority|
    ensures var p, rs := MessageBytes(m), PlacedAll(m.answers + m.authority + m.additional, AnswersStart(m));
            var x, r := m.authority[i], rs[i];
            && r.rrType == x.rrType && r.ttl == x.ttl && At(p, r.rdata, x.data) && r.end == r.rdata + |x.data| <= |p|
  {
    hide PlacedAll, MessageBytes, HasFlags, AllBytes, RecordBytes, At;
    MessageRead(m);
    var p, all, pos := MessageBytes(m), m.answers + m.authority + m.additional, AnswersStart(m);
    assert all[i] == m.authority[i];
    PlacedAt(p, all, pos, i);
    DataAt(p, PlacedAll(all, pos)[i].start, all[i]);
  }

  lemma {:induction false} MessageFits(m: Message)
    requires MessageOk(m)
    ensures AllFit(MessageBytes(m), PlacedAll(m.answers + m.authority + m.additional, AnswersStart(m)))
  {
    hide Records, PlacedAll, MessageBytes, HasFlags, AllBytes, At;
    MessageRead(m);
    RecordsFit(MessageBytes(m), AnswersStart(m), |m.answers + m.authority + m.additional|);
  }

  lemma {:induction false} SoaUsable(m: Message, j: nat, s: Soa)
    requires MessageOk(m) && m.answers == [] && FirstSoa(m, j, s)
    ensures var p, rs := MessageBytes(m), PlacedAll(m.answers + m.authority + m.additional, AnswersStart(m));
            && AllFit(p, rs) && UsableSoa(p, rs, 0, |m.authority|, j)
            && ExtractSoaMinimum(p, rs[j].rdata, rs[j].end) == Some(s.minimum) && rs[j].ttl == m.authority[j].ttl
            && forall i :: 0 <= i < j ==> !UsableSoa(p, rs, 0, |m.authority|, i)
  {
    hide PlacedAll, MessageBytes, SoaBytes, ExtractSoaMinimum, At, AllFit;
    MessageFits(m);
    var p, rs := MessageBytes(m), PlacedAll(m.answers + m.authority + m.additional, AnswersStart(m));
    AuthorityRead(m, j);
    SoaRead(p, rs[j].rdata, rs[j].end, s);
    forall i | 0 <= i < j ensures !UsableSoa(p, rs, 0, |m.authority|, i) { AuthorityRead(m, i); }
  }

  lemma {:induction false} NoSoaUsable(m: Message)
    requires MessageOk(m) && m.answers == [] && forall i :: 0 <= i < |m.authority| ==> m.authority[i].rrType != 6
    ensures var p, rs := MessageBytes(m), PlacedAll(m.answers + m.authority + m.additional, AnswersStart(m));
            AllFit(p, rs) && forall i :: 0 <= i < |rs| ==> !UsableSoa(p, rs, 0, |m.authority|, i)
  {
    hide PlacedAll, MessageBytes, ExtractSoaMinimum, At, AllFit;
    MessageFits(m);
    var p, rs := MessageBytes(m), PlacedAll(m.answers + m.authority + m.additional, AnswersStart(m));
    forall i | 0 <= i < |rs| ensures !UsableSoa(p, rs, 0, |m.authority|, i) {
      if i < |m.authority| { AuthorityRead(m, i); }
    }
  }

  lemma {:induction false} SoaAllows(m: Message, policy: Policy, seconds: u32)
    requires MessageOk(m) && m.answers == [] && Allows(m, policy, seconds)
    ensures var p, rs := MessageBytes(m), PlacedAll(m.answers + m.authority + m.additional, AnswersStart(m));
            && AllFit(p, rs)
            && var soa := SoaTtl(p, rs, 0, |m.authority|);
               seconds == if soa.Some? then soa.value else policy.nodataTtl
  {
    hide PlacedAll, MessageBytes, SoaTtl, AllFit, UsableSoa, ExtractSoaMinimum;
    var p, rs := MessageBytes(m), PlacedAll(m.answers + m.authority + m.additional, AnswersStart(m));
    if forall i :: 0 <= i < |m.authority| ==> m.authority[i].rrType != 6 {
      NoSoaUsable(m);
      SoaMeaning(p, rs, 0, |m.authority|);
      NoFirst(m);
    } else {
      var j: nat, s: Soa :| FirstSoa(m, j, s) && seconds == SmallerOf(m, j, s);
      SoaUsable(m, j, s);
      SoaDecides(p, rs, |m.authority|, j);
    }
  }

  lemma {:induction false} SoaDecides(p: seq<byte>, rs: seq<Rr>, ns: nat, j: nat)
    requires AllFit(p, rs) && j < |rs| && UsableSoa(p, rs, 0, ns, j)
    requires forall i :: 0 <= i < j ==> !UsableSoa(p, rs, 0, ns, i)
    ensures ExtractSoaMinimum(p, rs[j].rdata, rs[j].end).Some?
    ensures SoaTtl(p, rs, 0, ns) == Some(Min(rs[j].ttl, ExtractSoaMinimum(p, rs[j].rdata, rs[j].end).value))
  {
    hide ExtractSoaMinimum, SoaTtl;
    SoaMeaning(p, rs, 0, ns);
  }

  lemma {:induction false} NoFirst(m: Message)
    requires forall i :: 0 <= i < |m.authority| ==> m.authority[i].rrType != 6
    ensures forall j: nat, s: Soa :: !FirstSoa(m, j, s)
  {
  }

  /** The lifetime of a response without answers is what the first SOA record allows, but no
      more than 10800 seconds, clamped after that. */
  lemma {:induction false} NegativeLifetime(m: Message, policy: Policy, seconds: u32)
    requires MessageOk(m) && m.answers == [] && Allows(m, policy, seconds)
    requires EffectiveTtl(MessageBytes(m), AnswersStart(m), policy).Some?
    ensures Clamped(if seconds <= 10800 then seconds else 10800, policy.minTtl, policy.maxTtl,
                    EffectiveTtl(MessageBytes(m), AnswersStart(m), policy).value.ttl)
  {
    hide Records, PlacedAll, MessageBytes, HasFlags, EffectiveTtl, AllBytes, Clamped, SoaTtl, Allows;
    MessageRead(m);
    SoaAllows(m, policy, seconds);
    EntryLifetime(MessageBytes(m), AnswersStart(m), policy);
  }

  // What is served.

  /** A record with only its TTL field changed is the record with another lifetime. */
  lemma {:induction false} RetimedAt(p: seq<byte>, q: seq<byte>, at: nat, r: Record, ttl: u32)
    requires RecordOk(r) && At(p, at, RecordBytes(r)) && |q| == |p|
    requires var x := Placed(r, at);
             && (forall j :: at <= j < x.end && (j < x.fixed + 4 || x.fixed + 8 <= j) ==> q[j] == p[j])
             && x.fixed + 8 <= |q| && U32(q, x.fixed + 4) == ttl
    ensures At(q, at, RecordBytes(r.(ttl := ttl)))
  {
    hide NameBytes;
    var name, x, n := NameBytes(r.name), Placed(r, at), r.(ttl := ttl);
    AtCat(p, at, name + FixedBytes(r), r.data);
    AtCat(p, at, name, FixedBytes(r));
    assert q[at..x.fixed] == p[at..x.fixed];
    assert q[x.rdata..x.end] == p[x.rdata..x.end];
    FixedAt(p, q, x.fixed, r, ttl);
    AtCat(q, at, name, FixedBytes(n));
    AtCat(q, at, name + FixedBytes(n), r.data);
  }

  lemma {:induction false} FixedAt(p: seq<byte>, q: seq<byte>, fixed: nat, r: Record, ttl: u32)
    requires RecordOk(r) && At(p, fixed, FixedBytes(r)) && |q| == |p|
    requires forall j :: fixed <= j < fixed + 4 || fixed + 8 <= j < fixed + 10 ==> q[j] == p[j]
    requires U32(q, fixed + 4) == ttl
    ensures At(q, fixed, FixedBytes(r.(ttl := ttl)))
  {
    FourDigits(q[fixed + 4], q[fixed + 5], q[fixed + 6], q[fixed + 7]);
    var s := FixedBytes(r);
    assert forall i :: 0 <= i < 10 ==> p[fixed + i] == p[fixed..fixed + 10][i] == s[i];
    assert q[fixed] == p[fixed + 0] == s[0] && q[fixed + 1] == s[1] && q[fixed + 2] == s[2] && q[fixed + 3] == s[3];
    assert q[fixed + 8] == s[8] && q[fixed + 9] == s[9];
    assert q[fixed..fixed + 10] == FixedBytes(r.(ttl := ttl));
  }

  ghost predicate SameSizes(rs: seq<Record>, ns: seq<Record>)
    requires RecordsOk(rs) && RecordsOk(ns)
  {
    |rs| == |ns| && forall i :: 0 <= i < |rs| ==> |RecordBytes(ns[i])| == |RecordBytes(rs[i])|
  }

  lemma {:induction false} AllAt(q: seq<byte>, pos: nat, rs: seq<Record>, ns: seq<Record>)
    requires RecordsOk(rs) && RecordsOk(ns) && SameSizes(rs, ns) && pos <= |q|
    requires forall i :: 0 <= i < |rs| ==> At(q, PlacedAll(rs, pos)[i].start, RecordBytes(ns[i]))
    ensures At(q, pos, AllBytes(ns)) && |AllBytes(ns)| == |AllBytes(rs)|
    decreases |rs|
  {
    hide RecordBytes, At;
    if rs == [] {
      NothingAt(q, pos);
    } else {
      var first := RecordBytes(ns[0]);
      var places := PlacedAll(rs, pos);
      assert At(q, places[0].start, RecordBytes(ns[0]));
      AtWithin(q, pos, first);
      forall i | 0 <= i < |rs| - 1
        ensures At(q, PlacedAll(rs[1..], pos + |first|)[i].start, RecordBytes(ns[1..][i]))
      {
        assert At(q, places[i + 1].start, RecordBytes(ns[i + 1]));
      }
      AllAt(q, pos + |first|, rs[1..], ns[1..]);
      AtCat(q, pos, first, AllBytes(ns[1..]));
    }
  }

  lemma {:induction false} NothingAt(q: seq<byte>, pos: nat)
    requires pos <= |q|
    ensures At(q, pos, [])
  {
  }

  /** A record as it is served: OPT records as they are, others with what `elapsed` seconds
      leave of their lifetime, or of the entry's when there are no answers. */
  ghost predicate Aged(m: Message, life: u32, policy: Policy, elapsed: nat, was: Record, got: Record) {
    && got == was.(ttl := got.ttl)
    && (was.rrType == 41 ==> got.ttl == was.ttl)
    && (was.rrType != 41 ==> exists start: u32 ::
          && (if m.answers == [] then start == life else Clamped(was.ttl, policy.minTtl, policy.maxTtl, start))
          && CountsDown(start, elapsed, got.ttl))
  }

  ghost predicate AllAged(m: Message, life: u32, policy: Policy, elapsed: nat, was: seq<Record>, got: seq<Record>) {
    |got| == |was| && forall i :: 0 <= i < |was| ==> Aged(m, life, policy, elapsed, was[i], got[i])
  }

  /** The records of a message with the lifetimes that stand in `q`. */
  ghost function Retimings(q: seq<byte>, rs: seq<Record>, places: seq<Rr>): (r: seq<Record>)
    requires |places| == |rs| && forall i :: 0 <= i < |rs| ==> places[i].fixed + 8 <= |q|
    ensures |r| == |rs| && forall i :: 0 <= i < |rs| ==> r[i] == rs[i].(ttl := U32(q, places[i].fixed + 4))
  {
    seq(|rs|, i requires 0 <= i < |rs| => rs[i].(ttl := U32(q, places[i].fixed + 4)))
  }

  lemma {:induction false} SizeKept(r: Record, ttl: u32)
    requires RecordOk(r)
    ensures RecordOk(r.(ttl := ttl)) && |RecordBytes(r.(ttl := ttl))| == |RecordBytes(r)|
  {
  }

  lemma {:induction false} OneServed(m: Message, policy: Policy, elapsed: nat, k: nat)
    requires MessageOk(m) && EffectiveTtl(MessageBytes(m), AnswersStart(m), policy).Some?
    requires k < |m.answers + m.authority + m.additional|
    ensures var p, all := MessageBytes(m), m.answers + m.authority + m.additional;
            var life := EffectiveTtl(p, AnswersStart(m), policy).value;
            var q, x := Patched(p, life.offsets, elapsed), PlacedAll(all, AnswersStart(m))[k];
            && x.fixed + 8 <= |q|
            && var got := all[k].(ttl := U32(q, x.fixed + 4));
               At(q, x.start, RecordBytes(got)) && Aged(m, life.ttl, policy, elapsed, all[k], got)
  {
    hide Records, PlacedAll, MessageBytes, HasFlags, EffectiveTtl, AllBytes, RecordBytes, At, Patched, U32, Offsets,
         Clamped;
    MessageRead(m);
    var p, all, pos := MessageBytes(m), m.answers + m.authority + m.additional, AnswersStart(m);
    var life := EffectiveTtl(p, pos, policy).value;
    var q, rs := Patched(p, life.offsets, elapsed), PlacedAll(all, pos);
    PairsOfScan(p, pos, policy);
    TiledRecords(p, pos, |all|);
    PlacedAt(p, all, pos, k);
    PatchedTtl(p, pos, policy, elapsed, k);
    var x := rs[k];
    forall j | x.start <= j < x.end && (j < x.fixed + 4 || x.fixed + 8 <= j) ensures q[j] == p[j] {
      OutsideField(p, rs, life.offsets, k, j);
      PatchedElsewhere(p, life.offsets, elapsed, j);
    }
    RetimedAt(p, q, x.start, all[k], U32(q, x.fixed + 4));
  }

  /** A served response is the stored message with its records aged, byte for byte. */
  lemma {:induction false} ServedMessage(m: Message, policy: Policy, elapsed: nat) returns (served: Message)
    requires MessageOk(m) && EffectiveTtl(MessageBytes(m), AnswersStart(m), policy).Some?
    ensures MessageOk(served)
    ensures var life := EffectiveTtl(MessageBytes(m), AnswersStart(m), policy).value;
            && Patched(MessageBytes(m), life.offsets, elapsed) == MessageBytes(served)
            && served == m.(answers := served.answers, authority := served.authority, additional := served.additional)
            && AllAged(m, life.ttl, policy, elapsed, m.answers, served.answers)
            && AllAged(m, life.ttl, policy, elapsed, m.authority, served.authority)
            && AllAged(m, life.ttl, policy, elapsed, m.additional, served.additional)
  {
    hide Records, PlacedAll, HasFlags, EffectiveTtl, AllBytes, RecordBytes, At, Patched, U32, Aged, HeaderBytes;
    MessageRead(m);
    var p, all, pos := MessageBytes(m), m.answers + m.authority + m.additional, AnswersStart(m);
    var life := EffectiveTtl(p, pos, policy).value;
    var q, rs := Patched(p, life.offsets, elapsed), PlacedAll(all, pos);
    forall k | 0 <= k < |all| ensures rs[k].fixed + 8 <= |q| { OneServed(m, policy, elapsed, k); }
    var news := Retimings(q, all, rs);
    forall k | 0 <= k < |all|
      ensures RecordOk(news[k]) && |RecordBytes(news[k])| == |RecordBytes(all[k])|
      ensures At(q, rs[k].start, RecordBytes(news[k])) && Aged(m, life.ttl, policy, elapsed, all[k], news[k])
    {
      OneServed(m, policy, elapsed, k);
      SizeKept(all[k], U32(q, rs[k].fixed + 4));
    }
    AllAt(q, pos, all, news);
    var an, ns := |m.answers|, |m.answers| + |m.authority|;
    served := m.(answers := news[..an], authority := news[an..ns], additional := news[ns..]);
    assert served.answers + served.authority + served.additional == news;
    PrefixServed(m, policy, elapsed);
    SameHeader(m, served);
    BytesServed(q, p, pos, AllBytes(news), AllBytes(all));
    assert MessageBytes(served) == p[..pos] + AllBytes(news);
  }

  lemma {:induction false} PrefixServed(m: Message, policy: Policy, elapsed: nat)
    requires MessageOk(m) && EffectiveTtl(MessageBytes(m), AnswersStart(m), policy).Some?
    ensures var p, pos := MessageBytes(m), AnswersStart(m);
            var q := Patched(p, EffectiveTtl(p, pos, policy).value.offsets, elapsed);
            && |q| == |p| && pos <= |p| && q[..pos] == p[..pos]
            && p[..pos] == HeaderBytes(m) + m.question
  {
    hide HeaderBytes, AllBytes, EffectiveTtl, Patched, AllRecords, ServedAfter, InField;
    PatchedRescan(MessageBytes(m), AnswersStart(m), policy, elapsed);
  }

  lemma {:induction false} SameHeader(m: Message, n: Message)
    requires MessageOk(m) && MessageOk(n)
    requires n == m.(answers := n.answers, authority := n.authority, additional := n.additional)
    requires |n.answers| == |m.answers| && |n.authority| == |m.authority| && |n.additional| == |m.additional|
    ensures HeaderBytes(n) == HeaderBytes(m)
  {
  }

  lemma {:induction false} BytesServed(q: seq<byte>, p: seq<byte>, pos: nat, news: seq<byte>, olds: seq<byte>)
    requires |q| == |p| && pos <= |p| && q[..pos] == p[..pos] && At(q, pos, news) && |news| == |olds| == |p| - pos
    ensures q == p[..pos] + news
  {
    assert q == q[..pos] + q[pos..];
  }
}
