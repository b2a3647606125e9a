/** Removing, adding and replacing the EDNS client subnet of a query
    (`src/dns/ecs.rs`, RFC 7871). */
module Ecs {
  import opened Prelude
  import opened Wire
  import opened Edns

  // Locating the OPT record behind the other sections.

  function SkipQuestions(p: seq<byte>, pos: nat, n: nat): (r: Option<nat>)
    ensures r.Some? ==> pos <= r.value
    decreases n
  {
    if n == 0 then Some(pos)
    else
      match SkipName(p, pos)
      case None => None
      case Some(end) => if end + 4 > |p| then None else SkipQuestions(p, end + 4, n - 1)
  }

  /** Where the additional section starts. */
  function AdditionalStart(p: seq<byte>): (r: Option<nat>)
    requires |p| >= 12
    ensures r.Some? ==> r.value >= 12
  {
    match SkipQuestions(p, 12, U16(p, 4))
    case None => None
    case Some(pos) =>
      match Records(p, pos, U16(p, 6) as nat + U16(p, 8))
      case None => None
      case Some(rs) => RecordsEndAfter(p, pos, rs); Some(RecordsEnd(rs, pos))
  }

  lemma {:induction false} RecordsEndAfter(p: seq<byte>, pos: nat, rs: seq<Rr>)
    ensures Records(p, pos, |rs|) == Some(rs) ==> pos <= RecordsEnd(rs, pos)
  {
    if Records(p, pos, |rs|) == Some(rs) && rs != [] {
      RecordsTile(p, pos, |rs|);
      RecordsAfter(p, pos, |rs|, |rs| - 1);
    }
  }

  function Locate(p: seq<byte>): (r: Search)
    ensures r.Found? ==> r.rr.rrType == OPT && RrFits(p, r.rr.start, r.rr) && r.rr.start >= 12
  {
    if |p| < 12 then Broken
    else if U16(p, 10) == 0 then Absent
    else
      match AdditionalStart(p)
      case None => Broken
      case Some(pos) => SearchOpt(p, pos, U16(p, 10))
  }

  method LocateOpt(p: seq<byte>) returns (r: Search)
    ensures r == Locate(p)
  {
    hide SkipQuestions, Records, SearchOpt, SkipName, RecordsEnd;
    if |p| < 12 { return Broken; }
    var ar := U16(p, 10);
    if ar == 0 { return Absent; }
    var qd: nat, an: nat, ns: nat := U16(p, 4), U16(p, 6), U16(p, 8);
    var pos := 12;
    for i := 0 to qd
      invariant 12 <= pos
      invariant SkipQuestions(p, pos, qd - i) == SkipQuestions(p, 12, qd)
    {
      QuestionStep(p, pos, qd - i);
      var end := ReadName(p, pos);
      if end.None? || end.value + 4 > |p| { return Broken; }
      pos := end.value + 4;
    }
    QuestionStep(p, pos, 0);
    ghost var start := pos;
    ghost var done: seq<Rr> := [];
    RecordsStep(p, start, 0);
    for i := 0 to an + ns
      invariant 12 <= pos
      invariant |done| == i && Records(p, start, i) == Some(done) && pos == RecordsEnd(done, start)
    {
      RecordsStep(p, start, i + 1);
      RecordsNeed(p, start, i + 1, an + ns);
      var fixed := ReadName(p, pos);
      if fixed.None? || fixed.value + 10 > |p| { return Broken; }
      var end := fixed.value + 10 + U16(p, fixed.value + 8);
      if end > |p| { return Broken; }
      done := done + [ParseRr(p, pos).value];
      pos := end;
    }
    ghost var behind := pos;
    for i := 0 to ar
      invariant 12 <= pos
      invariant SearchOpt(p, pos, ar - i) == SearchOpt(p, behind, ar)
    {
      SearchStep(p, pos, ar - i);
      var nameEnd := ReadName(p, pos);
      if nameEnd.None? || nameEnd.value + 10 > |p| { return Broken; }
      var f := nameEnd.value;
      var end := f + 10 + U16(p, f + 8);
      if end > |p| { return Broken; }
      if U16(p, f) == OPT { return Found(Rr(pos, f, OPT, U32(p, f + 4), f + 10, end)); }
      pos := end;
    }
    SearchEnd(p, pos);
    return Absent;
  }

  lemma {:induction false} QuestionStep(p: seq<byte>, pos: nat, n: nat)
    ensures SkipQuestions(p, pos, n) ==
            if n == 0 then Some(pos)
            else
              match SkipName(p, pos)
              case None => None
              case Some(end) => if end + 4 > |p| then None else SkipQuestions(p, end + 4, n - 1)
  {
  }

  lemma {:induction false} RecordsStep(p: seq<byte>, pos: nat, n: nat)
    ensures n == 0 ==> Records(p, pos, n) == Some([]) && RecordsEnd([], pos) == pos
    ensures n > 0 && Records(p, pos, n - 1).Some? ==>
              var rs := Records(p, pos, n - 1).value;
              match ParseRr(p, RecordsEnd(rs, pos))
              case None => Records(p, pos, n) == None
              case Some(r) => Records(p, pos, n) == Some(rs + [r]) && RecordsEnd(rs + [r], pos) == r.end
  {
    if n > 0 { RecordsSnoc(p, pos, n); }
  }

  /** More records can be read only if fewer can. */
  lemma {:induction false} RecordsNeed(p: seq<byte>, pos: nat, m: nat, n: nat)
    requires m <= n
    ensures Records(p, pos, n).Some? ==> Records(p, pos, m).Some?
  {
    if Records(p, pos, n).Some? { RecordsPrefix(p, pos, m, n); }
  }

  // Rewriting the options.

  predicate HasEcs(os: seq<Opt>) {
    exists i :: 0 <= i < |os| && os[i].code == ECS
  }

  /** A client subnet option too short to hold its fixed fields. */
  predicate HasShortEcs(os: seq<Opt>) {
    exists i :: 0 <= i < |os| && os[i].code == ECS && |os[i].data| < 4
  }

  function NonEcs(os: seq<Opt>): (r: seq<Opt>)
    ensures !HasEcs(r)
  {
    if os == [] then []
    else
      var last := os[|os| - 1];
      NonEcs(os[..|os| - 1]) + (if last.code == ECS then [] else [last])
  }

  /** The RDATA rewritten, or None when an option runs past its end. */
  function Kept(rd: seq<byte>): Option<seq<byte>> {
    if WellFormed(rd, 0) then Some(EncodeAll(NonEcs(LooseOptions(rd, 0)))) else None
  }

  lemma {:induction false} OptionStep(rd: seq<byte>, pos: nat)
    requires pos + 4 <= |rd|
    ensures var end := pos + 4 + U16(rd, pos + 2);
            && WellFormed(rd, pos) == (end <= |rd| && WellFormed(rd, end))
            && (end <= |rd| ==> rd[pos..end] == EncodeOpt(Opt(U16(rd, pos), rd[pos + 4..end])))
  {
    var end := pos + 4 + U16(rd, pos + 2);
    if end <= |rd| {
      var o := Opt(U16(rd, pos), rd[pos + 4..end]);
      Be16Of(rd, pos);
      Be16Of(rd, pos + 2);
      assert rd[pos..end] == rd[pos..pos + 2] + rd[pos + 2..pos + 4] + rd[pos + 4..end];
    }
  }

  lemma {:induction false} Be16Of(rd: seq<byte>, pos: nat)
    requires pos + 2 <= |rd|
    ensures Be16(U16(rd, pos)) == rd[pos..pos + 2]
  {
  }

  lemma {:induction false} KeptSnoc(os: seq<Opt>, o: Opt)
    ensures EncodeAll(NonEcs(os + [o])) == EncodeAll(NonEcs(os)) + (if o.code == ECS then [] else EncodeOpt(o))
    ensures HasEcs(os + [o]) == (HasEcs(os) || o.code == ECS)
  {
    hide EncodeOpt;
    assert (os + [o])[..|os|] == os;
    var kept := NonEcs(os);
    if o.code == ECS {
      assert kept + [] == kept && (os + [o])[|os|].code == ECS;
    } else {
      assert (kept + [o])[..|kept|] == kept;
    }
    if HasEcs(os) {
      var i :| 0 <= i < |os| && os[i].code == ECS;
      assert (os + [o])[i].code == ECS;
    }
  }

  lemma {:induction false} EmptyKept()
    ensures EncodeAll(NonEcs([])) == [] && !HasEcs([])
  {
  }

  lemma {:induction false} FormedEnd(rd: seq<byte>, pos: nat)
    requires pos + 4 > |rd|
    ensures WellFormed(rd, pos)
  {
  }

  /** The option loop that both rewrites share. */
  method KeepOthers(rd: seq<byte>) returns (kept: Option<seq<byte>>, found: bool)
    ensures kept == Kept(rd)
    ensures kept.Some? ==> found == HasEcs(LooseOptions(rd, 0))
  {
    hide LooseOptions, WellFormed, EncodeAll, NonEcs, HasEcs, EncodeOpt;
    var out: seq<byte> := [];
    found := false;
    var pos := 0;
    ghost var done: seq<Opt> := [];
    EmptyKept();
    while pos + 4 <= |rd|
      invariant 0 <= pos <= |rd|
      invariant done + LooseOptions(rd, pos) == LooseOptions(rd, 0)
      invariant WellFormed(rd, pos) == WellFormed(rd, 0)
      invariant out == EncodeAll(NonEcs(done)) && found == HasEcs(done)
      decreases |rd| - pos
    {
      LooseStep(rd, pos);
      OptionStep(rd, pos);
      var code := U16(rd, pos);
      var end := pos + 4 + U16(rd, pos + 2);
      if end > |rd| { return None, false; }
      ghost var o := Opt(code, rd[pos + 4..end]);
      KeptSnoc(done, o);
      if code == ECS { found := true; } else { out := out + rd[pos..end]; }
      assert done + ([o] + LooseOptions(rd, end)) == done + [o] + LooseOptions(rd, end);
      done := done + [o];
      pos := end;
    }
    LooseEnd(rd, pos);
    FormedEnd(rd, pos);
    assert done + [] == done;
    return Some(out), found;
  }

  /** The packet with RDATA `rd` in the OPT record `r`; its length field has 16 bits. */
  function Splice(p: seq<byte>, r: Rr, rd: seq<byte>): seq<byte>
    requires RrFits(p, r.start, r)
  {
    p[..r.fixed + 8] + Be16(|rd| % 0x1_0000) + rd + p[r.end..]
  }

  method SpliceRdata(p: seq<byte>, r: Rr, rd: seq<byte>) returns (out: seq<byte>)
    requires RrFits(p, r.start, r)
    ensures out == Splice(p, r, rd)
  {
    var len := |rd| % 0x1_0000;
    out := p[..r.rdata] + rd + p[r.end..];
    out := out[r.rdata - 2 := len / 0x100][r.rdata - 1 := len % 0x100];
  }

  function Strip(p: seq<byte>): Option<seq<byte>> {
    match Locate(p)
    case Found(r) =>
      var rd := p[r.rdata..r.end];
      (match Kept(rd)
       case Some(kept) => if HasEcs(LooseOptions(rd, 0)) then Some(Splice(p, r, kept)) else None
       case None => None)
    case _ => None
  }

  method StripEdnsEcs(p: seq<byte>) returns (r: Option<seq<byte>>)
    ensures r == Strip(p)
  {
    hide Locate, Kept, HasEcs, LooseOptions;
    var at := LocateOpt(p);
    if !at.Found? { return None; }
    var rdata, end := at.rr.rdata, at.rr.end;
    var kept, found := KeepOthers(p[rdata..end]);
    if kept.None? || !found { return None; }
    var out := SpliceRdata(p, at.rr, kept.value);
    return Some(out);
  }

  // Encoding a subnet.

  datatype Subnet = V4(octets: seq<byte>, prefixLen: byte) | V6(octets: seq<byte>, prefixLen: byte)
  {
    function Bytes(): nat {
      if V4? then 4 else 16
    }

    function Family(): u16 {
      if V4? then 1 else 2
    }

    predicate Valid() {
      |octets| == Bytes()
    }
  }

  /** Address octets that are sent: just enough for the prefix. */
  function SentBytes(s: Subnet): nat {
    MinNat((s.prefixLen as nat + 7) / 8, s.Bytes())
  }

  function EcsOption(s: Subnet): (r: Opt)
    requires s.Valid()
  {
    Opt(ECS, Be16(s.Family()) + [s.prefixLen, 0] + s.octets[..SentBytes(s)])
  }

  method EncodeEcsOption(s: Subnet) returns (r: seq<byte>)
    requires s.Valid()
    ensures r == EncodeOpt(EcsOption(s))
  {
    var n := SentBytes(s);
    r := Be16(ECS) + Be16(4 + n) + Be16(s.Family()) + [s.prefixLen, 0] + s.octets[..n];
    assert r == Be16(ECS) + Be16(4 + n) + (Be16(s.Family()) + [s.prefixLen, 0] + s.octets[..n]);
  }

  /** An OPT record holding only `option`. */
  function MinimalOpt(option: Opt): seq<byte> {
    [0] + Be16(OPT) + Be16(4096) + Be32(0) + Be16((4 + |option.data|) % 0x1_0000) + EncodeOpt(option)
  }

  function WithArcount(p: seq<byte>, n: u16): seq<byte>
    requires |p| >= 12
  {
    p[..10] + Be16(n) + p[12..]
  }

  function Inject(p: seq<byte>, s: Subnet): Option<seq<byte>>
    requires s.Valid()
  {
    match Locate(p)
    case Broken => None
    case Absent => LocateShort(p); Some(WithArcount(p, (U16(p, 10) + 1) % 0x1_0000) + MinimalOpt(EcsOption(s)))
    case Found(r) =>
      match Kept(p[r.rdata..r.end])
      case None => None
      case Some(kept) => Some(Splice(p, r, kept + EncodeOpt(EcsOption(s))))
  }

  lemma {:induction false} LocateShort(p: seq<byte>)
    ensures |p| < 12 ==> Locate(p) == Broken
  {
  }

  method AppendOpt(p: seq<byte>, ghost option: Opt, encoded: seq<byte>) returns (out: seq<byte>)
    requires |p| >= 12 && encoded == EncodeOpt(option)
    ensures out == WithArcount(p, (U16(p, 10) + 1) % 0x1_0000) + MinimalOpt(option)
  {
    var ar := (U16(p, 10) + 1) % 0x1_0000;
    out := p + [0] + Be16(OPT) + Be16(4096) + Be32(0) + Be16(|encoded| % 0x1_0000) + encoded;
    assert out == p + MinimalOpt(option);
    out := out[10 := ar / 0x100][11 := ar % 0x100];
  }

  method InjectOrReplaceEcs(p: seq<byte>, s: Subnet) returns (r: Option<seq<byte>>)
    requires s.Valid()
    ensures r == Inject(p, s)
  {
    hide Kept, LooseOptions, HasEcs, Locate, Splice, EncodeOpt, EcsOption, MinimalOpt;
    LocateShort(p);
    if |p| < 12 { return None; }
    var ecs := EncodeEcsOption(s);
    var at := LocateOpt(p);
    match at {
      case Broken => return None;
      case Absent =>
        var out := AppendOpt(p, EcsOption(s), ecs);
        return Some(out);
      case Found(o) =>
        var kept, _ := KeepOthers(p[o.rdata..o.end]);
        if kept.None? { return None; }
        var out := SpliceRdata(p, o, kept.value + ecs);
        return Some(out);
    }
  }
}
