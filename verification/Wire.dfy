/** Reading DNS messages: names, resource records and big-endian fields
    (section 4.1 of RFC 1035), as `src/dns/mod.rs` and `src/dns/ttl.rs` do. */
module Wire {
  import opened Prelude

  /** The record type of EDNS pseudo-records. */
  const OPT: u16 := 41

  function U16(p: seq<byte>, i: nat): u16
    requires i + 2 <= |p|
  {
    (p[i] as int) * 0x100 + p[i + 1]
  }

  function U32(p: seq<byte>, i: nat): u32
    requires i + 4 <= |p|
  {
    (p[i] as int) * 0x100_0000 + (p[i + 1] as int) * 0x1_0000 + (p[i + 2] as int) * 0x100 + p[i + 3]
  }

  function Be16(n: u16): (r: seq<byte>)
    ensures |r| == 2 && U16(r, 0) == n
  {
    [n / 0x100, n % 0x100]
  }

  function Be32(n: u32): (r: seq<byte>)
    ensures |r| == 4 && U32(r, 0) == n
  {
    Be32Digits(n);
    [n / 0x100_0000, (n / 0x1_0000) % 0x100, (n / 0x100) % 0x100, n % 0x100]
  }

  lemma {:induction false} Be32Digits(n: u32)
    ensures n == (n / 0x100_0000) * 0x100_0000 + ((n / 0x1_0000) % 0x100) * 0x1_0000 +
                 ((n / 0x100) % 0x100) * 0x100 + n % 0x100
  {
    var a := n / 0x100;
    var b := a / 0x100;
    assert n / 0x1_0000 == b;
    assert n / 0x100_0000 == b / 0x100;
  }

  /** Offset just past the name at `pos`; compression pointers end a name and are
      not followed. */
  function SkipName(p: seq<byte>, pos: nat): (r: Option<nat>)
    ensures r.Some? ==> pos < r.value <= |p|
    decreases |p| - pos
  {
    if pos >= |p| then None
    else
      var len := p[pos];
      if len == 0 then Some(pos + 1)
      else if len >= 0xC0 then (if pos + 1 < |p| then Some(pos + 2) else None)
      else if len >= 0x40 then None
      else if pos + 1 + len > |p| then None
      else SkipName(p, pos + 1 + len)
  }

  method ReadName(p: seq<byte>, start: nat) returns (r: Option<nat>)
    ensures r == SkipName(p, start)
  {
    var pos := start;
    while true
      invariant SkipName(p, pos) == SkipName(p, start)
      decreases |p| - pos
    {
      if pos >= |p| { return None; }
      var len := p[pos];
      pos := pos + 1;
      if len == 0 { return Some(pos); }
      if len >= 0xC0 {
        if pos >= |p| { return None; }
        return Some(pos + 1);
      }
      if len >= 0x40 { return None; }
      pos := pos + len;
      if pos > |p| { return None; }
    }
  }

  /** Reading a name depends on its own bytes alone. */
  lemma {:induction false} SkipNameSame(p: seq<byte>, q: seq<byte>, pos: nat)
    requires SkipName(p, pos).Some? && SkipName(p, pos).value <= |q|
    requires forall j :: pos <= j < SkipName(p, pos).value ==> p[j] == q[j]
    ensures SkipName(q, pos) == SkipName(p, pos)
    decreases |p| - pos
  {
    if 0 < p[pos] < 0x40 { SkipNameSame(p, q, pos + 1 + p[pos]); }
  }

  lemma {:induction false} SkipNameTail(p: seq<byte>, q: seq<byte>, m: nat, pos: nat)
    requires |p| == |q| && m <= pos && forall j :: m <= j < |p| ==> p[j] == q[j]
    ensures SkipName(p, pos) == SkipName(q, pos)
    decreases |p| - pos
  {
    if pos < |p| && 0 < p[pos] < 0x40 && pos + 1 + p[pos] <= |p| { SkipNameTail(p, q, m, pos + 1 + p[pos]); }
  }

  /** One resource record: `fixed` is where its TYPE field starts. */
  datatype Rr = Rr(start: nat, fixed: nat, rrType: u16, ttl: u32, rdata: nat, end: nat)

  function ParseRr(p: seq<byte>, pos: nat): (r: Option<Rr>)
    ensures r.Some? ==> RrFits(p, pos, r.value)
  {
    match SkipName(p, pos)
    case None => None
    case Some(fixed) =>
      if fixed + 10 > |p| then None
      else
        var rdata := fixed + 10;
        var end := rdata + U16(p, fixed + 8);
        if end > |p| then None
        else Some(Rr(pos, fixed, U16(p, fixed), U32(p, fixed + 4), rdata, end))
  }

  predicate RrFits(p: seq<byte>, pos: nat, r: Rr) {
    r.start == pos < r.fixed && r.rdata == r.fixed + 10 <= r.end <= |p|
  }

  /** The `n` records that start at `pos`. */
  function Records(p: seq<byte>, pos: nat, n: nat): (r: Option<seq<Rr>>)
    ensures r.Some? ==> |r.value| == n
    decreases n
  {
    if n == 0 then Some([])
    else
      match ParseRr(p, pos)
      case None => None
      case Some(r) =>
        match Records(p, r.end, n - 1)
        case None => None
        case Some(rest) => Some([r] + rest)
  }

  /** Where the `n` records end. */
  function RecordsEnd(rs: seq<Rr>, pos: nat): nat {
    if rs == [] then pos else rs[|rs| - 1].end
  }

  /** Records follow each other without gap or overlap. */
  lemma {:induction false} RecordsTile(p: seq<byte>, pos: nat, n: nat)
    requires Records(p, pos, n).Some?
    ensures var rs := Records(p, pos, n).value;
            && (n > 0 ==> rs[0].start == pos)
            && (forall i :: 0 <= i < n ==> RrFits(p, rs[i].start, rs[i]) && ParseRr(p, rs[i].start) == Some(rs[i]))
            && (forall i :: 0 < i < n ==> rs[i].start == rs[i - 1].end)
    decreases n
  {
    if n > 0 { RecordsTile(p, ParseRr(p, pos).value.end, n - 1); }
  }

  lemma {:induction false} RecordsApart(p: seq<byte>, pos: nat, n: nat, i: nat, j: nat)
    requires Records(p, pos, n).Some? && i < j < n
    ensures var rs := Records(p, pos, n).value; pos <= rs[i].start && rs[i].end <= rs[j].start
    decreases j
  {
    hide Records, ParseRr;
    RecordsTile(p, pos, n);
    var rs := Records(p, pos, n).value;
    if i < j - 1 { RecordsApart(p, pos, n, i, j - 1); }
    RecordsAfter(p, pos, n, i);
  }

  lemma {:induction false} RecordsAfter(p: seq<byte>, pos: nat, n: nat, i: nat)
    requires Records(p, pos, n).Some? && i < n
    ensures pos <= Records(p, pos, n).value[i].start
    decreases i
  {
    hide Records, ParseRr;
    RecordsTile(p, pos, n);
    if i > 0 { RecordsAfter(p, pos, n, i - 1); }
  }

  /** Parsing one more record at the end of a run of records. */
  lemma {:induction false} RecordsSnoc(p: seq<byte>, pos: nat, n: nat)
    requires n > 0
    ensures Records(p, pos, n) ==
            match Records(p, pos, n - 1)
            case None => None
            case Some(rs) =>
              match ParseRr(p, RecordsEnd(rs, pos))
              case None => None
              case Some(r) => Some(rs + [r])
    decreases n
  {
    assert Records(p, pos, 0) == Some([]);
    if n == 1 {
      match ParseRr(p, pos)
      case None =>
      case Some(r) =>
        assert Records(p, r.end, 0) == Some([]);
        assert [r] + [] == [] + [r];
    } else {
      match ParseRr(p, pos)
      case None =>
      case Some(r) =>
        RecordsSnoc(p, r.end, n - 1);
        if Records(p, r.end, n - 2).Some? {
          var rest := Records(p, r.end, n - 2).value;
          assert RecordsEnd([r] + rest, pos) == RecordsEnd(rest, r.end);
          match ParseRr(p, RecordsEnd(rest, r.end))
          case None =>
          case Some(x) => assert [r] + (rest + [x]) == [r] + rest + [x];
        }
    }
  }

  lemma {:induction false} RecordsPrefix(p: seq<byte>, pos: nat, m: nat, n: nat)
    requires m <= n && Records(p, pos, n).Some?
    ensures Records(p, pos, m) == Some(Records(p, pos, n).value[..m])
    decreases n - m
  {
    if m < n {
      RecordsPrefix(p, pos, m + 1, n);
      RecordsSnoc(p, pos, m + 1);
      assert Records(p, pos, m).value == Records(p, pos, m + 1).value[..m];
      var all := Records(p, pos, n).value;
      assert all[..m + 1][..m] == all[..m];
    } else {
      assert Records(p, pos, m).value[..m] == Records(p, pos, m).value;
    }
  }

  // The flags of a header as they are written (section 4.1.1 of RFC 1035 and section 3.2 of
  // RFC 4035).

  datatype Flags = Flags(
    qr: bool, opcode: nat, aa: bool, tc: bool, rd: bool, ra: bool, z: bool, ad: bool, cd: bool, rcode: nat)

  function Weight(b: bool, weight: nat): nat {
    if b then weight else 0
  }

  /** The third and fourth byte of `p` are these flags. */
  ghost predicate HasFlags(p: seq<byte>, f: Flags) {
    && |p| >= 4 && f.opcode < 16 && f.rcode < 16
    && p[2] == Weight(f.qr, 0x80) + 8 * f.opcode + Weight(f.aa, 4) + Weight(f.tc, 2) + Weight(f.rd, 1)
    && p[3] == Weight(f.ra, 0x80) + Weight(f.z, 0x40) + Weight(f.ad, 0x20) + Weight(f.cd, 0x10) + f.rcode
  }

  lemma {:induction false} FirstFlags(a: byte) returns (qr: bool, opcode: nat, aa: bool, tc: bool, rd: bool)
    ensures opcode < 16
    ensures a == Weight(qr, 0x80) + 8 * opcode + Weight(aa, 4) + Weight(tc, 2) + Weight(rd, 1)
  {
    var h := a / 2;
    var q := h / 2;
    var o := q / 2;
    qr, opcode, aa, tc, rd := o / 16 == 1, o % 16, q % 2 == 1, h % 2 == 1, a % 2 == 1;
  }

  lemma {:induction false} SecondFlags(b: byte) returns (ra: bool, z: bool, ad: bool, cd: bool, rcode: nat)
    ensures rcode < 16
    ensures b == Weight(ra, 0x80) + Weight(z, 0x40) + Weight(ad, 0x20) + Weight(cd, 0x10) + rcode
  {
    var h := b / 0x10;
    var q := h / 2;
    var o := q / 2;
    ra, z, ad, cd, rcode := o / 2 == 1, o % 2 == 1, q % 2 == 1, h % 2 == 1, b % 16;
  }

  /** Every message has flags. */
  lemma {:induction false} FlagsExist(p: seq<byte>) returns (f: Flags)
    requires |p| >= 4
    ensures HasFlags(p, f)
  {
    hide Weight;
    var qr, opcode, aa, tc, rd := FirstFlags(p[2]);
    var ra, z, ad, cd, rcode := SecondFlags(p[3]);
    f := Flags(qr, opcode, aa, tc, rd, ra, z, ad, cd, rcode);
  }

  // Names and records as they are written (sections 4.1.3 and 4.1.4 of RFC 1035).

  /** A name ends with the root or with a pointer to the rest of it. */
  datatype NameEnd = Root | Pointer(high: byte, low: byte)

  datatype Name = Name(labels: seq<seq<byte>>, last: NameEnd)

  predicate LabelsOk(labels: seq<seq<byte>>) {
    forall i :: 0 <= i < |labels| ==> 1 <= |labels[i]| <= 63
  }

  predicate NameOk(n: Name) {
    LabelsOk(n.labels) && (n.last.Pointer? ==> n.last.high >= 0xC0)
  }

  function LabelBytes(labels: seq<seq<byte>>): seq<byte>
    requires LabelsOk(labels)
  {
    if labels == [] then [] else [|labels[0]|] + labels[0] + LabelBytes(labels[1..])
  }

  function EndBytes(e: NameEnd): seq<byte> {
    match e case Root => [0] case Pointer(high, low) => [high, low]
  }

  function NameBytes(n: Name): seq<byte>
    requires NameOk(n)
  {
    LabelBytes(n.labels) + EndBytes(n.last)
  }

  lemma {:induction false} LabelsAt(p: seq<byte>, pos: nat, n: Name)
    requires NameOk(n) && n.labels != [] && At(p, pos, NameBytes(n))
    ensures pos < |p| && p[pos] == |n.labels[0]|
    ensures At(p, pos + 1 + |n.labels[0]|, NameBytes(Name(n.labels[1..], n.last)))
    ensures |NameBytes(n)| == 1 + |n.labels[0]| + |NameBytes(Name(n.labels[1..], n.last))|
  {
    var l, rest := n.labels[0], NameBytes(Name(n.labels[1..], n.last));
    assert NameBytes(n) == [|l|] + l + rest;
    AtCat(p, pos, [|l|] + l, rest);
    AtCat(p, pos, [|l|], l);
    assert p[pos..pos + 1][0] == p[pos];
  }

  lemma {:induction false} NameWritten(p: seq<byte>, pos: nat, n: Name)
    requires NameOk(n) && At(p, pos, NameBytes(n))
    ensures SkipName(p, pos) == Some(pos + |NameBytes(n)|)
    decreases |n.labels|
  {
    hide NameBytes, At;
    if n.labels == [] {
      EndAt(p, pos, n);
    } else {
      LabelsAt(p, pos, n);
      NameWritten(p, pos + 1 + |n.labels[0]|, Name(n.labels[1..], n.last));
      AtWithin(p, pos + 1 + |n.labels[0]|, NameBytes(Name(n.labels[1..], n.last)));
    }
  }

  lemma {:induction false} AtWithin(p: seq<byte>, pos: nat, s: seq<byte>)
    requires At(p, pos, s)
    ensures pos + |s| <= |p|
  {
  }

  lemma {:induction false} EndAt(p: seq<byte>, pos: nat, n: Name)
    requires NameOk(n) && n.labels == [] && At(p, pos, NameBytes(n))
    ensures SkipName(p, pos) == Some(pos + |NameBytes(n)|)
  {
    var s := NameBytes(n);
    assert s == EndBytes(n.last) && p[pos] == p[pos..pos + |s|][0];
  }

  lemma {:induction false} NameCons(l: seq<byte>, rest: Name)
    requires NameOk(rest) && 1 <= |l| <= 63
    ensures var n := Name([l] + rest.labels, rest.last); NameOk(n) && NameBytes(n) == [|l|] + l + NameBytes(rest)
  {
    var labels := [l] + rest.labels;
    assert labels[1..] == rest.labels;
    assert LabelBytes(labels) == [|l|] + l + LabelBytes(rest.labels);
  }

  lemma {:induction false} EndRead(e: NameEnd)
    requires e.Pointer? ==> e.high >= 0xC0
    ensures NameOk(Name([], e)) && NameBytes(Name([], e)) == EndBytes(e)
  {
  }

  lemma {:induction false} NameRead(p: seq<byte>, pos: nat) returns (n: Name)
    requires SkipName(p, pos).Some?
    ensures NameOk(n) && NameBytes(n) == p[pos..SkipName(p, pos).value]
    decreases |p| - pos
  {
    hide NameBytes, NameOk;
    var len, end := p[pos], SkipName(p, pos).value;
    if len == 0 {
      n := Name([], Root);
      EndRead(Root);
      assert p[pos..end] == [0];
    } else if len >= 0xC0 {
      var e := Pointer(len, p[pos + 1]);
      n := Name([], e);
      EndRead(e);
      assert p[pos..end] == [len, p[pos + 1]];
    } else {
      var next := pos + 1 + len;
      var rest := NameRead(p, next);
      var l := p[pos + 1..next];
      n := Name([l] + rest.labels, rest.last);
      NameCons(l, rest);
      assert p[pos..end] == [len] + l + p[next..end];
    }
  }

  /** The bytes are a name. */
  ghost predicate IsName(s: seq<byte>) {
    exists n: Name :: NameOk(n) && NameBytes(n) == s
  }

  /** A name is read up to `end` exactly when the bytes up to there are a name. */
  lemma {:induction false} SkipNameExact(p: seq<byte>, pos: nat, end: nat)
    ensures SkipName(p, pos) == Some(end) <==> pos <= end <= |p| && IsName(p[pos..end])
  {
    hide NameBytes, SkipName;
    if SkipName(p, pos) == Some(end) { var n := NameRead(p, pos); }
    if pos <= end <= |p| && IsName(p[pos..end]) {
      var n: Name :| NameOk(n) && NameBytes(n) == p[pos..end];
      NameWritten(p, pos, n);
    }
  }

  /** A record before it is written. */
  datatype Record = Record(name: Name, rrType: u16, rrClass: u16, ttl: u32, data: seq<byte>)

  predicate RecordOk(r: Record) {
    NameOk(r.name) && |r.data| < 0x1_0000
  }

  /** The ten bytes between name and data, most significant byte first. */
  function FixedBytes(r: Record): (s: seq<byte>)
    requires RecordOk(r)
    ensures |s| == 10
  {
    var n := |r.data|;
    [r.rrType / 0x100, r.rrType % 0x100, r.rrClass / 0x100, r.rrClass % 0x100,
     r.ttl / 0x100_0000, r.ttl / 0x1_0000 % 0x100, r.ttl / 0x100 % 0x100, r.ttl % 0x100, n / 0x100, n % 0x100]
  }

  function RecordBytes(r: Record): seq<byte>
    requires RecordOk(r)
  {
    NameBytes(r.name) + FixedBytes(r) + r.data
  }

  /** Where the parts of a record are that stands at `pos`. */
  function Placed(r: Record, pos: nat): Rr
    requires RecordOk(r)
  {
    var fixed := pos + |NameBytes(r.name)|;
    Rr(pos, fixed, r.rrType, r.ttl, fixed + 10, fixed + 10 + |r.data|)
  }

  lemma {:induction false} FixedRead(p: seq<byte>, fixed: nat, r: Record)
    requires RecordOk(r) && At(p, fixed, FixedBytes(r))
    ensures fixed + 10 <= |p| && U16(p, fixed) == r.rrType && U32(p, fixed + 4) == r.ttl
    ensures U16(p, fixed + 8) == |r.data|
  {
    var s := FixedBytes(r);
    assert forall i :: 0 <= i < 10 ==> p[fixed + i] == p[fixed..fixed + 10][i] == s[i];
    assert p[fixed + 0] == s[0];
    Be32Digits(r.ttl);
  }

  lemma {:induction false} RecordWritten(p: seq<byte>, pos: nat, r: Record)
    requires RecordOk(r) && At(p, pos, RecordBytes(r))
    ensures ParseRr(p, pos) == Some(Placed(r, pos))
  {
    hide NameBytes, FixedBytes, At;
    var name, fixed := NameBytes(r.name), FixedBytes(r);
    AtCat(p, pos, name + fixed, r.data);
    AtCat(p, pos, name, fixed);
    NameWritten(p, pos, r.name);
    FixedRead(p, pos + |name|, r);
    AtWithin(p, pos + |name + fixed|, r.data);
  }

  lemma {:induction false} FixedWritten(p: seq<byte>, fixed: nat, r: Record)
    requires RecordOk(r) && fixed + 10 <= |p|
    requires r.rrType == U16(p, fixed) && r.rrClass == U16(p, fixed + 2) && r.ttl == U32(p, fixed + 4)
    requires |r.data| == U16(p, fixed + 8)
    ensures p[fixed..fixed + 10] == FixedBytes(r)
  {
    FourDigits(p[fixed + 4], p[fixed + 5], p[fixed + 6], p[fixed + 7]);
  }

  lemma {:induction false} FourDigits(a: byte, b: byte, c: byte, d: byte)
    ensures var n := (a as int) * 0x100_0000 + (b as int) * 0x1_0000 + (c as int) * 0x100 + d;
            n / 0x100_0000 == a && n / 0x1_0000 % 0x100 == b && n / 0x100 % 0x100 == c && n % 0x100 == d
  {
    var x: int := (a as int) * 0x100 + b;
    var y: int := x * 0x100 + c;
    var n: int := y * 0x100 + d;
    assert n / 0x100 == y && n / 0x1_0000 == y / 0x100 == x && n / 0x100_0000 == x / 0x100;
  }

  lemma {:induction false} RecordRead(p: seq<byte>, pos: nat) returns (r: Record)
    requires ParseRr(p, pos).Some?
    ensures RecordOk(r) && At(p, pos, RecordBytes(r)) && ParseRr(p, pos) == Some(Placed(r, pos))
  {
    hide NameBytes, FixedBytes, SkipName;
    var rr := ParseRr(p, pos).value;
    var name := NameRead(p, pos);
    r := Record(name, rr.rrType, U16(p, rr.fixed + 2), rr.ttl, p[rr.rdata..rr.end]);
    FixedWritten(p, rr.fixed, r);
    assert p[pos..rr.end] == p[pos..rr.fixed] + p[rr.fixed..rr.rdata] + p[rr.rdata..rr.end];
  }

  /** A record is read exactly where one is written, with its type, lifetime and places. */
  lemma {:induction false} ParseRrExact(p: seq<byte>, pos: nat, rr: Rr)
    ensures ParseRr(p, pos) == Some(rr) <==>
            exists r: Record :: RecordOk(r) && At(p, pos, RecordBytes(r)) && Placed(r, pos) == rr
  {
    hide RecordBytes, ParseRr, At, Placed;
    if ParseRr(p, pos) == Some(rr) { var r := RecordRead(p, pos); }
    if r: Record :| RecordOk(r) && At(p, pos, RecordBytes(r)) && Placed(r, pos) == rr { RecordWritten(p, pos, r); }
  }
}
