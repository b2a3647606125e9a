/** The TTL scan and the in-place TTL patch of `src/dns/ttl.rs`. Offsets are kept as
    naturals: a DNS message has at most 65535 bytes, so the narrowing to 32 bits in
    the source never loses anything. */
module Ttl {
  import opened Prelude
  import opened Wire

  const SOA: u16 := 6
  /** Longest lifetime of a negative answer (section 5 of RFC 2308). */
  const NEGATIVE_CAP: u32 := 10800

  /** Position of a TTL field and a lifetime for it. */
  type Pair = (nat, u32)

  datatype Scan = Scan(offsets: seq<Pair>, anOffsets: nat, soa: Option<u32>)

  function Min(a: u32, b: u32): u32 {
    if a <= b then a else b
  }

  function ExtractSoaMinimum(p: seq<byte>, rdata: nat, rdataEnd: nat): Option<u32>
    requires rdataEnd <= |p|
  {
    match SkipName(p, rdata)
    case None => None
    case Some(m) =>
      match SkipName(p, m)
      case None => None
      case Some(q) => if q + 20 > rdataEnd then None else Some(U32(p, q + 16))
  }

  /** TTL fields of the records that are not OPT. */
  function Offsets(rs: seq<Rr>): seq<Pair> {
    if rs == [] then []
    else
      var r := rs[|rs| - 1];
      Offsets(rs[..|rs| - 1]) + (if r.rrType != OPT then [(r.fixed + 4, r.ttl)] else [])
  }

  predicate AllFit(p: seq<byte>, rs: seq<Rr>) {
    forall i :: 0 <= i < |rs| ==> rs[i].end <= |p|
  }

  /** Lifetime from the first usable SOA record of the authority section. */
  function SoaTtl(p: seq<byte>, rs: seq<Rr>, an: nat, ns: nat): Option<u32>
    requires AllFit(p, rs)
  {
    if rs == [] then None
    else
      var i := |rs| - 1;
      var earlier := SoaTtl(p, rs[..i], an, ns);
      if earlier.Some? then earlier
      else if rs[i].rrType == SOA && an <= i < an + ns then
        match ExtractSoaMinimum(p, rs[i].rdata, rs[i].end)
        case None => None
        case Some(minimum) => Some(Min(rs[i].ttl, minimum))
      else None
  }

  lemma {:induction false} RecordsFit(p: seq<byte>, pos: nat, n: nat)
    requires Records(p, pos, n).Some?
    ensures AllFit(p, Records(p, pos, n).value)
  {
    RecordsTile(p, pos, n);
  }

  function ScanOf(p: seq<byte>, questionEnd: nat, an: nat, ns: nat, ar: nat): Option<Scan> {
    if |p| < 12 || questionEnd > |p| then None
    else
      match Records(p, questionEnd, an + ns + ar)
      case None => None
      case Some(rs) =>
        RecordsFit(p, questionEnd, an + ns + ar);
        Some(Scan(Offsets(rs), |Offsets(rs[..an])|, SoaTtl(p, rs, an, ns)))
  }

  lemma {:induction false} RecordsStuck(p: seq<byte>, pos: nat, m: nat, n: nat)
    requires m <= n && Records(p, pos, m).None?
    ensures Records(p, pos, n).None?
  {
    if Records(p, pos, n).Some? { RecordsPrefix(p, pos, m, n); }
  }

  method TtlOffsetsAndSoa(p: seq<byte>, questionEnd: nat, an: nat, ns: nat, ar: nat) returns (r: Option<Scan>)
    ensures r == ScanOf(p, questionEnd, an, ns, ar)
  {
    hide SkipName, ParseRr, Records;
    var total := an + ns + ar;
    var offsets, anOffsets, soa := [], 0, None;
    if |p| < 12 || questionEnd > |p| { return None; }
    var pos := questionEnd;
    ghost var rs: seq<Rr> := [];
    NoRecords(p, pos);
    for i := 0 to total
      invariant Records(p, questionEnd, i) == Some(rs) && |rs| == i && AllFit(p, rs)
      invariant pos == RecordsEnd(rs, questionEnd)
      invariant offsets == Offsets(rs)
      invariant anOffsets == |Offsets(rs[..if i < an then i else an])|
      invariant soa == SoaTtl(p, rs, an, ns)
    {
      RecordsSnoc(p, questionEnd, i + 1);
      var rr := ReadRr(p, pos);
      if rr.None? {
        RecordsStuck(p, questionEnd, i + 1, total);
        return None;
      }
      var rec := rr.value;
      ghost var rs' := rs + [rec];
      assert rs'[..i] == rs;
      if rec.rrType != OPT {
        offsets := offsets + [(rec.fixed + 4, rec.ttl)];
        if i < an { anOffsets := anOffsets + 1; }
      }
      if rec.rrType == SOA && soa.None? && an <= i < an + ns {
        var minimum := ReadSoaMinimum(p, rec.rdata, rec.end);
        if minimum.Some? { soa := Some(Min(rec.ttl, minimum.value)); }
      }
      pos := rec.end;
      assert rs'[..if i + 1 < an then i + 1 else an] ==
             if i < an then rs' else rs[..an];
      assert i < an ==> rs[..i] == rs;
      rs := rs';
    }
    return Some(Scan(offsets, anOffsets, soa));
  }

  lemma {:induction false} NoRecords(p: seq<byte>, pos: nat)
    ensures Records(p, pos, 0) == Some([])
  {
  }

  method ReadRr(p: seq<byte>, pos: nat) returns (r: Option<Rr>)
    ensures r == ParseRr(p, pos)
  {
    var fixed := ReadName(p, pos);
    if fixed.None? || fixed.value + 10 > |p| { return None; }
    var f := fixed.value;
    var end := f + 10 + U16(p, f + 8);
    if end > |p| { return None; }
    return Some(Rr(pos, f, U16(p, f), U32(p, f + 4), f + 10, end));
  }

  method ReadSoaMinimum(p: seq<byte>, rdata: nat, rdataEnd: nat) returns (r: Option<u32>)
    requires rdataEnd <= |p|
    ensures r == ExtractSoaMinimum(p, rdata, rdataEnd)
  {
    var m := ReadName(p, rdata);
    if m.None? { return None; }
    var q := ReadName(p, m.value);
    if q.None? || q.value + 20 > rdataEnd { return None; }
    return Some(U32(p, q.value + 16));
  }

  // Effective lifetimes.

  predicate IsGoodReply(p: seq<byte>) {
    |p| >= 12 && p[2] >= 0x80 && p[3] % 0x10 in {0, 3}
  }

  /** A reply without error, or for a name that does not exist. */
  lemma {:induction false} ReplyRead(p: seq<byte>, f: Flags)
    requires HasFlags(p, f)
    ensures IsGoodReply(p) <==> |p| >= 12 && f.qr && (f.rcode == 0 || f.rcode == 3)
  {
    var high := Weight(f.ra, 8) + Weight(f.z, 4) + Weight(f.ad, 2) + Weight(f.cd, 1);
    assert p[3] == 0x10 * high + f.rcode;
  }

  function Clamp(raw: u32, minTtl: u32, maxTtl: u32): u32 {
    var v := if raw >= minTtl then raw else minTtl;
    if maxTtl > 0 then Min(v, maxTtl) else v
  }

  /** `v` is `raw` raised to the minimum and then, if there is a maximum, cut to it. */
  predicate Clamped(raw: u32, minTtl: u32, maxTtl: u32, v: u32) {
    && (maxTtl > 0 ==> v <= maxTtl)
    && (v < minTtl ==> maxTtl > 0 && v == maxTtl)
    && (v == raw || (v == minTtl && raw < minTtl) || (maxTtl > 0 && v == maxTtl && (raw > maxTtl || minTtl > maxTtl)))
  }

  lemma {:induction false} ClampExact(raw: u32, minTtl: u32, maxTtl: u32, v: u32)
    ensures Clamped(raw, minTtl, maxTtl, v) <==> v == Clamp(raw, minTtl, maxTtl)
  {
  }

  function ClampAll(offsets: seq<Pair>, minTtl: u32, maxTtl: u32): (r: seq<Pair>)
    ensures |r| == |offsets|
    ensures forall i :: 0 <= i < |r| ==> r[i] == (offsets[i].0, Clamp(offsets[i].1, minTtl, maxTtl))
  {
    seq(|offsets|, i requires 0 <= i < |offsets| => (offsets[i].0, Clamp(offsets[i].1, minTtl, maxTtl)))
  }

  function SetAll(offsets: seq<Pair>, ttl: u32): (r: seq<Pair>)
    ensures |r| == |offsets|
    ensures forall i :: 0 <= i < |r| ==> r[i] == (offsets[i].0, ttl)
  {
    seq(|offsets|, i requires 0 <= i < |offsets| => (offsets[i].0, ttl))
  }

  /** Smallest lifetime of the pairs, or `other` when there are none. */
  function MinTtl(pairs: seq<Pair>, other: u32): (r: u32)
    ensures forall i :: 0 <= i < |pairs| ==> r <= pairs[i].1
    ensures if pairs == [] then r == other else exists i :: 0 <= i < |pairs| && r == pairs[i].1
  {
    if pairs == [] then other
    else if |pairs| == 1 then pairs[0].1
    else
      var m := MinTtl(pairs[1..], other);
      assert forall i :: 0 < i < |pairs| ==> pairs[i] == pairs[1..][i - 1];
      Min(pairs[0].1, m)
  }

  datatype Policy = Policy(nodataTtl: u32, minTtl: u32, maxTtl: u32)

  datatype Lifetimes = Lifetimes(ttl: u32, offsets: seq<Pair>)

  function AnCount(p: seq<byte>): u16 requires |p| >= 12 { U16(p, 6) }
  function NsCount(p: seq<byte>): u16 requires |p| >= 12 { U16(p, 8) }
  function ArCount(p: seq<byte>): u16 requires |p| >= 12 { U16(p, 10) }

  function EffectiveTtl(p: seq<byte>, questionEnd: nat, policy: Policy): Option<Lifetimes> {
    if !IsGoodReply(p) then None
    else
      match ScanOf(p, questionEnd, AnCount(p), NsCount(p), ArCount(p))
      case None => None
      case Some(scan) =>
        if AnCount(p) == 0 then
          var soa := Min(if scan.soa.Some? then scan.soa.value else policy.nodataTtl, NEGATIVE_CAP);
          var effective := Clamp(soa, policy.minTtl, policy.maxTtl);
          Some(Lifetimes(effective, SetAll(scan.offsets, effective)))
        else
          var offsets := ClampAll(scan.offsets, policy.minTtl, policy.maxTtl);
          AnswersWithin(p, questionEnd, AnCount(p), NsCount(p), ArCount(p));
          Some(Lifetimes(MinTtl(offsets[..scan.anOffsets], policy.nodataTtl), offsets))
  }

  method EffectiveTtlAndOffsets(p: seq<byte>, questionEnd: nat, policy: Policy) returns (r: Option<Lifetimes>)
    ensures r == EffectiveTtl(p, questionEnd, policy)
  {
    if !IsGoodReply(p) { return None; }
    var an := AnCount(p);
    var scan := TtlOffsetsAndSoa(p, questionEnd, an, NsCount(p), ArCount(p));
    if scan.None? { return None; }
    AnswersWithin(p, questionEnd, an, NsCount(p), ArCount(p));
    if an == 0 {
      var soa := Min(if scan.value.soa.Some? then scan.value.soa.value else policy.nodataTtl, NEGATIVE_CAP);
      var effective := Clamp(soa, policy.minTtl, policy.maxTtl);
      return Some(Lifetimes(effective, SetAll(scan.value.offsets, effective)));
    } else {
      var offsets := ClampAll(scan.value.offsets, policy.minTtl, policy.maxTtl);
      return Some(Lifetimes(MinTtl(offsets[..scan.value.anOffsets], policy.nodataTtl), offsets));
    }
  }

  lemma {:induction false} OffsetsPrefix(rs: seq<Rr>, m: nat)
    requires m <= |rs|
    ensures Offsets(rs[..m]) <= Offsets(rs)
  {
    if m < |rs| {
      OffsetsPrefix(rs[..|rs| - 1], m);
      assert rs[..|rs| - 1][..m] == rs[..m];
    } else {
      assert rs[..m] == rs;
    }
  }

  /** The slice of answer offsets is never out of range. */
  lemma {:induction false} AnswersWithin(p: seq<byte>, questionEnd: nat, an: nat, ns: nat, ar: nat)
    requires ScanOf(p, questionEnd, an, ns, ar).Some?
    ensures var s := ScanOf(p, questionEnd, an, ns, ar).value; s.anOffsets <= |s.offsets|
  {
    OffsetsPrefix(Records(p, questionEnd, an + ns + ar).value, an);
  }

  // The patch.

  function SatSub(a: u32, b: nat): u32 {
    if a <= b then 0 else a - b
  }

  /** `rest` is what `elapsed` seconds leave of `ttl`. */
  predicate CountsDown(ttl: u32, elapsed: nat, rest: u32) {
    if elapsed <= ttl then rest + elapsed == ttl else rest == 0
  }

  function Write32(p: seq<byte>, off: nat, v: u32): (r: seq<byte>)
    requires off + 4 <= |p|
    ensures |r| == |p|
  {
    p[..off] + Be32(v) + p[off + 4..]
  }

  function Patched(p: seq<byte>, offsets: seq<Pair>, elapsed: nat): (r: seq<byte>)
    ensures |r| == |p|
  {
    if offsets == [] then p
    else
      var last := offsets[|offsets| - 1];
      var q := Patched(p, offsets[..|offsets| - 1], elapsed);
      if last.0 + 4 <= |p| then Write32(q, last.0, SatSub(last.1, elapsed)) else q
  }

  method PatchTtlsAt(packet: array<byte>, offsets: seq<Pair>, elapsed: nat)
    modifies packet
    ensures packet[..] == Patched(old(packet[..]), offsets, elapsed)
  {
    ghost var p := packet[..];
    assert offsets[..0] == [];
    for i := 0 to |offsets|
      invariant packet[..] == Patched(p, offsets[..i], elapsed)
    {
      assert offsets[..i + 1][..i] == offsets[..i];
      var (offset, original) := offsets[i];
      var remaining := SatSub(original, elapsed);
      ghost var before := packet[..];
      if offset + 4 <= packet.Length {
        var b := Be32(remaining);
        packet[offset], packet[offset + 1], packet[offset + 2], packet[offset + 3] := b[0], b[1], b[2], b[3];
        assert packet[..] == Write32(before, offset, remaining);
      }
    }
    assert offsets[..|offsets|] == offsets;
  }

  ghost predicate InField(offsets: seq<Pair>, j: nat) {
    exists i :: 0 <= i < |offsets| && offsets[i].0 <= j < offsets[i].0 + 4
  }

  lemma {:induction false} PatchedElsewhere(p: seq<byte>, offsets: seq<Pair>, elapsed: nat, j: nat)
    requires j < |p| && !InField(offsets, j)
    ensures Patched(p, offsets, elapsed)[j] == p[j]
  {
    if offsets != [] {
      var n := |offsets| - 1;
      assert !(offsets[n].0 <= j < offsets[n].0 + 4);
      assert forall i :: 0 <= i < n ==> offsets[..n][i] == offsets[i];
      PatchedElsewhere(p, offsets[..n], elapsed, j);
    }
  }

  /** Fields of distinct pairs do not overlap. */
  ghost predicate Spaced(offsets: seq<Pair>) {
    forall i, j :: 0 <= i < j < |offsets| ==> offsets[i].0 + 4 <= offsets[j].0
  }

  lemma {:induction false} PatchedField(p: seq<byte>, offsets: seq<Pair>, elapsed: nat, i: nat)
    requires Spaced(offsets) && i < |offsets| && offsets[i].0 + 4 <= |p|
    ensures CountsDown(offsets[i].1, elapsed, U32(Patched(p, offsets, elapsed), offsets[i].0))
  {
    var n := |offsets| - 1;
    var off := offsets[i].0;
    var q := Patched(p, offsets[..n], elapsed);
    var v := SatSub(offsets[n].1, elapsed);
    if i == n {
      U32Slice(Write32(q, off, v), off);
      assert Write32(q, off, v)[off..off + 4] == Be32(v);
    } else {
      PatchedField(p, offsets[..n], elapsed, i);
      if offsets[n].0 + 4 <= |p| {
        var w := Write32(q, offsets[n].0, v);
        assert off + 4 <= offsets[n].0;
        U32Slice(w, off);
        U32Slice(q, off);
        assert w[off..off + 4] == q[off..off + 4];
      }
    }
  }

  lemma {:induction false} U32Slice(p: seq<byte>, off: nat)
    requires off + 4 <= |p|
    ensures U32(p, off) == U32(p[off..off + 4], 0)
  {
  }

  // Rescanning a patched message.

  /** Every pair of a scan is the TTL field of a record that is not OPT. */
  lemma {:induction false} OffsetOrigin(rs: seq<Rr>, m: nat) returns (k: nat)
    requires m < |Offsets(rs)|
    ensures k < |rs| && rs[k].rrType != OPT && Offsets(rs)[m] == (rs[k].fixed + 4, rs[k].ttl)
    ensures |Offsets(rs[..k])| == m
  {
    var n := |rs| - 1;
    if m < |Offsets(rs[..n])| {
      k := OffsetOrigin(rs[..n], m);
      assert rs[..n][..k] == rs[..k];
    } else {
      k := n;
    }
  }

  /** And every such record has its pair. */
  lemma {:induction false} OffsetOf(rs: seq<Rr>, k: nat)
    requires k < |rs| && rs[k].rrType != OPT
    ensures |Offsets(rs[..k])| < |Offsets(rs)|
    ensures Offsets(rs)[|Offsets(rs[..k])|] == (rs[k].fixed + 4, rs[k].ttl)
  {
    OffsetsPrefix(rs, k + 1);
    assert rs[..k + 1][..k] == rs[..k];
  }

  lemma {:induction false} OffsetsGrow(rs: seq<Rr>, j: nat, k: nat)
    requires j <= k <= |rs|
    ensures |Offsets(rs[..j])| <= |Offsets(rs[..k])|
  {
    OffsetsPrefix(rs[..k], j);
    assert rs[..k][..j] == rs[..j];
  }

  ghost predicate Tiled(p: seq<byte>, rs: seq<Rr>) {
    && (forall i :: 0 <= i < |rs| ==> RrFits(p, rs[i].start, rs[i]))
    && (forall i, j :: 0 <= i < j < |rs| ==> rs[i].end <= rs[j].start)
  }

  lemma {:induction false} TiledRecords(p: seq<byte>, pos: nat, n: nat)
    requires Records(p, pos, n).Some?
    ensures Tiled(p, Records(p, pos, n).value)
  {
    hide Records, ParseRr;
    RecordsTile(p, pos, n);
    var rs := Records(p, pos, n).value;
    forall i, j | 0 <= i < j < n ensures rs[i].end <= rs[j].start {
      RecordsApart(p, pos, n, i, j);
    }
  }

  lemma {:induction false} OffsetsSpaced(p: seq<byte>, rs: seq<Rr>)
    requires Tiled(p, rs)
    ensures Spaced(Offsets(rs))
  {
    hide Offsets;
    forall a, b | 0 <= a < b < |Offsets(rs)| ensures Offsets(rs)[a].0 + 4 <= Offsets(rs)[b].0 {
      var j := OffsetOrigin(rs, a);
      var k := OffsetOrigin(rs, b);
      if k <= j { OffsetsGrow(rs, k, j); }
    }
  }

  /** Same fields, possibly other lifetimes. */
  ghost predicate SamePlaces(a: seq<Pair>, b: seq<Pair>) {
    |a| == |b| && forall i :: 0 <= i < |a| ==> a[i].0 == b[i].0
  }

  lemma {:induction false} PlacesSpaced(a: seq<Pair>, b: seq<Pair>)
    requires SamePlaces(a, b) && Spaced(a)
    ensures Spaced(b)
  {
  }

  /** A byte of a record outside its TTL field, or of an OPT record, is in no field. */
  lemma {:induction false} OutsideField(p: seq<byte>, rs: seq<Rr>, pairs: seq<Pair>, k: nat, j: nat)
    requires Tiled(p, rs) && SamePlaces(Offsets(rs), pairs)
    requires k < |rs| && rs[k].start <= j < rs[k].end
    requires rs[k].rrType == OPT || j < rs[k].fixed + 4 || rs[k].fixed + 8 <= j
    ensures !InField(pairs, j)
  {
    hide Offsets;
    forall m | 0 <= m < |pairs| ensures !(pairs[m].0 <= j < pairs[m].0 + 4) {
      var i := OffsetOrigin(rs, m);
    }
  }

  /** Changing only its TTL field, a record is read back with just the lifetime changed. */
  lemma {:induction false} ParseRrSame(p: seq<byte>, q: seq<byte>, pos: nat)
    requires |p| == |q| && ParseRr(p, pos).Some?
    requires var r := ParseRr(p, pos).value;
             forall j :: pos <= j < r.fixed + 4 || r.fixed + 8 <= j < r.fixed + 10 ==> p[j] == q[j]
    ensures var r := ParseRr(p, pos).value;
            ParseRr(q, pos) == Some(r.(ttl := U32(q, r.fixed + 4)))
  {
    SkipNameSame(p, q, pos);
  }

  ghost function Retimed(q: seq<byte>, rs: seq<Rr>): (r: seq<Rr>)
    requires Tiled(q, rs)
    ensures |r| == |rs|
    ensures forall i :: 0 <= i < |rs| ==> r[i] == rs[i].(ttl := U32(q, rs[i].fixed + 4))
  {
    seq(|rs|, i requires 0 <= i < |rs| => rs[i].(ttl := U32(q, rs[i].fixed + 4)))
  }

  ghost predicate ReadsBack(q: seq<byte>, r: Rr) {
    r.fixed + 8 <= |q| && ParseRr(q, r.start) == Some(r.(ttl := U32(q, r.fixed + 4)))
  }

  ghost predicate Adjacent(rs: seq<Rr>, i: nat)
    requires 0 < i < |rs|
  {
    rs[i].start == rs[i - 1].end
  }

  ghost predicate Chained(rs: seq<Rr>) {
    forall i :: 0 < i < |rs| ==> Adjacent(rs, i)
  }

  lemma {:induction false} ChainedRest(rs: seq<Rr>)
    requires Chained(rs) && rs != []
    ensures Chained(rs[1..]) && (|rs| > 1 ==> rs[1].start == rs[0].end)
  {
    var rest := rs[1..];
    forall i | 0 < i < |rest| ensures Adjacent(rest, i) { assert Adjacent(rs, i + 1); }
    if |rs| > 1 { assert Adjacent(rs, 1); }
  }

  lemma {:induction false} TiledRest(p: seq<byte>, rs: seq<Rr>)
    requires Tiled(p, rs) && rs != []
    ensures Tiled(p, rs[1..])
  {
  }

  lemma {:induction false} RetimedCons(q: seq<byte>, rs: seq<Rr>)
    requires Tiled(q, rs) && rs != [] && Tiled(q, rs[1..])
    ensures rs[0].fixed + 8 <= |q|
    ensures Retimed(q, rs) == [rs[0].(ttl := U32(q, rs[0].fixed + 4))] + Retimed(q, rs[1..])
  {
    hide U32;
  }

  /** Adjacent records that each read back make up a run that reads back. */
  lemma {:induction false} RecordsSame(q: seq<byte>, pos: nat, rs: seq<Rr>)
    requires Tiled(q, rs) && Chained(rs)
    requires rs != [] ==> rs[0].start == pos
    requires forall i :: 0 <= i < |rs| ==> ReadsBack(q, rs[i])
    ensures Records(q, pos, |rs|) == Some(Retimed(q, rs))
    decreases |rs|
  {
    hide Records, ParseRr, U32, Tiled, Chained, Retimed;
    if rs == [] {
      NoRecords(q, pos);
      RetimedNone(q);
    } else {
      var rest := rs[1..];
      ChainedRest(rs);
      TiledRest(q, rs);
      RecordsSame(q, rs[0].end, rest);
      assert ReadsBack(q, rs[0]);
      RecordsCons(q, pos, |rs|);
      RetimedCons(q, rs);
    }
  }

  lemma {:induction false} RetimedNone(q: seq<byte>)
    ensures Tiled(q, []) && Retimed(q, []) == []
  {
  }

  lemma {:induction false} RecordsCons(p: seq<byte>, pos: nat, n: nat)
    requires n > 0 && ParseRr(p, pos).Some?
    requires Records(p, ParseRr(p, pos).value.end, n - 1).Some?
    ensures Records(p, pos, n) ==
            Some([ParseRr(p, pos).value] + Records(p, ParseRr(p, pos).value.end, n - 1).value)
  {
  }

  function AllRecords(p: seq<byte>, questionEnd: nat): Option<seq<Rr>>
    requires |p| >= 12
  {
    Records(p, questionEnd, AnCount(p) + NsCount(p) + ArCount(p))
  }

  lemma {:induction false} PatchedParse(p: seq<byte>, questionEnd: nat, n: nat, pairs: seq<Pair>, elapsed: nat, k: nat)
    requires Records(p, questionEnd, n).Some? && k < n
    requires SamePlaces(Offsets(Records(p, questionEnd, n).value), pairs)
    ensures var r := Records(p, questionEnd, n).value[k];
            var q := Patched(p, pairs, elapsed);
            && RrFits(p, r.start, r)
            && ParseRr(q, r.start) == Some(r.(ttl := U32(q, r.fixed + 4)))
            && (r.rrType == OPT ==> U32(q, r.fixed + 4) == r.ttl)
            && (r.rrType != OPT ==>
                  var m := |Offsets(Records(p, questionEnd, n).value[..k])|;
                  m < |pairs| && CountsDown(pairs[m].1, elapsed, U32(q, r.fixed + 4)))
  {
    hide Records, ParseRr, Offsets, Patched;
    var rs := Records(p, questionEnd, n).value;
    var r := rs[k];
    var q := Patched(p, pairs, elapsed);
    RecordsTile(p, questionEnd, n);
    TiledRecords(p, questionEnd, n);
    forall j | r.start <= j < r.end && (r.rrType == OPT || j < r.fixed + 4 || r.fixed + 8 <= j)
      ensures p[j] == q[j]
    {
      OutsideField(p, rs, pairs, k, j);
      PatchedElsewhere(p, pairs, elapsed, j);
    }
    ParseRrSame(p, q, r.start);
    TtlOf(p, r.start);
    if r.rrType != OPT {
      OffsetsSpaced(p, rs);
      PlacesSpaced(Offsets(rs), pairs);
      OffsetOf(rs, k);
      PatchedField(p, pairs, elapsed, |Offsets(rs[..k])|);
    }
  }

  lemma {:induction false} TtlOf(p: seq<byte>, pos: nat)
    requires ParseRr(p, pos).Some?
    ensures var r := ParseRr(p, pos).value; r.fixed + 8 <= |p| && r.ttl == U32(p, r.fixed + 4)
  {
  }

  /** `start` is the lifetime a record is served with at age zero: in a response without
      answers that of the entry, otherwise its own, clamped. */
  ghost predicate StartsAt(p: seq<byte>, life: Lifetimes, policy: Policy, r: Rr, start: u32)
    requires |p| >= 12
  {
    if AnCount(p) == 0 then start == life.ttl else Clamped(r.ttl, policy.minTtl, policy.maxTtl, start)
  }

  /** And `ttl` the one it is served with after `elapsed` seconds. */
  ghost predicate ServedAfter(p: seq<byte>, life: Lifetimes, policy: Policy, r: Rr, elapsed: nat, ttl: u32)
    requires |p| >= 12
  {
    exists start: u32 :: StartsAt(p, life, policy, r, start) && CountsDown(start, elapsed, ttl)
  }

  lemma {:induction false} PairsOfScan(p: seq<byte>, questionEnd: nat, policy: Policy)
    requires EffectiveTtl(p, questionEnd, policy).Some?
    ensures |p| >= 12 && questionEnd <= |p| && AllRecords(p, questionEnd).Some?
    ensures var life := EffectiveTtl(p, questionEnd, policy).value;
            var rs := AllRecords(p, questionEnd).value;
            && SamePlaces(Offsets(rs), life.offsets)
            && (AnCount(p) == 0 ==> forall i :: 0 <= i < |life.offsets| ==> life.offsets[i].1 == life.ttl)
            && (AnCount(p) > 0 ==> forall i :: 0 <= i < |life.offsets| ==>
                  life.offsets[i].1 == Clamp(Offsets(rs)[i].1, policy.minTtl, policy.maxTtl))
            && (AnCount(p) > 0 ==> forall i :: 0 <= i < |Offsets(rs[..AnCount(p)])| && i < |life.offsets| ==>
                  life.ttl <= life.offsets[i].1)
  {
    hide Records, Offsets, SoaTtl;
    var life := EffectiveTtl(p, questionEnd, policy).value;
    var rs := AllRecords(p, questionEnd).value;
    if AnCount(p) > 0 {
      var m := |Offsets(rs[..AnCount(p)])|;
      AnswersWithin(p, questionEnd, AnCount(p), NsCount(p), ArCount(p));
      forall i | 0 <= i < m ensures life.ttl <= life.offsets[i].1 {
        assert life.offsets[..m][i] == life.offsets[i];
      }
    }
  }

  lemma {:induction false} PatchedBytes(p: seq<byte>, questionEnd: nat, n: nat, pairs: seq<Pair>, elapsed: nat)
    requires Records(p, questionEnd, n).Some? && questionEnd <= |p|
    requires SamePlaces(Offsets(Records(p, questionEnd, n).value), pairs)
    ensures var q := Patched(p, pairs, elapsed);
            && q[..questionEnd] == p[..questionEnd]
            && forall j :: 0 <= j < |p| && !InField(Offsets(Records(p, questionEnd, n).value), j) ==> q[j] == p[j]
  {
    hide Records, Offsets, Patched;
    var rs := Records(p, questionEnd, n).value;
    var q := Patched(p, pairs, elapsed);
    forall j | 0 <= j < |p| && !InField(Offsets(rs), j) ensures q[j] == p[j] {
      assert !InField(pairs, j);
      PatchedElsewhere(p, pairs, elapsed, j);
    }
    forall j | 0 <= j < questionEnd ensures q[j] == p[j] {
      BeforeRecords(p, questionEnd, n, j);
    }
  }

  lemma {:induction false} PatchedRecords(p: seq<byte>, questionEnd: nat, n: nat, pairs: seq<Pair>, elapsed: nat)
    requires Records(p, questionEnd, n).Some?
    requires SamePlaces(Offsets(Records(p, questionEnd, n).value), pairs)
    ensures var rs := Records(p, questionEnd, n).value;
            var q := Patched(p, pairs, elapsed);
            Tiled(q, rs) && Records(q, questionEnd, n) == Some(Retimed(q, rs))
  {
    hide Records, Offsets, Patched, ParseRr;
    var rs := Records(p, questionEnd, n).value;
    var q := Patched(p, pairs, elapsed);
    TiledRecords(p, questionEnd, n);
    RecordsTile(p, questionEnd, n);
    forall k | 0 <= k < n ensures ReadsBack(q, rs[k]) {
      PatchedParse(p, questionEnd, n, pairs, elapsed, k);
    }
    assert Chained(rs);
    RecordsSame(q, questionEnd, rs);
  }

  lemma {:induction false} PatchedTtl(p: seq<byte>, questionEnd: nat, policy: Policy, elapsed: nat, k: nat)
    requires EffectiveTtl(p, questionEnd, policy).Some?
    requires |p| >= 12 && AllRecords(p, questionEnd).Some? && k < |AllRecords(p, questionEnd).value|
    ensures var life := EffectiveTtl(p, questionEnd, policy).value;
            var r := AllRecords(p, questionEnd).value[k];
            var q := Patched(p, life.offsets, elapsed);
            && r.fixed + 8 <= |q|
            && (r.rrType == OPT ==> U32(q, r.fixed + 4) == r.ttl)
            && (r.rrType != OPT ==> ServedAfter(p, life, policy, r, elapsed, U32(q, r.fixed + 4)))
            && (k < AnCount(p) && r.rrType != OPT && elapsed < life.ttl ==> U32(q, r.fixed + 4) >= 1)
  {
    hide Records, Offsets, Patched, EffectiveTtl, ParseRr, U32;
    PairsOfScan(p, questionEnd, policy);
    var life := EffectiveTtl(p, questionEnd, policy).value;
    var n := AnCount(p) + NsCount(p) + ArCount(p);
    var rs := Records(p, questionEnd, n).value;
    PatchedParse(p, questionEnd, n, life.offsets, elapsed, k);
    if rs[k].rrType != OPT {
      OffsetOf(rs, k);
      var start := life.offsets[|Offsets(rs[..k])|].1;
      ClampExact(rs[k].ttl, policy.minTtl, policy.maxTtl, start);
      assert StartsAt(p, life, policy, rs[k], start);
      if k < AnCount(p) { OffsetsShorter(rs, k, AnCount(p)); }
    }
  }

  /** Serving an accepted response after `elapsed` seconds: the patched message
      parses into the same records, each counting down from its clamped lifetime,
      OPT records and all other bytes untouched, and while the entry is fresh no
      answer reaches zero. */
  lemma {:induction false} PatchedRescan(p: seq<byte>, questionEnd: nat, policy: Policy, elapsed: nat)
    requires 12 <= questionEnd && EffectiveTtl(p, questionEnd, policy).Some?
    ensures |p| >= 12 && AllRecords(p, questionEnd).Some? && questionEnd <= |p|
    ensures var life := EffectiveTtl(p, questionEnd, policy).value;
            var rs := AllRecords(p, questionEnd).value;
            var q := Patched(p, life.offsets, elapsed);
            && |q| == |p| && q[..questionEnd] == p[..questionEnd]
            && (forall j :: 0 <= j < |p| && !InField(Offsets(rs), j) ==> q[j] == p[j])
            && AllRecords(q, questionEnd).Some? && |AllRecords(q, questionEnd).value| == |rs|
            && (forall k :: 0 <= k < |rs| ==>
                  var got := AllRecords(q, questionEnd).value[k];
                  && got == rs[k].(ttl := got.ttl)
                  && (rs[k].rrType == OPT ==> got.ttl == rs[k].ttl)
                  && (rs[k].rrType != OPT ==> ServedAfter(p, life, policy, rs[k], elapsed, got.ttl)))
            && (forall k :: 0 <= k < AnCount(p) && rs[k].rrType != OPT && elapsed < life.ttl ==>
                  AllRecords(q, questionEnd).value[k].ttl >= 1)
  {
    hide Records, Offsets, Patched, EffectiveTtl, Tiled, ServedAfter;
    PairsOfScan(p, questionEnd, policy);
    var life := EffectiveTtl(p, questionEnd, policy).value;
    var n := AnCount(p) + NsCount(p) + ArCount(p);
    var rs := Records(p, questionEnd, n).value;
    var q := Patched(p, life.offsets, elapsed);
    PatchedBytes(p, questionEnd, n, life.offsets, elapsed);
    PatchedRecords(p, questionEnd, n, life.offsets, elapsed);
    SameCounts(p, q, questionEnd);
    forall k | 0 <= k < |rs|
      ensures rs[k].rrType == OPT ==> Retimed(q, rs)[k].ttl == rs[k].ttl
      ensures rs[k].rrType != OPT ==> ServedAfter(p, life, policy, rs[k], elapsed, Retimed(q, rs)[k].ttl)
      ensures k < AnCount(p) && rs[k].rrType != OPT && elapsed < life.ttl ==> Retimed(q, rs)[k].ttl >= 1
    {
      PatchedTtl(p, questionEnd, policy, elapsed, k);
    }
  }

  lemma {:induction false} SameCounts(p: seq<byte>, q: seq<byte>, m: nat)
    requires 12 <= m <= |p| && |q| == |p| && p[..m] == q[..m]
    ensures AnCount(q) == AnCount(p) && NsCount(q) == NsCount(p) && ArCount(q) == ArCount(p)
  {
    assert forall j :: 0 <= j < 12 ==> p[..m][j] == p[j] && q[..m][j] == q[j];
  }

  lemma {:induction false} OffsetsShorter(rs: seq<Rr>, k: nat, m: nat)
    requires k < m <= |rs| && rs[k].rrType != OPT
    ensures |Offsets(rs[..k])| < |Offsets(rs[..m])|
  {
    OffsetOf(rs[..m], k);
    assert rs[..m][..k] == rs[..k];
  }

  lemma {:induction false} BeforeRecords(p: seq<byte>, pos: nat, n: nat, j: nat)
    requires Records(p, pos, n).Some? && j < pos
    ensures !InField(Offsets(Records(p, pos, n).value), j)
  {
    hide Records, Offsets, ParseRr;
    var rs := Records(p, pos, n).value;
    RecordsTile(p, pos, n);
    forall m | 0 <= m < |Offsets(rs)| ensures !(Offsets(rs)[m].0 <= j < Offsets(rs)[m].0 + 4) {
      var k := OffsetOrigin(rs, m);
      RecordsAfter(p, pos, n, k);
    }
  }

  // What the entry lifetime is.

  /** Record `i` is a usable SOA record of the authority section. */
  ghost predicate UsableSoa(p: seq<byte>, rs: seq<Rr>, an: nat, ns: nat, i: nat)
    requires AllFit(p, rs) && i < |rs|
  {
    rs[i].rrType == SOA && an <= i < an + ns && ExtractSoaMinimum(p, rs[i].rdata, rs[i].end).Some?
  }

  /** The first usable SOA record gives the smaller of its TTL and its MINIMUM field. */
  lemma {:induction false} SoaMeaning(p: seq<byte>, rs: seq<Rr>, an: nat, ns: nat)
    requires AllFit(p, rs)
    ensures SoaTtl(p, rs, an, ns).None? <==> forall i :: 0 <= i < |rs| ==> !UsableSoa(p, rs, an, ns, i)
    ensures SoaTtl(p, rs, an, ns).Some? ==>
              exists i :: 0 <= i < |rs| && UsableSoa(p, rs, an, ns, i)
                && (forall j :: 0 <= j < i ==> !UsableSoa(p, rs, an, ns, j))
                && SoaTtl(p, rs, an, ns).value == Min(rs[i].ttl, ExtractSoaMinimum(p, rs[i].rdata, rs[i].end).value)
    decreases |rs|
  {
    hide ExtractSoaMinimum;
    if rs != [] {
      var n := |rs| - 1;
      var front := rs[..n];
      SoaMeaning(p, front, an, ns);
      forall i | 0 <= i < n ensures UsableSoa(p, rs, an, ns, i) <==> UsableSoa(p, front, an, ns, i) {}
      if SoaTtl(p, front, an, ns).Some? {
        var i :| 0 <= i < n && UsableSoa(p, front, an, ns, i)
          && (forall j :: 0 <= j < i ==> !UsableSoa(p, front, an, ns, j))
          && SoaTtl(p, front, an, ns).value ==
             Min(front[i].ttl, ExtractSoaMinimum(p, front[i].rdata, front[i].end).value);
        assert UsableSoa(p, rs, an, ns, i);
        forall j | 0 <= j < i ensures !UsableSoa(p, rs, an, ns, j) { assert !UsableSoa(p, front, an, ns, j); }
      } else if UsableSoa(p, rs, an, ns, n) {
        forall j | 0 <= j < n ensures !UsableSoa(p, rs, an, ns, j) { assert !UsableSoa(p, front, an, ns, j); }
      }
    }
  }

  /** In a SOA record without anything behind its fields MINIMUM is the last four bytes. */
  lemma {:induction false} SoaMinimumLast(p: seq<byte>, rdata: nat, rdataEnd: nat, names: nat)
    requires rdataEnd <= |p| && rdataEnd == names + 20
    requires SkipName(p, rdata).Some? && SkipName(p, SkipName(p, rdata).value) == Some(names)
    ensures ExtractSoaMinimum(p, rdata, rdataEnd) == Some(U32(p, rdataEnd - 4))
  {
  }

  /** The answers that count, and the lifetime each is given. */
  ghost predicate CountedAnswer(p: seq<byte>, rs: seq<Rr>, i: nat)
    requires |p| >= 12 && i < |rs|
  {
    i < AnCount(p) && rs[i].rrType != OPT
  }

  /** A response with answers lives as long as the shortest clamped answer; one without
      lives as long as the first usable SOA record allows, capped and then clamped. */
  lemma {:induction false} EntryLifetime(p: seq<byte>, questionEnd: nat, policy: Policy)
    requires EffectiveTtl(p, questionEnd, policy).Some?
    ensures |p| >= 12 && AllRecords(p, questionEnd).Some? && AllFit(p, AllRecords(p, questionEnd).value)
    ensures var ttl, rs := EffectiveTtl(p, questionEnd, policy).value.ttl, AllRecords(p, questionEnd).value;
            && (AnCount(p) > 0 ==>
                  && (forall i, c: u32 ::
                        0 <= i < |rs| && CountedAnswer(p, rs, i) && Clamped(rs[i].ttl, policy.minTtl, policy.maxTtl, c)
                        ==> ttl <= c)
                  && ((exists i :: 0 <= i < |rs| && CountedAnswer(p, rs, i)
                         && Clamped(rs[i].ttl, policy.minTtl, policy.maxTtl, ttl))
                      || (ttl == policy.nodataTtl && forall i :: 0 <= i < |rs| ==> !CountedAnswer(p, rs, i))))
            && (AnCount(p) == 0 ==>
                  var soa := SoaTtl(p, rs, 0, NsCount(p));
                  var allowed := if soa.Some? then soa.value else policy.nodataTtl;
                  Clamped(if allowed <= 10800 then allowed else 10800, policy.minTtl, policy.maxTtl, ttl))
  {
    hide Records, Offsets, SoaTtl, MinTtl;
    forall raw: u32, c: u32
      ensures Clamped(raw, policy.minTtl, policy.maxTtl, c) <==> c == Clamp(raw, policy.minTtl, policy.maxTtl)
    {
      ClampExact(raw, policy.minTtl, policy.maxTtl, c);
    }
    hide Clamped, Clamp;
    PairsOfScan(p, questionEnd, policy);
    var an := AnCount(p);
    var rs := AllRecords(p, questionEnd).value;
    RecordsFit(p, questionEnd, an + NsCount(p) + ArCount(p));
    if an > 0 {
      var life := EffectiveTtl(p, questionEnd, policy).value;
      var m := |Offsets(rs[..an])|;
      AnswersWithin(p, questionEnd, an, NsCount(p), ArCount(p));
      forall i | 0 <= i < |rs| && CountedAnswer(p, rs, i)
        ensures m > 0 && life.ttl <= Clamp(rs[i].ttl, policy.minTtl, policy.maxTtl)
      {
        OffsetOf(rs, i);
        OffsetsShorter(rs, i, an);
      }
      if m > 0 {
        var n :| 0 <= n < m && life.ttl == life.offsets[..m][n].1;
        OffsetsPrefix(rs, an);
        assert Offsets(rs)[n] == Offsets(rs[..an])[n];
        var i := OffsetOrigin(rs[..an], n);
        assert CountedAnswer(p, rs, i) && life.ttl == Clamp(rs[i].ttl, policy.minTtl, policy.maxTtl);
      }
    }
  }

  // The cap on negative answers.

  /** A negative answer is kept for at most 10800 seconds exactly when the configured
      bounds allow it: the minimum is applied after the cap. */
  lemma {:induction false} NegativeCap(p: seq<byte>, questionEnd: nat, policy: Policy)
    requires EffectiveTtl(p, questionEnd, policy).Some? && |p| >= 12 && AnCount(p) == 0
    ensures EffectiveTtl(p, questionEnd, policy).value.ttl <= NEGATIVE_CAP <==>
            policy.minTtl <= NEGATIVE_CAP || 0 < policy.maxTtl <= NEGATIVE_CAP
  {
    hide ScanOf;
    var scan := ScanOf(p, questionEnd, AnCount(p), NsCount(p), ArCount(p)).value;
    var soa := Min(if scan.soa.Some? then scan.soa.value else policy.nodataTtl, NEGATIVE_CAP);
    assert EffectiveTtl(p, questionEnd, policy).value.ttl == Clamp(soa, policy.minTtl, policy.maxTtl);
  }

  /** An empty reply under a large minimum is kept longer than the cap. */
  lemma {:induction false} NegativeUncapped()
    ensures var p: seq<byte> := [0, 0, 0x80, 0, 0, 0, 0, 0, 0, 0, 0, 0];
            var life := EffectiveTtl(p, 12, Policy(0, 20000, 0));
            life.Some? && life.value.ttl == 20000
  {
    var p: seq<byte> := [0, 0, 0x80, 0, 0, 0, 0, 0, 0, 0, 0, 0];
    assert AnCount(p) == 0 && NsCount(p) == 0 && ArCount(p) == 0;
    NoRecords(p, 12);
  }

  // A response keeps its lifetimes when only its ID and question change.

  lemma {:induction false} TailRr(p: seq<byte>, q: seq<byte>, m: nat, pos: nat)
    requires |p| == |q| && m <= pos && forall j :: m <= j < |p| ==> p[j] == q[j]
    ensures ParseRr(p, pos) == ParseRr(q, pos)
  {
    hide SkipName;
    SkipNameTail(p, q, m, pos);
  }

  lemma {:induction false} TailRecords(p: seq<byte>, q: seq<byte>, m: nat, pos: nat, n: nat)
    requires |p| == |q| && m <= pos && forall j :: m <= j < |p| ==> p[j] == q[j]
    ensures Records(p, pos, n) == Records(q, pos, n)
    decreases n
  {
    hide ParseRr;
    if n > 0 {
      TailRr(p, q, m, pos);
      if ParseRr(p, pos).Some? { TailRecords(p, q, m, ParseRr(p, pos).value.end, n - 1); }
    }
  }

  lemma {:induction false} TailSoaMinimum(p: seq<byte>, q: seq<byte>, m: nat, r: Rr)
    requires |p| == |q| && m <= r.rdata && r.end <= |p| && forall j :: m <= j < |p| ==> p[j] == q[j]
    ensures ExtractSoaMinimum(p, r.rdata, r.end) == ExtractSoaMinimum(q, r.rdata, r.end)
  {
    hide SkipName;
    SkipNameTail(p, q, m, r.rdata);
    var a := SkipName(p, r.rdata);
    if a.Some? { SkipNameTail(p, q, m, a.value); }
  }

  lemma {:induction false} TailSoa(p: seq<byte>, q: seq<byte>, m: nat, rs: seq<Rr>, an: nat, ns: nat)
    requires |p| == |q| && AllFit(p, rs) && forall j :: m <= j < |p| ==> p[j] == q[j]
    requires forall i :: 0 <= i < |rs| ==> m <= rs[i].rdata
    ensures SoaTtl(p, rs, an, ns) == SoaTtl(q, rs, an, ns)
    decreases |rs|
  {
    hide ExtractSoaMinimum;
    if rs != [] {
      var i := |rs| - 1;
      TailSoa(p, q, m, rs[..i], an, ns);
      TailSoaMinimum(p, q, m, rs[i]);
    }
  }

  lemma {:induction false} TailScan(p: seq<byte>, q: seq<byte>, m: nat, an: nat, ns: nat, ar: nat)
    requires |p| == |q| && forall j :: m <= j < |p| ==> p[j] == q[j]
    ensures ScanOf(p, m, an, ns, ar) == ScanOf(q, m, an, ns, ar)
  {
    hide Records, SoaTtl, Offsets;
    var n := an + ns + ar;
    TailRecords(p, q, m, m, n);
    if Records(p, m, n).Some? {
      var rs := Records(p, m, n).value;
      RecordsFit(p, m, n);
      RecordsTile(p, m, n);
      forall i | 0 <= i < |rs| ensures m <= rs[i].rdata { RecordsAfter(p, m, n, i); }
      TailSoa(p, q, m, rs, an, ns);
    }
  }

  lemma {:induction false} TailLifetimes(p: seq<byte>, q: seq<byte>, questionEnd: nat, policy: Policy)
    requires |p| == |q| && 12 <= questionEnd
    requires forall j :: 2 <= j < |p| && (j < 12 || questionEnd <= j) ==> p[j] == q[j]
    ensures EffectiveTtl(p, questionEnd, policy) == EffectiveTtl(q, questionEnd, policy)
  {
    hide ScanOf;
    if |p| >= 12 {
      TailScan(p, q, questionEnd, AnCount(p), NsCount(p), ArCount(p));
    }
  }
}
