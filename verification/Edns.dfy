/** The OPT record of a message and the query variant read from it
    (`src/dns/mod.rs`, section 6.1 of RFC 6891, section 6 of RFC 7871). */
module Edns {
  import opened Prelude
  import opened Wire
  import opened BitWords

  const ECS: u16 := 8
  const PADDING: u16 := 12

  // Finding the OPT record.

  /** Outcome of looking for the first OPT among some records. */
  datatype Search = Broken | Absent | Found(rr: Rr)

  function SearchOpt(p: seq<byte>, pos: nat, n: nat): (r: Search)
    ensures r.Found? ==> r.rr.rrType == OPT && r.rr.start >= pos && RrFits(p, r.rr.start, r.rr)
    decreases n
  {
    if n == 0 then Absent
    else
      match ParseRr(p, pos)
      case None => Broken
      case Some(r) => if r.rrType == OPT then Found(r) else SearchOpt(p, r.end, n - 1)
  }

  lemma {:induction false} SearchStep(p: seq<byte>, pos: nat, n: nat)
    requires n > 0
    ensures SearchOpt(p, pos, n) ==
            match ParseRr(p, pos)
            case None => Broken
            case Some(r) => if r.rrType == OPT then Found(r) else SearchOpt(p, r.end, n - 1)
  {
  }

  lemma {:induction false} SearchEnd(p: seq<byte>, pos: nat)
    ensures SearchOpt(p, pos, 0) == Absent
  {
  }

  /** `find_opt_record`: looks right behind the question. */
  function FindOptRecord(p: seq<byte>, questionEnd: nat): (o: Option<Rr>)
    ensures o.Some? ==> RrFits(p, o.value.start, o.value)
  {
    if |p| < 12 || U16(p, 10) == 0 || questionEnd >= |p| then None
    else
      match SearchOpt(p, questionEnd, U16(p, 10))
      case Found(r) => Some(r)
      case _ => None
  }

  method FindOpt(p: seq<byte>, questionEnd: nat) returns (r: Option<Rr>)
    ensures r == FindOptRecord(p, questionEnd)
  {
    hide SearchOpt, SkipName;
    if |p| < 12 { return None; }
    var arcount := U16(p, 10);
    if arcount == 0 || questionEnd >= |p| { return None; }
    var pos := questionEnd;
    for i := 0 to arcount
      invariant 0 <= pos
      invariant SearchOpt(p, pos, arcount - i) == SearchOpt(p, questionEnd, arcount)
    {
      SearchStep(p, pos, arcount - i);
      var nameEnd := ReadName(p, pos);
      if nameEnd.None? || nameEnd.value + 10 > |p| { return None; }
      var f := nameEnd.value;
      var end := f + 10 + U16(p, f + 8);
      if end > |p| { return None; }
      if U16(p, f) == OPT { return Some(Rr(pos, f, OPT, U32(p, f + 4), f + 10, end)); }
      pos := end;
    }
    SearchEnd(p, pos);
    return None;
  }

  // Options.

  type OptData = s: seq<byte> | |s| < 0x1_0000

  datatype Opt = Opt(code: u16, data: OptData)

  function EncodeOpt(o: Opt): seq<byte> {
    Be16(o.code) + Be16(|o.data|) + o.data
  }

  function EncodeAll(os: seq<Opt>): seq<byte> {
    if os == [] then [] else EncodeAll(os[..|os| - 1]) + EncodeOpt(os[|os| - 1])
  }

  /** The option list from `pos` on, up to an option that runs past the end. */
  function LooseOptions(rd: seq<byte>, pos: nat): seq<Opt>
    decreases |rd| - pos
  {
    if pos + 4 > |rd| then []
    else
      var end := pos + 4 + U16(rd, pos + 2);
      if end > |rd| then [] else [Opt(U16(rd, pos), rd[pos + 4..end])] + LooseOptions(rd, end)
  }

  /** No option runs past the end (up to three stray bytes may be left over). */
  predicate WellFormed(rd: seq<byte>, pos: nat)
    decreases |rd| - pos
  {
    pos + 4 > |rd| ||
    (var end := pos + 4 + U16(rd, pos + 2); end <= |rd| && WellFormed(rd, end))
  }

  // The client subnet.

  /** Network address as a number, and its prefix length. */
  datatype EcsSrc = EcsSrc(addr: nat, prefixLen: byte)

  /** Big-endian value of `bytes`, padded with zero bytes to `n` of them. */
  function PaddedValue(bytes: seq<byte>, n: nat): nat
    decreases n
  {
    if n == 0 then 0
    else
      var head := if bytes == [] then 0 else bytes[0];
      head * Pow2(8 * (n - 1)) + PaddedValue(if bytes == [] then [] else bytes[1..], n - 1)
  }

  /** `v` with the lowest `width - prefix` bits cleared. */
  function Masked(v: nat, width: nat, prefix: nat): nat
    requires prefix <= width
  {
    BlockStart(v, Pow2(width - prefix))
  }

  function ParseEcs(data: seq<byte>): Option<EcsSrc> {
    if |data| < 4 then None
    else
      var family := U16(data, 0);
      var addr := data[4..];
      if family == 1 then
        var plen := MinNat(data[2], 32);
        Some(EcsSrc(Masked(PaddedValue(addr[..MinNat(|addr|, 4)], 4), 32, plen), plen))
      else if family == 2 then
        var plen := MinNat(data[2], 128);
        Some(EcsSrc(Masked(PaddedValue(addr[..MinNat(|addr|, 16)], 16), 128, plen), plen))
      else None
  }

  // The variant.

  /** A full-size client subnet option. */
  predicate IsEcs(o: Opt) {
    o.code == ECS && |o.data| >= 4
  }

  /** The last client subnet option decides. */
  function EcsOf(os: seq<Opt>): Option<EcsSrc> {
    if os == [] then None
    else
      var last := os[|os| - 1];
      if IsEcs(last) then ParseEcs(last.data) else EcsOf(os[..|os| - 1])
  }

  /** Codes of the options that are neither a client subnet nor padding. Their hash is
      taken over the sorted codes, so it depends on this multiset alone. */
  function ExtraOf(os: seq<Opt>): multiset<u16> {
    if os == [] then multiset{}
    else
      var last := os[|os| - 1];
      ExtraOf(os[..|os| - 1]) + (if IsEcs(last) || last.code == PADDING then multiset{} else multiset{last.code})
  }

  lemma {:induction false} LooseStep(rd: seq<byte>, pos: nat)
    requires pos + 4 <= |rd|
    ensures var end := pos + 4 + U16(rd, pos + 2);
            LooseOptions(rd, pos) ==
            if end > |rd| then [] else [Opt(U16(rd, pos), rd[pos + 4..end])] + LooseOptions(rd, end)
  {
  }

  lemma {:induction false} LooseEnd(rd: seq<byte>, pos: nat)
    requires pos + 4 > |rd|
    ensures LooseOptions(rd, pos) == []
  {
  }

  lemma {:induction false} DataSnoc(os: seq<Opt>, o: Opt)
    ensures EcsOf(os + [o]) == if IsEcs(o) then ParseEcs(o.data) else EcsOf(os)
    ensures ExtraOf(os + [o]) == ExtraOf(os) + (if IsEcs(o) || o.code == PADDING then multiset{} else multiset{o.code})
  {
    assert (os + [o])[..|os|] == os;
  }

  lemma {:induction false} DataNone()
    ensures EcsOf([]) == None && ExtraOf([]) == multiset{}
  {
  }

  method ExtractOptData(rd: seq<byte>) returns (ecs: Option<EcsSrc>, codes: seq<u16>)
    ensures ecs == EcsOf(LooseOptions(rd, 0)) && multiset(codes) == ExtraOf(LooseOptions(rd, 0))
  {
    hide LooseOptions, EcsOf, ExtraOf, ParseEcs;
    ecs, codes := None, [];
    var pos := 0;
    ghost var done: seq<Opt> := [];
    DataNone();
    while pos + 4 <= |rd|
      invariant 0 <= pos <= |rd|
      invariant done + LooseOptions(rd, pos) == LooseOptions(rd, 0)
      invariant ecs == EcsOf(done) && multiset(codes) == ExtraOf(done)
      decreases |rd| - pos
    {
      LooseStep(rd, pos);
      var code := U16(rd, pos);
      var len := U16(rd, pos + 2);
      pos := pos + 4;
      var end := pos + len;
      if end > |rd| {
        assert done + [] == done;
        return;
      }
      ghost var o := Opt(code, rd[pos..end]);
      DataSnoc(done, o);
      if code == ECS && len >= 4 {
        ecs := ParseEcs(rd[pos..end]);
      } else if code != PADDING {
        codes := codes + [code];
      }
      assert done + ([o] + LooseOptions(rd, end)) == done + [o] + LooseOptions(rd, end);
      done := done + [o];
      pos := end;
    }
    LooseEnd(rd, pos);
    assert done + [] == done;
  }

  datatype Variant = Variant(
    hasOpt: bool, doBit: bool, version: byte, rd: bool, ad: bool, cd: bool,
    ecs: Option<EcsSrc>, extra: multiset<u16>)

  function ExtractVariant(p: seq<byte>, questionEnd: nat): Variant {
    if |p| < 12 then Variant(false, false, 0, false, false, false, None, multiset{})
    else
      var rd, ad, cd := p[2] % 2 == 1, (p[3] / 0x20) % 2 == 1, (p[3] / 0x10) % 2 == 1;
      match FindOptRecord(p, questionEnd)
      case None => Variant(false, false, 0, rd, ad, cd, None, multiset{})
      case Some(r) =>
        var os := LooseOptions(p[r.rdata..r.end], 0);
        Variant(true, p[r.fixed + 6] >= 0x80, p[r.fixed + 5], rd, ad, cd, EcsOf(os), ExtraOf(os))
  }

  lemma {:induction false} RdRead(p: seq<byte>, f: Flags)
    requires HasFlags(p, f)
    ensures p[2] % 2 == 1 <==> f.rd
  {
    var high := Weight(f.qr, 0x40) + 4 * f.opcode + Weight(f.aa, 2) + Weight(f.tc, 1);
    assert p[2] == 2 * high + Weight(f.rd, 1);
  }

  lemma {:induction false} AdCdRead(p: seq<byte>, f: Flags)
    requires HasFlags(p, f)
    ensures (p[3] / 0x20) % 2 == 1 <==> f.ad
    ensures (p[3] / 0x10) % 2 == 1 <==> f.cd
  {
    var top, b := Weight(f.ra, 2) + Weight(f.z, 1), p[3];
    assert b == 0x40 * top + Weight(f.ad, 0x20) + Weight(f.cd, 0x10) + f.rcode;
    assert b / 0x10 == 4 * top + Weight(f.ad, 2) + Weight(f.cd, 1);
    assert b / 0x20 == 2 * top + Weight(f.ad, 1);
  }

  /** The flags of a variant are those of the header. */
  lemma {:induction false} VariantFlags(p: seq<byte>, questionEnd: nat, f: Flags)
    requires |p| >= 12 && HasFlags(p, f)
    ensures var v := ExtractVariant(p, questionEnd); v.rd == f.rd && v.ad == f.ad && v.cd == f.cd
  {
    hide FindOptRecord, EcsOf, ExtraOf, LooseOptions, HasFlags;
    RdRead(p, f);
    AdCdRead(p, f);
  }
}
