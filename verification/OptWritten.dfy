/** OPT records and client subnets as they are written (section 6.1.2 of RFC 6891, section 6
    of RFC 7871), and what the query variant takes from them. */
module OptWritten {
  import opened Prelude
  import opened BitWords
  import opened ByteOrder
  import opened Wire
  import opened Edns
  import opened Message

  // Options.

  function OptionBytes(o: Opt): seq<byte> {
    var n := |o.data|;
    [o.code / 0x100, o.code % 0x100, n / 0x100, n % 0x100] + o.data
  }

  function OptionsBytes(os: seq<Opt>): seq<byte> {
    if os == [] then [] else OptionBytes(os[0]) + OptionsBytes(os[1..])
  }

  lemma {:induction false} OptionAt(rd: seq<byte>, pos: nat, o: Opt)
    requires At(rd, pos, OptionBytes(o))
    ensures pos + 4 <= pos + 4 + |o.data| <= |rd|
    ensures U16(rd, pos) == o.code && U16(rd, pos + 2) == |o.data| && rd[pos + 4..pos + 4 + |o.data|] == o.data
  {
    var s := OptionBytes(o);
    var whole := rd[pos..pos + |s|];
    assert whole[0] == rd[pos] && whole[1] == rd[pos + 1] && whole[2] == rd[pos + 2] && whole[3] == rd[pos + 3];
    assert whole[4..] == rd[pos + 4..pos + |s|];
  }

  lemma {:induction false} OptionsRead(rd: seq<byte>, pos: nat, os: seq<Opt>)
    requires At(rd, pos, OptionsBytes(os)) && |rd| < pos + |OptionsBytes(os)| + 4
    ensures WellFormed(rd, pos) && LooseOptions(rd, pos) == os
    decreases |os|
  {
    hide OptionBytes, At;
    if os != [] {
      AtCat(rd, pos, OptionBytes(os[0]), OptionsBytes(os[1..]));
      OptionAt(rd, pos, os[0]);
      OptionSize(os[0]);
      OptionsRead(rd, pos + |OptionBytes(os[0])|, os[1..]);
      assert os == [os[0]] + os[1..];
    }
  }

  lemma {:induction false} OptionSize(o: Opt)
    ensures |OptionBytes(o)| == 4 + |o.data|
  {
  }

  lemma {:induction false} OptionThere(rd: seq<byte>, pos: nat, o: Opt)
    requires pos + 4 + |o.data| <= |rd| && o.code == U16(rd, pos) && |o.data| == U16(rd, pos + 2)
    requires o.data == rd[pos + 4..pos + 4 + |o.data|]
    ensures OptionBytes(o) == rd[pos..pos + 4 + |o.data|]
  {
    var end := pos + 4 + |o.data|;
    assert rd[pos..end] == [rd[pos], rd[pos + 1], rd[pos + 2], rd[pos + 3]] + rd[pos + 4..end];
  }

  lemma {:induction false} OptionsThere(rd: seq<byte>, pos: nat)
    requires WellFormed(rd, pos) && pos <= |rd|
    ensures var s := OptionsBytes(LooseOptions(rd, pos));
            pos + |s| <= |rd| < pos + |s| + 4 && rd[pos..pos + |s|] == s
    decreases |rd| - pos
  {
    hide OptionBytes;
    if pos + 4 <= |rd| {
      var end := pos + 4 + U16(rd, pos + 2);
      var o := Opt(U16(rd, pos), rd[pos + 4..end]);
      OptionThere(rd, pos, o);
      OptionsThere(rd, end);
      var rest := LooseOptions(rd, end);
      assert ([o] + rest)[1..] == rest;
      var n := end + |OptionsBytes(rest)|;
      assert rd[pos..n] == rd[pos..end] + rd[end..n];
    }
  }

  /** The data is well formed and read as `os` exactly when it is these options and at most
      three bytes more. */
  lemma {:induction false} OptionsExact(rd: seq<byte>, os: seq<Opt>)
    ensures WellFormed(rd, 0) && LooseOptions(rd, 0) == os <==>
            exists stray: seq<byte> :: |stray| < 4 && rd == OptionsBytes(os) + stray
  {
    hide WellFormed, LooseOptions, OptionsBytes;
    if WellFormed(rd, 0) && LooseOptions(rd, 0) == os {
      OptionsThere(rd, 0);
      var n := |OptionsBytes(os)|;
      assert rd == rd[0..n] + rd[n..];
    }
    if stray: seq<byte> :| |stray| < 4 && rd == OptionsBytes(os) + stray {
      assert rd[0..|OptionsBytes(os)|] == OptionsBytes(os);
      OptionsRead(rd, 0, os);
    }
  }

  // What is taken from them.

  /** A client subnet option with its fixed fields. */
  predicate FullSubnet(o: Opt) {
    o.code == 8 && |o.data| >= 4
  }

  /** How often code `c` occurs apart from full subnets and padding. */
  function Occurrences(os: seq<Opt>, c: u16): nat {
    if os == [] then 0
    else
      (if os[0].code == c && c != 12 && !FullSubnet(os[0]) then 1 else 0) + Occurrences(os[1..], c)
  }

  lemma {:induction false} OccurrencesSnoc(os: seq<Opt>, o: Opt, c: u16)
    ensures Occurrences(os + [o], c) ==
            Occurrences(os, c) + (if o.code == c && c != 12 && !FullSubnet(o) then 1 else 0)
    decreases |os|
  {
    if os == [] {
      assert os + [o] == [o] && [o][1..] == [];
    } else {
      assert (os + [o])[1..] == os[1..] + [o];
      OccurrencesSnoc(os[1..], o, c);
    }
  }

  /** The other codes, with multiplicity. */
  lemma {:induction false} ExtraExact(os: seq<Opt>, c: u16)
    ensures ExtraOf(os)[c] == Occurrences(os, c)
    decreases |os|
  {
    hide Occurrences;
    if os == [] {
      NoOccurrences(c);
    } else {
      var front, last := os[..|os| - 1], os[|os| - 1];
      ExtraExact(front, c);
      OccurrencesSnoc(front, last, c);
      assert os == front + [last];
    }
  }

  lemma {:induction false} NoOccurrences(c: u16)
    ensures Occurrences([], c) == 0
  {
  }

  /** Option `i` is the last full subnet. */
  ghost predicate LastSubnet(os: seq<Opt>, i: nat) {
    i < |os| && FullSubnet(os[i]) && forall j :: i < j < |os| ==> !FullSubnet(os[j])
  }

  /** It counts. */
  lemma {:induction false} SubnetExact(os: seq<Opt>, i: nat)
    requires LastSubnet(os, i)
    ensures EcsOf(os) == ParseEcs(os[i].data)
    decreases |os|
  {
    hide ParseEcs;
    var n := |os| - 1;
    if i < n {
      assert !FullSubnet(os[n]);
      SubnetExact(os[..n], i);
    }
  }

  lemma {:induction false} NoSubnetExact(os: seq<Opt>)
    requires forall i :: 0 <= i < |os| ==> !FullSubnet(os[i])
    ensures EcsOf(os) == None
    decreases |os|
  {
    hide ParseEcs;
    if os != [] {
      assert !FullSubnet(os[|os| - 1]);
      NoSubnetExact(os[..|os| - 1]);
    }
  }

  // Subnets.

  function DigitAt(s: seq<byte>, i: nat): byte {
    if i < |s| then s[i] else 0
  }

  /** The value of `s`, most significant byte first. */
  function Value(s: seq<byte>): nat {
    if s == [] then 0 else Value(s[..|s| - 1]) * 0x100 + s[|s| - 1]
  }

  /** The `n` bytes of `s` from `from` on, missing ones being zero. */
  function Cut(s: seq<byte>, from: nat, n: nat): (r: seq<byte>)
    ensures |r| == n && forall k :: 0 <= k < n ==> r[k] == DigitAt(s, from + k)
  {
    if n == 0 then [] else Cut(s, from, n - 1) + [DigitAt(s, from + n - 1)]
  }

  lemma {:induction false} ShiftSum(h: nat, d: nat, v: nat)
    ensures (h * d + v) * 0x100 == h * (0x100 * d) + v * 0x100
  {
  }

  lemma {:induction false} ValueCons(h: byte, t: seq<byte>)
    ensures Value([h] + t) == h * Pow2(8 * |t|) + Value(t)
    decreases |t|
  {
    hide Pow2;
    if t == [] {
      assert [h] + t == [h] && [h][..0] == [];
      Pow2Step(0);
    } else {
      var front, last := t[..|t| - 1], t[|t| - 1];
      assert ([h] + t)[..|t|] == [h] + front;
      ValueCons(h, front);
      ByteStep(|front|);
      ShiftSum(h, Pow2(8 * |front|), Value(front));
    }
  }

  lemma {:induction false} PaddedStep(s: seq<byte>, n: nat)
    requires n > 0
    ensures PaddedValue(s, n) ==
            DigitAt(s, 0) * Pow2(8 * (n - 1)) + PaddedValue(if s == [] then [] else s[1..], n - 1)
  {
  }

  lemma {:induction false} CutStep(s: seq<byte>, n: nat)
    requires n > 0
    ensures Cut(s, 0, n) == [DigitAt(s, 0)] + Cut(if s == [] then [] else s[1..], 0, n - 1)
  {
    hide Cut;
    var rest := if s == [] then [] else s[1..];
    forall k | 0 <= k < n ensures Cut(s, 0, n)[k] == ([DigitAt(s, 0)] + Cut(rest, 0, n - 1))[k] {
      assert Cut(s, 0, n)[k] == DigitAt(s, 0 + k);
      if k > 0 { assert Cut(rest, 0, n - 1)[k - 1] == DigitAt(rest, 0 + (k - 1)); }
    }
  }

  lemma {:induction false} PaddedIs(s: seq<byte>, n: nat)
    ensures PaddedValue(s, n) == Value(Cut(s, 0, n))
    decreases n
  {
    hide Pow2, Value, PaddedValue, Cut;
    if n == 0 {
      NothingPadded(s);
    } else {
      var rest := if s == [] then [] else s[1..];
      PaddedStep(s, n);
      CutStep(s, n);
      PaddedIs(rest, n - 1);
      ValueCons(DigitAt(s, 0), Cut(rest, 0, n - 1));
    }
  }

  lemma {:induction false} NothingPadded(s: seq<byte>)
    ensures PaddedValue(s, 0) == Value(Cut(s, 0, 0))
  {
  }

  /** `net` is the value `v` of `width` bits cut to its first `prefix` bits. */
  ghost predicate IsNetwork(net: nat, v: nat, width: nat, prefix: nat)
    requires prefix <= width
  {
    var d := Pow2(width - prefix);
    net / d == v / d && net % d == 0
  }

  /** An address of `n` bytes behind the fixed fields of a subnet option. */
  ghost predicate IsSubnetOf(src: EcsSrc, data: seq<byte>, n: nat)
    requires |data| >= 4
  {
    var plen := if data[2] <= 8 * n then data[2] as nat else 8 * n;
    src.prefixLen == plen && IsNetwork(src.addr, Value(Cut(data, 4, n)), 8 * n, plen)
  }

  lemma {:induction false} MaskedNetwork(v: nat, width: nat, prefix: nat)
    requires prefix <= width
    ensures IsNetwork(Masked(v, width, prefix), v, width, prefix)
  {
    var d := Pow2(width - prefix);
    var q := v / d;
    assert BlockStart(v, d) == q * d + 0;
    DivUnique(q * d, d, q, 0);
    assert q * d == (q * d) / d * d + (q * d) % d;
  }

  lemma {:induction false} AddressBehind(data: seq<byte>, n: nat)
    requires |data| >= 4
    ensures var addr := data[4..]; PaddedValue(addr[..MinNat(|addr|, n)], n) == Value(Cut(data, 4, n))
  {
    hide Value, PaddedValue;
    var s := data[4..][..MinNat(|data[4..]|, n)];
    PaddedIs(s, n);
    assert Cut(s, 0, n) == Cut(data, 4, n);
  }

  /** A subnet option is read as the network of its family, address and prefix. */
  lemma {:induction false} SubnetRead(data: seq<byte>)
    ensures ParseEcs(data).Some? <==> |data| >= 4 && data[0] == 0 && (data[1] == 1 || data[1] == 2)
    ensures ParseEcs(data).Some? ==> IsSubnetOf(ParseEcs(data).value, data, if data[1] == 1 then 4 else 16)
  {
    hide PaddedValue, Masked, Value, IsNetwork;
    if ParseEcs(data).Some? {
      var n := if data[1] == 1 then 4 else 16;
      var addr := data[4..];
      AddressBehind(data, n);
      MaskedNetwork(PaddedValue(addr[..MinNat(|addr|, n)], n), 8 * n, MinNat(data[2], 8 * n));
    }
  }

  // The variant of a query.

  /** The first OPT record among the additional records. */
  ghost predicate FirstOpt(m: Message, k: nat) {
    && k < |m.additional| && m.additional[k].rrType == 41
    && forall i :: 0 <= i < k ==> m.additional[i].rrType != 41
  }

  lemma {:induction false} SearchFinds(p: seq<byte>, pos: nat, rs: seq<Record>, k: nat)
    requires RecordsOk(rs) && At(p, pos, AllBytes(rs)) && k < |rs| && rs[k].rrType == 41
    requires forall i :: 0 <= i < k ==> rs[i].rrType != 41
    ensures SearchOpt(p, pos, |rs|) == Found(PlacedAll(rs, pos)[k])
    decreases k
  {
    hide At, RecordBytes, ParseRr;
    AtCat(p, pos, RecordBytes(rs[0]), AllBytes(rs[1..]));
    RecordWritten(p, pos, rs[0]);
    PlacedEnd(rs[0], pos);
    if k > 0 { SearchFinds(p, pos + |RecordBytes(rs[0])|, rs[1..], k - 1); }
  }

  lemma {:induction false} SearchFindsNone(p: seq<byte>, pos: nat, rs: seq<Record>)
    requires RecordsOk(rs) && At(p, pos, AllBytes(rs)) && forall i :: 0 <= i < |rs| ==> rs[i].rrType != 41
    ensures SearchOpt(p, pos, |rs|) == Absent
    decreases |rs|
  {
    hide At, RecordBytes, ParseRr;
    if rs != [] {
      AtCat(p, pos, RecordBytes(rs[0]), AllBytes(rs[1..]));
      RecordWritten(p, pos, rs[0]);
      PlacedEnd(rs[0], pos);
      SearchFindsNone(p, pos + |RecordBytes(rs[0])|, rs[1..]);
    }
  }

  lemma {:induction false} FlagsByte(p: seq<byte>, at: nat, r: Record)
    requires RecordOk(r) && At(p, at, RecordBytes(r))
    ensures var x := Placed(r, at);
            x.fixed + 8 <= |p| && p[x.fixed + 5] == r.ttl / 0x1_0000 % 0x100 && p[x.fixed + 6] == r.ttl / 0x100 % 0x100
  {
    hide NameBytes;
    var name, s := NameBytes(r.name), FixedBytes(r);
    AtCat(p, at, name + s, r.data);
    AtCat(p, at, name, s);
    var fixed := at + |name|;
    assert forall i :: 0 <= i < 10 ==> p[fixed + i] == p[fixed..fixed + 10][i] == s[i];
  }

  lemma {:induction false} OptFound(m: Message, k: nat)
    requires MessageOk(m) && m.answers == [] && m.authority == [] && FirstOpt(m, k)
    ensures var p, pos, r := MessageBytes(m), AnswersStart(m), m.additional[k];
            && |p| >= 12 && HasFlags(p, m.flags) && FindOptRecord(p, pos).Some?
            && var x := FindOptRecord(p, pos).value;
               && x.fixed + 8 <= |p| && x.rdata <= x.end <= |p| && p[x.rdata..x.end] == r.data
               && p[x.fixed + 5] == r.ttl / 0x1_0000 % 0x100 && p[x.fixed + 6] == r.ttl / 0x100 % 0x100
  {
    hide HasFlags, AllBytes, RecordBytes, PlacedAll, MessageBytes, SearchOpt, Records, At, U16;
    MessageRead(m);
    var p, pos := MessageBytes(m), AnswersStart(m);
    assert m.answers + m.authority + m.additional == m.additional;
    SearchFinds(p, pos, m.additional, k);
    PlacedAt(p, m.additional, pos, k);
    var r, x := m.additional[k], PlacedAll(m.additional, pos)[k];
    FlagsByte(p, x.start, r);
    DataAt(p, x.start, r);
    StandsThere(p, x.rdata, r.data);
  }

  /** The variant of a query with an OPT record: the flags of its header, version and DO bit
      from the TTL field, the last full subnet, and the other codes. */
  lemma {:induction false} VariantWritten(m: Message, k: nat)
    requires MessageOk(m) && m.answers == [] && m.authority == [] && FirstOpt(m, k)
    ensures var v, os := ExtractVariant(MessageBytes(m), AnswersStart(m)), LooseOptions(m.additional[k].data, 0);
            v == Variant(true, m.additional[k].ttl / 0x8000 % 2 == 1, m.additional[k].ttl / 0x1_0000 % 0x100,
                         m.flags.rd, m.flags.ad, m.flags.cd, EcsOf(os), ExtraOf(os))
  {
    hide HasFlags, MessageBytes, LooseOptions, EcsOf, ExtraOf, FindOptRecord, MessageOk;
    OptFound(m, k);
    VariantFlags(MessageBytes(m), AnswersStart(m), m.flags);
    TopBit(m.additional[k].ttl);
  }

  lemma {:induction false} StandsThere(p: seq<byte>, pos: nat, s: seq<byte>)
    requires At(p, pos, s)
    ensures pos + |s| <= |p| && p[pos..pos + |s|] == s
  {
  }

  lemma {:induction false} TopBit(n: nat)
    ensures n / 0x100 % 0x100 >= 0x80 <==> n / 0x8000 % 2 == 1
  {
    var h := n / 0x100;
    assert n / 0x8000 == h / 0x80;
    HighDigit(h / 0x100, h % 0x100);
  }

  lemma {:induction false} HighDigit(a: nat, b: nat)
    requires b < 0x100
    ensures b >= 0x80 <==> (0x100 * a + b) / 0x80 % 2 == 1
  {
    assert (0x100 * a + b) / 0x80 == 2 * a + b / 0x80;
  }

  /** The variant of a query without OPT record. */
  lemma {:induction false} BareVariantWritten(m: Message)
    requires MessageOk(m) && m.answers == [] && m.authority == []
    requires forall i :: 0 <= i < |m.additional| ==> m.additional[i].rrType != 41
    ensures ExtractVariant(MessageBytes(m), AnswersStart(m)) ==
            Variant(false, false, 0, m.flags.rd, m.flags.ad, m.flags.cd, None, multiset{})
  {
    hide HasFlags, AllBytes, RecordBytes, PlacedAll, MessageBytes, SearchOpt, Records, At, U16;
    MessageRead(m);
    assert m.answers + m.authority + m.additional == m.additional;
    SearchFindsNone(MessageBytes(m), AnswersStart(m), m.additional);
    VariantFlags(MessageBytes(m), AnswersStart(m), m.flags);
  }
}
