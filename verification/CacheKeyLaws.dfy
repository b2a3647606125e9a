/** Which queries share a cache key once client subnets are stripped. */
module CacheKeyLaws {
  import opened Prelude
  import opened BitWords
  import opened ByteOrder
  import opened Question
  import opened Edns
  import opened Ecs
  import opened EcsLaws
  import CacheKey

  /** Sorting keeps every code as often as it occurs. */
  lemma {:induction false} SortedCount(m: multiset<u16>, c: nat, x: u16)
    requires c <= 0x1_0000
    ensures multiset(CacheKey.SortedCodes(m, c))[x] == if x >= c then m[x] else 0
    decreases 0x1_0000 - c
  {
    if c < 0x1_0000 {
      SortedCount(m, c + 1, x);
      RepeatCount(c, m[c], x);
      CountCat(CacheKey.Repeat(c, m[c]), CacheKey.SortedCodes(m, c + 1), x);
    }
  }

  lemma {:induction false} CountCat(a: seq<u16>, b: seq<u16>, x: u16)
    ensures multiset(a + b)[x] == multiset(a)[x] + multiset(b)[x]
  {
  }

  lemma {:induction false} RepeatCount(c: u16, n: nat, x: u16)
    ensures multiset(CacheKey.Repeat(c, n))[x] == if x == c then n else 0
    decreases n
  {
    if n > 0 {
      RepeatCount(c, n - 1, x);
      assert CacheKey.Repeat(c, n) == CacheKey.Repeat(c, n - 1) + [c];
    }
  }

  ghost predicate AscendingFrom(s: seq<u16>, c: nat) {
    && (forall i :: 0 <= i < |s| ==> c <= s[i])
    && (forall i, j :: 0 <= i < j < |s| ==> s[i] <= s[j])
  }

  lemma {:induction false} SortedLow(m: multiset<u16>, c: nat)
    requires c <= 0x1_0000
    ensures AscendingFrom(CacheKey.SortedCodes(m, c), c)
    decreases 0x1_0000 - c
  {
    if c < 0x1_0000 {
      SortedLow(m, c + 1);
      AscendingCons(CacheKey.Repeat(c, m[c]), CacheKey.SortedCodes(m, c + 1), c);
    }
  }

  lemma {:induction false} AscendingCons(front: seq<u16>, rest: seq<u16>, c: nat)
    requires AscendingFrom(rest, c + 1) && forall i :: 0 <= i < |front| ==> front[i] == c
    ensures AscendingFrom(front + rest, c)
  {
  }

  /** The codes are hashed as the ascending arrangement of what was collected. */
  lemma {:induction false} CodesSorted(m: multiset<u16>)
    ensures var s := CacheKey.SortedCodes(m, 0);
            multiset(s) == m && AscendingFrom(s, 0)
  {
    SortedLow(m, 0);
    forall x: u16 ensures multiset(CacheKey.SortedCodes(m, 0))[x] == m[x] { SortedCount(m, 0, x); }
  }

  /** Two bytes per code, the low one first. */
  function TwoBytes(codes: seq<u16>): seq<byte> {
    if codes == [] then [] else [codes[0] % 0x100, codes[0] / 0x100] + TwoBytes(codes[1..])
  }

  lemma {:induction false} CodeBytesAre(codes: seq<u16>)
    ensures CacheKey.CodeBytes(codes) == TwoBytes(codes)
    decreases |codes|
  {
    if codes != [] {
      CodeBytesAre(codes[1..]);
      var c := codes[0];
      assert LeBytes(c, 2) == [c % 0x100] + LeBytes(c / 0x100, 1);
      assert LeBytes(c / 0x100, 1) == [c / 0x100];
    }
  }

  /** The hash of the other codes: zero for none, else that of the codes in ascending order. */
  lemma {:induction false} ExtraHashIs(m: multiset<u16>) returns (s: seq<u16>)
    ensures multiset(s) == m && AscendingFrom(s, 0)
    ensures CacheKey.ExtraHash(m) == if s == [] then 0 else CacheKey.Hashed(CacheKey.OFFSET, TwoBytes(s))
  {
    hide CacheKey.Hashed, CacheKey.SortedCodes;
    s := CacheKey.SortedCodes(m, 0);
    CodesSorted(m);
    CodeBytesAre(s);
    if s != [] { assert s[0] in multiset(s); }
  }

  lemma {:induction false} HashedOne(h: u64, b: byte)
    ensures CacheKey.Hashed(h, [b]) == Xor(h, b) * CacheKey.PRIME % TWO64
  {
    hide Xor;
    assert [b][..0] == [];
    CacheKey.HashedNone(h);
  }

  /** The published value for the one-letter text `a`. */
  lemma {:induction false} KnownHash()
    ensures CacheKey.Hashed(CacheKey.OFFSET, [0x61]) == 0xAF63_DC4C_8601_EC8C
  {
    hide Xor, CacheKey.Hashed;
    HashedOne(CacheKey.OFFSET, 0x61);
    KnownXor();
    assert 14695981039346656068 * 1099511628211 == 875948729822 * TWO64 + 0xAF63_DC4C_8601_EC8C;
  }

  lemma {:induction false} XorStep(a: nat, b: nat)
    ensures Xor(a, b) == 2 * Xor(a / 2, b / 2) + (if a % 2 != b % 2 then 1 else 0)
    ensures b == 0 ==> Xor(a, b) == a
  {
  }

  lemma {:induction false} KnownXor()
    ensures Xor(CacheKey.OFFSET, 0x61) == 14695981039346656068
  {
    hide Xor;
    XorStep(14695981039346656037, 97);
    XorStep(7347990519673328018, 48);
    XorStep(3673995259836664009, 24);
    XorStep(1836997629918332004, 12);
    XorStep(918498814959166002, 6);
    XorStep(459249407479583001, 3);
    XorStep(229624703739791500, 1);
    XorStep(114812351869895750, 0);
  }

  lemma {:induction false} MaskedFits(bytes: seq<byte>, n: nat, prefix: nat)
    requires n <= 16 && prefix <= 8 * n
    ensures Masked(PaddedValue(bytes, n), 8 * n, prefix) < Pow2(128)
  {
    hide Pow2, PaddedValue, BlockStart;
    PaddedBound(bytes, n);
    BlockStartLe(PaddedValue(bytes, n), Pow2(8 * n - prefix));
    Pow2Sum(8 * n, 128 - 8 * n);
    Pow2Positive(128 - 8 * n);
    MulLe(1, Pow2(128 - 8 * n), Pow2(8 * n));
  }

  lemma {:induction false} Pow2Positive(n: nat)
    ensures Pow2(n) >= 1
  {
  }

  lemma {:induction false} ParsedFits(data: seq<byte>)
    ensures CacheKey.AddrFits(ParseEcs(data))
  {
    hide Pow2, PaddedValue, BlockStart, Masked;
    if |data| >= 4 {
      var addr := data[4..];
      MaskedFits(addr[..MinNat(|addr|, 4)], 4, MinNat(data[2], 32));
      MaskedFits(addr[..MinNat(|addr|, 16)], 16, MinNat(data[2], 128));
    }
  }

  lemma {:induction false} EcsFits(os: seq<Opt>)
    ensures CacheKey.AddrFits(EcsOf(os))
    decreases |os|
  {
    hide ParseEcs, Pow2;
    if os != [] {
      ParsedFits(os[|os| - 1].data);
      EcsFits(os[..|os| - 1]);
    }
  }

  /** Every recorded subnet fits the sixteen bytes it is hashed as. */
  lemma {:induction false} VariantFits(p: seq<byte>, questionEnd: nat)
    ensures CacheKey.AddrFits(ExtractVariant(p, questionEnd).ecs)
  {
    hide EcsOf, ExtraOf, LooseOptions, FindOptRecord, Pow2;
    var r := FindOptRecord(p, questionEnd);
    if |p| >= 12 && r.Some? { EcsFits(LooseOptions(p[r.value.rdata..r.value.end], 0)); }
  }

  /** A query stripped before it is sent has the key under which subnet-blind entries of the
      unstripped query are looked up, except that a subnet option too short to be one is
      dropped with the subnet while the lookup counts it among the other options. */
  lemma {:induction false} StripSharesKey(p: seq<byte>)
    requires IsQuery(p) && Strip(p).Some?
    ensures var q, end, v := Strip(p).value, QuestionEnd(p).value, VariantOf(p);
            var others := v.extra[ECS := 0];
            && IsQuery(q) && end <= |q|
            && CacheKey.KeyOf(q[12..end], VariantOf(q), false) == CacheKey.KeyOf(p[12..end], v.(extra := others), true)
            && (CacheKey.KeyStream(q[12..end], VariantOf(q), false) == CacheKey.KeyStream(p[12..end], v, true) <==>
                CacheKey.ExtraHash(others) == CacheKey.ExtraHash(v.extra))
            && (!HasShortEcs(OptionsAt(p, Locate(p).rr)) ==> others == v.extra)
  {
    hide Locate, LooseOptions, EcsOf, ExtraOf, ExtractVariant, HasShortEcs, HasEcs, NonEcs, EncodeAll, Splice, Strip,
         WellFormed, CacheKey.ExtraHash, CacheKey.NameStream, CacheKey.NameEnd;
    var q, end, v := Strip(p).value, QuestionEnd(p).value, VariantOf(p);
    StripVariant(p);
    StripKeepsRest(p);
    FoundBehind(p);
    var m := Locate(p).rr.fixed + 8;
    assert q[12..end] == q[..m][12..end] == p[..m][12..end] == p[12..end];
    SameBytes(v.(extra := v.extra[ECS := 0]), VariantOf(q));
    TailDecides(p[12..end], VariantOf(q), false, v, true);
    BlindBytesIff(v.(extra := v.extra[ECS := 0]), v);
  }

  lemma {:induction false} TailDecides(q: seq<byte>, v: Variant, s: bool, w: Variant, t: bool)
    ensures CacheKey.KeyStream(q, v, s) == CacheKey.KeyStream(q, w, t) <==>
            CacheKey.VariantBytes(v, s) == CacheKey.VariantBytes(w, t)
  {
    hide CacheKey.VariantBytes, CacheKey.NameStream, CacheKey.NameEnd;
    var front := CacheKey.NameStream(q, 0) + CacheKey.TailFrom(q, CacheKey.NameEnd(q, 0));
    var a, b := CacheKey.VariantBytes(v, s), CacheKey.VariantBytes(w, t);
    if front + a == front + b { assert a == (front + a)[|front|..] == (front + b)[|front|..] == b; }
  }

  lemma {:induction false} BlindBytesIff(v: Variant, w: Variant)
    requires v == w.(extra := v.extra)
    ensures CacheKey.VariantBytes(v, true) == CacheKey.VariantBytes(w, true) <==>
            CacheKey.ExtraHash(v.extra) == CacheKey.ExtraHash(w.extra)
  {
    hide CacheKey.ExtraHash, LeBytes;
    var a, b := CacheKey.VariantBytes(v, true), CacheKey.VariantBytes(w, true);
    if a == b {
      assert a[7..] == LeBytes(CacheKey.ExtraHash(v.extra), 8) && b[7..] == LeBytes(CacheKey.ExtraHash(w.extra), 8);
      WordBounds();
      LeRoundTrip(CacheKey.ExtraHash(v.extra), 8);
      LeRoundTrip(CacheKey.ExtraHash(w.extra), 8);
    }
  }

  lemma {:induction false} SameBytes(v: Variant, w: Variant)
    requires w == v.(ecs := None)
    ensures CacheKey.VariantBytes(w, false) == CacheKey.VariantBytes(v, true)
  {
  }

  /** Without a subnet the two keys of a query are one. */
  lemma {:induction false} NoSubnetOneKey(q: seq<byte>, v: Variant)
    ensures CacheKey.KeyOf(q, v, true) == CacheKey.KeyOf(q, v.(ecs := None), false)
  {
    SameBytes(v, v.(ecs := None));
  }
}
