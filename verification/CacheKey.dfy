/** Cache keys: an FNV-1a hash over the question and the query variant
    (`src/hasher.rs`, `src/dns/query.rs`, `src/cache.rs`). */
module CacheKey {
  import opened Prelude
  import opened BitWords
  import opened ByteOrder
  import opened Question
  import opened Edns

  // The hash.

  const OFFSET: u64 := 14695981039346656037
  const PRIME: nat := 1099511628211

  function Mix(h: u64, b: byte): u64 {
    (Xor(h, b) * PRIME) % TWO64
  }

  function Hashed(h: u64, s: seq<byte>): u64 {
    if s == [] then h else Mix(Hashed(h, s[..|s| - 1]), s[|s| - 1])
  }

  lemma {:induction false} HashedNone(h: u64)
    ensures Hashed(h, []) == h
  {
  }

  lemma {:induction false} HashedSnoc(h: u64, s: seq<byte>, b: byte)
    ensures Hashed(h, s + [b]) == Mix(Hashed(h, s), b)
  {
    assert (s + [b])[..|s|] == s;
  }

  lemma {:induction false} HashedCat(h: u64, s: seq<byte>, t: seq<byte>)
    ensures Hashed(h, s + t) == Hashed(Hashed(h, s), t)
    decreases |t|
  {
    hide Hashed, Mix;
    HashedNone(Hashed(h, s));
    if t == [] { assert s + t == s; } else {
      var front, last := t[..|t| - 1], t[|t| - 1];
      assert t == front + [last] && s + t == (s + front) + [last];
      HashedCat(h, s, front);
      HashedSnoc(h, s + front, last);
      HashedSnoc(Hashed(h, s), front, last);
    }
  }

  // The name, hashed while it is validated and hashed on its own.

  /** The bytes hashed for a name: lengths as they are, labels in lower case. A label
      that runs past the end is cut short. */
  function NameStream(q: seq<byte>, pos: nat): seq<byte>
    decreases |q| - pos
  {
    if pos >= |q| then []
    else if q[pos] == 0 then [0]
    else
      var end := MinNat(pos + 1 + q[pos], |q|);
      [q[pos]] + LowerAll(q[pos + 1..end]) + NameStream(q, end)
  }

  function NameEnd(q: seq<byte>, pos: nat): nat
    decreases |q| - pos
  {
    if pos >= |q| then pos
    else if q[pos] == 0 then pos + 1
    else NameEnd(q, MinNat(pos + 1 + q[pos], |q|))
  }

  class Fnv1a {
    var state: u64

    constructor ()
      ensures state == OFFSET
    {
      state := OFFSET;
    }

    /** A copy of a hasher that has reached `state`. */
    constructor From(state: u64)
      ensures this.state == state
    {
      this.state := state;
    }

    method WriteByte(b: byte)
      modifies this
      ensures state == Mix(old(state), b)
    {
      state := Mix(state, b);
    }

    method Write(s: seq<byte>)
      modifies this
      ensures state == Hashed(old(state), s)
    {
      hide Hashed, Mix;
      HashedNone(state);
      for i := 0 to |s|
        invariant state == Hashed(old(state), s[..i])
      {
        HashedSnoc(old(state), s[..i], s[i]);
        assert s[..i + 1] == s[..i] + [s[i]];
        WriteByte(s[i]);
      }
      assert s[..|s|] == s;
    }

    method WriteLowered(s: seq<byte>)
      modifies this
      ensures state == Hashed(old(state), LowerAll(s))
    {
      hide Hashed, Mix;
      HashedNone(state);
      for i := 0 to |s|
        invariant state == Hashed(old(state), LowerAll(s[..i]))
      {
        HashedSnoc(old(state), LowerAll(s[..i]), Lower(s[i]));
        assert LowerAll(s[..i + 1]) == LowerAll(s[..i]) + [Lower(s[i])];
        WriteByte(Lower(s[i]));
      }
      assert s[..|s|] == s;
    }

    method WriteQnameWire(q: seq<byte>) returns (pos: nat)
      modifies this
      ensures state == Hashed(old(state), NameStream(q, 0)) && pos == NameEnd(q, 0)
    {
      hide Hashed, Mix, NameStream, NameEnd, LowerAll, MinNat;
      pos := 0;
      ghost var h0, done: seq<byte> := state, [];
      HashedNone(h0);
      while pos < |q|
        invariant pos <= |q|
        invariant done + NameStream(q, pos) == NameStream(q, 0) && NameEnd(q, pos) == NameEnd(q, 0)
        invariant state == Hashed(h0, done)
        decreases |q| - pos
      {
        NameStep(q, pos);
        var len := q[pos];
        HashedSnoc(h0, done, len);
        WriteByte(len);
        ghost var before := done;
        done := done + [len];
        pos := pos + 1;
        if len == 0 { return; }
        var end := MinNat(pos + len, |q|);
        MinBounds(pos + len, |q|);
        WriteLowered(q[pos..end]);
        ghost var lowered := LowerAll(q[pos..end]);
        HashedCat(h0, done, lowered);
        Regroup(before, [len], lowered, NameStream(q, end));
        done := done + lowered;
        pos := end;
      }
      NameStep(q, pos);
      assert done + [] == done;
    }
  }

  lemma {:induction false} Regroup(a: seq<byte>, b: seq<byte>, c: seq<byte>, d: seq<byte>)
    ensures a + (b + c + d) == a + b + c + d
  {
  }

  lemma {:induction false} MinBounds(a: nat, b: nat)
    ensures MinNat(a, b) <= a && MinNat(a, b) <= b && (MinNat(a, b) == a || MinNat(a, b) == b)
  {
  }

  lemma {:induction false} NameStep(q: seq<byte>, pos: nat)
    ensures pos >= |q| ==> NameStream(q, pos) == [] && NameEnd(q, pos) == pos
    ensures pos < |q| && q[pos] == 0 ==> NameStream(q, pos) == [0] && NameEnd(q, pos) == pos + 1
    ensures pos < |q| && q[pos] != 0 ==>
              var end := MinNat(pos + 1 + q[pos], |q|);
              && NameStream(q, pos) == [q[pos]] + LowerAll(q[pos + 1..end]) + NameStream(q, end)
              && NameEnd(q, pos) == NameEnd(q, end)
  {
  }

  /** Where a query's question ends: plain labels, at most 255 bytes of name. */
  function QueryQuestion(p: seq<byte>, start: nat, pos: nat): Option<nat>
    requires start <= pos
    decreases |p| - pos
  {
    if pos >= |p| then None
    else if p[pos] == 0 then (if pos + 5 > |p| then None else Some(pos + 5))
    else if p[pos] >= 0x40 || pos + 1 + p[pos] > |p| || pos + 1 + p[pos] - start + 1 > 255 then None
    else QueryQuestion(p, start, pos + 1 + p[pos])
  }

  datatype Fused = Fused(questionEnd: nat, hash: u64, hashEnd: nat)

  lemma {:induction false} QueryQuestionPlain(p: seq<byte>, start: nat, pos: nat)
    requires start <= pos && QueryQuestion(p, start, pos).Some?
    ensures var end := QueryQuestion(p, start, pos).value;
            && pos + 5 <= end <= |p| && PlainFrom(p[start..end], pos - start)
    decreases |p| - pos
  {
    if p[pos] != 0 { QueryQuestionPlain(p, start, pos + 1 + p[pos]); }
  }

  lemma {:induction false} QueryQuestionShort(p: seq<byte>, start: nat, pos: nat)
    requires start <= pos && pos - start + 1 <= 255 && QueryQuestion(p, start, pos).Some?
    ensures QueryQuestion(p, start, pos).value - 4 - start <= 255
    decreases |p| - pos
  {
    if p[pos] != 0 { QueryQuestionShort(p, start, pos + 1 + p[pos]); }
  }

  lemma {:induction false} PlainAccepted(p: seq<byte>, start: nat, pos: nat, end: nat)
    requires start <= pos <= end <= |p| && PlainFrom(p[start..end], pos - start) && end - 4 - start <= 255
    ensures QueryQuestion(p, start, pos) == Some(end)
    decreases |p| - pos
  {
    PlainLong(p[start..end], pos - start);
    if p[pos] != 0 {
      PlainLong(p[start..end], pos - start + 1 + p[pos]);
      PlainAccepted(p, start, pos + 1 + p[pos], end);
    }
  }

  /** Accepted are exactly the plain questions whose name has at most 255 bytes. */
  lemma {:induction false} QueryQuestionExact(p: seq<byte>, start: nat, end: nat)
    ensures QueryQuestion(p, start, start) == Some(end) <==>
            start <= end <= |p| && IsPlainQuestion(p[start..end]) && end - 4 - start <= 255
  {
    hide PlainFrom, QueryQuestion, IsPlainQuestion;
    if QueryQuestion(p, start, start) == Some(end) {
      QueryQuestionPlain(p, start, start);
      QueryQuestionShort(p, start, start);
    }
    if start <= end <= |p| {
      PlainExact(p[start..end]);
      if PlainFrom(p[start..end], 0) && end - 4 - start <= 255 { PlainAccepted(p, start, start, end); }
    }
  }

  lemma {:induction false} RootLowered(q: seq<byte>, pos: nat)
    requires pos < |q| && q[pos] == 0
    ensures LowerAll(q[pos..pos + 1]) == [0]
  {
  }

  lemma {:induction false} LabelLowered(q: seq<byte>, pos: nat, m: nat)
    requires pos < |q| && q[pos] < 0x40 && pos + 1 + q[pos] <= m <= |q|
    ensures var end := pos + 1 + q[pos];
            LowerAll(q[pos..m]) == [q[pos]] + LowerAll(q[pos + 1..end]) + LowerAll(q[end..m])
  {
    var end := pos + 1 + q[pos];
    assert q[pos..m] == [q[pos]] + q[pos + 1..end] + q[end..m];
  }

  /** On a plain question the stream is the name in lower case, and ends before QTYPE. */
  lemma {:induction false} PlainStream(q: seq<byte>, pos: nat)
    requires PlainFrom(q, pos)
    ensures pos <= |q| - 4 && NameStream(q, pos) == LowerAll(q[pos..|q| - 4]) && NameEnd(q, pos) == |q| - 4
    decreases |q| - pos
  {
    hide NameStream, NameEnd, LowerAll;
    PlainLong(q, pos);
    NameStep(q, pos);
    if q[pos] == 0 {
      RootLowered(q, pos);
    } else {
      var end := pos + 1 + q[pos];
      PlainStream(q, end);
      LabelLowered(q, pos, |q| - 4);
    }
  }

  lemma {:induction false} FusedLabel(p: seq<byte>, start: nat, pos: nat)
    requires start <= pos < |p| && pos + 1 + p[pos] <= |p| && p[pos] < 0x40
    ensures var end := pos + 1 + p[pos];
            LowerAll(p[start..end]) == LowerAll(p[start..pos]) + [p[pos]] + LowerAll(p[pos + 1..end])
  {
    var end := pos + 1 + p[pos];
    assert p[start..end] == p[start..pos] + [p[pos]] + p[pos + 1..end];
  }

  lemma {:induction false} FusedEnd(p: seq<byte>, start: nat, pos: nat)
    requires start <= pos < |p| && p[pos] == 0 && pos + 5 <= |p|
    requires QueryQuestion(p, start, start) == Some(pos + 5)
    ensures var q := p[start..pos + 5];
            NameStream(q, 0) == LowerAll(p[start..pos]) + [0] && NameEnd(q, 0) == pos + 1 - start
  {
    hide NameStream, NameEnd, PlainFrom, QueryQuestion;
    var q := p[start..pos + 5];
    QueryQuestionPlain(p, start, start);
    PlainStream(q, 0);
    assert q[0..|q| - 4] == p[start..pos] + [0];
  }

  lemma {:induction false} NoBytes(p: seq<byte>, start: nat)
    ensures start <= |p| ==> LowerAll(p[start..start]) == []
  {
  }

  /** The fused walk accepts exactly the well-formed questions, and its hash and end are
      those of the separate walk over the question it found. */
  method SkipQueryQuestion(p: seq<byte>, start: nat) returns (r: Option<Fused>)
    ensures r.Some? <==> QueryQuestion(p, start, start).Some?
    ensures r.Some? ==>
              var end := QueryQuestion(p, start, start).value;
              && start <= end <= |p|
              && var q := p[start..end];
                 r.value == Fused(end, Hashed(OFFSET, NameStream(q, 0)), NameEnd(q, 0))
  {
    hide Hashed, Mix, NameStream, NameEnd, PlainFrom, QueryQuestion, LowerAll;
    NoBytes(p, start);
    var h := new Fnv1a();
    var pos := start;
    ghost var done: seq<byte> := [];
    HashedNone(OFFSET);
    while pos < |p|
      invariant start <= pos
      invariant QueryQuestion(p, start, pos) == QueryQuestion(p, start, start)
      invariant pos <= |p| || start == pos
      invariant pos <= |p| ==> done == LowerAll(p[start..pos])
      invariant h.state == Hashed(OFFSET, done)
      decreases |p| - pos
    {
      QuestionStep(p, start, pos);
      var len := p[pos];
      HashedSnoc(OFFSET, done, len);
      h.WriteByte(len);
      pos := pos + 1;
      if len == 0 {
        if pos + 4 > |p| { return None; }
        FusedEnd(p, start, pos - 1);
        return Some(Fused(pos + 4, h.state, pos - start));
      }
      if len >= 0x40 { return None; }
      if len > 63 || pos + len > |p| { return None; }
      h.WriteLowered(p[pos..pos + len]);
      HashedCat(OFFSET, done + [len], LowerAll(p[pos..pos + len]));
      FusedLabel(p, start, pos - 1);
      done := done + [len] + LowerAll(p[pos..pos + len]);
      pos := pos + len;
      if pos - start + 1 > 255 { return None; }
    }
    QuestionStep(p, start, pos);
    return None;
  }

  lemma {:induction false} QuestionStep(p: seq<byte>, start: nat, pos: nat)
    requires start <= pos
    ensures QueryQuestion(p, start, pos) ==
            if pos >= |p| then None
            else if p[pos] == 0 then (if pos + 5 > |p| then None else Some(pos + 5))
            else if p[pos] >= 0x40 || pos + 1 + p[pos] > |p| || pos + 1 + p[pos] - start + 1 > 255 then None
            else QueryQuestion(p, start, pos + 1 + p[pos])
  {
  }

  // The rest of the key.

  function Flag(b: bool): byte {
    if b then 1 else 0
  }

  /** The codes of `m` that are at least `c`, in ascending order. */
  function SortedCodes(m: multiset<u16>, c: nat): (r: seq<u16>)
    requires c <= 0x1_0000
    decreases 0x1_0000 - c
  {
    if c == 0x1_0000 then [] else Repeat(c, m[c]) + SortedCodes(m, c + 1)
  }

  function Repeat(c: u16, n: nat): (r: seq<u16>)
    ensures |r| == n && forall i :: 0 <= i < n ==> r[i] == c
  {
    seq(n, i => c)
  }

  function CodeBytes(codes: seq<u16>): seq<byte> {
    if codes == [] then [] else LeBytes(codes[0], 2) + CodeBytes(codes[1..])
  }

  function ExtraHash(m: multiset<u16>): u64 {
    if m == multiset{} then 0 else Hashed(OFFSET, CodeBytes(SortedCodes(m, 0)))
  }

  /** The subnet that takes part in the key. */
  function EcsPart(v: Variant, strip: bool): Option<EcsSrc> {
    if strip then None else v.ecs
  }

  function EcsBytes(e: Option<EcsSrc>): seq<byte> {
    match e
    case None => [0]
    case Some(src) => [1] + BeBytes(src.addr, 16) + [src.prefixLen]
  }

  function FlagBytes(v: Variant): (r: seq<byte>)
    ensures |r| == 6
  {
    [Flag(v.hasOpt), Flag(v.doBit), v.version, Flag(v.rd), Flag(v.ad), Flag(v.cd)]
  }

  function VariantBytes(v: Variant, strip: bool): seq<byte> {
    FlagBytes(v) + EcsBytes(EcsPart(v, strip)) + LeBytes(ExtraHash(v.extra), 8)
  }

  /** From `pos` on, or nothing. */
  function TailFrom(q: seq<byte>, pos: nat): seq<byte> {
    if pos <= |q| then q[pos..] else []
  }

  /** All bytes that go into the key of question `q` and variant `v`. */
  function KeyStream(q: seq<byte>, v: Variant, strip: bool): seq<byte> {
    NameStream(q, 0) + TailFrom(q, NameEnd(q, 0)) + VariantBytes(v, strip)
  }

  function KeyOf(q: seq<byte>, v: Variant, strip: bool): u64 {
    Hashed(OFFSET, KeyStream(q, v, strip))
  }

  method FinishCacheKey(h0: u64, q: seq<byte>, pos: nat, v: Variant, strip: bool) returns (key: u64)
    ensures key == Hashed(h0, TailFrom(q, pos) + VariantBytes(v, strip))
  {
    hide Hashed, Mix, ExtraHash;
    var h := new Fnv1a.From(h0);
    var tail, flags, extra := TailFrom(q, pos), FlagBytes(v), LeBytes(ExtraHash(v.extra), 8);
    h.Write(tail);
    h.Write(flags);
    HashedCat(h0, tail, flags);
    ghost var subnet := EcsBytes(EcsPart(v, strip));
    if strip {
      h.Write([0]);
    } else {
      match v.ecs {
        case None => h.Write([0]);
        case Some(ecs) => h.Write([1] + BeBytes(ecs.addr, 16) + [ecs.prefixLen]);
      }
    }
    HashedCat(h0, tail + flags, subnet);
    h.Write(extra);
    HashedCat(h0, tail + flags + subnet, extra);
    assert tail + flags + subnet + extra == tail + (flags + subnet + extra);
    return h.state;
  }

  /** The key a query is looked up under, from the hash its validation produced. */
  method QueryKey(p: seq<byte>, fused: Fused, v: Variant, strip: bool) returns (key: u64)
    requires QueryQuestion(p, 12, 12) == Some(fused.questionEnd) && fused.questionEnd <= |p|
    requires 12 <= fused.questionEnd
    requires fused == Fused(fused.questionEnd, Hashed(OFFSET, NameStream(p[12..fused.questionEnd], 0)),
                            NameEnd(p[12..fused.questionEnd], 0))
    ensures key == KeyOf(p[12..fused.questionEnd], v, strip)
  {
    hide Hashed, NameStream, NameEnd, VariantBytes;
    var q := p[12..fused.questionEnd];
    key := FinishCacheKey(fused.hash, q, fused.hashEnd, v, strip);
    ghost var tail := TailFrom(q, NameEnd(q, 0));
    HashedCat(OFFSET, NameStream(q, 0), tail + VariantBytes(v, strip));
    assert NameStream(q, 0) + (tail + VariantBytes(v, strip)) == KeyStream(q, v, strip);
  }

  // Which queries share a stream.

  predicate SameFlags(v: Variant, w: Variant) {
    && v.hasOpt == w.hasOpt && v.doBit == w.doBit && v.version == w.version
    && v.rd == w.rd && v.ad == w.ad && v.cd == w.cd
  }

  predicate AddrFits(e: Option<EcsSrc>) {
    e.Some? ==> e.value.addr < Pow2(128)
  }

  /** Names that start the same stream have the same length. */
  lemma {:induction false} SameLength(a: seq<byte>, b: seq<byte>, s: seq<byte>, pos: nat)
    requires PlainFrom(a, pos) && PlainFrom(b, pos)
    requires |a| <= |s| && forall i :: 0 <= i < |a| - 4 ==> s[i] == Lower(a[i])
    requires |b| <= |s| && forall i :: 0 <= i < |b| - 4 ==> s[i] == Lower(b[i])
    ensures |a| == |b|
    decreases |a| - pos
  {
    PlainLong(a, pos);
    PlainLong(b, pos);
    assert s[pos] == Lower(a[pos]) == Lower(b[pos]);
    LengthByte(a, pos);
    LengthByte(b, pos);
    if a[pos] != 0 { SameLength(a, b, s, pos + 1 + a[pos]); }
  }

  lemma {:induction false} LengthByte(a: seq<byte>, pos: nat)
    requires PlainFrom(a, pos)
    ensures pos < |a| && Lower(a[pos]) == a[pos]
  {
  }

  /** The stream of a plain question. */
  lemma {:induction false} PlainKeyStream(q: seq<byte>, v: Variant, strip: bool)
    requires PlainFrom(q, 0)
    ensures |q| >= 5
    ensures KeyStream(q, v, strip) == LowerAll(q[..|q| - 4]) + q[|q| - 4..] + VariantBytes(v, strip)
  {
    hide NameStream, NameEnd, VariantBytes, LowerAll;
    PlainLong(q, 0);
    PlainStream(q, 0);
    assert q[0..|q| - 4] == q[..|q| - 4];
  }

  lemma {:induction false} VariantBytesExact(v: Variant, s: bool, w: Variant, t: bool)
    requires AddrFits(v.ecs) && AddrFits(w.ecs)
    ensures VariantBytes(v, s) == VariantBytes(w, t) <==>
            SameFlags(v, w) && EcsPart(v, s) == EcsPart(w, t) && ExtraHash(v.extra) == ExtraHash(w.extra)
  {
    hide ExtraHash, Pow2, LeBytes, BeBytes, FlagBytes;
    var x, y := VariantBytes(v, s), VariantBytes(w, t);
    var ev, ew := EcsPart(v, s), EcsPart(w, t);
    if x == y {
      assert x[..6] == FlagBytes(v) && y[..6] == FlagBytes(w);
      FlagsExact(v, w);
      assert x[6] == EcsBytes(ev)[0] && y[6] == EcsBytes(ew)[0];
      var n := |EcsBytes(ev)|;
      assert |EcsBytes(ew)| == n;
      assert x[6..6 + n] == EcsBytes(ev) && y[6..6 + n] == EcsBytes(ew);
      EcsExact(ev, ew);
      assert x[6 + n..] == LeBytes(ExtraHash(v.extra), 8) && y[6 + n..] == LeBytes(ExtraHash(w.extra), 8);
      WordBounds();
      LeRoundTrip(ExtraHash(v.extra), 8);
      LeRoundTrip(ExtraHash(w.extra), 8);
    }
    if SameFlags(v, w) { FlagsExact(v, w); }
  }

  lemma {:induction false} FlagsExact(v: Variant, w: Variant)
    ensures FlagBytes(v) == FlagBytes(w) <==> SameFlags(v, w)
  {
    var x, y := FlagBytes(v), FlagBytes(w);
    assert x == y <==> x[0] == y[0] && x[1] == y[1] && x[2] == y[2] && x[3] == y[3] && x[4] == y[4] && x[5] == y[5];
  }

  lemma {:induction false} EcsExact(a: Option<EcsSrc>, b: Option<EcsSrc>)
    requires AddrFits(a) && AddrFits(b) && EcsBytes(a) == EcsBytes(b)
    ensures a == b
  {
    hide Pow2, BeBytes;
    var x, y := EcsBytes(a), EcsBytes(b);
    assert x[0] == y[0];
    if a.Some? {
      assert x[1..17] == BeBytes(a.value.addr, 16) && y[1..17] == BeBytes(b.value.addr, 16);
      BeInjective(a.value.addr, b.value.addr, 16);
      assert x[17] == y[17];
    }
  }

  /** Two queries hash the same bytes exactly when their questions match up to letter
      case and their variants agree, leaving out the subnets of stripped ones. */
  lemma {:induction false} KeyStreamExact(a: seq<byte>, v: Variant, s: bool, b: seq<byte>, w: Variant, t: bool)
    requires PlainFrom(a, 0) && PlainFrom(b, 0) && AddrFits(v.ecs) && AddrFits(w.ecs)
    ensures KeyStream(a, v, s) == KeyStream(b, w, t) <==>
            && QuestionsMatch(a, b) && SameFlags(v, w)
            && EcsPart(v, s) == EcsPart(w, t) && ExtraHash(v.extra) == ExtraHash(w.extra)
  {
    hide KeyStream, VariantBytes, ExtraHash, EcsPart, SameFlags, AddrFits, QuestionsMatch, PlainFrom;
    PlainKeyStream(a, v, s);
    PlainKeyStream(b, w, t);
    MatchLowered(a, b);
    VariantBytesExact(v, s, w, t);
    var x, y := KeyStream(a, v, s), KeyStream(b, w, t);
    if x == y {
      forall i | 0 <= i < |a| - 4 ensures x[i] == Lower(a[i]) {}
      forall i | 0 <= i < |b| - 4 ensures y[i] == Lower(b[i]) {}
      SameLength(a, b, x, 0);
      var n := |a|;
      assert x[..n - 4] == LowerAll(a[..n - 4]) && y[..n - 4] == LowerAll(b[..n - 4]);
      assert x[n - 4..n] == a[n - 4..] && y[n - 4..n] == b[n - 4..];
      assert x[n..] == VariantBytes(v, s) && y[n..] == VariantBytes(w, t);
    }
  }
}
