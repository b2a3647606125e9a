/** The layout of the persisted cache file (`src/persist.rs`, `src/cache.rs`): which
    bytes read back as which fields, in both directions. */
module PersistCodec {
  import opened Prelude
  import opened BitWords
  import opened ByteOrder
  import Ttl

  /** Longest byte string the reader accepts. */
  const MAX_BYTES: nat := 0x1_0000
  const MAX_OFFSETS: nat := 0xFFFF

  type Pair = Ttl.Pair

  /** One entry as it is written. */
  datatype Raw = Raw(
    key: u64, expire: u64, ttl: u32,
    question: seq<byte>, packet: seq<byte>, query: seq<byte>, qname: seq<byte>,
    offsets: seq<Pair>, ruleId: u16)

  ghost predicate PairsFit(ps: seq<Pair>) {
    forall i :: 0 <= i < |ps| ==> ps[i].0 < 0x1_0000_0000
  }

  ghost predicate RawFits(r: Raw) {
    && |r.question| <= MAX_BYTES && |r.packet| <= MAX_BYTES && |r.query| <= MAX_BYTES && |r.qname| <= MAX_BYTES
    && |r.offsets| <= MAX_OFFSETS && PairsFit(r.offsets)
  }

  // Writing.

  function EncodeBytes(b: seq<byte>): seq<byte> {
    LeBytes(|b|, 4) + b
  }

  function EncodePairs(ps: seq<Pair>): seq<byte> {
    if ps == [] then [] else LeBytes(ps[0].0, 4) + LeBytes(ps[0].1, 4) + EncodePairs(ps[1..])
  }

  function EncodeNumbers(r: Raw): seq<byte> {
    LeBytes(r.key, 8) + LeBytes(r.expire, 8) + LeBytes(r.ttl, 4)
  }

  function EncodeStrings(r: Raw): seq<byte> {
    EncodeBytes(r.question) + EncodeBytes(r.packet) + EncodeBytes(r.query) + EncodeBytes(r.qname)
  }

  function EncodeOffsets(r: Raw): seq<byte> {
    LeBytes(|r.offsets|, 4) + EncodePairs(r.offsets) + LeBytes(r.ruleId, 2)
  }

  function EncodeRaw(r: Raw): seq<byte> {
    EncodeNumbers(r) + EncodeStrings(r) + EncodeOffsets(r)
  }

  function EncodeRaws(rs: seq<Raw>): seq<byte> {
    if rs == [] then [] else EncodeRaw(rs[0]) + EncodeRaws(rs[1..])
  }

  // Reading.

  function ReadLe(f: seq<byte>, pos: nat, k: nat): Option<nat> {
    if pos + k <= |f| then Some(LeValue(f[pos..pos + k])) else None
  }

  function ReadBytes(f: seq<byte>, pos: nat): Option<seq<byte>> {
    match ReadLe(f, pos, 4)
    case None => None
    case Some(n) => if n <= MAX_BYTES && pos + 4 + n <= |f| then Some(f[pos + 4..pos + 4 + n]) else None
  }

  function ReadPairs(f: seq<byte>, pos: nat, n: nat): Option<seq<Pair>>
    decreases n
  {
    if n == 0 then Some([])
    else
      match (ReadLe(f, pos, 4), ReadLe(f, pos + 4, 4))
      case (Some(off), Some(ttl)) =>
        (match ReadPairs(f, pos + 8, n - 1)
         case None => None
         case Some(rest) => LeWord(f, pos + 4); Some([(off, ttl)] + rest))
      case _ => None
  }

  lemma {:induction false} LeWord(f: seq<byte>, pos: nat)
    ensures ReadLe(f, pos, 2).Some? ==> ReadLe(f, pos, 2).value < 0x1_0000
    ensures ReadLe(f, pos, 4).Some? ==> ReadLe(f, pos, 4).value < 0x1_0000_0000
    ensures ReadLe(f, pos, 8).Some? ==> ReadLe(f, pos, 8).value < TWO64
  {
    hide LeValue;
    WordBounds();
    if pos + 2 <= |f| { LeBound(f[pos..pos + 2]); }
    if pos + 4 <= |f| { LeBound(f[pos..pos + 4]); }
    if pos + 8 <= |f| { LeBound(f[pos..pos + 8]); }
  }

  datatype Numbers = Numbers(key: u64, expire: u64, ttl: u32)
  datatype Strings = Strings(question: seq<byte>, packet: seq<byte>, query: seq<byte>, qname: seq<byte>, end: nat)
  datatype Places = Places(offsets: seq<Pair>, ruleId: u16, end: nat)

  function ReadNumbers(f: seq<byte>, pos: nat): Option<Numbers> {
    match (ReadLe(f, pos, 8), ReadLe(f, pos + 8, 8), ReadLe(f, pos + 16, 4))
    case (Some(key), Some(expire), Some(ttl)) =>
      LeWord(f, pos); LeWord(f, pos + 8); LeWord(f, pos + 16);
      Some(Numbers(key, expire, ttl))
    case _ => None
  }

  function ReadStrings(f: seq<byte>, pos: nat): Option<Strings> {
    match ReadBytes(f, pos)
    case None => None
    case Some(question) =>
      var p1 := pos + 4 + |question|;
      match ReadBytes(f, p1)
      case None => None
      case Some(packet) =>
        var p2 := p1 + 4 + |packet|;
        match ReadBytes(f, p2)
        case None => None
        case Some(query) =>
          var p3 := p2 + 4 + |query|;
          match ReadBytes(f, p3)
          case None => None
          case Some(qname) => Some(Strings(question, packet, query, qname, p3 + 4 + |qname|))
  }

  function ReadPlaces(f: seq<byte>, pos: nat): Option<Places> {
    match ReadLe(f, pos, 4)
    case None => None
    case Some(n) =>
      if n > MAX_OFFSETS then None
      else
        match (ReadPairs(f, pos + 4, n), ReadLe(f, pos + 4 + 8 * n, 2))
        case (Some(ps), Some(ruleId)) => LeWord(f, pos + 4 + 8 * n); Some(Places(ps, ruleId, pos + 6 + 8 * n))
        case _ => None
  }

  function ReadRaw(f: seq<byte>, pos: nat): Option<(Raw, nat)> {
    match ReadNumbers(f, pos)
    case None => None
    case Some(a) =>
      match ReadStrings(f, pos + 20)
      case None => None
      case Some(s) =>
        match ReadPlaces(f, s.end)
        case None => None
        case Some(p) =>
          Some((Raw(a.key, a.expire, a.ttl, s.question, s.packet, s.query, s.qname, p.offsets, p.ruleId), p.end))
  }

  // What is read is what was written.

  lemma {:induction false} LeBack(s: seq<byte>)
    ensures LeBytes(LeValue(s), |s|) == s
    decreases |s|
  {
    if s != [] {
      LeBack(s[1..]);
      var v := LeValue(s);
      assert v % 0x100 == s[0] && v / 0x100 == LeValue(s[1..]);
    }
  }

  lemma {:induction false} ReadLeExact(f: seq<byte>, pos: nat, k: nat, n: nat)
    ensures ReadLe(f, pos, k) == Some(n) <==> n < Pow2(8 * k) && At(f, pos, LeBytes(n, k))
  {
    hide LeBytes, LeValue, Pow2;
    if pos + k <= |f| {
      var s := f[pos..pos + k];
      LeBack(s);
      LeBound(s);
      if n < Pow2(8 * k) { LeRoundTrip(n, k); }
    }
  }

  lemma {:induction false} ReadWordExact(f: seq<byte>, pos: nat, n: nat)
    ensures ReadLe(f, pos, 2) == Some(n) <==> n < 0x1_0000 && At(f, pos, LeBytes(n, 2))
    ensures ReadLe(f, pos, 4) == Some(n) <==> n < 0x1_0000_0000 && At(f, pos, LeBytes(n, 4))
    ensures ReadLe(f, pos, 8) == Some(n) <==> n < TWO64 && At(f, pos, LeBytes(n, 8))
  {
    hide ReadLe, At, LeBytes, Pow2;
    WordBounds();
    ReadLeExact(f, pos, 2, n);
    ReadLeExact(f, pos, 4, n);
    ReadLeExact(f, pos, 8, n);
  }

  lemma {:induction false} ReadBytesExact(f: seq<byte>, pos: nat, b: seq<byte>)
    ensures ReadBytes(f, pos) == Some(b) <==> |b| <= MAX_BYTES && At(f, pos, EncodeBytes(b))
  {
    hide ReadLe, LeBytes;
    AtCat(f, pos, LeBytes(|b|, 4), b);
    ReadWordExact(f, pos, |b|);
  }

  lemma {:induction false} PairsSize(ps: seq<Pair>)
    ensures |EncodePairs(ps)| == 8 * |ps|
    decreases |ps|
  {
    hide LeBytes;
    if ps != [] { PairsSize(ps[1..]); }
  }

  lemma {:induction false} ReadPairsStep(f: seq<byte>, pos: nat, n: nat)
    requires n > 0
    ensures ReadPairs(f, pos, n) ==
            match (ReadLe(f, pos, 4), ReadLe(f, pos + 4, 4))
            case (Some(off), Some(ttl)) =>
              (match ReadPairs(f, pos + 8, n - 1)
               case None => None
               case Some(rest) => LeWord(f, pos + 4); Some([(off, ttl)] + rest))
            case _ => None
  {
  }

  lemma {:induction false} EncodePairsStep(p: Pair, ps: seq<Pair>)
    ensures EncodePairs([p] + ps) == LeBytes(p.0, 4) + (LeBytes(p.1, 4) + EncodePairs(ps))
  {
    hide LeBytes;
    assert ([p] + ps)[1..] == ps;
  }

  lemma {:induction false} ReadPairsExact(f: seq<byte>, pos: nat, ps: seq<Pair>)
    requires pos <= |f|
    ensures ReadPairs(f, pos, |ps|) == Some(ps) <==> PairsFit(ps) && At(f, pos, EncodePairs(ps))
    decreases |ps|
  {
    hide ReadLe, LeBytes, EncodePairs, ReadPairs, At;
    if ps == [] {
      NoPairs(f, pos);
    } else {
      var p, rest := ps[0], ps[1..];
      assert ps == [p] + rest;
      ReadPairsStep(f, pos, |ps|);
      EncodePairsStep(p, rest);
      AtCat(f, pos, LeBytes(p.0, 4), LeBytes(p.1, 4) + EncodePairs(rest));
      AtCat(f, pos + 4, LeBytes(p.1, 4), EncodePairs(rest));
      ReadWordExact(f, pos, p.0);
      ReadWordExact(f, pos + 4, p.1);
      FitStep(p, rest);
      if pos + 8 <= |f| { ReadPairsExact(f, pos + 8, rest); } else { NotAt(f, pos + 4, LeBytes(p.1, 4)); }
    }
  }

  lemma {:induction false} NotAt(f: seq<byte>, pos: nat, s: seq<byte>)
    requires pos + |s| > |f|
    ensures !At(f, pos, s)
  {
  }

  lemma {:induction false} FitStep(p: Pair, ps: seq<Pair>)
    ensures PairsFit([p] + ps) <==> p.0 < 0x1_0000_0000 && PairsFit(ps)
  {
    var all := [p] + ps;
    if PairsFit(all) {
      assert all[0] == p;
      forall i | 0 <= i < |ps| ensures ps[i].0 < 0x1_0000_0000 { assert all[i + 1] == ps[i]; }
    }
  }

  lemma {:induction false} NoPairs(f: seq<byte>, pos: nat)
    ensures ReadPairs(f, pos, 0) == Some([]) && EncodePairs([]) == [] && PairsFit([])
    ensures At(f, pos, []) <==> pos <= |f|
  {
  }

  lemma {:induction false} ReadPairsLength(f: seq<byte>, pos: nat, n: nat)
    ensures ReadPairs(f, pos, n).Some? ==> |ReadPairs(f, pos, n).value| == n
    decreases n
  {
    hide ReadLe;
    if n > 0 { ReadPairsLength(f, pos + 8, n - 1); }
  }

  lemma {:induction false} ReadNumbersExact(f: seq<byte>, pos: nat, a: Numbers)
    ensures ReadNumbers(f, pos) == Some(a) <==>
            At(f, pos, LeBytes(a.key, 8) + LeBytes(a.expire, 8) + LeBytes(a.ttl, 4))
  {
    hide ReadLe, LeBytes, At;
    AtCat(f, pos, LeBytes(a.key, 8) + LeBytes(a.expire, 8), LeBytes(a.ttl, 4));
    AtCat(f, pos, LeBytes(a.key, 8), LeBytes(a.expire, 8));
    ReadWordExact(f, pos, a.key);
    ReadWordExact(f, pos + 8, a.expire);
    ReadWordExact(f, pos + 16, a.ttl);
  }

  lemma {:induction false} ReadStringsExact(f: seq<byte>, pos: nat, s: Strings)
    ensures ReadStrings(f, pos) == Some(s) <==>
            && |s.question| <= MAX_BYTES && |s.packet| <= MAX_BYTES && |s.query| <= MAX_BYTES && |s.qname| <= MAX_BYTES
            && At(f, pos, EncodeBytes(s.question) + EncodeBytes(s.packet) + EncodeBytes(s.query) + EncodeBytes(s.qname))
            && s.end == pos + 16 + |s.question| + |s.packet| + |s.query| + |s.qname|
  {
    hide ReadBytes, EncodeBytes, At;
    var a, b, c, d := EncodeBytes(s.question), EncodeBytes(s.packet), EncodeBytes(s.query), EncodeBytes(s.qname);
    StringSize(s.question);
    StringSize(s.packet);
    StringSize(s.query);
    AtCat(f, pos, a + b + c, d);
    AtCat(f, pos, a + b, c);
    AtCat(f, pos, a, b);
    ReadBytesExact(f, pos, s.question);
    ReadBytesExact(f, pos + |a|, s.packet);
    ReadBytesExact(f, pos + |a| + |b|, s.query);
    ReadBytesExact(f, pos + |a| + |b| + |c|, s.qname);
  }

  lemma {:induction false} StringSize(b: seq<byte>)
    ensures |EncodeBytes(b)| == 4 + |b|
  {
  }

  lemma {:induction false} ReadPlacesExact(f: seq<byte>, pos: nat, p: Places)
    ensures ReadPlaces(f, pos) == Some(p) <==>
            && |p.offsets| <= MAX_OFFSETS && PairsFit(p.offsets)
            && At(f, pos, LeBytes(|p.offsets|, 4) + EncodePairs(p.offsets) + LeBytes(p.ruleId, 2))
            && p.end == pos + 6 + 8 * |p.offsets|
  {
    hide ReadLe, LeBytes, At, EncodePairs, ReadPairs;
    var n := |p.offsets|;
    var a, b, c := LeBytes(n, 4), EncodePairs(p.offsets), LeBytes(p.ruleId, 2);
    PairsSize(p.offsets);
    AtCat(f, pos, a + b, c);
    AtCat(f, pos, a, b);
    ReadWordExact(f, pos, n);
    ReadWordExact(f, pos + 4 + 8 * n, p.ruleId);
    if pos + 4 <= |f| { ReadPairsExact(f, pos + 4, p.offsets); } else { NotAt(f, pos, a); }
    if ReadLe(f, pos, 4).Some? { ReadPairsLength(f, pos + 4, ReadLe(f, pos, 4).value); }
  }

  lemma {:induction false} RawSize(r: Raw)
    ensures |EncodeNumbers(r)| == 20
    ensures |EncodeStrings(r)| == 16 + |r.question| + |r.packet| + |r.query| + |r.qname|
    ensures |EncodeOffsets(r)| == 6 + 8 * |r.offsets|
  {
    hide LeBytes, EncodePairs;
    PairsSize(r.offsets);
  }

  /** An entry is read at a place exactly when its encoding stands there. */
  lemma {:induction false} ReadRawExact(f: seq<byte>, pos: nat, r: Raw, end: nat)
    ensures ReadRaw(f, pos) == Some((r, end)) <==>
            RawFits(r) && At(f, pos, EncodeRaw(r)) && end == pos + |EncodeRaw(r)|
  {
    hide ReadNumbers, ReadStrings, ReadPlaces, At, LeBytes, EncodePairs, EncodeBytes, PairsFit;
    RawSize(r);
    AtCat(f, pos, EncodeNumbers(r) + EncodeStrings(r), EncodeOffsets(r));
    AtCat(f, pos, EncodeNumbers(r), EncodeStrings(r));
    var stringsEnd := pos + 36 + |r.question| + |r.packet| + |r.query| + |r.qname|;
    ReadNumbersExact(f, pos, Numbers(r.key, r.expire, r.ttl));
    ReadStringsExact(f, pos + 20, Strings(r.question, r.packet, r.query, r.qname, stringsEnd));
    if ReadStrings(f, pos + 20).Some? { ReadStringsExact(f, pos + 20, ReadStrings(f, pos + 20).value); }
    ReadPlacesExact(f, stringsEnd, Places(r.offsets, r.ruleId, stringsEnd + 6 + 8 * |r.offsets|));
    if ReadPlaces(f, stringsEnd).Some? { ReadPlacesExact(f, stringsEnd, ReadPlaces(f, stringsEnd).value); }
  }
}
