/** Saving the response cache to a file and loading it again (`src/cache.rs`,
    `src/persist.rs`). `wall` is the wall clock in whole seconds, `clock` the monotonic
    clock in nanoseconds; while saving it is read anew for every key. */
module Persist {
  import opened Prelude
  import opened BitWords
  import opened ByteOrder
  import opened Edns
  import opened Cache
  import opened PersistCodec
  import Utf8

  const MAGIC: seq<byte> := [0x50, 0x44, 0x4E, 0x53, 0x43, 0x30, 0x30, 0x39]

  /** Seconds an entry still has to live. */
  function Remaining(e: Entry, clock: nat): u32 {
    var age := Age(clock, e.inserted);
    if age >= e.ttl then 0 else e.ttl - age
  }

  function QuestionBytes(e: Entry): seq<byte> {
    if 12 <= e.questionEnd <= |e.query| then e.query[12..e.questionEnd] else []
  }

  function RawOf(key: u64, e: Entry, wall: nat, clock: nat): Raw
    requires wall + 0x1_0000_0000 < TWO64
  {
    Raw(key, wall + Remaining(e, clock), e.ttl, QuestionBytes(e), e.packet, e.query, e.qname, e.offsets, e.ruleId)
  }

  // Saving.

  /** What is written for the entries under `keys`: the live ones, in order. */
  function LiveRaws(s: Store, keys: seq<u64>, wall: nat, clock: u64 -> nat): seq<Raw>
    requires wall + 0x1_0000_0000 < TWO64 && forall i :: 0 <= i < |keys| ==> keys[i] in s
  {
    if keys == [] then []
    else
      var last := keys[|keys| - 1];
      LiveRaws(s, keys[..|keys| - 1], wall, clock) +
      (if Remaining(s[last], clock(last)) == 0 then [] else [RawOf(last, s[last], wall, clock(last))])
  }

  function Header(fingerprint: u64, count: nat): seq<byte> {
    MAGIC + LeBytes(fingerprint, 8) + LeBytes(count % 0x1_0000_0000, 4)
  }

  function Saved(s: Store, keys: seq<u64>, fingerprint: u64, wall: nat, clock: u64 -> nat): seq<byte>
    requires wall + 0x1_0000_0000 < TWO64 && forall i :: 0 <= i < |keys| ==> keys[i] in s
  {
    var raws := LiveRaws(s, keys, wall, clock);
    Header(fingerprint, |raws|) + EncodeRaws(raws)
  }

  method SaveToFile(s: Store, keys: seq<u64>, fingerprint: u64, wall: nat, clock: u64 -> nat)
    returns (f: seq<byte>, count: nat)
    requires wall + 0x1_0000_0000 < TWO64 && forall i :: 0 <= i < |keys| ==> keys[i] in s
    ensures f == Saved(s, keys, fingerprint, wall, clock)
    ensures count == |LiveRaws(s, keys, wall, clock)|
  {
    hide LiveRaws, EncodeRaws, EncodeRaw, LeBytes, RawOf;
    var live: seq<Raw> := [];
    NoRaws(s, wall, clock);
    for i := 0 to |keys|
      invariant live == LiveRaws(s, keys[..i], wall, clock)
    {
      LiveStep(s, keys, i, wall, clock);
      var remaining := Remaining(s[keys[i]], clock(keys[i]));
      if remaining != 0 { live := live + [RawOf(keys[i], s[keys[i]], wall, clock(keys[i]))]; }
    }
    assert keys[..|keys|] == keys;
    count := |live|;
    f := Header(fingerprint, count);
    for i := 0 to count
      invariant f == Header(fingerprint, count) + EncodeRaws(live[..i])
    {
      EncodeStep(live, i);
      f := f + EncodeRaw(live[i]);
    }
    assert live[..count] == live;
  }

  lemma {:induction false} NoRaws(s: Store, wall: nat, clock: u64 -> nat)
    requires wall + 0x1_0000_0000 < TWO64
    ensures LiveRaws(s, [], wall, clock) == [] && EncodeRaws([]) == []
  {
  }

  lemma {:induction false} LiveStep(s: Store, keys: seq<u64>, i: nat, wall: nat, clock: u64 -> nat)
    requires wall + 0x1_0000_0000 < TWO64 && i < |keys| && forall j :: 0 <= j < |keys| ==> keys[j] in s
    ensures LiveRaws(s, keys[..i + 1], wall, clock) ==
            LiveRaws(s, keys[..i], wall, clock) +
            (if Remaining(s[keys[i]], clock(keys[i])) == 0 then []
             else [RawOf(keys[i], s[keys[i]], wall, clock(keys[i]))])
  {
    hide RawOf;
    assert keys[..i + 1][..i] == keys[..i];
  }

  lemma {:induction false} EncodeStep(raws: seq<Raw>, i: nat)
    requires i < |raws|
    ensures EncodeRaws(raws[..i + 1]) == EncodeRaws(raws[..i]) + EncodeRaw(raws[i])
  {
    hide EncodeRaws, EncodeRaw;
    EncodeSnoc(raws[..i], raws[i]);
    assert raws[..i + 1] == raws[..i] + [raws[i]];
  }

  lemma {:induction false} EncodeSnoc(raws: seq<Raw>, r: Raw)
    ensures EncodeRaws(raws + [r]) == EncodeRaws(raws) + EncodeRaw(r)
    decreases |raws|
  {
    hide EncodeRaw;
    if raws == [] {
      assert [r][1..] == [];
      assert EncodeRaws([r]) == EncodeRaw(r) + EncodeRaws([]);
    } else {
      EncodeSnoc(raws[1..], r);
      assert (raws + [r])[1..] == raws[1..] + [r];
    }
  }

  // Loading.

  datatype LoadError = BadMagic | OtherConfig | Corrupt

  /** The entry a record stands for at load time, unless it has expired. */
  function Restore(r: Raw, wall: nat, clock: nat): Option<Entry> {
    if r.expire <= wall || !Utf8.Valid(r.qname) then None
    else
      var remaining := r.expire - wall;
      var age := if r.ttl <= remaining then 0 else r.ttl - remaining;
      var questionEnd := 12 + |r.question|;
      var variant := ExtractVariant(r.query, questionEnd);
      var (inserted, ttl) :=
        if clock >= age * NANOS then (clock - age * NANOS, r.ttl)
        else (clock, if remaining <= r.ttl then remaining else r.ttl);
      Some(Entry(r.packet, r.query, r.qname, questionEnd, variant, inserted, ttl, r.offsets, r.ruleId))
  }

  datatype Load = Load(outcome: Result<nat, LoadError>, store: Store)

  /** Reads `n` records; what was read before a broken one stays. */
  function LoadRaws(f: seq<byte>, pos: nat, n: nat, s: Store, loaded: nat, wall: nat, clock: nat): Load
    decreases n
  {
    if n == 0 then Load(Ok(loaded), s)
    else
      match ReadRaw(f, pos)
      case None => Load(Err(Corrupt), s)
      case Some((raw, end)) =>
        match Restore(raw, wall, clock)
        case None => LoadRaws(f, end, n - 1, s, loaded, wall, clock)
        case Some(e) => LoadRaws(f, end, n - 1, s[raw.key := e], loaded + 1, wall, clock)
  }

  function Loaded(f: seq<byte>, fingerprint: u64, s: Store, wall: nat, clock: nat): Load {
    if |f| < 8 then Load(Err(Corrupt), s)
    else if f[..8] != MAGIC then Load(Err(BadMagic), s)
    else
      match ReadLe(f, 8, 8)
      case None => Load(Err(Corrupt), s)
      case Some(fp) =>
        if fp != fingerprint then Load(Err(OtherConfig), s)
        else
          match ReadLe(f, 16, 4)
          case None => Load(Err(Corrupt), s)
          case Some(count) => LoadRaws(f, 20, count, s, 0, wall, clock)
  }

  method ReadEntry(f: seq<byte>, pos: nat) returns (r: Option<(Raw, nat)>)
    ensures r == ReadRaw(f, pos)
  {
    hide ReadLe, ReadBytes, ReadPairs;
    LeWord(f, pos);
    LeWord(f, pos + 8);
    LeWord(f, pos + 16);
    var key, expire, ttl := ReadLe(f, pos, 8), ReadLe(f, pos + 8, 8), ReadLe(f, pos + 16, 4);
    if key.None? || expire.None? || ttl.None? { return None; }
    var at := pos + 20;
    var question := ReadBytes(f, at);
    if question.None? { return None; }
    at := at + 4 + |question.value|;
    var packet := ReadBytes(f, at);
    if packet.None? { return None; }
    at := at + 4 + |packet.value|;
    var query := ReadBytes(f, at);
    if query.None? { return None; }
    at := at + 4 + |query.value|;
    var qname := ReadBytes(f, at);
    if qname.None? { return None; }
    at := at + 4 + |qname.value|;
    var n := ReadLe(f, at, 4);
    if n.None? || n.value > MAX_OFFSETS { return None; }
    var offsets := ReadOffsets(f, at + 4, n.value);
    if offsets.None? { return None; }
    var ruleId := ReadLe(f, at + 4 + 8 * n.value, 2);
    if ruleId.None? { return None; }
    LeWord(f, at + 4 + 8 * n.value);
    var raw := Raw(key.value, expire.value, ttl.value, question.value, packet.value, query.value, qname.value,
                   offsets.value, ruleId.value);
    return Some((raw, at + 6 + 8 * n.value));
  }

  method ReadOffsets(f: seq<byte>, pos: nat, n: nat) returns (r: Option<seq<Pair>>)
    ensures r == ReadPairs(f, pos, n)
  {
    hide ReadLe, ReadPairs;
    var offsets: seq<Pair> := [];
    ghost var all := ReadPairs(f, pos, n);
    if all.Some? { assert offsets + all.value == all.value; }
    for i := 0 to n
      invariant ReadPairs(f, pos, n) ==
                match ReadPairs(f, pos + 8 * i, n - i) case None => None case Some(rest) => Some(offsets + rest)
    {
      ReadPairsStep(f, pos + 8 * i, n - i);
      LeWord(f, pos + 8 * i + 4);
      var off, ttl := ReadLe(f, pos + 8 * i, 4), ReadLe(f, pos + 8 * i + 4, 4);
      if off.None? || ttl.None? { return None; }
      ghost var before := offsets;
      offsets := offsets + [(off.value, ttl.value)];
      ghost var rest := ReadPairs(f, pos + 8 * (i + 1), n - i - 1);
      assert pos + 8 * i + 8 == pos + 8 * (i + 1);
      if rest.Some? { assert before + ([(off.value, ttl.value as u32)] + rest.value) == offsets + rest.value; }
    }
    NoPairs(f, pos + 8 * n);
    assert offsets + [] == offsets;
    return Some(offsets);
  }

  method LoadFromFile(f: seq<byte>, fingerprint: u64, s: Store, wall: nat, clock: nat) returns (r: Load)
    ensures r == Loaded(f, fingerprint, s, wall, clock)
  {
    hide LoadRaws, ReadRaw, ReadLe, ExtractVariant, Utf8.Valid;
    if |f| < 8 { return Load(Err(Corrupt), s); }
    if f[..8] != MAGIC { return Load(Err(BadMagic), s); }
    var fp := ReadLe(f, 8, 8);
    if fp.None? { return Load(Err(Corrupt), s); }
    if fp.value != fingerprint { return Load(Err(OtherConfig), s); }
    var count := ReadLe(f, 16, 4);
    if count.None? { return Load(Err(Corrupt), s); }
    var n := count.value;
    var store: Store, loaded, pos := s, 0, 20;
    for i := 0 to n
      invariant LoadRaws(f, pos, n - i, store, loaded, wall, clock) == LoadRaws(f, 20, n, s, 0, wall, clock)
    {
      LoadStep(f, pos, n - i, store, loaded, wall, clock);
      var next := ReadEntry(f, pos);
      if next.None? { return Load(Err(Corrupt), store); }
      var (raw, end) := next.value;
      pos := end;
      var e := Restore(raw, wall, clock);
      if e.Some? {
        store, loaded := store[raw.key := e.value], loaded + 1;
      }
    }
    LoadStep(f, pos, 0, store, loaded, wall, clock);
    return Load(Ok(loaded), store);
  }

  lemma {:induction false} LoadStep(f: seq<byte>, pos: nat, n: nat, s: Store, loaded: nat, wall: nat, clock: nat)
    ensures LoadRaws(f, pos, n, s, loaded, wall, clock) ==
            if n == 0 then Load(Ok(loaded), s)
            else
              match ReadRaw(f, pos)
              case None => Load(Err(Corrupt), s)
              case Some((raw, end)) =>
                match Restore(raw, wall, clock)
                case None => LoadRaws(f, end, n - 1, s, loaded, wall, clock)
                case Some(e) => LoadRaws(f, end, n - 1, s[raw.key := e], loaded + 1, wall, clock)
  {
  }

  // The round trip.

  function RestoreAll(s: Store, raws: seq<Raw>, wall: nat, clock: nat): Store
    decreases |raws|
  {
    if raws == [] then s
    else
      match Restore(raws[0], wall, clock)
      case None => RestoreAll(s, raws[1..], wall, clock)
      case Some(e) => RestoreAll(s[raws[0].key := e], raws[1..], wall, clock)
  }

  function CountRestored(raws: seq<Raw>, wall: nat, clock: nat): nat {
    if raws == [] then 0
    else (if Restore(raws[0], wall, clock).Some? then 1 else 0) + CountRestored(raws[1..], wall, clock)
  }

  /** Written records are all read back. */
  lemma {:induction false} LoadWritten(f: seq<byte>, pos: nat, raws: seq<Raw>, s: Store, loaded: nat, wall: nat,
                                       clock: nat)
    requires At(f, pos, EncodeRaws(raws)) && forall i :: 0 <= i < |raws| ==> RawFits(raws[i])
    ensures LoadRaws(f, pos, |raws|, s, loaded, wall, clock) ==
            Load(Ok(loaded + CountRestored(raws, wall, clock)), RestoreAll(s, raws, wall, clock))
    decreases |raws|
  {
    hide EncodeRaw, At, ReadRaw, Restore, LoadRaws, RawFits;
    LoadStep(f, pos, |raws|, s, loaded, wall, clock);
    if raws != [] {
      var raw, rest := raws[0], raws[1..];
      AtCat(f, pos, EncodeRaw(raw), EncodeRaws(rest));
      var end := pos + |EncodeRaw(raw)|;
      ReadRawExact(f, pos, raw, end);
      var e := Restore(raw, wall, clock);
      match e {
        case None => LoadWritten(f, end, rest, s, loaded, wall, clock);
        case Some(x) => LoadWritten(f, end, rest, s[raw.key := x], loaded + 1, wall, clock);
      }
    }
  }

  lemma {:induction false} HeaderAt(f: seq<byte>, fingerprint: u64, count: nat, rest: seq<byte>)
    requires f == Header(fingerprint, count) + rest && count < 0x1_0000_0000
    ensures |f| >= 20 && f[..8] == MAGIC
    ensures ReadLe(f, 8, 8) == Some(fingerprint) && ReadLe(f, 16, 4) == Some(count) && At(f, 20, rest)
  {
    hide LeBytes, ReadLe, At;
    var a, b := LeBytes(fingerprint, 8), LeBytes(count, 4);
    assert f == MAGIC + a + b + rest;
    WholeAt(f);
    AtCat(f, 0, MAGIC + a + b, rest);
    AtCat(f, 0, MAGIC + a, b);
    AtCat(f, 0, MAGIC, a);
    ReadWordExact(f, 8, fingerprint);
    ReadWordExact(f, 16, count);
  }

  /** Files start with the text PDNSC009. */
  lemma {:induction false} FileStart(s: Store, keys: seq<u64>, fingerprint: u64, wall: nat, clock: u64 -> nat)
    requires wall + 0x1_0000_0000 < TWO64 && forall i :: 0 <= i < |keys| ==> keys[i] in s
    ensures var f := Saved(s, keys, fingerprint, wall, clock);
            |f| >= 8 && forall i :: 0 <= i < 8 ==> f[i] == "PDNSC009"[i] as int
  {
    hide LiveRaws, EncodeRaws, LeBytes;
  }

  lemma {:induction false} WholeAt(f: seq<byte>)
    ensures At(f, 0, f)
  {
  }

  ghost predicate Enumerates(keys: seq<u64>, s: Store) {
    && (forall i :: 0 <= i < |keys| ==> keys[i] in s)
    && (forall k :: k in s ==> k in keys)
    && (forall i, j :: 0 <= i < j < |keys| ==> keys[i] != keys[j])
  }

  /** Sizes that a DNS message and the entry made of it keep within. */
  ghost predicate Savable(e: Entry) {
    && 12 <= e.questionEnd <= |e.query|
    && |e.packet| <= MAX_BYTES && |e.query| <= MAX_BYTES && |e.qname| <= MAX_BYTES
    && |e.offsets| <= MAX_OFFSETS && PairsFit(e.offsets) && Utf8.IsText(e.qname)
    && e.variant == ExtractVariant(e.query, e.questionEnd)
  }

  lemma {:induction false} RawOfFits(key: u64, e: Entry, wall: nat, clock: nat)
    requires wall + 0x1_0000_0000 < TWO64 && Savable(e)
    ensures RawFits(RawOf(key, e, wall, clock))
  {
  }

  lemma {:induction false} LiveRawsFit(s: Store, keys: seq<u64>, wall: nat, clock: u64 -> nat)
    requires wall + 0x1_0000_0000 < TWO64 && forall i :: 0 <= i < |keys| ==> keys[i] in s && Savable(s[keys[i]])
    ensures forall i :: 0 <= i < |LiveRaws(s, keys, wall, clock)| ==> RawFits(LiveRaws(s, keys, wall, clock)[i])
    ensures |LiveRaws(s, keys, wall, clock)| <= |keys|
    decreases |keys|
  {
    hide RawFits, Savable, RawOf;
    if keys != [] {
      var last := keys[|keys| - 1];
      LiveRawsFit(s, keys[..|keys| - 1], wall, clock);
      RawOfFits(last, s[last], wall, clock(last));
    }
  }

  lemma {:induction false} RestoreSnoc(s: Store, raws: seq<Raw>, r: Raw, wall: nat, clock: nat)
    ensures RestoreAll(s, raws + [r], wall, clock) ==
            (var all := RestoreAll(s, raws, wall, clock);
             match Restore(r, wall, clock) case None => all case Some(e) => all[r.key := e])
    decreases |raws|
  {
    hide Restore;
    if raws == [] {
      assert [] + [r] == [r] && [r][1..] == [];
      var e := Restore(r, wall, clock);
      assert RestoreAll(s, [r], wall, clock) ==
             if e.None? then RestoreAll(s, [], wall, clock) else RestoreAll(s[r.key := e.value], [], wall, clock);
    } else {
      var more := raws + [r];
      assert more[0] == raws[0] && more[1..] == raws[1..] + [r];
      var e := Restore(raws[0], wall, clock);
      match e {
        case None => RestoreSnoc(s, raws[1..], r, wall, clock);
        case Some(x) => RestoreSnoc(s[raws[0].key := x], raws[1..], r, wall, clock);
      }
    }
  }

  /** What a live entry becomes. */
  ghost function Survivor(key: u64, e: Entry, wall: nat, clock: nat, wall2: nat, clock2: nat): Option<Entry>
    requires wall + 0x1_0000_0000 < TWO64
  {
    if Remaining(e, clock) == 0 then None else Restore(RawOf(key, e, wall, clock), wall2, clock2)
  }

  lemma {:induction false} RestoredContents(s: Store, keys: seq<u64>, wall: nat, clock: u64 -> nat, wall2: nat,
                                            clock2: nat, k: u64)
    requires wall + 0x1_0000_0000 < TWO64 && forall i :: 0 <= i < |keys| ==> keys[i] in s
    ensures var back := RestoreAll(map[], LiveRaws(s, keys, wall, clock), wall2, clock2);
            && (k in back <==> k in keys && Survivor(k, s[k], wall, clock(k), wall2, clock2).Some?)
            && (k in back ==> Some(back[k]) == Survivor(k, s[k], wall, clock(k), wall2, clock2))
    decreases |keys|
  {
    hide Restore, RawOf, Remaining;
    if keys != [] {
      var front, last := keys[..|keys| - 1], keys[|keys| - 1];
      assert keys == front + [last];
      RestoredContents(s, front, wall, clock, wall2, clock2, k);
      KeyOfRaw(last, s[last], wall, clock(last));
      var raws := LiveRaws(s, front, wall, clock);
      if Remaining(s[last], clock(last)) == 0 {
        assert raws + [] == raws;
      } else {
        RestoreSnoc(map[], raws, RawOf(last, s[last], wall, clock(last)), wall2, clock2);
      }
    }
  }

  lemma {:induction false} KeyOfRaw(key: u64, e: Entry, wall: nat, clock: nat)
    requires wall + 0x1_0000_0000 < TWO64
    ensures RawOf(key, e, wall, clock).key == key
  {
  }

  /** A loaded entry has as long to live as the wall clock says is left of its recorded
      deadline, and never longer than its lifetime. */
  lemma {:induction false} RestoreMeaning(r: Raw, wall: nat, clock: nat)
    ensures Restore(r, wall, clock).Some? <==> r.expire > wall && Utf8.IsText(r.qname)
    ensures Restore(r, wall, clock).Some? ==>
              var x := Restore(r, wall, clock).value;
              && Remaining(x, clock) == MinNat(r.expire - wall, r.ttl)
              && x.ttl <= r.ttl && x.inserted <= clock && (clock - x.inserted) % NANOS == 0
              && (x.ttl == r.ttl || x.inserted == clock)
              && x.packet == r.packet && x.query == r.query && x.qname == r.qname
              && x.offsets == r.offsets && x.ruleId == r.ruleId && x.questionEnd == 12 + |r.question|
              && x.variant == ExtractVariant(r.query, x.questionEnd)
  {
    hide Utf8.Valid, Utf8.IsText, ExtractVariant;
    Utf8.ValidExact(r.qname);
    if r.expire > wall {
      var remaining := r.expire - wall;
      var age := if r.ttl <= remaining then 0 else r.ttl - remaining;
      WholeSeconds(age);
    }
  }

  lemma {:induction false} WholeSeconds(n: nat)
    ensures (n * NANOS) % NANOS == 0 && (n * NANOS) / NANOS == n
  {
  }

  /** Exactly the entries that are live when saved and not past their deadline when
      loaded come back, as they were but for the clock they are measured against. */
  lemma {:induction false} SaveThenLoad(s: Store, keys: seq<u64>, fp: u64, wall: nat, clock: u64 -> nat, wall2: nat,
                                        clock2: nat)
    requires wall + 0x1_0000_0000 < TWO64 && Enumerates(keys, s) && |keys| < 0x1_0000_0000
    requires forall k :: k in s ==> Savable(s[k])
    ensures var r := Loaded(Saved(s, keys, fp, wall, clock), fp, map[], wall2, clock2);
            && r.outcome.Ok?
            && forall k: u64 :: ReturnsAs(s, r.store, k, wall, clock, wall2, clock2)
  {
    hide LiveRaws, EncodeRaws, Header, LoadRaws, ReadLe, At, RestoreAll, Restore, Savable, RawFits, RawOf, Survivor;
    var raws := LiveRaws(s, keys, wall, clock);
    LiveRawsFit(s, keys, wall, clock);
    var f := Saved(s, keys, fp, wall, clock);
    HeaderAt(f, fp, |raws|, EncodeRaws(raws));
    LoadWritten(f, 20, raws, map[], 0, wall2, clock2);
    var r := Loaded(f, fp, map[], wall2, clock2);
    forall k: u64 ensures ReturnsAs(s, r.store, k, wall, clock, wall2, clock2) {
      RestoredContents(s, keys, wall, clock, wall2, clock2, k);
      if k in s { SurvivorMeaning(k, s[k], wall, clock(k), wall2, clock2); }
    }
  }

  ghost predicate ReturnsAs(s: Store, back: Store, k: u64, wall: nat, clock: u64 -> nat, wall2: nat, clock2: nat) {
    && (k in back <==> k in s && Remaining(s[k], clock(k)) > 0 && wall + Remaining(s[k], clock(k)) > wall2)
    && (k in back ==>
          var e, x := s[k], back[k];
          && x == e.(inserted := x.inserted, ttl := x.ttl)
          && Remaining(x, clock2) == MinNat(wall + Remaining(e, clock(k)) - wall2, e.ttl)
          && x.inserted <= clock2 && (x.ttl == e.ttl || (x.ttl < e.ttl && x.inserted == clock2)))
  }

  lemma {:induction false} SurvivorMeaning(k: u64, e: Entry, wall: nat, clock: nat, wall2: nat, clock2: nat)
    requires wall + 0x1_0000_0000 < TWO64 && Savable(e)
    ensures var x := Survivor(k, e, wall, clock, wall2, clock2);
            && (x.Some? <==> Remaining(e, clock) > 0 && wall + Remaining(e, clock) > wall2)
            && (x.Some? ==>
                  && x.value == e.(inserted := x.value.inserted, ttl := x.value.ttl)
                  && Remaining(x.value, clock2) == MinNat(wall + Remaining(e, clock) - wall2, e.ttl)
                  && x.value.inserted <= clock2
                  && (x.value.ttl == e.ttl || (x.value.ttl < e.ttl && x.value.inserted == clock2)))
  {
    hide Restore, ExtractVariant, Utf8.IsText;
    RestoreMeaning(RawOf(k, e, wall, clock), wall2, clock2);
  }

  /** A file of another configuration changes nothing. */
  lemma {:induction false} OtherFingerprint(s: Store, keys: seq<u64>, fp: u64, fp2: u64, into: Store, wall: nat,
                                            clock: u64 -> nat, wall2: nat, clock2: nat)
    requires wall + 0x1_0000_0000 < TWO64 && forall i :: 0 <= i < |keys| ==> keys[i] in s
    requires |LiveRaws(s, keys, wall, clock)| < 0x1_0000_0000 && fp != fp2
    ensures Loaded(Saved(s, keys, fp, wall, clock), fp2, into, wall2, clock2) == Load(Err(OtherConfig), into)
  {
    hide LiveRaws, EncodeRaws, Header, LoadRaws, ReadLe, At;
    var raws := LiveRaws(s, keys, wall, clock);
    HeaderAt(Saved(s, keys, fp, wall, clock), fp, |raws|, EncodeRaws(raws));
  }

  // What an arbitrary file leaves in the store.

  /** The records of a file up to a broken one. */
  ghost function RawsRead(f: seq<byte>, pos: nat, n: nat): seq<Raw>
    decreases n
  {
    if n == 0 then []
    else
      match ReadRaw(f, pos)
      case None => []
      case Some((raw, end)) => [raw] + RawsRead(f, end, n - 1)
  }

  lemma {:induction false} LoadedRaws(f: seq<byte>, pos: nat, n: nat, s: Store, loaded: nat, wall: nat, clock: nat)
    ensures LoadRaws(f, pos, n, s, loaded, wall, clock).store == RestoreAll(s, RawsRead(f, pos, n), wall, clock)
    decreases n
  {
    hide ReadRaw, Restore, LoadRaws;
    LoadStep(f, pos, n, s, loaded, wall, clock);
    if n > 0 && ReadRaw(f, pos).Some? {
      var (raw, end) := ReadRaw(f, pos).value;
      var rest := RawsRead(f, end, n - 1);
      assert ([raw] + rest)[1..] == rest;
      var e := Restore(raw, wall, clock);
      match e {
        case None => LoadedRaws(f, end, n - 1, s, loaded, wall, clock);
        case Some(x) => LoadedRaws(f, end, n - 1, s[raw.key := x], loaded + 1, wall, clock);
      }
    }
  }

  /** The record of `raws` whose entry ends up under `key`. */
  ghost function Winner(raws: seq<Raw>, key: u64, wall: nat, clock: nat): (r: Option<nat>)
    ensures r.Some? ==> r.value < |raws| && raws[r.value].key == key && Restore(raws[r.value], wall, clock).Some?
  {
    if raws == [] then None
    else
      var n := |raws| - 1;
      if raws[n].key == key && Restore(raws[n], wall, clock).Some? then Some(n)
      else Winner(raws[..n], key, wall, clock)
  }

  lemma {:induction false} WinnerStored(s: Store, raws: seq<Raw>, key: u64, wall: nat, clock: nat)
    ensures var all, w := RestoreAll(s, raws, wall, clock), Winner(raws, key, wall, clock);
            && (key in all <==> w.Some? || key in s)
            && (w.Some? ==> Some(all[key]) == Restore(raws[w.value], wall, clock))
            && (w.None? && key in s ==> all[key] == s[key])
    decreases |raws|
  {
    hide Restore, RestoreAll;
    if raws == [] { NothingRestored(s, wall, clock); } else {
      var n := |raws| - 1;
      assert raws == raws[..n] + [raws[n]];
      WinnerStored(s, raws[..n], key, wall, clock);
      RestoreSnoc(s, raws[..n], raws[n], wall, clock);
    }
  }

  lemma {:induction false} NothingRestored(s: Store, wall: nat, clock: nat)
    ensures RestoreAll(s, [], wall, clock) == s
  {
  }

  /** The query is long enough for the question, or too short to be compared at all. */
  predicate QuestionFits(r: Raw) {
    12 + |r.question| <= |r.query| || |r.query| < 12
  }

  lemma {:induction false} RestoredOkIff(r: Raw, wall: nat, clock: nat)
    requires Restore(r, wall, clock).Some?
    ensures EntryOk(Restore(r, wall, clock).value) <==> QuestionFits(r)
    ensures 12 <= Restore(r, wall, clock).value.questionEnd
  {
    hide Utf8.Valid, ExtractVariant;
  }

  lemma {:induction false} EndsBehindHeader(e: Entry)
    requires EntryOk(e)
    ensures 12 <= e.questionEnd
  {
  }

  lemma {:induction false} RestoredStoreIff(s: Store, raws: seq<Raw>, wall: nat, clock: nat)
    requires StoreOk(s)
    ensures LookupsSafe(RestoreAll(s, raws, wall, clock)) <==>
            forall i :: 0 <= i < |raws| && Winner(raws, raws[i].key, wall, clock) == Some(i) ==> QuestionFits(raws[i])
  {
    hide Restore, RestoreAll, Winner, EntryOk, QuestionFits, LookupsSafe;
    var all := RestoreAll(s, raws, wall, clock);
    forall k | k in all ensures 12 <= all[k].questionEnd {
      WinnerStored(s, raws, k, wall, clock);
      var w := Winner(raws, k, wall, clock);
      if w.Some? { RestoredOkIff(raws[w.value], wall, clock); } else { EndsBehindHeader(s[k]); }
    }
    SafeIff(all);
    forall i | 0 <= i < |raws| && Winner(raws, raws[i].key, wall, clock) == Some(i)
      ensures raws[i].key in all && (EntryOk(all[raws[i].key]) <==> QuestionFits(raws[i]))
    {
      WinnerStored(s, raws, raws[i].key, wall, clock);
      RestoredOkIff(raws[i], wall, clock);
    }
    if forall i :: 0 <= i < |raws| && Winner(raws, raws[i].key, wall, clock) == Some(i) ==> QuestionFits(raws[i]) {
      forall k | k in all ensures EntryOk(all[k]) {
        WinnerStored(s, raws, k, wall, clock);
        var w := Winner(raws, k, wall, clock);
        if w.Some? { assert QuestionFits(raws[w.value]); }
      }
    }
  }

  /** The records a load of the file gets to see. */
  ghost function RecordsOf(f: seq<byte>, fingerprint: u64): seq<Raw> {
    if |f| < 8 || f[..8] != MAGIC || ReadLe(f, 8, 8) != Some(fingerprint) || ReadLe(f, 16, 4).None? then []
    else RawsRead(f, 20, ReadLe(f, 16, 4).value)
  }

  /** After loading any file no lookup slices past a stored query, if and only if each record
      that ends up in the store has a query that holds its question or is no message. */
  lemma {:induction false} LoadedStoreOkIff(f: seq<byte>, fingerprint: u64, s: Store, wall: nat, clock: nat)
    requires StoreOk(s)
    ensures var raws := RecordsOf(f, fingerprint);
            LookupsSafe(Loaded(f, fingerprint, s, wall, clock).store) <==>
            forall i :: 0 <= i < |raws| && Winner(raws, raws[i].key, wall, clock) == Some(i) ==> QuestionFits(raws[i])
  {
    hide LoadRaws, RawsRead, RestoreAll, StoreOk, LookupsSafe, Winner, QuestionFits, ReadLe;
    var raws := RecordsOf(f, fingerprint);
    NothingRestored(s, wall, clock);
    if |f| >= 8 && ReadLe(f, 16, 4).Some? { LoadedRaws(f, 20, ReadLe(f, 16, 4).value, s, 0, wall, clock); }
    assert Loaded(f, fingerprint, s, wall, clock).store == RestoreAll(s, raws, wall, clock);
    RestoredStoreIff(s, raws, wall, clock);
  }

  /** A file with one record whose query ends before its question does. */
  lemma {:induction false} UnusableFile()
    ensures var raw := Raw(0, 100, 50, [0, 0, 1, 0, 1], [], seq(12, _ => 0), [], [], 0);
            var r := Loaded(Header(0, 1) + EncodeRaw(raw), 0, map[], 60, 60 * NANOS);
            r.outcome.Ok? && 0 in r.store && !LookupsSafe(r.store)
  {
    hide EncodeRaw, LoadRaws, ReadLe, At, LeBytes, ExtractVariant;
    var raw := Raw(0, 100, 50, [0, 0, 1, 0, 1], [], seq(12, _ => 0), [], [], 0);
    var raws := [raw];
    assert raws[1..] == [];
    OneEncoded(raw);
    var f := Header(0, 1) + EncodeRaw(raw);
    HeaderAt(f, 0, 1, EncodeRaws(raws));
    LoadWritten(f, 20, raws, map[], 0, 60, 60 * NANOS);
    RestoredOkIff(raw, 60, 60 * NANOS);
    NothingRestored(map[0 := Restore(raw, 60, 60 * NANOS).value], 60, 60 * NANOS);
    SafeIff(map[0 := Restore(raw, 60, 60 * NANOS).value]);
  }

  lemma {:induction false} OneEncoded(r: Raw)
    ensures EncodeRaws([r]) == EncodeRaw(r)
  {
    hide EncodeRaw;
    assert [r][1..] == [] && EncodeRaws([]) == [];
    assert EncodeRaws([r]) == EncodeRaw(r) + EncodeRaws([r][1..]);
  }

  // Deadlines over restarts. The wall clock is read in nanoseconds here and recorded in
  // whole seconds; it may be set, and stand still or run on, independently of the
  // monotonic clock.

  datatype Session = Session(loadWall: nat, loadClock: nat, saveWall: nat, saveClock: nat)

  ghost predicate ClockOk(x: Session) {
    x.loadClock <= x.saveClock && x.saveWall / NANOS + 0x1_0000_0000 < TWO64
  }

  /** One session's load and save of a record; None when it is not written again. */
  ghost function Across(r: Raw, x: Session): Option<Raw>
    requires ClockOk(x)
  {
    match Restore(r, x.loadWall / NANOS, x.loadClock)
    case None => None
    case Some(e) =>
      if Remaining(e, x.saveClock) == 0 then None
      else Some(RawOf(r.key, e, x.saveWall / NANOS, x.saveClock))
  }

  /** Whole seconds by which the recorded wall clock outran the monotonic one. */
  ghost function Shift(x: Session): int
    requires ClockOk(x)
  {
    x.saveWall / NANOS - x.loadWall / NANOS - (x.saveClock - x.loadClock) / NANOS
  }

  lemma {:induction false} SplitSeconds(a: nat, d: nat)
    ensures (a + d) / NANOS == a / NANOS + d / NANOS + (if a % NANOS + d % NANOS >= NANOS then 1 else 0)
  {
  }

  /** The deadline written at the end of a session is the one it started with, cut to the
      lifetime, moved by what the wall clock outran the monotonic one. */
  lemma {:induction false} SessionDeadline(r: Raw, x: Session)
    requires ClockOk(x) && Across(r, x).Some?
    ensures Across(r, x).value.expire == MinNat(r.expire, x.loadWall / NANOS + r.ttl) + Shift(x)
    ensures Across(r, x).value.ttl <= r.ttl
  {
    hide Restore, Utf8.Valid, ExtractVariant;
    RestoreMeaning(r, x.loadWall / NANOS, x.loadClock);
    var e := Restore(r, x.loadWall / NANOS, x.loadClock).value;
    SplitSeconds(x.loadClock - e.inserted, x.saveClock - x.loadClock);
  }

  /** Both clocks advance alike. */
  ghost predicate InStep(x: Session) {
    x.loadWall <= x.saveWall && x.saveClock == x.loadClock + (x.saveWall - x.loadWall)
  }

  /** Seconds that rounding adds: the fractions of the clock at load time and of the
      session's length together fill a second. */
  ghost function Carry(x: Session): nat
    requires InStep(x)
  {
    if x.loadWall % NANOS + (x.saveWall - x.loadWall) % NANOS >= NANOS then 1 else 0
  }

  /** Clocks that advance alike still drift apart by the rounding. */
  lemma {:induction false} ShiftInStep(x: Session)
    requires ClockOk(x) && InStep(x)
    ensures Shift(x) == Carry(x)
  {
    SplitSeconds(x.loadWall, x.saveWall - x.loadWall);
  }

  /** A session writes back a deadline no later than it found exactly when the wall clock
      did not outrun the monotonic one, or by no more than the lifetime had cut off. */
  lemma {:induction false} NeverExtendedIff(r: Raw, x: Session)
    requires ClockOk(x) && Across(r, x).Some?
    ensures Across(r, x).value.expire <= r.expire <==>
            Shift(x) <= 0 || x.loadWall / NANOS + r.ttl + Shift(x) <= r.expire
  {
    hide Across;
    SessionDeadline(r, x);
  }

  ghost function AcrossAll(r: Raw, xs: seq<Session>): Option<Raw>
    requires forall i :: 0 <= i < |xs| ==> ClockOk(xs[i])
  {
    if xs == [] then Some(r)
    else
      match AcrossAll(r, xs[..|xs| - 1])
      case None => None
      case Some(last) => Across(last, xs[|xs| - 1])
  }

  /** The seconds that the sessions in which the wall clock ran ahead add up to. */
  ghost function Drift(xs: seq<Session>): nat
    requires forall i :: 0 <= i < |xs| ==> ClockOk(xs[i])
  {
    if xs == [] then 0
    else
      var last := Shift(xs[|xs| - 1]);
      Drift(xs[..|xs| - 1]) + (if last > 0 then last else 0)
  }

  /** No chain of restarts extends a deadline by more than the clocks drifted apart. */
  lemma {:induction false} RestartsDeadline(r: Raw, xs: seq<Session>)
    requires forall i :: 0 <= i < |xs| ==> ClockOk(xs[i])
    ensures AcrossAll(r, xs).Some? ==> AcrossAll(r, xs).value.expire <= r.expire + Drift(xs)
    ensures AcrossAll(r, xs).Some? ==> AcrossAll(r, xs).value.ttl <= r.ttl
    decreases |xs|
  {
    hide Across, Shift;
    if xs != [] {
      RestartsDeadline(r, xs[..|xs| - 1]);
      var last := AcrossAll(r, xs[..|xs| - 1]);
      if last.Some? && Across(last.value, xs[|xs| - 1]).Some? { SessionDeadline(last.value, xs[|xs| - 1]); }
    }
  }

  lemma {:induction false} NoDrift(xs: seq<Session>)
    requires forall i :: 0 <= i < |xs| ==> ClockOk(xs[i])
    ensures Drift(xs) == 0 <==> forall i :: 0 <= i < |xs| ==> Shift(xs[i]) <= 0
    decreases |xs|
  {
    hide Shift;
    if xs != [] {
      var front := xs[..|xs| - 1];
      NoDrift(front);
      assert forall i :: 0 <= i < |front| ==> front[i] == xs[i];
    }
  }

  /** While the wall clock never outruns the monotonic one, no chain of restarts extends a
      deadline. */
  lemma {:induction false} RestartsNeverExtend(r: Raw, xs: seq<Session>)
    requires forall i :: 0 <= i < |xs| ==> ClockOk(xs[i]) && Shift(xs[i]) <= 0
    ensures AcrossAll(r, xs).Some? ==> AcrossAll(r, xs).value.expire <= r.expire
  {
    hide AcrossAll, Drift, Shift;
    RestartsDeadline(r, xs);
    NoDrift(xs);
  }

  /** While the clocks advance alike, that is at most one second per restart, and none when
      no fractions carry. */
  lemma {:induction false} DriftInStep(xs: seq<Session>)
    requires forall i :: 0 <= i < |xs| ==> ClockOk(xs[i]) && InStep(xs[i])
    ensures Drift(xs) <= |xs|
    ensures Drift(xs) == 0 <==> forall i :: 0 <= i < |xs| ==> Carry(xs[i]) == 0
    decreases |xs|
  {
    hide Shift, Carry;
    if xs != [] {
      var front, last := xs[..|xs| - 1], xs[|xs| - 1];
      DriftInStep(front);
      ShiftInStep(last);
      CarryBound(last);
      assert forall i :: 0 <= i < |front| ==> front[i] == xs[i];
    }
  }

  lemma {:induction false} CarryBound(x: Session)
    requires InStep(x)
    ensures Carry(x) <= 1
  {
  }

  /** Rounding does add a second: loaded at 0.9 s, saved 0.1 s later. */
  lemma {:induction false} ExtendedWitness()
    ensures var r := Raw(0, 10, 10, [], [], [], [], [], 0);
            var x := Session(900_000_000, 900_000_000, 1_000_000_000, 1_000_000_000);
            && InStep(x) && ClockOk(x) && Across(r, x).Some? && Across(r, x).value.expire == 11
  {
    var r := Raw(0, 10, 10, [], [], [], [], [], 0);
    var x := Session(900_000_000, 900_000_000, 1_000_000_000, 1_000_000_000);
    hide ExtractVariant;
    Utf8.ValidExact([]);
    assert Utf8.Valid([]);
    RestoreMeaning(r, 0, 900_000_000);
    SessionDeadline(r, x);
  }
}
