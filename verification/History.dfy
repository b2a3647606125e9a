/** Query-log segments with their sidecar index: writing, reading one page at a time, and
    rewriting as compressed blocks (`src/querylog/worker.rs`). The event encoding and the
    compression are parameters. */
module History {
  import opened Prelude

  const STRIDE: nat := 512
  const PAGE_MAX: nat := 200

  datatype Event = Event(
    micros: nat, qname: string, rcode: byte, source: string, upstream: Option<string>, client: string, qtype: u16)

  datatype Query = Query(
    limit: nat, cursor: Option<nat>, from: Option<nat>, to: Option<nat>,
    qname: Option<string>, rcode: Option<byte>, source: Option<string>,
    upstream: Option<string>, client: Option<string>, qtype: Option<u16>)

  predicate OccursAt(s: string, t: string, i: nat) {
    i + |t| <= |s| && s[i..i + |t|] == t
  }

  predicate Contains(s: string, t: string) {
    exists i :: 0 <= i <= |s| && OccursAt(s, t, i)
  }

  predicate EventMatches(e: Event, q: Query) {
    && (q.from.Some? ==> e.micros >= q.from.value)
    && (q.to.Some? ==> e.micros <= q.to.value)
    && (q.qname.Some? ==> q.qname.value == "" || Contains(e.qname, q.qname.value))
    && (q.rcode.Some? ==> e.rcode == q.rcode.value)
    && (q.source.Some? ==> q.source.value == "" || e.source == q.source.value)
    && (q.upstream.Some? ==>
          q.upstream.value == "" || (e.upstream.Some? && Contains(e.upstream.value, q.upstream.value)))
    && (q.client.Some? ==> q.client.value == "" || Contains(e.client, q.client.value))
    && (q.qtype.Some? ==> e.qtype == q.qtype.value)
  }

  /** `t` is a part of `s`. */
  ghost predicate IsPart(t: string, s: string) {
    exists before: string, after: string :: before + t + after == s
  }

  lemma {:induction false} ContainsExact(s: string, t: string)
    ensures Contains(s, t) <==> IsPart(t, s)
  {
    if Contains(s, t) {
      var i :| 0 <= i <= |s| && OccursAt(s, t, i);
      assert s[..i] + t + s[i + |t|..] == s;
    }
    if before: string, after: string :| before + t + after == s { assert OccursAt(s, t, |before|); }
  }

  /** A filter that is set and not empty asks for equality or, for names, for a part; one
      on the upstream also asks that there was one. */
  lemma {:induction false} FilterExact(e: Event, q: Query)
    ensures EventMatches(e, q) <==>
            && (q.from.None? || q.from.value <= e.micros)
            && (q.to.None? || e.micros <= q.to.value)
            && (q.qname.None? || IsPart(q.qname.value, e.qname))
            && (q.rcode.None? || q.rcode.value == e.rcode)
            && (q.source.None? || q.source.value == "" || q.source.value == e.source)
            && (q.upstream.None? || q.upstream.value == ""
                || (e.upstream.Some? && IsPart(q.upstream.value, e.upstream.value)))
            && (q.client.None? || IsPart(q.client.value, e.client))
            && (q.qtype.None? || q.qtype.value == e.qtype)
  {
    hide Contains, IsPart;
    if q.qname.Some? { ContainsExact(e.qname, q.qname.value); }
    if q.upstream.Some? && e.upstream.Some? { ContainsExact(e.upstream.value, q.upstream.value); }
    if q.client.Some? { ContainsExact(e.client, q.client.value); }
    EmptyPart(e.qname);
    EmptyPart(e.client);
  }

  lemma {:induction false} EmptyPart(s: string)
    ensures IsPart("", s)
  {
    assert "" + "" + s == s;
  }

  // Files.

  datatype Codec = Codec(
    encode: Event -> seq<byte>, decode: seq<byte> -> seq<Event>,
    zip: seq<byte> -> seq<byte>, unzip: seq<byte> -> seq<byte>)

  function EncodeAll(c: Codec, es: seq<Event>): seq<byte> {
    if es == [] then [] else EncodeAll(c, es[..|es| - 1]) + c.encode(es[|es| - 1])
  }

  /** Events read back as they were written, and compressed bytes as they were. */
  ghost predicate Works(c: Codec) {
    && (forall e: Event :: c.encode(e) != [])
    && (forall es: seq<Event> :: c.decode(EncodeAll(c, es)) == es)
    && (forall b: seq<byte> :: c.unzip(c.zip(b)) == b && c.zip(b) != [])
  }

  lemma {:induction false} EncodeCat(c: Codec, a: seq<Event>, b: seq<Event>)
    ensures EncodeAll(c, a + b) == EncodeAll(c, a) + EncodeAll(c, b)
    decreases |b|
  {
    if b == [] { assert a + b == a; } else {
      var front, last := b[..|b| - 1], b[|b| - 1];
      assert (a + b)[..|a + b| - 1] == a + front && (a + b)[|a + b| - 1] == last;
      EncodeCat(c, a, front);
    }
  }

  lemma {:induction false} EncodeSome(c: Codec, es: seq<Event>)
    requires Works(c) && es != []
    ensures EncodeAll(c, es) != []
  {
    assert c.encode(es[|es| - 1]) != [];
  }

  // The index.

  datatype Block = Block(offset: nat, len: nat, firstEntry: nat, entries: nat, start: nat, end: nat)

  datatype Index = Index(compressed: bool, total: nat, start: Option<nat>, end: Option<nat>, blocks: seq<Block>)

  const EMPTY: Index := Index(false, 0, None, None, [])

  /** Block `b` describes the events from its first one on, encoded at its offset. */
  ghost predicate BlockOk(c: Codec, b: Block, es: seq<Event>) {
    && 0 < b.entries && b.firstEntry + b.entries <= |es|
    && b.offset == |EncodeAll(c, es[..b.firstEntry])|
    && b.len == |EncodeAll(c, es[b.firstEntry..b.firstEntry + b.entries])|
    && b.start == es[b.firstEntry].micros
    && b.end == es[b.firstEntry + b.entries - 1].micros
  }

  /** Ordinal of the first event of block `i`, or of the event after the last. */
  function FirstEntry(ix: Index, i: nat): nat {
    if i < |ix.blocks| then ix.blocks[i].firstEntry else ix.total
  }

  ghost predicate Follows(ix: Index, i: nat)
    requires i < |ix.blocks|
  {
    FirstEntry(ix, i + 1) == ix.blocks[i].firstEntry + ix.blocks[i].entries
  }

  /** The index tiles the events. */
  ghost predicate Tiles(ix: Index, es: seq<Event>) {
    && ix.total == |es| && FirstEntry(ix, 0) == 0
    && (forall i :: 0 <= i < |ix.blocks| ==> Follows(ix, i))
    && ix.start == (if es == [] then None else Some(es[0].micros))
    && ix.end == (if es == [] then None else Some(es[|es| - 1].micros))
  }

  ghost predicate Covers(c: Codec, ix: Index, es: seq<Event>) {
    && Tiles(ix, es)
    && (forall i :: 0 <= i < |ix.blocks| ==> BlockOk(c, ix.blocks[i], es))
  }

  function MergeLast(ix: Index, offset: nat, count: nat): bool {
    ix.blocks != [] &&
    var last := ix.blocks[|ix.blocks| - 1];
    last.firstEntry + last.entries == ix.total && last.entries + count <= STRIDE && last.offset + last.len == offset
  }

  function Appended(ix: Index, offset: nat, len: nat, batch: seq<Event>): Index {
    if batch == [] then ix
    else
      var end := batch[|batch| - 1].micros;
      var start := if ix.start.Some? then ix.start else Some(batch[0].micros);
      var n := |ix.blocks|;
      var blocks :=
        if MergeLast(ix, offset, |batch|) then
          var last := ix.blocks[n - 1];
          ix.blocks[n - 1 := last.(len := last.len + len, entries := last.entries + |batch|, end := end)]
        else ix.blocks + [Block(offset, len, ix.total, |batch|, batch[0].micros, end)];
      ix.(total := ix.total + |batch|, start := start, end := Some(end), blocks := blocks)
  }

  /** A segment being written. */
  class Segment {
    const codec: Codec
    var bytes: seq<byte>
    var index: Index
    ghost var events: seq<Event>

    ghost predicate Valid()
      reads this
    {
      bytes == EncodeAll(codec, events) && Covers(codec, index, events) && !index.compressed
    }

    constructor (codec: Codec)
      ensures Valid() && events == [] && this.codec == codec
    {
      this.codec := codec;
      bytes, index, events := [], EMPTY, [];
    }

    method AppendBatch(batch: seq<Event>)
      requires Valid() && Works(codec)
      modifies this
      ensures Valid() && events == old(events) + batch
      ensures bytes == old(bytes) + EncodeAll(codec, batch)
      ensures index == Appended(old(index), |old(bytes)|, |EncodeAll(codec, batch)|, batch)
    {
      if batch == [] {
        assert events + batch == events && EncodeAll(codec, batch) == [] && bytes + [] == bytes;
        return;
      }
      var buf: seq<byte> := [];
      for i := 0 to |batch|
        invariant buf == EncodeAll(codec, batch[..i])
      {
        assert batch[..i + 1][..i] == batch[..i];
        buf := buf + codec.encode(batch[i]);
      }
      assert batch[..|batch|] == batch;
      AppendCovers(codec, index, events, batch);
      EncodeCat(codec, events, batch);
      var offset := |bytes|;
      bytes := bytes + buf;
      index := IndexAppend(index, offset, |buf|, batch);
      events := events + batch;
    }
  }

  method IndexAppend(ix: Index, offset: nat, len: nat, batch: seq<Event>) returns (r: Index)
    ensures r == Appended(ix, offset, len, batch)
  {
    r := ix;
    if batch == [] { return; }
    var end := batch[|batch| - 1].micros;
    if r.start.None? { r := r.(start := Some(batch[0].micros)); }
    r := r.(end := Some(end));
    if r.blocks != [] {
      var n := |r.blocks| - 1;
      var last := r.blocks[n];
      if && last.firstEntry + last.entries == r.total
         && last.entries + |batch| <= STRIDE
         && last.offset + last.len == offset {
        r := r.(blocks := r.blocks[n := last.(len := last.len + len, entries := last.entries + |batch|, end := end)]);
        r := r.(total := r.total + |batch|);
        return;
      }
    }
    r := r.(blocks := r.blocks + [Block(offset, len, r.total, |batch|, batch[0].micros, end)]);
    r := r.(total := r.total + |batch|);
  }

  lemma {:induction false} BlockKept(c: Codec, b: Block, es: seq<Event>, more: seq<Event>)
    requires BlockOk(c, b, es)
    ensures BlockOk(c, b, es + more)
  {
    hide EncodeAll;
    var all := es + more;
    assert all[..b.firstEntry] == es[..b.firstEntry];
    assert all[b.firstEntry..b.firstEntry + b.entries] == es[b.firstEntry..b.firstEntry + b.entries];
  }

  lemma {:induction false} BlockGrows(c: Codec, b: Block, es: seq<Event>, more: seq<Event>)
    requires BlockOk(c, b, es) && b.firstEntry + b.entries == |es| && more != []
    ensures var len, end := b.len + |EncodeAll(c, more)|, more[|more| - 1].micros;
            BlockOk(c, b.(len := len, entries := b.entries + |more|, end := end), es + more)
  {
    hide EncodeAll;
    var all, f := es + more, b.firstEntry;
    assert all[..f] == es[..f];
    assert all[f..f + b.entries + |more|] == es[f..f + b.entries] + more;
    EncodeCat(c, es[f..f + b.entries], more);
    assert all[f] == es[f];
  }

  lemma {:induction false} BlockFresh(c: Codec, es: seq<Event>, more: seq<Event>)
    requires more != []
    ensures var start, end := more[0].micros, more[|more| - 1].micros;
            BlockOk(c, Block(|EncodeAll(c, es)|, |EncodeAll(c, more)|, |es|, |more|, start, end), es + more)
  {
    hide EncodeAll;
    var all := es + more;
    assert all[..|es|] == es && all[|es|..|es| + |more|] == more;
  }

  lemma {:induction false} LastEnds(ix: Index, es: seq<Event>)
    requires Tiles(ix, es) && ix.blocks != []
    ensures var last := ix.blocks[|ix.blocks| - 1]; last.firstEntry + last.entries == |es|
  {
    assert Follows(ix, |ix.blocks| - 1);
  }

  lemma {:induction false} AppendTiles(c: Codec, ix: Index, es: seq<Event>, batch: seq<Event>, offset: nat, len: nat)
    requires Tiles(ix, es) && batch != [] && (ix.blocks == [] ==> es == [])
    ensures Tiles(Appended(ix, offset, len, batch), es + batch)
  {
    var r := Appended(ix, offset, len, batch);
    var all, n := es + batch, |ix.blocks|;
    if n > 0 { LastEnds(ix, es); }
    forall i | 0 <= i < |r.blocks| ensures Follows(r, i) {
      if i < n { assert Follows(ix, i); }
    }
    assert all[0] == if es == [] then batch[0] else es[0];
    assert all[|all| - 1] == batch[|batch| - 1];
  }

  lemma {:induction false} NoBlocksNoEvents(c: Codec, ix: Index, es: seq<Event>)
    requires Covers(c, ix, es)
    ensures ix.blocks == [] ==> es == []
  {
  }

  /** Appending keeps the index exact, merged or not. */
  lemma {:induction false} AppendCovers(c: Codec, ix: Index, es: seq<Event>, batch: seq<Event>)
    requires Covers(c, ix, es) && batch != []
    ensures Covers(c, Appended(ix, |EncodeAll(c, es)|, |EncodeAll(c, batch)|, batch), es + batch)
  {
    hide EncodeAll, BlockOk, Tiles;
    var offset, len := |EncodeAll(c, es)|, |EncodeAll(c, batch)|;
    NoBlocksNoEvents(c, ix, es);
    AppendTiles(c, ix, es, batch, offset, len);
    var r := Appended(ix, offset, len, batch);
    var n := |ix.blocks|;
    forall i | 0 <= i < |r.blocks| ensures BlockOk(c, r.blocks[i], es + batch) {
      if i < n {
        if MergeLast(ix, offset, |batch|) && i == n - 1 {
          LastEnds(ix, es);
          BlockGrows(c, ix.blocks[i], es, batch);
        } else {
          BlockKept(c, ix.blocks[i], es, batch);
        }
      } else {
        TotalIs(ix, es);
        BlockFresh(c, es, batch);
      }
    }
  }

  /** A batch starts a new block exactly when there is none yet or the last one would grow
      beyond 512 events. */
  lemma {:induction false} AppendMerges(c: Codec, ix: Index, es: seq<Event>, batch: seq<Event>)
    requires Covers(c, ix, es) && batch != []
    ensures var blocks := Appended(ix, |EncodeAll(c, es)|, |EncodeAll(c, batch)|, batch).blocks;
            if ix.blocks == [] || ix.blocks[|ix.blocks| - 1].entries + |batch| > 512 then
              |blocks| == |ix.blocks| + 1 && blocks[..|ix.blocks|] == ix.blocks
            else |blocks| == |ix.blocks| && blocks[..|blocks| - 1] == ix.blocks[..|blocks| - 1]
  {
    hide EncodeAll;
    if ix.blocks != [] {
      var last := ix.blocks[|ix.blocks| - 1];
      LastEnds(ix, es);
      assert BlockOk(c, last, es);
      EncodeCat(c, es[..last.firstEntry], es[last.firstEntry..]);
      assert es == es[..last.firstEntry] + es[last.firstEntry..] && es[last.firstEntry..|es|] == es[last.firstEntry..];
    }
  }

  lemma {:induction false} TotalIs(ix: Index, es: seq<Event>)
    requires Tiles(ix, es)
    ensures ix.total == |es|
  {
  }

  // The checks on a stored index.

  /** Blocks from `i` on follow each other from byte `offset` and ordinal `entry`. */
  predicate Contiguous(ix: Index, i: nat, offset: nat, entry: nat, size: nat)
    requires i <= |ix.blocks|
    decreases |ix.blocks| - i
  {
    if i == |ix.blocks| then offset == size && entry == ix.total
    else
      var b := ix.blocks[i];
      && b.offset == offset && b.firstEntry == entry && b.len > 0 && b.entries > 0
      && Contiguous(ix, i + 1, offset + b.len, entry + b.entries, size)
  }

  ghost predicate Behind(a: Block, b: Block) {
    b.offset == a.offset + a.len && b.firstEntry == a.firstEntry + a.entries
  }

  /** Blocks from `i` on that are not empty, one behind the other from `offset` and `entry`
      to the end of the file and of the events. */
  ghost predicate FillsFrom(ix: Index, i: nat, offset: nat, entry: nat, size: nat)
    requires i <= |ix.blocks|
  {
    && (forall k :: i <= k < |ix.blocks| ==> ix.blocks[k].len > 0 && ix.blocks[k].entries > 0)
    && (forall k :: i < k < |ix.blocks| ==> Behind(ix.blocks[k - 1], ix.blocks[k]))
    && (if i == |ix.blocks| then offset == size && entry == ix.total
        else
          var first, last := ix.blocks[i], ix.blocks[|ix.blocks| - 1];
          && first.offset == offset && first.firstEntry == entry
          && last.offset + last.len == size && last.firstEntry + last.entries == ix.total)
  }

  lemma {:induction false} ContiguousExact(ix: Index, i: nat, offset: nat, entry: nat, size: nat)
    requires i <= |ix.blocks|
    ensures Contiguous(ix, i, offset, entry, size) <==> FillsFrom(ix, i, offset, entry, size)
    decreases |ix.blocks| - i
  {
    if i < |ix.blocks| {
      var b := ix.blocks[i];
      ContiguousExact(ix, i + 1, offset + b.len, entry + b.entries, size);
      if i + 1 < |ix.blocks| {
        if FillsFrom(ix, i, offset, entry, size) { assert Behind(ix.blocks[i], ix.blocks[i + 1]); }
      }
    }
  }

  method LoadIndex(ix: Index, size: nat) returns (ok: bool)
    ensures ok == Contiguous(ix, 0, 0, 0, size) && ok == FillsFrom(ix, 0, 0, 0, size)
  {
    hide FillsFrom;
    ContiguousExact(ix, 0, 0, 0, size);
    var offset: nat, entry: nat := 0, 0;
    for i := 0 to |ix.blocks|
      invariant Contiguous(ix, i, offset, entry, size) == Contiguous(ix, 0, 0, 0, size)
    {
      var b := ix.blocks[i];
      if b.offset != offset || b.firstEntry != entry { return false; }
      if b.len == 0 || b.entries == 0 { return false; }
      offset, entry := offset + b.len, entry + b.entries;
    }
    return offset == size && entry == ix.total;
  }

  /** An exact index passes the checks against its file. */
  lemma {:induction false} CoversContiguous(c: Codec, ix: Index, es: seq<Event>, i: nat)
    requires Works(c) && Covers(c, ix, es) && i <= |ix.blocks|
    ensures FirstEntry(ix, i) <= |es|
    ensures Contiguous(ix, i, |EncodeAll(c, es[..FirstEntry(ix, i)])|, FirstEntry(ix, i), |EncodeAll(c, es)|)
    decreases |ix.blocks| - i
  {
    hide EncodeAll;
    if i == |ix.blocks| {
      assert es[..|es|] == es;
    } else {
      var b := ix.blocks[i];
      assert BlockOk(c, b, es) && Follows(ix, i);
      hide Covers, Works, Tiles;
      var next := FirstEntry(ix, i + 1);
      var part := es[b.firstEntry..next];
      assert es[..next] == es[..b.firstEntry] + part;
      EncodeCat(c, es[..b.firstEntry], part);
      EncodeSome(c, part);
      CoversContiguous(c, ix, es, i + 1);
    }
  }

  // Pages.

  datatype Page = Page(events: seq<Event>, next: Option<nat>)

  function Before(e: Event, p: Page): Page {
    p.(events := [e] + p.events)
  }

  /** One page by going through all events from `pos` on: the first `room` matching ones,
      and where the next one is. */
  function ScanFrom(es: seq<Event>, q: Query, pos: nat, room: nat): Page
    decreases |es| - pos
  {
    if pos >= |es| then Page([], None)
    else if !EventMatches(es[pos], q) then ScanFrom(es, q, pos + 1, room)
    else if room == 0 then Page([], Some(pos))
    else Before(es[pos], ScanFrom(es, q, pos + 1, room - 1))
  }

  function Limit(q: Query): nat {
    if q.limit < 1 then 1 else if q.limit > PAGE_MAX then PAGE_MAX else q.limit
  }

  /** A page has room for what was asked for, but for at least 1 and at most 200 events. */
  lemma {:induction false} LimitExact(q: Query)
    ensures 1 <= Limit(q) <= 200
    ensures Limit(q) == q.limit || (q.limit == 0 && Limit(q) == 1) || (q.limit > 200 && Limit(q) == 200)
  {
  }

  /** The same over one decoded block whose first event has ordinal `first`. */
  function ScanBlock(es: seq<Event>, first: nat, q: Query, cursor: nat, pos: nat, room: nat): Page
    decreases |es| - pos
  {
    if pos >= |es| then Page([], None)
    else if first + pos < cursor || !EventMatches(es[pos], q) then ScanBlock(es, first, q, cursor, pos + 1, room)
    else if room == 0 then Page([], Some(first + pos))
    else Before(es[pos], ScanBlock(es, first, q, cursor, pos + 1, room - 1))
  }

  predicate InFile(ix: Index, size: nat) {
    forall i :: 0 <= i < |ix.blocks| ==> ix.blocks[i].offset + ix.blocks[i].len <= size
  }

  function BlockEvents(c: Codec, file: seq<byte>, ix: Index, i: nat): seq<Event>
    requires i < |ix.blocks| && InFile(ix, |file|)
  {
    var b := ix.blocks[i];
    var data := file[b.offset..b.offset + b.len];
    c.decode(if ix.compressed then c.unzip(data) else data)
  }

  /** Blocks that end before the cursor or the window are skipped; one that starts after
      the window ends the search. */
  function WalkBlocks(c: Codec, file: seq<byte>, ix: Index, q: Query, cursor: nat, i: nat, room: nat): Page
    requires InFile(ix, |file|) && i <= |ix.blocks|
    decreases |ix.blocks| - i
  {
    if i == |ix.blocks| then Page([], None)
    else
      var b := ix.blocks[i];
      if b.firstEntry + b.entries <= cursor || (q.from.Some? && b.end < q.from.value) then
        WalkBlocks(c, file, ix, q, cursor, i + 1, room)
      else if q.to.Some? && b.start > q.to.value then Page([], None)
      else
        var p := ScanBlock(BlockEvents(c, file, ix, i), b.firstEntry, q, cursor, 0, room);
        if p.next.Some? then p
        else
          var taken := MinNat(|p.events|, room);
          var rest := WalkBlocks(c, file, ix, q, cursor, i + 1, room - taken);
          Page(p.events + rest.events, rest.next)
  }

  /** First ordinal of the first block from `i` on that may hold events at or after `from`. */
  function Candidate(ix: Index, q: Query, i: nat): nat
    requires i <= |ix.blocks|
    decreases |ix.blocks| - i
  {
    if i == |ix.blocks| then ix.total
    else if q.from.None? || ix.blocks[i].end >= q.from.value then ix.blocks[i].firstEntry
    else Candidate(ix, q, i + 1)
  }

  function StartCursor(ix: Index, q: Query): nat {
    var first := Candidate(ix, q, 0);
    var cursor := if q.cursor.Some? then q.cursor.value else first;
    if cursor < first then first else cursor
  }

  function IndexedPage(c: Codec, file: seq<byte>, ix: Index, q: Query): Page
    requires InFile(ix, |file|)
  {
    WalkBlocks(c, file, ix, q, StartCursor(ix, q), 0, Limit(q))
  }

  method FirstCandidate(ix: Index, q: Query) returns (first: nat)
    ensures first == Candidate(ix, q, 0)
  {
    for k := 0 to |ix.blocks|
      invariant Candidate(ix, q, k) == Candidate(ix, q, 0)
    {
      if q.from.None? || ix.blocks[k].end >= q.from.value { return ix.blocks[k].firstEntry; }
    }
    return ix.total;
  }

  method ReadIndexedHistoryPage(c: Codec, file: seq<byte>, ix: Index, q: Query) returns (page: Page)
    requires InFile(ix, |file|)
    ensures page == IndexedPage(c, file, ix, q)
  {
    hide EventMatches, ScanBlock, WalkBlocks, BlockEvents, Candidate, InFile, Limit, Joined;
    var limit := Limit(q);
    var first := FirstCandidate(ix, q);
    var cursor := if q.cursor.Some? then q.cursor.value else first;
    if cursor < first { cursor := first; }
    assert cursor == StartCursor(ix, q);
    ghost var whole := IndexedPage(c, file, ix, q);
    JoinNone(whole);
    var events: seq<Event> := [];
    for i := 0 to |ix.blocks|
      invariant |events| <= limit
      invariant whole == Joined(events, WalkBlocks(c, file, ix, q, cursor, i, limit - |events|))
    {
      WalkStep(c, file, ix, q, cursor, i, limit - |events|);
      var b := ix.blocks[i];
      if b.firstEntry + b.entries <= cursor { continue; }
      if q.from.Some? && b.end < q.from.value { continue; }
      JoinEnd(events);
      if q.to.Some? && b.start > q.to.value { return Page(events, None); }
      var p := ReadBlock(BlockEvents(c, file, ix, i), b.firstEntry, q, cursor, limit - |events|);
      ghost var before := events;
      events := events + p.events;
      JoinPage(before, p);
      if p.next.Some? { return Page(events, p.next); }
      JoinTwice(before, p.events, WalkBlocks(c, file, ix, q, cursor, i + 1, limit - |events|));
    }
    WalkStep(c, file, ix, q, cursor, |ix.blocks|, limit - |events|);
    JoinEnd(events);
    return Page(events, None);
  }

  method ReadBlock(decoded: seq<Event>, first: nat, q: Query, cursor: nat, room: nat) returns (p: Page)
    ensures p == ScanBlock(decoded, first, q, cursor, 0, room) && |p.events| <= room
  {
    hide EventMatches, ScanBlock;
    ghost var whole := ScanBlock(decoded, first, q, cursor, 0, room);
    var events: seq<Event> := [];
    JoinNone(whole);
    for pos := 0 to |decoded|
      invariant |events| <= room
      invariant whole == Joined(events, ScanBlock(decoded, first, q, cursor, pos, room - |events|))
    {
      BlockStep(decoded, first, q, cursor, pos, room - |events|);
      var ordinal := first + pos;
      if ordinal < cursor { continue; }
      if EventMatches(decoded[pos], q) {
        if |events| < room {
          JoinSnoc(events, decoded[pos], ScanBlock(decoded, first, q, cursor, pos + 1, room - |events| - 1));
          events := events + [decoded[pos]];
        } else {
          return Page(events, Some(ordinal));
        }
      }
    }
    BlockStep(decoded, first, q, cursor, |decoded|, room - |events|);
    return Page(events, None);
  }

  lemma {:induction false} JoinSnoc(events: seq<Event>, e: Event, p: Page)
    ensures Joined(events, Before(e, p)) == Joined(events + [e], p)
  {
  }

  ghost function Joined(events: seq<Event>, p: Page): Page {
    Page(events + p.events, p.next)
  }

  lemma {:induction false} BlockStep(es: seq<Event>, first: nat, q: Query, cursor: nat, pos: nat, room: nat)
    ensures ScanBlock(es, first, q, cursor, pos, room) ==
            if pos >= |es| then Page([], None)
            else if first + pos < cursor || !EventMatches(es[pos], q) then
              ScanBlock(es, first, q, cursor, pos + 1, room)
            else if room == 0 then Page([], Some(first + pos))
            else Before(es[pos], ScanBlock(es, first, q, cursor, pos + 1, room - 1))
  {
  }

  lemma {:induction false} WalkStep(c: Codec, file: seq<byte>, ix: Index, q: Query, cursor: nat, i: nat, room: nat)
    requires InFile(ix, |file|) && i <= |ix.blocks|
    ensures WalkBlocks(c, file, ix, q, cursor, i, room) ==
            if i == |ix.blocks| then Page([], None)
            else
              var b := ix.blocks[i];
              if b.firstEntry + b.entries <= cursor || (q.from.Some? && b.end < q.from.value) then
                WalkBlocks(c, file, ix, q, cursor, i + 1, room)
              else if q.to.Some? && b.start > q.to.value then Page([], None)
              else
                var p := ScanBlock(BlockEvents(c, file, ix, i), b.firstEntry, q, cursor, 0, room);
                if p.next.Some? then p
                else
                  var taken := MinNat(|p.events|, room);
                  var rest := WalkBlocks(c, file, ix, q, cursor, i + 1, room - taken);
                  Page(p.events + rest.events, rest.next)
  {
  }

  // The indexed page is the page of a plain scan.

  /** No event of block `i` is later than the block's recorded end. */
  ghost predicate EndBounds(ix: Index, es: seq<Event>, i: nat)
    requires i < |ix.blocks|
  {
    var b := ix.blocks[i];
    forall j :: b.firstEntry <= j < b.firstEntry + b.entries && j < |es| ==> es[j].micros <= b.end
  }

  /** No event from block `i` on is earlier than the block's recorded start. */
  ghost predicate StartBounds(ix: Index, es: seq<Event>, i: nat)
    requires i < |ix.blocks|
  {
    forall j :: ix.blocks[i].firstEntry <= j < |es| ==> es[j].micros >= ix.blocks[i].start
  }

  /** What skipping by time relies on for `q`. */
  ghost predicate TimeOk(ix: Index, es: seq<Event>, q: Query) {
    && (q.from.Some? ==> forall i :: 0 <= i < |ix.blocks| ==> EndBounds(ix, es, i))
    && (q.to.Some? ==> forall i :: 0 <= i < |ix.blocks| ==> StartBounds(ix, es, i))
  }

  /** The recorded times bound the events as every query relies on. */
  ghost predicate Bounded(ix: Index, es: seq<Event>) {
    forall i :: 0 <= i < |ix.blocks| ==> EndBounds(ix, es, i) && StartBounds(ix, es, i)
  }

  lemma {:induction false} ScanStep(es: seq<Event>, q: Query, pos: nat, room: nat)
    ensures ScanFrom(es, q, pos, room) ==
            if pos >= |es| then Page([], None)
            else if !EventMatches(es[pos], q) then ScanFrom(es, q, pos + 1, room)
            else if room == 0 then Page([], Some(pos))
            else Before(es[pos], ScanFrom(es, q, pos + 1, room - 1))
  {
  }

  lemma {:induction false} SkipUnmatched(es: seq<Event>, q: Query, pos: nat, stop: nat, room: nat)
    requires pos <= stop && forall j :: pos <= j < stop && j < |es| ==> !EventMatches(es[j], q)
    ensures ScanFrom(es, q, pos, room) == ScanFrom(es, q, stop, room)
    decreases stop - pos
  {
    hide ScanFrom, EventMatches;
    ScanStep(es, q, pos, room);
    ScanStep(es, q, stop, room);
    if pos < stop && pos < |es| { SkipUnmatched(es, q, pos + 1, stop, room); }
  }

  /** Scanning a block and then what follows it is scanning on. */
  lemma {:induction false} BlockThenRest(es: seq<Event>, first: nat, n: nat, q: Query, cursor: nat, pos: nat, room: nat)
    requires first + n <= |es| && pos <= n
    ensures var p := ScanBlock(es[first..first + n], first, q, cursor, pos, room);
            && |p.events| <= room
            && ScanFrom(es, q, MaxNat(cursor, first + pos), room) ==
               if p.next.Some? then p
               else Joined(p.events, ScanFrom(es, q, MaxNat(cursor, first + n), room - |p.events|))
    decreases n - pos
  {
    hide ScanFrom, ScanBlock, EventMatches;
    var block := es[first..first + n];
    BlockStep(block, first, q, cursor, pos, room);
    ScanStep(es, q, MaxNat(cursor, first + pos), room);
    if pos == n {
      JoinNone(ScanFrom(es, q, MaxNat(cursor, first + n), room));
    } else if first + pos < cursor || !EventMatches(block[pos], q) {
      BlockThenRest(es, first, n, q, cursor, pos + 1, room);
    } else if room > 0 {
      BlockThenRest(es, first, n, q, cursor, pos + 1, room - 1);
      var p := ScanBlock(block, first, q, cursor, pos + 1, room - 1);
      JoinBefore(es[first + pos], p.events, ScanFrom(es, q, MaxNat(cursor, first + n), room - 1 - |p.events|));
    }
  }

  lemma {:induction false} JoinEnd(events: seq<Event>)
    ensures Joined(events, Page([], None)) == Page(events, None)
  {
  }

  lemma {:induction false} JoinPage(events: seq<Event>, p: Page)
    ensures Joined(events, p) == Page(events + p.events, p.next)
  {
  }

  lemma {:induction false} JoinTwice(a: seq<Event>, b: seq<Event>, p: Page)
    ensures Joined(a, Page(b + p.events, p.next)) == Joined(a + b, p)
  {
  }

  lemma {:induction false} JoinNone(p: Page)
    ensures Joined([], p) == p
  {
  }

  lemma {:induction false} JoinBefore(e: Event, es: seq<Event>, p: Page)
    ensures Before(e, Joined(es, p)) == Joined([e] + es, p)
  {
  }

  lemma {:induction false} BlockEventsAre(c: Codec, es: seq<Event>, ix: Index, i: nat)
    requires Works(c) && Covers(c, ix, es) && !ix.compressed && i < |ix.blocks| && InFile(ix, |EncodeAll(c, es)|)
    ensures var b := ix.blocks[i]; BlockEvents(c, EncodeAll(c, es), ix, i) == es[b.firstEntry..b.firstEntry + b.entries]
  {
    hide EncodeAll;
    var b := ix.blocks[i];
    assert BlockOk(c, b, es);
    var x, y, z := es[..b.firstEntry], es[b.firstEntry..b.firstEntry + b.entries], es[b.firstEntry + b.entries..];
    assert es == x + y + z;
    EncodeCat(c, x + y, z);
    EncodeCat(c, x, y);
    assert EncodeAll(c, es)[b.offset..b.offset + b.len] == EncodeAll(c, y);
  }

  lemma {:induction false} CoversInFile(c: Codec, es: seq<Event>, ix: Index)
    requires Covers(c, ix, es)
    ensures InFile(ix, |EncodeAll(c, es)|)
  {
    hide EncodeAll;
    forall i | 0 <= i < |ix.blocks| ensures ix.blocks[i].offset + ix.blocks[i].len <= |EncodeAll(c, es)| {
      var b := ix.blocks[i];
      assert BlockOk(c, b, es);
      var x, y, z := es[..b.firstEntry], es[b.firstEntry..b.firstEntry + b.entries], es[b.firstEntry + b.entries..];
      assert es == x + y + z;
      EncodeCat(c, x + y, z);
      EncodeCat(c, x, y);
    }
  }

  lemma {:induction false} NothingEarly(ix: Index, es: seq<Event>, q: Query, i: nat, j: nat)
    requires TimeOk(ix, es, q) && i < |ix.blocks| && q.from.Some? && ix.blocks[i].end < q.from.value
    requires ix.blocks[i].firstEntry <= j < ix.blocks[i].firstEntry + ix.blocks[i].entries && j < |es|
    ensures !EventMatches(es[j], q)
  {
    assert EndBounds(ix, es, i);
  }

  lemma {:induction false} NothingLate(ix: Index, es: seq<Event>, q: Query, i: nat, j: nat)
    requires TimeOk(ix, es, q) && i < |ix.blocks| && q.to.Some? && ix.blocks[i].start > q.to.value
    requires ix.blocks[i].firstEntry <= j < |es|
    ensures !EventMatches(es[j], q)
  {
    assert StartBounds(ix, es, i);
  }

  lemma {:induction false} WalkIsScan(c: Codec, es: seq<Event>, ix: Index, q: Query, cursor: nat, i: nat, room: nat)
    requires Works(c) && Covers(c, ix, es) && !ix.compressed && InFile(ix, |EncodeAll(c, es)|) && i <= |ix.blocks|
    requires TimeOk(ix, es, q)
    ensures WalkBlocks(c, EncodeAll(c, es), ix, q, cursor, i, room) ==
            ScanFrom(es, q, MaxNat(cursor, FirstEntry(ix, i)), room)
    decreases |ix.blocks| - i
  {
    hide EncodeAll, WalkBlocks, ScanFrom, ScanBlock, BlockEvents, EventMatches, Works, TimeOk;
    var file := EncodeAll(c, es);
    WalkStep(c, file, ix, q, cursor, i, room);
    if i == |ix.blocks| {
      ScanStep(es, q, MaxNat(cursor, |es|), room);
    } else {
      var b := ix.blocks[i];
      assert BlockOk(c, b, es) && Follows(ix, i);
      WalkIsScan(c, es, ix, q, cursor, i + 1, room);
      var last := b.firstEntry + b.entries - 1;
      if b.firstEntry + b.entries <= cursor {
      } else if q.from.Some? && b.end < q.from.value {
        forall j | b.firstEntry <= j <= last ensures !EventMatches(es[j], q) { NothingEarly(ix, es, q, i, j); }
        SkipUnmatched(es, q, MaxNat(cursor, b.firstEntry), last + 1, room);
      } else if q.to.Some? && b.start > q.to.value {
        forall j | b.firstEntry <= j < |es| ensures !EventMatches(es[j], q) { NothingLate(ix, es, q, i, j); }
        SkipUnmatched(es, q, MaxNat(cursor, b.firstEntry), MaxNat(cursor, |es|), room);
        ScanStep(es, q, MaxNat(cursor, |es|), room);
      } else {
        BlockEventsAre(c, es, ix, i);
        BlockThenRest(es, b.firstEntry, b.entries, q, cursor, 0, room);
        var p := ScanBlock(es[b.firstEntry..b.firstEntry + b.entries], b.firstEntry, q, cursor, 0, room);
        WalkIsScan(c, es, ix, q, cursor, i + 1, room - |p.events|);
      }
    }
  }

  lemma {:induction false} CandidateSkips(c: Codec, es: seq<Event>, ix: Index, q: Query, i: nat, j: nat)
    requires Covers(c, ix, es) && i <= |ix.blocks| && TimeOk(ix, es, q)
    requires FirstEntry(ix, i) <= j < Candidate(ix, q, i) && j < |es|
    ensures !EventMatches(es[j], q)
    decreases |ix.blocks| - i
  {
    hide EncodeAll, EventMatches, TimeOk;
    if i < |ix.blocks| && q.from.Some? && ix.blocks[i].end < q.from.value {
      var b := ix.blocks[i];
      assert BlockOk(c, b, es) && Follows(ix, i);
      var last := b.firstEntry + b.entries - 1;
      if j <= last { NothingEarly(ix, es, q, i, j); } else { CandidateSkips(c, es, ix, q, i + 1, j); }
    }
  }

  function FirstOrdinal(q: Query): nat {
    if q.cursor.Some? then q.cursor.value else 0
  }

  /** One page read through the index is one page of a scan over all events. */
  lemma {:induction false} IndexedIsScan(c: Codec, es: seq<Event>, ix: Index, q: Query)
    requires Works(c) && Covers(c, ix, es) && !ix.compressed && TimeOk(ix, es, q)
    ensures InFile(ix, |EncodeAll(c, es)|)
    ensures IndexedPage(c, EncodeAll(c, es), ix, q) ==
            ScanFrom(es, q, FirstOrdinal(q), Limit(q))
  {
    hide EncodeAll, WalkBlocks, ScanFrom, EventMatches, TimeOk, Works, BlockOk;
    CoversInFile(c, es, ix);
    var cursor := StartCursor(ix, q);
    WalkIsScan(c, es, ix, q, cursor, 0, Limit(q));
    var c0 := FirstOrdinal(q);
    forall j | c0 <= j < cursor && j < |es| ensures !EventMatches(es[j], q) { CandidateSkips(c, es, ix, q, 0, j); }
    SkipUnmatched(es, q, c0, cursor, Limit(q));
  }

  // When that holds.

  ghost predicate PagesLikeScan(c: Codec, es: seq<Event>, ix: Index, q: Query)
    requires InFile(ix, |EncodeAll(c, es)|)
  {
    IndexedPage(c, EncodeAll(c, es), ix, q) == ScanFrom(es, q, FirstOrdinal(q), Limit(q))
  }

  /** Asks for one event from ordinal `cursor` on, between the given times. */
  function TimeQuery(cursor: nat, from: Option<nat>, to: Option<nat>): Query {
    Query(1, Some(cursor), from, to, None, None, None, None, None, None)
  }

  lemma {:induction false} TimeMatches(e: Event, cursor: nat, from: Option<nat>, to: Option<nat>)
    ensures EventMatches(e, TimeQuery(cursor, from, to)) <==>
            (from.Some? ==> e.micros >= from.value) && (to.Some? ==> e.micros <= to.value)
  {
  }

  /** Blocks before the cursor do not take part. */
  lemma {:induction false} WalkSkips(c: Codec, file: seq<byte>, ix: Index, es: seq<Event>, q: Query, cursor: nat,
                                     i: nat, k: nat)
    requires InFile(ix, |file|) && Tiles(ix, es) && k <= i <= |ix.blocks| && FirstEntry(ix, i) <= cursor
    requires forall n :: 0 <= n < |ix.blocks| ==> FirstEntry(ix, n) <= FirstEntry(ix, n + 1)
    ensures WalkBlocks(c, file, ix, q, cursor, k, 1) == WalkBlocks(c, file, ix, q, cursor, i, 1)
    decreases i - k
  {
    hide WalkBlocks, ScanBlock, EventMatches;
    if k < i {
      WalkStep(c, file, ix, q, cursor, k, 1);
      FirstEntriesGrow(ix, k + 1, i);
      assert Follows(ix, k);
      WalkSkips(c, file, ix, es, q, cursor, i, k + 1);
    }
  }

  lemma {:induction false} FirstEntriesGrow(ix: Index, k: nat, i: nat)
    requires k <= i <= |ix.blocks|
    requires forall n :: 0 <= n < |ix.blocks| ==> FirstEntry(ix, n) <= FirstEntry(ix, n + 1)
    ensures FirstEntry(ix, k) <= FirstEntry(ix, i)
    decreases i - k
  {
    hide FirstEntry;
    if k < i {
      assert FirstEntry(ix, k) <= FirstEntry(ix, k + 1);
      FirstEntriesGrow(ix, k + 1, i);
    }
  }

  lemma {:induction false} EntriesForward(c: Codec, ix: Index, es: seq<Event>)
    requires Covers(c, ix, es)
    ensures forall n :: 0 <= n < |ix.blocks| ==> FirstEntry(ix, n) <= FirstEntry(ix, n + 1)
  {
    hide EncodeAll;
    forall n | 0 <= n < |ix.blocks| ensures FirstEntry(ix, n) <= FirstEntry(ix, n + 1) {
      assert Follows(ix, n);
    }
  }

  /** A page of at most one event that came from ordinal `low` or later. */
  ghost predicate FromOn(es: seq<Event>, q: Query, low: nat, p: Page) {
    && (p.events == [] ==> p.next.None?)
    && (p.events != [] ==> exists m :: low <= m < |es| && EventMatches(es[m], q) && (p.next.Some? ==> m < p.next.value))
  }

  lemma {:induction false} BlockFromOn(es: seq<Event>, first: nat, n: nat, q: Query, cursor: nat, pos: nat)
    requires first + n <= |es| && pos <= n
    ensures var p := ScanBlock(es[first..first + n], first, q, cursor, pos, 1);
            |p.events| <= 1 && FromOn(es, q, first + pos, p)
    decreases n - pos
  {
    hide ScanBlock, EventMatches;
    var block := es[first..first + n];
    BlockStep(block, first, q, cursor, pos, 1);
    if pos < n {
      if first + pos < cursor || !EventMatches(block[pos], q) {
        BlockFromOn(es, first, n, q, cursor, pos + 1);
      } else {
        NextBehind(block, first, q, cursor, pos + 1);
        assert EventMatches(es[first + pos], q);
      }
    }
  }

  lemma {:induction false} NextBehind(block: seq<Event>, first: nat, q: Query, cursor: nat, pos: nat)
    ensures var p := ScanBlock(block, first, q, cursor, pos, 0);
            p.events == [] && (p.next.Some? ==> p.next.value >= first + pos)
    decreases |block| - pos
  {
    hide ScanBlock, EventMatches;
    BlockStep(block, first, q, cursor, pos, 0);
    if pos < |block| && (first + pos < cursor || !EventMatches(block[pos], q)) {
      NextBehind(block, first, q, cursor, pos + 1);
    }
  }

  lemma {:induction false} RestBehind(c: Codec, es: seq<Event>, ix: Index, q: Query, cursor: nat, i: nat)
    requires Works(c) && Covers(c, ix, es) && !ix.compressed && InFile(ix, |EncodeAll(c, es)|) && i <= |ix.blocks|
    ensures var p := WalkBlocks(c, EncodeAll(c, es), ix, q, cursor, i, 0);
            p.events == [] && (p.next.Some? ==> p.next.value >= FirstEntry(ix, i))
    decreases |ix.blocks| - i
  {
    hide EncodeAll, WalkBlocks, ScanBlock, BlockEvents, EventMatches, Works;
    WalkStep(c, EncodeAll(c, es), ix, q, cursor, i, 0);
    if i < |ix.blocks| {
      var b := ix.blocks[i];
      assert BlockOk(c, b, es) && Follows(ix, i);
      BlockEventsAre(c, es, ix, i);
      NextBehind(es[b.firstEntry..b.firstEntry + b.entries], b.firstEntry, q, cursor, 0);
      RestBehind(c, es, ix, q, cursor, i + 1);
    }
  }

  lemma {:induction false} WalkFromOn(c: Codec, es: seq<Event>, ix: Index, q: Query, cursor: nat, i: nat)
    requires Works(c) && Covers(c, ix, es) && !ix.compressed && InFile(ix, |EncodeAll(c, es)|) && i <= |ix.blocks|
    ensures FromOn(es, q, FirstEntry(ix, i), WalkBlocks(c, EncodeAll(c, es), ix, q, cursor, i, 1))
    decreases |ix.blocks| - i
  {
    hide EncodeAll, WalkBlocks, ScanBlock, BlockEvents, EventMatches, Works;
    var file := EncodeAll(c, es);
    WalkStep(c, file, ix, q, cursor, i, 1);
    if i < |ix.blocks| {
      var b := ix.blocks[i];
      assert BlockOk(c, b, es) && Follows(ix, i);
      BlockEventsAre(c, es, ix, i);
      BlockFromOn(es, b.firstEntry, b.entries, q, cursor, 0);
      WalkFromOn(c, es, ix, q, cursor, i + 1);
      RestBehind(c, es, ix, q, cursor, i + 1);
      var p := ScanBlock(es[b.firstEntry..b.firstEntry + b.entries], b.firstEntry, q, cursor, 0, 1);
      var rest := WalkBlocks(c, file, ix, q, cursor, i + 1, 1 - |p.events|);
      if p.next.None? && p.events != [] {
        BlockFound(es, b.firstEntry, b.entries, q, cursor, 0);
      }
    }
  }

  /** A block's event lies in that block. */
  lemma {:induction false} BlockFound(es: seq<Event>, first: nat, n: nat, q: Query, cursor: nat, pos: nat)
    requires first + n <= |es| && pos <= n && ScanBlock(es[first..first + n], first, q, cursor, pos, 1).events != []
    ensures exists m :: first + pos <= m < first + n && EventMatches(es[m], q)
    decreases n - pos
  {
    hide ScanBlock, EventMatches;
    var block := es[first..first + n];
    BlockStep(block, first, q, cursor, pos, 1);
    if pos < n {
      if first + pos < cursor || !EventMatches(block[pos], q) {
        BlockFound(es, first, n, q, cursor, pos + 1);
      } else {
        assert EventMatches(es[first + pos], q);
      }
    }
  }

  lemma {:induction false} ScanNext(es: seq<Event>, q: Query, pos: nat, m: nat)
    requires pos <= m < |es| && EventMatches(es[m], q)
    ensures ScanFrom(es, q, pos, 0).next.Some? && ScanFrom(es, q, pos, 0).next.value <= m
    decreases |es| - pos
  {
    hide ScanFrom, EventMatches;
    ScanStep(es, q, pos, 0);
    if !EventMatches(es[pos], q) { ScanNext(es, q, pos + 1, m); }
  }

  lemma {:induction false} ScanSome(es: seq<Event>, q: Query, pos: nat, m: nat)
    requires pos <= m < |es| && EventMatches(es[m], q)
    ensures ScanFrom(es, q, pos, 1).events != []
    decreases |es| - pos
  {
    hide ScanFrom, EventMatches;
    ScanStep(es, q, pos, 1);
    if !EventMatches(es[pos], q) { ScanSome(es, q, pos + 1, m); }
  }

  /** An event later than its block's end is missed when looking for it by time. */
  lemma {:induction false} LateEventMissed(c: Codec, es: seq<Event>, ix: Index, i: nat, j: nat)
    requires Works(c) && Covers(c, ix, es) && !ix.compressed && InFile(ix, |EncodeAll(c, es)|) && i < |ix.blocks|
    requires var b := ix.blocks[i]; b.firstEntry <= j < b.firstEntry + b.entries && j < |es| && es[j].micros > b.end
    ensures !PagesLikeScan(c, es, ix, TimeQuery(j, Some(es[j].micros), None))
  {
    hide EncodeAll, WalkBlocks, ScanFrom, EventMatches, Works, BlockOk, Candidate;
    var file, q := EncodeAll(c, es), TimeQuery(j, Some(es[j].micros), None);
    var cursor := StartCursor(ix, q);
    assert Follows(ix, i);
    EntriesForward(c, ix, es);
    WalkSkips(c, file, ix, es, q, cursor, i, 0);
    WalkStep(c, file, ix, q, cursor, i, 1);
    WalkFromOn(c, es, ix, q, cursor, i + 1);
    var p := WalkBlocks(c, file, ix, q, cursor, i + 1, 1);
    assert IndexedPage(c, file, ix, q) == p;
    TimeMatches(es[j], j, Some(es[j].micros), None);
    ScanStep(es, q, j, 1);
    if p.events != [] {
      var m :| FirstEntry(ix, i + 1) <= m < |es| && EventMatches(es[m], q) && (p.next.Some? ==> m < p.next.value);
      ScanNext(es, q, j + 1, m);
    }
  }

  /** An event earlier than the start of its own or an earlier block is missed. */
  lemma {:induction false} EarlyEventMissed(c: Codec, es: seq<Event>, ix: Index, i: nat, j: nat)
    requires Works(c) && Covers(c, ix, es) && !ix.compressed && InFile(ix, |EncodeAll(c, es)|) && i < |ix.blocks|
    requires ix.blocks[i].firstEntry <= j < |es| && es[j].micros < ix.blocks[i].start
    ensures !PagesLikeScan(c, es, ix, TimeQuery(ix.blocks[i].firstEntry, None, Some(es[j].micros)))
  {
    hide EncodeAll, WalkBlocks, ScanFrom, EventMatches, Works;
    var first := ix.blocks[i].firstEntry;
    var file, q := EncodeAll(c, es), TimeQuery(first, None, Some(es[j].micros));
    assert BlockOk(c, ix.blocks[i], es);
    EntriesForward(c, ix, es);
    FirstEntriesGrow(ix, 0, i);
    WalkSkips(c, file, ix, es, q, first, i, 0);
    WalkStep(c, file, ix, q, first, i, 1);
    TimeMatches(es[j], first, None, Some(es[j].micros));
    ScanSome(es, q, first, j);
  }

  /** All queries page like the scan if and only if the recorded times bound the events. */
  lemma {:induction false} PagingExact(c: Codec, es: seq<Event>, ix: Index)
    requires Works(c) && Covers(c, ix, es) && !ix.compressed
    ensures InFile(ix, |EncodeAll(c, es)|)
    ensures (forall q: Query :: PagesLikeScan(c, es, ix, q)) <==> Bounded(ix, es)
  {
    hide EncodeAll, IndexedPage, ScanFrom, Works, Covers, PagesLikeScan;
    CoversInFile(c, es, ix);
    if Bounded(ix, es) {
      forall q: Query ensures PagesLikeScan(c, es, ix, q) { BoundedPages(c, es, ix, q); }
    } else {
      var i :| 0 <= i < |ix.blocks| && !(EndBounds(ix, es, i) && StartBounds(ix, es, i));
      var b := ix.blocks[i];
      if !EndBounds(ix, es, i) {
        var j :| b.firstEntry <= j < b.firstEntry + b.entries && j < |es| && es[j].micros > b.end;
        LateEventMissed(c, es, ix, i, j);
      } else {
        var j :| b.firstEntry <= j < |es| && es[j].micros < b.start;
        EarlyEventMissed(c, es, ix, i, j);
      }
    }
  }

  lemma {:induction false} BoundedPages(c: Codec, es: seq<Event>, ix: Index, q: Query)
    requires Works(c) && Covers(c, ix, es) && !ix.compressed && Bounded(ix, es) && InFile(ix, |EncodeAll(c, es)|)
    ensures PagesLikeScan(c, es, ix, q)
  {
    hide EncodeAll, IndexedPage, ScanFrom, Works, Covers, EndBounds, StartBounds;
    IndexedIsScan(c, es, ix, q);
  }

  ghost predicate Ordered(es: seq<Event>) {
    forall i, j :: 0 <= i < j < |es| ==> es[i].micros <= es[j].micros
  }

  /** Timestamps in order are bounded, however they are divided into blocks. */
  lemma {:induction false} OrderedBounded(c: Codec, es: seq<Event>, ix: Index)
    requires Covers(c, ix, es) && Ordered(es)
    ensures Bounded(ix, es)
  {
    hide EncodeAll;
    forall i | 0 <= i < |ix.blocks| ensures EndBounds(ix, es, i) && StartBounds(ix, es, i) {
      assert BlockOk(c, ix.blocks[i], es);
    }
  }

  /** Out of order, a block that ends early hides a matching event inside it. */
  lemma {:induction false} DisorderedMisses(c: Codec)
    requires Works(c)
    ensures var a, b := Event(5, "", 0, "", None, "", 1), Event(1, "", 0, "", None, "", 1);
            var es, q := [a, b], Query(10, None, Some(3), None, None, None, None, None, None, None);
            var ix := Appended(EMPTY, 0, |EncodeAll(c, es)|, es);
            && Covers(c, ix, es) && InFile(ix, |EncodeAll(c, es)|)
            && ScanFrom(es, q, 0, Limit(q)).events == [a]
            && IndexedPage(c, EncodeAll(c, es), ix, q).events == []
  {
    var a, b := Event(5, "", 0, "", None, "", 1), Event(1, "", 0, "", None, "", 1);
    var es, q := [a, b], Query(10, None, Some(3), None, None, None, None, None, None, None);
    assert EncodeAll(c, []) == [] && [] + es == es;
    hide EncodeAll;
    AppendCovers(c, EMPTY, [], es);
    var ix := Appended(EMPTY, 0, |EncodeAll(c, es)|, es);
    CoversInFile(c, es, ix);
    assert ScanFrom(es, q, 2, 9) == Page([], None);
    assert ScanFrom(es, q, 1, 9) == ScanFrom(es, q, 2, 9);
    WalkStep(c, EncodeAll(c, es), ix, q, StartCursor(ix, q), 0, 10);
    WalkStep(c, EncodeAll(c, es), ix, q, StartCursor(ix, q), 1, 10);
  }

  // Following the cursor.

  /** All matching events from `pos` on, in order. */
  function Matching(es: seq<Event>, q: Query, pos: nat): seq<Event>
    decreases |es| - pos
  {
    if pos >= |es| then []
    else if EventMatches(es[pos], q) then [es[pos]] + Matching(es, q, pos + 1)
    else Matching(es, q, pos + 1)
  }

  /** A page is the start of the matching events, its cursor where the rest begins. */
  lemma {:induction false} PageSplits(es: seq<Event>, q: Query, pos: nat, room: nat)
    ensures var p := ScanFrom(es, q, pos, room);
            && |p.events| <= room
            && (p.next.None? ==> p.events == Matching(es, q, pos))
            && (p.next.Some? ==>
                  && pos <= p.next.value < |es| && |p.events| == room && (room > 0 ==> pos < p.next.value)
                  && Matching(es, q, pos) == p.events + Matching(es, q, p.next.value))
    decreases |es| - pos
  {
    hide EventMatches;
    if pos < |es| {
      if !EventMatches(es[pos], q) {
        PageSplits(es, q, pos + 1, room);
      } else if room > 0 {
        PageSplits(es, q, pos + 1, room - 1);
        var p := ScanFrom(es, q, pos + 1, room - 1);
        if p.next.Some? {
          var rest := Matching(es, q, p.next.value);
          assert [es[pos]] + (p.events + rest) == ([es[pos]] + p.events) + rest;
        }
      }
    }
  }

  /** `pages` are what a client gets that follows the cursor until there is none. */
  ghost predicate FollowedPages(c: Codec, file: seq<byte>, ix: Index, q: Query, pages: seq<Page>)
    requires InFile(ix, |file|)
    decreases |pages|
  {
    && pages != []
    && pages[0] == IndexedPage(c, file, ix, q)
    && (if pages[0].next.None? then |pages| == 1
        else FollowedPages(c, file, ix, q.(cursor := pages[0].next), pages[1..]))
  }

  ghost function Flatten(pages: seq<Page>): seq<Event> {
    if pages == [] then [] else pages[0].events + Flatten(pages[1..])
  }

  lemma {:induction false} SameMatching(es: seq<Event>, q: Query, next: Option<nat>, pos: nat)
    ensures Matching(es, q.(cursor := next), pos) == Matching(es, q, pos)
    decreases |es| - pos
  {
    if pos < |es| { SameMatching(es, q, next, pos + 1); }
  }

  /** Following the cursor returns every matching event exactly once, in order. */
  lemma {:induction false} PagesComplete(c: Codec, es: seq<Event>, ix: Index, q: Query, pages: seq<Page>)
    requires Works(c) && Covers(c, ix, es) && !ix.compressed && TimeOk(ix, es, q)
    requires InFile(ix, |EncodeAll(c, es)|) && FollowedPages(c, EncodeAll(c, es), ix, q, pages)
    ensures Flatten(pages) == Matching(es, q, FirstOrdinal(q))
    decreases |pages|
  {
    hide EncodeAll, Covers, IndexedPage, ScanFrom, Matching, EventMatches, Works;
    var pos := FirstOrdinal(q);
    IndexedIsScan(c, es, ix, q);
    PageSplits(es, q, pos, Limit(q));
    if pages[0].next.Some? {
      PagesComplete(c, es, ix, q.(cursor := pages[0].next), pages[1..]);
      SameMatching(es, q, pages[0].next, pages[0].next.value);
    } else {
      assert pages[1..] == [] && Flatten([]) == [];
    }
  }

  /** Each page moves the cursor on, so a client always reaches the end. */
  lemma {:induction false} PagesExist(c: Codec, es: seq<Event>, ix: Index, q: Query) returns (pages: seq<Page>)
    requires Works(c) && Covers(c, ix, es) && !ix.compressed && TimeOk(ix, es, q) && InFile(ix, |EncodeAll(c, es)|)
    ensures FollowedPages(c, EncodeAll(c, es), ix, q, pages)
    ensures forall i :: 0 <= i < |pages| ==> |pages[i].events| <= Limit(q)
    decreases |es| - FirstOrdinal(q)
  {
    hide EncodeAll, Covers, IndexedPage, ScanFrom, Matching, EventMatches, Works;
    var pos := FirstOrdinal(q);
    IndexedIsScan(c, es, ix, q);
    PageSplits(es, q, pos, Limit(q));
    var p := IndexedPage(c, EncodeAll(c, es), ix, q);
    if p.next.None? {
      pages := [p];
    } else {
      var rest := PagesExist(c, es, ix, q.(cursor := p.next));
      pages := [p] + rest;
      assert pages[1..] == rest;
    }
  }

  // Compression.

  function BlockBytes(file: seq<byte>, ix: Index, i: nat): seq<byte>
    requires i < |ix.blocks| && InFile(ix, |file|)
  {
    file[ix.blocks[i].offset..ix.blocks[i].offset + ix.blocks[i].len]
  }

  /** The first `n` blocks, each compressed on its own. */
  function Members(c: Codec, file: seq<byte>, ix: Index, n: nat): seq<byte>
    requires n <= |ix.blocks| && InFile(ix, |file|)
  {
    if n == 0 then [] else Members(c, file, ix, n - 1) + c.zip(BlockBytes(file, ix, n - 1))
  }

  ghost predicate MemberOk(c: Codec, file: seq<byte>, ix: Index, b: Block, i: nat)
    requires i < |ix.blocks| && InFile(ix, |file|)
  {
    b == ix.blocks[i].(offset := |Members(c, file, ix, i)|, len := |c.zip(BlockBytes(file, ix, i))|)
  }

  method CompressBlocks(c: Codec, file: seq<byte>, ix: Index) returns (out: seq<byte>, cix: Index)
    requires InFile(ix, |file|)
    ensures Compressed(c, file, ix, out, cix)
  {
    var blocks: seq<Block> := [];
    out := [];
    for i := 0 to |ix.blocks|
      invariant out == Members(c, file, ix, i) && |blocks| == i
      invariant forall j :: 0 <= j < i ==> MemberOk(c, file, ix, blocks[j], j)
    {
      var plain := BlockBytes(file, ix, i);
      var member := c.zip(plain);
      blocks := blocks + [ix.blocks[i].(offset := |out|, len := |member|)];
      out := out + member;
    }
    cix := ix.(compressed := true, blocks := blocks);
  }

  lemma {:induction false} MembersGrow(c: Codec, file: seq<byte>, ix: Index, i: nat, n: nat)
    requires i <= n <= |ix.blocks| && InFile(ix, |file|)
    ensures Members(c, file, ix, i) <= Members(c, file, ix, n)
    decreases n
  {
    if i < n { MembersGrow(c, file, ix, i, n - 1); }
  }

  /** `cix` describes `out`, the compressed form of `file`. */
  ghost predicate Compressed(c: Codec, file: seq<byte>, ix: Index, out: seq<byte>, cix: Index)
    requires InFile(ix, |file|)
  {
    && out == Members(c, file, ix, |ix.blocks|)
    && cix == ix.(compressed := true, blocks := cix.blocks) && |cix.blocks| == |ix.blocks|
    && forall i :: 0 <= i < |ix.blocks| ==> MemberOk(c, file, ix, cix.blocks[i], i)
  }

  lemma {:induction false} MemberPlace(c: Codec, file: seq<byte>, ix: Index, out: seq<byte>, cix: Index, i: nat)
    requires InFile(ix, |file|) && Compressed(c, file, ix, out, cix) && i < |ix.blocks|
    ensures var b := cix.blocks[i];
            && b.offset + b.len <= |out| && out[b.offset..b.offset + b.len] == c.zip(BlockBytes(file, ix, i))
  {
    assert MemberOk(c, file, ix, cix.blocks[i], i);
    MembersGrow(c, file, ix, i + 1, |ix.blocks|);
    var upTo := Members(c, file, ix, i + 1);
    var b := cix.blocks[i];
    assert |upTo| == b.offset + b.len;
    assert out[b.offset..b.offset + b.len] == upTo[b.offset..];
  }

  lemma {:induction false} CompressedInFile(c: Codec, file: seq<byte>, ix: Index, out: seq<byte>, cix: Index)
    requires InFile(ix, |file|) && Compressed(c, file, ix, out, cix)
    ensures InFile(cix, |out|)
  {
    forall i | 0 <= i < |cix.blocks| ensures cix.blocks[i].offset + cix.blocks[i].len <= |out| {
      MemberPlace(c, file, ix, out, cix, i);
    }
  }

  lemma {:induction false} CompressedWalk(c: Codec, file: seq<byte>, ix: Index, out: seq<byte>, cix: Index, q: Query,
                                          cursor: nat, i: nat, room: nat)
    requires Works(c) && InFile(ix, |file|) && !ix.compressed && Compressed(c, file, ix, out, cix) && InFile(cix, |out|)
    requires i <= |ix.blocks|
    ensures WalkBlocks(c, out, cix, q, cursor, i, room) == WalkBlocks(c, file, ix, q, cursor, i, room)
    ensures Candidate(cix, q, i) == Candidate(ix, q, i)
    decreases |ix.blocks| - i
  {
    hide WalkBlocks, ScanBlock, EncodeAll;
    WalkStep(c, out, cix, q, cursor, i, room);
    WalkStep(c, file, ix, q, cursor, i, room);
    if i < |ix.blocks| {
      assert MemberOk(c, file, ix, cix.blocks[i], i);
      MemberPlace(c, file, ix, out, cix, i);
      assert BlockEvents(c, out, cix, i) == BlockEvents(c, file, ix, i);
      CompressedWalk(c, file, ix, out, cix, q, cursor, i + 1, room);
      var p := ScanBlock(BlockEvents(c, file, ix, i), ix.blocks[i].firstEntry, q, cursor, 0, room);
      CompressedWalk(c, file, ix, out, cix, q, cursor, i + 1, room - MinNat(|p.events|, room));
    }
  }

  /** Rewriting a segment as compressed blocks changes no page. */
  lemma {:induction false} CompressionInvisible(c: Codec, file: seq<byte>, ix: Index, out: seq<byte>, cix: Index,
                                                q: Query)
    requires Works(c) && InFile(ix, |file|) && !ix.compressed && Compressed(c, file, ix, out, cix)
    ensures InFile(cix, |out|) && IndexedPage(c, out, cix, q) == IndexedPage(c, file, ix, q)
  {
    hide WalkBlocks, Compressed, Works;
    CompressedInFile(c, file, ix, out, cix);
    CompressedWalk(c, file, ix, out, cix, q, StartCursor(ix, q), 0, Limit(q));
  }

  /** The rewritten index passes the checks against the rewritten file. */
  lemma {:induction false} CompressedContiguous(c: Codec, file: seq<byte>, ix: Index, out: seq<byte>, cix: Index,
                                                i: nat, offset: nat, entry: nat)
    requires Works(c) && InFile(ix, |file|) && Compressed(c, file, ix, out, cix) && i <= |ix.blocks|
    requires Contiguous(ix, i, offset, entry, |file|)
    ensures Contiguous(cix, i, |Members(c, file, ix, i)|, entry, |out|)
    decreases |ix.blocks| - i
  {
    if i < |ix.blocks| {
      var b := ix.blocks[i];
      assert MemberOk(c, file, ix, cix.blocks[i], i);
      CompressedContiguous(c, file, ix, out, cix, i + 1, offset + b.len, entry + b.entries);
      assert c.zip(BlockBytes(file, ix, i)) != [];
    }
  }
}
