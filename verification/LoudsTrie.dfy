/** LOUDS encodings of tries, and what the walk of `src/mrs.rs` makes of them. */
module LoudsTrie {
  import opened Prelude
  import opened RankSelect
  import opened LoudsWalk
  import BitWords
  import Utf8

  /** A byte trie; `stored` marks the end of a stored key. */
  datatype Trie = Node(stored: bool, edges: seq<Edge>)
  datatype Edge = Edge(mark: byte, child: Trie)

  ghost predicate Accepts(t: Trie, key: seq<byte>)
    decreases key
  {
    if key == [] then t.stored
    else exists k :: 0 <= k < |t.edges| && t.edges[k].mark == key[0] && Accepts(t.edges[k].child, key[1..])
  }

  /** No two edges of a node carry the same byte. */
  ghost predicate Deterministic(t: Trie) {
    && (forall i, j :: 0 <= i < j < |t.edges| ==> t.edges[i].mark != t.edges[j].mark)
    && (forall k :: 0 <= k < |t.edges| ==> Deterministic(t.edges[k].child))
  }

  // Level order.

  function Kids(t: Trie): (r: seq<Trie>)
    ensures |r| == |t.edges|
  {
    seq(|t.edges|, i requires 0 <= i < |t.edges| => t.edges[i].child)
  }

  function Size(t: Trie): (r: nat)
    ensures r >= 1
    decreases t, |t.edges| + 1
  {
    1 + SizeFrom(t, 0)
  }

  /** Nodes below the edges of `t` from index `k` on. */
  function SizeFrom(t: Trie, k: nat): nat
    requires k <= |t.edges|
    decreases t, |t.edges| - k
  {
    if k == |t.edges| then 0 else Size(t.edges[k].child) + SizeFrom(t, k + 1)
  }

  function QueueSize(q: seq<Trie>): nat {
    if q == [] then 0 else Size(q[0]) + QueueSize(q[1..])
  }

  lemma {:induction false} QueueSizeConcat(a: seq<Trie>, b: seq<Trie>)
    ensures QueueSize(a + b) == QueueSize(a) + QueueSize(b)
  {
    if a == [] {
      assert a + b == b;
    } else {
      assert (a + b)[1..] == a[1..] + b;
      QueueSizeConcat(a[1..], b);
    }
  }

  lemma {:induction false} KidsSize(t: Trie, k: nat)
    requires k <= |t.edges|
    ensures QueueSize(Kids(t)[k..]) == SizeFrom(t, k)
    decreases |t.edges| - k
  {
    if k < |t.edges| {
      assert Kids(t)[k..][1..] == Kids(t)[k + 1..];
      KidsSize(t, k + 1);
    }
  }

  /** All nodes below a queue of nodes, in level order. */
  function Bfs(q: seq<Trie>): seq<Trie>
    decreases QueueSize(q)
  {
    if q == [] then []
    else
      QueueSizeConcat(q[1..], Kids(q[0]));
      KidsSize(q[0], 0);
      assert Kids(q[0])[0..] == Kids(q[0]);
      [q[0]] + Bfs(q[1..] + Kids(q[0]))
  }

  /** Children of the first `n` nodes of a listing, in order. */
  function KidsTo(order: seq<Trie>, n: nat): seq<Trie>
    requires n <= |order|
  {
    if n == 0 then [] else KidsTo(order, n - 1) + Kids(order[n - 1])
  }

  lemma {:induction false} KidsToShift(x: Trie, rest: seq<Trie>, n: nat)
    requires n <= |rest|
    ensures KidsTo([x] + rest, n + 1) == Kids(x) + KidsTo(rest, n)
  {
    hide Kids;
    var all := [x] + rest;
    assert KidsTo(all, n + 1) == KidsTo(all, n) + Kids(all[n]);
    if n == 0 {
      assert KidsTo(all, 0) == [] && KidsTo(rest, 0) == [];
    } else {
      KidsToShift(x, rest, n - 1);
      assert all[n] == rest[n - 1];
      hide KidsTo;
      assert Kids(x) + KidsTo(rest, n - 1) + Kids(rest[n - 1]) == Kids(x) + (KidsTo(rest, n - 1) + Kids(rest[n - 1]));
    }
  }

  lemma {:induction false} BfsStep(q: seq<Trie>)
    requires q != []
    ensures Bfs(q) == [q[0]] + Bfs(q[1..] + Kids(q[0]))
    ensures QueueSize(q[1..] + Kids(q[0])) < QueueSize(q)
  {
    QueueSizeConcat(q[1..], Kids(q[0]));
    KidsSize(q[0], 0);
    assert Kids(q[0])[0..] == Kids(q[0]);
  }

  lemma {:induction false} Regroup<T>(q: seq<T>, a: seq<T>, b: seq<T>)
    requires q != []
    ensures [q[0]] + (q[1..] + a + b) == q + (a + b)
  {
  }

  /** A level-order listing is its queue followed by the children of all it lists. */
  lemma {:induction false} BfsFixpoint(q: seq<Trie>)
    ensures Bfs(q) == q + KidsTo(Bfs(q), |Bfs(q)|)
    decreases QueueSize(q)
  {
    if q != [] {
      hide Bfs, QueueSize, Kids, KidsTo;
      var q' := q[1..] + Kids(q[0]);
      BfsStep(q);
      BfsFixpoint(q');
      var rest := Bfs(q');
      KidsToShift(q[0], rest, |rest|);
      Regroup(q, Kids(q[0]), KidsTo(rest, |rest|));
    }
  }

  // The three arrays.

  /** Edges of the first `i` nodes. */
  function Off(order: seq<Trie>, i: nat): nat
    requires i <= |order|
  {
    if i == 0 then 0 else Off(order, i - 1) + |order[i - 1].edges|
  }

  /** One clear bit per edge and a set bit per node. */
  function BitsTo(order: seq<Trie>, n: nat): (r: seq<bool>)
    requires n <= |order|
    ensures |r| == Off(order, n) + n
  {
    if n == 0 then [] else BitsTo(order, n - 1) + seq(|order[n - 1].edges|, _ => false) + [true]
  }

  function LabelsTo(order: seq<Trie>, n: nat): (r: seq<byte>)
    requires n <= |order|
    ensures |r| == Off(order, n)
  {
    if n == 0 then []
    else
      var es := order[n - 1].edges;
      LabelsTo(order, n - 1) + seq(|es|, i requires 0 <= i < |es| => es[i].mark)
  }

  function LeafFlags(order: seq<Trie>): seq<bool> {
    seq(|order|, i requires 0 <= i < |order| => order[i].stored)
  }

  /** The arrays hold the encoding of `t`, possibly followed by padding. */
  ghost predicate Encodes(v: View, t: Trie) {
    var order := Bfs([t]);
    && BitsTo(order, |order|) <= v.bits
    && LabelsTo(order, |order|) <= v.labels
    && LeafFlags(order) <= v.leaf
  }

  ghost predicate Listing(v: View, order: seq<Trie>) {
    && order != []
    && order == [order[0]] + KidsTo(order, |order|)
    && BitsTo(order, |order|) <= v.bits
    && LabelsTo(order, |order|) <= v.labels
    && LeafFlags(order) <= v.leaf
  }

  lemma {:induction false} EncodesListing(v: View, t: Trie)
    requires Encodes(v, t)
    ensures Listing(v, Bfs([t])) && Bfs([t])[0] == t
  {
    BfsFixpoint([t]);
  }

  lemma {:induction false} BitsPrefix(order: seq<Trie>, i: nat, n: nat)
    requires i <= n <= |order|
    ensures BitsTo(order, i) <= BitsTo(order, n)
    ensures LabelsTo(order, i) <= LabelsTo(order, n)
    ensures KidsTo(order, i) <= KidsTo(order, n)
    ensures |KidsTo(order, n)| == Off(order, n)
  {
    if i < n {
      BitsPrefix(order, i, n - 1);
    } else if n > 0 {
      BitsPrefix(order, n - 1, n - 1);
    }
  }

  lemma {:induction false} KidsAt(order: seq<Trie>, i: nat, k: nat, n: nat)
    requires i < n <= |order| && k < |order[i].edges|
    ensures Off(order, i) + k < Off(order, n) == |KidsTo(order, n)|
    ensures KidsTo(order, n)[Off(order, i) + k] == order[i].edges[k].child
  {
    BitsPrefix(order, n - 1, n - 1);
    if i < n - 1 {
      KidsAt(order, i, k, n - 1);
    } else {
      assert Kids(order[i])[k] == order[i].edges[k].child;
    }
  }

  lemma {:induction false} AfterHead<T>(all: seq<T>, rest: seq<T>, m: nat)
    requires all != [] && all == [all[0]] + rest && m < |rest|
    ensures m + 1 < |all| && all[m + 1] == rest[m]
  {
  }

  lemma {:induction false} ChildAt(order: seq<Trie>, i: nat, k: nat)
    requires order != [] && order == [order[0]] + KidsTo(order, |order|)
    requires i < |order| && k < |order[i].edges|
    ensures Off(order, i) + k + 1 < |order| && order[Off(order, i) + k + 1] == order[i].edges[k].child
  {
    hide KidsTo, Off;
    KidsAt(order, i, k, |order|);
    AfterHead(order, KidsTo(order, |order|), Off(order, i) + k);
  }

  lemma {:induction false} MarkAt(order: seq<Trie>, i: nat, k: nat)
    requires i < |order| && k < |order[i].edges|
    ensures Off(order, i) + i + k < |BitsTo(order, |order|)| && !BitsTo(order, |order|)[Off(order, i) + i + k]
    ensures Off(order, i) + k < |LabelsTo(order, |order|)|
    ensures LabelsTo(order, |order|)[Off(order, i) + k] == order[i].edges[k].mark
  {
    BitsPrefix(order, i + 1, |order|);
    var o := Off(order, i);
    assert BitsTo(order, i + 1)[o + i + k] == false;
    assert LabelsTo(order, i + 1)[o + k] == order[i].edges[k].mark;
  }

  /** What stands at the `k`-th edge of node `i`. */
  lemma {:induction false} EdgeAt(v: View, order: seq<Trie>, i: nat, k: nat)
    requires Listing(v, order) && i < |order| && k < |order[i].edges|
    ensures Off(order, i) + k + 1 < |order| && order[Off(order, i) + k + 1] == order[i].edges[k].child
    ensures Off(order, i) + i + k < |v.bits| && !v.bits[Off(order, i) + i + k]
    ensures Off(order, i) + k < |v.labels| && v.labels[Off(order, i) + k] == order[i].edges[k].mark
    ensures Off(order, i) + k + 1 < |v.leaf|
    ensures v.leaf[Off(order, i) + k + 1] == order[i].edges[k].child.stored
  {
    ChildAt(order, i, k);
    MarkAt(order, i, k);
    hide BitsTo, LabelsTo, KidsTo, Off;
    assert LeafFlags(order)[Off(order, i) + k + 1] == order[Off(order, i) + k + 1].stored;
  }

  /** The set bit that ends node `i`. */
  lemma {:induction false} EndAt(v: View, order: seq<Trie>, i: nat)
    requires Listing(v, order) && i < |order|
    ensures Off(order, i + 1) + i < |v.bits| && v.bits[Off(order, i + 1) + i]
  {
    BitsPrefix(order, i + 1, |order|);
    assert BitsTo(order, i + 1)[Off(order, i + 1) + i];
  }

  /** Ranks inside the run of node `i`. */
  lemma {:induction false} RankAt(v: View, order: seq<Trie>, i: nat, k: nat)
    requires Listing(v, order) && i < |order| && k <= |order[i].edges|
    ensures Off(order, i) + i + k < |v.bits|
    ensures Ones(v.bits, Off(order, i) + i + k) == i && Zeros(v.bits, Off(order, i) + i + k) == Off(order, i) + k
    decreases i, k
  {
    if k > 0 {
      RankAt(v, order, i, k - 1);
      EdgeAt(v, order, i, k - 1);
      EndAt(v, order, i);
    } else if i > 0 {
      RankAt(v, order, i - 1, |order[i - 1].edges|);
      EndAt(v, order, i - 1);
      EndAt(v, order, i);
    } else {
      EndAt(v, order, 0);
    }
  }

  /** Selecting by a child's index finds the end of the node before it. */
  lemma {:induction false} SelectAt(v: View, order: seq<Trie>, c: nat)
    requires Listing(v, order) && 0 < c < |order|
    ensures FindOne(v.bits, c - 1, |v.bits|) == Some(Off(order, c) + c - 1)
  {
    hide FindOne, Ones, BitsTo, LabelsTo, KidsTo;
    RankAt(v, order, c - 1, |order[c - 1].edges|);
    EndAt(v, order, c - 1);
    var q := Off(order, c) + c - 1;
    assert v.bits[q] && Ones(v.bits, q) == c - 1;
    var r := FindOne(v.bits, c - 1, |v.bits|);
    if r.None? {
      OnesMonotone(v.bits, q + 1, |v.bits|);
      OnesAfterSet(v.bits, q);
    } else {
      OnesInjective(v.bits, r.value, q);
    }
  }

  lemma {:induction false} OnesAfterSet(bits: seq<bool>, q: nat)
    requires q < |bits| && bits[q]
    ensures Ones(bits, q + 1) == Ones(bits, q) + 1
  {
  }

  // The walk in terms of the trie.

  datatype TrieWalk = TrieWalk(emitted: seq<seq<byte>>, steps: nat, error: Option<WalkError>)

  function Follow(a: TrieWalk, b: TrieWalk): TrieWalk {
    if a.error.Some? then a else TrieWalk(a.emitted + b.emitted, a.steps + b.steps, b.error)
  }

  /** Depth-first traversal of the edges of `t` from index `k` on. */
  ghost function Traverse(t: Trie, k: nat, current: seq<byte>, depth: nat): TrieWalk
    requires k <= |t.edges|
    decreases t, |t.edges| - k
  {
    if k == |t.edges| then TrieWalk([], 1, None)
    else
      var e := t.edges[k];
      var here := current + [e.mark];
      if e.child.stored && !Utf8.Valid(Reverse(here)) then TrieWalk([], 1, Some(NotUtf8))
      else
        var text := if e.child.stored then [Reverse(here)] else [];
        if depth >= MAX_DOMAIN_SET_DEPTH then TrieWalk(text, 1, Some(DepthCap))
        else Follow(TrieWalk(text, 1, None),
                    Follow(Traverse(e.child, 0, here, depth + 1), Traverse(t, k + 1, current, depth)))
  }

  ghost predicate Same(o: Outcome, w: TrieWalk) {
    o.emitted == w.emitted && |o.trace| == w.steps && o.error == w.error
  }

  /** What one look at an encoded position finds. */
  lemma {:induction false} LookAtEdge(v: View, order: seq<Trie>, i: nat, k: nat, current: seq<byte>, depth: nat)
    requires Listing(v, order) && i < |order| && k < |order[i].edges|
    requires Ahead(v.bits, Off(order, i) + i + k)
    ensures var p := Off(order, i) + i + k;
            var e := order[i].edges[k];
            var here := current + [e.mark];
            var c := Off(order, i) + k + 1;
            var text := if e.child.stored then [Reverse(here)] else [];
            && c < |order| && order[c] == e.child
            && LookAt(v, p, current, depth) ==
               if e.child.stored && !Utf8.Valid(Reverse(here)) then Stop(Outcome([], [p], Some(NotUtf8)))
               else if depth >= MAX_DOMAIN_SET_DEPTH then Stop(Outcome(text, [p], Some(DepthCap)))
               else Down(text, c, Off(order, c) + c - 1, here)
  {
    hide FindOne, Ones, BitsTo, LabelsTo, KidsTo, Utf8.Valid, Reverse, Listing;
    RankAt(v, order, i, k);
    EdgeAt(v, order, i, k);
    SelectAt(v, order, Off(order, i) + k + 1);
  }

  lemma {:induction false} SameDown(v: View, p: nat, current: seq<byte>, depth: nat, x: TrieWalk, y: TrieWalk)
    requires Ahead(v.bits, p) && LookAt(v, p, current, depth).Down?
    requires var look := LookAt(v, p, current, depth);
             && Same(WalkFrom(v, look.q + 1, look.here, depth + 1), x)
             && Same(WalkFrom(v, p + 1, current, depth), y)
    ensures Same(WalkFrom(v, p, current, depth),
                 Follow(TrieWalk(LookAt(v, p, current, depth).emitted, 1, None), Follow(x, y)))
  {
    hide WalkFrom, LookAt, Ones;
    WalkDown(v, p, current, depth);
  }

  /** On an encoded trie the walk is the traversal of the trie. */
  lemma {:induction false} WalkTraverses(v: View, order: seq<Trie>, i: nat, k: nat, current: seq<byte>, depth: nat)
    requires Listing(v, order) && i < |order| && k <= |order[i].edges|
    requires Ahead(v.bits, Off(order, i) + i + k)
    ensures Same(WalkFrom(v, Off(order, i) + i + k, current, depth), Traverse(order[i], k, current, depth))
    decreases order[i], |order[i].edges| - k
  {
    hide WalkFrom, LookAt, Ones, FindOne, Off, BitsTo, LabelsTo, KidsTo, Listing, Utf8.Valid, Reverse, Traverse, Same,
         Follow;
    var p := Off(order, i) + i + k;
    if k == |order[i].edges| {
      EndAt(v, order, i);
      OffNext(order, i);
      LookAtEnd(v, p, current, depth);
      WalkStop(v, p, current, depth);
      TraverseEnd(order[i], p, current, depth);
    } else {
      LookAtEdge(v, order, i, k, current, depth);
      TraverseStep(order[i], k, current, depth);
      var look := LookAt(v, p, current, depth);
      if look.Stop? {
        WalkStop(v, p, current, depth);
        SameOne(look.end, p);
      } else {
        WalkTraverses(v, order, look.node, 0, look.here, depth + 1);
        WalkTraverses(v, order, i, k + 1, current, depth);
        SameDown(v, p, current, depth,
                 Traverse(order[look.node], 0, look.here, depth + 1), Traverse(order[i], k + 1, current, depth));
      }
    }
  }

  lemma {:induction false} OffNext(order: seq<Trie>, i: nat)
    requires i < |order|
    ensures Off(order, i + 1) == Off(order, i) + |order[i].edges|
  {
  }

  lemma {:induction false} TraverseEnd(t: Trie, p: nat, current: seq<byte>, depth: nat)
    ensures Same(Outcome([], [p], None), Traverse(t, |t.edges|, current, depth))
  {
  }

  lemma {:induction false} SameOne(o: Outcome, p: nat)
    requires o.trace == [p]
    ensures Same(o, TrieWalk(o.emitted, 1, o.error))
  {
  }

  lemma {:induction false} LookAtEnd(v: View, p: nat, current: seq<byte>, depth: nat)
    requires Ahead(v.bits, p) && p < |v.bits| && v.bits[p]
    ensures LookAt(v, p, current, depth) == Stop(Outcome([], [p], None))
  {
  }

  // What the traversal emits.

  /** The texts of the stored non-empty keys below the edges from `k` on. */
  ghost function Texts(t: Trie, k: nat, current: seq<byte>): seq<seq<byte>>
    requires k <= |t.edges|
    decreases t, |t.edges| - k
  {
    if k == |t.edges| then []
    else
      var e := t.edges[k];
      var here := current + [e.mark];
      (if e.child.stored then [Reverse(here)] else []) + Texts(e.child, 0, here) + Texts(t, k + 1, current)
  }

  ghost function EdgeCount(t: Trie, k: nat): nat
    requires k <= |t.edges|
    decreases t, |t.edges| - k
  {
    if k == |t.edges| then 0 else 1 + EdgeCount(t.edges[k].child, 0) + EdgeCount(t, k + 1)
  }

  /** Length of the longest path below the edges from `k` on. */
  ghost function Height(t: Trie, k: nat): nat
    requires k <= |t.edges|
    decreases t, |t.edges| - k
  {
    if k == |t.edges| then 0
    else
      var a, b := 1 + Height(t.edges[k].child, 0), Height(t, k + 1);
      if a < b then b else a
  }

  ghost predicate AllUtf8(texts: seq<seq<byte>>) {
    forall s: seq<byte> :: s in texts ==> Utf8.IsText(s)
  }

  /** `w` succeeds exactly when `fits` and all texts are valid, and then emits them
      in two steps per edge; with an error it takes fewer. */
  ghost predicate Delivers(w: TrieWalk, fits: bool, texts: seq<seq<byte>>, edges: nat) {
    && (w.error.None? <==> fits && AllUtf8(texts))
    && (w.error.None? ==> w.emitted == texts && w.steps == 2 * edges + 1)
    && (w.error.Some? ==> w.steps <= 2 * edges)
  }

  lemma {:induction false} DeliversFollow(text: seq<seq<byte>>, x: TrieWalk, y: TrieWalk, fx: bool, fy: bool,
                                          tx: seq<seq<byte>>, ty: seq<seq<byte>>, ex: nat, ey: nat)
    requires AllUtf8(text) && Delivers(x, fx, tx, ex) && Delivers(y, fy, ty, ey)
    ensures Delivers(Follow(TrieWalk(text, 1, None), Follow(x, y)), fx && fy, text + tx + ty, 1 + ex + ey)
  {
    hide Utf8.IsText;
    Utf8Concat(text, tx, ty);
    assert text + (tx + ty) == text + tx + ty;
  }

  /** The traversal succeeds exactly when the trie is shallow enough and every
      stored key is valid text; it then emits all texts in two steps per edge. */
  lemma {:induction false} TraverseResult(t: Trie, k: nat, current: seq<byte>, depth: nat)
    requires k <= |t.edges| && depth <= MAX_DOMAIN_SET_DEPTH
    ensures Delivers(Traverse(t, k, current, depth), depth + Height(t, k) <= MAX_DOMAIN_SET_DEPTH,
                     Texts(t, k, current), EdgeCount(t, k))
    decreases t, |t.edges| - k
  {
    if k < |t.edges| {
      hide Traverse, Texts, EdgeCount, Height, Utf8.Valid, Utf8.IsText, Reverse, Delivers, AllUtf8;
      var e := t.edges[k];
      var here := current + [e.mark];
      var text := if e.child.stored then [Reverse(here)] else [];
      var tx, ty := Texts(e.child, 0, here), Texts(t, k + 1, current);
      TraverseStep(t, k, current, depth);
      Utf8Concat(text, tx, ty);
      Utf8Single(Reverse(here));
      if (e.child.stored && !Utf8.Valid(Reverse(here))) || depth >= MAX_DOMAIN_SET_DEPTH {
        DeliversError(Traverse(t, k, current, depth), depth + Height(t, k) <= MAX_DOMAIN_SET_DEPTH,
                      Texts(t, k, current), EdgeCount(t, k));
      } else {
        TraverseResult(e.child, 0, here, depth + 1);
        TraverseResult(t, k + 1, current, depth);
        DeliversFollow(text, Traverse(e.child, 0, here, depth + 1), Traverse(t, k + 1, current, depth),
                       depth + 1 + Height(e.child, 0) <= MAX_DOMAIN_SET_DEPTH,
                       depth + Height(t, k + 1) <= MAX_DOMAIN_SET_DEPTH,
                       tx, ty, EdgeCount(e.child, 0), EdgeCount(t, k + 1));
      }
    }
  }

  lemma {:induction false} Utf8Single(s: seq<byte>)
    ensures AllUtf8([s]) <==> Utf8.Valid(s)
    ensures AllUtf8([])
  {
    hide Utf8.Valid, Utf8.IsText;
    assert s in [s];
    Utf8.ValidExact(s);
  }

  lemma {:induction false} DeliversError(w: TrieWalk, fits: bool, texts: seq<seq<byte>>, edges: nat)
    requires w.error.Some? && !(fits && AllUtf8(texts)) && w.steps <= 2 * edges
    ensures Delivers(w, fits, texts, edges)
  {
  }

  /** One edge of the traversal, spelled out. */
  lemma {:induction false} TraverseStep(t: Trie, k: nat, current: seq<byte>, depth: nat)
    requires k < |t.edges|
    ensures var e := t.edges[k];
            var here := current + [e.mark];
            var text := if e.child.stored then [Reverse(here)] else [];
            var a, b := 1 + Height(e.child, 0), Height(t, k + 1);
            && Texts(t, k, current) == text + Texts(e.child, 0, here) + Texts(t, k + 1, current)
            && EdgeCount(t, k) == 1 + EdgeCount(e.child, 0) + EdgeCount(t, k + 1)
            && Height(t, k) == (if a < b then b else a)
            && Traverse(t, k, current, depth) ==
               if e.child.stored && !Utf8.Valid(Reverse(here)) then TrieWalk([], 1, Some(NotUtf8))
               else if depth >= MAX_DOMAIN_SET_DEPTH then TrieWalk(text, 1, Some(DepthCap))
               else Follow(TrieWalk(text, 1, None),
                           Follow(Traverse(e.child, 0, here, depth + 1), Traverse(t, k + 1, current, depth)))
  {
  }

  lemma {:induction false} Utf8Concat(x: seq<seq<byte>>, a: seq<seq<byte>>, b: seq<seq<byte>>)
    ensures AllUtf8(x + a + b) <==> AllUtf8(x) && AllUtf8(a) && AllUtf8(b)
  {
    hide Utf8.IsText;
    assert forall s :: s in x ==> s in x + a + b;
    assert forall s :: s in a ==> s in x + a + b;
    assert forall s :: s in b ==> s in x + a + b;
  }

  // Which texts these are.

  /** `key` starts with an edge of `t` from index `k` on and leads to a stored end. */
  ghost predicate AcceptsFrom(t: Trie, k: nat, key: seq<byte>)
    requires key != []
  {
    exists j :: k <= j < |t.edges| && t.edges[j].mark == key[0] && Accepts(t.edges[j].child, key[1..])
  }

  ghost predicate Extends(t: Trie, k: nat, current: seq<byte>, key: seq<byte>) {
    |current| < |key| && key[..|current|] == current && AcceptsFrom(t, k, key[|current|..])
  }

  lemma {:induction false} ReverseTwice(s: seq<byte>)
    ensures Reverse(Reverse(s)) == s
  {
  }

  lemma {:induction false} ExtendsStep(t: Trie, k: nat, current: seq<byte>, key: seq<byte>)
    requires k < |t.edges|
    ensures var e := t.edges[k];
            var here := current + [e.mark];
            Extends(t, k, current, key) <==>
            (e.child.stored && key == here) || Extends(e.child, 0, here, key) || Extends(t, k + 1, current, key)
  {
    var e := t.edges[k];
    var here := current + [e.mark];
    if |current| < |key| && key[..|current|] == current {
      var rest := key[|current|..];
      assert rest[1..] == key[|here|..] && rest[0] == key[|current|];
      assert key[..|here|] == current + [rest[0]];
      assert AcceptsFrom(t, k, rest) <==>
             (e.mark == rest[0] && Accepts(e.child, rest[1..])) || AcceptsFrom(t, k + 1, rest);
      if |key| == |here| { assert key == current + [rest[0]]; }
    } else if |here| <= |key| {
      assert key[..|here|][..|current|] == key[..|current|];
    }
  }

  lemma {:induction false} TextsExact(t: Trie, k: nat, current: seq<byte>, s: seq<byte>)
    requires k <= |t.edges|
    ensures s in Texts(t, k, current) <==> Extends(t, k, current, Reverse(s))
    decreases t, |t.edges| - k
  {
    hide Reverse, Extends;
    ReverseTwice(s);
    if k == |t.edges| {
      NothingExtends(t, current, Reverse(s));
    } else {
      var e := t.edges[k];
      var here := current + [e.mark];
      ReverseTwice(here);
      TextsExact(e.child, 0, here, s);
      TextsExact(t, k + 1, current, s);
      ExtendsStep(t, k, current, Reverse(s));
    }
  }

  lemma {:induction false} NothingExtends(t: Trie, current: seq<byte>, key: seq<byte>)
    ensures !Extends(t, |t.edges|, current, key)
  {
  }

  /** Texts below different edges differ in the byte of the edge. */
  lemma {:induction false} TextsApart(t: Trie, k: nat, current: seq<byte>)
    requires k < |t.edges| && Deterministic(t)
    ensures var e := t.edges[k];
            var here := current + [e.mark];
            && Reverse(here) !in Texts(e.child, 0, here)
            && Reverse(here) !in Texts(t, k + 1, current)
            && forall s :: s in Texts(e.child, 0, here) ==> s !in Texts(t, k + 1, current)
  {
    hide Texts, Reverse;
    var e := t.edges[k];
    var here := current + [e.mark];
    ReverseTwice(here);
    TextsExact(e.child, 0, here, Reverse(here));
    TextsExact(t, k + 1, current, Reverse(here));
    assert here[|current|..][0] == e.mark;
    forall s | s in Texts(e.child, 0, here) ensures s !in Texts(t, k + 1, current) {
      TextsExact(e.child, 0, here, s);
      TextsExact(t, k + 1, current, s);
      var key := Reverse(s);
      assert key[|current|] == key[..|here|][|current|] == e.mark;
    }
  }

  lemma {:induction false} TextsDistinct(t: Trie, k: nat, current: seq<byte>)
    requires k <= |t.edges| && Deterministic(t)
    ensures NoDup(Texts(t, k, current))
    decreases t, |t.edges| - k
  {
    if k < |t.edges| {
      var e := t.edges[k];
      var here := current + [e.mark];
      TextsDistinct(e.child, 0, here);
      TextsDistinct(t, k + 1, current);
      TextsApart(t, k, current);
      var text := if e.child.stored then [Reverse(here)] else [];
      var a, b := Texts(e.child, 0, here), Texts(t, k + 1, current);
      assert Texts(t, k, current) == text + a + b;
      hide Texts, Reverse;
      NoDupConcat(text, a);
      NoDupConcat(text + a, b);
    }
  }

  /** `s` is the text of a stored non-empty key (keys are stored back to front). */
  ghost predicate StoredText(t: Trie, s: seq<byte>) {
    s != [] && Accepts(t, Reverse(s))
  }

  /** No path is too deep and every stored key is valid text. */
  ghost predicate Decodable(t: Trie) {
    Height(t, 0) < 4096 && forall s: seq<byte> :: StoredText(t, s) ==> Utf8.IsText(s)
  }

  /** Without a step cap, decoding the encoding of a trie succeeds exactly when no path is too deep and
      every stored key is valid text. It then emits the text of every stored
      non-empty key, once, and nothing else. */
  lemma {:induction false} DecodeEncoded(v: View, t: Trie)
    requires Encodes(v, t) && Deterministic(t)
    ensures var o := WalkFrom(v, 0, [], 1);
            && (o.error.None? <==> Decodable(t))
            && (o.error.None? ==> |o.trace| == 2 * EdgeCount(t, 0) + 1)
            && (o.error.Some? ==> |o.trace| <= 2 * EdgeCount(t, 0))
            && (o.error.None? ==> NoDup(o.emitted))
            && (o.error.None? ==> forall s: seq<byte> :: s in o.emitted <==> StoredText(t, s))
  {
    hide WalkFrom, Traverse, Bfs, Listing, Deterministic, NoDup, Texts, Utf8.IsText, Reverse, Accepts;
    var order := Bfs([t]);
    EncodesListing(v, t);
    OffsetOfRoot(order);
    WalkTraverses(v, order, 0, 0, [], 1);
    TraverseResult(t, 0, [], 1);
    TextsDistinct(t, 0, []);
    forall s: seq<byte> ensures s in Texts(t, 0, []) <==> StoredText(t, s) {
      TextsExact(t, 0, [], s);
      ExtendsNothing(t, Reverse(s));
      ReverseEmpty(s);
    }
    SameTextsValid(t, Texts(t, 0, []));
  }

  lemma {:induction false} SameTextsValid(t: Trie, texts: seq<seq<byte>>)
    requires forall s: seq<byte> :: s in texts <==> StoredText(t, s)
    ensures AllUtf8(texts) <==> forall s: seq<byte> :: StoredText(t, s) ==> Utf8.IsText(s)
  {
    hide Utf8.IsText;
    if AllUtf8(texts) {
      forall s: seq<byte> | StoredText(t, s) ensures Utf8.IsText(s) { assert s in texts; }
    } else {
      var s: seq<byte> :| s in texts && !Utf8.IsText(s);
      assert StoredText(t, s);
    }
  }

  lemma {:induction false} OffsetOfRoot(order: seq<Trie>)
    ensures Off(order, 0) == 0
  {
  }

  lemma {:induction false} ReverseEmpty(s: seq<byte>)
    ensures Reverse(s) == [] <==> s == []
  {
  }

  lemma {:induction false} ExtendsNothing(t: Trie, key: seq<byte>)
    ensures Extends(t, 0, [], key) <==> key != [] && Accepts(t, key)
  {
    assert key[0..] == key;
  }

  // Every trie has an encoding.

  function WordOf(bits: seq<bool>): (w: nat)
    ensures w < BitWords.Pow2(|bits|)
  {
    if bits == [] then 0 else (if bits[0] then 1 else 0) + 2 * WordOf(bits[1..])
  }

  lemma {:induction false} WordOfBit(bits: seq<bool>, i: nat)
    requires i < |bits|
    ensures BitWords.Bit(WordOf(bits), i) == bits[i]
  {
    var w := WordOf(bits[1..]);
    assert ((if bits[0] then 1 else 0) + 2 * w) / 2 == w;
    if i > 0 { WordOfBit(bits[1..], i - 1); }
  }

  function Pack(bits: seq<bool>): (words: seq<BitWords.Word>)
    ensures |words| * 64 >= |bits|
  {
    if bits == [] then []
    else
      var n := if |bits| < 64 then |bits| else 64;
      WordFits64(bits[..n]);
      [WordOf(bits[..n])] + Pack(bits[n..])
  }

  lemma {:induction false} WordFits64(bits: seq<bool>)
    requires |bits| <= 64
    ensures WordOf(bits) <= BitWords.MAX_WORD
  {
    BitWords.Pow2Strict(|bits|, 64);
    BitWords.Pow2Of64();
  }

  lemma {:induction false} PackBit(bits: seq<bool>, i: nat)
    requires i < |bits|
    ensures BitWords.Bit(Pack(bits)[i / 64], i % 64) == bits[i]
  {
    hide WordOf, BitWords.Bit;
    var n := if |bits| < 64 then |bits| else 64;
    if i < n {
      WordOfBit(bits[..n], i);
      assert i / 64 == 0 && i % 64 == i;
    } else {
      PackBit(bits[n..], i - n);
      assert (i - n) / 64 == i / 64 - 1 && (i - n) % 64 == i % 64;
    }
  }

  lemma {:induction false} PackPrefix(bits: seq<bool>)
    ensures bits <= Bits(Pack(bits))
  {
    forall i | 0 <= i < |bits| ensures Bits(Pack(bits))[i] == bits[i] {
      PackBit(bits, i);
    }
  }

  method EncodeTrie(t: Trie) returns (ds: DomainSet)
    ensures ValidSet(ds) && Encodes(ViewOf(ds), t) && |ds.labels| == Size(t) - 1
  {
    hide Bits, BitsTo, LabelsTo, Pack, Valid;
    var order := Bfs([t]);
    var leaves := NewRankBitmap(Pack(LeafFlags(order)));
    var bitmap := NewRankBitmap(Pack(BitsTo(order, |order|)));
    ds := DomainSet(leaves, bitmap, LabelsTo(order, |order|));
    PackPrefix(LeafFlags(order));
    PackPrefix(BitsTo(order, |order|));
    BfsFixpoint([t]);
    BitsPrefix(order, |order|, |order|);
    BfsLength([t]);
    assert QueueSize([t][1..]) == 0;
  }

  lemma {:induction false} BfsLength(q: seq<Trie>)
    ensures |Bfs(q)| == QueueSize(q)
    decreases QueueSize(q)
  {
    if q != [] {
      BfsStep(q);
      BfsLength(q[1..] + Kids(q[0]));
      QueueSizeConcat(q[1..], Kids(q[0]));
      KidsSize(q[0], 0);
      assert Kids(q[0])[0..] == Kids(q[0]);
    }
  }

  // The loop on encoded tries, with its step cap.

  lemma {:induction false} EdgesAndNodes(t: Trie, k: nat)
    requires k <= |t.edges|
    ensures EdgeCount(t, k) == SizeFrom(t, k)
    decreases t, |t.edges| - k
  {
    if k < |t.edges| {
      EdgesAndNodes(t.edges[k].child, 0);
      EdgesAndNodes(t, k + 1);
    }
  }

  lemma {:induction false} KidsCount(order: seq<Trie>, n: nat)
    requires n <= |order|
    ensures |KidsTo(order, n)| == Off(order, n)
  {
    if n > 0 { KidsCount(order, n - 1); }
  }

  /** Every edge has its label. */
  lemma {:induction false} EdgesLabelled(v: View, t: Trie)
    requires Encodes(v, t)
    ensures EdgeCount(t, 0) <= |v.labels|
  {
    hide Bfs, BitsTo, LabelsTo, Off, KidsTo, EdgeCount, SizeFrom, QueueSize;
    var order := Bfs([t]);
    BfsFixpoint([t]);
    BfsLength([t]);
    KidsCount(order, |order|);
    EdgesAndNodes(t, 0);
    SingleQueue(t);
  }

  lemma {:induction false} SingleQueue(t: Trie)
    ensures QueueSize([t]) == 1 + SizeFrom(t, 0)
  {
    assert QueueSize([t][1..]) == 0;
  }

  /** Decoding a stored set: it succeeds exactly when no path is too deep, every stored key
      is valid text and there are fewer edges than the largest label array has bytes. It
      then emits the text of every stored non-empty key, once, and nothing else. */
  method DecodeDomains(ds: DomainSet, ghost t: Trie) returns (emitted: seq<seq<byte>>, error: Option<WalkError>)
    requires ValidSet(ds) && Encodes(ViewOf(ds), t) && Deterministic(t)
    ensures error.None? <==> Decodable(t) && EdgeCount(t, 0) < MAX_ARRAY_BYTES
    ensures error.None? ==> NoDup(emitted)
    ensures error.None? ==> forall s: seq<byte> :: s in emitted <==> StoredText(t, s)
    ensures |ds.labels| <= MAX_ARRAY_BYTES ==>
              (error == Some(StepCap) <==> Decodable(t) && EdgeCount(t, 0) == MAX_ARRAY_BYTES)
  {
    hide WalkFrom, Encodes, ValidSet, Deterministic, Decodable, EdgeCount, NoDup, StoredText;
    DecodeEncoded(ViewOf(ds), t);
    EdgesLabelled(ViewOf(ds), t);
    WalkBounded(ViewOf(ds));
    emitted, error := ForEachDomain(ds);
  }

  // A set that is decodable but for the step cap.

  /** All keys over two letters of at most `n` letters. */
  function Binary(n: nat): Trie {
    if n == 0 then Node(true, [])
    else Node(true, [Edge(0x61, Binary(n - 1)), Edge(0x62, Binary(n - 1))])
  }

  /** The same with two more one-letter keys. */
  function BinaryPlus(n: nat): Trie {
    Node(true, [Edge(0x61, Binary(n)), Edge(0x62, Binary(n)), Edge(0x63, Node(true, [])), Edge(0x64, Node(true, []))])
  }

  ghost predicate AsciiTrie(t: Trie) {
    forall k :: 0 <= k < |t.edges| ==> t.edges[k].mark < 0x80 && AsciiTrie(t.edges[k].child)
  }

  lemma {:induction false} LeafShape(t: Trie)
    requires t.edges == []
    ensures EdgeCount(t, 0) == 0 && Height(t, 0) == 0 && Deterministic(t) && AsciiTrie(t)
  {
  }

  lemma {:induction false} EdgeStep(t: Trie, k: nat)
    requires k < |t.edges|
    ensures EdgeCount(t, k) == 1 + EdgeCount(t.edges[k].child, 0) + EdgeCount(t, k + 1)
    ensures Height(t, k) <= MaxNat(1 + Height(t.edges[k].child, 0), Height(t, k + 1))
  {
  }

  lemma {:induction false} EdgeEnd(t: Trie)
    ensures EdgeCount(t, |t.edges|) == 0 && Height(t, |t.edges|) == 0
  {
  }

  lemma {:induction false} BinaryShape(n: nat)
    ensures var t := Binary(n);
            EdgeCount(t, 0) + 2 == BitWords.Pow2(n + 1) && Height(t, 0) <= n && Deterministic(t) && AsciiTrie(t)
    decreases n
  {
    hide EdgeCount, Height;
    var t := Binary(n);
    if n == 0 { LeafShape(t); } else {
      BinaryShape(n - 1);
      EdgeStep(t, 0);
      EdgeStep(t, 1);
      EdgeEnd(t);
    }
  }

  lemma {:induction false} BinaryPlusShape(n: nat)
    ensures var t := BinaryPlus(n);
            EdgeCount(t, 0) == BitWords.Pow2(n + 2) && Height(t, 0) <= n + 1 && Deterministic(t) && AsciiTrie(t)
  {
    hide EdgeCount, Height, Binary;
    var t := BinaryPlus(n);
    BinaryShape(n);
    LeafShape(Node(true, []));
    EdgeStep(t, 0);
    EdgeStep(t, 1);
    EdgeStep(t, 2);
    EdgeStep(t, 3);
    EdgeEnd(t);
  }

  lemma {:induction false} AsciiKey(t: Trie, key: seq<byte>, i: nat)
    requires AsciiTrie(t) && Accepts(t, key) && i < |key|
    ensures key[i] < 0x80
    decreases key
  {
    var k :| 0 <= k < |t.edges| && t.edges[k].mark == key[0] && Accepts(t.edges[k].child, key[1..]);
    if i > 0 { AsciiKey(t.edges[k].child, key[1..], i - 1); }
  }

  lemma {:induction false} AsciiValid(s: seq<byte>)
    requires forall i :: 0 <= i < |s| ==> s[i] < 0x80
    ensures Utf8.Valid(s) && Utf8.IsText(s)
    decreases |s|
  {
    if s != [] { AsciiValid(s[1..]); }
    Utf8.ValidExact(s);
  }

  lemma {:induction false} AsciiDecodable(t: Trie)
    requires AsciiTrie(t) && Height(t, 0) < MAX_DOMAIN_SET_DEPTH
    ensures Decodable(t)
  {
    hide AsciiTrie, Accepts, Utf8.Valid, Utf8.IsText, Height;
    forall s: seq<byte> | StoredText(t, s) ensures Utf8.IsText(s) {
      var key := Reverse(s);
      forall i | 0 <= i < |s| ensures s[i] < 0x80 {
        AsciiKey(t, key, |s| - 1 - i);
        assert key[|s| - 1 - i] == s[i];
      }
      AsciiValid(s);
    }
  }

  lemma {:induction false} LargestLabels()
    ensures BitWords.Pow2(28) == MAX_ARRAY_BYTES
  {
    assert BitWords.Pow2(10) == 0x400 by { assert BitWords.Pow2(5) == 0x20; }
    BitWords.Pow2Sum(10, 10);
    BitWords.Pow2Sum(20, 8);
    assert BitWords.Pow2(8) == 0x100 by { assert BitWords.Pow2(4) == 0x10; }
  }

  /** A decodable trie of ASCII keys with as many edges as the largest label array the
      reader accepts has bytes is rejected for taking one step too many. */
  method StepCapWitness() returns (t: Trie, ds: DomainSet, error: Option<WalkError>)
    ensures ValidSet(ds) && Encodes(ViewOf(ds), t) && |ds.labels| == MAX_ARRAY_BYTES
    ensures Deterministic(t) && Decodable(t) && error == Some(StepCap)
  {
    hide BinaryPlus, WalkFrom, Encodes, ValidSet, SizeFrom, EdgeCount, Height, Deterministic, AsciiTrie, Decodable;
    t := BinaryPlus(26);
    BinaryPlusShape(26);
    LargestLabels();
    AsciiDecodable(t);
    EdgesAndNodes(t, 0);
    ds := EncodeTrie(t);
    var emitted;
    emitted, error := DecodeDomains(ds, t);
  }
}
