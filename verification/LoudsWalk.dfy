/** The explicit-stack walk of `DomainSet::for_each_domain` (`src/mrs.rs`) over
    arbitrary arrays: it agrees with a plain recursion over bit positions, reads
    every bit at most once and takes at most two steps per label and one more. */
module LoudsWalk {
  import opened Prelude
  import opened RankSelect
  import Utf8

  const MAX_DOMAIN_SET_STEPS: nat := 512 * 1024 * 1024
  const MAX_DOMAIN_SET_DEPTH: nat := 4096
  const MAX_ARRAY_BYTES: nat := 256 * 1024 * 1024

  datatype DomainSet = DomainSet(leaves: RankBitmap, labelBitmap: RankBitmap, labels: seq<byte>)

  ghost predicate ValidSet(ds: DomainSet) {
    Valid(ds.leaves) && Valid(ds.labelBitmap)
  }

  datatype WalkError =
    | StepCap
    | BitmapRange
    | LabelUnderflow
    | LabelRange
    | RankRange
    | SelectFailed
    | LeafRange
    | NotUtf8
    | DepthCap

  /** The three arrays as plain sequences. */
  datatype View = View(bits: seq<bool>, leaf: seq<bool>, labels: seq<byte>)

  function ViewOf(ds: DomainSet): View {
    View(Bits(ds.labelBitmap.words), Bits(ds.leaves.words), ds.labels)
  }

  /** What a walk emits, the bit positions it reads in order, and how it ends. */
  datatype Outcome = Outcome(emitted: seq<seq<byte>>, trace: seq<nat>, error: Option<WalkError>)

  function Then(a: Outcome, b: Outcome): Outcome {
    if a.error.Some? then a else Outcome(a.emitted + b.emitted, a.trace + b.trace, b.error)
  }

  lemma {:induction false} ThenAssoc(a: Outcome, b: Outcome, c: Outcome)
    ensures Then(Then(a, b), c) == Then(a, Then(b, c))
  {
    assert a.emitted + b.emitted + c.emitted == a.emitted + (b.emitted + c.emitted);
    assert a.trace + b.trace + c.trace == a.trace + (b.trace + c.trace);
  }

  function Reverse(s: seq<byte>): (r: seq<byte>)
    ensures |r| == |s|
    ensures forall i :: 0 <= i < |s| ==> r[i] == s[|s| - 1 - i]
  {
    if s == [] then [] else Reverse(s[1..]) + [s[0]]
  }

  /** Position of the set bit of rank `k` among the first `n` bits. */
  function FindOne(bits: seq<bool>, k: nat, n: nat): (r: Option<nat>)
    requires n <= |bits|
    ensures r.Some? ==> r.value < n && bits[r.value] && Ones(bits, r.value) == k
    ensures r.None? ==> k >= Ones(bits, n)
  {
    if n == 0 then None
    else if bits[n - 1] && Ones(bits, n - 1) == k then Some(n - 1)
    else FindOne(bits, k, n - 1)
  }

  lemma {:induction false} SelectIsFindOne(b: RankBitmap, k: nat)
    requires Valid(b)
    ensures Select1(b, k) == FindOne(Bits(b.words), k, TotalBits(b))
  {
    Select1None(b, k);
    var r := FindOne(Bits(b.words), k, TotalBits(b));
    if r.Some? { Select1Correct(b, k, r.value); }
  }

  /** A position the walk may stand at: no fewer clear than set bits precede it. */
  predicate Ahead(bits: seq<bool>, p: nat) {
    p <= |bits| && Ones(bits, p) <= Zeros(bits, p)
  }

  /** The child of a clear bit starts strictly after it, at a position the walk
      may stand at again. */
  lemma {:induction false} ChildAhead(bits: seq<bool>, p: nat, q: nat)
    requires p < |bits| && Ahead(bits, p) && !bits[p]
    requires q < |bits| && bits[q] && Ones(bits, q) == Zeros(bits, p)
    ensures p < q && Ahead(bits, q + 1)
    ensures Ones(bits, q + 1) == Zeros(bits, p) + 1 > Ones(bits, p)
  {
    if q < p {
      OnesMonotone(bits, q + 1, p);
    } else {
      OnesMonotone(bits, p + 1, q);
    }
  }

  /** What one step at bit position `p` finds: the walk of this node ends here, or
      it goes down into `node`, which starts after bit `q`. */
  datatype Look = Stop(end: Outcome) | Down(emitted: seq<seq<byte>>, node: nat, q: nat, here: seq<byte>)

  function LookAt(v: View, p: nat, current: seq<byte>, depth: nat): (r: Look)
    requires Ahead(v.bits, p)
    ensures r.Down? ==> p < r.q < |v.bits| && Labelled(v, p) && v.bits[r.q]
    ensures r.Down? ==> Ones(v.bits, r.q) == Zeros(v.bits, p) && Ahead(v.bits, r.q + 1) && Ahead(v.bits, p + 1)
    ensures r.Down? ==> r.node == Zeros(v.bits, p) + 1 > Ones(v.bits, p)
    ensures r.Down? ==> r.here == current + [v.labels[Zeros(v.bits, p)]]
    ensures r.Stop? ==> r.end.trace == [p]
    ensures r.Stop? ==> r.end.error !in {Some(LabelUnderflow), Some(RankRange), Some(StepCap)}
  {
    if p >= |v.bits| then Stop(Outcome([], [p], Some(BitmapRange)))
    else if v.bits[p] then Stop(Outcome([], [p], None))
    else
      var labelIdx := Zeros(v.bits, p);
      if labelIdx >= |v.labels| then Stop(Outcome([], [p], Some(LabelRange)))
      else
        var here := current + [v.labels[labelIdx]];
        match FindOne(v.bits, labelIdx, |v.bits|)
        case None => Stop(Outcome([], [p], Some(SelectFailed)))
        case Some(q) =>
          ChildAhead(v.bits, p, q);
          var child := labelIdx + 1;
          if child >= |v.leaf| then Stop(Outcome([], [p], Some(LeafRange)))
          else if v.leaf[child] && !Utf8.Valid(Reverse(here)) then Stop(Outcome([], [p], Some(NotUtf8)))
          else
            var emitted := if v.leaf[child] then [Reverse(here)] else [];
            if depth >= MAX_DOMAIN_SET_DEPTH then Stop(Outcome(emitted, [p], Some(DepthCap)))
            else Down(emitted, child, q, here)
  }

  /** The walk as a recursion over bit positions; `depth` is the stack height. */
  function WalkFrom(v: View, p: nat, current: seq<byte>, depth: nat): Outcome
    requires Ahead(v.bits, p)
    decreases |v.bits| - p
  {
    match LookAt(v, p, current, depth)
    case Stop(o) => o
    case Down(emitted, _, q, here) =>
      Then(Outcome(emitted, [p], None),
           Then(WalkFrom(v, q + 1, here, depth + 1), WalkFrom(v, p + 1, current, depth)))
  }

  // The explicit stack.

  datatype Frame = Frame(nodeId: nat, bmIdx: nat, restoreLen: nat)

  /** The stack and the byte buffer agree: node ids grow towards the top and count
      the set bits behind each frame, and the buffer holds one byte per edge. */
  ghost predicate StackOk(v: View, stack: seq<Frame>, current: seq<byte>) {
    && (forall i :: 0 <= i < |stack| ==>
          Ahead(v.bits, stack[i].bmIdx) && stack[i].nodeId == Ones(v.bits, stack[i].bmIdx))
    && (forall i :: 0 <= i < |stack| - 1 ==> stack[i].nodeId < stack[i + 1].nodeId)
    && (forall i :: 0 <= i < |stack| ==> stack[i].restoreLen == if i == 0 then 0 else i - 1)
    && (stack != [] ==> |current| == |stack| - 1)
  }

  /** Finish a stack of pending walks, topmost first. */
  ghost function Rest(pending: seq<Outcome>): Outcome {
    if pending == [] then Outcome([], [], None)
    else Then(pending[|pending| - 1], Rest(pending[..|pending| - 1]))
  }

  /** What each frame still has to do, by the recursion. */
  ghost predicate PendingOk(v: View, stack: seq<Frame>, current: seq<byte>, pending: seq<Outcome>)
    requires StackOk(v, stack, current)
  {
    && |pending| == |stack|
    && forall i :: 0 <= i < |stack| ==> pending[i] == WalkFrom(v, stack[i].bmIdx, current[..i], i + 1)
  }

  /** Splitting the topmost walk into a first step, a subtree and the remainder. */
  lemma {:induction false} RestSplit(below: seq<Outcome>, step: Outcome, child: Outcome, next: Outcome)
    ensures Rest(below + [Then(step, Then(child, next))]) == Then(step, Rest(below + [next, child]))
  {
    var tail := Rest(below);
    assert (below + [next, child])[..|below| + 1] == below + [next];
    assert (below + [next])[..|below|] == below;
    assert (below + [Then(step, Then(child, next))])[..|below|] == below;
    assert Rest(below + [next]) == Then(next, tail);
    ThenAssoc(step, Then(child, next), tail);
    ThenAssoc(child, next, tail);
  }

  ghost function Pushed(v: View, stack: seq<Frame>, current: seq<byte>, look: Look): seq<Frame>
    requires stack != [] && look.Down? && stack[|stack| - 1].bmIdx <= |v.bits|
  {
    var top := stack[|stack| - 1];
    stack[|stack| - 1 := top.(bmIdx := top.bmIdx + 1)]
      + [Frame(look.node, look.q + 1, |current|)]
  }

  lemma {:induction false} PushKeepsStack(v: View, stack: seq<Frame>, current: seq<byte>, look: Look)
    requires stack != [] && StackOk(v, stack, current)
    requires look == LookAt(v, stack[|stack| - 1].bmIdx, current, |stack|) && look.Down?
    ensures StackOk(v, Pushed(v, stack, current, look), look.here)
  {
    ChildAhead(v.bits, stack[|stack| - 1].bmIdx, look.q);
  }

  lemma {:induction false} WalkDown(v: View, p: nat, current: seq<byte>, depth: nat)
    requires Ahead(v.bits, p) && LookAt(v, p, current, depth).Down?
    ensures var look := LookAt(v, p, current, depth);
            WalkFrom(v, p, current, depth) ==
            Then(Outcome(look.emitted, [p], None),
                 Then(WalkFrom(v, look.q + 1, look.here, depth + 1), WalkFrom(v, p + 1, current, depth)))
  {
  }

  /** Going down by pushing a child frame leaves the rest of the work unchanged. */
  lemma {:induction false} PushKeepsRest(v: View, stack: seq<Frame>, current: seq<byte>, look: Look,
                                         pending: seq<Outcome>)
    returns (pending': seq<Outcome>)
    requires stack != [] && StackOk(v, stack, current) && PendingOk(v, stack, current, pending)
    requires look == LookAt(v, stack[|stack| - 1].bmIdx, current, |stack|) && look.Down?
    ensures StackOk(v, Pushed(v, stack, current, look), look.here)
    ensures PendingOk(v, Pushed(v, stack, current, look), look.here, pending')
    ensures Rest(pending) == Then(Outcome(look.emitted, [stack[|stack| - 1].bmIdx], None), Rest(pending'))
  {
    hide WalkFrom, LookAt, Ones, Zeros;
    PushKeepsStack(v, stack, current, look);
    var n := |stack|;
    var p := stack[n - 1].bmIdx;
    assert current[..n - 1] == current;
    var child := WalkFrom(v, look.q + 1, look.here, n + 1);
    var next := WalkFrom(v, p + 1, current, n);
    var below := pending[..n - 1];
    pending' := below + [next, child];
    WalkDown(v, p, current, n);
    assert pending == below + [Then(Outcome(look.emitted, [p], None), Then(child, next))];
    RestSplit(below, Outcome(look.emitted, [p], None), child, next);
    forall i | 0 <= i <= n
      ensures pending'[i] == WalkFrom(v, Pushed(v, stack, current, look)[i].bmIdx, look.here[..i], i + 1)
    {
      assert i < n ==> look.here[..i] == current[..i];
      assert i == n ==> look.here[..i] == look.here;
    }
  }

  lemma {:induction false} WalkStop(v: View, p: nat, current: seq<byte>, depth: nat)
    requires Ahead(v.bits, p) && LookAt(v, p, current, depth).Stop?
    ensures WalkFrom(v, p, current, depth) == LookAt(v, p, current, depth).end
  {
  }

  /** Where the topmost walk stops, an error ends everything and a set bit pops the frame. */
  lemma {:induction false} StopStep(v: View, stack: seq<Frame>, current: seq<byte>, pending: seq<Outcome>,
                                    done: Outcome)
    requires stack != [] && StackOk(v, stack, current) && PendingOk(v, stack, current, pending)
    requires done.error == None
    requires var look := LookAt(v, stack[|stack| - 1].bmIdx, current, |stack|);
             look.Stop?
    ensures var n := |stack|;
            var end := LookAt(v, stack[n - 1].bmIdx, current, n).end;
            var popped := current[..stack[n - 1].restoreLen];
            && Then(done, Rest(pending)) == Then(Then(done, end), Rest(pending[..n - 1]))
            && (end.error.Some? ==> Then(done, Rest(pending)) == Then(done, end))
            && |Rest(pending).trace| >= 1
            && (end.error.None? ==> |Rest(pending[..n - 1]).trace| < |Rest(pending).trace|)
            && StackOk(v, stack[..n - 1], popped)
            && PendingOk(v, stack[..n - 1], popped, pending[..n - 1])
  {
    hide WalkFrom, LookAt, Ones, Zeros;
    var n := |stack|;
    assert current[..n - 1] == current;
    WalkStop(v, stack[n - 1].bmIdx, current, n);
    ThenAssoc(done, pending[n - 1], Rest(pending[..n - 1]));
    var popped := current[..stack[n - 1].restoreLen];
    forall i | 0 <= i < n - 1
      ensures pending[i] == WalkFrom(v, stack[i].bmIdx, popped[..i], i + 1)
    {
      assert popped[..i] == current[..i];
    }
  }

  lemma {:induction false} ClearBitStep(bits: seq<bool>, p: nat)
    requires p < |bits| && !bits[p]
    ensures Ones(bits, p + 1) == Ones(bits, p) && Zeros(bits, p + 1) == Zeros(bits, p) + 1
  {
  }

  lemma {:induction false} ThenLonger(done: Outcome, rest: Outcome)
    requires done.error.None?
    ensures |Then(done, rest).trace| == |done.trace| + |rest.trace|
    ensures done.emitted <= Then(done, rest).emitted
  {
  }

  /** The body of one step of the loop: read the bit, look up the label, the child
      node and its leaf flag. */
  method ReadStep(ds: DomainSet, bmIdx: nat, nodeId: nat, current: seq<byte>, depth: nat) returns (look: Look)
    requires ValidSet(ds)
    requires Ahead(ViewOf(ds).bits, bmIdx) && nodeId == Ones(ViewOf(ds).bits, bmIdx)
    ensures look == LookAt(ViewOf(ds), bmIdx, current, depth)
  {
    hide Ones, Reverse, Utf8.Valid, Select1, Rank0, FindOne;
    ghost var v := ViewOf(ds);
    var bit := Get(ds.labelBitmap, bmIdx);
    if bit.None? { return Stop(Outcome([], [bmIdx], Some(BitmapRange))); }
    if bit.value { return Stop(Outcome([], [bmIdx], None)); }
    if bmIdx < nodeId { return Stop(Outcome([], [bmIdx], Some(LabelUnderflow))); }
    var labelIdx := bmIdx - nodeId;
    if labelIdx >= |ds.labels| { return Stop(Outcome([], [bmIdx], Some(LabelRange))); }
    var here := current + [ds.labels[labelIdx]];
    Rank0Correct(ds.labelBitmap, bmIdx + 1);
    ClearBitStep(v.bits, bmIdx);
    var rank := Rank0(ds.labelBitmap, bmIdx + 1);
    if rank.None? { return Stop(Outcome([], [bmIdx], Some(RankRange))); }
    var nextNode := rank.value;
    SelectIsFindOne(ds.labelBitmap, labelIdx);
    var sel := if nextNode < 1 then None else Select1(ds.labelBitmap, nextNode - 1);
    if sel.None? { return Stop(Outcome([], [bmIdx], Some(SelectFailed))); }
    var leaf := Get(ds.leaves, nextNode);
    if leaf.None? { return Stop(Outcome([], [bmIdx], Some(LeafRange))); }
    var emitted := [];
    if leaf.value {
      var text := Reverse(here);
      if !Utf8.Valid(text) { return Stop(Outcome([], [bmIdx], Some(NotUtf8))); }
      emitted := [text];
    }
    if depth >= MAX_DOMAIN_SET_DEPTH { return Stop(Outcome(emitted, [bmIdx], Some(DepthCap))); }
    look := Down(emitted, nextNode, sel.value, here);
  }

  method ForEachDomain(ds: DomainSet) returns (emitted: seq<seq<byte>>, error: Option<WalkError>)
    requires ValidSet(ds)
    ensures var o := WalkFrom(ViewOf(ds), 0, [], 1);
            if |o.trace| <= MAX_DOMAIN_SET_STEPS then emitted == o.emitted && error == o.error
            else emitted <= o.emitted && error == Some(StepCap)
    ensures error == Some(StepCap) ==> 2 * |ds.labels| + 1 > MAX_DOMAIN_SET_STEPS
    ensures error != Some(LabelUnderflow) && error != Some(RankRange)
  {
    hide WalkFrom, Rest, Ones, LookAt, PendingOk, StackOk, NoDup, Then;
    ghost var v := ViewOf(ds);
    ghost var whole := WalkFrom(v, 0, [], 1);
    WalkBounded(v);
    emitted, error := [], None;
    var current: seq<byte> := [];
    var stack := [Frame(0, 0, 0)];
    var steps := 0;
    ghost var trace: seq<nat> := [];
    ghost var pending := [whole];
    InitialStack(v);
    while stack != []
      invariant StackOk(v, stack, current) && PendingOk(v, stack, current, pending)
      invariant |pending| == |stack|
      invariant steps == |trace| <= MAX_DOMAIN_SET_STEPS
      invariant whole == Then(Outcome(emitted, trace, None), Rest(pending))
      decreases |Rest(pending).trace|
    {
      var n := |stack|;
      var top := stack[n - 1];
      TopOfStack(v, stack, current);
      ghost var done := Outcome(emitted, trace, None);
      ThenLonger(done, Rest(pending));
      steps := steps + 1;
      if steps > MAX_DOMAIN_SET_STEPS {
        NonEmptyRest(v, stack, current, pending);
        return emitted, Some(StepCap);
      }
      var look := ReadStep(ds, top.bmIdx, top.nodeId, current, n);
      match look {
      case Stop(end) =>
        StopStep(v, stack, current, pending, done);
        ThenValue(done, end);
        emitted := emitted + end.emitted;
        if end.error.Some? { return emitted, end.error; }
        current := current[..top.restoreLen];
        stack := stack[..n - 1];
        pending := pending[..n - 1];
      case Down(text, node, q, here) =>
        ghost var step := Outcome(text, [top.bmIdx], None);
        pending := PushKeepsRest(v, stack, current, look, pending);
        stack := stack[n - 1 := top.(bmIdx := top.bmIdx + 1)]
          + [Frame(node, q + 1, |current|)];
        current := here;
        emitted := emitted + text;
        ThenAssoc(done, step, Rest(pending));
        ThenValue(done, step);
        ThenLonger(step, Rest(pending));
        PendingLength(v, stack, current, pending);
      }
      trace := trace + [top.bmIdx];
    }
    assert Rest(pending) == Outcome([], [], None) by { RestOfNothing(); }
    ThenValue(Outcome(emitted, trace, None), Rest(pending));
  }

  lemma {:induction false} RestOfNothing()
    ensures Rest([]) == Outcome([], [], None)
  {
  }

  lemma {:induction false} TopOfStack(v: View, stack: seq<Frame>, current: seq<byte>)
    requires stack != [] && StackOk(v, stack, current)
    ensures var top := stack[|stack| - 1];
            && Ahead(v.bits, top.bmIdx) && top.nodeId == Ones(v.bits, top.bmIdx)
            && top.restoreLen <= |current| == |stack| - 1
  {
  }

  lemma {:induction false} PendingLength(v: View, stack: seq<Frame>, current: seq<byte>, pending: seq<Outcome>)
    requires StackOk(v, stack, current) && PendingOk(v, stack, current, pending)
    ensures |pending| == |stack|
  {
  }

  lemma {:induction false} ThenValue(a: Outcome, b: Outcome)
    requires a.error.None?
    ensures Then(a, b) == Outcome(a.emitted + b.emitted, a.trace + b.trace, b.error)
  {
  }

  lemma {:induction false} InitialStack(v: View)
    ensures StackOk(v, [Frame(0, 0, 0)], [])
    ensures PendingOk(v, [Frame(0, 0, 0)], [], [WalkFrom(v, 0, [], 1)])
    ensures WalkFrom(v, 0, [], 1) == Then(Outcome([], [], None), Rest([WalkFrom(v, 0, [], 1)]))
  {
    hide WalkFrom;
    assert Rest([WalkFrom(v, 0, [], 1)][..0]) == Outcome([], [], None);
  }

  lemma {:induction false} NonEmptyRest(v: View, stack: seq<Frame>, current: seq<byte>, pending: seq<Outcome>)
    requires stack != [] && StackOk(v, stack, current) && PendingOk(v, stack, current, pending)
    ensures |Rest(pending).trace| >= 1
  {
  }

  // No bit is read twice.

  /** Climb from position `z` towards the root; the ancestor owned by `node`, if any. */
  ghost function AncestorAt(bits: seq<bool>, z: nat, node: nat): (r: Option<nat>)
    requires z <= |bits|
    ensures r.Some? ==> r.value <= |bits| && Ones(bits, r.value) == node
    decreases z
  {
    if Ones(bits, z) == node then Some(z)
    else if Ones(bits, z) < node || Ones(bits, z) > Zeros(bits, z) then None
    else AncestorAt(bits, Parent(bits, z), node)
  }

  /** The clear bit that leads to the node owning position `z`. */
  ghost function Parent(bits: seq<bool>, z: nat): (p: nat)
    requires z <= |bits| && 0 < Ones(bits, z) <= Zeros(bits, z)
    ensures p < z && !bits[p] && Zeros(bits, p) == Ones(bits, z) - 1
  {
    ParentExists(bits, z);
    var p: nat :| p < z && !bits[p] && Zeros(bits, p) == Ones(bits, z) - 1;
    p
  }

  lemma {:induction false} ParentExists(bits: seq<bool>, z: nat)
    requires z <= |bits| && 0 < Ones(bits, z) <= Zeros(bits, z)
    ensures exists p: nat :: p < z && !bits[p] && Zeros(bits, p) == Ones(bits, z) - 1
  {
    var p := ZeroOfRank(bits, Ones(bits, z) - 1, z);
  }

  /** The climb to a smaller node passes through every ancestor on the way. */
  lemma {:induction false} ClimbThrough(bits: seq<bool>, z: nat, node: nat, lower: nat)
    requires z <= |bits| && lower < node && AncestorAt(bits, z, node).Some?
    ensures AncestorAt(bits, z, lower) == AncestorAt(bits, AncestorAt(bits, z, node).value, lower)
    decreases z
  {
    if Ones(bits, z) != node { ClimbThrough(bits, Parent(bits, z), node, lower); }
  }

  /** Everything read below the child of `p` climbs to `p` itself. */
  lemma {:induction false} ClimbToParent(bits: seq<bool>, p: nat, q: nat, z: nat)
    requires p < |bits| && Ahead(bits, p) && !bits[p]
    requires q < |bits| && bits[q] && Ones(bits, q) == Zeros(bits, p)
    requires z <= |bits|
    requires var a := AncestorAt(bits, z, Zeros(bits, p) + 1); a.Some? && a.value > q
    ensures AncestorAt(bits, z, Ones(bits, p)) == Some(p)
  {
    ChildAhead(bits, p, q);
    var a := AncestorAt(bits, z, Zeros(bits, p) + 1).value;
    ClimbThrough(bits, z, Zeros(bits, p) + 1, Ones(bits, p));
    OnesMonotone(bits, q + 1, a);
    ZerosInjective(bits, Parent(bits, a), p);
  }

  /** Position `z` lies at or after `p` and climbs back into the part of `p`'s
      node at or after `p`. */
  ghost predicate Owned(bits: seq<bool>, p: nat, z: nat)
    requires p <= |bits|
  {
    p <= z <= |bits| && var a := AncestorAt(bits, z, Ones(bits, p)); a.Some? && p <= a.value
  }

  ghost predicate AllOwned(bits: seq<bool>, p: nat, trace: seq<nat>)
    requires p <= |bits|
  {
    forall z :: z in trace ==> Owned(bits, p, z)
  }

  ghost predicate NoDup<T>(s: seq<T>) {
    forall i, j :: 0 <= i < j < |s| ==> s[i] != s[j]
  }

  lemma {:induction false} NoDupConcat<T>(a: seq<T>, b: seq<T>)
    requires NoDup(a) && NoDup(b) && forall x :: x in a ==> x !in b
    ensures NoDup(a + b)
  {
    forall i, j | 0 <= i < j < |a + b| ensures (a + b)[i] != (a + b)[j] {
      if i < |a| <= j { assert a[i] in a && b[j - |a|] in b; }
    }
  }

  // At most two steps per label.

  /** A clear bit that has a label. */
  predicate Labelled(v: View, z: nat) {
    z < |v.bits| && !v.bits[z] && Zeros(v.bits, z) < |v.labels|
  }

  ghost function LabelledIn(v: View, trace: seq<nat>): set<nat> {
    set z | z in trace && Labelled(v, z)
  }

  ghost function LabelledBelow(v: View, n: nat): set<nat>
    requires n <= |v.bits|
  {
    set z | 0 <= z < n && Labelled(v, z)
  }

  lemma {:induction false} LabelledCount(v: View, n: nat)
    requires n <= |v.bits|
    ensures |LabelledBelow(v, n)| <= Zeros(v.bits, n)
    ensures |LabelledBelow(v, n)| <= |v.labels|
  {
    if n == 0 {
      assert LabelledBelow(v, 0) == {};
    } else {
      LabelledCount(v, n - 1);
      if Labelled(v, n - 1) {
        assert LabelledBelow(v, n) == LabelledBelow(v, n - 1) + {n - 1};
      } else {
        assert LabelledBelow(v, n) == LabelledBelow(v, n - 1);
      }
    }
  }

  lemma {:induction false} SubsetCard<T>(a: set<T>, b: set<T>)
    requires a <= b
    ensures |a| <= |b|
  {
    assert b == a + (b - a);
  }

  /** What holds of the trace of every walk from `p`. */
  ghost predicate Disciplined(v: View, p: nat, trace: seq<nat>)
    requires p <= |v.bits|
  {
    && AllOwned(v.bits, p, trace)
    && NoDup(trace)
    && |trace| <= 2 * |LabelledIn(v, trace)| + 1
  }

  /** The subtree below a clear bit and the bits after it are read disjointly. */
  lemma {:induction false} SubtreesDisjoint(bits: seq<bool>, p: nat, q: nat, a: seq<nat>, b: seq<nat>)
    requires p < q < |bits| && Ahead(bits, p) && !bits[p] && bits[q] && Ones(bits, q) == Zeros(bits, p)
    requires AllOwned(bits, q + 1, a) && AllOwned(bits, p + 1, b)
    ensures p !in a && p !in b && forall z :: z in a ==> z !in b
    ensures AllOwned(bits, p, [p] + a) && AllOwned(bits, p, [p] + (a + b))
  {
    ChildAhead(bits, p, q);
    forall z | z in a ensures z !in b && Owned(bits, p, z) {
      assert Owned(bits, q + 1, z);
      ClimbToParent(bits, p, q, z);
    }
    forall z | z in [p] + (a + b) ensures Owned(bits, p, z) {
      if z in b { assert Owned(bits, p + 1, z); }
    }
  }

  lemma {:induction false} CombineDisciplined(v: View, p: nat, q: nat, a: seq<nat>, b: seq<nat>)
    requires p < q < |v.bits| && Ahead(v.bits, p) && Labelled(v, p)
    requires v.bits[q] && Ones(v.bits, q) == Zeros(v.bits, p)
    requires Disciplined(v, q + 1, a) && Disciplined(v, p + 1, b)
    ensures Disciplined(v, p, [p] + a) && Disciplined(v, p, [p] + (a + b))
    ensures |LabelledIn(v, [p] + (a + b))| == 1 + |LabelledIn(v, a)| + |LabelledIn(v, b)|
  {
    SubtreesDisjoint(v.bits, p, q, a, b);
    NoDupConcat(a, b);
    NoDupConcat([p], a);
    NoDupConcat([p], a + b);
    assert LabelledIn(v, [p] + a) == {p} + LabelledIn(v, a);
    assert LabelledIn(v, [p] + (a + b)) == {p} + LabelledIn(v, a) + LabelledIn(v, b);
    assert LabelledIn(v, a) !! LabelledIn(v, b);
  }

  lemma {:induction false} WalkDisciplined(v: View, p: nat, current: seq<byte>, depth: nat)
    requires Ahead(v.bits, p)
    ensures var o := WalkFrom(v, p, current, depth);
            && Disciplined(v, p, o.trace)
            && (o.error.None? ==> |o.trace| == 2 * |LabelledIn(v, o.trace)| + 1)
            && o.error !in {Some(LabelUnderflow), Some(RankRange), Some(StepCap)}
    decreases |v.bits| - p
  {
    hide WalkFrom, LookAt, Ones, Disciplined, Labelled;
    match LookAt(v, p, current, depth)
    case Stop(o) =>
      WalkStop(v, p, current, depth);
      SingleDisciplined(v, p);
      if o.error.None? { StopsAtSetBit(v, p, current, depth); }
    case Down(emitted, _, q, here) =>
      WalkDown(v, p, current, depth);
      WalkDisciplined(v, q + 1, here, depth + 1);
      WalkDisciplined(v, p + 1, current, depth);
      CombineDisciplined(v, p, q, WalkFrom(v, q + 1, here, depth + 1).trace, WalkFrom(v, p + 1, current, depth).trace);
  }

  lemma {:induction false} StopsAtSetBit(v: View, p: nat, current: seq<byte>, depth: nat)
    requires Ahead(v.bits, p) && LookAt(v, p, current, depth).Stop?
    requires LookAt(v, p, current, depth).end.error.None?
    ensures LabelledIn(v, [p]) == {}
  {
  }

  lemma {:induction false} SingleDisciplined(v: View, p: nat)
    requires p <= |v.bits|
    ensures Disciplined(v, p, [p])
  {
  }

  /** Whatever the arrays hold, no bit is read twice, the walk ends after at most
      `2 * |labels| + 1` steps, and the index arithmetic never fails. */
  lemma {:induction false} WalkBounded(v: View)
    ensures var o := WalkFrom(v, 0, [], 1);
            && NoDup(o.trace)
            && |o.trace| <= 2 * |v.labels| + 1
            && o.error !in {Some(LabelUnderflow), Some(RankRange), Some(StepCap)}
  {
    hide WalkFrom;
    LabelsRead(v);
    WalkDisciplined(v, 0, [], 1);
  }

  /** A walk reads at most one clear bit per label, and one without error takes
      exactly two steps for each of them and one more. */
  lemma {:induction false} LabelsRead(v: View)
    ensures var o := WalkFrom(v, 0, [], 1);
            && |LabelledIn(v, o.trace)| <= |v.labels|
            && |o.trace| <= 2 * |LabelledIn(v, o.trace)| + 1
            && (o.error.None? ==> |o.trace| == 2 * |LabelledIn(v, o.trace)| + 1)
  {
    hide WalkFrom;
    var o := WalkFrom(v, 0, [], 1);
    WalkDisciplined(v, 0, [], 1);
    LabelledCount(v, |v.bits|);
    SubsetCard(LabelledIn(v, o.trace), LabelledBelow(v, |v.bits|));
  }

  /** The step cap is out of reach for every label array below the largest accepted size,
      whatever the arrays hold. */
  lemma {:induction false} StepCapOutOfReach(v: View)
    requires |v.labels| < MAX_ARRAY_BYTES
    ensures |WalkFrom(v, 0, [], 1).trace| <= MAX_DOMAIN_SET_STEPS
  {
    hide WalkFrom;
    WalkBounded(v);
  }
}
