/** The question section: where it ends, and when two questions are the same up to
    letter case (`src/dns/mod.rs`). */
module Question {
  import opened Prelude
  import opened Wire

  function Lower(b: byte): byte {
    if 0x41 <= b <= 0x5A then b + 0x20 else b
  }

  /** The same byte, or the two cases of one ASCII letter. */
  predicate SameLetter(a: byte, b: byte) {
    a == b || (0x41 <= a <= 0x5A && b == a + 0x20) || (0x41 <= b <= 0x5A && a == b + 0x20)
  }

  lemma {:induction false} LowerExact(a: byte, b: byte)
    ensures Lower(a) == Lower(b) <==> SameLetter(a, b)
  {
  }

  function LowerAll(s: seq<byte>): (r: seq<byte>)
    ensures |r| == |s|
    ensures forall i :: 0 <= i < |s| ==> r[i] == Lower(s[i])
  {
    seq(|s|, i requires 0 <= i < |s| => Lower(s[i]))
  }

  function QuestionEnd(p: seq<byte>): (r: Option<nat>)
    ensures r.Some? ==> 17 <= r.value <= |p|
  {
    if |p| < 12 then None
    else
      match SkipName(p, 12)
      case None => None
      case Some(end) => if end + 4 > |p| then None else Some(end + 4)
  }

  /** Bytes `[pos, pos + len)` exist in both and agree up to letter case. */
  predicate LabelMatch(a: seq<byte>, b: seq<byte>, pos: nat, len: nat) {
    && pos + len <= |a|
    && pos + len <= |b|
    && forall i :: pos <= i < pos + len ==> Lower(a[i]) == Lower(b[i])
  }

  /** Compare two names label by label from `pos` on. */
  predicate NamesMatch(a: seq<byte>, b: seq<byte>, pos: nat)
    decreases |a| - pos
  {
    && pos + 4 <= |a| && pos < |b|
    && a[pos] == b[pos]
    && (a[pos] == 0 || (LabelMatch(a, b, pos + 1, a[pos]) && NamesMatch(a, b, pos + 1 + a[pos])))
  }

  predicate QuestionsMatch(a: seq<byte>, b: seq<byte>) {
    && |a| == |b| && |a| >= 4
    && a[|a| - 4..] == b[|b| - 4..]
    && NamesMatch(a, b, 0)
  }

  method CompareQuestions(a: seq<byte>, b: seq<byte>) returns (r: bool)
    ensures r == QuestionsMatch(a, b) && r == SameQuestion(a, b)
  {
    hide SameQuestion;
    MatchExact(a, b);
    if |a| != |b| || |a| < 4 { return false; }
    if a[|a| - 4..] != b[|b| - 4..] { return false; }
    var pos := 0;
    var qnameEnd := |a| - 4;
    while true
      invariant NamesMatch(a, b, pos) == NamesMatch(a, b, 0)
      decreases |a| - pos
    {
      if pos > qnameEnd { return false; }
      var la, lb := a[pos], b[pos];
      if la != lb { return false; }
      pos := pos + 1;
      if la == 0 { return true; }
      var start := pos;
      for k := 0 to la
        invariant pos == start + k <= |a|
        invariant forall i :: start <= i < pos ==> Lower(a[i]) == Lower(b[i])
        invariant NamesMatch(a, b, start - 1) == NamesMatch(a, b, 0)
      {
        if pos >= |a| { return false; }
        if Lower(a[pos]) != Lower(b[pos]) { return false; }
        pos := pos + 1;
      }
    }
  }

  /** `a` is one uncompressed question: labels of at most 63 bytes up to an empty
      label, then QTYPE and QCLASS. */
  predicate PlainFrom(a: seq<byte>, pos: nat)
    decreases |a| - pos
  {
    pos < |a| && (if a[pos] == 0 then pos + 5 == |a|
                  else a[pos] < 0x40 && pos + 1 + a[pos] <= |a| && PlainFrom(a, pos + 1 + a[pos]))
  }

  /** On plain questions the label walk is comparison of the lowercased bytes. */
  lemma {:induction false} NamesMatchPlain(a: seq<byte>, b: seq<byte>, pos: nat)
    requires PlainFrom(a, pos) && |a| == |b|
    ensures NamesMatch(a, b, pos) <==> forall i :: pos <= i < |a| - 4 ==> Lower(a[i]) == Lower(b[i])
    decreases |a| - pos
  {
    PlainLong(a, pos);
    if a[pos] != 0 {
      var next := pos + 1 + a[pos];
      NamesMatchPlain(a, b, next);
      PlainLong(a, next);
    }
  }

  lemma {:induction false} PlainLong(a: seq<byte>, pos: nat)
    requires PlainFrom(a, pos)
    ensures pos + 5 <= |a|
    decreases |a| - pos
  {
    if a[pos] != 0 { PlainLong(a, pos + 1 + a[pos]); }
  }

  /** A plain question matches exactly the questions of its length, type and class whose
      names differ from its own in the case of letters only. */
  lemma {:induction false} MatchMeaning(a: seq<byte>, b: seq<byte>)
    requires PlainFrom(a, 0)
    ensures |a| >= 5
    ensures QuestionsMatch(a, b) <==>
            && |a| == |b|
            && (forall i :: 0 <= i < |a| - 4 ==> SameLetter(a[i], b[i]))
            && (forall i :: |a| - 4 <= i < |a| ==> a[i] == b[i])
  {
    PlainLong(a, 0);
    if |a| == |b| {
      NamesMatchPlain(a, b, 0);
      forall i | 0 <= i < |a| ensures Lower(a[i]) == Lower(b[i]) <==> SameLetter(a[i], b[i]) {
        LowerExact(a[i], b[i]);
      }
      var n := |a| - 4;
      forall i | n <= i < |a| ensures a[i] == a[n..][i - n] && b[i] == b[n..][i - n] {}
    }
  }

  /** In lowercased bytes. */
  lemma {:induction false} MatchLowered(a: seq<byte>, b: seq<byte>)
    requires PlainFrom(a, 0)
    ensures |a| >= 5
    ensures QuestionsMatch(a, b) <==>
            && |a| == |b|
            && LowerAll(a[..|a| - 4]) == LowerAll(b[..|a| - 4])
            && a[|a| - 4..] == b[|a| - 4..]
  {
    PlainLong(a, 0);
    if |a| == |b| {
      NamesMatchPlain(a, b, 0);
      var x, y := LowerAll(a[..|a| - 4]), LowerAll(b[..|a| - 4]);
      if x == y {
        forall i | 0 <= i < |a| - 4 ensures Lower(a[i]) == Lower(b[i]) {
          assert x[i] == y[i];
        }
      }
    }
  }

  /** Matching cannot make a plain question match one that is not plain. */
  lemma {:induction false} MatchPlain(a: seq<byte>, b: seq<byte>, pos: nat)
    requires PlainFrom(a, pos) && |a| == |b| && NamesMatch(a, b, pos)
    ensures PlainFrom(b, pos)
    decreases |a| - pos
  {
    if a[pos] != 0 { MatchPlain(a, b, pos + 1 + a[pos]); }
  }

  // Any two questions.

  /** Where the labels of a name start, the empty one included. */
  ghost predicate LabelStarts(a: seq<byte>, pos: nat, starts: seq<nat>) {
    && starts != [] && starts[0] == pos
    && (forall k :: 0 <= k < |starts| ==> starts[k] + 4 <= |a|)
    && (forall k :: 0 < k < |starts| ==> StartsNext(a, starts[k - 1], starts[k]))
    && a[starts[|starts| - 1]] == 0
  }

  ghost predicate StartsNext(a: seq<byte>, pos: nat, next: nat) {
    pos < |a| && a[pos] != 0 && next == pos + 1 + a[pos]
  }

  /** Equal lengths of labels, and labels that are equal up to letter case. */
  ghost predicate SameNames(a: seq<byte>, b: seq<byte>, pos: nat, starts: seq<nat>)
    requires LabelStarts(a, pos, starts) && |a| == |b|
  {
    forall i :: pos <= i <= starts[|starts| - 1] ==> if i in starts then a[i] == b[i] else SameLetter(a[i], b[i])
  }

  /** The same question: length, type and class, and the names label by label. */
  ghost predicate SameQuestion(a: seq<byte>, b: seq<byte>) {
    && |a| == |b| && |a| >= 4
    && (forall i :: |a| - 4 <= i < |a| ==> a[i] == b[i])
    && exists starts: seq<nat> :: LabelStarts(a, 0, starts) && SameNames(a, b, 0, starts)
  }

  lemma {:induction false} StartsBounds(a: seq<byte>, pos: nat, starts: seq<nat>, k: nat)
    requires LabelStarts(a, pos, starts) && k < |starts|
    ensures pos <= starts[k] && (k > 0 ==> pos + 1 + a[pos] <= starts[k])
  {
    if k > 0 { StartsBounds(a, pos, starts, k - 1); }
  }

  lemma {:induction false} StartsRest(a: seq<byte>, pos: nat, starts: seq<nat>)
    requires LabelStarts(a, pos, starts) && a[pos] != 0
    ensures |starts| > 1 && LabelStarts(a, pos + 1 + a[pos], starts[1..])
  {
    var rest := starts[1..];
    assert StartsNext(a, starts[0], starts[1]);
    forall k | 0 < k < |rest| ensures StartsNext(a, rest[k - 1], rest[k]) {
      assert StartsNext(a, starts[k], starts[k + 1]);
    }
  }

  lemma {:induction false} NamesSame(a: seq<byte>, b: seq<byte>, pos: nat, starts: seq<nat>)
    requires |a| == |b| && LabelStarts(a, pos, starts) && SameNames(a, b, pos, starts)
    ensures NamesMatch(a, b, pos)
    decreases |starts|
  {
    assert starts[0] in starts;
    StartsBounds(a, pos, starts, |starts| - 1);
    if a[pos] != 0 {
      var next, rest := pos + 1 + a[pos], starts[1..];
      StartsRest(a, pos, starts);
      forall i | pos < i < next ensures i !in starts {
        forall k | 0 <= k < |starts| ensures starts[k] != i { StartsBounds(a, pos, starts, k); }
      }
      StartsBounds(a, next, rest, |rest| - 1);
      forall i | pos < i < next ensures Lower(a[i]) == Lower(b[i]) { LowerExact(a[i], b[i]); }
      forall i | next <= i <= rest[|rest| - 1] ensures i in starts <==> i in rest { assert starts == [pos] + rest; }
      NamesSame(a, b, next, rest);
    }
  }

  lemma {:induction false} NamesStarts(a: seq<byte>, b: seq<byte>, pos: nat) returns (starts: seq<nat>)
    requires |a| == |b| && NamesMatch(a, b, pos)
    ensures LabelStarts(a, pos, starts) && SameNames(a, b, pos, starts)
    decreases |a| - pos
  {
    if a[pos] == 0 {
      starts := [pos];
    } else {
      var next := pos + 1 + a[pos];
      var rest := NamesStarts(a, b, next);
      starts := [pos] + rest;
      forall k | 0 < k < |starts| ensures StartsNext(a, starts[k - 1], starts[k]) {
        if k > 1 { assert StartsNext(a, rest[k - 2], rest[k - 1]); }
      }
      forall k | 0 <= k < |rest| ensures next <= rest[k] { StartsBounds(a, next, rest, k); }
      forall i | pos <= i <= rest[|rest| - 1] ensures if i in starts then a[i] == b[i] else SameLetter(a[i], b[i]) {
        LowerExact(a[i], b[i]);
        if next <= i { assert i in starts <==> i in rest; }
      }
    }
  }

  /** The comparison accepts exactly the same questions. */
  lemma {:induction false} MatchExact(a: seq<byte>, b: seq<byte>)
    ensures QuestionsMatch(a, b) <==> SameQuestion(a, b)
  {
    hide NamesMatch, LabelStarts, SameNames;
    if |a| == |b| && |a| >= 4 {
      var n := |a| - 4;
      forall i | n <= i < |a| ensures a[i] == a[n..][i - n] && b[i] == b[n..][i - n] {}
      if NamesMatch(a, b, 0) { var starts := NamesStarts(a, b, 0); }
      if starts: seq<nat> :| LabelStarts(a, 0, starts) && SameNames(a, b, 0, starts) { NamesSame(a, b, 0, starts); }
    }
  }

  // Questions as they are written (section 4.1.2 of RFC 1035).

  /** A name without pointers, then type and class. */
  ghost predicate IsPlainQuestion(a: seq<byte>) {
    |a| >= 4 && exists labels: seq<seq<byte>> :: LabelsOk(labels) && NameBytes(Name(labels, Root)) == a[..|a| - 4]
  }

  lemma {:induction false} PlainRead(a: seq<byte>, pos: nat) returns (labels: seq<seq<byte>>)
    requires PlainFrom(a, pos)
    ensures LabelsOk(labels) && pos <= |a| - 4 && NameBytes(Name(labels, Root)) == a[pos..|a| - 4]
    decreases |a| - pos
  {
    hide NameBytes;
    PlainLong(a, pos);
    if a[pos] == 0 {
      labels := [];
      EndRead(Root);
      assert a[pos..|a| - 4] == [0];
    } else {
      var next := pos + 1 + a[pos];
      var rest := PlainRead(a, next);
      var l := a[pos + 1..next];
      labels := [l] + rest;
      NameCons(l, Name(rest, Root));
      assert a[pos..|a| - 4] == [a[pos]] + l + a[next..|a| - 4];
    }
  }

  lemma {:induction false} PlainWritten(a: seq<byte>, pos: nat, labels: seq<seq<byte>>)
    requires LabelsOk(labels) && At(a, pos, NameBytes(Name(labels, Root)))
    requires pos + |NameBytes(Name(labels, Root))| + 4 == |a|
    ensures PlainFrom(a, pos)
    decreases |labels|
  {
    hide NameBytes, At;
    if labels == [] {
      EndRead(Root);
      RootAt(a, pos);
    } else {
      LabelsAt(a, pos, Name(labels, Root));
      PlainWritten(a, pos + 1 + |labels[0]|, labels[1..]);
    }
  }

  lemma {:induction false} RootAt(a: seq<byte>, pos: nat)
    requires At(a, pos, [0])
    ensures pos < |a| && a[pos] == 0
  {
    assert a[pos..pos + 1][0] == a[pos];
  }

  lemma {:induction false} PlainExact(a: seq<byte>)
    ensures PlainFrom(a, 0) <==> IsPlainQuestion(a)
  {
    hide PlainFrom, NameBytes;
    if PlainFrom(a, 0) {
      var labels := PlainRead(a, 0);
      assert a[0..|a| - 4] == a[..|a| - 4];
    }
    if IsPlainQuestion(a) {
      var labels: seq<seq<byte>> :| LabelsOk(labels) && NameBytes(Name(labels, Root)) == a[..|a| - 4];
      PlainWritten(a, 0, labels);
    }
  }

  /** The question of a message, behind its header, ends at `end`. */
  ghost predicate QuestionStands(p: seq<byte>, end: nat) {
    16 <= end <= |p| && IsName(p[12..end - 4])
  }

  lemma {:induction false} QuestionEndExact(p: seq<byte>, end: nat)
    ensures QuestionEnd(p) == Some(end) <==> QuestionStands(p, end)
  {
    hide SkipName, IsName;
    if end >= 4 { SkipNameExact(p, 12, end - 4); }
  }
}
