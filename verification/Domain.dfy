/** Domain patterns and the compiled matcher of `src/domain.rs`. */
module Domain {
  import opened Prelude

  /** A classified pattern: a name with all its subdomains, an exact name, a name with
      single-label wildcards, or text that is no domain. */
  datatype Pattern =
    | Suffix(name: string)
    | Full(name: string)
    | Wildcard(parts: seq<string>)
    | Invalid

  /** `q` is `name` or one of its subdomains. */
  predicate UnderName(q: string, name: string) {
    || q == name
    || (|q| > |name| && q[|q| - |name|..] == name && q[|q| - |name| - 1] == '.')
  }

  /** The labels of a name. */
  function Labels(q: string): seq<string> {
    LabelsFrom(q, 0, 0)
  }

  /** Labels of `q[start..]`, of which `q[start..pos]` is known to have no dot. */
  function LabelsFrom(q: string, start: nat, pos: nat): seq<string>
    requires start <= pos <= |q|
    decreases |q| - pos
  {
    if pos == |q| then [q[start..]]
    else if q[pos] == '.' then [q[start..pos]] + LabelsFrom(q, pos + 1, pos + 1)
    else LabelsFrom(q, start, pos + 1)
  }

  /** Label by label: `*` stands for exactly one non-empty label. */
  predicate WildcardMatches(parts: seq<string>, q: string) {
    var ls := Labels(q);
    |ls| == |parts| && forall i :: 0 <= i < |parts| ==> if parts[i] == "*" then ls[i] != "" else ls[i] == parts[i]
  }

  // What the labels are.

  predicate NoDot(l: string) {
    forall i :: 0 <= i < |l| ==> l[i] != '.'
  }

  predicate NoDots(ls: seq<string>) {
    forall i :: 0 <= i < |ls| ==> NoDot(ls[i])
  }

  /** The labels with dots in between. */
  function Joined(ls: seq<string>): string
    requires ls != []
  {
    if |ls| == 1 then ls[0] else ls[0] + "." + Joined(ls[1..])
  }

  lemma {:induction false} LabelsJoin(q: string, start: nat, pos: nat)
    requires start <= pos <= |q| && NoDot(q[start..pos])
    ensures var ls := LabelsFrom(q, start, pos); ls != [] && NoDots(ls) && Joined(ls) == q[start..]
    decreases |q| - pos
  {
    if pos == |q| {
      assert q[start..] == q[start..pos];
    } else if q[pos] == '.' {
      LabelsJoin(q, pos + 1, pos + 1);
      var rest := LabelsFrom(q, pos + 1, pos + 1);
      var ls := [q[start..pos]] + rest;
      assert ls[1..] == rest;
      assert q[start..] == q[start..pos] + "." + q[pos + 1..];
    } else {
      assert q[start..pos + 1] == q[start..pos] + [q[pos]];
      LabelsJoin(q, start, pos + 1);
    }
  }

  lemma {:induction false} FirstLabel(a: string, x: string, b: string, y: string)
    requires NoDot(a) && NoDot(b) && a + x == b + y && (x == "" || x[0] == '.') && (y == "" || y[0] == '.')
    ensures a == b && x == y
  {
    NotLonger(a, x, b, y);
    NotLonger(b, y, a, x);
    var s := a + x;
    assert a == s[..|a|] == b && x == s[|a|..] == y;
  }

  lemma {:induction false} NotLonger(a: string, x: string, b: string, y: string)
    requires NoDot(b) && a + x == b + y && (x == "" || x[0] == '.')
    ensures |b| <= |a|
  {
    var s := a + x;
    assert x == s[|a|..];
    assert forall i :: 0 <= i < |b| ==> s[i] == b[i];
  }

  lemma {:induction false} JoinedOnce(a: seq<string>, b: seq<string>)
    requires a != [] && b != [] && NoDots(a) && NoDots(b) && Joined(a) == Joined(b)
    ensures a == b
    decreases |a|
  {
    var x := if |a| == 1 then "" else "." + Joined(a[1..]);
    var y := if |b| == 1 then "" else "." + Joined(b[1..]);
    assert Joined(a) == a[0] + x && Joined(b) == b[0] + y;
    FirstLabel(a[0], x, b[0], y);
    if |a| > 1 {
      assert x[1..] == Joined(a[1..]) && y[1..] == Joined(b[1..]);
      JoinedOnce(a[1..], b[1..]);
      assert a == [a[0]] + a[1..] && b == [b[0]] + b[1..];
    }
  }

  /** The labels of a name are what dots divide it into. */
  lemma {:induction false} LabelsExact(q: string, ls: seq<string>)
    ensures Labels(q) == ls <==> ls != [] && NoDots(ls) && Joined(ls) == q
  {
    hide LabelsFrom, Joined;
    assert q[0..] == q && q[0..0] == "";
    LabelsJoin(q, 0, 0);
    if ls != [] && NoDots(ls) && Joined(ls) == q { JoinedOnce(Labels(q), ls); }
  }

  /** `l` can stand where the pattern has `part`. */
  predicate Fits(part: string, l: string) {
    (part == "*" && l != "") || (part != "*" && l == part)
  }

  lemma {:induction false} WildcardExact(parts: seq<string>, q: string)
    ensures WildcardMatches(parts, q) <==>
            exists ls: seq<string> :: |ls| == |parts| && ls != [] && NoDots(ls) && Joined(ls) == q
              && forall i :: 0 <= i < |ls| ==> Fits(parts[i], ls[i])
  {
    hide Labels, Joined;
    var ls := Labels(q);
    LabelsExact(q, ls);
    forall other: seq<string> | other != [] && NoDots(other) && Joined(other) == q ensures other == ls {
      LabelsExact(q, other);
    }
  }

  /** A name is under another when it is it, or ends with a dot and it. */
  lemma {:induction false} UnderExact(q: string, name: string)
    ensures UnderName(q, name) <==> q == name || exists sub: string :: q == sub + "." + name
  {
    var n := |q| - |name| - 1;
    if n >= 0 {
      if q[n + 1..] == name && q[n] == '.' { assert q == q[..n] + "." + name; }
    }
    if sub: string :| q == sub + "." + name { assert |sub| == n && q[n] == '.' && q[n + 1..] == name; }
  }

  predicate PatternMatches(p: Pattern, q: string) {
    match p
    case Suffix(n) => UnderName(q, n)
    case Full(n) => q == n
    case Wildcard(parts) => WildcardMatches(parts, q)
    case Invalid => false
  }

  datatype DomainMatcher = DomainMatcher(full: set<string>, suffix: set<string>, wild: seq<seq<string>>)

  const EMPTY_MATCHER := DomainMatcher({}, {}, [])

  function Insert(m: DomainMatcher, p: Pattern): DomainMatcher {
    match p
    case Suffix(n) => m.(suffix := m.suffix + {n})
    case Full(n) => m.(full := m.full + {n})
    case Wildcard(parts) => m.(wild := m.wild + [parts])
    case Invalid => m
  }

  /** Some inserted pattern matches `q`. */
  ghost predicate Hits(m: DomainMatcher, q: string) {
    || q in m.full
    || (exists n :: n in m.suffix && UnderName(q, n))
    || (exists i :: 0 <= i < |m.wild| && WildcardMatches(m.wild[i], q))
  }

  lemma {:induction false} HitsInsert(m: DomainMatcher, p: Pattern, q: string)
    ensures Hits(Insert(m, p), q) <==> Hits(m, q) || PatternMatches(p, q)
  {
    hide WildcardMatches, UnderName;
    match p
    case Suffix(n) =>
      if UnderName(q, n) { assert n in Insert(m, p).suffix; }
    case Full(n) =>
    case Wildcard(parts) =>
      var w := m.wild + [parts];
      if WildcardMatches(parts, q) { assert w[|m.wild|] == parts; }
      if i :| 0 <= i < |m.wild| && WildcardMatches(m.wild[i], q) { assert w[i] == m.wild[i]; }
    case Invalid =>
  }

  /** A position where a label of `q` starts. */
  predicate LabelStart(q: string, i: nat) {
    i <= |q| && (i == 0 || q[i - 1] == '.')
  }

  /** Names of which `q` is a subdomain are exactly its tails at label starts. */
  lemma {:induction false} TailsAreNames(q: string, i: nat)
    requires i <= |q|
    ensures LabelStart(q, i) <==> UnderName(q, q[i..])
  {
    assert q[|q| - |q[i..]|..] == q[i..];
  }

  lemma {:induction false} NameIsTail(q: string, n: string) returns (i: nat)
    requires UnderName(q, n)
    ensures LabelStart(q, i) && q[i..] == n
  {
    i := |q| - |n|;
  }

  method LookupSpecific(m: DomainMatcher, q: string) returns (hit: bool)
    ensures hit <==> q in m.full || exists n :: n in m.suffix && UnderName(q, n)
  {
    if q in m.full { return true; }
    if m.suffix == {} { return false; }
    var idx := 0;
    while true
      invariant LabelStart(q, idx)
      invariant forall i :: 0 <= i < idx && LabelStart(q, i) ==> q[i..] !in m.suffix
      decreases |q| - idx
    {
      if q[idx..] in m.suffix {
        TailsAreNames(q, idx);
        return true;
      }
      var p := FindDot(q, idx);
      if p.None? {
        forall n | n in m.suffix ensures !UnderName(q, n) {
          if UnderName(q, n) { var i := NameIsTail(q, n); }
        }
        return false;
      }
      idx := p.value + 1;
    }
  }

  /** First dot at or after `from`. */
  function FindDot(q: string, from: nat): (r: Option<nat>)
    requires from <= |q|
    ensures r.Some? ==> from <= r.value < |q| && q[r.value] == '.'
    ensures forall i :: from <= i < (if r.Some? then r.value else |q|) ==> q[i] != '.'
    decreases |q| - from
  {
    if from == |q| then None else if q[from] == '.' then Some(from) else FindDot(q, from + 1)
  }

  method LookupFuzzy(m: DomainMatcher, q: string) returns (hit: bool)
    ensures hit <==> exists i :: 0 <= i < |m.wild| && WildcardMatches(m.wild[i], q)
  {
    for i := 0 to |m.wild|
      invariant forall k :: 0 <= k < i ==> !WildcardMatches(m.wild[k], q)
    {
      if WildcardMatches(m.wild[i], q) { return true; }
    }
    return false;
  }
}
