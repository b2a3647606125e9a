/** IP range sets (`src/iprange.rs`): sorting and merging pushed ranges, membership,
    and the ranges of CIDR lines. */
module IpRange {
  import opened Prelude
  import opened BitWords

  const MAX_ADDR: nat := 0xFFFF_FFFF_FFFF_FFFF_FFFF_FFFF_FFFF_FFFF
  type u128 = n: nat | n <= MAX_ADDR

  /** An inclusive range. */
  type Range = (u128, u128)

  ghost predicate Covers(ranges: seq<Range>, v: u128) {
    exists i :: 0 <= i < |ranges| && ranges[i].0 <= v <= ranges[i].1
  }

  // Building.

  predicate SortedByFrom(rs: seq<Range>) {
    forall i, j :: 0 <= i < j < |rs| ==> rs[i].0 <= rs[j].0
  }

  predicate Proper(rs: seq<Range>) {
    forall i :: 0 <= i < |rs| ==> rs[i].0 <= rs[i].1
  }

  /** Proper ranges in ascending order with at least one address between neighbours. */
  predicate Canonical(rs: seq<Range>) {
    Proper(rs) && forall i, j :: 0 <= i < j < |rs| ==> rs[i].1 as int + 1 < rs[j].0
  }

  function Insert(r: Range, rs: seq<Range>): seq<Range> {
    if rs == [] || r.0 <= rs[0].0 then [r] + rs else [rs[0]] + Insert(r, rs[1..])
  }

  /** One sorted arrangement; which one is chosen makes no difference (`BuildUnique`). */
  function Sort(rs: seq<Range>): seq<Range> {
    if rs == [] then [] else Insert(rs[0], Sort(rs[1..]))
  }

  lemma {:induction false} InsertContents(r: Range, rs: seq<Range>)
    ensures multiset(Insert(r, rs)) == multiset(rs) + multiset{r}
  {
    if rs != [] && r.0 > rs[0].0 {
      InsertContents(r, rs[1..]);
      assert rs == [rs[0]] + rs[1..];
    }
  }

  lemma {:induction false} SortedCons(x: Range, rs: seq<Range>)
    requires SortedByFrom(rs) && forall y :: y in rs ==> x.0 <= y.0
    ensures SortedByFrom([x] + rs)
  {
    assert forall i :: 0 <= i < |rs| ==> rs[i] in rs;
  }

  lemma {:induction false} InsertSorted(r: Range, rs: seq<Range>)
    requires SortedByFrom(rs)
    ensures SortedByFrom(Insert(r, rs))
  {
    if rs == [] || r.0 <= rs[0].0 {
      SortedCons(r, rs);
    } else {
      var rest := Insert(r, rs[1..]);
      InsertSorted(r, rs[1..]);
      InsertContents(r, rs[1..]);
      forall y | y in rest ensures rs[0].0 <= y.0 {
        assert y in multiset(rest);
        if y != r { assert y in rs[1..]; }
      }
      SortedCons(rs[0], rest);
    }
  }

  lemma {:induction false} SortCorrect(rs: seq<Range>)
    ensures SortedByFrom(Sort(rs)) && multiset(Sort(rs)) == multiset(rs)
  {
    if rs != [] {
      SortCorrect(rs[1..]);
      InsertSorted(rs[0], Sort(rs[1..]));
      InsertContents(rs[0], Sort(rs[1..]));
      assert rs == [rs[0]] + rs[1..];
    }
  }

  function SatAddOne(v: u128): u128 {
    if v == MAX_ADDR then v else v + 1
  }

  class IpRangeSetBuilder {
    var ranges: seq<Range>

    constructor ()
      ensures ranges == []
    {
      ranges := [];
    }

    method PushRange(from: u128, to: u128)
      modifies this
      ensures ranges == if from <= to then old(ranges) + [(from, to)] else old(ranges)
      ensures old(Proper(ranges)) ==> Proper(ranges)
      ensures forall v: u128 :: Covers(ranges, v) <==> Covers(old(ranges), v) || from <= v <= to
    {
      if from <= to {
        CoversSnoc(ranges, (from, to));
        ranges := ranges + [(from, to)];
      }
    }

    method Build() returns (merged: seq<Range>)
      requires Proper(ranges)
      modifies this
      ensures Canonical(merged)
      ensures forall v: u128 :: Covers(merged, v) <==> Covers(old(ranges), v)
    {
      SortCorrect(ranges);
      ranges := Sort(ranges);
      SameCover(old(ranges), ranges);
      merged := Merge(ranges);
    }
  }

  /** The merge loop of `build`, on any arrangement sorted by first address. */
  method Merge(sorted: seq<Range>) returns (merged: seq<Range>)
    requires SortedByFrom(sorted) && Proper(sorted)
    ensures Canonical(merged)
    ensures forall v: u128 :: Covers(merged, v) <==> Covers(sorted, v)
  {
    hide Covers, Canonical;
    merged := [];
    assert sorted[..0] == [];
    NothingMerged();
    for i := 0 to |sorted|
      invariant Canonical(merged)
      invariant forall v: u128 :: Covers(merged, v) <==> Covers(sorted[..i], v)
      invariant merged != [] ==> i > 0 && merged[|merged| - 1].0 <= sorted[i - 1].0
    {
      var (from, to) := sorted[i];
      assert sorted[..i + 1] == sorted[..i] + [(from, to)];
      CoversSnoc(sorted[..i], (from, to));
      var n := |merged|;
      if merged != [] && from <= SatAddOne(merged[n - 1].1) {
        ExtendLast(merged, from, to);
        if to > merged[n - 1].1 {
          var last: Range := (merged[n - 1].0, to);
          merged := merged[n - 1 := last];
        } else {
          assert merged[n - 1 := (merged[n - 1].0, merged[n - 1].1)] == merged;
        }
      } else {
        CoversSnoc(merged, (from, to));
        CanonicalSnoc(merged, from, to);
        merged := merged + [(from, to)];
      }
    }
    assert sorted[..|sorted|] == sorted;
  }

  lemma {:induction false} NothingMerged()
    ensures Canonical([])
  {
  }

  lemma {:induction false} CanonicalSnoc(rs: seq<Range>, from: u128, to: u128)
    requires Canonical(rs) && from <= to
    requires rs != [] ==> rs[|rs| - 1].0 <= from && from > SatAddOne(rs[|rs| - 1].1)
    ensures Canonical(rs + [(from, to)])
  {
  }

  lemma {:induction false} CoversSnoc(rs: seq<Range>, r: Range)
    ensures forall v: u128 :: Covers(rs + [r], v) <==> Covers(rs, v) || r.0 <= v <= r.1
  {
    forall v: u128 ensures Covers(rs + [r], v) <==> Covers(rs, v) || r.0 <= v <= r.1 {
      var all := rs + [r];
      if Covers(rs, v) {
        var i :| 0 <= i < |rs| && rs[i].0 <= v <= rs[i].1;
        assert all[i] == rs[i];
      }
      if r.0 <= v <= r.1 { assert all[|rs|] == r; }
    }
  }

  /** A range that starts in or right after the last one only makes it longer. */
  lemma {:induction false} ExtendLast(rs: seq<Range>, from: u128, to: u128)
    requires rs != [] && Canonical(rs) && from <= to
    requires rs[|rs| - 1].0 <= from <= SatAddOne(rs[|rs| - 1].1)
    ensures var n := |rs|;
            var last: Range := (rs[n - 1].0, if to > rs[n - 1].1 then to else rs[n - 1].1);
            var rs' := rs[n - 1 := last];
            Canonical(rs') && forall v: u128 :: Covers(rs', v) <==> Covers(rs, v) || from <= v <= to
  {
    var n := |rs|;
    var last: Range := (rs[n - 1].0, if to > rs[n - 1].1 then to else rs[n - 1].1);
    assert rs == rs[..n - 1] + [rs[n - 1]];
    assert rs[n - 1 := last] == rs[..n - 1] + [last];
    CoversSnoc(rs[..n - 1], rs[n - 1]);
    CoversSnoc(rs[..n - 1], last);
  }

  lemma {:induction false} SameCover(a: seq<Range>, b: seq<Range>)
    requires multiset(a) == multiset(b)
    ensures forall v: u128 :: Covers(a, v) <==> Covers(b, v)
    ensures Proper(a) ==> Proper(b)
  {
    assert forall x :: x in a <==> x in multiset(a);
    assert forall x :: x in b <==> x in multiset(b);
    forall v: u128 ensures Covers(a, v) <==> Covers(b, v) {
      if Covers(a, v) {
        var i :| 0 <= i < |a| && a[i].0 <= v <= a[i].1;
        assert a[i] in b;
      }
      if Covers(b, v) {
        var i :| 0 <= i < |b| && b[i].0 <= v <= b[i].1;
        assert b[i] in a;
      }
    }
    if Proper(a) {
      forall i | 0 <= i < |b| ensures b[i].0 <= b[i].1 { assert b[i] in a; }
    }
  }

  // Membership.

  /** How many leading ranges start at or below `v`. */
  function StartsUpTo(rs: seq<Range>, v: u128): (k: nat)
    ensures k <= |rs|
    ensures forall i :: 0 <= i < k ==> rs[i].0 <= v
    ensures k < |rs| ==> rs[k].0 > v
  {
    if rs == [] || rs[0].0 > v then 0
    else
      var k := StartsUpTo(rs[1..], v);
      assert forall i :: 0 < i < 1 + k ==> rs[i] == rs[1..][i - 1];
      1 + k
  }

  predicate Contains(rs: seq<Range>, v: u128) {
    var idx := StartsUpTo(rs, v);
    idx > 0 && v <= rs[idx - 1].1
  }

  /** Looking only at the last range that starts early enough is exact. */
  lemma {:induction false} ContainsExact(rs: seq<Range>, v: u128)
    requires Canonical(rs)
    ensures Contains(rs, v) <==> Covers(rs, v)
  {
    var idx := StartsUpTo(rs, v);
    if Covers(rs, v) {
      var i :| 0 <= i < |rs| && rs[i].0 <= v <= rs[i].1;
      assert i < idx;
    }
  }

  /** The merged list is determined by the addresses covered alone. */
  lemma {:induction false} BuildUnique(a: seq<Range>, b: seq<Range>)
    requires Canonical(a) && Canonical(b)
    requires forall v: u128 :: Covers(a, v) <==> Covers(b, v)
    ensures a == b
    decreases |a|
  {
    if a == [] {
      if b != [] { assert Covers(b, b[0].0); }
    } else {
      assert Covers(a, a[0].0) && Covers(a, a[0].1);
      assert b != [];
      FirstStart(a, b);
      FirstStart(b, a);
      FirstEnd(a, b);
      FirstEnd(b, a);
      TailCovers(a);
      TailCovers(b);
      BuildUnique(a[1..], b[1..]);
      assert a == [a[0]] + a[1..] && b == [b[0]] + b[1..];
    }
  }

  lemma {:induction false} TailCovers(a: seq<Range>)
    requires a != [] && Canonical(a)
    ensures Canonical(a[1..])
    ensures forall v: u128 :: Covers(a[1..], v) <==> Covers(a, v) && v > a[0].1
  {
    forall v: u128 ensures Covers(a[1..], v) <==> Covers(a, v) && v > a[0].1 {
      if Covers(a[1..], v) {
        var i :| 0 <= i < |a| - 1 && a[1..][i].0 <= v <= a[1..][i].1;
        assert a[i + 1] == a[1..][i];
      }
      if Covers(a, v) && v > a[0].1 {
        var i :| 0 <= i < |a| && a[i].0 <= v <= a[i].1;
        assert a[1..][i - 1] == a[i];
      }
    }
  }

  lemma {:induction false} Below(a: seq<Range>, v: u128)
    requires a != [] && Canonical(a) && v < a[0].0
    ensures !Covers(a, v)
  {
    assert forall i :: 0 < i < |a| ==> a[0].1 as int + 1 < a[i].0;
  }

  /** The address right after a range is never covered. */
  lemma {:induction false} GapAfterFirst(a: seq<Range>)
    requires a != [] && Canonical(a) && a[0].1 < MAX_ADDR
    ensures !Covers(a, a[0].1 + 1)
  {
    assert forall i :: 0 < i < |a| ==> a[0].1 as int + 1 < a[i].0;
  }

  lemma {:induction false} FirstStart(a: seq<Range>, b: seq<Range>)
    requires a != [] && b != [] && Canonical(a) && Canonical(b)
    requires forall v: u128 :: Covers(a, v) <==> Covers(b, v)
    ensures b[0].0 <= a[0].0
  {
    assert Covers(a, a[0].0);
    if a[0].0 < b[0].0 { Below(b, a[0].0); }
  }

  lemma {:induction false} FirstEnd(a: seq<Range>, b: seq<Range>)
    requires a != [] && b != [] && Canonical(a) && Canonical(b) && a[0].0 == b[0].0
    requires forall v: u128 :: Covers(a, v) <==> Covers(b, v)
    ensures a[0].1 <= b[0].1
  {
    if b[0].1 < a[0].1 {
      assert a[0].0 <= b[0].1 + 1 <= a[0].1;
      assert Covers(a, b[0].1 + 1);
      GapAfterFirst(b);
    }
  }

  // CIDR lines.

  datatype IpAddr = V4(a: u32) | V6(v: u128)

  /** The unified address space; IPv4 in its IPv4-mapped form. */
  function ToU128(ip: IpAddr): u128 {
    match ip
    case V4(a) => 0xFFFF_0000_0000 + a
    case V6(v) => v
  }

  function FamilyBits(ip: IpAddr): nat {
    if ip.V4? then 32 else 128
  }

  /** All 128 bits set except the lowest `hostBits`. */
  function PrefixMask(hostBits: nat): nat
    requires hostBits <= 128
  {
    if hostBits >= 128 then 0
    else
      Pow2Strict(hostBits, 128);
      Pow2(128) - Pow2(hostBits)
  }

  function CidrRange(ip: IpAddr, prefix: Option<nat>): Result<(nat, nat), ()> {
    var family := FamilyBits(ip);
    var prefixLen := if prefix.Some? then prefix.value else family;
    if prefixLen > family then Err(())
    else
      var base := ToU128(ip);
      var mask := PrefixMask(family - prefixLen);
      MaskBelow(family - prefixLen);
      Ok((And(base, mask), Or(base, Pow2(128) - 1 - mask)))
  }

  lemma {:induction false} MaskBelow(h: nat)
    requires h <= 128
    ensures PrefixMask(h) <= Pow2(128) - 1
  {
  }

  lemma {:induction false} AndEven(w: nat, m: nat)
    ensures And(w, 2 * m) == 2 * And(w / 2, m)
  {
    assert (2 * m) / 2 == m && (2 * m) % 2 == 0;
    if w == 0 { assert And(0, m) == 0; }
  }

  /** Masking with ones above bit `h` clears the low `h` bits. */
  lemma {:induction false} AndHigh(w: nat, h: nat, n: nat)
    requires h <= n && w < Pow2(n)
    ensures Pow2(h) <= Pow2(n) && And(w, Pow2(n) - Pow2(h)) == BlockStart(w, Pow2(h))
    decreases n
  {
    hide Pow2, And, BlockStart;
    Pow2Strict(h, n);
    if h == 0 {
      Pow2Step(0);
      BlockStartOne(w);
      AndAll(w, n);
    } else {
      Pow2Step(h);
      Pow2Step(n);
      var d := Pow2(h - 1);
      Pow2Strict(h - 1, n - 1);
      AndHigh(w / 2, h - 1, n - 1);
      AndEven(w, Pow2(n - 1) - d);
      BlockStartHalf(w, d);
    }
  }

  lemma {:induction false} AndAll(w: nat, n: nat)
    requires w < Pow2(n)
    ensures And(w, Pow2(n) - 1) == w
    decreases n
  {
    if w != 0 {
      var m := Pow2(n - 1);
      assert Pow2(n) == 2 * m;
      AndAll(w / 2, n - 1);
      hide Pow2;
      assert (2 * m - 1) / 2 == m - 1 && (2 * m - 1) % 2 == 1;
    }
  }

  lemma {:induction false} OrOdd(w: nat, m: nat)
    requires m > 0
    ensures Or(w, 2 * m - 1) == 2 * Or(w / 2, m - 1) + 1
  {
    assert (2 * m - 1) / 2 == m - 1 && (2 * m - 1) % 2 == 1;
    if w == 0 { assert Or(0, m - 1) == m - 1; }
  }

  /** Setting the low `h` bits. */
  lemma {:induction false} OrLow(w: nat, h: nat)
    ensures Or(w, Pow2(h) - 1) == BlockStart(w, Pow2(h)) + Pow2(h) - 1
    decreases h
  {
    hide Pow2, Or, BlockStart;
    Pow2Step(h);
    if h == 0 {
      OrZero(w);
      BlockStartOne(w);
    } else {
      var m := Pow2(h - 1);
      OrLow(w / 2, h - 1);
      OrOdd(w, m);
      BlockStartHalf(w, m);
    }
  }

  lemma {:induction false} Pow2Of128()
    ensures Pow2(128) == MAX_ADDR + 1
  {
    Pow2Of64();
    Pow2Sum(64, 64);
  }

  lemma {:induction false} CidrBounds(ip: IpAddr, prefix: Option<nat>)
    ensures var p := if prefix.Some? then prefix.value else FamilyBits(ip);
            if p > FamilyBits(ip) then CidrRange(ip, prefix).Err?
            else
              var d := Pow2(FamilyBits(ip) - p);
              var from := BlockStart(ToU128(ip), d);
              CidrRange(ip, prefix) == Ok((from, from + d - 1))
  {
    hide Pow2, And, Or, BlockStart;
    var p := if prefix.Some? then prefix.value else FamilyBits(ip);
    if p <= FamilyBits(ip) {
      var h := FamilyBits(ip) - p;
      var base := ToU128(ip);
      Pow2Of128();
      AndHigh(base, h, 128);
      OrLow(base, h);
      if h == 128 { AndZero(base); }
    }
  }

  /** A CIDR line denotes exactly the addresses that share its leading bits. */
  lemma {:induction false} CidrMeaning(ip: IpAddr, prefix: nat, v: u128)
    requires prefix <= FamilyBits(ip)
    ensures CidrRange(ip, Some(prefix)).Ok?
    ensures var (from, to) := CidrRange(ip, Some(prefix)).value;
            from <= v <= to <==>
            v / Pow2(FamilyBits(ip) - prefix) == ToU128(ip) / Pow2(FamilyBits(ip) - prefix)
  {
    hide Pow2, CidrRange, BlockStart;
    CidrBounds(ip, Some(prefix));
    BlockMeaning(v, ToU128(ip), Pow2(FamilyBits(ip) - prefix));
  }

  lemma {:induction false} DivShift(k: nat, d: nat, r: nat)
    requires d > 0
    ensures (k * d + r) / d == k + r / d
  {
    var q := r / d;
    assert k * d + r == (k + q) * d + r % d;
    DivUnique(k * d + r, d, k + q, r % d);
  }

  lemma {:induction false} SamePair(x: nat, y: nat, m: nat, u: nat, v: nat)
    requires u < m && v < m
    ensures x * m + u == y * m + v <==> x == y && u == v
  {
    DivUnique(x * m + u, m, x, u);
    DivUnique(y * m + v, m, y, v);
  }

  lemma {:induction false} DivBelow(r: nat, d: nat, m: nat)
    requires d > 0 && r < m * d
    ensures r / d < m
  {
    var q := r / d;
    if q >= m { MulLe(m, q, d); }
  }

  lemma {:induction false} Upper(q: nat, r: nat, d: nat, m: nat)
    requires d > 0 && r < m * d
    ensures (q * (m * d) + r) / d == q * m + r / d && r / d < m
  {
    assert q * (m * d) == (q * m) * d;
    DivShift(q * m, d, r);
    DivBelow(r, d, m);
  }

  /** A line with an IPv4 address denotes the IPv4-mapped addresses whose IPv4 part shares
      its leading bits, and no others. */
  lemma {:induction false} CidrV4(a: u32, prefix: nat, v: u128)
    requires prefix <= 32
    ensures CidrRange(V4(a), Some(prefix)).Ok?
    ensures var (from, to), d := CidrRange(V4(a), Some(prefix)).value, Pow2(32 - prefix);
            from <= v <= to <==> v / 0x1_0000_0000 == 0xFFFF && v % 0x1_0000_0000 / d == a / d
  {
    hide Pow2, CidrRange;
    CidrMeaning(V4(a), prefix, v);
    var d, m := Pow2(32 - prefix), Pow2(prefix);
    Pow2Sum(prefix, 32 - prefix);
    Pow2Of32();
    var q, r := v / 0x1_0000_0000, v % 0x1_0000_0000;
    assert m * d == 0x1_0000_0000;
    Upper(q, r, d, m);
    Upper(0xFFFF, a, d, m);
    assert v == q * (m * d) + r && ToU128(V4(a)) == 0xFFFF * (m * d) + a;
    SamePair(q, 0xFFFF, m, r / d, a / d);
  }

  lemma {:induction false} Pow2Of32()
    ensures Pow2(32) == 0x1_0000_0000
  {
    assert Pow2(4) == 16;
    Pow2Sum(4, 4);
    Pow2Sum(8, 8);
    Pow2Sum(16, 16);
  }

  /** One with an IPv6 address denotes the addresses that share its leading bits. */
  lemma {:induction false} CidrV6(w: u128, prefix: nat, v: u128)
    requires prefix <= 128
    ensures CidrRange(V6(w), Some(prefix)).Ok?
    ensures var (from, to), d := CidrRange(V6(w), Some(prefix)).value, Pow2(128 - prefix);
            from <= v <= to <==> v / d == w / d
  {
    hide Pow2, CidrRange;
    CidrMeaning(V6(w), prefix, v);
  }

  /** No prefix stands for a single address, and one that is too long for an error. */
  lemma {:induction false} CidrPrefix(ip: IpAddr, prefix: Option<nat>)
    ensures CidrRange(ip, prefix).Err? <==> prefix.Some? && prefix.value > (if ip.V4? then 32 else 128)
    ensures prefix.None? ==> CidrRange(ip, prefix) == Ok((ToU128(ip), ToU128(ip)))
  {
    hide Pow2, CidrRange, BlockStart;
    CidrBounds(ip, prefix);
    Pow2Step(0);
    BlockStartOne(ToU128(ip));
  }
}
