/** 64-bit words as natural numbers, with the bit operations `src/mrs.rs` uses on them
    (`&`, `>>`, `count_ones`, `trailing_zeros`) defined digit by digit. */
module BitWords {

  const TWO64: nat := 0x1_0000_0000_0000_0000

  function Pow2(n: nat): (r: nat)
    ensures r >= 1
  {
    if n == 0 then 1 else 2 * Pow2(n - 1)
  }

  const MAX_WORD: nat := 0xFFFF_FFFF_FFFF_FFFF

  type Word = w: nat | w <= MAX_WORD

  /** Bit `i` of `w`, least significant first. */
  predicate Bit(w: nat, i: nat) {
    if i == 0 then w % 2 == 1 else Bit(w / 2, i - 1)
  }

  function And(a: nat, b: nat): nat {
    if a == 0 then 0
    else 2 * And(a / 2, b / 2) + (if a % 2 == 1 && b % 2 == 1 then 1 else 0)
  }

  function Or(a: nat, b: nat): nat
    decreases a + b
  {
    if a == 0 then b
    else if b == 0 then a
    else 2 * Or(a / 2, b / 2) + (if a % 2 == 1 || b % 2 == 1 then 1 else 0)
  }

  function Shr(w: nat, n: nat): nat {
    if n == 0 then w else Shr(w / 2, n - 1)
  }

  function CountOnes(w: nat): nat {
    if w == 0 then 0 else w % 2 + CountOnes(w / 2)
  }

  function TrailingZeros(w: nat): nat
    requires w != 0
  {
    if w % 2 == 1 then 0 else 1 + TrailingZeros(w / 2)
  }

  /** The naive count of set bits among the lowest `n` bits. */
  ghost function LowOnes(w: nat, n: nat): nat {
    if n == 0 then 0 else LowOnes(w, n - 1) + (if Bit(w, n - 1) then 1 else 0)
  }

  lemma {:induction false} LowOnesUnfold(w: nat, n: nat)
    requires n > 0
    ensures LowOnes(w, n) == w % 2 + LowOnes(w / 2, n - 1)
  {
    if n > 1 { LowOnesUnfold(w, n - 1); }
  }

  lemma {:induction false} BitOfZero(i: nat)
    ensures !Bit(0, i)
  {
    if i > 0 { BitOfZero(i - 1); }
  }

  lemma {:induction false} LowOnesOfZero(n: nat)
    ensures LowOnes(0, n) == 0
  {
    if n > 0 { LowOnesOfZero(n - 1); BitOfZero(n - 1); }
  }

  /** `count_ones` counts every bit below any width the word fits in. */
  lemma {:induction false} CountOnesIsLowOnes(w: nat, n: nat)
    requires w < Pow2(n)
    ensures CountOnes(w) == LowOnes(w, n)
  {
    if w == 0 {
      LowOnesOfZero(n);
    } else {
      LowOnesUnfold(w, n);
      CountOnesIsLowOnes(w / 2, n - 1);
    }
  }

  lemma {:induction false} Pow2Strict(m: nat, n: nat)
    requires m <= n
    ensures Pow2(m) <= Pow2(n)
  {
    if m < n { Pow2Strict(m, n - 1); }
  }

  lemma {:induction false} Pow2Of64()
    ensures Pow2(64) == MAX_WORD + 1
  {
    assert Pow2(8) == 256;
    assert Pow2(16) == 65536 by { assert Pow2(12) == 4096; }
    assert Pow2(32) == 0x1_0000_0000 by {
      assert Pow2(20) == 0x10_0000;
      assert Pow2(24) == 0x100_0000;
      assert Pow2(28) == 0x1000_0000;
    }
    assert Pow2(48) == 0x1_0000_0000_0000 by {
      assert Pow2(36) == 0x10_0000_0000;
      assert Pow2(40) == 0x100_0000_0000;
      assert Pow2(44) == 0x1000_0000_0000;
    }
    assert Pow2(56) == 0x100_0000_0000_0000 by { assert Pow2(52) == 0x10_0000_0000_0000; }
    assert Pow2(60) == 0x1000_0000_0000_0000;
  }

  /** An all-ones word shifted right is the mask of the remaining low bits. */
  lemma {:induction false} ShrAllOnes(m: nat, n: nat)
    requires m <= n
    ensures Shr(Pow2(n) - 1, m) == Pow2(n - m) - 1
  {
    if m > 0 {
      assert (Pow2(n) - 1) / 2 == Pow2(n - 1) - 1;
      ShrAllOnes(m - 1, n - 1);
    }
  }

  lemma {:induction false} CountOnesDouble(m: nat, r: nat)
    requires r < 2
    ensures CountOnes(2 * m + r) == CountOnes(m) + r
  {
    assert (2 * m + r) % 2 == r && (2 * m + r) / 2 == m;
  }

  /** Counting a masked word counts exactly the low bits. */
  lemma {:induction false} MaskedCount(w: nat, n: nat)
    ensures CountOnes(And(w, Pow2(n) - 1)) == LowOnes(w, n)
  {
    if w == 0 {
      LowOnesOfZero(n);
    } else if n == 0 {
      AndZero(w);
    } else {
      var m := Pow2(n - 1);
      hide Pow2, CountOnes, LowOnes;
      LowOnesUnfold(w, n);
      MaskedCount(w / 2, n - 1);
      assert (2 * m - 1) / 2 == m - 1 && (2 * m - 1) % 2 == 1;
      CountOnesDouble(And(w / 2, m - 1), w % 2);
    }
  }

  lemma {:induction false} AndZero(w: nat)
    ensures And(w, 0) == 0
  {
    if w != 0 { AndZero(w / 2); }
  }

  lemma {:induction false} AndSelf(w: nat)
    ensures And(w, w) == w
  {
    if w != 0 { AndSelf(w / 2); }
  }

  /** `w & (w - 1)` clears exactly the lowest set bit. */
  lemma {:induction false} ClearLowest(w: nat, i: nat)
    requires w != 0
    ensures Bit(And(w, w - 1), i) <==> Bit(w, i) && i != TrailingZeros(w)
    ensures And(w, w - 1) < w
  {
    if w % 2 == 1 {
      assert (w - 1) / 2 == w / 2;
      AndSelf(w / 2);
      if i > 0 { assert And(w, w - 1) / 2 == w / 2; }
    } else {
      assert (w - 1) / 2 == w / 2 - 1;
      ClearLowest(w / 2, if i > 0 then i - 1 else 0);
      assert And(w, w - 1) == 2 * And(w / 2, w / 2 - 1);
    }
  }

  /** The trailing-zero count names the lowest set bit. */
  lemma {:induction false} TrailingZerosIsLowest(w: nat)
    requires w != 0
    ensures Bit(w, TrailingZeros(w))
    ensures LowOnes(w, TrailingZeros(w)) == 0
    ensures forall i :: 0 <= i < TrailingZeros(w) ==> !Bit(w, i)
  {
    if w % 2 == 0 {
      TrailingZerosIsLowest(w / 2);
      LowOnesUnfold(w, TrailingZeros(w));
      forall i | 0 <= i < TrailingZeros(w) ensures !Bit(w, i) {
        if i > 0 { assert !Bit(w / 2, i - 1); }
      }
    }
  }

  lemma {:induction false} LowOnesMonotone(w: nat, m: nat, n: nat)
    requires m <= n
    ensures LowOnes(w, m) <= LowOnes(w, n)
  {
    if m < n { LowOnesMonotone(w, m, n - 1); }
  }

  /** Clearing the lowest set bit lowers every later rank by one. */
  lemma {:induction false} LowOnesAfterClear(w: nat, n: nat)
    requires w != 0
    ensures LowOnes(And(w, w - 1), n) ==
            LowOnes(w, n) - (if n > TrailingZeros(w) then 1 else 0)
  {
    if n > 0 {
      LowOnesAfterClear(w, n - 1);
      ClearLowest(w, n - 1);
      TrailingZerosIsLowest(w);
    }
  }

  /** Testing a word against a single-bit mask tests that bit. */
  lemma {:induction false} AndPow2(w: nat, i: nat)
    ensures And(w, Pow2(i)) != 0 <==> Bit(w, i)
    decreases i
  {
    if w == 0 {
      BitOfZero(i);
    } else if i == 0 {
      AndZero(w / 2);
    } else {
      AndPow2(w / 2, i - 1);
      assert Pow2(i) / 2 == Pow2(i - 1) && Pow2(i) % 2 == 0;
    }
  }

  /** Or-ing in a single-bit mask sets that bit and no other. */
  lemma {:induction false} OrPow2(w: nat, i: nat, j: nat)
    ensures Bit(Or(w, Pow2(i)), j) <==> Bit(w, j) || i == j
    decreases i
  {
    OrStep(w, Pow2(i));
    if i == 0 {
      OrZero(w / 2);
      if j > 0 { assert (2 * (w / 2) + 1) / 2 == w / 2; }
    } else {
      assert Pow2(i) / 2 == Pow2(i - 1) && Pow2(i) % 2 == 0;
      var x := Or(w / 2, Pow2(i - 1));
      assert (2 * x + w % 2) % 2 == w % 2 && (2 * x + w % 2) / 2 == x;
      if j > 0 { OrPow2(w / 2, i - 1, j - 1); }
    }
  }

  lemma {:induction false} OrStep(a: nat, b: nat)
    ensures Or(a, b) == 2 * Or(a / 2, b / 2) + (if a % 2 == 1 || b % 2 == 1 then 1 else 0)
  {
    if a == 0 { assert Or(0, b / 2) == b / 2; } else if b == 0 { OrZero(a / 2); }
  }

  lemma {:induction false} OrZero(a: nat)
    ensures Or(a, 0) == a
  {
  }

  // Blocks of consecutive numbers.

  /** The first number of the block of `d` consecutive numbers that `w` lies in. */
  function BlockStart(w: nat, d: nat): nat
    requires d > 0
  {
    w / d * d
  }

  lemma {:induction false} BlockStartHalf(w: nat, d: nat)
    requires d > 0
    ensures BlockStart(w, 2 * d) == 2 * BlockStart(w / 2, d)
  {
    DivHalf(w, d);
    var q := (w / 2) / d;
    assert 2 * (q * d) == q * (2 * d);
  }

  lemma {:induction false} BlockStartOne(w: nat)
    ensures BlockStart(w, 1) == w
  {
  }

  lemma {:induction false} DivHalf(w: nat, d: nat)
    requires d > 0
    ensures w / (2 * d) == (w / 2) / d
  {
    var q, r := (w / 2) / d, (w / 2) % d;
    assert w / 2 == q * d + r;
    var t := 2 * r + w % 2;
    assert w == q * (2 * d) + t && 0 <= t < 2 * d;
    DivUnique(w, 2 * d, q, t);
  }

  lemma {:induction false} DivUnique(w: nat, d: nat, q: nat, t: nat)
    requires w == q * d + t && t < d
    ensures w / d == q
  {
    var p, r := w / d, w % d;
    assert w == p * d + r && 0 <= r < d;
    if p < q { assert (p + 1) * d <= q * d by { MulLe(p + 1, q, d); } }
    if q < p { assert (q + 1) * d <= p * d by { MulLe(q + 1, p, d); } }
  }

  lemma {:induction false} MulLe(a: nat, b: nat, d: nat)
    requires a <= b
    ensures a * d <= b * d
  {
    assert b * d == a * d + (b - a) * d;
  }

  lemma {:induction false} BlockMeaning(v: nat, base: nat, d: nat)
    requires d > 0
    ensures BlockStart(base, d) <= v <= BlockStart(base, d) + d - 1 <==> v / d == base / d
  {
    var q := base / d;
    if q * d <= v <= q * d + d - 1 { DivUnique(v, d, q, v - q * d); }
    if v / d == q { assert v == q * d + v % d; }
  }

  lemma {:induction false} Pow2Step(n: nat)
    ensures Pow2(n) == if n == 0 then 1 else 2 * Pow2(n - 1)
  {
  }

  lemma {:induction false} Pow2Sum(a: nat, b: nat)
    ensures Pow2(a + b) == Pow2(a) * Pow2(b)
    decreases b
  {
    if b > 0 { Pow2Sum(a, b - 1); }
  }

  /** Clearing `a` low bits and then `b` more is clearing them all at once. */
  lemma {:induction false} BlockStartTwice(v: nat, a: nat, b: nat)
    ensures BlockStart(BlockStart(v, Pow2(a)), Pow2(a + b)) == BlockStart(v, Pow2(a + b))
    decreases a
  {
    hide BlockStart, Pow2;
    Pow2Step(a);
    if a == 0 {
      BlockStartOne(v);
    } else {
      Pow2Step(a + b);
      var x := BlockStart(v / 2, Pow2(a - 1));
      BlockStartHalf(v, Pow2(a - 1));
      BlockStartHalf(2 * x, Pow2(a - 1 + b));
      BlockStartHalf(v, Pow2(a - 1 + b));
      BlockStartTwice(v / 2, a - 1, b);
    }
  }

  lemma {:induction false} BlockStartLe(w: nat, d: nat)
    requires d > 0
    ensures BlockStart(w, d) <= w
  {
    assert w == w / d * d + w % d;
  }

  /** Starts of blocks of `m * k` numbers are zero or at least `m`. */
  lemma {:induction false} BlockStartMultiple(w: nat, m: nat, k: nat)
    requires m > 0 && k > 0 && m * k > 0
    ensures BlockStart(w, m * k) == 0 || BlockStart(w, m * k) >= m
  {
    var d := m * k;
    var q := w / d;
    if q > 0 {
      MulLe(1, q, d);
      MulLe(1, k, m);
    }
  }

  // Exclusive or.

  function Xor(a: nat, b: nat): nat
    decreases a + b
  {
    if a == 0 then b
    else if b == 0 then a
    else 2 * Xor(a / 2, b / 2) + (if a % 2 != b % 2 then 1 else 0)
  }

  lemma {:induction false} XorTwice(a: nat, b: nat)
    ensures Xor(a, Xor(a, b)) == b
    decreases a + b
  {
    if a != 0 && b != 0 {
      XorTwice(a / 2, b / 2);
      var x := Xor(a / 2, b / 2);
      var d := if a % 2 != b % 2 then 1 else 0;
      assert (2 * x + d) / 2 == x && (2 * x + d) % 2 == d;
      XorStep(a, 2 * x + d);
    } else if a != 0 {
      XorSelf(a);
    }
  }

  lemma {:induction false} XorStep(a: nat, b: nat)
    ensures Xor(a, b) == 2 * Xor(a / 2, b / 2) + (if a % 2 != b % 2 then 1 else 0)
  {
    if a == 0 { assert Xor(0, b / 2) == b / 2; } else if b == 0 { assert Xor(a / 2, 0) == a / 2; }
  }

  lemma {:induction false} XorSelf(a: nat)
    ensures Xor(a, a) == 0
  {
    if a != 0 { XorSelf(a / 2); }
  }

  lemma {:induction false} XorBound(a: nat, b: nat, n: nat)
    requires a < Pow2(n) && b < Pow2(n)
    ensures Xor(a, b) < Pow2(n)
    decreases n
  {
    if a != 0 && b != 0 { XorBound(a / 2, b / 2, n - 1); }
  }
}
