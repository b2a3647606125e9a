/** The rank/select bitmap of `src/mrs.rs`, and its agreement with naive counting
    over the plain sequence of bits. */
module RankSelect {
  import opened Prelude
  import opened BitWords

  /** `prefix[w]` is meant to hold the number of set bits in `words[..w]`. */
  datatype RankBitmap = RankBitmap(words: seq<Word>, prefix: seq<nat>)

  function OnesInWords(words: seq<Word>, w: nat): nat
    requires w <= |words|
  {
    if w == 0 then 0 else OnesInWords(words, w - 1) + CountOnes(words[w - 1])
  }

  ghost predicate Valid(b: RankBitmap) {
    && |b.prefix| == |b.words| + 1
    && forall w :: 0 <= w <= |b.words| ==> b.prefix[w] == OnesInWords(b.words, w)
  }

  method NewRankBitmap(words: seq<Word>) returns (b: RankBitmap)
    ensures b.words == words
    ensures Valid(b)
  {
    var prefix := [0];
    var acc := 0;
    for i := 0 to |words|
      invariant |prefix| == i + 1
      invariant acc == OnesInWords(words, i)
      invariant forall w :: 0 <= w <= i ==> prefix[w] == OnesInWords(words, w)
    {
      acc := acc + CountOnes(words[i]);
      prefix := prefix + [acc];
    }
    b := RankBitmap(words, prefix);
  }

  function TotalBits(b: RankBitmap): nat {
    |b.words| * 64
  }

  function Get(b: RankBitmap, i: nat): Option<bool> {
    if i >= TotalBits(b) then None else Some(Bit(b.words[i / 64], i % 64))
  }

  function LowMask(bit: nat): nat
    requires bit < 64
  {
    if bit == 0 then 0 else Shr(MAX_WORD, 64 - bit)
  }

  function Rank1(b: RankBitmap, i: nat): Option<nat>
    requires |b.prefix| == |b.words| + 1
  {
    if i > TotalBits(b) then None
    else
      var wordIdx := i / 64;
      var bit := i % 64;
      var mask := LowMask(bit);
      var word := if wordIdx < |b.words| then b.words[wordIdx] else 0;
      Some(b.prefix[wordIdx] + CountOnes(And(word, mask)))
  }

  /** `i` minus the rank of ones; the subtraction cannot underflow (`Rank0Correct`). */
  function Rank0(b: RankBitmap, i: nat): Option<int>
    requires |b.prefix| == |b.words| + 1
  {
    match Rank1(b, i)
    case None => None
    case Some(r) => Some(i - r)
  }

  /** Length of the longest prefix of `s` whose elements are all at most `k`. */
  function PartitionPoint(s: seq<nat>, k: nat): (r: nat)
    ensures r <= |s|
  {
    if s == [] || s[0] > k then 0 else 1 + PartitionPoint(s[1..], k)
  }

  function SelectInWord(word: nat, k: nat): Option<nat>
    decreases k
  {
    if word == 0 then None
    else if k == 0 then Some(TrailingZeros(word))
    else SelectInWord(And(word, word - 1), k - 1)
  }

  method Select1InWord(w: nat, k: nat) returns (r: Option<nat>)
    ensures r == SelectInWord(w, k)
    ensures r.Some? ==> Bit(w, r.value) && LowOnes(w, r.value) == k
    ensures r.None? ==> CountOnes(w) <= k
  {
    var word, remaining := w, k;
    while true
      invariant SelectInWord(word, remaining) == SelectInWord(w, k)
      invariant CountOnes(w) - k == CountOnes(word) - remaining
      decreases remaining
    {
      if word == 0 { return None; }
      var tz := TrailingZeros(word);
      if remaining == 0 {
        SelectInWordCorrect(w, k, tz);
        return Some(tz);
      }
      CountAfterClear(word);
      word := And(word, word - 1);
      remaining := remaining - 1;
    }
  }

  function Select1(b: RankBitmap, k: nat): Option<nat>
    requires |b.prefix| == |b.words| + 1
  {
    var pp := PartitionPoint(b.prefix, k);
    if pp == 0 then None
    else if pp - 1 >= |b.words| then None
    else
      var within := k - b.prefix[pp - 1];
      match if within < 0 then None else SelectInWord(b.words[pp - 1], within)
      case None => None
      case Some(i) => Some((pp - 1) * 64 + i)
  }

  // The naive view.

  function Bits(words: seq<Word>): (bits: seq<bool>)
    ensures |bits| == |words| * 64
  {
    seq(|words| * 64, i requires 0 <= i < |words| * 64 => Bit(words[i / 64], i % 64))
  }

  /** Set bits among the first `i`. */
  function Ones(bits: seq<bool>, i: nat): (r: nat)
    requires i <= |bits|
    ensures r <= i
  {
    if i == 0 then 0 else Ones(bits, i - 1) + (if bits[i - 1] then 1 else 0)
  }

  /** Clear bits among the first `i`. */
  function Zeros(bits: seq<bool>, i: nat): (r: nat)
    requires i <= |bits|
  {
    i - Ones(bits, i)
  }

  lemma {:induction false} OnesMonotone(bits: seq<bool>, i: nat, j: nat)
    requires i <= j <= |bits|
    ensures Ones(bits, i) <= Ones(bits, j)
    ensures Zeros(bits, i) <= Zeros(bits, j)
  {
    if i < j { OnesMonotone(bits, i, j - 1); }
  }

  /** Two positions of the same kind and rank are the same position. */
  lemma {:induction false} OnesInjective(bits: seq<bool>, i: nat, j: nat)
    requires i < |bits| && j < |bits|
    requires bits[i] && bits[j] && Ones(bits, i) == Ones(bits, j)
    ensures i == j
  {
    if i != j {
      var lo, hi := if i < j then i else j, if i < j then j else i;
      OnesMonotone(bits, lo + 1, hi);
    }
  }

  lemma {:induction false} ZerosInjective(bits: seq<bool>, i: nat, j: nat)
    requires i < |bits| && j < |bits|
    requires !bits[i] && !bits[j] && Zeros(bits, i) == Zeros(bits, j)
    ensures i == j
  {
    if i != j {
      var lo, hi := if i < j then i else j, if i < j then j else i;
      OnesMonotone(bits, lo + 1, hi);
    }
  }

  /** Every rank below the total is the rank of some set bit. */
  lemma {:induction false} OneOfRank(bits: seq<bool>, k: nat, n: nat) returns (p: nat)
    requires n <= |bits| && k < Ones(bits, n)
    ensures p < n && bits[p] && Ones(bits, p) == k
  {
    if Ones(bits, n - 1) == k { p := n - 1; } else { p := OneOfRank(bits, k, n - 1); }
  }

  /** Every rank below the total is the rank of some clear bit. */
  lemma {:induction false} ZeroOfRank(bits: seq<bool>, k: nat, n: nat) returns (p: nat)
    requires n <= |bits| && k < Zeros(bits, n)
    ensures p < n && !bits[p] && Zeros(bits, p) == k
  {
    if bits[n - 1] || Zeros(bits, n - 1) > k { p := ZeroOfRank(bits, k, n - 1); } else { p := n - 1; }
  }

  // Within one word.

  lemma {:induction false} CountAfterClear(w: nat)
    requires w != 0
    ensures CountOnes(And(w, w - 1)) == CountOnes(w) - 1
  {
    ClearLowest(w, 0);
    var n := w;
    Pow2Exceeds(w);
    CountOnesIsLowOnes(w, n);
    CountOnesIsLowOnes(And(w, w - 1), n);
    LowOnesAfterClear(w, n);
    TrailingZerosBelow(w, n);
  }

  lemma {:induction false} Pow2Exceeds(n: nat)
    ensures n < Pow2(n)
  {
    if n > 0 { Pow2Exceeds(n - 1); }
  }

  lemma {:induction false} TrailingZerosBelow(w: nat, n: nat)
    requires w != 0 && w < Pow2(n)
    ensures TrailingZeros(w) < n
  {
    if w % 2 == 0 { TrailingZerosBelow(w / 2, n - 1); }
  }

  lemma {:induction false} SelectInWordCorrect(w: nat, k: nat, p: nat)
    ensures SelectInWord(w, k) == Some(p) <==> Bit(w, p) && LowOnes(w, p) == k
    decreases k
  {
    if w == 0 {
      BitOfZero(p);
    } else {
      var tz := TrailingZeros(w);
      TrailingZerosIsLowest(w);
      if p > tz { LowOnesMonotone(w, tz + 1, p); }
      if k > 0 {
        SelectInWordCorrect(And(w, w - 1), k - 1, p);
        ClearLowest(w, p);
        LowOnesAfterClear(w, p);
      }
    }
  }

  // Across words.

  lemma {:induction false} WordFits(w: Word)
    ensures w < Pow2(64)
  {
    Pow2Of64();
  }

  lemma {:induction false} OnesSplit(words: seq<Word>, w: nat, j: nat)
    requires w <= |words| && j <= 64 && (j == 0 || w < |words|)
    ensures Ones(Bits(words), w * 64 + j) ==
            OnesInWords(words, w) + (if j == 0 then 0 else LowOnes(words[w], j))
    decreases w, j
  {
    hide Pow2, CountOnes, Bit;
    if j > 0 {
      OnesSplit(words, w, j - 1);
      var i := w * 64 + (j - 1);
      assert i / 64 == w && i % 64 == j - 1;
      assert Bits(words)[i] == Bit(words[w], j - 1);
    } else if w > 0 {
      OnesSplit(words, w - 1, 64);
      WordFits(words[w - 1]);
      CountOnesIsLowOnes(words[w - 1], 64);
    }
  }

  lemma {:induction false} LowMaskCount(word: nat, bit: nat)
    requires bit < 64
    ensures CountOnes(And(word, LowMask(bit))) == LowOnes(word, bit)
  {
    if bit == 0 {
      AndZero(word);
    } else {
      Pow2Of64();
      ShrAllOnes(64 - bit, 64);
      MaskedCount(word, bit);
    }
  }

  lemma {:induction false} Rank1Correct(b: RankBitmap, i: nat)
    requires Valid(b)
    ensures Rank1(b, i) == if i <= TotalBits(b) then Some(Ones(Bits(b.words), i)) else None
  {
    hide LowMask, And, Shr, Pow2, CountOnes, LowOnes, Ones, OnesInWords, Bit;
    if i <= TotalBits(b) {
      var wordIdx, bit := i / 64, i % 64;
      OnesSplit(b.words, wordIdx, bit);
      LowMaskCount(if wordIdx < |b.words| then b.words[wordIdx] else 0, bit);
      LowOnesEmpty(if wordIdx < |b.words| then b.words[wordIdx] else 0);
    }
  }

  lemma {:induction false} LowOnesEmpty(word: nat)
    ensures LowOnes(word, 0) == 0
  {
  }

  lemma {:induction false} Rank0Correct(b: RankBitmap, i: nat)
    requires Valid(b)
    ensures Rank0(b, i) == if i <= TotalBits(b) then Some(Zeros(Bits(b.words), i)) else None
  {
    Rank1Correct(b, i);
  }

  lemma {:induction false} PartitionPointAt(s: seq<nat>, k: nat, m: nat)
    requires m < |s| && s[m] > k
    requires forall i :: 0 <= i < m ==> s[i] <= k
    ensures PartitionPoint(s, k) == m
  {
    if m > 0 { PartitionPointAt(s[1..], k, m - 1); }
  }

  lemma {:induction false} Select1Sound(b: RankBitmap, k: nat, p: nat)
    requires Valid(b)
    requires Select1(b, k) == Some(p)
    ensures p < TotalBits(b) && Bits(b.words)[p] && Ones(Bits(b.words), p) == k
  {
    var w := PartitionPoint(b.prefix, k) - 1;
    var within := k - b.prefix[w];
    var j := p - w * 64;
    SelectInWordCorrect(b.words[w], within, j);
    SelectedBelow64(b.words[w], j);
    assert p / 64 == w && p % 64 == j;
    OnesSplit(b.words, w, j);
  }

  lemma {:induction false} PrefixIsRank(b: RankBitmap, w: nat, p: nat)
    requires Valid(b) && w <= |b.words| && p <= TotalBits(b)
    ensures w * 64 <= p ==> b.prefix[w] <= Ones(Bits(b.words), p)
    ensures p <= w * 64 ==> Ones(Bits(b.words), p) <= b.prefix[w]
  {
    OnesSplit(b.words, w, 0);
    if w * 64 <= p { OnesMonotone(Bits(b.words), w * 64, p); } else { OnesMonotone(Bits(b.words), p, w * 64); }
  }

  lemma {:induction false} WordOfRank(b: RankBitmap, p: nat)
    requires Valid(b)
    requires p < TotalBits(b) && Bits(b.words)[p]
    ensures PartitionPoint(b.prefix, Ones(Bits(b.words), p)) == p / 64 + 1
  {
    var k := Ones(Bits(b.words), p);
    var w := p / 64;
    PrefixIsRank(b, w + 1, p + 1);
    forall i | 0 <= i < w + 1 ensures b.prefix[i] <= k {
      PrefixIsRank(b, i, p);
    }
    PartitionPointAt(b.prefix, k, w + 1);
  }

  lemma {:induction false} Select1Complete(b: RankBitmap, p: nat)
    requires Valid(b)
    requires p < TotalBits(b) && Bits(b.words)[p]
    ensures Select1(b, Ones(Bits(b.words), p)) == Some(p)
  {
    var k := Ones(Bits(b.words), p);
    var w, j := p / 64, p % 64;
    WordOfRank(b, p);
    assert Bit(b.words[w], j);
    OnesSplit(b.words, w, j);
    SelectInWordCorrect(b.words[w], k - b.prefix[w], j);
  }

  /** `select1(k)` is the one set bit of rank `k`. */
  lemma {:induction false} Select1Correct(b: RankBitmap, k: nat, p: nat)
    requires Valid(b)
    ensures Select1(b, k) == Some(p) <==>
            p < TotalBits(b) && Bits(b.words)[p] && Ones(Bits(b.words), p) == k
  {
    if Select1(b, k) == Some(p) {
      Select1Sound(b, k, p);
    } else if p < TotalBits(b) && Bits(b.words)[p] && Ones(Bits(b.words), p) == k {
      Select1Complete(b, p);
    }
  }

  lemma {:induction false} SelectedBelow64(w: Word, j: nat)
    requires Bit(w, j)
    ensures j < 64
  {
    if j >= 64 {
      WordFits(w);
      HighBitsClear(w, 64, j);
    }
  }

  lemma {:induction false} HighBitsClear(w: nat, n: nat, j: nat)
    requires w < Pow2(n) && n <= j
    ensures !Bit(w, j)
  {
    if w == 0 { BitOfZero(j); } else { HighBitsClear(w / 2, n - 1, j - 1); }
  }

  /** `select1` fails exactly when there are not enough set bits. */
  lemma {:induction false} Select1None(b: RankBitmap, k: nat)
    requires Valid(b)
    ensures Select1(b, k).None? <==> k >= Ones(Bits(b.words), TotalBits(b))
  {
    var bits := Bits(b.words);
    if k < Ones(bits, |bits|) {
      var p := OneOfRank(bits, k, |bits|);
      Select1Correct(b, k, p);
    } else if Select1(b, k).Some? {
      var p := Select1(b, k).value;
      Select1Correct(b, k, p);
      OnesMonotone(bits, p + 1, |bits|);
    }
  }
}
