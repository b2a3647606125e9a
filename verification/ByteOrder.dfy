/** Numbers as byte strings, least or most significant byte first. */
module ByteOrder {
  import opened Prelude
  import opened BitWords

  function LeBytes(n: nat, k: nat): (r: seq<byte>)
    ensures |r| == k
    decreases k
  {
    if k == 0 then [] else [n % 0x100] + LeBytes(n / 0x100, k - 1)
  }

  function LeValue(s: seq<byte>): nat {
    if s == [] then 0 else s[0] + 0x100 * LeValue(s[1..])
  }

  lemma {:induction false} LeRoundTrip(n: nat, k: nat)
    requires n < Pow2(8 * k)
    ensures LeValue(LeBytes(n, k)) == n
    decreases k
  {
    if k > 0 {
      ByteStep(k - 1);
      LeRoundTrip(n / 0x100, k - 1);
      assert LeBytes(n, k)[1..] == LeBytes(n / 0x100, k - 1);
    }
  }

  lemma {:induction false} ByteStep(k: nat)
    ensures Pow2(8 * (k + 1)) == 0x100 * Pow2(8 * k)
  {
    Pow2Sum(8 * k, 8);
    assert Pow2(8) == 0x100 by { assert Pow2(4) == 16; }
  }

  lemma {:induction false} LeBound(s: seq<byte>)
    ensures LeValue(s) < Pow2(8 * |s|)
    decreases |s|
  {
    if s != [] {
      LeBound(s[1..]);
      ByteStep(|s| - 1);
    }
  }

  lemma {:induction false} WordBounds()
    ensures Pow2(8 * 2) == 0x1_0000 && Pow2(8 * 4) == 0x1_0000_0000 && Pow2(8 * 8) == TWO64
  {
    hide Pow2;
    Pow2Step(0);
    ByteStep(0);
    ByteStep(1);
    ByteStep(2);
    ByteStep(3);
    ByteStep(4);
    ByteStep(5);
    ByteStep(6);
    ByteStep(7);
  }

  function BeBytes(n: nat, k: nat): (r: seq<byte>)
    ensures |r| == k
    decreases k
  {
    if k == 0 then [] else BeBytes(n / 0x100, k - 1) + [n % 0x100]
  }

  lemma {:induction false} BeInjective(m: nat, n: nat, k: nat)
    requires m < Pow2(8 * k) && n < Pow2(8 * k) && BeBytes(m, k) == BeBytes(n, k)
    ensures m == n
    decreases k
  {
    if k > 0 {
      ByteStep(k - 1);
      var a, b := BeBytes(m, k), BeBytes(n, k);
      assert a[..k - 1] == BeBytes(m / 0x100, k - 1) && b[..k - 1] == BeBytes(n / 0x100, k - 1);
      assert a[k - 1] == m % 0x100 && b[k - 1] == n % 0x100;
      BeInjective(m / 0x100, n / 0x100, k - 1);
    }
  }
}
