/** Option and Result values, the fixed-width unsigned integers of the source, and bytes
    standing somewhere in others. */
module Prelude {

  datatype Option<+T> = None | Some(value: T)

  datatype Result<+T, +E> = Ok(value: T) | Err(error: E)

  type byte = b: int | 0 <= b < 0x100
  type u16 = n: int | 0 <= n < 0x1_0000
  type u32 = n: int | 0 <= n < 0x1_0000_0000
  type u64 = n: int | 0 <= n < 0x1_0000_0000_0000_0000

  function MinNat(a: nat, b: nat): nat {
    if a <= b then a else b
  }

  function MaxNat(a: nat, b: nat): nat {
    if a >= b then a else b
  }

  /** `s` stands at `pos` in `f`. */
  ghost predicate At(f: seq<byte>, pos: nat, s: seq<byte>) {
    pos + |s| <= |f| && f[pos..pos + |s|] == s
  }

  lemma {:induction false} AtCat(f: seq<byte>, pos: nat, a: seq<byte>, b: seq<byte>)
    ensures At(f, pos, a + b) <==> At(f, pos, a) && At(f, pos + |a|, b)
  {
    var n := |a| + |b|;
    if pos + n <= |f| {
      var whole := f[pos..pos + n];
      assert whole == f[pos..pos + |a|] + f[pos + |a|..pos + n];
      if whole == a + b {
        assert whole[..|a|] == a && whole[|a|..] == b;
      }
    }
  }
}
