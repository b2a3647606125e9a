/** The singleflight table of `src/singleflight.rs`. A waiter is known by the number
    of its channel; `sent` records what went into each channel. */
module Singleflight {
  import opened Prelude
  import opened BitWords

  const SHARDS: nat := 64

  /** What a follower's channel yields: a response, a deliberate drop, or an error
      because the leader went away. */
  datatype Outcome = Response(bytes: seq<byte>) | NoReply | Closed

  type Waiters = seq<nat>
  /** Key `k` lives in shard `k % 64`. */
  type Table = seq<map<u64, Waiters>>

  predicate TableOk(t: Table) {
    |t| == SHARDS && forall s, k :: 0 <= s < SHARDS && k in t[s] ==> k % SHARDS == s
  }

  function Find(t: Table, k: u64): Option<Waiters>
    requires TableOk(t)
  {
    if k in t[k % SHARDS] then Some(t[k % SHARDS][k]) else None
  }

  function Put(t: Table, k: u64, w: Waiters): (r: Table)
    requires TableOk(t)
    ensures TableOk(r)
    ensures forall x: u64 :: Find(r, x) == if x == k then Some(w) else Find(t, x)
  {
    var shard: map<u64, Waiters> := t[k % SHARDS][k := w];
    t[k % SHARDS := shard]
  }

  function Delete(t: Table, k: u64): (r: Table)
    requires TableOk(t)
    ensures TableOk(r)
    ensures forall x: u64 :: Find(r, x) == if x == k then None else Find(t, x)
  {
    t[k % SHARDS := t[k % SHARDS] - {k}]
  }

  function WaitersOf(t: Table, k: u64): Waiters
    requires TableOk(t)
  {
    if Find(t, k).Some? then Find(t, k).value else []
  }

  /** The channels after `v` has been sent to each of `w` in order. */
  function SentTo(sent: map<nat, seq<Outcome>>, w: Waiters, v: Outcome): map<nat, seq<Outcome>> {
    if w == [] then sent
    else
      var before := SentTo(sent, w[..|w| - 1], v);
      var c := w[|w| - 1];
      before[c := (if c in before then before[c] else []) + [v]]
  }

  class InflightTable {
    var shards: Table
    var channels: nat
    var sent: map<nat, seq<Outcome>>

    constructor ()
      ensures TableOk(shards) && (forall k: u64 :: Find(shards, k).None?) && channels == 0 && sent == map[]
    {
      shards := seq(SHARDS, _ => map[]);
      channels := 0;
      sent := map[];
    }

    /** `None` makes the caller the leader; otherwise the channel to wait on. */
    method Register(key: u64) returns (r: Option<nat>)
      requires TableOk(shards)
      modifies this`shards, this`channels
      ensures TableOk(shards)
      ensures r.None? <==> Find(old(shards), key).None?
      ensures r.None? ==> shards == Put(old(shards), key, []) && channels == old(channels)
      ensures r.Some? ==>
                && r.value == old(channels) && channels == old(channels) + 1
                && shards == Put(old(shards), key, Find(old(shards), key).value + [r.value])
    {
      var shard := shards[key % SHARDS];
      if key in shard {
        var channel := channels;
        channels := channels + 1;
        shards := Put(shards, key, shard[key] + [channel]);
        return Some(channel);
      } else {
        shards := Put(shards, key, []);
        return None;
      }
    }

    method TakeWaiters(key: u64) returns (w: Waiters)
      requires TableOk(shards)
      modifies this`shards
      ensures TableOk(shards) && shards == Delete(old(shards), key)
      ensures w == WaitersOf(old(shards), key)
    {
      var shard := shards[key % SHARDS];
      w := if key in shard then shard[key] else [];
      shards := Delete(shards, key);
    }

    /** `publish_bytes`, `publish_drop` and `remove` differ only in what each waiter gets. */
    method Publish(key: u64, v: Outcome)
      requires TableOk(shards)
      modifies this`shards, this`sent
      ensures TableOk(shards) && shards == Delete(old(shards), key)
      ensures sent == SentTo(old(sent), WaitersOf(old(shards), key), v)
    {
      var w := TakeWaiters(key);
      assert w[..0] == [];
      for i := 0 to |w|
        invariant sent == SentTo(old(sent), w[..i], v)
        invariant TableOk(shards) && shards == Delete(old(shards), key)
      {
        assert w[..i + 1][..i] == w[..i];
        sent := sent[w[i] := (if w[i] in sent then sent[w[i]] else []) + [v]];
      }
      assert w[..|w|] == w;
    }
  }

  /** Each of a list of distinct waiters gets exactly one more value, nobody else anything. */
  lemma {:induction false} SentOnce(sent: map<nat, seq<Outcome>>, w: Waiters, v: Outcome, c: nat)
    requires forall i, j :: 0 <= i < j < |w| ==> w[i] != w[j]
    ensures var after := SentTo(sent, w, v);
            if c in w then c in after && after[c] == (if c in sent then sent[c] else []) + [v]
            else (c in after <==> c in sent) && (c in sent ==> after[c] == sent[c])
  {
    if w != [] {
      SentOnce(sent, w[..|w| - 1], v, c);
      assert w == w[..|w| - 1] + [w[|w| - 1]];
    }
  }

  // Keys of different generations.

  const MULTIPLIER: nat := 0x9e37_79b9_7f4a_7c15
  const INVERSE: nat := 0xf1de_83e1_9937_733d

  function SpreadGeneration(generation: nat): nat {
    (generation * MULTIPLIER) % TWO64
  }

  /** The singleflight key of a cache key under a routing generation. */
  function FlightKey(cacheKey: u64, generation: u64): u64 {
    Pow2Of64();
    XorBound(cacheKey, SpreadGeneration(generation), 64);
    Xor(cacheKey, SpreadGeneration(generation))
  }

  lemma {:induction false} MultiplierInvertible()
    ensures (MULTIPLIER * INVERSE) % TWO64 == 1
  {
  }

  lemma {:induction false} ModProduct(a: nat, b: nat)
    ensures (a % TWO64) * b % TWO64 == a * b % TWO64
  {
    var q, r := a / TWO64, a % TWO64;
    assert a * b == (q * TWO64 + r) * b == q * b * TWO64 + r * b;
    ModShift(r * b, q * b);
  }

  lemma {:induction false} ModShift(x: nat, k: nat)
    ensures (x + k * TWO64) % TWO64 == x % TWO64
  {
  }

  /** Multiplying by the inverse undoes the spreading, so no two generations collide. */
  lemma {:induction false} SpreadInjective(g: nat)
    requires g < TWO64
    ensures SpreadGeneration(g) * INVERSE % TWO64 == g
  {
    MultiplierInvertible();
    ModProduct(g * MULTIPLIER, INVERSE);
    assert g * MULTIPLIER * INVERSE == (MULTIPLIER * INVERSE) * g;
    ModProduct(MULTIPLIER * INVERSE, g);
  }

  lemma {:induction false} FlightKeySeparates(cacheKey: u64, g: u64, h: u64)
    requires FlightKey(cacheKey, g) == FlightKey(cacheKey, h)
    ensures g == h
  {
    XorTwice(cacheKey, SpreadGeneration(g));
    XorTwice(cacheKey, SpreadGeneration(h));
    SpreadInjective(g);
    SpreadInjective(h);
  }
}
