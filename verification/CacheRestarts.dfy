/** A restart in between: one session of the response cache is saved to a file, and the
    next one starts from it. */
module CacheRestarts {
  import opened Prelude
  import opened BitWords
  import opened Question
  import opened Ttl
  import opened Cache
  import opened CacheRuns
  import opened Persist
  import CacheKey

  /** When a session is saved and when the next one loads the file; the monotonic clock is
      read anew for every key saved. */
  datatype Restart = Restart(fingerprint: u64, wall: nat, clock: u64 -> nat, wall2: nat, clock2: nat)

  ghost predicate Restartable(s: Store, keys: seq<u64>, x: Restart) {
    && x.wall + 0x1_0000_0000 < TWO64 && Enumerates(keys, s) && |keys| < 0x1_0000_0000
    && forall k :: k in s ==> Savable(s[k])
  }

  lemma {:induction false} SafeAfterwards(s: Store, back: Store, keys: seq<u64>, x: Restart)
    requires Restartable(s, keys, x)
    requires forall k: u64 :: ReturnsAs(s, back, k, x.wall, x.clock, x.wall2, x.clock2)
    ensures StoreOk(back)
  {
    hide Remaining, Enumerates;
    forall k | k in back ensures EntryOk(back[k]) {
      assert ReturnsAs(s, back, k, x.wall, x.clock, x.wall2, x.clock2);
      assert Savable(s[k]);
    }
  }

  /** What the next session starts from: what was live, with less time left. */
  ghost function Reloaded(s: Store, keys: seq<u64>, x: Restart): (back: Store)
    requires Restartable(s, keys, x)
    ensures StoreOk(back)
    ensures forall k: u64 :: ReturnsAs(s, back, k, x.wall, x.clock, x.wall2, x.clock2)
  {
    SaveThenLoad(s, keys, x.fingerprint, x.wall, x.clock, x.wall2, x.clock2);
    var r := Loaded(Saved(s, keys, x.fingerprint, x.wall, x.clock), x.fingerprint, map[], x.wall2, x.clock2);
    SafeAfterwards(s, r.store, keys, x);
    r.store
  }

  ghost predicate EventsOk(events: seq<Event>) {
    forall j :: 0 <= j < |events| ==> EventOk(events[j])
  }

  lemma {:induction false} SplitAge(inserted: nat, loaded: nat, now: nat)
    requires inserted <= loaded <= now
    ensures Age(loaded, inserted) + (now - loaded) / NANOS <= Age(now, inserted)
  {
  }

  /** An entry that is fresh now, counted from when it was loaded. */
  lemma {:induction false} FreshSince(e: Entry, loaded: nat, now: nat)
    requires e.inserted <= loaded <= now && Cache.Fresh(e, now)
    ensures (now - loaded) / NANOS < Remaining(e, loaded)
  {
    hide Age;
    SplitAge(e.inserted, loaded, now);
  }

  lemma {:induction false} SameButClock(add: Event, e: Entry, x: Entry, l: Lookup, now: nat)
    requires add.Add? && InsertOk(add.ins) && EntryOf(add) == Some(e) && x == e.(inserted := x.inserted, ttl := x.ttl)
    requires x.ttl <= e.ttl && EntryOk(x) && 12 <= l.questionEnd && QueriesMatch(x, l) && Cache.Fresh(x, now)
    ensures HitFrom(Hit(Served(x, l, now), x.qname, x.ruleId), l, add, Age(now, x.inserted))
  {
    hide EffectiveTtl, Serves, CacheKey.ExtraHash, QuestionsMatch, SameQuestion, Patched, Readdressed, SetId, Age;
    MatchExact(add.ins.query[12..l.questionEnd], l.query[12..l.questionEnd]);
    ServedMeaning(add.ins, add.policy, add.ruleId, x.inserted, l, now);
  }

  /** By the deadline recorded in the file. */
  ghost predicate InTime(e: Entry, key: u64, x: Restart, now: nat) {
    var left := Remaining(e, x.clock(key));
    && left > 0 && x.wall + left > x.wall2
    && (now >= x.clock2 ==> (now - x.clock2) / NANOS < MinNat(x.wall + left - x.wall2, e.ttl))
  }

  lemma {:induction false} ReturnedInTime(s: Store, s0: Store, key: u64, x: Restart, now: nat)
    requires key in s0 && ReturnsAs(s, s0, key, x.wall, x.clock, x.wall2, x.clock2) && Cache.Fresh(s0[key], now)
    ensures key in s && InTime(s[key], key, x, now)
    ensures s0[key] == s[key].(inserted := s0[key].inserted, ttl := s0[key].ttl) && s0[key].ttl <= s[key].ttl
  {
    hide Remaining, Cache.Fresh;
    if now >= x.clock2 { FreshSince(s0[key], x.clock2, now); }
  }

  /** Every hit of a session that follows another: without an insertion of its own session
      to answer from, it answers from the last insertion of the session before, as if that
      had happened when the reloaded entry says, and by the deadline that was recorded. */
  lemma {:induction false} HitAcrossRestart(events: seq<Event>, s: Store, keys: seq<u64>, x: Restart, s0: Store,
                                            later: seq<Event>, i: nat)
    requires EventsOk(events) && s == StoreAt(map[], events, |events|)
    requires Restartable(s, keys, x) && s0 == Reloaded(s, keys, x)
    requires EventsOk(later) && i < |later| && later[i].Look?
    requires Answer(StoreAt(s0, later, i), later[i].lookup, later[i].now).Some?
    requires LastAdd(later, i, later[i].lookup.key).None?
    ensures var l, now := later[i].lookup, later[i].now;
            var hit, last := Answer(StoreAt(s0, later, i), l, now).value, LastAdd(events, |events|, l.key);
            && last.Some? && l.key in s && l.key in s0 && NeverCleared(later, i)
            && HitFrom(hit, l, events[last.value], Age(now, s0[l.key].inserted))
            && InTime(s[l.key], l.key, x, now)
  {
    hide StoreAt, LastAdd, HitFrom, Answer, QueriesMatch, Cache.Fresh, Served, MakeEntry, Reloaded, InTime, ReturnsAs,
         Restartable, NeverCleared;
    var l, now := later[i].lookup, later[i].now;
    HitOrigin(s0, later, i);
    ReturnedInTime(s, s0, l.key, x, now);
    StoredByLast(map[], events, |events|, l.key);
    SameButClock(events[LastAdd(events, |events|, l.key).value], s[l.key], s0[l.key], l, now);
  }
}
