/** The upstream ID registry of `src/upstream/inflight.rs` and its methods. */
module Inflight {
  import opened Prelude
  import opened Wire
  import opened Question

  const SHARDS: nat := 64
  const ID_TRIES: nat := 65535
  const TOKENS: nat := 0x1_0000_0000_0000_0000

  datatype Entry = Entry(clientId: u16, question: seq<byte>, token: u64)

  /** 64 maps; ID `id` lives in shard `id % 64`. */
  type Table = seq<map<u16, Entry>>

  predicate TableOk(t: Table) {
    |t| == SHARDS && forall s, id :: 0 <= s < SHARDS && id in t[s] ==> id % SHARDS == s
  }

  function EmptyTable(): (t: Table)
    ensures TableOk(t)
  {
    seq(SHARDS, _ => map[])
  }

  function Find(t: Table, id: u16): Option<Entry>
    requires TableOk(t)
  {
    var shard := t[id % SHARDS];
    if id in shard then Some(shard[id]) else None
  }

  function Put(t: Table, id: u16, e: Entry): (r: Table)
    requires TableOk(t)
    ensures TableOk(r)
    ensures forall x: u16 :: Find(r, x) == if x == id then Some(e) else Find(t, x)
  {
    var shard: map<u16, Entry> := t[id % SHARDS][id := e];
    t[id % SHARDS := shard]
  }

  function Remove(t: Table, id: u16): (r: Table)
    requires TableOk(t)
    ensures TableOk(r)
    ensures forall x: u16 :: Find(r, x) == if x == id then None else Find(t, x)
  {
    t[id % SHARDS := t[id % SHARDS] - {id}]
  }

  function ClearedShard(t: Table, k: nat): (r: Table)
    requires TableOk(t) && k < SHARDS
    ensures TableOk(r)
    ensures forall x: u16 :: Find(r, x) == if x % SHARDS == k then None else Find(t, x)
  {
    t[k := map[]]
  }

  /** Remove the entry of `id` only if it still carries `token`. */
  function RemoveOwn(t: Table, id: u16, token: u64): (r: Table)
    requires TableOk(t)
    ensures TableOk(r)
    ensures forall x: u16 :: Find(r, x) ==
              if x == id && Find(t, id).Some? && Find(t, id).value.token == token then None else Find(t, x)
  {
    if Find(t, id).Some? && Find(t, id).value.token == token then Remove(t, id) else t
  }

  // Responses.

  function IdOf(p: seq<byte>): u16
    requires |p| >= 2
  {
    U16(p, 0)
  }

  function WithId(p: seq<byte>, id: u16): (r: seq<byte>)
    requires |p| >= 2
    ensures |r| == |p| && IdOf(r) == id && r[2..] == p[2..]
  {
    Be16(id) + p[2..]
  }

  /** The question bytes of a message, or nothing when it has no readable question. */
  function QuestionOf(p: seq<byte>): seq<byte> {
    var end := QuestionEnd(p);
    if end.Some? then p[12..end.value] else []
  }

  /** A reply with opcode QUERY and exactly one question. */
  predicate Plausible(p: seq<byte>) {
    |p| >= 12 && p[2] >= 0x80 && (p[2] / 8) % 16 == 0 && U16(p, 4) == 1
  }

  datatype Completion = Delivered | NoWaiter | Mismatch(id: u16)

  function Verdict(t: Table, p: seq<byte>): Completion
    requires TableOk(t)
  {
    if !Plausible(p) || Find(t, IdOf(p)).None? then NoWaiter
    else if QuestionsMatch(QuestionOf(p), Find(t, IdOf(p)).value.question) then Delivered
    else Mismatch(IdOf(p))
  }

  // Which packets are taken, said of their bytes.

  /** The packet is a reply with opcode QUERY and one question, under this ID. */
  ghost predicate RepliesTo(p: seq<byte>, id: u16) {
    && |p| >= 12 && (p[0] as int) * 0x100 + p[1] == id && p[4] == 0 && p[5] == 1
    && exists f: Flags :: HasFlags(p, f) && f.qr && f.opcode == 0
  }

  /** And its question is this one. */
  ghost predicate AsksFor(p: seq<byte>, question: seq<byte>) {
    exists end: nat :: QuestionStands(p, end) && SameQuestion(p[12..end], question)
  }

  lemma {:induction false} PlausibleExact(p: seq<byte>, id: u16)
    ensures Plausible(p) && IdOf(p) == id <==> RepliesTo(p, id)
  {
    if |p| >= 12 {
      var f := FlagsExist(p);
      forall g: Flags | HasFlags(p, g) ensures g.qr && g.opcode == 0 <==> p[2] >= 0x80 && (p[2] / 8) % 16 == 0 {
        OpcodeRead(p, g);
      }
    }
  }

  lemma {:induction false} OpcodeRead(p: seq<byte>, f: Flags)
    requires HasFlags(p, f)
    ensures f.qr <==> p[2] >= 0x80
    ensures (p[2] / 8) % 16 == f.opcode
  {
    var low := Weight(f.aa, 4) + Weight(f.tc, 2) + Weight(f.rd, 1);
    assert p[2] == 8 * (Weight(f.qr, 16) + f.opcode) + low;
    assert p[2] / 8 == Weight(f.qr, 16) + f.opcode;
  }

  lemma {:induction false} QuestionExact(p: seq<byte>, question: seq<byte>)
    ensures QuestionsMatch(QuestionOf(p), question) <==> AsksFor(p, question)
  {
    hide QuestionsMatch, SameQuestion, QuestionStands, QuestionEnd;
    var end := QuestionEnd(p);
    forall e: nat ensures end == Some(e) <==> QuestionStands(p, e) { QuestionEndExact(p, e); }
    MatchExact(QuestionOf(p), question);
    EmptyMatches(question);
  }

  lemma {:induction false} EmptyMatches(question: seq<byte>)
    ensures !QuestionsMatch([], question)
  {
  }

  /** The verdict in these terms. */
  lemma {:induction false} VerdictExact(t: Table, p: seq<byte>, id: u16)
    requires TableOk(t) && Find(t, id).Some?
    ensures Verdict(t, p).Delivered? && IdOf(p) == id <==> RepliesTo(p, id) && AsksFor(p, Find(t, id).value.question)
    ensures Verdict(t, p) == Mismatch(id) <==> RepliesTo(p, id) && !AsksFor(p, Find(t, id).value.question)
  {
    hide Plausible, QuestionsMatch, QuestionOf, RepliesTo, AsksFor, TableOk, Find;
    PlausibleExact(p, id);
    QuestionExact(p, Find(t, id).value.question);
    LongEnough(p);
  }

  lemma {:induction false} LongEnough(p: seq<byte>)
    ensures Plausible(p) ==> |p| >= 12
  {
  }

  // The registry object.

  datatype RegisterError = CapReached | TableFull

  /** The ID for the `i`-th counter value from `seed` on is taken. */
  ghost predicate Taken(t: Table, mix: u32 -> u16, seed: u32, i: nat)
    requires TableOk(t)
  {
    Find(t, mix((seed + i) % 0x1_0000_0000)).Some?
  }

  /** It is `id`, and the ones before are taken. */
  ghost predicate FirstFree(t: Table, mix: u32 -> u16, seed: u32, i: nat, id: u16)
    requires TableOk(t)
  {
    id == mix((seed + i) % 0x1_0000_0000) && forall k :: 0 <= k < i ==> Taken(t, mix, seed, k)
  }

  class InflightRegistry {
    var shards: Table
    var nextId: u32
    var nextToken: u64
    /** Free permits, or `None` when there is no cap. */
    var permits: Option<nat>
    /** The mixing of the ID counter. */
    const mix: u32 -> u16

    constructor (maxInflight: nat, seed: u32, mix: u32 -> u16)
      ensures shards == EmptyTable() && nextId == seed && nextToken == 0 && this.mix == mix
      ensures permits == if maxInflight > 0 then Some(maxInflight) else None
    {
      shards := EmptyTable();
      nextId, nextToken := seed, 0;
      permits := if maxInflight > 0 then Some(maxInflight) else None;
      this.mix := mix;
    }

    method Register(clientId: u16, question: seq<byte>) returns (r: Result<(u16, u64), RegisterError>)
      requires TableOk(shards)
      modifies this
      ensures TableOk(shards)
      ensures r == Err(CapReached) <==> old(permits) == Some(0)
      ensures r == Err(CapReached) ==> unchanged(this)
      ensures r.Ok? ==>
                && Find(old(shards), r.value.0).None?
                && (exists i :: 0 <= i < 65535 && FirstFree(old(shards), mix, old(nextId), i, r.value.0))
                && r.value.1 == old(nextToken)
                && shards == Put(old(shards), r.value.0, Entry(clientId, question, r.value.1))
                && permits == (if old(permits).Some? then Some(old(permits).value - 1) else None)
      ensures r == Err(TableFull) ==>
                && shards == old(shards) && permits == old(permits)
                && forall i :: 0 <= i < 65535 ==> Taken(old(shards), mix, old(nextId), i)
      ensures r != Err(CapReached) ==> nextToken == (old(nextToken) + 1) % TOKENS
    {
      var before := permits;
      if permits.Some? {
        if permits.value == 0 { return Err(CapReached); }
        permits := Some(permits.value - 1);
      }
      var token := nextToken;
      nextToken := (nextToken + 1) % TOKENS;
      ghost var seed := nextId;
      for i := 0 to ID_TRIES
        invariant shards == old(shards)
        invariant nextId == (seed + i) % 0x1_0000_0000
        invariant nextToken == (old(nextToken) + 1) % TOKENS && token == old(nextToken)
        invariant permits == (if old(permits).Some? then Some(old(permits).value - 1) else None)
        invariant forall k :: 0 <= k < i ==> Taken(old(shards), mix, seed, k)
      {
        var id := mix(nextId);
        nextId := (nextId + 1) % 0x1_0000_0000;
        if id !in shards[id % SHARDS] {
          var shard: map<u16, Entry> := shards[id % SHARDS][id := Entry(clientId, question, token)];
          shards := shards[id % SHARDS := shard];
          assert FirstFree(old(shards), mix, seed, i, id);
          return Ok((id, token));
        }
      }
      permits := before;
      return Err(TableFull);
    }

    /** The packet is rewritten in place to carry the client's ID when delivered. */
    method Complete(packet: array<byte>) returns (c: Completion)
      requires TableOk(shards)
      modifies this`shards, packet
      ensures TableOk(shards)
      ensures c == Verdict(old(shards), old(packet[..]))
      ensures c.Delivered? ==>
                && packet.Length >= 12
                && shards == Remove(old(shards), IdOf(old(packet[..])))
                && packet[..] == WithId(old(packet[..]), Find(old(shards), IdOf(old(packet[..]))).value.clientId)
      ensures !c.Delivered? ==> shards == old(shards) && packet[..] == old(packet[..])
      ensures forall id: u16 :: Find(old(shards), id).Some? ==>
                (c.Delivered? && Find(shards, id).None? <==>
                 RepliesTo(old(packet[..]), id) && AsksFor(old(packet[..]), Find(old(shards), id).value.question))
    {
      ghost var p := packet[..];
      hide RepliesTo, AsksFor, QuestionsMatch, QuestionOf;
      forall id: u16 | Find(shards, id).Some?
        ensures Verdict(shards, p).Delivered? && IdOf(p) == id <==>
                RepliesTo(p, id) && AsksFor(p, Find(shards, id).value.question)
      {
        VerdictExact(shards, p, id);
      }
      if packet.Length < 12 || packet[2] < 0x80 { return NoWaiter; }
      if (packet[2] / 8) % 16 != 0 { return NoWaiter; }
      if U16(packet[..], 4) != 1 { return NoWaiter; }
      var id := IdOf(packet[..]);
      var shard := shards[id % SHARDS];
      if id !in shard { return NoWaiter; }
      var question := QuestionOf(packet[..]);
      var matches := CompareQuestions(question, shard[id].question);
      if !matches { return Mismatch(id); }
      shards := shards[id % SHARDS := shard - {id}];
      var b := Be16(shard[id].clientId);
      packet[0], packet[1] := b[0], b[1];
      assert packet[..] == b + p[2..];
      return Delivered;
    }

    method Clear()
      requires TableOk(shards)
      modifies this`shards
      ensures TableOk(shards) && forall id: u16 :: Find(shards, id).None?
    {
      for k := 0 to SHARDS
        invariant TableOk(shards)
        invariant forall s :: 0 <= s < k ==> shards[s] == map[]
      {
        shards := ClearedShard(shards, k);
      }
    }

    /** A guard goes out of scope: its own entry, if still there, and its permit. */
    method DropGuard(id: u16, token: u64)
      requires TableOk(shards)
      modifies this`shards, this`permits
      ensures TableOk(shards) && shards == RemoveOwn(old(shards), id, token)
      ensures permits == (if old(permits).Some? then Some(old(permits).value + 1) else None)
    {
      var shard := shards[id % SHARDS];
      if id in shard && shard[id].token == token {
        shards := shards[id % SHARDS := shard - {id}];
      }
      if permits.Some? { permits := Some(permits.value + 1); }
    }
  }
}
