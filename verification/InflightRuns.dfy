/** Every interleaving of registrations, responses, guard drops and clears over the
    registry of `Inflight`. One step is one critical section: a registration first
    takes its permit and token and then tries IDs one by one, a response is matched
    and taken out under the shard lock and delivered after it, and a clear goes
    shard by shard. */
module InflightRuns {
  import opened Prelude
  import opened Wire
  import opened Question
  import opened Inflight

  /** What a caller registered. */
  datatype Reg = Reg(clientId: u16, question: seq<byte>)

  datatype State = State(
    table: Table,
    issued: nat,                          // registrations begun so far; the next token
    regs: map<nat, Reg>,                  // every registration begun, by token
    pending: map<nat, nat>,               // registrations still trying IDs, and their tries
    guards: map<nat, u16>,                // live guards: token and ID
    permits: Option<nat>,                 // free permits
    sending: map<nat, seq<byte>>,         // responses taken out but not yet handed over
    inbox: map<nat, seq<seq<byte>>>)      // responses each registration has received

  function Init(cap: Option<nat>): State {
    State(EmptyTable(), 0, map[], map[], map[], cap, map[], map[])
  }

  datatype Event =
    | Begin(clientId: u16, question: seq<byte>)
    | Try(token: nat, id: u16)
    | Complete(packet: seq<byte>)
    | Send(token: nat)
    | Drop(token: nat)
    | ClearShard(k: nat)

  /** Fewer than 2^64 registrations are begun, so tokens do not repeat. */
  predicate Enabled(s: State, e: Event) {
    && TableOk(s.table)
    && match e
       case Begin(_, _) => s.permits != Some(0) && s.issued < TOKENS
       case Try(token, id) => token in s.pending && token in s.regs && token < TOKENS
       case Complete(p) => true
       case Send(token) => token in s.sending
       case Drop(token) => token in s.guards && token < TOKENS
       case ClearShard(k) => k < SHARDS
  }

  function Release(permits: Option<nat>): Option<nat> {
    if permits.Some? then Some(permits.value + 1) else None
  }

  function Received(s: State, token: nat): seq<seq<byte>> {
    if token in s.inbox then s.inbox[token] else []
  }

  function Apply(s: State, e: Event): State
    requires Enabled(s, e)
  {
    match e
    case Begin(clientId, question) =>
      s.(issued := s.issued + 1,
         regs := s.regs[s.issued := Reg(clientId, question)],
         pending := s.pending[s.issued := 0],
         permits := if s.permits.Some? then Some(s.permits.value - 1) else None)
    case Try(token, id) =>
      if Find(s.table, id).None? then
        s.(table := Put(s.table, id, Entry(s.regs[token].clientId, s.regs[token].question, token)),
           pending := s.pending - {token},
           guards := s.guards[token := id])
      else if s.pending[token] + 1 < ID_TRIES then
        s.(pending := s.pending[token := s.pending[token] + 1])
      else
        s.(pending := s.pending - {token}, permits := Release(s.permits))
    case Complete(p) =>
      if Verdict(s.table, p).Delivered? then
        var entry := Find(s.table, IdOf(p)).value;
        s.(table := Remove(s.table, IdOf(p)), sending := s.sending[entry.token := WithId(p, entry.clientId)])
      else s
    case Send(token) =>
      s.(sending := s.sending - {token}, inbox := s.inbox[token := Received(s, token) + [s.sending[token]]])
    case Drop(token) =>
      s.(table := RemoveOwn(s.table, s.guards[token], token),
         guards := s.guards - {token},
         permits := Release(s.permits))
    case ClearShard(k) =>
      s.(table := ClearedShard(s.table, k))
  }

  ghost predicate IsRun(cap: Option<nat>, events: seq<Event>, states: seq<State>) {
    && |states| == |events| + 1
    && states[0] == Init(cap)
    && forall i :: 0 <= i < |events| ==> Enabled(states[i], events[i]) && states[i + 1] == Apply(states[i], events[i])
  }

  // The invariant.

  /** A packet meant for a registration: its own client ID and its own question. */
  ghost predicate ForReg(p: seq<byte>, r: Reg) {
    |p| >= 12 && (p[0] as int) * 0x100 + p[1] == r.clientId && AsksFor(p, r.question)
  }

  /** The entry under `id` belongs to a live guard holding `id` and the entry's token. */
  ghost predicate OwnedEntry(s: State, id: u16)
    requires TableOk(s.table)
  {
    Find(s.table, id).Some? ==>
      var e := Find(s.table, id).value;
      && e.token in s.guards && s.guards[e.token] == id
      && e.token in s.regs && s.regs[e.token] == Reg(e.clientId, e.question)
      && e.token !in s.sending && Received(s, e.token) == []
  }

  /** Each registration has at most one response on its way or received, its own. */
  ghost predicate AtMostOne(s: State, token: nat) {
    && (token in s.sending ==> token in s.regs && ForReg(s.sending[token], s.regs[token]) && Received(s, token) == [])
    && |Received(s, token)| <= 1
    && (Received(s, token) != [] ==> token in s.regs && ForReg(Received(s, token)[0], s.regs[token]))
  }

  ghost predicate PermitsAddUp(s: State, cap: Option<nat>) {
    match cap
    case None => s.permits == None
    case Some(c) => s.permits.Some? && s.permits.value + |s.pending| + |s.guards| == c
  }

  /** A token is known once drawn, is not both trying and holding an ID, and gets
      nothing before it holds one. */
  ghost predicate TokenOk(s: State, t: nat) {
    && (t in s.regs <==> t < s.issued)
    && (t in s.pending ==> t in s.regs && t !in s.guards)
    && (t in s.guards ==> t in s.regs)
    && (t in s.pending || t !in s.regs ==> t !in s.sending && Received(s, t) == [])
  }

  ghost predicate Inv(s: State, cap: Option<nat>) {
    && TableOk(s.table)
    && s.issued <= TOKENS
    && PermitsAddUp(s, cap)
    && (forall t: nat :: TokenOk(s, t))
    && (forall id: u16 :: OwnedEntry(s, id))
    && (forall t: nat :: AtMostOne(s, t))
  }

  lemma {:induction false} BeginPermits(s: State, cap: Option<nat>, e: Event)
    requires PermitsAddUp(s, cap) && Enabled(s, e) && e.Begin? && TokenOk(s, s.issued)
    ensures PermitsAddUp(Apply(s, e), cap)
  {
    hide TableOk, Received;
    CardUpdate(s.pending, s.issued, 0);
  }

  lemma {:induction false} TryPermits(s: State, cap: Option<nat>, e: Event)
    requires PermitsAddUp(s, cap) && Enabled(s, e) && e.Try? && TokenOk(s, e.token)
    ensures PermitsAddUp(Apply(s, e), cap)
  {
    hide TableOk, Find, Put, Received;
    CardUpdate(s.pending, e.token, s.pending[e.token] + 1);
    CardRemove(s.pending, e.token);
    CardUpdate(s.guards, e.token, e.id);
  }

  lemma {:induction false} DropPermits(s: State, cap: Option<nat>, e: Event)
    requires PermitsAddUp(s, cap) && Enabled(s, e) && e.Drop?
    ensures PermitsAddUp(Apply(s, e), cap)
  {
    hide TableOk, RemoveOwn;
    CardRemove(s.guards, e.token);
  }

  lemma {:induction false} StepPermits(s: State, cap: Option<nat>, e: Event)
    requires PermitsAddUp(s, cap) && Enabled(s, e)
    requires e.Begin? ==> TokenOk(s, s.issued)
    requires e.Try? ==> TokenOk(s, e.token)
    ensures PermitsAddUp(Apply(s, e), cap)
  {
    hide TableOk, Find, Verdict, Remove, ClearedShard, Received, TokenOk;
    match e
    case Begin(_, _) => BeginPermits(s, cap, e);
    case Try(t, id) => TryPermits(s, cap, e);
    case Drop(t) => DropPermits(s, cap, e);
    case _ =>
  }

  lemma {:induction false} CardUpdate<V>(m: map<nat, V>, k: nat, v: V)
    ensures |m[k := v]| == if k in m then |m| else |m| + 1
  {
    assert m[k := v].Keys == m.Keys + {k};
    if k in m { assert m.Keys + {k} == m.Keys; }
  }

  lemma {:induction false} CardRemove<V>(m: map<nat, V>, k: nat)
    requires k in m
    ensures |m - {k}| == |m| - 1
  {
    assert (m - {k}).Keys == m.Keys - {k};
  }

  /** What the invariant says about the one entry or token an event touches. */
  ghost predicate Touched(s: State, e: Event)
    requires TableOk(s.table)
  {
    && (e.Send? ==> AtMostOne(s, e.token) && TokenOk(s, e.token))
    && (e.Complete? && Verdict(s.table, e.packet).Delivered? ==>
          OwnedEntry(s, IdOf(e.packet)) && TokenOk(s, Find(s.table, IdOf(e.packet)).value.token))
  }

  lemma {:induction false} InvTouched(s: State, cap: Option<nat>, e: Event)
    requires Inv(s, cap)
    ensures Touched(s, e)
  {
    hide AtMostOne, TokenOk, OwnedEntry;
  }

  lemma {:induction false} StepToken(s: State, e: Event, t: nat)
    requires Enabled(s, e) && TokenOk(s, t) && Touched(s, e)
    ensures TokenOk(Apply(s, e), t)
  {
    assert e.Complete? && Verdict(s.table, e.packet).Delivered? ==> Find(s.table, IdOf(e.packet)).Some?;
    hide TableOk, Find, Put, Verdict, RemoveOwn, Remove, ClearedShard, ForReg, WithId;
    match e
    case Begin(_, _) =>
    case Try(_, _) =>
    case Complete(_) =>
    case Send(_) =>
    case Drop(_) =>
    case ClearShard(_) =>
  }

  lemma {:induction false} TryEntries(s: State, e: Event, id: u16, t: nat)
    requires Enabled(s, e) && e.Try? && OwnedEntry(s, id) && AtMostOne(s, t) && TokenOk(s, e.token)
    ensures TableOk(Apply(s, e).table) && OwnedEntry(Apply(s, e), id) && AtMostOne(Apply(s, e), t)
  {
    hide TableOk, ForReg, Find, Put;
  }

  lemma {:induction false} CompleteEntries(s: State, e: Event, id: u16, t: nat)
    requires Enabled(s, e) && e.Complete? && OwnedEntry(s, id) && AtMostOne(s, t)
    requires Verdict(s.table, e.packet).Delivered? && OwnedEntry(s, IdOf(e.packet))
    ensures TableOk(Apply(s, e).table) && OwnedEntry(Apply(s, e), id) && AtMostOne(Apply(s, e), t)
  {
    hide TableOk, ForReg, Find, Remove, WithId, Verdict;
    DeliveredFound(s.table, e.packet);
    TakenForReg(s.table, e.packet);
  }

  lemma {:induction false} TakenForReg(t: Table, p: seq<byte>)
    requires TableOk(t) && Verdict(t, p).Delivered?
    ensures |p| >= 12 && Find(t, IdOf(p)).Some?
    ensures var x := Find(t, IdOf(p)).value; ForReg(WithId(p, x.clientId), Reg(x.clientId, x.question))
  {
    hide QuestionsMatch, AsksFor, QuestionOf, TableOk, Find;
    var x := Find(t, IdOf(p)).value;
    QuestionKept(p, x.clientId);
    QuestionExact(WithId(p, x.clientId), x.question);
  }

  lemma {:induction false} OtherEntries(s: State, e: Event, id: u16, t: nat)
    requires Enabled(s, e) && (e.Begin? || e.Send? || e.Drop? || e.ClearShard?)
    requires OwnedEntry(s, id) && AtMostOne(s, t)
    requires e.Begin? ==> TokenOk(s, s.issued)
    requires e.Send? ==> AtMostOne(s, e.token)
    ensures TableOk(Apply(s, e).table) && OwnedEntry(Apply(s, e), id) && AtMostOne(Apply(s, e), t)
  {
    hide TableOk, ForReg, Find, RemoveOwn, ClearedShard;
    match e
    case Begin(_, _) =>
    case Send(_) =>
    case Drop(_) =>
    case ClearShard(_) =>
  }

  lemma {:induction false} StepInv(s: State, cap: Option<nat>, e: Event)
    requires Inv(s, cap) && Enabled(s, e)
    ensures Inv(Apply(s, e), cap)
  {
    hide Apply, Enabled, Touched, PermitsAddUp, OwnedEntry, AtMostOne, TokenOk, TableOk, Verdict, Find;
    var s' := Apply(s, e);
    StepPermits(s, cap, e);
    StepIssued(s, e);
    InvTouched(s, cap, e);
    forall t: nat ensures TokenOk(s', t) { StepToken(s, e, t); }
    forall id: u16 ensures OwnedEntry(s', id) { StepEntries(s, cap, e, id, 0); }
    forall t: nat ensures AtMostOne(s', t) { StepEntries(s, cap, e, 0, t); }
  }

  lemma {:induction false} StepIssued(s: State, e: Event)
    requires Enabled(s, e) && s.issued <= TOKENS
    ensures Apply(s, e).issued <= TOKENS && TableOk(Apply(s, e).table)
  {
    hide TableOk, Find, Put, Verdict, RemoveOwn, Remove, ClearedShard, Received;
  }

  lemma {:induction false} StepEntries(s: State, cap: Option<nat>, e: Event, id: u16, t: nat)
    requires Inv(s, cap) && Enabled(s, e)
    ensures TableOk(Apply(s, e).table) && OwnedEntry(Apply(s, e), id) && AtMostOne(Apply(s, e), t)
  {
    hide TableOk, ForReg, Find, Verdict, OwnedEntry, AtMostOne, TokenOk;
    match e
    case Try(_, _) => TryEntries(s, e, id, t);
    case Complete(p) => if Verdict(s.table, p).Delivered? { CompleteEntries(s, e, id, t); }
    case Begin(_, _) => OtherEntries(s, e, id, t);
    case _ => OtherEntries(s, e, id, t);
  }

  /** Rewriting the ID leaves the question as it is. */
  lemma {:induction false} QuestionKept(p: seq<byte>, id: u16)
    requires |p| >= 12
    ensures QuestionOf(WithId(p, id)) == QuestionOf(p)
  {
    var q := WithId(p, id);
    forall j | 2 <= j < |p| ensures q[j] == p[j] {
      assert q[2..][j - 2] == p[2..][j - 2];
    }
    SkipNameTail(p, q, 2, 12);
    var end := QuestionEnd(p);
    if end.Some? { assert q[12..end.value] == p[12..end.value]; }
  }

  lemma {:induction false} RunInv(cap: Option<nat>, events: seq<Event>, states: seq<State>, i: nat)
    requires IsRun(cap, events, states) && i < |states|
    ensures Inv(states[i], cap)
  {
    if i > 0 {
      RunInv(cap, events, states, i - 1);
      StepInv(states[i - 1], cap, events[i - 1]);
    }
  }

  // What follows for every run.

  ghost function LiveIds(s: State): set<u16>
    requires TableOk(s.table)
  {
    set id: u16 | Find(s.table, id).Some?
  }

  lemma {:induction false} ImageCard(keys: set<nat>, m: map<nat, u16>)
    requires keys <= m.Keys
    ensures |set t | t in keys :: m[t]| <= |keys|
    decreases |keys|
  {
    var image := set t | t in keys :: m[t];
    if keys != {} {
      var x :| x in keys;
      var rest := keys - {x};
      ImageCard(rest, m);
      var image' := set t | t in rest :: m[t];
      assert image <= image' + {m[x]};
      CardMonotone(image, image' + {m[x]});
    }
  }

  lemma {:induction false} CardMonotone<T>(a: set<T>, b: set<T>)
    requires a <= b
    ensures |a| <= |b|
  {
    assert b == a + (b - a);
  }

  /** In every run: each live ID has one owner, a live guard with that ID and the
      entry's token; no more entries than guards, no more guards than the cap. */
  lemma {:induction false} LiveIdsOwned(cap: Option<nat>, events: seq<Event>, states: seq<State>, i: nat)
    requires IsRun(cap, events, states) && i < |states|
    ensures TableOk(states[i].table)
    ensures forall id: u16 :: id in LiveIds(states[i]) ==>
              var t := Find(states[i].table, id).value.token; t in states[i].guards && states[i].guards[t] == id
    ensures |LiveIds(states[i])| <= |states[i].guards|
    ensures cap.Some? ==> |states[i].guards| <= cap.value
  {
    RunInv(cap, events, states, i);
    var s := states[i];
    forall id: u16 | id in LiveIds(s)
      ensures var t := Find(s.table, id).value.token; t in s.guards && s.guards[t] == id
    {
      assert OwnedEntry(s, id);
    }
    var image := set t | t in s.guards.Keys :: s.guards[t];
    assert LiveIds(s) <= image;
    CardMonotone(LiveIds(s), image);
    ImageCard(s.guards.Keys, s.guards);
  }

  /** In every run: a registration receives at most one response, and it carries the
      registration's own client ID and question. */
  lemma {:induction false} OneResponseEach(cap: Option<nat>, events: seq<Event>, states: seq<State>, i: nat, token: nat)
    requires IsRun(cap, events, states) && i < |states|
    ensures |Received(states[i], token)| <= 1
    ensures forall p :: p in Received(states[i], token) ==> token in states[i].regs && ForReg(p, states[i].regs[token])
  {
    RunInv(cap, events, states, i);
    assert AtMostOne(states[i], token);
  }

  /** An entry leaves the table only when its own response is taken out, its own
      guard is dropped, or its shard is cleared. In particular a guard dropped late
      never removes the entry of a later registration that reuses its ID, and a
      response with another question removes nothing. */
  lemma {:induction false} EntryLeaves(s: State, e: Event, id: u16)
    requires Enabled(s, e) && TableOk(Apply(s, e).table)
    requires Find(s.table, id).Some? && Find(Apply(s, e).table, id) != Find(s.table, id)
    ensures var x := Find(s.table, id).value;
            || e == Drop(x.token)
            || e == ClearShard(id % SHARDS)
            || (&& e.Complete? && RepliesTo(e.packet, id) && AsksFor(e.packet, x.question)
                && x.token in Apply(s, e).sending)
  {
    hide Find, Put, Remove, RemoveOwn, ClearedShard, TableOk, Verdict, RepliesTo, AsksFor;
    if e.Complete? {
      VerdictExact(s.table, e.packet, id);
      DeliveredFound(s.table, e.packet);
    }
    match e
    case Begin(_, _) =>
    case Try(_, _) =>
    case Complete(_) =>
    case Send(_) =>
    case Drop(_) =>
    case ClearShard(_) =>
  }

  /** In every run, a registration that holds a live ID keeps its entry until one of
      those three things happens to it: the next state still has it otherwise. */
  lemma {:induction false} EntryStays(cap: Option<nat>, events: seq<Event>, states: seq<State>, i: nat, id: u16)
    requires IsRun(cap, events, states) && i < |events|
    requires TableOk(states[i].table) && Find(states[i].table, id).Some?
    requires var x := Find(states[i].table, id).value;
             && events[i] != Drop(x.token) && events[i] != ClearShard(id % SHARDS)
             && !(events[i].Complete? && RepliesTo(events[i].packet, id) && AsksFor(events[i].packet, x.question))
    ensures TableOk(states[i + 1].table) && Find(states[i + 1].table, id) == Find(states[i].table, id)
    ensures var t := Find(states[i].table, id).value.token; t in states[i].guards && states[i].guards[t] == id
  {
    RunInv(cap, events, states, i);
    RunInv(cap, events, states, i + 1);
    assert OwnedEntry(states[i], id);
    if Find(states[i + 1].table, id) != Find(states[i].table, id) {
      EntryLeaves(states[i], events[i], id);
    }
  }

  // What has to be delivered is delivered.

  /** A packet as it is handed over: the client's ID, everything else as it arrived. */
  ghost predicate HandedOver(r: seq<byte>, p: seq<byte>, clientId: u16) {
    && |r| == |p| && |p| >= 2 && (r[0] as int) * 0x100 + r[1] == clientId
    && forall j :: 2 <= j < |p| ==> r[j] == p[j]
  }

  lemma {:induction false} HandedOverIs(p: seq<byte>, id: u16)
    requires |p| >= 2
    ensures HandedOver(WithId(p, id), p, id)
  {
    var q := WithId(p, id);
    forall j | 2 <= j < |p| ensures q[j] == p[j] { assert q[2..][j - 2] == p[2..][j - 2]; }
  }

  /** In every run a response takes out exactly the entry whose ID and question it answers,
      and puts it on its way to the registration of that entry. */
  lemma {:induction false} TakenIff(cap: Option<nat>, events: seq<Event>, states: seq<State>, i: nat, id: u16)
    requires IsRun(cap, events, states) && i < |events| && events[i].Complete?
    ensures TableOk(states[i].table) && TableOk(states[i + 1].table)
    ensures Find(states[i].table, id).None? ==> Find(states[i + 1].table, id).None?
    ensures Find(states[i].table, id).Some? ==>
              var p, x := events[i].packet, Find(states[i].table, id).value;
              if RepliesTo(p, id) && AsksFor(p, x.question) then
                && Find(states[i + 1].table, id).None?
                && x.token in states[i + 1].sending
                && HandedOver(states[i + 1].sending[x.token], p, x.clientId)
              else Find(states[i + 1].table, id) == Some(x)
  {
    RunInv(cap, events, states, i);
    RunInv(cap, events, states, i + 1);
    var s, p := states[i], events[i].packet;
    TakenStep(s, p, id);
  }

  lemma {:induction false} TakenStep(s: State, p: seq<byte>, id: u16)
    requires TableOk(s.table)
    ensures var t := Apply(s, Complete(p));
            && TableOk(t.table)
            && (Find(s.table, id).None? ==> Find(t.table, id).None?)
            && (Find(s.table, id).Some? ==>
                  var x := Find(s.table, id).value;
                  if RepliesTo(p, id) && AsksFor(p, x.question) then
                    && Find(t.table, id).None? && x.token in t.sending
                    && HandedOver(t.sending[x.token], p, x.clientId)
                  else Find(t.table, id) == Some(x))
  {
    hide Find, Remove, TableOk, Verdict, RepliesTo, AsksFor, HandedOver, WithId;
    DeliveredFound(s.table, p);
    if Find(s.table, id).Some? {
      VerdictExact(s.table, p, id);
      if |p| >= 2 { HandedOverIs(p, Find(s.table, id).value.clientId); }
    }
  }

  lemma {:induction false} DeliveredFound(t: Table, p: seq<byte>)
    requires TableOk(t)
    ensures Verdict(t, p).Delivered? ==> |p| >= 12 && Find(t, IdOf(p)).Some?
  {
  }

  /** The response is on its way to the registration, or has arrived. */
  ghost predicate Underway(s: State, token: nat, r: seq<byte>) {
    (token in s.sending && s.sending[token] == r) || Received(s, token) == [r]
  }

  lemma {:induction false} UnderwayStays(s: State, cap: Option<nat>, e: Event, token: nat, r: seq<byte>)
    requires Inv(s, cap) && Enabled(s, e) && Underway(s, token, r)
    ensures Underway(Apply(s, e), token, r)
    ensures e == Send(token) ==> Received(Apply(s, e), token) == [r]
  {
    hide AtMostOne, TokenOk, OwnedEntry, PermitsAddUp, Underway, Touched, Apply, Enabled, TableOk, Received;
    InvTouched(s, cap, e);
    assert AtMostOne(s, token);
    if e.Complete? {
      UnderwayCompletes(s, e.packet, token, r);
    } else {
      UnderwayOther(s, e, token, r);
    }
  }

  lemma {:induction false} UnderwayCompletes(s: State, p: seq<byte>, token: nat, r: seq<byte>)
    requires TableOk(s.table) && Touched(s, Complete(p)) && Underway(s, token, r)
    ensures Underway(Apply(s, Complete(p)), token, r)
  {
    hide TableOk, Find, Remove, WithId, Verdict, TokenOk;
    DeliveredFound(s.table, p);
  }

  lemma {:induction false} UnderwayOther(s: State, e: Event, token: nat, r: seq<byte>)
    requires Enabled(s, e) && !e.Complete? && AtMostOne(s, token) && Underway(s, token, r)
    ensures Underway(Apply(s, e), token, r)
    ensures e == Send(token) ==> Received(Apply(s, e), token) == [r]
  {
    hide TableOk, Find, Put, RemoveOwn, ClearedShard, ForReg;
    match e
    case Begin(_, _) =>
    case Try(_, _) =>
    case Send(_) =>
    case Drop(_) =>
    case ClearShard(_) =>
  }

  lemma {:induction false} UnderwayLater(cap: Option<nat>, events: seq<Event>, states: seq<State>, i: nat, k: nat,
                                         token: nat, r: seq<byte>)
    requires IsRun(cap, events, states) && i <= k < |states| && Underway(states[i], token, r)
    ensures Underway(states[k], token, r)
    decreases k
  {
    hide Underway, Enabled, Apply;
    if i < k {
      UnderwayLater(cap, events, states, i, k - 1, token, r);
      RunInv(cap, events, states, k - 1);
      UnderwayStays(states[k - 1], cap, events[k - 1], token, r);
    }
  }

  /** In every run: a response to a live ID with the registered question is in the inbox of
      that registration, and alone there, after the hand-over that follows. */
  lemma {:induction false} AnswerArrives(cap: Option<nat>, events: seq<Event>, states: seq<State>, i: nat, id: u16,
                                         k: nat)
    returns (r: seq<byte>)
    requires IsRun(cap, events, states) && i < k < |events| && events[i].Complete?
    requires TableOk(states[i].table) && Find(states[i].table, id).Some?
    requires RepliesTo(events[i].packet, id)
    requires AsksFor(events[i].packet, Find(states[i].table, id).value.question)
    requires events[k] == Send(Find(states[i].table, id).value.token)
    ensures var x := Find(states[i].table, id).value;
            && HandedOver(r, events[i].packet, x.clientId)
            && forall m :: k < m < |states| ==> Received(states[m], x.token) == [r]
  {
    hide Find, RepliesTo, AsksFor, HandedOver, TableOk, Apply, Enabled, Received;
    var x := Find(states[i].table, id).value;
    TakenIff(cap, events, states, i, id);
    r := states[i + 1].sending[x.token];
    UnderwayLater(cap, events, states, i + 1, k, x.token, r);
    RunInv(cap, events, states, k);
    UnderwayStays(states[k], cap, events[k], x.token, r);
    forall m | k < m < |states| ensures Received(states[m], x.token) == [r] {
      ReceivedStays(cap, events, states, k + 1, m, x.token, r);
    }
  }

  lemma {:induction false} ReceivedStays(cap: Option<nat>, events: seq<Event>, states: seq<State>, i: nat, k: nat,
                                         token: nat, r: seq<byte>)
    requires IsRun(cap, events, states) && i <= k < |states| && Received(states[i], token) == [r]
    ensures Received(states[k], token) == [r]
    decreases k
  {
    hide Enabled, Apply;
    if i < k {
      ReceivedStays(cap, events, states, i, k - 1, token, r);
      RunInv(cap, events, states, k - 1);
      assert AtMostOne(states[k - 1], token);
      ReceivedKept(states[k - 1], events[k - 1], token, r);
    }
  }

  lemma {:induction false} ReceivedKept(s: State, e: Event, token: nat, r: seq<byte>)
    requires Enabled(s, e) && AtMostOne(s, token) && Received(s, token) == [r]
    ensures Received(Apply(s, e), token) == [r]
  {
    hide TableOk, Find, Put, RemoveOwn, Remove, ClearedShard, ForReg, WithId, Verdict;
    if e.Complete? { DeliveredFound(s.table, e.packet); }
    match e
    case Begin(_, _) =>
    case Try(_, _) =>
    case Complete(_) =>
    case Send(_) =>
    case Drop(_) =>
    case ClearShard(_) =>
  }

  // How often a registration tries.

  ghost function Tries(events: seq<Event>, i: nat, token: nat): nat
    requires i <= |events|
  {
    if i == 0 then 0
    else Tries(events, i - 1, token) + (if events[i - 1].Try? && events[i - 1].token == token then 1 else 0)
  }

  lemma {:induction false} TryStep(s: State, e: Event, token: nat)
    requires Enabled(s, e) && TokenOk(s, token)
    ensures var s' := Apply(s, e);
            && (token in s'.pending ==>
                  if token in s.pending then
                    s'.pending[token] == s.pending[token] + (if e.Try? && e.token == token then 1 else 0)
                  else e.Begin? && token == s.issued && s'.pending[token] == 0)
            && (token in s'.pending && e.Try? && e.token == token ==> s'.pending[token] < 65535)
            && (token !in s'.regs ==> token !in s.regs && !(e.Try? && e.token == token))
  {
    hide TableOk, Find, Put, Verdict, RemoveOwn, Remove, ClearedShard, Received, WithId;
    match e
    case Begin(_, _) =>
    case Try(_, _) =>
    case Complete(_) =>
    case Send(_) =>
    case Drop(_) =>
    case ClearShard(_) =>
  }

  /** In every run a registration that is still trying has tried less than 65535 IDs. */
  lemma {:induction false} TriesCounted(cap: Option<nat>, events: seq<Event>, states: seq<State>, i: nat, token: nat)
    requires IsRun(cap, events, states) && i < |states|
    ensures token in states[i].pending ==> states[i].pending[token] == Tries(events, i, token) < 65535
    ensures token !in states[i].regs ==> Tries(events, i, token) == 0
    decreases i
  {
    hide Apply, Enabled, AtMostOne, OwnedEntry, PermitsAddUp, TableOk;
    if i > 0 {
      TriesCounted(cap, events, states, i - 1, token);
      RunInv(cap, events, states, i - 1);
      assert TokenOk(states[i - 1], token);
      TryStep(states[i - 1], events[i - 1], token);
    }
  }

  /** It gives up exactly with the 65535th ID that is taken. */
  lemma {:induction false} GivesUpIff(cap: Option<nat>, events: seq<Event>, states: seq<State>, i: nat)
    requires IsRun(cap, events, states) && i < |events| && events[i].Try?
    ensures TableOk(states[i].table)
    ensures var t, s, s' := events[i].token, states[i], states[i + 1];
            t !in s'.pending && t !in s'.guards <==>
            Find(s.table, events[i].id).Some? && Tries(events, i + 1, t) == 65535
  {
    hide TableOk, Find, Put;
    RunInv(cap, events, states, i);
    TriesCounted(cap, events, states, i, events[i].token);
    assert TokenOk(states[i], events[i].token);
  }
}
