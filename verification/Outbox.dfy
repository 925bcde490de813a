/**
  The in-memory outbox and its relay workers: claim, publish, mark, retry. The repository's lock makes each of its
  operations one atomic step; the relay protocol below interleaves the steps of any number of workers.
 */
module Outboxes {
  import opened Types

  type EventId = string
  type Topic = string
  type Payload = string
  type Worker = nat

  const MAX_RETRIES := 5

  datatype Status = PENDING | IN_FLIGHT | PUBLISHED | FAILED

  datatype EventRecord = EventRecord(eventId: EventId, topic: Topic, payload: Payload, status: Status, retryCount: nat)

  type Log = seq<EventRecord>

  // ---- the repository operations

  function Ids(log: Log): seq<EventId> {
    if log == [] then [] else [log[0].eventId] + Ids(log[1..])
  }

  /** The record that a search by id finds. */
  function Lookup(log: Log, id: EventId): Option<EventRecord> {
    if log == [] then None else if log[0].eventId == id then Some(log[0]) else Lookup(log[1..], id)
  }

  /** The first `limit` pending records. */
  function Pending(log: Log, limit: nat): seq<EventRecord> {
    if log == [] || limit == 0 then []
    else if log[0].status == PENDING then [log[0]] + Pending(log[1..], limit - 1)
    else Pending(log[1..], limit)
  }

  /** Those records marked in flight. */
  function Claimed(log: Log, limit: nat): Log {
    if log == [] || limit == 0 then log
    else if log[0].status == PENDING then [log[0].(status := IN_FLIGHT)] + Claimed(log[1..], limit - 1)
    else [log[0]] + Claimed(log[1..], limit)
  }

  function AfterAttempt(e: EventRecord, delivered: bool): EventRecord {
    if delivered then e.(status := PUBLISHED)
    else e.(retryCount := e.retryCount + 1, status := if e.retryCount + 1 >= MAX_RETRIES then FAILED else PENDING)
  }

  function Marked(log: Log, id: EventId, delivered: bool): Log {
    if log == [] then []
    else if log[0].eventId == id then [AfterAttempt(log[0], delivered)] + log[1..]
    else [log[0]] + Marked(log[1..], id, delivered)
  }

  class InMemoryOutboxRepository {
    var events: Log

    constructor ()
      ensures events == []
    {
      events := [];
    }

    method SaveEvent(id: EventId, topic: Topic, payload: Payload) returns (r: EventRecord)
      modifies this
      ensures r == EventRecord(id, topic, payload, PENDING, 0) && events == old(events) + [r]
    {
      r := EventRecord(id, topic, payload, PENDING, 0);
      events := events + [r];
    }

    /** Claiming flips the fetched records in place; the batch holds copies of them as they then stand. */
    method FetchPending(limit: nat, claim: bool) returns (batch: seq<EventRecord>)
      modifies this
      ensures events == if claim then Claimed(old(events), limit) else old(events)
      ensures batch == if claim then InFlight(Pending(old(events), limit)) else Pending(old(events), limit)
    {
      batch := Pending(events, limit);
      if claim {
        batch := InFlight(batch);
        events := ClaimFirst(events, limit);
      }
    }

    method MarkPublished(id: EventId)
      modifies this
      ensures events == Marked(old(events), id, true)
    {
      SearchAndMark(id, true);
    }

    method MarkFailed(id: EventId)
      modifies this
      ensures events == Marked(old(events), id, false)
    {
      SearchAndMark(id, false);
    }

    /** The loop both marks share: change the first record with this id and stop. */
    method SearchAndMark(id: EventId, delivered: bool)
      modifies this
      ensures events == Marked(old(events), id, delivered)
    {
      ghost var before := events;
      assert before[0..] == before;
      for i := 0 to |events|
        invariant events == before
        invariant before[..i] + Marked(before[i..], id, delivered) == Marked(before, id, delivered)
      {
        MarkedStep(before, i, id, delivered);
        if events[i].eventId == id {
          events := events[i := AfterAttempt(events[i], delivered)];
          return;
        }
      }
    }
  }

  lemma MarkedStep(log: Log, i: nat, id: EventId, delivered: bool)
    requires i < |log|
    ensures log[..i] + Marked(log[i..], id, delivered) ==
      if log[i].eventId == id then log[i := AfterAttempt(log[i], delivered)]
      else log[..i + 1] + Marked(log[i + 1..], id, delivered)
  {
    assert log[i..][0] == log[i] && log[i..][1..] == log[i + 1..];
    assert log[..i + 1] == log[..i] + [log[i]];
    if log[i].eventId == id {
      assert log[i := AfterAttempt(log[i], delivered)] == log[..i] + ([AfterAttempt(log[i], delivered)] + log[i + 1..]);
    } else {
      assert log[..i] + ([log[i]] + Marked(log[i + 1..], id, delivered)) == log[..i] + [log[i]] + Marked(log[i + 1..], id, delivered);
    }
  }

  method ClaimFirst(log: Log, limit: nat) returns (r: Log)
    ensures r == Claimed(log, limit)
  {
    r := [];
    var left := limit;
    assert log[0..] == log;
    for i := 0 to |log|
      invariant r + Claimed(log[i..], left) == Claimed(log, limit)
    {
      ClaimedStep(log, i, left);
      var take := log[i].status == PENDING && left > 0;
      var e := if take then log[i].(status := IN_FLIGHT) else log[i];
      var left' := if take then left - 1 else left;
      assert r + ([e] + Claimed(log[i + 1..], left')) == (r + [e]) + Claimed(log[i + 1..], left');
      r, left := r + [e], left';
    }
  }

  function InFlight(batch: seq<EventRecord>): seq<EventRecord> {
    if batch == [] then [] else [batch[0].(status := IN_FLIGHT)] + InFlight(batch[1..])
  }

  lemma ClaimedStep(log: Log, i: nat, left: nat)
    requires i < |log|
    ensures Claimed(log[i..], left) ==
      [if log[i].status == PENDING && left > 0 then log[i].(status := IN_FLIGHT) else log[i]] +
      Claimed(log[i + 1..], if log[i].status == PENDING && left > 0 then left - 1 else left)
  {
    assert log[i..] == [log[i]] + log[i + 1..];
  }

  // ---- facts about the log

  ghost predicate DistinctIds(log: Log) {
    forall i, j :: 0 <= i < j < |log| ==> log[i].eventId != log[j].eventId
  }

  lemma {:induction false} LookupFinds(log: Log, id: EventId)
    ensures Lookup(log, id).Some? ==> Lookup(log, id).value in log && Lookup(log, id).value.eventId == id
    ensures Lookup(log, id).Some? <==> exists i :: 0 <= i < |log| && log[i].eventId == id
  {
    if log != [] {
      LookupFinds(log[1..], id);
      if i :| 0 <= i < |log| && log[i].eventId == id && i > 0 {
        assert log[1..][i - 1].eventId == id;
      }
      if Lookup(log[1..], id).Some? {
        var i :| 0 <= i < |log[1..]| && log[1..][i].eventId == id;
        assert log[i + 1].eventId == id;
      }
    }
  }

  lemma {:induction false} LookupSaved(log: Log, e: EventRecord, id: EventId)
    ensures Lookup(log + [e], id) ==
      if Lookup(log, id).None? && id == e.eventId then Some(e) else Lookup(log, id)
  {
    if log != [] {
      assert (log + [e])[1..] == log[1..] + [e];
      LookupSaved(log[1..], e, id);
    }
  }

  lemma {:induction false} LookupMarked(log: Log, marked: EventId, delivered: bool, id: EventId)
    ensures Lookup(Marked(log, marked, delivered), id) ==
      if id == marked && Lookup(log, id).Some? then Some(AfterAttempt(Lookup(log, id).value, delivered)) else Lookup(log, id)
    ensures |Marked(log, marked, delivered)| == |log|
    ensures forall i :: 0 <= i < |log| ==> Marked(log, marked, delivered)[i].eventId == log[i].eventId
  {
    if log != [] {
      LookupMarked(log[1..], marked, delivered, id);
    }
  }

  /** A record with this id is among the first `limit` pending ones. */
  predicate Picked(log: Log, limit: nat, id: EventId) {
    if log == [] || limit == 0 then false
    else if log[0].status == PENDING then log[0].eventId == id || Picked(log[1..], limit - 1, id)
    else Picked(log[1..], limit, id)
  }

  lemma {:induction false} PendingIsPending(log: Log, limit: nat)
    ensures forall i :: 0 <= i < |Pending(log, limit)| ==> Pending(log, limit)[i] in log && Pending(log, limit)[i].status == PENDING
    ensures DistinctIds(log) ==> DistinctIds(Pending(log, limit))
    ensures Pending(log, limit) == [] && limit > 0 ==> forall e :: e in log ==> e.status != PENDING
    ensures |Pending(log, limit)| <= limit
  {
    if log != [] && limit > 0 {
      var limit' := if log[0].status == PENDING then limit - 1 else limit;
      PendingIsPending(log[1..], limit');
      if DistinctIds(log) && log[0].status == PENDING {
        var rest := Pending(log[1..], limit');
        forall i | 0 <= i < |rest| ensures rest[i].eventId != log[0].eventId {
          var k :| 0 <= k < |log[1..]| && log[1..][k] == rest[i];
        }
      }
    }
  }

  lemma {:induction false} ClaimKeepsIds(log: Log, limit: nat)
    ensures |Claimed(log, limit)| == |log|
    ensures forall i :: 0 <= i < |log| ==> Claimed(log, limit)[i].eventId == log[i].eventId
  {
    if log != [] && limit > 0 {
      ClaimKeepsIds(log[1..], if log[0].status == PENDING then limit - 1 else limit);
    }
  }

  lemma {:induction false} LookupClaimed(log: Log, limit: nat, id: EventId)
    requires DistinctIds(log)
    ensures Picked(log, limit, id) ==> Lookup(log, id).Some? && Lookup(log, id).value.status == PENDING
    ensures Lookup(Claimed(log, limit), id) ==
      if Picked(log, limit, id) then Some(Lookup(log, id).value.(status := IN_FLIGHT)) else Lookup(log, id)
  {
    if log != [] && limit > 0 {
      LookupClaimed(log[1..], if log[0].status == PENDING then limit - 1 else limit, id);
      LookupFinds(log[1..], id);
      if log[0].eventId == id {
        forall i | 0 <= i < |log[1..]| ensures log[1..][i].eventId != id {
          assert log[1..][i] == log[i + 1];
        }
      }
    }
  }

  lemma {:induction false} PickedInBatch(log: Log, limit: nat, id: EventId)
    ensures id in BatchIds(Pending(log, limit)) <==> Picked(log, limit, id)
  {
    if log != [] && limit > 0 {
      var limit' := if log[0].status == PENDING then limit - 1 else limit;
      PickedInBatch(log[1..], limit', id);
      if log[0].status == PENDING {
        assert BatchIds(Pending(log, limit)) == [log[0].eventId] + BatchIds(Pending(log[1..], limit'));
      }
    }
  }

  // ---- any number of relay workers, interleaved

  /** What one worker is doing: nothing, about to publish the head of its batch, or about to mark that head. */
  datatype Phase = Idle | Publishing(batch: seq<EventId>) | Settling(batch: seq<EventId>, delivered: bool)

  function Batch(p: Phase): seq<EventId> {
    if p.Idle? then [] else p.batch
  }

  /**
    `bus` lists the ids delivered, and `attempts` counts publish calls; no worker reads either. A worker in `dead` is
    kept as it was when it died: nobody reads it, and its batch tells what it had claimed.
   */
  datatype System = System(
    log: Log, workers: map<Worker, Phase>, dead: set<Worker>, bus: seq<EventId>, attempts: map<EventId, nat>)

  datatype Step =
    | Join(w: Worker)
    | Save(id: EventId, topic: Topic, payload: Payload)
    | Fetch(w: Worker)
    | Publish(w: Worker, delivered: bool)
    | Settle(w: Worker)
    | Die(w: Worker)

  const BATCH_LIMIT := 50

  function Resume(batch: seq<EventId>): Phase {
    if batch == [] then Idle else Publishing(batch)
  }

  function BatchIds(events: seq<EventRecord>): seq<EventId> {
    seq(|events|, i requires 0 <= i < |events| => events[i].eventId)
  }

  function Attempts(s: System, id: EventId): nat {
    if id in s.attempts then s.attempts[id] else 0
  }

  predicate Lives(s: System, w: Worker) {
    w in s.workers && w !in s.dead
  }

  /** The dead take no steps; a worker can die at any point, between a publish and its mark included. */
  predicate Enabled(s: System, step: Step) {
    match step
    case Join(w) => w !in s.workers
    case Save(id, _, _) => Lookup(s.log, id).None?
    case Fetch(w) => Lives(s, w) && s.workers[w].Idle?
    case Publish(w, _) => Lives(s, w) && s.workers[w].Publishing? && s.workers[w].batch != []
    case Settle(w) => Lives(s, w) && s.workers[w].Settling? && s.workers[w].batch != []
    case Die(w) => Lives(s, w)
  }

  function Next(s: System, step: Step): System
    requires Enabled(s, step)
  {
    match step
    case Join(w) => s.(workers := s.workers[w := Idle])
    case Save(id, topic, payload) => s.(log := s.log + [EventRecord(id, topic, payload, PENDING, 0)])
    case Fetch(w) =>
      s.(log := Claimed(s.log, BATCH_LIMIT), workers := s.workers[w := Resume(BatchIds(Pending(s.log, BATCH_LIMIT)))])
    case Publish(w, delivered) =>
      var batch := s.workers[w].batch;
      s.(workers := s.workers[w := Settling(batch, delivered)],
         bus := if delivered then s.bus + [batch[0]] else s.bus,
         attempts := s.attempts[batch[0] := Attempts(s, batch[0]) + 1])
    case Settle(w) =>
      var Settling(batch, delivered) := s.workers[w];
      s.(log := Marked(s.log, batch[0], delivered), workers := s.workers[w := Resume(batch[1..])])
    case Die(w) => s.(dead := s.dead + {w})
  }

  ghost predicate Holds(s: System, w: Worker, id: EventId) {
    w in s.workers && id in Batch(s.workers[w])
  }

  ghost predicate Held(s: System, id: EventId) {
    exists w :: Holds(s, w, id)
  }

  ghost predicate SettlesNow(s: System, w: Worker, id: EventId) {
    w in s.workers && s.workers[w].Settling? && s.workers[w].batch != [] && s.workers[w].batch[0] == id
  }

  ghost predicate StatusIs(s: System, id: EventId, status: Status) {
    Lookup(s.log, id).Some? && Lookup(s.log, id).value.status == status
  }

  ghost predicate DeliveredOnce(s: System, id: EventId) {
    StatusIs(s, id, PUBLISHED) || exists w :: SettlesNow(s, w, id) && s.workers[w].delivered
  }

  ghost predicate UnderSettlement(s: System, id: EventId) {
    exists w :: SettlesNow(s, w, id)
  }

  ghost predicate RetriesBounded(s: System) {
    forall id :: Lookup(s.log, id).Some? ==>
      var e := Lookup(s.log, id).value; e.retryCount <= MAX_RETRIES && (e.status == FAILED <==> e.retryCount == MAX_RETRIES)
  }

  /** In-flight events and batch entries correspond: each in-flight event is in exactly one batch, exactly once. */
  ghost predicate Custody(s: System) {
    && (forall w, id :: Holds(s, w, id) ==> StatusIs(s, id, IN_FLIGHT))
    && (forall id :: StatusIs(s, id, IN_FLIGHT) ==> Held(s, id))
    && (forall v, w, id :: Holds(s, v, id) && Holds(s, w, id) ==> v == w)
    && (forall w, i, j :: w in s.workers && 0 <= i < j < |Batch(s.workers[w])| ==> Batch(s.workers[w])[i] != Batch(s.workers[w])[j])
    && (forall w :: w in s.workers && !s.workers[w].Idle? ==> s.workers[w].batch != [])
  }

  ghost predicate Accounts(s: System) {
    forall id ::
      && multiset(s.bus)[id] == (if DeliveredOnce(s, id) then 1 else 0)
      && Attempts(s, id) == (if Lookup(s.log, id).Some? then Lookup(s.log, id).value.retryCount else 0) +
                            (if StatusIs(s, id, PUBLISHED) || UnderSettlement(s, id) then 1 else 0)
  }

  ghost predicate Inv(s: System) {
    DistinctIds(s.log) && RetriesBounded(s) && Custody(s) && Accounts(s)
  }

  lemma JoinKeepsInv(s: System, step: Step)
    requires Inv(s) && Enabled(s, step) && step.Join?
    ensures Inv(Next(s, step))
  {
    var t := Next(s, step);
    forall w, id ensures Holds(t, w, id) == Holds(s, w, id) && SettlesNow(t, w, id) == SettlesNow(s, w, id) {}
    forall id | StatusIs(t, id, IN_FLIGHT) ensures Held(t, id) {
      assert StatusIs(s, id, IN_FLIGHT);
      var w :| Holds(s, w, id);
      assert Holds(t, w, id);
    }
    forall id ensures DeliveredOnce(t, id) == DeliveredOnce(s, id) && UnderSettlement(t, id) == UnderSettlement(s, id) {
      if w :| SettlesNow(s, w, id) && s.workers[w].delivered { assert SettlesNow(t, w, id) && t.workers[w].delivered; }
      if w :| SettlesNow(t, w, id) && t.workers[w].delivered { assert SettlesNow(s, w, id) && s.workers[w].delivered; }
    }
  }

  lemma SaveKeepsInv(s: System, step: Step)
    requires Inv(s) && Enabled(s, step) && step.Save?
    ensures Inv(Next(s, step))
  {
    var e := EventRecord(step.id, step.topic, step.payload, PENDING, 0);
    var t := Next(s, step);
    LookupFinds(s.log, step.id);
    forall id ensures Lookup(t.log, id) == if id == step.id then Some(e) else Lookup(s.log, id) {
      LookupSaved(s.log, e, id);
    }
    forall w, id ensures Holds(t, w, id) == Holds(s, w, id) && SettlesNow(t, w, id) == SettlesNow(s, w, id) {}
    forall id | StatusIs(t, id, IN_FLIGHT) ensures Held(t, id) {
      assert StatusIs(s, id, IN_FLIGHT);
      var w :| Holds(s, w, id);
      assert Holds(t, w, id);
    }
    forall w ensures SettlesNow(s, w, step.id) ==> Holds(s, w, step.id) {}
    forall w ensures !SettlesNow(s, w, step.id) {}
    forall id ensures DeliveredOnce(t, id) == DeliveredOnce(s, id) && UnderSettlement(t, id) == UnderSettlement(s, id) {}
  }

  lemma FetchKeepsCustody(s: System, step: Step)
    requires Inv(s) && Enabled(s, step) && step.Fetch?
    ensures var t := Next(s, step); DistinctIds(t.log) && RetriesBounded(t) && Custody(t)
  {
    var t := Next(s, step);
    var picked := Pending(s.log, BATCH_LIMIT);
    PendingIsPending(s.log, BATCH_LIMIT);
    ClaimKeepsIds(s.log, BATCH_LIMIT);
    forall id
      ensures Picked(s.log, BATCH_LIMIT, id) ==> StatusIs(s, id, PENDING)
      ensures Lookup(t.log, id) ==
        if Picked(s.log, BATCH_LIMIT, id) then Some(Lookup(s.log, id).value.(status := IN_FLIGHT)) else Lookup(s.log, id)
    {
      LookupClaimed(s.log, BATCH_LIMIT, id);
    }
    var mine := BatchIds(picked);
    forall id ensures id in mine <==> Picked(s.log, BATCH_LIMIT, id) {
      PickedInBatch(s.log, BATCH_LIMIT, id);
    }
    assert Batch(t.workers[step.w]) == mine;
    forall w, id ensures Holds(t, w, id) <==> if w == step.w then Picked(s.log, BATCH_LIMIT, id) else Holds(s, w, id) {}
    forall id | StatusIs(t, id, IN_FLIGHT) ensures Held(t, id) {
      if Picked(s.log, BATCH_LIMIT, id) {
        assert Holds(t, step.w, id);
      } else {
        assert StatusIs(s, id, IN_FLIGHT);
        var w :| Holds(s, w, id);
        assert Holds(t, w, id);
      }
    }
  }

  lemma FetchKeepsAccounts(s: System, step: Step)
    requires Inv(s) && Enabled(s, step) && step.Fetch?
    ensures Accounts(Next(s, step))
  {
    var t := Next(s, step);
    forall w, id ensures SettlesNow(t, w, id) == SettlesNow(s, w, id) {}
    forall id
      ensures DeliveredOnce(t, id) == DeliveredOnce(s, id) && UnderSettlement(t, id) == UnderSettlement(s, id)
      ensures Lookup(t.log, id).Some? == Lookup(s.log, id).Some?
      ensures Lookup(s.log, id).Some? ==> Lookup(t.log, id).value.retryCount == Lookup(s.log, id).value.retryCount
      ensures StatusIs(t, id, PUBLISHED) == StatusIs(s, id, PUBLISHED)
    {
      LookupClaimed(s.log, BATCH_LIMIT, id);
    }
  }

  lemma PublishKeepsInv(s: System, step: Step)
    requires Inv(s) && Enabled(s, step) && step.Publish?
    ensures Inv(Next(s, step))
  {
    var t := Next(s, step);
    var head := s.workers[step.w].batch[0];
    assert Holds(s, step.w, head);
    forall w, id ensures Holds(t, w, id) == Holds(s, w, id) {}
    forall id | StatusIs(t, id, IN_FLIGHT) ensures Held(t, id) {
      assert StatusIs(s, id, IN_FLIGHT);
      var w :| Holds(s, w, id);
      assert Holds(t, w, id);
    }
    forall w ensures SettlesNow(s, w, head) ==> Holds(s, w, head) {}
    forall w ensures !SettlesNow(s, w, head) {}
    forall w, id | id != head ensures SettlesNow(t, w, id) <==> SettlesNow(s, w, id) {}
    forall id | id != head
      ensures DeliveredOnce(t, id) == DeliveredOnce(s, id) && UnderSettlement(t, id) == UnderSettlement(s, id) {
      if w :| SettlesNow(s, w, id) { assert SettlesNow(t, w, id); }
      if w :| SettlesNow(s, w, id) && s.workers[w].delivered { assert SettlesNow(t, w, id) && t.workers[w].delivered; }
    }
    assert SettlesNow(t, step.w, head);
    assert !DeliveredOnce(s, head) && !UnderSettlement(s, head);
    assert DeliveredOnce(t, head) <==> step.delivered by {
      forall w | SettlesNow(t, w, head) ensures w == step.w { assert Holds(t, w, head); }
    }
  }

  lemma SettleMarksHead(s: System, step: Step, id: EventId)
    requires Inv(s) && Enabled(s, step) && step.Settle?
    ensures var head := s.workers[step.w].batch[0];
      && StatusIs(s, head, IN_FLIGHT)
      && Lookup(Next(s, step).log, id) ==
         if id == head then Some(AfterAttempt(Lookup(s.log, head).value, s.workers[step.w].delivered)) else Lookup(s.log, id)
  {
    assert Holds(s, step.w, s.workers[step.w].batch[0]);
    LookupMarked(s.log, s.workers[step.w].batch[0], s.workers[step.w].delivered, id);
  }

  lemma SettleDropsHead(s: System, step: Step, w: Worker, id: EventId)
    requires Inv(s) && Enabled(s, step) && step.Settle?
    ensures Holds(Next(s, step), w, id) <==> Holds(s, w, id) && id != s.workers[step.w].batch[0]
  {
    var batch := s.workers[step.w].batch;
    assert Holds(s, step.w, batch[0]);
    assert Batch(Next(s, step).workers[step.w]) == batch[1..];
    assert batch == [batch[0]] + batch[1..];
    assert batch[0] !in batch[1..];
    if Holds(s, w, batch[0]) {
      assert w == step.w;
    }
  }

  lemma SettleKeepsIds(s: System, step: Step)
    requires Inv(s) && Enabled(s, step) && step.Settle?
    ensures var t := Next(s, step); DistinctIds(t.log) && RetriesBounded(t)
  {
    var head, delivered := s.workers[step.w].batch[0], s.workers[step.w].delivered;
    assert Holds(s, step.w, head);
    LookupMarked(s.log, head, delivered, head);
    assert DistinctIds(Next(s, step).log);
    forall id ensures Lookup(Next(s, step).log, id) == if id == head then Some(AfterAttempt(Lookup(s.log, head).value, delivered)) else Lookup(s.log, id) {
      SettleMarksHead(s, step, id);
    }
  }

  lemma SettleKeepsCustody(s: System, step: Step)
    requires Inv(s) && Enabled(s, step) && step.Settle?
    ensures Custody(Next(s, step))
  {
    var t, batch := Next(s, step), s.workers[step.w].batch;
    forall w, id ensures Holds(t, w, id) <==> Holds(s, w, id) && id != batch[0] {
      SettleDropsHead(s, step, w, id);
    }
    forall id ensures StatusIs(t, id, IN_FLIGHT) <==> StatusIs(s, id, IN_FLIGHT) && id != batch[0] {
      SettleMarksHead(s, step, id);
    }
    forall id | StatusIs(t, id, IN_FLIGHT) ensures Held(t, id) {
      var w :| Holds(s, w, id);
      assert Holds(t, w, id);
    }
    assert Batch(s.workers[step.w]) == batch && Batch(t.workers[step.w]) == batch[1..];
    forall i, j | 0 <= i < j < |batch[1..]| ensures batch[1..][i] != batch[1..][j] {
      assert batch[1..][i] == batch[i + 1] && batch[1..][j] == batch[j + 1];
    }
  }

  lemma SettleKeepsAccounts(s: System, step: Step)
    requires Inv(s) && Enabled(s, step) && step.Settle?
    ensures Accounts(Next(s, step))
  {
    var t := Next(s, step);
    var Settling(batch, delivered) := s.workers[step.w];
    var head := batch[0];
    assert Holds(s, step.w, head) && SettlesNow(s, step.w, head);
    forall id ensures Lookup(t.log, id) ==
      if id == head then Some(AfterAttempt(Lookup(s.log, id).value, delivered)) else Lookup(s.log, id) {
      LookupMarked(s.log, head, delivered, id);
    }
    forall w ensures !SettlesNow(t, w, head) {
      if SettlesNow(t, w, head) {
        assert Holds(s, w, head);
      }
    }
    forall w | SettlesNow(s, w, head) ensures w == step.w {
      assert Holds(s, w, head);
    }
    forall id | id != head
      ensures DeliveredOnce(t, id) == DeliveredOnce(s, id) && UnderSettlement(t, id) == UnderSettlement(s, id) {
      forall w ensures SettlesNow(t, w, id) == SettlesNow(s, w, id) {}
      if w :| SettlesNow(s, w, id) && s.workers[w].delivered { assert SettlesNow(t, w, id) && t.workers[w].delivered; }
      if w :| SettlesNow(t, w, id) && t.workers[w].delivered { assert SettlesNow(s, w, id) && s.workers[w].delivered; }
    }
  }

  lemma DieKeepsInv(s: System, step: Step)
    requires Inv(s) && Enabled(s, step) && step.Die?
    ensures Inv(Next(s, step))
  {
    var t := Next(s, step);
    forall w, id ensures Holds(t, w, id) == Holds(s, w, id) && SettlesNow(t, w, id) == SettlesNow(s, w, id) {}
    forall id | StatusIs(t, id, IN_FLIGHT) ensures Held(t, id) {
      assert StatusIs(s, id, IN_FLIGHT);
      var w :| Holds(s, w, id);
      assert Holds(t, w, id);
    }
    forall id ensures DeliveredOnce(t, id) == DeliveredOnce(s, id) && UnderSettlement(t, id) == UnderSettlement(s, id) {
      if w :| SettlesNow(s, w, id) && s.workers[w].delivered { assert SettlesNow(t, w, id) && t.workers[w].delivered; }
      if w :| SettlesNow(t, w, id) && t.workers[w].delivered { assert SettlesNow(s, w, id) && s.workers[w].delivered; }
    }
  }

  lemma NextKeepsInv(s: System, step: Step)
    requires Inv(s) && Enabled(s, step)
    ensures Inv(Next(s, step))
  {
    match step
    case Join(_) => JoinKeepsInv(s, step);
    case Save(_, _, _) => SaveKeepsInv(s, step);
    case Fetch(_) => FetchKeepsCustody(s, step); FetchKeepsAccounts(s, step);
    case Publish(_, _) => PublishKeepsInv(s, step);
    case Settle(_) => SettleKeepsIds(s, step); SettleKeepsCustody(s, step); SettleKeepsAccounts(s, step);
    case Die(_) => DieKeepsInv(s, step);
  }

  /** A run of attempted steps; one that is not enabled does nothing. */
  function Play(s: System, steps: seq<Step>): System {
    if steps == [] then s
    else
      var t := Play(s, steps[..|steps| - 1]);
      var step := steps[|steps| - 1];
      if Enabled(t, step) then Next(t, step) else t
  }

  const EMPTY := System([], map[], {}, [], map[])

  lemma {:induction false} PlayKeepsInv(s: System, steps: seq<Step>)
    requires Inv(s)
    ensures Inv(Play(s, steps))
  {
    if steps != [] {
      PlayKeepsInv(s, steps[..|steps| - 1]);
      var t := Play(s, steps[..|steps| - 1]);
      if Enabled(t, steps[|steps| - 1]) {
        NextKeepsInv(t, steps[|steps| - 1]);
      }
    }
  }

  /**
    In every interleaving, workers dying included: an event is on the bus once if published, never if pending or failed,
    is attempted at most five times, is failed exactly when five attempts failed, and while in flight was claimed by
    exactly one worker.
   */
  lemma EveryInterleavingDeliversOnce(steps: seq<Step>, id: EventId)
    ensures var s := Play(EMPTY, steps);
      && (StatusIs(s, id, PUBLISHED) ==> multiset(s.bus)[id] == 1)
      && (StatusIs(s, id, PENDING) || StatusIs(s, id, FAILED) ==> multiset(s.bus)[id] == 0)
      && (StatusIs(s, id, FAILED) <==> Lookup(s.log, id).Some? && Lookup(s.log, id).value.retryCount == 5)
      && multiset(s.bus)[id] <= 1 && Attempts(s, id) <= 5
      && (StatusIs(s, id, IN_FLIGHT) <==> Held(s, id))
      && (forall v, w :: Holds(s, v, id) && Holds(s, w, id) ==> v == w)
  {
    var s := Play(EMPTY, steps);
    PlayKeepsInv(EMPTY, steps);
    if w :| SettlesNow(s, w, id) {
      assert Holds(s, w, id);
    }
  }

  // ---- workers that die

  /** In flight, with no living worker to settle it. */
  ghost predicate Stranded(s: System, id: EventId) {
    StatusIs(s, id, IN_FLIGHT) && forall w :: Holds(s, w, id) ==> w in s.dead
  }

  /** Stranded before it reached the bus. */
  ghost predicate Lost(s: System, id: EventId) {
    Stranded(s, id) && multiset(s.bus)[id] == 0
  }

  /** The worker has delivered the event and not marked it yet. */
  ghost predicate HasDelivered(s: System, w: Worker, id: EventId) {
    SettlesNow(s, w, id) && s.workers[w].delivered
  }

  /** An event a worker has claimed is on the bus exactly when the worker stands between its delivery and its mark. */
  lemma ClaimedIsDeliveredIff(s: System, w: Worker, id: EventId)
    requires Inv(s) && Holds(s, w, id)
    ensures multiset(s.bus)[id] == if HasDelivered(s, w, id) then 1 else 0
  {
    assert StatusIs(s, id, IN_FLIGHT);
    forall v ensures SettlesNow(s, v, id) ==> v == w {
      if SettlesNow(s, v, id) {
        assert Holds(s, v, id);
      }
    }
  }

  /** In every run with deaths: stranded means claimed by a worker now dead, and lost that it died before delivering. */
  lemma StrandedIffHolderDied(steps: seq<Step>, id: EventId)
    ensures var s := Play(EMPTY, steps);
      && (Stranded(s, id) <==> exists w :: w in s.dead && Holds(s, w, id))
      && (Lost(s, id) <==> exists w :: w in s.dead && Holds(s, w, id) && !HasDelivered(s, w, id))
  {
    var s := Play(EMPTY, steps);
    PlayKeepsInv(EMPTY, steps);
    forall w | Holds(s, w, id) ensures multiset(s.bus)[id] == if HasDelivered(s, w, id) then 1 else 0 {
      ClaimedIsDeliveredIff(s, w, id);
    }
    if Stranded(s, id) {
      assert Held(s, id);
      var w :| Holds(s, w, id);
      assert w in s.dead && Holds(s, w, id);
    }
  }

  /** A death strands exactly what the worker had claimed, and loses what of that it had not delivered. */
  lemma DeathStrandsExactly(s: System, w: Worker, id: EventId)
    requires Inv(s) && Lives(s, w)
    ensures var t := Next(s, Die(w));
      && (Stranded(t, id) <==> Stranded(s, id) || Holds(s, w, id))
      && (Lost(t, id) <==> Lost(s, id) || (Holds(s, w, id) && !HasDelivered(s, w, id)))
  {
    var t := Next(s, Die(w));
    forall v ensures Holds(t, v, id) == Holds(s, v, id) {}
    if Holds(s, w, id) {
      ClaimedIsDeliveredIff(s, w, id);
    }
  }

  /** Nothing recovers a stranded event: no later run, new workers and further deaths included, settles or delivers it. */
  lemma {:induction false} StrandedForever(s: System, id: EventId, steps: seq<Step>)
    requires Inv(s) && Stranded(s, id)
    ensures Stranded(Play(s, steps), id) && multiset(Play(s, steps).bus)[id] == multiset(s.bus)[id]
  {
    if steps != [] {
      StrandedForever(s, id, steps[..|steps| - 1]);
      PlayKeepsInv(s, steps[..|steps| - 1]);
      var t := Play(s, steps[..|steps| - 1]);
      if Enabled(t, steps[|steps| - 1]) {
        NextKeepsStranded(t, steps[|steps| - 1], id);
      }
    }
  }

  lemma NextKeepsStranded(s: System, step: Step, id: EventId)
    requires Inv(s) && Stranded(s, id) && Enabled(s, step)
    ensures Stranded(Next(s, step), id) && multiset(Next(s, step).bus)[id] == multiset(s.bus)[id]
  {
    var t := Next(s, step);
    match step {
      case Join(w) =>
        forall v ensures Holds(t, v, id) ==> Holds(s, v, id) {}
      case Save(added, topic, payload) =>
        LookupFinds(s.log, added);
        LookupSaved(s.log, EventRecord(added, topic, payload, PENDING, 0), id);
        forall v ensures Holds(t, v, id) ==> Holds(s, v, id) {}
      case Fetch(w) =>
        LookupClaimed(s.log, BATCH_LIMIT, id);
        PickedInBatch(s.log, BATCH_LIMIT, id);
        forall v ensures Holds(t, v, id) ==> Holds(s, v, id) {}
      case Publish(w, delivered) =>
        assert !Holds(s, w, id);
        forall v ensures Holds(t, v, id) ==> Holds(s, v, id) {}
      case Settle(w) =>
        assert !Holds(s, w, id);
        LookupMarked(s.log, s.workers[w].batch[0], s.workers[w].delivered, id);
        forall v ensures Holds(t, v, id) ==> Holds(s, v, id) {}
      case Die(w) =>
        forall v ensures Holds(t, v, id) ==> Holds(s, v, id) {}
    }
  }

  // ---- termination of retrying

  function Left(e: EventRecord): nat {
    if (e.status == PENDING || e.status == IN_FLIGHT) && e.retryCount < MAX_RETRIES then MAX_RETRIES - e.retryCount else 0
  }

  /** The publish attempts the log can still see. */
  function Work(log: Log): nat {
    if log == [] then 0 else Left(log[0]) + Work(log[1..])
  }

  lemma {:induction false} ClaimKeepsWork(log: Log, limit: nat)
    ensures Work(Claimed(log, limit)) == Work(log)
  {
    if log != [] && limit > 0 {
      ClaimKeepsWork(log[1..], if log[0].status == PENDING then limit - 1 else limit);
    }
  }

  lemma {:induction false} MarkSpendsWork(log: Log, id: EventId, delivered: bool)
    requires Lookup(log, id).Some? && Lookup(log, id).value.status == IN_FLIGHT
    requires Lookup(log, id).value.retryCount < MAX_RETRIES
    ensures Work(Marked(log, id, delivered)) < Work(log)
  {
    if log[0].eventId != id {
      MarkSpendsWork(log[1..], id, delivered);
    }
  }

  lemma {:induction false} SaveAddsWork(log: Log, e: EventRecord)
    ensures Work(log + [e]) == Work(log) + Left(e)
  {
    if log != [] {
      assert (log + [e])[1..] == log[1..] + [e];
      SaveAddsWork(log[1..], e);
    }
  }

  /** Settled attempts, and saved events, among the steps that took effect. */
  function Settled(s: System, steps: seq<Step>): nat {
    if steps == [] then 0
    else
      var t, step := Play(s, steps[..|steps| - 1]), steps[|steps| - 1];
      Settled(s, steps[..|steps| - 1]) + if Enabled(t, step) && step.Settle? then 1 else 0
  }

  function Saved(s: System, steps: seq<Step>): nat {
    if steps == [] then 0
    else
      var t, step := Play(s, steps[..|steps| - 1]), steps[|steps| - 1];
      Saved(s, steps[..|steps| - 1]) + if Enabled(t, step) && step.Save? then 1 else 0
  }

  lemma StepSpendsWork(s: System, step: Step)
    requires Inv(s) && Enabled(s, step)
    ensures Work(Next(s, step).log) + (if step.Settle? then 1 else 0) <= Work(s.log) + (if step.Save? then MAX_RETRIES else 0)
  {
    match step
    case Join(_) =>
    case Save(id, topic, payload) => SaveAddsWork(s.log, EventRecord(id, topic, payload, PENDING, 0));
    case Fetch(_) => ClaimKeepsWork(s.log, BATCH_LIMIT);
    case Publish(_, _) =>
    case Settle(w) =>
      assert Holds(s, w, s.workers[w].batch[0]);
      MarkSpendsWork(s.log, s.workers[w].batch[0], s.workers[w].delivered);
    case Die(_) =>
  }

  /** However the workers interleave and whatever the broker does, at most five attempts are made per saved event. */
  lemma {:induction false} AttemptsAreBounded(s: System, steps: seq<Step>)
    requires Inv(s)
    ensures Work(Play(s, steps).log) + Settled(s, steps) <= Work(s.log) + MAX_RETRIES * Saved(s, steps)
  {
    if steps != [] {
      var before, step := steps[..|steps| - 1], steps[|steps| - 1];
      AttemptsAreBounded(s, before);
      PlayKeepsInv(s, before);
      if Enabled(Play(s, before), step) {
        StepSpendsWork(Play(s, before), step);
      }
    }
  }

  /** When every living worker is idle and a fetch finds nothing, an event is settled for good unless it is stranded. */
  lemma QuietMeansSettled(s: System, id: EventId)
    requires Inv(s) && Lookup(s.log, id).Some?
    requires forall w :: Lives(s, w) ==> s.workers[w].Idle?
    requires Pending(s.log, BATCH_LIMIT) == []
    ensures StatusIs(s, id, PUBLISHED) || StatusIs(s, id, FAILED) <==> !Stranded(s, id)
  {
    PendingIsPending(s.log, BATCH_LIMIT);
    LookupFinds(s.log, id);
    forall w ensures Holds(s, w, id) ==> w in s.dead {
      if Lives(s, w) {
        assert s.workers[w].Idle?;
      }
    }
  }

  // ---- one relay on its own

  class EventBus {
    var history: seq<(Topic, Payload)>

    constructor ()
      ensures history == []
    {
      history := [];
    }

    /** An unreachable broker raises and records nothing. */
    method Publish(topic: Topic, payload: Payload, reachable: bool) returns (raised: bool)
      modifies this
      ensures raised == !reachable
      ensures history == if reachable then old(history) + [(topic, payload)] else old(history)
    {
      if reachable {
        history := history + [(topic, payload)];
      }
      raised := !reachable;
    }
  }

  datatype Round = Round(log: Log, history: seq<(Topic, Payload)>, published: nat) {
    function Attempt(e: EventRecord, reachable: bool): Round {
      Round(Marked(log, e.eventId, reachable),
            if reachable then history + [(e.topic, e.payload)] else history,
            if reachable then published + 1 else published)
    }
  }

  /** The loop over a batch; `reachable(i)` tells whether the broker accepts the i-th publish. */
  function Attempted(r: Round, batch: seq<EventRecord>, reachable: nat -> bool): Round {
    if batch == [] then r
    else
      var n := |batch| - 1;
      Attempted(r, batch[..n], reachable).Attempt(batch[n], reachable(n))
  }

  function PublishRound(log: Log, history: seq<(Topic, Payload)>, reachable: nat -> bool): Round {
    Attempted(Round(Claimed(log, BATCH_LIMIT), history, 0), InFlight(Pending(log, BATCH_LIMIT)), reachable)
  }

  lemma AttemptedStep(r: Round, batch: seq<EventRecord>, i: nat, reachable: nat -> bool)
    requires i < |batch|
    ensures Attempted(r, batch[..i + 1], reachable) == Attempted(r, batch[..i], reachable).Attempt(batch[i], reachable(i))
  {
    assert batch[..i + 1][..i] == batch[..i];
  }

  class OutboxRelay {
    const repo: InMemoryOutboxRepository
    const bus: EventBus

    constructor (repo: InMemoryOutboxRepository, bus: EventBus)
      ensures this.repo == repo && this.bus == bus
    {
      this.repo, this.bus := repo, bus;
    }

    method PublishPendingOnce(reachable: nat -> bool) returns (count: nat)
      modifies repo, bus
      ensures Round(repo.events, bus.history, count) == PublishRound(old(repo.events), old(bus.history), reachable)
    {
      var batch := repo.FetchPending(BATCH_LIMIT, true);
      count := 0;
      ghost var start := Round(repo.events, bus.history, 0);
      for i := 0 to |batch|
        invariant Round(repo.events, bus.history, count) == Attempted(start, batch[..i], reachable)
      {
        AttemptedStep(start, batch, i, reachable);
        var published := Attempt(batch[i], reachable(i), count);
        if published {
          count := count + 1;
        }
      }
      assert batch[..|batch|] == batch;
    }

    method Attempt(e: EventRecord, accepted: bool, ghost count: nat) returns (published: bool)
      modifies repo, bus
      ensures published == accepted
      ensures Round(repo.events, bus.history, if published then count + 1 else count) ==
        Round(old(repo.events), old(bus.history), count).Attempt(e, accepted)
    {
      var raised := bus.Publish(e.topic, e.payload, accepted);
      if raised {
        repo.MarkFailed(e.eventId);
      } else {
        repo.MarkPublished(e.eventId);
      }
      published := !raised;
    }
  }

  ghost predicate Tallied(log: Log, id: EventId) {
    Lookup(log, id).Some? ==>
      var e := Lookup(log, id).value;
      e.retryCount <= MAX_RETRIES && (e.status == FAILED <==> e.retryCount == MAX_RETRIES)
  }

  ghost predicate IsInFlight(log: Log, id: EventId) {
    Lookup(log, id).Some? && Lookup(log, id).value.status == IN_FLIGHT
  }

  /** A log whose in-flight events are exactly `ids`. */
  ghost predicate MidRound(log: Log, ids: seq<EventId>) {
    && DistinctIds(log)
    && (forall id :: Tallied(log, id))
    && (forall id :: IsInFlight(log, id) <==> id in ids)
    && (forall i, j :: 0 <= i < j < |ids| ==> ids[i] != ids[j])
  }

  lemma ClaimStartsRound(log: Log)
    requires MidRound(log, [])
    ensures MidRound(Claimed(log, BATCH_LIMIT), BatchIds(InFlight(Pending(log, BATCH_LIMIT))))
    ensures |InFlight(Pending(log, BATCH_LIMIT))| == |Pending(log, BATCH_LIMIT)|
  {
    InFlightKeepsIds(Pending(log, BATCH_LIMIT));
    PendingIsPending(log, BATCH_LIMIT);
    ClaimKeepsIds(log, BATCH_LIMIT);
    forall id
      ensures IsInFlight(Claimed(log, BATCH_LIMIT), id) <==> id in BatchIds(Pending(log, BATCH_LIMIT))
      ensures Tallied(Claimed(log, BATCH_LIMIT), id)
    {
      assert Tallied(log, id) && !IsInFlight(log, id);
      PickedInBatch(log, BATCH_LIMIT, id);
      LookupClaimed(log, BATCH_LIMIT, id);
    }
  }

  lemma {:induction false} InFlightKeepsIds(batch: seq<EventRecord>)
    ensures |InFlight(batch)| == |batch| && BatchIds(InFlight(batch)) == BatchIds(batch)
  {
    if batch != [] {
      InFlightKeepsIds(batch[1..]);
      assert BatchIds(batch) == [batch[0].eventId] + BatchIds(batch[1..]);
      assert BatchIds(InFlight(batch)) == [batch[0].eventId] + BatchIds(InFlight(batch[1..]));
    }
  }

  lemma AttemptAdvancesRound(log: Log, ids: seq<EventId>, reachable: bool)
    requires MidRound(log, ids) && ids != []
    ensures MidRound(Marked(log, ids[0], reachable), ids[1..])
    ensures Work(Marked(log, ids[0], reachable)) < Work(log)
  {
    var after := Marked(log, ids[0], reachable);
    assert IsInFlight(log, ids[0]) && Tallied(log, ids[0]);
    MarkSpendsWork(log, ids[0], reachable);
    LookupMarked(log, ids[0], reachable, ids[0]);
    assert ids == [ids[0]] + ids[1..];
    forall id ensures Tallied(after, id) && (IsInFlight(after, id) <==> id in ids[1..]) {
      assert Tallied(log, id) && (IsInFlight(log, id) <==> id in ids);
      LookupMarked(log, ids[0], reachable, id);
    }
  }

  lemma {:induction false} BatchSpendsWork(r: Round, batch: seq<EventRecord>, reachable: nat -> bool, k: nat)
    requires k <= |batch| && MidRound(r.log, BatchIds(batch))
    ensures var after := Attempted(r, batch[..k], reachable).log;
      MidRound(after, BatchIds(batch)[k..]) && Work(after) + k <= Work(r.log)
  {
    if k > 0 {
      BatchSpendsWork(r, batch, reachable, k - 1);
      assert batch[..k][..k - 1] == batch[..k - 1];
      var ids := BatchIds(batch)[k - 1..];
      assert ids[0] == batch[k - 1].eventId && ids[1..] == BatchIds(batch)[k..];
      AttemptAdvancesRound(Attempted(r, batch[..k - 1], reachable).log, ids, reachable(k - 1));
    }
  }

  /** A round leaves nothing in flight, and spends at least one unit of work per event it fetched. */
  lemma RoundSpendsWork(log: Log, history: seq<(Topic, Payload)>, reachable: nat -> bool)
    requires MidRound(log, [])
    ensures var after := PublishRound(log, history, reachable).log;
      MidRound(after, []) && Work(after) + |Pending(log, BATCH_LIMIT)| <= Work(log)
  {
    var batch := InFlight(Pending(log, BATCH_LIMIT));
    ClaimStartsRound(log);
    ClaimKeepsWork(log, BATCH_LIMIT);
    BatchSpendsWork(Round(Claimed(log, BATCH_LIMIT), history, 0), batch, reachable, |batch|);
    assert batch[..|batch|] == batch && BatchIds(batch)[|batch|..] == [];
  }

  function Rounds(log: Log, history: seq<(Topic, Payload)>, brokers: seq<nat -> bool>): Log
    decreases |brokers|
  {
    if brokers == [] then log
    else
      var r := PublishRound(log, history, brokers[0]);
      Rounds(r.log, r.history, brokers[1..])
  }

  /** With no new events, enough rounds of a lone relay leave nothing pending, whatever the broker does. */
  lemma {:induction false} RoundsConverge(log: Log, history: seq<(Topic, Payload)>, brokers: seq<nat -> bool>)
    requires MidRound(log, []) && |brokers| >= Work(log)
    ensures MidRound(Rounds(log, history, brokers), [])
    ensures forall e :: e in Rounds(log, history, brokers) ==> e.status == PUBLISHED || e.status == FAILED
    decreases |brokers|
  {
    if brokers != [] {
      var r := PublishRound(log, history, brokers[0]);
      RoundSpendsWork(log, history, brokers[0]);
      PendingIsPending(log, BATCH_LIMIT);
      if Pending(log, BATCH_LIMIT) == [] {
        forall e | e in log ensures e.status != IN_FLIGHT {
          DistinctLookup(log, e);
          assert !IsInFlight(log, e.eventId);
        }
        NothingPendingHasNoWork(log);
      }
      RoundsConverge(r.log, r.history, brokers[1..]);
    } else {
      NoWorkMeansSettled(log);
    }
  }

  lemma {:induction false} NothingPendingHasNoWork(log: Log)
    requires forall e :: e in log ==> e.status != PENDING && e.status != IN_FLIGHT
    ensures Work(log) == 0
  {
    if log != [] {
      assert log[0] in log && forall e :: e in log[1..] ==> e in log;
      NothingPendingHasNoWork(log[1..]);
    }
  }

  lemma {:induction false} WorkCountsEach(log: Log, e: EventRecord)
    requires e in log
    ensures Work(log) >= Left(e)
  {
    if log[0] != e {
      WorkCountsEach(log[1..], e);
    }
  }

  lemma {:induction false} DistinctLookup(log: Log, e: EventRecord)
    requires DistinctIds(log) && e in log
    ensures Lookup(log, e.eventId) == Some(e)
  {
    if log[0] != e {
      var i :| 0 <= i < |log| && log[i] == e;
      DistinctLookup(log[1..], e);
    }
  }

  lemma NoWorkMeansSettled(log: Log)
    requires MidRound(log, []) && Work(log) == 0
    ensures forall e :: e in log ==> e.status == PUBLISHED || e.status == FAILED
  {
    forall e | e in log ensures e.status == PUBLISHED || e.status == FAILED {
      DistinctLookup(log, e);
      WorkCountsEach(log, e);
      assert Tallied(log, e.eventId) && !IsInFlight(log, e.eventId);
    }
  }
}
