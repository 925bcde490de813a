/**
  Which events can still reach the bus. The answer is read off the outbox and its workers, and is exact: an event
  reaches the bus in some later run exactly if it is still coming.
 */
module RelayProgress {
  import opened Types
  import opened Outboxes

  /** The worker is about to mark the last refusal an event may have. */
  ghost predicate GivesUp(s: System, w: Worker, id: EventId) {
    && SettlesNow(s, w, id) && !s.workers[w].delivered
    && Lookup(s.log, id).Some? && Lookup(s.log, id).value.retryCount + 1 >= MAX_RETRIES
  }

  ghost predicate WillTry(s: System, w: Worker, id: EventId) {
    Lives(s, w) && Holds(s, w, id) && !HasDelivered(s, w, id) && !GivesUp(s, w, id)
  }

  /** Pending, or claimed by a living worker who has neither delivered it nor is about to give it up. */
  ghost predicate StillComing(s: System, id: EventId) {
    StatusIs(s, id, PENDING) || exists w :: WillTry(s, w, id)
  }

  // ---- what is not coming never comes

  lemma NextKeepsPastIt(s: System, step: Step, id: EventId)
    requires Inv(s) && Enabled(s, step) && Lookup(s.log, id).Some? && !StillComing(s, id)
    ensures Lookup(Next(s, step).log, id).Some? && !StillComing(Next(s, step), id)
    ensures multiset(Next(s, step).bus)[id] == multiset(s.bus)[id]
  {
    var t := Next(s, step);
    match step {
      case Save(added, topic, payload) =>
        LookupSaved(s.log, EventRecord(added, topic, payload, PENDING, 0), id);
        forall w ensures WillTry(t, w, id) ==> WillTry(s, w, id) {}
      case Fetch(v) =>
        LookupClaimed(s.log, BATCH_LIMIT, id);
        PickedInBatch(s.log, BATCH_LIMIT, id);
        forall w ensures WillTry(t, w, id) ==> WillTry(s, w, id) {}
      case Publish(v, delivered) =>
        var head := s.workers[v].batch[0];
        assert WillTry(s, v, head);
        forall w ensures WillTry(t, w, id) ==> WillTry(s, w, id) {}
      case Settle(v) =>
        SettleKeepsPast(s, v, id);
      case _ =>
        forall w ensures WillTry(t, w, id) ==> WillTry(s, w, id) {}
    }
  }

  lemma SettleKeepsPast(s: System, v: Worker, id: EventId)
    requires Inv(s) && Enabled(s, Settle(v)) && Lookup(s.log, id).Some? && !StillComing(s, id)
    ensures Lookup(Next(s, Settle(v)).log, id).Some? && !StillComing(Next(s, Settle(v)), id)
  {
    var t, head := Next(s, Settle(v)), s.workers[v].batch[0];
    SettleMarksHead(s, Settle(v), id);
    if id == head {
      assert Holds(s, v, id) && !WillTry(s, v, id);
    }
    forall w ensures WillTry(t, w, id) ==> WillTry(s, w, id) {
      SettleDropsHead(s, Settle(v), w, id);
    }
  }

  lemma {:induction false} PastItForever(s: System, run: seq<Step>, id: EventId)
    requires Inv(s) && Lookup(s.log, id).Some? && !StillComing(s, id)
    ensures Lookup(Play(s, run).log, id).Some? && !StillComing(Play(s, run), id)
    ensures multiset(Play(s, run).bus)[id] == multiset(s.bus)[id]
  {
    if run != [] {
      var before, step := run[..|run| - 1], run[|run| - 1];
      PastItForever(s, before, id);
      PlayKeepsInv(s, before);
      if Enabled(Play(s, before), step) {
        NextKeepsPastIt(Play(s, before), step, id);
      }
    }
  }

  // ---- what is coming can come

  /** Some later run delivers the event. */
  ghost predicate CanCome(s: System, id: EventId) {
    exists run :: Comes(s, run, id)
  }

  ghost predicate Comes(s: System, run: seq<Step>, id: EventId) {
    multiset(Play(s, run).bus)[id] > multiset(s.bus)[id]
  }

  lemma {:induction false} PlayOnward(s: System, a: seq<Step>, b: seq<Step>)
    ensures Play(s, a + b) == Play(Play(s, a), b)
  {
    if b == [] {
      assert a + b == a;
    } else {
      assert (a + b)[..|a + b| - 1] == a + b[..|b| - 1];
      PlayOnward(s, a, b[..|b| - 1]);
    }
  }

  lemma PlayOne(s: System, step: Step)
    requires Enabled(s, step)
    ensures Play(s, [step]) == Next(s, step)
  {
    assert [step][..0] == [];
  }

  /** One step that delivers nothing of the event, and then a run that does. */
  lemma StepThenComes(s: System, step: Step, run: seq<Step>, id: EventId)
    requires Enabled(s, step) && Comes(Next(s, step), run, id)
    requires multiset(Next(s, step).bus)[id] == multiset(s.bus)[id]
    ensures CanCome(s, id)
  {
    PlayOne(s, step);
    PlayOnward(s, [step], run);
    assert Comes(s, [step] + run, id);
  }

  lemma StepThenCanCome(s: System, step: Step, id: EventId)
    requires Enabled(s, step) && CanCome(Next(s, step), id)
    requires multiset(Next(s, step).bus)[id] == multiset(s.bus)[id]
    ensures CanCome(s, id)
  {
    var run :| Comes(Next(s, step), run, id);
    StepThenComes(s, step, run, id);
  }

  /** A living worker gets to each event of its batch. */
  lemma {:induction false} BatchComes(s: System, w: Worker, id: EventId)
    requires Inv(s) && Lives(s, w) && s.workers[w].Publishing? && id in s.workers[w].batch
    ensures CanCome(s, id)
    decreases |s.workers[w].batch|
  {
    var batch := s.workers[w].batch;
    var t := Next(s, Publish(w, true));
    if batch[0] == id {
      PlayOne(s, Publish(w, true));
      assert Comes(s, [Publish(w, true)], id);
    } else {
      var u := Next(t, Settle(w));
      NextKeepsInv(s, Publish(w, true));
      NextKeepsInv(t, Settle(w));
      assert batch == [batch[0]] + batch[1..];
      assert u.workers[w] == Publishing(batch[1..]) && Lives(u, w);
      BatchComes(u, w, id);
      StepThenCanCome(t, Settle(w), id);
      StepThenCanCome(s, Publish(w, true), id);
    }
  }

  lemma {:induction false} NewWorker(used: set<Worker>) returns (w: Worker)
    ensures w !in used && forall v :: v in used ==> v < w
    decreases used
  {
    if used == {} {
      w := 0;
    } else {
      var v :| v in used;
      var u := NewWorker(used - {v});
      assert forall x :: x in used ==> x == v || x in used - {v};
      w := if u > v then u else v + 1;
    }
  }

  function Waiting(log: Log): nat {
    if log == [] then 0 else (if log[0].status == PENDING then 1 else 0) + Waiting(log[1..])
  }

  lemma {:induction false} ClaimLeavesFewer(log: Log, limit: nat)
    ensures Waiting(Claimed(log, limit)) + |Pending(log, limit)| == Waiting(log)
  {
    if log != [] && limit > 0 {
      ClaimLeavesFewer(log[1..], if log[0].status == PENDING then limit - 1 else limit);
    }
  }

  lemma {:induction false} PendingIsFetched(log: Log, limit: nat, id: EventId)
    requires Lookup(log, id).Some? && Lookup(log, id).value.status == PENDING && limit > 0
    ensures Pending(log, limit) != []
  {
    if log[0].status != PENDING {
      PendingIsFetched(log[1..], limit, id);
    }
  }

  /** A new worker joins and fetches; if the event is not among what it gets, fewer wait before it. */
  lemma {:induction false} PendingComes(s: System, id: EventId)
    requires Inv(s) && StatusIs(s, id, PENDING)
    ensures CanCome(s, id)
    decreases Waiting(s.log)
  {
    var w := NewWorker(s.workers.Keys + s.dead);
    var t := Next(s, Join(w));
    var u := Next(t, Fetch(w));
    NextKeepsInv(s, Join(w));
    NextKeepsInv(t, Fetch(w));
    LookupClaimed(s.log, BATCH_LIMIT, id);
    PickedInBatch(s.log, BATCH_LIMIT, id);
    if Picked(s.log, BATCH_LIMIT, id) {
      assert id in BatchIds(Pending(s.log, BATCH_LIMIT));
      BatchComes(u, w, id);
    } else {
      ClaimLeavesFewer(s.log, BATCH_LIMIT);
      PendingIsFetched(s.log, BATCH_LIMIT, id);
      PendingComes(u, id);
    }
    StepThenCanCome(t, Fetch(w), id);
    StepThenCanCome(s, Join(w), id);
  }

  /** A worker that has just published marks first; a refused event is then pending again, the others are next. */
  lemma ClaimedComes(s: System, w: Worker, id: EventId)
    requires Inv(s) && WillTry(s, w, id)
    ensures CanCome(s, id)
  {
    if s.workers[w].Publishing? {
      BatchComes(s, w, id);
    } else {
      var batch, t := s.workers[w].batch, Next(s, Settle(w));
      NextKeepsInv(s, Settle(w));
      SettleMarksHead(s, Settle(w), id);
      SettleDropsHead(s, Settle(w), w, id);
      if batch[0] == id {
        PendingComes(t, id);
      } else {
        assert Lives(t, w) && id in Batch(t.workers[w]);
        BatchComes(t, w, id);
      }
      StepThenCanCome(s, Settle(w), id);
    }
  }

  /** Exactly the events still coming reach the bus in some later run, any workers and deaths included. */
  lemma ComesIff(s: System, id: EventId)
    requires Inv(s) && Lookup(s.log, id).Some?
    ensures CanCome(s, id) <==> StillComing(s, id)
  {
    if StatusIs(s, id, PENDING) {
      PendingComes(s, id);
    } else if StillComing(s, id) {
      var w :| WillTry(s, w, id);
      ClaimedComes(s, w, id);
    } else {
      forall run ensures !Comes(s, run, id) {
        PastItForever(s, run, id);
      }
    }
  }
}
