/**
  What a reader of the bus sees. Retries and several workers can bring the events of one copy to the bus out of the
  order they were logged in: a delivery can be passed exactly while an earlier event is still coming. When that never
  happens, replaying the bus tells who has a copy as the log does.
 */
module BusOrder {
  import opened Types
  import opened Outboxes
  import opened RelayProgress
  import opened Domain
  import C = Circulation
  import Ledger = Custody
  import Runs = LibraryRuns

  /** Where the log has the event; its length when it has not. */
  function Place(log: Log, id: EventId): nat {
    if log == [] || log[0].eventId == id then 0 else 1 + Place(log[1..], id)
  }

  /** Events about one thing are on the bus in the order of the log. */
  ghost predicate InOrder(log: Log, bus: seq<EventId>, about: EventId -> CopyId) {
    forall i, j :: 0 <= i < j < |bus| && about(bus[i]) == about(bus[j]) ==> Place(log, bus[i]) < Place(log, bus[j])
  }

  /** Nothing logged later about the same thing is on the bus. */
  ghost predicate Overtaken(log: Log, bus: seq<EventId>, about: EventId -> CopyId, id: EventId) {
    exists i :: 0 <= i < |bus| && about(bus[i]) == about(id) && Place(log, bus[i]) >= Place(log, id)
  }

  // ---- places do not change

  lemma {:induction false} PlaceAt(log: Log, i: nat)
    requires i < |log| && DistinctIds(log)
    ensures Place(log, log[i].eventId) == i
  {
    if i > 0 {
      assert log[0].eventId != log[i].eventId && log[1..][i - 1] == log[i];
      PlaceAt(log[1..], i - 1);
    }
  }

  lemma {:induction false} PlaceIsIndex(log: Log, id: EventId)
    requires Lookup(log, id).Some?
    ensures Place(log, id) < |log| && log[Place(log, id)].eventId == id
  {
    if log[0].eventId != id {
      PlaceIsIndex(log[1..], id);
    }
  }

  lemma {:induction false} SameIdsSamePlace(log: Log, log': Log, id: EventId)
    requires |log| == |log'| && forall i :: 0 <= i < |log| ==> log[i].eventId == log'[i].eventId
    ensures Place(log', id) == Place(log, id)
  {
    if log != [] {
      SameIdsSamePlace(log[1..], log'[1..], id);
    }
  }

  lemma {:induction false} SavedKeepsPlace(log: Log, e: EventRecord, id: EventId)
    requires Lookup(log, id).Some?
    ensures Place(log + [e], id) == Place(log, id)
  {
    assert (log + [e])[0] == log[0] && (log + [e])[1..] == log[1..] + [e];
    if log[0].eventId != id {
      SavedKeepsPlace(log[1..], e, id);
    }
  }

  lemma NextKeepsPlace(s: System, step: Step, id: EventId)
    requires Enabled(s, step) && Lookup(s.log, id).Some?
    ensures Place(Next(s, step).log, id) == Place(s.log, id)
  {
    match step
    case Save(added, topic, payload) => SavedKeepsPlace(s.log, EventRecord(added, topic, payload, PENDING, 0), id);
    case Fetch(_) =>
      ClaimKeepsIds(s.log, BATCH_LIMIT);
      SameIdsSamePlace(s.log, Next(s, step).log, id);
    case Settle(w) =>
      LookupMarked(s.log, s.workers[w].batch[0], s.workers[w].delivered, id);
      SameIdsSamePlace(s.log, Next(s, step).log, id);
    case _ =>
  }

  lemma BusIsLogged(s: System, i: nat)
    requires Inv(s) && i < |s.bus|
    ensures Lookup(s.log, s.bus[i]).Some?
  {
    var id := s.bus[i];
    assert multiset(s.bus)[id] > 0;
    if !StatusIs(s, id, PUBLISHED) {
      var w :| SettlesNow(s, w, id) && s.workers[w].delivered;
      assert Holds(s, w, id);
    }
  }

  // ---- what delivering an event does to the order

  predicate Delivers(s: System, step: Step) {
    Enabled(s, step) && step.Publish? && step.delivered
  }

  lemma DeliveryKeepsOrderIff(s: System, step: Step, about: EventId -> CopyId)
    requires Delivers(s, step)
    ensures var t := Next(s, step);
      InOrder(t.log, t.bus, about) <==>
      InOrder(s.log, s.bus, about) && !Overtaken(s.log, s.bus, about, s.workers[step.w].batch[0])
  {
    var t, id := Next(s, step), s.workers[step.w].batch[0];
    assert t.bus == s.bus + [id];
    if InOrder(t.log, t.bus, about) {
      forall i, j | 0 <= i < j < |s.bus| && about(s.bus[i]) == about(s.bus[j])
        ensures Place(s.log, s.bus[i]) < Place(s.log, s.bus[j]) {
        assert t.bus[i] == s.bus[i] && t.bus[j] == s.bus[j];
      }
      forall i | 0 <= i < |s.bus| && about(s.bus[i]) == about(id) ensures Place(s.log, s.bus[i]) < Place(s.log, id) {
        assert t.bus[i] == s.bus[i] && t.bus[|s.bus|] == id;
      }
    }
  }

  lemma OtherStepsKeepOrder(s: System, step: Step, about: EventId -> CopyId)
    requires Inv(s) && Enabled(s, step) && !Delivers(s, step)
    ensures var t := Next(s, step); InOrder(t.log, t.bus, about) <==> InOrder(s.log, s.bus, about)
  {
    var t := Next(s, step);
    assert t.bus == s.bus;
    forall i | 0 <= i < |s.bus| ensures Place(t.log, s.bus[i]) == Place(s.log, s.bus[i]) {
      BusIsLogged(s, i);
      NextKeepsPlace(s, step, s.bus[i]);
    }
  }

  // ---- exactly when a delivery can be passed

  /** Logged before the event, about the same thing. */
  ghost predicate Earlier(log: Log, about: EventId -> CopyId, a: EventId, id: EventId) {
    Lookup(log, a).Some? && about(a) == about(id) && Place(log, a) < Place(log, id)
  }

  /** An earlier event about the same thing is still coming. */
  ghost predicate Premature(s: System, about: EventId -> CopyId, id: EventId) {
    exists a :: Earlier(s.log, about, a, id) && StillComing(s, a)
  }

  /** Some later run delivers an earlier event about the same thing. */
  ghost predicate CanBePassed(s: System, about: EventId -> CopyId, id: EventId) {
    exists a :: Earlier(s.log, about, a, id) && CanCome(s, a)
  }

  lemma DeliveryChangesNoOther(s: System, step: Step, a: EventId)
    requires Inv(s) && Delivers(s, step) && a != s.workers[step.w].batch[0]
    ensures StillComing(Next(s, step), a) <==> StillComing(s, a)
  {
    var t := Next(s, step);
    forall w ensures WillTry(t, w, a) <==> WillTry(s, w, a) {}
  }

  /** Once delivered, an event can be passed by an earlier one exactly if such a one was still coming at the delivery. */
  lemma DeliveryCanBePassedIff(s: System, step: Step, about: EventId -> CopyId)
    requires Inv(s) && Delivers(s, step)
    ensures var id := s.workers[step.w].batch[0]; CanBePassed(Next(s, step), about, id) <==> Premature(s, about, id)
  {
    var t, id := Next(s, step), s.workers[step.w].batch[0];
    NextKeepsInv(s, step);
    forall a | Earlier(s.log, about, a, id) ensures CanCome(t, a) <==> StillComing(s, a) {
      ComesIff(t, a);
      DeliveryChangesNoOther(s, step, a);
    }
  }

  // ---- runs

  /** No delivery of the run was made while an earlier event about the same thing was still coming. */
  ghost predicate NeverPremature(steps: seq<Step>, about: EventId -> CopyId) {
    steps == [] ||
    (var s, step := Play(EMPTY, steps[..|steps| - 1]), steps[|steps| - 1];
     NeverPremature(steps[..|steps| - 1], about) &&
     (Delivers(s, step) ==> !Premature(s, about, s.workers[step.w].batch[0])))
  }

  /** Of nothing on the bus an earlier event about the same thing is still coming. */
  ghost predicate NothingBehind(s: System, about: EventId -> CopyId) {
    forall i :: 0 <= i < |s.bus| ==> !Premature(s, about, s.bus[i])
  }

  lemma StepKeepsNothingBehind(s: System, step: Step, about: EventId -> CopyId)
    requires Inv(s) && Enabled(s, step) && NothingBehind(s, about)
    requires Delivers(s, step) ==> !Premature(s, about, s.workers[step.w].batch[0])
    ensures NothingBehind(Next(s, step), about)
  {
    var t := Next(s, step);
    NextKeepsInv(s, step);
    forall i, a | 0 <= i < |t.bus| && Earlier(t.log, about, a, t.bus[i]) ensures !StillComing(t, a) {
      var id := t.bus[i];
      assert i < |s.bus| ==> id == s.bus[i];
      EarlierBefore(s, step, about, a, i);
      if i < |s.bus| {
        assert !Premature(s, about, id);
      }
      NextKeepsPastIt(s, step, a);
    }
  }

  /** What a step leaves earlier than an event on the bus was so before the step. */
  lemma EarlierBefore(s: System, step: Step, about: EventId -> CopyId, a: EventId, i: nat)
    requires Inv(s) && Enabled(s, step) && i < |Next(s, step).bus|
    requires Earlier(Next(s, step).log, about, a, Next(s, step).bus[i])
    ensures Earlier(s.log, about, a, Next(s, step).bus[i])
  {
    var t := Next(s, step);
    var id := t.bus[i];
    if i < |s.bus| {
      BusIsLogged(s, i);
    } else {
      assert Holds(s, step.w, id);
    }
    NextKeepsPlace(s, step, id);
    PlaceIsIndex(s.log, id);
    if Lookup(s.log, a).None? {
      NewcomerIsLast(s, step, a);
    } else {
      NextKeepsPlace(s, step, a);
    }
  }

  lemma NewcomerIsLast(s: System, step: Step, a: EventId)
    requires Inv(s) && Enabled(s, step) && Lookup(s.log, a).None? && Lookup(Next(s, step).log, a).Some?
    ensures Place(Next(s, step).log, a) >= |s.log|
  {
    match step
    case Save(added, topic, payload) =>
      LookupFinds(s.log, a);
      PlaceIsIndex(Next(s, step).log, a);
    case Fetch(_) => LookupClaimed(s.log, BATCH_LIMIT, a);
    case Settle(w) => LookupMarked(s.log, s.workers[w].batch[0], s.workers[w].delivered, a);
    case _ =>
  }

  /** So nothing delivered is overtaken: what a living worker is about to publish was still coming until now. */
  lemma NothingBehindNotOvertaken(s: System, step: Step, about: EventId -> CopyId)
    requires Inv(s) && Delivers(s, step) && NothingBehind(s, about)
    ensures !Overtaken(s.log, s.bus, about, s.workers[step.w].batch[0])
  {
    var id := s.workers[step.w].batch[0];
    assert WillTry(s, step.w, id);
    ClaimedIsDeliveredIff(s, step.w, id);
    forall i | 0 <= i < |s.bus| && about(s.bus[i]) == about(id) ensures Place(s.log, s.bus[i]) < Place(s.log, id) {
      BusIsLogged(s, i);
      PlaceIsIndex(s.log, s.bus[i]);
      assert Lookup(s.log, id).Some?;
      PlaceIsIndex(s.log, id);
      assert s.bus[i] in multiset(s.bus);
      assert s.bus[i] != id;
      assert !Premature(s, about, s.bus[i]);
      assert !Earlier(s.log, about, id, s.bus[i]);
    }
  }

  /** With any workers and deaths: if nothing is delivered while an earlier event is still coming, the bus is in order. */
  lemma {:induction false} NeverPrematureIsInOrder(steps: seq<Step>, about: EventId -> CopyId)
    requires NeverPremature(steps, about)
    ensures var s := Play(EMPTY, steps); InOrder(s.log, s.bus, about) && NothingBehind(s, about)
  {
    if steps != [] {
      var before, step := steps[..|steps| - 1], steps[|steps| - 1];
      var s := Play(EMPTY, before);
      NeverPrematureIsInOrder(before, about);
      PlayKeepsInv(EMPTY, before);
      if Enabled(s, step) {
        StepKeepsNothingBehind(s, step, about);
        if Delivers(s, step) {
          NothingBehindNotOvertaken(s, step, about);
          DeliveryKeepsOrderIff(s, step, about);
        } else {
          OtherStepsKeepOrder(s, step, about);
        }
      }
    }
  }

  lemma GoOn(steps: seq<Step>, s: System, step: Step, t: System) returns (longer: seq<Step>)
    requires Play(EMPTY, steps) == s && Enabled(s, step) && Next(s, step) == t
    ensures longer == steps + [step] && Play(EMPTY, longer) == t
  {
    longer := steps + [step];
    assert longer[..|steps|] == steps;
  }

  /** What one worker does with two waiting events when the broker refuses the first one once. */
  function RetryRun(topic: Topic, payload: Payload): seq<Step> {
    [Join(0), Save("1", topic, payload), Save("2", topic, payload), Fetch(0), Publish(0, false), Settle(0),
     Publish(0, true), Settle(0), Fetch(0), Publish(0, true)]
  }

  function Waiting(id: EventId, topic: Topic, payload: Payload): EventRecord {
    EventRecord(id, topic, payload, PENDING, 0)
  }

  /** The broker has refused the first event; the worker is about to publish the second. */
  function Refused(topic: Topic, payload: Payload): System {
    System([Waiting("1", topic, payload).(retryCount := 1), Waiting("2", topic, payload).(status := IN_FLIGHT)],
           map[0 := Publishing(["2"])], {}, [], map["1" := 1])
  }

  function BothWait(topic: Topic, payload: Payload): System {
    System([Waiting("1", topic, payload), Waiting("2", topic, payload)], map[0 := Idle], {}, [], map[])
  }

  lemma BothAreSaved(topic: Topic, payload: Payload) returns (run: seq<Step>)
    ensures run == [Join(0), Save("1", topic, payload), Save("2", topic, payload)]
    ensures Play(EMPTY, run) == BothWait(topic, payload)
  {
    var s1 := System([], map[0 := Idle], {}, [], map[]);
    var s2 := System([Waiting("1", topic, payload)], map[0 := Idle], {}, [], map[]);
    run := GoOn([], EMPTY, Join(0), s1);
    run := GoOn(run, s1, Save("1", topic, payload), s2);
    run := GoOn(run, s2, Save("2", topic, payload), BothWait(topic, payload));
  }

  lemma FirstIsRefused(topic: Topic, payload: Payload, before: seq<Step>) returns (run: seq<Step>)
    requires Play(EMPTY, before) == BothWait(topic, payload)
    ensures run == before + [Fetch(0), Publish(0, false), Settle(0)]
    ensures Play(EMPTY, run) == Refused(topic, payload)
  {
    var s := BothWait(topic, payload);
    var claimed := [s.log[0].(status := IN_FLIGHT), s.log[1].(status := IN_FLIGHT)];
    var t := System(claimed, map[0 := Publishing(["1", "2"])], {}, [], map[]);
    var u := System(claimed, map[0 := Settling(["1", "2"], false)], {}, [], map["1" := 1]);
    ClaimsBoth(s.log[0], s.log[1]);
    assert ["1", "2"][1..] == ["2"];
    run := GoOn(before, s, Fetch(0), t);
    run := GoOn(run, t, Publish(0, false), u);
    run := GoOn(run, u, Settle(0), Refused(topic, payload));
  }

  function Delivered(topic: Topic, payload: Payload): System {
    System([Waiting("1", topic, payload).(retryCount := 1), Waiting("2", topic, payload).(status := PUBLISHED)],
           map[0 := Idle], {}, ["2"], map["1" := 1, "2" := 1])
  }

  function Published(topic: Topic, payload: Payload): System {
    System(Refused(topic, payload).log, map[0 := Settling(["2"], true)], {}, ["2"], map["1" := 1, "2" := 1])
  }

  lemma SecondIsMarked(topic: Topic, payload: Payload)
    ensures var t := Published(topic, payload); Enabled(t, Settle(0)) && Next(t, Settle(0)) == Delivered(topic, payload)
  {
    var t := Published(topic, payload);
    MarkAt(t.log, 1, true);
    assert ["2"][1..] == [] && t.log[1 := AfterAttempt(t.log[1], true)] == Delivered(topic, payload).log;
    assert t.workers[0 := Idle] == map[0 := Idle];
  }

  lemma SecondIsDelivered(topic: Topic, payload: Payload, before: seq<Step>) returns (run: seq<Step>)
    requires Play(EMPTY, before) == Refused(topic, payload)
    ensures run == before + [Publish(0, true), Settle(0)] && Play(EMPTY, run) == Delivered(topic, payload)
  {
    run := GoOn(before, Refused(topic, payload), Publish(0, true), Published(topic, payload));
    SecondIsMarked(topic, payload);
    run := GoOn(run, Published(topic, payload), Settle(0), Delivered(topic, payload));
  }

  lemma FirstComesLast(topic: Topic, payload: Payload, before: seq<Step>) returns (run: seq<Step>)
    requires Play(EMPTY, before) == Delivered(topic, payload)
    ensures run == before + [Fetch(0), Publish(0, true)]
    ensures var s := Play(EMPTY, run); s.bus == ["2", "1"] && Ids(s.log) == ["1", "2"]
  {
    var s := Delivered(topic, payload);
    var t := s.(log := [s.log[0].(status := IN_FLIGHT), s.log[1]], workers := map[0 := Publishing(["1"])]);
    ClaimsFirst(s.log[0], s.log[1]);
    assert s.workers[0 := Publishing(["1"])] == t.workers;
    run := GoOn(before, s, Fetch(0), t);
    var u := Next(t, Publish(0, true));
    run := GoOn(run, t, Publish(0, true), u);
    assert u.log[1..] == [s.log[1]] && u.log[1..][1..] == [];
    assert Ids(u.log[1..]) == ["2"];
  }

  /** One worker and one refused publish are enough: the event that was refused comes after the next. */
  lemma RetryOvertakes(topic: Topic, payload: Payload, about: EventId -> CopyId)
    requires about("1") == about("2")
    ensures var s := Play(EMPTY, RetryRun(topic, payload)); s.bus == ["2", "1"] && !InOrder(s.log, s.bus, about)
  {
    var run := BothAreSaved(topic, payload);
    run := FirstIsRefused(topic, payload, run);
    run := SecondIsDelivered(topic, payload, run);
    run := FirstComesLast(topic, payload, run);
    assert run == RetryRun(topic, payload);
    var s := Play(EMPTY, run);
    assert s.log[0].eventId == Ids(s.log)[0] && s.log[1..][0].eventId == Ids(s.log)[1];
    assert Place(s.log, s.bus[0]) == 1 && Place(s.log, s.bus[1]) == 0;
  }

  lemma ClaimsBoth(a: EventRecord, b: EventRecord)
    requires a.status == b.status == PENDING
    ensures Pending([a, b], BATCH_LIMIT) == [a, b] && BatchIds([a, b]) == [a.eventId, b.eventId]
    ensures Claimed([a, b], BATCH_LIMIT) == [a.(status := IN_FLIGHT), b.(status := IN_FLIGHT)]
  {
    assert [a, b][1..] == [b] && [b][1..] == [];
    assert Pending([b], BATCH_LIMIT - 1) == [b] && Claimed([b], BATCH_LIMIT - 1) == [b.(status := IN_FLIGHT)];
  }

  lemma ClaimsFirst(a: EventRecord, b: EventRecord)
    requires a.status == PENDING != b.status
    ensures Pending([a, b], BATCH_LIMIT) == [a] && BatchIds([a]) == [a.eventId]
    ensures Claimed([a, b], BATCH_LIMIT) == [a.(status := IN_FLIGHT), b]
  {
    assert [a, b][1..] == [b] && [b][1..] == [];
    assert Pending([b], BATCH_LIMIT - 1) == [] && Claimed([b], BATCH_LIMIT - 1) == [b];
  }

  // ---- one relay, and a broker that accepts everything

  /** The events before `k` are published, those of the worker's batch come next, and all others wait. */
  ghost predicate InStep(s: System, w: Worker, k: nat) {
    && s.workers.Keys <= {w} && w !in s.dead
    && var batch := if w in s.workers then Batch(s.workers[w]) else [];
    && k + |batch| <= |s.log|
    && (forall i :: 0 <= i < k ==> s.log[i].status == PUBLISHED)
    && (forall i :: k <= i < k + |batch| ==> s.log[i].status == IN_FLIGHT && s.log[i].eventId == batch[i - k])
    && (forall i :: k + |batch| <= i < |s.log| ==> s.log[i].status == PENDING)
    && |s.bus| == (if batch != [] && s.workers[w].Settling? then k + 1 else k)
    && (forall i :: 0 <= i < |s.bus| ==> s.bus[i] == s.log[i].eventId)
    && (batch != [] && s.workers[w].Settling? ==> s.workers[w].delivered)
  }

  /** Steps of one worker that lives, with a broker that never fails, and any saves in between. */
  predicate Reliable(step: Step, w: Worker) {
    match step
    case Join(v) => v == w
    case Publish(_, delivered) => delivered
    case Die(_) => false
    case _ => true
  }

  lemma {:induction false} ClaimWaiting(log: Log, limit: nat)
    requires forall i :: 0 <= i < |log| ==> log[i].status == PENDING
    ensures var n := if limit < |log| then limit else |log|;
      && Pending(log, limit) == log[..n]
      && |Claimed(log, limit)| == |log|
      && forall i :: 0 <= i < |log| ==> Claimed(log, limit)[i] == if i < n then log[i].(status := IN_FLIGHT) else log[i]
  {
    if log != [] && limit > 0 {
      ClaimWaiting(log[1..], limit - 1);
    }
  }

  lemma {:induction false} ClaimSkips(log: Log, k: nat, limit: nat)
    requires k <= |log| && forall i :: 0 <= i < k ==> log[i].status != PENDING
    ensures Pending(log, limit) == Pending(log[k..], limit) && Claimed(log, limit) == log[..k] + Claimed(log[k..], limit)
  {
    if k == 0 {
      assert log[0..] == log;
    } else {
      var rest, claimed := log[1..], Claimed(log[k..], limit);
      assert rest[k - 1..] == log[k..];
      ClaimSkips(rest, k - 1, limit);
      assert log[..k] == [log[0]] + rest[..k - 1];
      assert log[..k] + claimed == [log[0]] + (rest[..k - 1] + claimed);
    }
  }

  lemma ClaimAfter(log: Log, k: nat, limit: nat)
    requires k <= |log|
    requires forall i :: 0 <= i < k ==> log[i].status != PENDING
    requires forall i :: k <= i < |log| ==> log[i].status == PENDING
    ensures var n := if limit < |log| - k then limit else |log| - k;
      && Pending(log, limit) == log[k..k + n]
      && |Claimed(log, limit)| == |log|
      && forall i :: 0 <= i < |log| ==> Claimed(log, limit)[i] == if k <= i < k + n then log[i].(status := IN_FLIGHT) else log[i]
  {
    ClaimSkips(log, k, limit);
    ClaimWaiting(log[k..], limit);
  }

  lemma {:induction false} MarkAt(log: Log, k: nat, delivered: bool)
    requires k < |log| && DistinctIds(log)
    ensures Marked(log, log[k].eventId, delivered) == log[k := AfterAttempt(log[k], delivered)]
  {
    if k > 0 {
      assert log[1..][k - 1] == log[k] && log[0].eventId != log[k].eventId;
      MarkAt(log[1..], k - 1, delivered);
    }
  }

  lemma FetchKeepsStep(s: System, w: Worker, k: nat)
    requires Inv(s) && InStep(s, w, k) && Enabled(s, Fetch(w))
    ensures InStep(Next(s, Fetch(w)), w, k)
  {
    var t, picked := Next(s, Fetch(w)), Pending(s.log, BATCH_LIMIT);
    ClaimAfter(s.log, k, BATCH_LIMIT);
    var batch := Batch(t.workers[w]);
    assert batch == BatchIds(picked) && |batch| == |picked|;
    forall i | k <= i < k + |batch| ensures t.log[i].status == IN_FLIGHT && t.log[i].eventId == batch[i - k] {
      assert picked[i - k] == s.log[i];
    }
  }

  lemma SettleKeepsStep(s: System, w: Worker, k: nat)
    requires Inv(s) && InStep(s, w, k) && Enabled(s, Settle(w))
    ensures InStep(Next(s, Settle(w)), w, k + 1)
  {
    var batch := s.workers[w].batch;
    MarkAt(s.log, k, true);
    assert Batch(Next(s, Settle(w)).workers[w]) == batch[1..];
  }

  lemma PublishKeepsStep(s: System, w: Worker, k: nat)
    requires InStep(s, w, k) && Enabled(s, Publish(w, true))
    ensures InStep(Next(s, Publish(w, true)), w, k)
  {
    assert s.log[k].eventId == s.workers[w].batch[0];
  }

  lemma SaveKeepsStep(s: System, step: Step, w: Worker, k: nat)
    requires InStep(s, w, k) && Enabled(s, step) && step.Save?
    ensures InStep(Next(s, step), w, k)
  {
  }

  lemma ReliableStepStaysInStep(s: System, step: Step, w: Worker, k: nat) returns (k': nat)
    requires Inv(s) && InStep(s, w, k) && Enabled(s, step) && Reliable(step, w)
    ensures InStep(Next(s, step), w, k')
  {
    k' := k;
    match step {
      case Join(_) =>
      case Save(_, _, _) => SaveKeepsStep(s, step, w, k);
      case Fetch(v) => FetchKeepsStep(s, w, k);
      case Publish(v, _) => PublishKeepsStep(s, w, k);
      case Settle(v) =>
        SettleKeepsStep(s, w, k);
        k' := k + 1;
    }
  }

  lemma {:induction false} ReliableRunStaysInStep(steps: seq<Step>, w: Worker) returns (k: nat)
    requires forall i :: 0 <= i < |steps| ==> Reliable(steps[i], w)
    ensures InStep(Play(EMPTY, steps), w, k)
  {
    k := 0;
    if steps != [] {
      var before, step := steps[..|steps| - 1], steps[|steps| - 1];
      k := ReliableRunStaysInStep(before, w);
      PlayKeepsInv(EMPTY, before);
      if Enabled(Play(EMPTY, before), step) {
        k := ReliableStepStaysInStep(Play(EMPTY, before), step, w, k);
      }
    }
  }

  /** With one relay and no failures the bus is the beginning of the log, event for event. */
  lemma ReliableBusFollowsLog(steps: seq<Step>, w: Worker)
    requires forall i :: 0 <= i < |steps| ==> Reliable(steps[i], w)
    ensures var s := Play(EMPTY, steps);
      |s.bus| <= |s.log| && forall i :: 0 <= i < |s.bus| ==> s.bus[i] == s.log[i].eventId
  {
    var k := ReliableRunStaysInStep(steps, w);
  }

  // ---- reading custody off the bus

  /** Each record stands for one event of the library, saved in the order of its log. */
  ghost predicate Carry(log: Log, events: seq<C.Event>, about: EventId -> CopyId) {
    && DistinctIds(log) && |log| == |events|
    && forall i :: 0 <= i < |log| ==> about(log[i].eventId) == events[i].copyId
  }

  /** The library's events in the order they reached the bus. */
  function OnBus(log: Log, events: seq<C.Event>, bus: seq<EventId>): seq<C.Event> {
    if bus == [] then []
    else
      var k := Place(log, bus[|bus| - 1]);
      OnBus(log, events, bus[..|bus| - 1]) + if k < |events| then [events[k]] else []
  }

  lemma {:induction false} OnBusAt(log: Log, events: seq<C.Event>, bus: seq<EventId>)
    requires |log| == |events| && forall i :: 0 <= i < |bus| ==> Place(log, bus[i]) < |log|
    ensures |OnBus(log, events, bus)| == |bus|
    ensures forall i :: 0 <= i < |bus| ==> OnBus(log, events, bus)[i] == events[Place(log, bus[i])]
  {
    if bus != [] {
      OnBusAt(log, events, bus[..|bus| - 1]);
    }
  }

  predicate IsLastOf(events: seq<C.Event>, c: CopyId, k: nat) {
    k < |events| && events[k].copyId == c && forall i :: k < i < |events| ==> events[i].copyId != c
  }

  lemma {:induction false} LastDecides(events: seq<C.Event>, c: CopyId, k: nat)
    requires IsLastOf(events, c, k)
    ensures Ledger.Replay(events, c) == Ledger.SeenAfter(events[k])
  {
    if k < |events| - 1 {
      LastDecides(events[..|events| - 1], c, k);
    }
  }

  lemma PlacesOnBus(s: System)
    requires Inv(s)
    ensures forall i :: 0 <= i < |s.bus| ==> Place(s.log, s.bus[i]) < |s.log| && s.log[Place(s.log, s.bus[i])].eventId == s.bus[i]
  {
    forall i | 0 <= i < |s.bus| ensures Place(s.log, s.bus[i]) < |s.log| && s.log[Place(s.log, s.bus[i])].eventId == s.bus[i] {
      BusIsLogged(s, i);
      PlaceIsIndex(s.log, s.bus[i]);
    }
  }

  /** In order, and with a copy's last event delivered, the bus tells of the copy what the log tells. */
  lemma BusTellsHolder(steps: seq<Step>, events: seq<C.Event>, about: EventId -> CopyId, c: CopyId, k: nat)
    requires Carry(Play(EMPTY, steps).log, events, about) && NeverPremature(steps, about)
    requires IsLastOf(events, c, k) && Play(EMPTY, steps).log[k].eventId in Play(EMPTY, steps).bus
    ensures var s := Play(EMPTY, steps); Ledger.Replay(OnBus(s.log, events, s.bus), c) == Ledger.Replay(events, c)
  {
    var s := Play(EMPTY, steps);
    PlayKeepsInv(EMPTY, steps);
    NeverPrematureIsInOrder(steps, about);
    PlacesOnBus(s);
    OnBusAt(s.log, events, s.bus);
    PlaceAt(s.log, k);
    var seen := OnBus(s.log, events, s.bus);
    var j :| 0 <= j < |s.bus| && s.bus[j] == s.log[k].eventId;
    forall i | j < i < |seen| ensures seen[i].copyId != c {
      var place := Place(s.log, s.bus[i]);
      assert seen[i].copyId == about(s.bus[i]) && about(s.bus[j]) == c;
      assert about(s.bus[i]) == about(s.bus[j]) ==> k < place;
    }
    LastDecides(seen, c, j);
    LastDecides(events, c, k);
  }

  /**
    A relay of a library's own events: if nothing is delivered while an earlier event of its copy is still coming, then
    once a copy's last event is delivered the bus names its present borrower, or the reservation it is kept for.
   */
  lemma BusNamesBorrower(steps: seq<Step>, circulation: seq<C.Step>, about: EventId -> CopyId, c: CopyId, k: nat)
    requires c in C.Play(C.EMPTY, circulation).copies
    requires Carry(Play(EMPTY, steps).log, C.Play(C.EMPTY, circulation).outbox, about) && NeverPremature(steps, about)
    requires IsLastOf(C.Play(C.EMPTY, circulation).outbox, c, k)
    requires Play(EMPTY, steps).log[k].eventId in Play(EMPTY, steps).bus
    ensures var w, s := C.Play(C.EMPTY, circulation), Play(EMPTY, steps);
            var seen := Ledger.Replay(OnBus(s.log, w.outbox, s.bus), c);
            && (forall u :: w.copies[c].borrower == Some(u) <==> seen == Ledger.With(u))
            && (w.copies[c].status == RESERVED <==> seen.Held?)
            && (seen.Held? ==>
                  && seen.reservation in w.queues.reservations
                  && w.copies[c].reserver == Some(w.queues.reservations[seen.reservation].user))
  {
    BusTellsHolder(steps, C.Play(C.EMPTY, circulation).outbox, about, c, k);
    Runs.LogRebuildsCustody(circulation, c);
  }

  /** With one relay and no failures the bus tells of every copy what the log told at some earlier moment. */
  lemma ReliableBusTellsThePast(steps: seq<Step>, w: Worker, events: seq<C.Event>, about: EventId -> CopyId, c: CopyId)
    requires forall i :: 0 <= i < |steps| ==> Reliable(steps[i], w)
    requires Carry(Play(EMPTY, steps).log, events, about)
    ensures var s := Play(EMPTY, steps);
      && |s.bus| <= |events| && OnBus(s.log, events, s.bus) == events[..|s.bus|]
      && Ledger.Replay(OnBus(s.log, events, s.bus), c) == Ledger.Replay(events[..|s.bus|], c)
  {
    var s := Play(EMPTY, steps);
    ReliableBusFollowsLog(steps, w);
    forall i | 0 <= i < |s.bus| ensures Place(s.log, s.bus[i]) == i {
      PlaceAt(s.log, i);
    }
    OnBusAt(s.log, events, s.bus);
  }
}
