/**
  What a relay's own rounds put on its bus. A round is a run of the relay protocol of one worker, so that everything
  shown of interleaved workers holds of it, and the bus gets the message of each event it marks published, once.
 */
module RelayRounds {
  import opened Types
  import opened Outboxes
  import BusOrder
  import RelayProgress

  type Message = (Topic, Payload)

  function IfPublished(before: EventRecord, after: EventRecord): seq<Message> {
    if before.status == PENDING && after.status == PUBLISHED then [(before.topic, before.payload)] else []
  }

  /** The messages of the events that were pending before and are published after, in the order of the log. */
  function NewlyPublished(before: Log, after: Log): seq<Message>
    requires |before| == |after|
  {
    if before == [] then [] else IfPublished(before[0], after[0]) + NewlyPublished(before[1..], after[1..])
  }

  function MessageOf(log: Log, id: EventId): Message {
    match Lookup(log, id)
    case Some(e) => (e.topic, e.payload)
    case None => ("", "")
  }

  function Messages(log: Log, ids: seq<EventId>): seq<Message> {
    if ids == [] then [] else Messages(log, ids[..|ids| - 1]) + [MessageOf(log, ids[|ids| - 1])]
  }

  // ---- the log halfway through a round

  /** The first `limit` pending events claimed, and the first `k` of them settled, as attempts `n` and on went. */
  function Halfway(log: Log, limit: nat, k: nat, n: nat, reachable: nat -> bool): Log {
    if log == [] || limit == 0 || k == 0 then Claimed(log, limit)
    else if log[0].status == PENDING
    then [AfterAttempt(log[0], reachable(n))] + Halfway(log[1..], limit - 1, k - 1, n + 1, reachable)
    else [log[0]] + Halfway(log[1..], limit, k, n, reachable)
  }

  lemma {:induction false} HalfwayLength(log: Log, limit: nat, k: nat, n: nat, reachable: nat -> bool)
    ensures |Halfway(log, limit, k, n, reachable)| == |log|
  {
    ClaimKeepsIds(log, limit);
    if log != [] && limit > 0 && k > 0 {
      if log[0].status == PENDING {
        HalfwayLength(log[1..], limit - 1, k - 1, n + 1, reachable);
      } else {
        HalfwayLength(log[1..], limit, k, n, reachable);
      }
    }
  }

  /** The pending events of the rest of a log have other ids than its first event. */
  lemma LaterIdsDiffer(log: Log, limit: nat, k: nat)
    requires DistinctIds(log) && log != [] && k < |Pending(log[1..], limit)|
    ensures Pending(log[1..], limit)[k].eventId != log[0].eventId
  {
    PendingIsPending(log[1..], limit);
    var i :| 0 <= i < |log[1..]| && log[1..][i] == Pending(log[1..], limit)[k];
    assert log[i + 1] == log[1..][i];
  }

  lemma {:induction false} MarkingTheNext(log: Log, limit: nat, k: nat, n: nat, reachable: nat -> bool)
    requires DistinctIds(log) && k < |Pending(log, limit)|
    ensures Marked(Halfway(log, limit, k, n, reachable), Pending(log, limit)[k].eventId, reachable(n + k)) ==
      Halfway(log, limit, k + 1, n, reachable)
  {
    if log[0].status != PENDING {
      LaterIdsDiffer(log, limit, k);
      MarkingTheNext(log[1..], limit, k, n, reachable);
    } else if k > 0 {
      LaterIdsDiffer(log, limit - 1, k - 1);
      MarkingTheNext(log[1..], limit - 1, k - 1, n + 1, reachable);
    }
  }

  lemma {:induction false} ClaimingPublishesNothing(log: Log, limit: nat)
    ensures |Claimed(log, limit)| == |log| && NewlyPublished(log, Claimed(log, limit)) == []
  {
    if log != [] && limit > 0 {
      ClaimingPublishesNothing(log[1..], if log[0].status == PENDING then limit - 1 else limit);
    } else if log != [] {
      ClaimingPublishesNothing(log[1..], limit);
    }
  }

  /** A log halfway through a round, told by its first event and the rest. */
  lemma PublishedFirst(log: Log, limit: nat, k: nat, n: nat, reachable: nat -> bool)
    requires log != [] && limit > 0
    ensures |Halfway(log, limit, k, n, reachable)| == |log|
    ensures NewlyPublished(log, Halfway(log, limit, k, n, reachable)) ==
      if k == 0 then []
      else if log[0].status != PENDING then Published(log[1..], limit, k, n, reachable)
      else (if reachable(n) then [(log[0].topic, log[0].payload)] else []) + Published(log[1..], limit - 1, k - 1, n + 1, reachable)
  {
    HalfwayLength(log, limit, k, n, reachable);
    if k == 0 {
      ClaimingPublishesNothing(log, limit);
    }
  }

  /** The messages published by the first `k` attempts. */
  function Published(log: Log, limit: nat, k: nat, n: nat, reachable: nat -> bool): seq<Message> {
    HalfwayLength(log, limit, k, n, reachable);
    NewlyPublished(log, Halfway(log, limit, k, n, reachable))
  }

  lemma {:induction false} PublishingTheNext(log: Log, limit: nat, k: nat, n: nat, reachable: nat -> bool)
    requires k < |Pending(log, limit)|
    ensures Published(log, limit, k + 1, n, reachable) ==
      Published(log, limit, k, n, reachable) +
      if reachable(n + k) then [(Pending(log, limit)[k].topic, Pending(log, limit)[k].payload)] else []
  {
    PublishedFirst(log, limit, k, n, reachable);
    PublishedFirst(log, limit, k + 1, n, reachable);
    if log[0].status != PENDING {
      PublishingTheNext(log[1..], limit, k, n, reachable);
    } else if k > 0 {
      PublishingTheNext(log[1..], limit - 1, k - 1, n + 1, reachable);
    } else {
      ClaimingPublishesNothing(log[1..], limit - 1);
    }
  }

  lemma {:induction false} InFlightKeepsMessages(batch: seq<EventRecord>)
    ensures |InFlight(batch)| == |batch|
    ensures forall i :: 0 <= i < |batch| ==>
      InFlight(batch)[i].eventId == batch[i].eventId && InFlight(batch)[i].topic == batch[i].topic && InFlight(batch)[i].payload == batch[i].payload
  {
    if batch != [] {
      InFlightKeepsMessages(batch[1..]);
    }
  }

  /** A round after its claim and `k` attempts. */
  function RoundUpTo(log: Log, history: seq<Message>, k: nat, reachable: nat -> bool): Round
    requires k <= |InFlight(Pending(log, BATCH_LIMIT))|
  {
    Attempted(Round(Claimed(log, BATCH_LIMIT), history, 0), InFlight(Pending(log, BATCH_LIMIT))[..k], reachable)
  }

  lemma RoundOneMore(log: Log, history: seq<Message>, k: nat, reachable: nat -> bool)
    requires k < |Pending(log, BATCH_LIMIT)| == |InFlight(Pending(log, BATCH_LIMIT))|
    ensures RoundUpTo(log, history, k + 1, reachable) ==
      RoundUpTo(log, history, k, reachable).Attempt(InFlight(Pending(log, BATCH_LIMIT))[k], reachable(k))
  {
    AttemptedStep(Round(Claimed(log, BATCH_LIMIT), history, 0), InFlight(Pending(log, BATCH_LIMIT)), k, reachable);
  }

  lemma {:induction false} RoundPublishesUpTo(log: Log, history: seq<Message>, k: nat, reachable: nat -> bool)
    requires DistinctIds(log) && k <= |Pending(log, BATCH_LIMIT)| == |InFlight(Pending(log, BATCH_LIMIT))|
    ensures var r := RoundUpTo(log, history, k, reachable);
      && r.log == Halfway(log, BATCH_LIMIT, k, 0, reachable)
      && r.history == history + Published(log, BATCH_LIMIT, k, 0, reachable)
      && r.published == |Published(log, BATCH_LIMIT, k, 0, reachable)|
  {
    if k == 0 {
      ClaimingPublishesNothing(log, BATCH_LIMIT);
    } else {
      RoundPublishesUpTo(log, history, k - 1, reachable);
      InFlightKeepsMessages(Pending(log, BATCH_LIMIT));
      RoundOneMore(log, history, k - 1, reachable);
      MarkingTheNext(log, BATCH_LIMIT, k - 1, 0, reachable);
      PublishingTheNext(log, BATCH_LIMIT, k - 1, 0, reachable);
    }
  }

  /** The bus gets, in the order of the log, the messages of exactly the events the round turns from pending to published. */
  lemma RoundPublishesWhatItMarks(log: Log, history: seq<Message>, reachable: nat -> bool)
    requires DistinctIds(log)
    ensures var r := PublishRound(log, history, reachable);
      && |r.log| == |log|
      && r.history == history + NewlyPublished(log, r.log)
      && r.published == |NewlyPublished(log, r.log)|
  {
    var batch := InFlight(Pending(log, BATCH_LIMIT));
    InFlightKeepsMessages(Pending(log, BATCH_LIMIT));
    RoundPublishesUpTo(log, history, |batch|, reachable);
    HalfwayLength(log, BATCH_LIMIT, |batch|, 0, reachable);
    assert batch[..|batch|] == batch;
  }

  /** The same of a round on the live repository and bus, whose ids are distinct. */
  method PublishAndTell(relay: OutboxRelay, reachable: nat -> bool) returns (count: nat)
    requires DistinctIds(relay.repo.events)
    modifies relay.repo, relay.bus
    ensures |relay.repo.events| == |old(relay.repo.events)|
    ensures relay.bus.history == old(relay.bus.history) + NewlyPublished(old(relay.repo.events), relay.repo.events)
    ensures count == |NewlyPublished(old(relay.repo.events), relay.repo.events)|
  {
    ghost var log, history := relay.repo.events, relay.bus.history;
    count := relay.PublishPendingOnce(reachable);
    RoundPublishesWhatItMarks(log, history, reachable);
  }

  // ---- a round as a run of one worker

  function RoundSteps(w: Worker, n: nat, reachable: nat -> bool): seq<Step> {
    if n == 0 then [Fetch(w)] else RoundSteps(w, n - 1, reachable) + [Publish(w, reachable(n - 1)), Settle(w)]
  }

  lemma PlayTwoMore(s: System, steps: seq<Step>, a: Step, b: Step)
    ensures Play(s, steps + [a, b]) ==
      var t := Play(s, steps);
      var u := if Enabled(t, a) then Next(t, a) else t;
      if Enabled(u, b) then Next(u, b) else u
  {
    var longer := steps + [a, b];
    assert longer[..|longer| - 1] == steps + [a] && (steps + [a])[..|steps|] == steps;
  }

  /** What was delivered since `s` is logged there, and these are its messages. */
  ghost predicate Delivered(s: System, bus: seq<EventId>, sent: seq<Message>) {
    && s.bus <= bus && sent == Messages(s.log, bus[|s.bus|..])
    && forall i :: |s.bus| <= i < |bus| ==> Lookup(s.log, bus[i]).Some?
  }

  /** The worker has delivered on the protocol's bus what the round has published on the relay's, and both logs are the same. */
  ghost predicate Tallies(s: System, w: Worker, t: System, history: seq<Message>, r: Round, left: seq<EventId>) {
    && t.log == r.log && t.dead == s.dead && t.workers == s.workers[w := Resume(left)]
    && |t.bus| == |s.bus| + r.published
    && history <= r.history && Delivered(s, t.bus, r.history[|history|..])
  }

  lemma OneMoreDelivered(s: System, bus: seq<EventId>, sent: seq<Message>, id: EventId, message: Message)
    requires Delivered(s, bus, sent) && Lookup(s.log, id).Some? && MessageOf(s.log, id) == message
    ensures Delivered(s, bus + [id], sent + [message])
  {
    var ids := bus[|s.bus|..];
    assert (bus + [id])[|s.bus|..] == ids + [id] && (ids + [id])[..|ids|] == ids;
  }

  lemma TurnTallies(
    s: System, w: Worker, t: System, history: seq<Message>, r: Round, left: seq<EventId>, e: EventRecord, accepted: bool)
    requires Tallies(s, w, t, history, r, left) && w !in s.dead && left != [] && e.eventId == left[0]
    requires Lookup(s.log, left[0]).Some? && MessageOf(s.log, left[0]) == (e.topic, e.payload)
    ensures Enabled(t, Publish(w, accepted)) && Enabled(Next(t, Publish(w, accepted)), Settle(w))
    ensures Tallies(s, w, Next(Next(t, Publish(w, accepted)), Settle(w)), history, r.Attempt(e, accepted), left[1..])
  {
    if accepted {
      OneMoreDelivered(s, t.bus, r.history[|history|..], left[0], (e.topic, e.payload));
      assert (r.history + [(e.topic, e.payload)])[|history|..] == r.history[|history|..] + [(e.topic, e.payload)];
    }
  }

  lemma TurnIsPlayed(
    s: System, w: Worker, steps: seq<Step>, history: seq<Message>, r: Round, left: seq<EventId>, e: EventRecord, accepted: bool)
    requires Tallies(s, w, Play(s, steps), history, r, left) && w !in s.dead && left != [] && e.eventId == left[0]
    requires Lookup(s.log, left[0]).Some? && MessageOf(s.log, left[0]) == (e.topic, e.payload)
    ensures Tallies(s, w, Play(s, steps + [Publish(w, accepted), Settle(w)]), history, r.Attempt(e, accepted), left[1..])
  {
    PlayTwoMore(s, steps, Publish(w, accepted), Settle(w));
    TurnTallies(s, w, Play(s, steps), history, r, left, e, accepted);
  }

  lemma FetchIsPlayed(s: System, w: Worker, history: seq<Message>, reachable: nat -> bool)
    requires Lives(s, w) && s.workers[w].Idle?
    ensures Tallies(s, w, Play(s, [Fetch(w)]), history, RoundUpTo(s.log, history, 0, reachable), BatchIds(Pending(s.log, BATCH_LIMIT)))
  {
    assert [Fetch(w)][..0] == [];
    assert Play(s, [Fetch(w)]) == Next(s, Fetch(w));
    assert s.bus[|s.bus|..] == [] && history[|history|..] == [];
  }

  /** What the worker fetches is what the relay fetches. */
  lemma FetchedEvent(log: Log, k: nat)
    requires DistinctIds(log) && k < |Pending(log, BATCH_LIMIT)|
    ensures |InFlight(Pending(log, BATCH_LIMIT))| == |Pending(log, BATCH_LIMIT)|
    ensures var e, id := InFlight(Pending(log, BATCH_LIMIT))[k], BatchIds(Pending(log, BATCH_LIMIT))[k];
      e.eventId == id && Lookup(log, id).Some? && MessageOf(log, id) == (e.topic, e.payload)
  {
    InFlightKeepsMessages(Pending(log, BATCH_LIMIT));
    PendingIsPending(log, BATCH_LIMIT);
    DistinctLookup(log, Pending(log, BATCH_LIMIT)[k]);
  }

  lemma {:induction false} RoundIsAPlayUpTo(s: System, w: Worker, history: seq<Message>, k: nat, reachable: nat -> bool)
    requires DistinctIds(s.log) && Lives(s, w) && s.workers[w].Idle?
    requires k <= |Pending(s.log, BATCH_LIMIT)| == |InFlight(Pending(s.log, BATCH_LIMIT))|
    ensures Tallies(s, w, Play(s, RoundSteps(w, k, reachable)), history, RoundUpTo(s.log, history, k, reachable),
                    BatchIds(Pending(s.log, BATCH_LIMIT))[k..])
  {
    var batch, ids := InFlight(Pending(s.log, BATCH_LIMIT)), BatchIds(Pending(s.log, BATCH_LIMIT));
    if k == 0 {
      FetchIsPlayed(s, w, history, reachable);
      assert ids[0..] == ids;
    } else {
      RoundIsAPlayUpTo(s, w, history, k - 1, reachable);
      RoundOneMore(s.log, history, k - 1, reachable);
      FetchedEvent(s.log, k - 1);
      TurnIsPlayed(s, w, RoundSteps(w, k - 1, reachable), history, RoundUpTo(s.log, history, k - 1, reachable), ids[k - 1..],
                   batch[k - 1], reachable(k - 1));
      assert ids[k - 1..][1..] == ids[k..];
    }
  }

  /** A round is what one idle worker does by fetching, publishing and settling: same log, same deliveries. */
  lemma RoundIsAPlay(s: System, w: Worker, history: seq<Message>, reachable: nat -> bool)
    requires DistinctIds(s.log) && Lives(s, w) && s.workers[w].Idle?
    ensures var t := Play(s, RoundSteps(w, |Pending(s.log, 50)|, reachable));
      Tallies(s, w, t, history, PublishRound(s.log, history, reachable), [])
  {
    var picked := Pending(s.log, BATCH_LIMIT);
    InFlightKeepsMessages(picked);
    RoundIsAPlayUpTo(s, w, history, |picked|, reachable);
    assert InFlight(picked)[..|picked|] == InFlight(picked) && BatchIds(picked)[|picked|..] == [];
  }

  // ---- a relay's whole life

  lemma NextKeepsMessage(s: System, step: Step, id: EventId)
    requires Enabled(s, step) && DistinctIds(s.log) && Lookup(s.log, id).Some?
    ensures Lookup(Next(s, step).log, id).Some? && MessageOf(Next(s, step).log, id) == MessageOf(s.log, id)
  {
    match step
    case Save(added, topic, payload) => LookupSaved(s.log, EventRecord(added, topic, payload, PENDING, 0), id);
    case Fetch(_) => LookupClaimed(s.log, BATCH_LIMIT, id);
    case Settle(w) => LookupMarked(s.log, s.workers[w].batch[0], s.workers[w].delivered, id);
    case _ =>
  }

  lemma {:induction false} PlayKeepsMessage(s: System, steps: seq<Step>, id: EventId)
    requires Inv(s) && Lookup(s.log, id).Some?
    ensures Lookup(Play(s, steps).log, id).Some? && MessageOf(Play(s, steps).log, id) == MessageOf(s.log, id)
  {
    if steps != [] {
      PlayKeepsMessage(s, steps[..|steps| - 1], id);
      PlayKeepsInv(s, steps[..|steps| - 1]);
      if Enabled(Play(s, steps[..|steps| - 1]), steps[|steps| - 1]) {
        NextKeepsMessage(Play(s, steps[..|steps| - 1]), steps[|steps| - 1], id);
      }
    }
  }

  lemma {:induction false} MessagesStay(log: Log, log': Log, ids: seq<EventId>)
    requires forall i :: 0 <= i < |ids| ==> MessageOf(log', ids[i]) == MessageOf(log, ids[i])
    ensures Messages(log', ids) == Messages(log, ids)
  {
    if ids != [] {
      MessagesStay(log, log', ids[..|ids| - 1]);
    }
  }

  lemma {:induction false} MessagesJoin(log: Log, a: seq<EventId>, b: seq<EventId>)
    ensures Messages(log, a + b) == Messages(log, a) + Messages(log, b)
  {
    if b == [] {
      assert a + b == a;
    } else {
      assert (a + b)[..|a + b| - 1] == a + b[..|b| - 1];
      MessagesJoin(log, a, b[..|b| - 1]);
    }
  }

  /** Something is saved under a new id, or the relay makes a round. */
  datatype Task = Saving(id: EventId, topic: Topic, payload: Payload) | Relaying(reachable: nat -> bool)

  /** The log and the history of the bus after some tasks. */
  function AfterTasks(tasks: seq<Task>): (Log, seq<Message>) {
    if tasks == [] then ([], [])
    else
      var (log, history) := AfterTasks(tasks[..|tasks| - 1]);
      match tasks[|tasks| - 1]
      case Saving(id, topic, payload) =>
        (if Lookup(log, id).None? then log + [EventRecord(id, topic, payload, PENDING, 0)] else log, history)
      case Relaying(reachable) =>
        var r := PublishRound(log, history, reachable);
        (r.log, r.history)
  }

  /** The protocol stands where the relay does, its worker idle, and the bus history is the messages of its bus. */
  ghost predicate Stands(s: System, log: Log, history: seq<Message>) {
    s.log == log && s.workers == map[0 := Idle] && s.dead == {} && history == Messages(s.log, s.bus)
  }

  /** What a run from `s` has delivered adds its messages to those of the bus before. */
  lemma DeliveriesJoin(s: System, steps: seq<Step>, sent: seq<Message>)
    requires Inv(s) && Delivered(s, Play(s, steps).bus, sent)
    ensures var t := Play(s, steps); Messages(t.log, t.bus) == Messages(s.log, s.bus) + sent
  {
    var t := Play(s, steps);
    forall i | 0 <= i < |t.bus| ensures MessageOf(t.log, t.bus[i]) == MessageOf(s.log, t.bus[i]) {
      if i < |s.bus| {
        assert t.bus[i] == s.bus[i];
        BusOrder.BusIsLogged(s, i);
      }
      PlayKeepsMessage(s, steps, t.bus[i]);
    }
    MessagesStay(s.log, t.log, t.bus);
    MessagesJoin(s.log, s.bus, t.bus[|s.bus|..]);
    assert t.bus == s.bus + t.bus[|s.bus|..];
  }

  lemma TalliedStands(s: System, t: System, history: seq<Message>, r: Round)
    requires Stands(s, s.log, history) && Tallies(s, 0, t, history, r, [])
    requires Messages(t.log, t.bus) == Messages(s.log, s.bus) + r.history[|history|..]
    ensures Stands(t, r.log, r.history)
  {
    assert r.history == history + r.history[|history|..];
  }

  lemma RoundStands(s: System, history: seq<Message>, reachable: nat -> bool)
    requires Inv(s) && Stands(s, s.log, history)
    ensures var r := PublishRound(s.log, history, reachable);
      Stands(Play(s, RoundSteps(0, |Pending(s.log, BATCH_LIMIT)|, reachable)), r.log, r.history)
  {
    RoundIsAPlay(s, 0, history, reachable);
    var steps := RoundSteps(0, |Pending(s.log, BATCH_LIMIT)|, reachable);
    var r := PublishRound(s.log, history, reachable);
    DeliveriesJoin(s, steps, r.history[|history|..]);
    TalliedStands(s, Play(s, steps), history, r);
  }

  lemma SavingStands(s: System, history: seq<Message>, id: EventId, topic: Topic, payload: Payload)
    requires Inv(s) && Stands(s, s.log, history) && Enabled(s, Save(id, topic, payload))
    ensures Stands(Next(s, Save(id, topic, payload)), s.log + [EventRecord(id, topic, payload, PENDING, 0)], history)
  {
    var t := Next(s, Save(id, topic, payload));
    forall i | 0 <= i < |s.bus| ensures MessageOf(t.log, s.bus[i]) == MessageOf(s.log, s.bus[i]) {
      BusOrder.BusIsLogged(s, i);
      NextKeepsMessage(s, Save(id, topic, payload), s.bus[i]);
    }
    MessagesStay(s.log, t.log, s.bus);
  }

  /**
    Whatever is saved between the rounds and whatever the broker does, the relay's life is a run of the protocol: its log
    is that run's, and its bus has the messages of the events delivered there, in the same order.
   */
  lemma {:induction false} RelayLifeIsAPlay(tasks: seq<Task>) returns (steps: seq<Step>)
    ensures Stands(Play(EMPTY, steps), AfterTasks(tasks).0, AfterTasks(tasks).1)
  {
    if tasks == [] {
      steps := [Join(0)];
      assert steps[..0] == [] && Play(EMPTY, steps) == Next(EMPTY, Join(0));
    } else {
      var before := RelayLifeIsAPlay(tasks[..|tasks| - 1]);
      var (log, history) := AfterTasks(tasks[..|tasks| - 1]);
      var s := Play(EMPTY, before);
      PlayKeepsInv(EMPTY, before);
      match tasks[|tasks| - 1] {
        case Saving(id, topic, payload) =>
          steps := before + [Save(id, topic, payload)];
          assert steps[..|before|] == before;
          if Lookup(log, id).None? {
            SavingStands(s, history, id, topic, payload);
          }
        case Relaying(reachable) =>
          var turn := RoundSteps(0, |Pending(s.log, BATCH_LIMIT)|, reachable);
          steps := before + turn;
          RelayProgress.PlayOnward(EMPTY, before, turn);
          RoundStands(s, history, reachable);
      }
    }
  }

  lemma CountedOnce(ids: seq<EventId>, i: nat, j: nat)
    requires i < j < |ids| && ids[i] == ids[j]
    ensures multiset(ids)[ids[i]] >= 2
  {
    assert ids == ids[..j] + [ids[j]] + ids[j + 1..];
    assert ids[..j][i] == ids[i] && ids[i] in multiset(ids[..j]);
  }

  /** So the bus has one message for each published event, for no other, and for none twice. */
  lemma RelayPublishesEachOnce(tasks: seq<Task>) returns (ids: seq<EventId>)
    ensures var (log, history) := AfterTasks(tasks);
      && history == Messages(log, ids)
      && (forall i, j :: 0 <= i < j < |ids| ==> ids[i] != ids[j])
      && (forall id :: id in ids <==> Lookup(log, id).Some? && Lookup(log, id).value.status == PUBLISHED)
  {
    var steps := RelayLifeIsAPlay(tasks);
    var s := Play(EMPTY, steps);
    PlayKeepsInv(EMPTY, steps);
    ids := s.bus;
    forall id ensures id in ids <==> StatusIs(s, id, PUBLISHED) {
      assert id in ids <==> multiset(ids)[id] > 0;
      assert forall w :: !SettlesNow(s, w, id);
    }
    forall i, j | 0 <= i < j < |ids| ensures ids[i] != ids[j] {
      if ids[i] == ids[j] {
        CountedOnce(ids, i, j);
      }
    }
  }
}
