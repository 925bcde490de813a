/**
  Idempotency keys held in process memory, and the request handler that protects an operation with a lease.
  The store's lock makes each store call one atomic step; requests interleave between calls.
 */
module Idempotency {
  import opened Types

  type Key = string
  type Body = string
  type Client = nat

  const LEASE := 60.0

  datatype Data = InProgress | Completed(statusCode: int, body: Body)

  datatype Entry = Entry(data: Data, expiresAt: real)

  type Memory = map<Key, Entry>

  // ---- the store's four calls

  function Get(m: Memory, key: Key, now: real): (Option<Data>, Memory) {
    if key !in m then (None, m)
    else if m[key].expiresAt < now then (None, m - {key})
    else (Some(m[key].data), m)
  }

  function SetInProgress(m: Memory, key: Key, timeout: real, now: real): (bool, Memory) {
    if key in m && m[key].expiresAt >= now then (false, m)
    else (true, m[key := Entry(InProgress, now + timeout)])
  }

  function SetCompleted(m: Memory, key: Key, statusCode: int, body: Body, ttl: real, now: real): Memory {
    m[key := Entry(Completed(statusCode, body), now + ttl)]
  }

  function Clear(m: Memory, key: Key): Memory {
    m - {key}
  }

  class IdempotencyStore {
    const ttlSeconds: real
    var memoryStore: Memory

    constructor (ttlSeconds: real)
      ensures this.ttlSeconds == ttlSeconds && memoryStore == map[]
    {
      this.ttlSeconds, memoryStore := ttlSeconds, map[];
    }

    method Read(key: Key, now: real) returns (r: Option<Data>)
      modifies this
      ensures (r, memoryStore) == Get(old(memoryStore), key, now)
    {
      if key in memoryStore {
        if memoryStore[key].expiresAt < now {
          memoryStore := memoryStore - {key};
          return None;
        }
        return Some(memoryStore[key].data);
      }
      r := None;
    }

    method Acquire(key: Key, timeout: real, now: real) returns (acquired: bool)
      modifies this
      ensures (acquired, memoryStore) == SetInProgress(old(memoryStore), key, timeout, now)
    {
      if key in memoryStore && memoryStore[key].expiresAt >= now {
        return false;
      }
      memoryStore := memoryStore[key := Entry(InProgress, now + timeout)];
      acquired := true;
    }

    method Complete(key: Key, statusCode: int, body: Body, now: real)
      modifies this
      ensures memoryStore == SetCompleted(old(memoryStore), key, statusCode, body, ttlSeconds, now)
    {
      memoryStore := memoryStore[key := Entry(Completed(statusCode, body), now + ttlSeconds)];
    }

    method Release(key: Key)
      modifies this
      ensures memoryStore == Clear(old(memoryStore), key)
    {
      memoryStore := memoryStore - {key};
    }
  }

  datatype Reply = Conflict | OperationError | Answer(body: Body)

  function ReplyFor(found: Data): Reply {
    match found
    case Completed(_, body) => Answer(body)
    case InProgress => Conflict
  }

  /**
    One request, alone on the store, arriving at `arrive` and finishing its operation at `finish` with `outcome`
    (None for an exception). Without a key the operation simply runs.
   */
  method HandleIdempotentOperation(
    key: Option<Key>, store: IdempotencyStore, outcome: Option<Body>, statusCode: int, arrive: real, finish: real)
    returns (reply: Reply, executed: bool)
    modifies store
    ensures key.None? ==> executed && store.memoryStore == old(store.memoryStore)
    ensures executed ==> reply == (if outcome.Some? then Answer(outcome.value) else OperationError)
    ensures key.Some? ==> (executed <==> Get(old(store.memoryStore), key.value, arrive).0.None?)
    ensures key.Some? && !executed ==>
      && store.memoryStore == old(store.memoryStore)
      && reply == ReplyFor(Get(old(store.memoryStore), key.value, arrive).0.value)
    ensures key.Some? && executed && outcome.Some? ==>
      store.memoryStore == SetCompleted(old(store.memoryStore), key.value, statusCode, outcome.value, store.ttlSeconds, finish)
    ensures key.Some? && executed && outcome.None? ==> store.memoryStore == Clear(old(store.memoryStore), key.value)
  {
    if key.None? {
      return if outcome.Some? then Answer(outcome.value) else OperationError, true;
    }
    var cached := store.Read(key.value, arrive);
    if cached.Some? {
      return ReplyFor(cached.value), false;
    }
    var acquired := store.Acquire(key.value, LEASE, arrive);
    if !acquired {
      return Conflict, false;
    }
    if outcome.Some? {
      store.Complete(key.value, statusCode, outcome.value, finish);
      return Answer(outcome.value), true;
    }
    store.Release(key.value);
    return OperationError, true;
  }

  /**
    Two requests with one key, one after the other: while the first one's result is kept, the second is sent it and does
    not execute; after that it executes as if it were the first.
   */
  method HandleTwice(
    key: Key, store: IdempotencyStore, first: Body, second: Option<Body>, statusCode: int,
    arrive: real, finish: real, arriveAgain: real, finishAgain: real)
    returns (reply: Reply, replyAgain: Reply, executedAgain: bool)
    requires key !in store.memoryStore || store.memoryStore[key].expiresAt < arrive
    modifies store
    ensures reply == Answer(first)
    ensures executedAgain <==> arriveAgain > finish + store.ttlSeconds
    ensures !executedAgain ==> replyAgain == Answer(first)
    ensures executedAgain ==> replyAgain == if second.Some? then Answer(second.value) else OperationError
  {
    var executed;
    reply, executed := HandleIdempotentOperation(Some(key), store, Some(first), statusCode, arrive, finish);
    replyAgain, executedAgain := HandleIdempotentOperation(Some(key), store, second, statusCode, arriveAgain, finishAgain);
  }

  // ---- any number of requests on one scoped key, interleaved

  /** Idle, past a lookup that found nothing, or running the operation under a lease. */
  datatype Phase = Idle | Missed | Running(leaseEnds: real)

  datatype Success = Success(body: Body, time: real)

  datatype Sent = Sent(reply: Reply, time: real)

  /** `writer` is whose call stored the present entry; it, `successes` and `sent` record what happened; no step reads them. */
  datatype System = System(
    clock: real, memory: Memory, writer: Option<Client>, clients: map<Client, Phase>, successes: seq<Success>, sent: seq<Sent>)

  datatype Step =
    | Tick(delay: real)
    | Lookup(c: Client)
    | Start(c: Client)
    | Succeed(c: Client, statusCode: int, body: Body)
    | Fail(c: Client)

  function PhaseOf(s: System, c: Client): Phase {
    if c in s.clients then s.clients[c] else Idle
  }

  predicate Enabled(s: System, step: Step) {
    match step
    case Tick(delay) => delay >= 0.0
    case Lookup(c) => PhaseOf(s, c).Idle?
    case Start(c) => PhaseOf(s, c).Missed?
    case Succeed(c, _, _) => PhaseOf(s, c).Running?
    case Fail(c) => PhaseOf(s, c).Running?
  }

  function Next(s: System, key: Key, ttl: real, step: Step): System
    requires Enabled(s, step)
  {
    match step
    case Tick(delay) => s.(clock := s.clock + delay)
    case Lookup(c) =>
      var (found, memory) := Get(s.memory, key, s.clock);
      if found.None? then s.(memory := memory, writer := None, clients := s.clients[c := Missed])
      else
        s.(memory := memory, sent := s.sent + [Sent(ReplyFor(found.value), s.clock)])
    case Start(c) =>
      var (acquired, memory) := SetInProgress(s.memory, key, LEASE, s.clock);
      if acquired then s.(memory := memory, writer := Some(c), clients := s.clients[c := Running(s.clock + LEASE)])
      else s.(clients := s.clients[c := Idle], sent := s.sent + [Sent(Conflict, s.clock)])
    case Succeed(c, statusCode, body) =>
      s.(memory := SetCompleted(s.memory, key, statusCode, body, ttl, s.clock),
         writer := Some(c),
         clients := s.clients[c := Idle],
         successes := s.successes + [Success(body, s.clock)],
         sent := s.sent + [Sent(Answer(body), s.clock)])
    case Fail(c) =>
      s.(memory := Clear(s.memory, key), writer := None, clients := s.clients[c := Idle],
         sent := s.sent + [Sent(OperationError, s.clock)])
  }

  /** Every running operation is still within its lease. */
  ghost predicate Punctual(s: System) {
    forall c :: PhaseOf(s, c).Running? ==> s.clock <= PhaseOf(s, c).leaseEnds
  }

  ghost predicate OneRunner(s: System, key: Key) {
    && (forall c, d :: PhaseOf(s, c).Running? && PhaseOf(s, d).Running? ==> c == d)
    && (forall c: Client :: PhaseOf(s, c).Running? ==>
          key in s.memory && s.memory[key] == Entry(InProgress, PhaseOf(s, c).leaseEnds) && s.writer == Some(c))
  }

  ghost predicate StoredAs(s: System, key: Key, ttl: real, last: Success) {
    && key in s.memory && s.memory[key].data.Completed?
    && s.memory[key].data.body == last.body && s.memory[key].expiresAt == last.time + ttl
  }

  /** Successes are more than a lifetime apart, and only the last one can be stored, for its lifetime. */
  ghost predicate SpacedSuccesses(s: System, key: Key, ttl: real) {
    var n := |s.successes|;
    && (forall i, j :: 0 <= i < j < n ==> s.successes[i].time + ttl < s.successes[j].time)
    && (forall i :: 0 <= i < n ==> s.successes[i].time <= s.clock)
    && (forall i :: 0 <= i < n - 1 ==> s.successes[i].time + ttl < s.clock)
    && (n > 0 ==> s.successes[n - 1].time + ttl < s.clock || StoredAs(s, key, ttl, s.successes[n - 1]))
    && (key in s.memory && s.memory[key].data.Completed? ==> n > 0 && StoredAs(s, key, ttl, s.successes[n - 1]))
  }

  /** An answer was sent within the lifetime of a success with that body. */
  ghost predicate Answered(s: System, ttl: real, m: Sent) {
    m.reply.Answer? ==>
      exists i :: 0 <= i < |s.successes| && ServedBy(s.successes[i], ttl, m)
  }

  ghost predicate ServedBy(success: Success, ttl: real, m: Sent) {
    m.reply == Answer(success.body) && success.time <= m.time <= success.time + ttl
  }

  ghost predicate TruthfulAnswers(s: System, ttl: real) {
    forall m :: m in s.sent ==> Answered(s, ttl, m)
  }

  ghost predicate Inv(s: System, key: Key, ttl: real) {
    OneRunner(s, key) && SpacedSuccesses(s, key, ttl) && TruthfulAnswers(s, ttl)
  }

  lemma NextKeepsOneRunner(s: System, key: Key, ttl: real, step: Step)
    requires Inv(s, key, ttl) && Punctual(s) && Enabled(s, step)
    ensures OneRunner(Next(s, key, ttl, step), key)
  {
    var t := Next(s, key, ttl, step);
    if !step.Tick? {
      forall d | PhaseOf(t, d).Running?
        ensures d == step.c || PhaseOf(t, d) == PhaseOf(s, d)
        ensures d == step.c ==> step.Start? && forall c :: !PhaseOf(s, c).Running?
        ensures d != step.c ==> !step.Succeed? && !step.Fail? && key in t.memory && t.memory[key] == s.memory[key] && t.writer == s.writer
      {
        if d == step.c {
          forall c ensures !PhaseOf(s, c).Running? {}
        } else {
          assert PhaseOf(t, d) == PhaseOf(s, d);
          assert s.clock <= PhaseOf(s, d).leaseEnds;
        }
      }
    } else {
      forall d ensures PhaseOf(t, d) == PhaseOf(s, d) {}
    }
  }

  lemma SuccessKeepsSpacing(s: System, key: Key, ttl: real, step: Step)
    requires Inv(s, key, ttl) && Enabled(s, step) && step.Succeed?
    ensures SpacedSuccesses(Next(s, key, ttl, step), key, ttl)
  {
    var t, n := Next(s, key, ttl, step), |s.successes|;
    assert key in s.memory && s.memory[key].data.InProgress?;
    assert n > 0 ==> s.successes[n - 1].time + ttl < s.clock;
    assert StoredAs(t, key, ttl, t.successes[n]);
  }

  lemma OtherStepsKeepSpacing(s: System, key: Key, ttl: real, step: Step)
    requires Inv(s, key, ttl) && Enabled(s, step) && !step.Succeed?
    ensures SpacedSuccesses(Next(s, key, ttl, step), key, ttl)
  {
    var n := |s.successes|;
    if step.Fail? {
      assert key in s.memory && s.memory[key].data.InProgress?;
      assert n > 0 ==> s.successes[n - 1].time + ttl < s.clock;
    }
  }

  lemma NextKeepsAnswers(s: System, key: Key, ttl: real, step: Step)
    requires Inv(s, key, ttl) && Enabled(s, step) && ttl >= 0.0
    ensures TruthfulAnswers(Next(s, key, ttl, step), ttl)
  {
    var t := Next(s, key, ttl, step);
    forall m | m in t.sent ensures Answered(t, ttl, m) {
      if m in s.sent {
        assert Answered(s, ttl, m);
        if m.reply.Answer? {
          var i :| 0 <= i < |s.successes| && ServedBy(s.successes[i], ttl, m);
          assert t.successes[i] == s.successes[i];
        }
      } else if m.reply.Answer? {
        assert m == t.sent[|t.sent| - 1];
        var k := |t.successes| - 1;
        assert ServedBy(t.successes[k], ttl, m);
      }
    }
  }

  ghost predicate Follows(s: System, t: System, key: Key, ttl: real) {
    exists step :: Enabled(s, step) && t == Next(s, key, ttl, step)
  }

  /** A run all of whose states keep every running operation within its lease. */
  ghost predicate PunctualRun(run: seq<System>, key: Key, ttl: real) {
    && run != []
    && (forall i :: 0 <= i < |run| ==> Punctual(run[i]))
    && (forall i, j :: 0 <= i && j == i + 1 < |run| ==> Follows(run[i], run[j], key, ttl))
  }

  const EMPTY := System(0.0, map[], None, map[], [], [])

  lemma FollowsKeepsInv(s: System, t: System, key: Key, ttl: real)
    requires Inv(s, key, ttl) && Punctual(s) && Follows(s, t, key, ttl) && ttl >= 0.0
    ensures Inv(t, key, ttl)
  {
    var step :| Enabled(s, step) && t == Next(s, key, ttl, step);
    NextKeepsOneRunner(s, key, ttl, step);
    if step.Succeed? {
      SuccessKeepsSpacing(s, key, ttl, step);
    } else {
      OtherStepsKeepSpacing(s, key, ttl, step);
    }
    NextKeepsAnswers(s, key, ttl, step);
  }

  lemma {:induction false} PunctualRunKeepsInv(run: seq<System>, key: Key, ttl: real)
    requires PunctualRun(run, key, ttl) && run[0] == EMPTY && ttl >= 0.0
    ensures Inv(run[|run| - 1], key, ttl)
  {
    if |run| > 1 {
      PunctualRunKeepsInv(run[..|run| - 1], key, ttl);
      FollowsKeepsInv(run[|run| - 2], run[|run| - 1], key, ttl);
    }
  }

  /**
    In every punctual run: at most one execution is active; successes are more than a lifetime apart; and an answer,
    whether fresh or stored, sent within the lifetime of a success is that success's own body.
   */
  lemma AtMostOnceWithinLifetime(run: seq<System>, key: Key, ttl: real)
    requires PunctualRun(run, key, ttl) && run[0] == EMPTY && ttl >= 0.0
    ensures var s := run[|run| - 1];
      && (forall c, d :: PhaseOf(s, c).Running? && PhaseOf(s, d).Running? ==> c == d)
      && (forall i, j :: 0 <= i < j < |s.successes| ==> s.successes[i].time + ttl < s.successes[j].time)
      && (forall m, i ::
           m in s.sent && m.reply.Answer? && 0 <= i < |s.successes| && s.successes[i].time <= m.time <= s.successes[i].time + ttl
           ==> m.reply.body == s.successes[i].body)
  {
    PunctualRunKeepsInv(run, key, ttl);
    var s := run[|run| - 1];
    forall m, i |
      m in s.sent && m.reply.Answer? && 0 <= i < |s.successes| && s.successes[i].time <= m.time <= s.successes[i].time + ttl
      ensures m.reply.body == s.successes[i].body
    {
      assert Answered(s, ttl, m);
      var k :| 0 <= k < |s.successes| && ServedBy(s.successes[k], ttl, m);
    }
  }

  /** After a failed operation the key is free: the next request to look it up and start is let through. */
  lemma FailureFreesKey(s: System, key: Key, ttl: real, failed: Client, c: Client, delay: real)
    requires PhaseOf(s, failed).Running? && PhaseOf(s, c).Idle? && delay >= 0.0
    ensures var s1 := Next(Next(s, key, ttl, Fail(failed)), key, ttl, Tick(delay));
      && key !in s1.memory && Enabled(s1, Lookup(c))
      && Enabled(Next(s1, key, ttl, Lookup(c)), Start(c))
      && PhaseOf(Next(Next(s1, key, ttl, Lookup(c)), key, ttl, Start(c)), c).Running?
  {
  }

  /** What a request that finds a running operation gets to do after `delay`: look up, and start if it found nothing. */
  function Arrive(s: System, key: Key, ttl: real, c: Client, delay: real): System
    requires PhaseOf(s, c).Idle? && delay >= 0.0
  {
    var s1 := Next(s, key, ttl, Tick(delay));
    var s2 := Next(s1, key, ttl, Lookup(c));
    if PhaseOf(s2, c).Missed? then Next(s2, key, ttl, Start(c)) else s2
  }

  /** The lease is the whole protection: a second execution starts beside a running one exactly when that one overran. */
  lemma OverlapIffOverrun(s: System, key: Key, ttl: real, runner: Client, c: Client, delay: real)
    requires OneRunner(s, key) && PhaseOf(s, runner).Running? && PhaseOf(s, c).Idle? && delay >= 0.0
    ensures var t := Arrive(s, key, ttl, c, delay);
      (PhaseOf(t, c).Running? && PhaseOf(t, runner).Running?) <==> s.clock + delay > PhaseOf(s, runner).leaseEnds
  {
  }

  // ---- what an overrun lets happen, and only an overrun

  /** A run from `s` with any timing, that ends by `horizon`. */
  ghost predicate RunUntil(run: seq<System>, s: System, key: Key, ttl: real, horizon: real) {
    && run != [] && run[0] == s
    && (forall i :: 0 <= i < |run| ==> run[i].clock <= horizon)
    && (forall i, j :: 0 <= i && j == i + 1 < |run| ==> Follows(run[i], run[j], key, ttl))
  }

  /** Two executions succeeded, the second while the first one's result was to be kept. */
  ghost predicate Repeated(s: System, ttl: real) {
    exists i, j :: 0 <= i < j < |s.successes| && s.successes[j].time <= s.successes[i].time + ttl
  }

  /** The client is running and the stored entry is another's: finishing either way would replace or remove it. */
  ghost predicate Trespasses(s: System, key: Key, c: Client) {
    PhaseOf(s, c).Running? && key in s.memory && s.writer != Some(c)
  }

  /** The stored entry is its writer's lease, as long as the writer runs, and no lease is stored for anybody else. */
  ghost predicate WriterKnown(s: System, key: Key) {
    key in s.memory ==>
      && s.writer.Some?
      && (PhaseOf(s, s.writer.value).Running? ==>
            s.memory[key] == Entry(InProgress, PhaseOf(s, s.writer.value).leaseEnds))
      && (s.memory[key].data.InProgress? ==> PhaseOf(s, s.writer.value).Running?)
  }

  lemma FollowsKeepsWriter(s: System, t: System, key: Key, ttl: real)
    requires WriterKnown(s, key) && Follows(s, t, key, ttl)
    ensures WriterKnown(t, key)
  {
    var step :| Enabled(s, step) && t == Next(s, key, ttl, step);
    if key in t.memory && t.writer.Some? && t.writer == s.writer && (step.Tick? || step.c != t.writer.value) {
      assert PhaseOf(t, t.writer.value) == PhaseOf(s, t.writer.value);
    }
  }

  lemma {:induction false} EveryRunKnowsWriter(run: seq<System>, key: Key, ttl: real, horizon: real)
    requires RunUntil(run, EMPTY, key, ttl, horizon)
    ensures WriterKnown(run[|run| - 1], key)
  {
    if |run| > 1 {
      EveryRunKnowsWriter(run[..|run| - 1], key, ttl, horizon);
      FollowsKeepsWriter(run[|run| - 2], run[|run| - 1], key, ttl);
    }
  }

  lemma {:induction false} PunctualRunKnowsWriter(run: seq<System>, key: Key, ttl: real)
    requires PunctualRun(run, key, ttl) && run[0] == EMPTY
    ensures WriterKnown(run[|run| - 1], key)
  {
    if |run| > 1 {
      PunctualRunKnowsWriter(run[..|run| - 1], key, ttl);
      FollowsKeepsWriter(run[|run| - 2], run[|run| - 1], key, ttl);
    }
  }

  ghost predicate SomeoneRuns(s: System) {
    exists c :: PhaseOf(s, c).Running?
  }

  /** The last success is still within its lifetime. */
  predicate ResultKept(s: System, ttl: real) {
    s.successes != [] && s.clock <= s.successes[|s.successes| - 1].time + ttl
  }

  /**
    In every punctual run, a lookup is sent the last success's body exactly within its lifetime, a conflict exactly while
    somebody is running, and is let through exactly when neither is so.
   */
  lemma LookupIsTold(run: seq<System>, key: Key, ttl: real, c: Client)
    requires PunctualRun(run, key, ttl) && run[0] == EMPTY && ttl >= 0.0 && PhaseOf(run[|run| - 1], c).Idle?
    ensures var s := run[|run| - 1];
      var t := Next(s, key, ttl, Lookup(c));
      && !(ResultKept(s, ttl) && SomeoneRuns(s))
      && (ResultKept(s, ttl) ==>
            t.sent == s.sent + [Sent(Answer(s.successes[|s.successes| - 1].body), s.clock)] && PhaseOf(t, c).Idle?)
      && (SomeoneRuns(s) ==> t.sent == s.sent + [Sent(Conflict, s.clock)] && PhaseOf(t, c).Idle?)
      && (!ResultKept(s, ttl) && !SomeoneRuns(s) ==> t.sent == s.sent && PhaseOf(t, c).Missed?)
  {
    var s := run[|run| - 1];
    PunctualRunKeepsInv(run, key, ttl);
    PunctualRunKnowsWriter(run, key, ttl);
    if SomeoneRuns(s) {
      var d :| PhaseOf(s, d).Running?;
      assert s.clock <= PhaseOf(s, d).leaseEnds;
    }
    assert key in s.memory && s.memory[key].data.InProgress? ==> SomeoneRuns(s);
  }

  /**
    With any timing, a running client can tell from the stored value whether finishing would touch another's entry: when
    it is not its own lease, or is the equal lease of a client that started at the same instant.
   */
  lemma ForeignEntryIff(run: seq<System>, key: Key, ttl: real, horizon: real, c: Client)
    requires RunUntil(run, EMPTY, key, ttl, horizon)
    requires var s := run[|run| - 1]; PhaseOf(s, c).Running? && key in s.memory
    ensures var s := run[|run| - 1];
      Trespasses(s, key, c) <==>
        || s.memory[key] != Entry(InProgress, PhaseOf(s, c).leaseEnds)
        || (exists d: Client :: d != c && PhaseOf(s, d) == PhaseOf(s, c) && s.writer == Some(d))
  {
    EveryRunKnowsWriter(run, key, ttl, horizon);
    var s := run[|run| - 1];
    if Trespasses(s, key, c) && s.memory[key] == Entry(InProgress, PhaseOf(s, c).leaseEnds) {
      assert PhaseOf(s, s.writer.value) == PhaseOf(s, c);
    }
  }

  ghost predicate SomeoneTrespasses(s: System, key: Key) {
    exists c :: Trespasses(s, key, c)
  }

  ghost predicate LeasedUntil(s: System, horizon: real) {
    && horizon <= s.clock + LEASE
    && forall c :: PhaseOf(s, c).Running? ==> horizon <= PhaseOf(s, c).leaseEnds
  }

  lemma FollowsKeepsLeases(s: System, t: System, key: Key, ttl: real, horizon: real)
    requires LeasedUntil(s, horizon) && Follows(s, t, key, ttl)
    ensures LeasedUntil(t, horizon)
  {
    var step :| Enabled(s, step) && t == Next(s, key, ttl, step);
    forall c | PhaseOf(t, c).Running? ensures horizon <= PhaseOf(t, c).leaseEnds {
      if step.Tick? || c != step.c {
        assert PhaseOf(t, c) == PhaseOf(s, c);
      }
    }
  }

  /** Up to the end of all present leases every run keeps the invariant. */
  lemma {:induction false} WithinLeasesAllIsWell(run: seq<System>, s: System, key: Key, ttl: real, horizon: real)
    requires RunUntil(run, s, key, ttl, horizon) && Inv(s, key, ttl) && LeasedUntil(s, horizon) && ttl >= 0.0
    ensures Inv(run[|run| - 1], key, ttl) && LeasedUntil(run[|run| - 1], horizon)
  {
    if |run| > 1 {
      WithinLeasesAllIsWell(run[..|run| - 1], s, key, ttl, horizon);
      FollowsKeepsInv(run[|run| - 2], run[|run| - 1], key, ttl);
      FollowsKeepsLeases(run[|run| - 2], run[|run| - 1], key, ttl, horizon);
    }
  }

  /** Some client has not been heard of yet. */
  lemma SomeoneIdle(s: System) returns (c: Client)
    ensures PhaseOf(s, c).Idle? && c !in s.clients
  {
    c := Unused(s.clients.Keys);
  }

  lemma Unused(used: set<Client>) returns (c: Client)
    ensures c !in used
    ensures forall d :: d in used ==> d < c
    decreases used
  {
    if used == {} {
      c := 0;
    } else {
      var d :| d in used;
      var e := Unused(used - {d});
      assert forall x :: x in used ==> x == d || x in used - {d};
      c := if e > d then e else d + 1;
    }
  }

  /** The four steps by which a newcomer takes over from a runner whose lease has run out; the runner then finishes first. */
  lemma TakeOver(s: System, key: Key, ttl: real, r: Client, c: Client, horizon: real) returns (run: seq<System>)
    requires OneRunner(s, key) && PhaseOf(s, r).Running? && c !in s.clients
    requires s.clock <= horizon && PhaseOf(s, r).leaseEnds < horizon
    ensures RunUntil(run, s, key, ttl, horizon) && |run| == 4
    ensures var t := run[3];
      PhaseOf(t, r).Running? && PhaseOf(t, c).Running? && t.writer == Some(c) && key in t.memory && t.successes == s.successes
    ensures run[3].clock == horizon
  {
    var steps := [Tick(horizon - s.clock), Lookup(c), Start(c)];
    var s1 := Next(s, key, ttl, steps[0]);
    var s2 := Next(s1, key, ttl, steps[1]);
    assert PhaseOf(s2, c).Missed? && key !in s2.memory;
    var s3 := Next(s2, key, ttl, steps[2]);
    run := [s, s1, s2, s3];
    assert Follows(s, s1, key, ttl) && Follows(s1, s2, key, ttl) && Follows(s2, s3, key, ttl);
    assert c != r && PhaseOf(s3, r) == PhaseOf(s, r);
  }

  /** By a given time a running client can come to trespass on another's entry exactly if its lease ends before. */
  lemma TrespassIff(s: System, key: Key, ttl: real, r: Client, horizon: real)
    requires Inv(s, key, ttl) && PhaseOf(s, r).Running? && PhaseOf(s, r).leaseEnds <= s.clock + LEASE
    requires s.clock <= horizon && ttl >= 0.0
    ensures (exists run :: RunUntil(run, s, key, ttl, horizon) && SomeoneTrespasses(run[|run| - 1], key)) <==>
      PhaseOf(s, r).leaseEnds < horizon
  {
    if PhaseOf(s, r).leaseEnds < horizon {
      var c := SomeoneIdle(s);
      var run := TakeOver(s, key, ttl, r, c, horizon);
      assert Trespasses(run[|run| - 1], key, r);
    } else {
      forall run | RunUntil(run, s, key, ttl, horizon) ensures !SomeoneTrespasses(run[|run| - 1], key) {
        WithinLeasesAllIsWell(run, s, key, ttl, horizon);
      }
    }
  }

  lemma RunGoesOn(run: seq<System>, s: System, key: Key, ttl: real, horizon: real, step: Step)
    requires RunUntil(run, s, key, ttl, horizon) && Enabled(run[|run| - 1], step)
    requires Next(run[|run| - 1], key, ttl, step).clock <= horizon
    ensures RunUntil(run + [Next(run[|run| - 1], key, ttl, step)], s, key, ttl, horizon)
  {
    var t := Next(run[|run| - 1], key, ttl, step);
    assert Follows(run[|run| - 1], t, key, ttl);
  }

  /** An overrun runner and its successor can both succeed, at the same instant; the later result replaces the earlier. */
  lemma OverrunSucceedsTwice(s: System, key: Key, ttl: real, r: Client, horizon: real, first: Body, second: Body)
    returns (run: seq<System>)
    requires OneRunner(s, key) && PhaseOf(s, r).Running? && ttl >= 0.0
    requires s.clock <= horizon && PhaseOf(s, r).leaseEnds < horizon
    ensures RunUntil(run, s, key, ttl, horizon)
    ensures run[|run| - 1].successes == s.successes + [Success(first, horizon), Success(second, horizon)]
    ensures key in run[|run| - 1].memory && run[|run| - 1].memory[key].data == Completed(200, second)
  {
    var c := SomeoneIdle(s);
    run := TakeOver(s, key, ttl, r, c, horizon);
    var t := run[3];
    RunGoesOn(run, s, key, ttl, horizon, Succeed(r, 200, first));
    run := run + [Next(t, key, ttl, Succeed(r, 200, first))];
    var u := run[4];
    assert PhaseOf(u, c).Running?;
    RunGoesOn(run, s, key, ttl, horizon, Succeed(c, 200, second));
    run := run + [Next(u, key, ttl, Succeed(c, 200, second))];
  }

  /** By a given time the operation can have succeeded twice within a lifetime exactly if the runner's lease ends before. */
  lemma RepeatIff(s: System, key: Key, ttl: real, r: Client, horizon: real)
    requires Inv(s, key, ttl) && PhaseOf(s, r).Running? && PhaseOf(s, r).leaseEnds <= s.clock + LEASE
    requires s.clock <= horizon && ttl >= 0.0
    ensures (exists run :: RunUntil(run, s, key, ttl, horizon) && Repeated(run[|run| - 1], ttl)) <==>
      PhaseOf(s, r).leaseEnds < horizon
  {
    if PhaseOf(s, r).leaseEnds < horizon {
      var run := OverrunSucceedsTwice(s, key, ttl, r, horizon, "first", "second");
      var n, t := |s.successes|, run[|run| - 1];
      assert t.successes[n].time == horizon && t.successes[n + 1].time == horizon;
      assert Repeated(t, ttl);
    } else {
      forall run | RunUntil(run, s, key, ttl, horizon) ensures !Repeated(run[|run| - 1], ttl) {
        WithinLeasesAllIsWell(run, s, key, ttl, horizon);
      }
    }
  }

  /** In a punctual run a runner's lease ends within a lease's length, so the two conditions above apply to it. */
  lemma {:induction false} LeasesAreShort(run: seq<System>, key: Key, ttl: real, c: Client)
    requires PunctualRun(run, key, ttl) && run[0] == EMPTY && PhaseOf(run[|run| - 1], c).Running?
    ensures PhaseOf(run[|run| - 1], c).leaseEnds <= run[|run| - 1].clock + LEASE
  {
    var n := |run| - 1;
    if n > 0 {
      var s, t := run[n - 1], run[n];
      assert Follows(s, t, key, ttl);
      var step :| Enabled(s, step) && t == Next(s, key, ttl, step);
      if PhaseOf(s, c) == PhaseOf(t, c) {
        LeasesAreShort(run[..n], key, ttl, c);
      }
    }
  }

  /**
    `clear` does not check whose entry it removes. A request that overruns its lease and then fails deletes the
    stored result of the request that took over, and a third request executes again within that result's lifetime.
   */
  lemma LateFailureErasesResult(key: Key, ttl: real) returns (run: seq<System>)
    requires ttl >= 1.0
    ensures RunUntil(run, EMPTY, key, ttl, 61.0)
    ensures run[|run| - 1].successes == [Success("second", 61.0), Success("third", 61.0)]
  {
    run := [EMPTY];
    run := Take(run, EMPTY, key, ttl, Lookup(1));
    run := Take(run, EMPTY, key, ttl, Start(1));
    assert PhaseOf(run[2], 1) == Running(60.0);
    run := Take(run, EMPTY, key, ttl, Tick(61.0));
    run := Take(run, EMPTY, key, ttl, Lookup(2));
    run := Take(run, EMPTY, key, ttl, Start(2));
    assert PhaseOf(run[5], 2) == Running(121.0) && PhaseOf(run[5], 1) == Running(60.0);
    run := Take(run, EMPTY, key, ttl, Succeed(2, 200, "second"));
    assert PhaseOf(run[6], 1).Running?;
    run := Take(run, EMPTY, key, ttl, Fail(1));
    assert key !in run[7].memory && PhaseOf(run[7], 3).Idle?;
    run := Take(run, EMPTY, key, ttl, Lookup(3));
    run := Take(run, EMPTY, key, ttl, Start(3));
    run := Take(run, EMPTY, key, ttl, Succeed(3, 200, "third"));
  }

  lemma Take(run: seq<System>, s: System, key: Key, ttl: real, step: Step) returns (longer: seq<System>)
    requires RunUntil(run, s, key, ttl, 61.0) && Enabled(run[|run| - 1], step) && Next(run[|run| - 1], key, ttl, step).clock <= 61.0
    ensures RunUntil(longer, s, key, ttl, 61.0) && longer == run + [Next(run[|run| - 1], key, ttl, step)]
  {
    RunGoesOn(run, s, key, ttl, 61.0, step);
    longer := run + [Next(run[|run| - 1], key, ttl, step)];
  }
}
