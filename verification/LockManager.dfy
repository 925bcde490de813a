/**
  Distributed locks with a time to live (SET NX PX, released by a script that compares tokens) and version counters.
  Redis is an atomic map with expiry: each command or script is one step. One lock key is followed, with any number
  of clients and no assumption about how long they stay inside.
 */
module LockManager {
  import opened Types

  type Token = string
  type Client = nat
  type Resource = string

  const EXPIRE := 10.0
  const TIMEOUT := 5.0

  // ---- the lock key

  datatype Cell = Cell(token: Token, expiresAt: real)

  type LockKey = Option<Cell>

  predicate Live(k: LockKey, now: real) {
    k.Some? && now < k.value.expiresAt
  }

  function SetNxPx(k: LockKey, token: Token, ttl: real, now: real): (bool, LockKey) {
    if Live(k, now) then (false, k) else (true, Some(Cell(token, now + ttl)))
  }

  function ReleaseScript(k: LockKey, token: Token, now: real): (int, LockKey) {
    if Live(k, now) && k.value.token == token then (1, None) else (0, k)
  }

  // ---- clients

  datatype Phase = Outside | Trying(token: Token, deadline: real) | Inside(token: Token, until: real)

  datatype System = System(clock: real, key: LockKey, clients: map<Client, Phase>, issued: set<Token>)

  datatype Step =
    | Tick(delay: real)
    | Begin(c: Client, token: Token)
    | Try(c: Client)
    | GiveUp(c: Client)
    | Leave(c: Client)

  function PhaseOf(s: System, c: Client): Phase {
    if c in s.clients then s.clients[c] else Outside
  }

  predicate Enabled(s: System, step: Step) {
    match step
    case Tick(delay) => delay >= 0.0
    case Begin(c, token) => PhaseOf(s, c).Outside? && token !in s.issued
    case Try(c) => PhaseOf(s, c).Trying? && s.clock < PhaseOf(s, c).deadline
    case GiveUp(c) => PhaseOf(s, c).Trying? && s.clock >= PhaseOf(s, c).deadline
    case Leave(c) => PhaseOf(s, c).Inside?
  }

  function Next(s: System, step: Step): System
    requires Enabled(s, step)
  {
    match step
    case Tick(delay) => s.(clock := s.clock + delay)
    case Begin(c, token) =>
      s.(clients := s.clients[c := Trying(token, s.clock + TIMEOUT)], issued := s.issued + {token})
    case Try(c) =>
      var (acquired, key) := SetNxPx(s.key, PhaseOf(s, c).token, EXPIRE, s.clock);
      if acquired then s.(key := key, clients := s.clients[c := Inside(PhaseOf(s, c).token, s.clock + EXPIRE)]) else s
    case GiveUp(c) => s.(clients := s.clients[c := Outside])
    case Leave(c) =>
      s.(key := ReleaseScript(s.key, PhaseOf(s, c).token, s.clock).1, clients := s.clients[c := Outside])
  }

  ghost predicate OwnTokens(s: System) {
    && (forall c :: !PhaseOf(s, c).Outside? ==> PhaseOf(s, c).token in s.issued)
    && (forall c, d :: !PhaseOf(s, c).Outside? && !PhaseOf(s, d).Outside? && PhaseOf(s, c).token == PhaseOf(s, d).token ==> c == d)
    && (s.key.Some? ==> s.key.value.token in s.issued)
    && (forall c :: PhaseOf(s, c).Trying? && s.key.Some? ==> s.key.value.token != PhaseOf(s, c).token)
  }

  /** A client inside whose time has not run out still owns the key. */
  ghost predicate KeyIsKept(s: System) {
    forall c :: PhaseOf(s, c).Inside? && s.clock < PhaseOf(s, c).until ==>
      s.key == Some(Cell(PhaseOf(s, c).token, PhaseOf(s, c).until))
  }

  ghost predicate Inv(s: System) {
    OwnTokens(s) && KeyIsKept(s)
  }

  lemma NextKeepsInv(s: System, step: Step)
    requires Inv(s) && Enabled(s, step)
    ensures Inv(Next(s, step))
  {
    var t := Next(s, step);
    if step.Tick? {
      forall d ensures PhaseOf(t, d) == PhaseOf(s, d) {}
    } else {
      forall d | d != step.c ensures PhaseOf(t, d) == PhaseOf(s, d) {}
      if step.Try? && !Live(s.key, s.clock) {
        forall d | PhaseOf(s, d).Inside? ensures s.clock >= PhaseOf(s, d).until {}
      }
    }
  }

  function Play(s: System, steps: seq<Step>): System {
    if steps == [] then s
    else
      var t, step := Play(s, steps[..|steps| - 1]), steps[|steps| - 1];
      if Enabled(t, step) then Next(t, step) else t
  }

  const EMPTY := System(0.0, None, map[], {})

  lemma {:induction false} PlayKeepsInv(s: System, steps: seq<Step>)
    requires Inv(s)
    ensures Inv(Play(s, steps))
  {
    if steps != [] {
      PlayKeepsInv(s, steps[..|steps| - 1]);
      if Enabled(Play(s, steps[..|steps| - 1]), steps[|steps| - 1]) {
        NextKeepsInv(Play(s, steps[..|steps| - 1]), steps[|steps| - 1]);
      }
    }
  }

  /** In every run, of all clients inside at most one is within its time to live: the rest have overstayed. */
  lemma AtMostOneWithinTtl(steps: seq<Step>, c: Client, d: Client)
    ensures var s := Play(EMPTY, steps);
      PhaseOf(s, c).Inside? && PhaseOf(s, d).Inside? && s.clock < PhaseOf(s, c).until && s.clock < PhaseOf(s, d).until ==> c == d
  {
    PlayKeepsInv(EMPTY, steps);
  }

  /** With no timing assumption, leaving never removes another client's key, however late the leaver is. */
  lemma LeaveSparesOthers(steps: seq<Step>, c: Client, d: Client)
    requires var s := Play(EMPTY, steps); c != d && PhaseOf(s, c).Inside? && PhaseOf(s, d).Inside? && s.clock < PhaseOf(s, d).until
    ensures var s := Play(EMPTY, steps); Next(s, Leave(c)).key == s.key
  {
    PlayKeepsInv(EMPTY, steps);
  }

  ghost predicate InTime(s: System, c: Client) {
    PhaseOf(s, c).Inside? && s.clock < PhaseOf(s, c).until
  }

  /** A live key is the key of a client inside and in time. */
  ghost predicate KeyIsOwned(s: System) {
    Live(s.key, s.clock) ==> exists c :: InTime(s, c)
  }

  lemma NextKeepsOwner(s: System, step: Step)
    requires Inv(s) && KeyIsOwned(s) && Enabled(s, step)
    ensures KeyIsOwned(Next(s, step))
  {
    var t := Next(s, step);
    if Live(t.key, t.clock) {
      if step.Try? && !Live(s.key, s.clock) {
        assert InTime(t, step.c);
      } else {
        assert t.key == s.key && Live(s.key, s.clock);
        var c :| InTime(s, c);
        assert step.Leave? ==> step.c != c;
        assert InTime(t, c);
      }
    }
  }

  lemma {:induction false} PlayKeepsOwner(steps: seq<Step>)
    ensures KeyIsOwned(Play(EMPTY, steps))
  {
    if steps != [] {
      PlayKeepsOwner(steps[..|steps| - 1]);
      PlayKeepsInv(EMPTY, steps[..|steps| - 1]);
      if Enabled(Play(EMPTY, steps[..|steps| - 1]), steps[|steps| - 1]) {
        NextKeepsOwner(Play(EMPTY, steps[..|steps| - 1]), steps[|steps| - 1]);
      }
    }
  }

  /** In every run a client that tries gets in exactly when nobody inside is within its time, and then for the full time. */
  lemma TryEntersIff(steps: seq<Step>, c: Client)
    requires Enabled(Play(EMPTY, steps), Try(c))
    ensures var s := Play(EMPTY, steps);
      var t := Next(s, Try(c));
      && (PhaseOf(t, c).Inside? <==> forall d :: !InTime(s, d))
      && (PhaseOf(t, c).Inside? ==> PhaseOf(t, c).until == s.clock + 10.0)
      && (!PhaseOf(t, c).Inside? ==> t == s)
  {
    PlayKeepsInv(EMPTY, steps);
    PlayKeepsOwner(steps);
    var s := Play(EMPTY, steps);
    if d :| InTime(s, d) {
      assert s.key == Some(Cell(PhaseOf(s, d).token, PhaseOf(s, d).until));
    }
  }

  /** A client that leaves in time frees the key: whoever tries next gets in. */
  lemma LeavingLetsTheNextIn(steps: seq<Step>, c: Client, d: Client)
    requires var s := Play(EMPTY, steps); InTime(s, c) && Enabled(s, Try(d))
    ensures var t := Next(Play(EMPTY, steps), Leave(c)); Enabled(t, Try(d)) && PhaseOf(Next(t, Try(d)), d).Inside?
  {
    PlayKeepsInv(EMPTY, steps);
  }

  /** After a wait a newcomer gets in beside the holder exactly when the holder has outstayed its time to live. */
  lemma OverlapIffOverstay(s: System, holder: Client, c: Client, token: Token, delay: real)
    requires Inv(s) && PhaseOf(s, holder).Inside? && PhaseOf(s, c).Outside? && token !in s.issued && delay >= 0.0
    requires s.clock < PhaseOf(s, holder).until
    ensures var s1 := Next(Next(s, Tick(delay)), Begin(c, token));
      && Enabled(s1, Try(c))
      && (PhaseOf(Next(s1, Try(c)), c).Inside? <==> s.clock + delay >= PhaseOf(s, holder).until)
      && PhaseOf(Next(s1, Try(c)), holder).Inside?
  {
  }

  // ---- optimistic versions

  type Versions = map<Resource, int>

  function VersionOf(v: Versions, r: Resource): int {
    if r in v then v[r] else 1
  }

  class VersionTable {
    var versions: Versions

    constructor ()
      ensures versions == map[]
    {
      versions := map[];
    }

    method GetVersion(r: Resource) returns (version: int)
      ensures version == VersionOf(versions, r)
    {
      version := if r in versions then versions[r] else 1;
    }

    /** On a mismatch the error carries the version found. */
    method CheckAndUpdateVersion(r: Resource, expected: int) returns (result: Result<int, int>)
      modifies this
      ensures (result, versions) == CheckAndUpdate(old(versions), r, expected)
    {
      var current := if r in versions then versions[r] else 1;
      if current != expected {
        return Err(current);
      }
      versions := versions[r := current + 1];
      result := Ok(current + 1);
    }
  }

  function CheckAndUpdate(v: Versions, r: Resource, expected: int): (Result<int, int>, Versions) {
    if VersionOf(v, r) != expected then (Err(VersionOf(v, r)), v)
    else (Ok(expected + 1), v[r := expected + 1])
  }

  datatype Update = Update(resource: Resource, expected: int)

  /** The table after a run of attempted updates, and those that succeeded, in order. */
  function Applied(updates: seq<Update>): (Versions, seq<Update>) {
    if updates == [] then (map[], [])
    else
      var (v, won) := Applied(updates[..|updates| - 1]);
      var u := updates[|updates| - 1];
      var (result, v') := CheckAndUpdate(v, u.resource, u.expected);
      (v', if result.Ok? then won + [u] else won)
  }

  function Wins(won: seq<Update>, r: Resource): nat {
    if won == [] then 0 else Wins(won[..|won| - 1], r) + if won[|won| - 1].resource == r then 1 else 0
  }

  /** The version is one more than the successful updates, and the k-th success of a resource expected version k. */
  ghost predicate CountsSuccesses(v: Versions, won: seq<Update>) {
    && (forall r :: VersionOf(v, r) == 1 + Wins(won, r))
    && (forall i :: 0 <= i < |won| ==> won[i].expected == 1 + Wins(won[..i], won[i].resource))
  }

  lemma {:induction false} VersionsCountSuccesses(updates: seq<Update>)
    ensures CountsSuccesses(Applied(updates).0, Applied(updates).1)
  {
    if updates != [] {
      var before, u := updates[..|updates| - 1], updates[|updates| - 1];
      VersionsCountSuccesses(before);
      SuccessCounts(Applied(before).0, Applied(before).1, u);
    }
  }

  lemma SuccessCounts(v: Versions, won: seq<Update>, u: Update)
    requires CountsSuccesses(v, won)
    ensures VersionOf(v, u.resource) == u.expected ==> CountsSuccesses(v[u.resource := u.expected + 1], won + [u])
  {
    var won' := won + [u];
    assert won'[..|won|] == won == won[..|won|];
    if VersionOf(v, u.resource) == u.expected {
      forall r ensures VersionOf(v[u.resource := u.expected + 1], r) == 1 + Wins(won', r) {
        assert VersionOf(v, r) == 1 + Wins(won, r);
      }
      forall i | 0 <= i < |won'| ensures won'[i].expected == 1 + Wins(won'[..i], won'[i].resource) {
        assert won'[..i] == won[..i];
        assert VersionOf(v, u.resource) == 1 + Wins(won, u.resource);
      }
    }
  }

  lemma {:induction false} WinsGrow(won: seq<Update>, i: nat, j: nat, r: Resource)
    requires i <= j <= |won|
    ensures Wins(won[..i], r) <= Wins(won[..j], r)
    decreases j - i
  {
    if i < j {
      WinsGrow(won, i, j - 1, r);
      assert won[..j][..j - 1] == won[..j - 1];
    }
  }

  /** Two successful updates of one resource never expected the same version: no lost update. */
  lemma NoSharedVersion(updates: seq<Update>, i: nat, j: nat)
    requires var won := Applied(updates).1; i < j < |won| && won[i].resource == won[j].resource
    ensures var won := Applied(updates).1; won[i].expected < won[j].expected
  {
    VersionsCountSuccesses(updates);
    var won := Applied(updates).1;
    assert won[..i + 1][..i] == won[..i];
    WinsGrow(won, i + 1, j, won[i].resource);
  }

  /** The Lua script over a Redis counter; -1 stands for a conflict. */
  function VersionScript(v: Versions, r: Resource, expected: int): (int, Versions) {
    var current := VersionOf(v, r);
    if current == expected then (current + 1, v[r := current + 1]) else (-1, v)
  }

  /** In every reachable table the script's -1 is unambiguous, so the Redis path answers as the in-memory one. */
  lemma ScriptAgrees(updates: seq<Update>, r: Resource, expected: int)
    ensures var v := Applied(updates).0;
      var (code, v1) := VersionScript(v, r, expected);
      var (result, v2) := CheckAndUpdate(v, r, expected);
      v1 == v2 && (code == -1 <==> result.Err?) && (result.Ok? ==> result.value == code)
  {
    VersionsCountSuccesses(updates);
  }
}
