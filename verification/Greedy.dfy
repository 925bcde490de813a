/**
  The selection pass of the rebalancing engine: candidates are taken in order of falling utility, a copy is
  moved at most once and a destination receives at most `cap` inbound copies, counting those already on the way.
  The plan is feasible, and maximal: nothing that was left out would still fit.
 */
module Greedy {
  import opened Types

  // `priority` is the negated utility, so that the min-heap yields the most useful move first.
  datatype Candidate = Candidate(
    priority: real, isbn: Isbn, copyId: CopyId, source: BranchId, dest: BranchId, gain: real, transitCost: real)
  {
    function Utility(): real { -priority }
  }

  type Loads = map<BranchId, int>

  function Load(loads: Loads, dest: BranchId): int {
    if dest in loads then loads[dest] else 0
  }

  /** What the selection loop knows after some pops. */
  datatype Planning = Planning(plan: seq<Candidate>, taken: set<CopyId>, loads: Loads) {
    predicate Blocks(c: Candidate, cap: int) {
      c.copyId in taken || Load(loads, c.dest) >= cap
    }

    function Step(c: Candidate, cap: int): Planning {
      if Blocks(c, cap) then this
      else Planning(plan + [c], taken + {c.copyId}, loads[c.dest := Load(loads, c.dest) + 1])
    }
  }

  function Start(loads: Loads): Planning {
    Planning([], {}, loads)
  }

  /** The loop over a whole pop order. */
  function Run(st: Planning, order: seq<Candidate>, cap: int): Planning
    decreases |order|
  {
    if order == [] then st else Run(st.Step(order[0], cap), order[1..], cap)
  }

  function Value(s: seq<Candidate>): real {
    if s == [] then 0.0 else s[0].Utility() + Value(s[1..])
  }

  function Inbound(s: seq<Candidate>, dest: BranchId): nat {
    if s == [] then 0 else (if s[0].dest == dest then 1 else 0) + Inbound(s[1..], dest)
  }

  /** A most-useful-first order: no candidate is preceded by a less useful one. */
  ghost predicate Falling(order: seq<Candidate>) {
    forall i, j :: 0 <= i < j < |order| ==> order[i].Utility() >= order[j].Utility()
  }

  /** `s` moves each copy at most once, none already moved, and fits the capacity left at every destination. */
  ghost predicate Feasible(s: seq<Candidate>, taken: set<CopyId>, loads: Loads, cap: int) {
    && (forall i, j :: 0 <= i < j < |s| ==> s[i].copyId != s[j].copyId)
    && (forall i :: 0 <= i < |s| ==> s[i].copyId !in taken)
    && (forall i :: 0 <= i < |s| ==> Load(loads, s[i].dest) + Inbound(s, s[i].dest) <= cap)
  }

  // ---- sums over concatenations and removals

  lemma {:induction false} SumsOverConcat(a: seq<Candidate>, b: seq<Candidate>, d: BranchId)
    ensures Value(a + b) == Value(a) + Value(b)
    ensures Inbound(a + b, d) == Inbound(a, d) + Inbound(b, d)
  {
    if a == [] {
      assert a + b == b;
    } else {
      assert (a + b)[1..] == a[1..] + b;
      SumsOverConcat(a[1..], b, d);
    }
  }

  function Without(s: seq<Candidate>, j: nat): seq<Candidate>
    requires j < |s|
  {
    s[..j] + s[j + 1..]
  }

  lemma SumsWithout(s: seq<Candidate>, j: nat, d: BranchId)
    requires j < |s|
    ensures Value(Without(s, j)) == Value(s) - s[j].Utility()
    ensures Inbound(Without(s, j), d) == Inbound(s, d) - (if s[j].dest == d then 1 else 0)
  {
    assert s == s[..j] + ([s[j]] + s[j + 1..]);
    SumsOverConcat(s[..j], [s[j]] + s[j + 1..], d);
    SumsOverConcat([s[j]], s[j + 1..], d);
    SumsOverConcat(s[..j], s[j + 1..], d);
  }

  lemma {:induction false} InboundPositive(s: seq<Candidate>, d: BranchId)
    ensures Inbound(s, d) > 0 <==> exists j :: 0 <= j < |s| && s[j].dest == d
  {
    if s != [] {
      InboundPositive(s[1..], d);
      if Inbound(s, d) > 0 && s[0].dest != d {
        var j :| 0 <= j < |s[1..]| && s[1..][j].dest == d;
        assert s[j + 1].dest == d;
      }
      if j :| 0 <= j < |s| && s[j].dest == d && j > 0 {
        assert s[1..][j - 1].dest == d;
      }
    }
  }

  /** Dropping one move keeps a selection feasible. */
  lemma FeasibleWithout(s: seq<Candidate>, j: nat, taken: set<CopyId>, loads: Loads, cap: int)
    requires j < |s| && Feasible(s, taken, loads, cap)
    ensures Feasible(Without(s, j), taken, loads, cap)
  {
    var t := Without(s, j);
    forall i | 0 <= i < |t| ensures Load(loads, t[i].dest) + Inbound(t, t[i].dest) <= cap {
      SumsWithout(s, j, t[i].dest);
      assert t[i] == if i < j then s[i] else s[i + 1];
    }
  }

  // ---- what the pass itself keeps

  /** The working state is determined by the plan: its copies are marked and its moves are counted. */
  ghost predicate Tracks(st: Planning, loads: Loads, cap: int) {
    && Feasible(st.plan, {}, loads, cap)
    && (forall x :: x in st.plan ==> x.copyId in st.taken)
    && (forall d :: Load(st.loads, d) == Load(loads, d) + Inbound(st.plan, d))
  }

  lemma StepTracks(st: Planning, c: Candidate, loads: Loads, cap: int)
    requires Tracks(st, loads, cap)
    ensures Tracks(st.Step(c, cap), loads, cap)
  {
    if !st.Blocks(c, cap) {
      var plan := st.plan + [c];
      forall d ensures Inbound(plan, d) == Inbound(st.plan, d) + (if c.dest == d then 1 else 0) {
        SumsOverConcat(st.plan, [c], d);
        assert [c][1..] == [];
      }
      forall i | 0 <= i < |plan| ensures Load(loads, plan[i].dest) + Inbound(plan, plan[i].dest) <= cap {
        assert Load(st.loads, c.dest) + 1 <= cap;
        if i < |st.plan| {
          assert plan[i] == st.plan[i];
        }
      }
    }
  }

  /** The plan is feasible, and maximal: every candidate left out is blocked by its copy or by its destination. */
  lemma {:induction false} RunIsMaximal(st: Planning, order: seq<Candidate>, loads: Loads, cap: int)
    requires Tracks(st, loads, cap)
    ensures var end := Run(st, order, cap);
      && Tracks(end, loads, cap) && st.plan <= end.plan && st.taken <= end.taken
      && (forall d :: Load(st.loads, d) <= Load(end.loads, d))
      && (forall c :: c in order ==> c in end.plan || end.Blocks(c, cap))
      && (forall c :: c in end.plan ==> c in st.plan || c in order)
    decreases |order|
  {
    if order != [] {
      StepTracks(st, order[0], loads, cap);
      var st' := st.Step(order[0], cap);
      RunIsMaximal(st', order[1..], loads, cap);
      var end := Run(st', order[1..], cap);
      forall c | c in order ensures c in end.plan || end.Blocks(c, cap) {
        assert c == order[0] || c in order[1..];
        if c == order[0] && !st.Blocks(c, cap) {
          assert st'.plan[|st.plan|] == end.plan[|st.plan|] == c;
        }
      }
    }
  }
}
