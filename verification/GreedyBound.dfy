/**
  How good the greedy pass is. Choosing the best set of moves is a bipartite b-matching; by exchanging moves the pass
  is proved to be within a factor of two of any feasible choice, and no smaller factor would do.
 */
module GreedyBound {
  import opened Types
  import opened Greedy

  // ---- the exchange step

  /** `t` is `s` less at most one move. */
  ghost predicate Trimmed(s: seq<Candidate>, t: seq<Candidate>, bound: real) {
    && (forall x :: x in t ==> x in s)
    && Value(t) >= Value(s) - bound
  }

  lemma DropCopy(s: seq<Candidate>, copyId: CopyId, taken: set<CopyId>, loads: Loads, cap: int, bound: real)
    returns (t: seq<Candidate>)
    requires Feasible(s, taken, loads, cap)
    requires bound >= 0.0 && forall x :: x in s ==> x.Utility() <= bound
    ensures Feasible(t, taken + {copyId}, loads, cap) && Trimmed(s, t, bound)
  {
    if j :| 0 <= j < |s| && s[j].copyId == copyId {
      t := Without(s, j);
      SumsWithout(s, j, BranchId(""));
      FeasibleWithout(s, j, taken, loads, cap);
      assert s[j] in s;
    } else {
      t := s;
    }
  }

  lemma DropDest(s: seq<Candidate>, dest: BranchId, taken: set<CopyId>, loads: Loads, cap: int, bound: real)
    returns (t: seq<Candidate>)
    requires Feasible(s, taken, loads, cap)
    requires bound >= 0.0 && forall x :: x in s ==> x.Utility() <= bound
    ensures Feasible(t, taken, loads[dest := Load(loads, dest) + 1], cap) && Trimmed(s, t, bound)
  {
    var loads' := loads[dest := Load(loads, dest) + 1];
    if j :| 0 <= j < |s| && s[j].dest == dest {
      t := Without(s, j);
      SumsWithout(s, j, dest);
      FeasibleWithout(s, j, taken, loads, cap);
      assert s[j] in s;
      forall i | 0 <= i < |t| ensures Load(loads', t[i].dest) + Inbound(t, t[i].dest) <= cap {
        assert Load(loads, dest) + Inbound(s, dest) <= cap;
      }
    } else {
      t := s;
    }
  }

  /** A selected move shuts out at most two moves of any rival: one with its copy, one with its destination. */
  lemma Exchange(s: seq<Candidate>, st: Planning, c: Candidate, cap: int) returns (t: seq<Candidate>)
    requires Feasible(s, st.taken, st.loads, cap) && !st.Blocks(c, cap)
    requires c.Utility() >= 0.0 && forall x :: x in s ==> x.Utility() <= c.Utility()
    ensures var st' := st.Step(c, cap); Feasible(t, st'.taken, st'.loads, cap)
    ensures Trimmed(s, t, 2.0 * c.Utility()) && c !in t
  {
    var s1 := DropCopy(s, c.copyId, st.taken, st.loads, cap, c.Utility());
    t := DropDest(s1, c.dest, st.taken + {c.copyId}, st.loads, cap, c.Utility());
  }

  /** From any intermediate state, the rest of the pass earns at least half of what any feasible rival could. */
  lemma {:induction false} RunIsHalfOptimal(st: Planning, order: seq<Candidate>, cap: int, s: seq<Candidate>)
    requires Falling(order)
    requires forall c :: c in order ==> c.Utility() >= 0.0
    requires Feasible(s, st.taken, st.loads, cap)
    requires forall i :: 0 <= i < |s| ==> s[i] in order
    ensures Value(s) <= 2.0 * (Value(Run(st, order, cap).plan) - Value(st.plan))
    decreases |order|
  {
    if order == [] {
      assert s == [];
    } else {
      var c, st' := order[0], st.Step(order[0], cap);
      assert c in order;
      var t := s;
      if st.Blocks(c, cap) {
        if c in s {
          var i :| 0 <= i < |s| && s[i] == c;
          InboundPositive(s, c.dest);
          assert false;
        }
      } else {
        forall x | x in s ensures x.Utility() <= c.Utility() {
          var k :| 0 <= k < |order| && order[k] == x;
        }
        t := Exchange(s, st, c, cap);
        SumsOverConcat(st.plan, [c], BranchId(""));
      }
      forall i | 0 <= i < |t| ensures t[i] in order[1..] {
        var x := t[i];
        assert x in t;
        var k :| 0 <= k < |order| && order[k] == x;
        assert order[1..][k - 1] == x;
      }
      RunIsHalfOptimal(st', order[1..], cap, t);
    }
  }

  /** For every candidate list, in whatever order ties are popped: twice the plan is worth any feasible selection. */
  lemma GreedyWithinFactorTwo(order: seq<Candidate>, loads: Loads, cap: int, rival: seq<Candidate>)
    requires Falling(order) && forall c :: c in order ==> c.Utility() >= 0.0
    requires Feasible(rival, {}, loads, cap)
    requires forall x :: x in rival ==> x in order
    ensures 2.0 * Value(Run(Start(loads), order, cap).plan) >= Value(rival)
  {
    RunIsHalfOptimal(Start(loads), order, cap, rival);
  }

  /** The factor cannot be lowered: three moves between two copies and two branches come as close to two as one likes. */
  lemma FactorTwoIsTight(e: real) returns (order: seq<Candidate>, rival: seq<Candidate>)
    requires 0.0 < e < 1.0
    ensures Falling(order) && forall c :: c in order ==> c.Utility() > 0.0
    ensures Feasible(rival, {}, map[], 1) && forall x :: x in rival ==> x in order
    ensures Value(Run(Start(map[]), order, 1).plan) == 1.0 && Value(rival) == 2.0 - 2.0 * e
  {
    var best := Candidate(-1.0, Isbn("i"), CopyId("c1"), BranchId("s1"), BranchId("d1"), 1.0, 0.0);
    var sameCopy := Candidate(e - 1.0, Isbn("i"), CopyId("c1"), BranchId("s1"), BranchId("d2"), 1.0, e);
    var sameDest := Candidate(e - 1.0, Isbn("i"), CopyId("c2"), BranchId("s2"), BranchId("d1"), 1.0, e);
    order, rival := [best, sameCopy, sameDest], [sameCopy, sameDest];
    var st0 := Start(map[]);
    var st1 := st0.Step(best, 1);
    assert st1 == Planning([best], {CopyId("c1")}, map[BranchId("d1") := 1]);
    assert order[1..] == [sameCopy, sameDest] && order[1..][1..] == [sameDest] && order[1..][1..][1..] == [];
    assert st1.Step(sameCopy, 1) == st1 && st1.Step(sameDest, 1) == st1;
    assert Run(st1, [sameDest], 1) == st1 by { assert [sameDest][1..] == []; }
    assert Run(st1, order[1..], 1) == st1;
    assert Value([best]) == 1.0;
    assert rival[1..] == [sameDest];
    assert Value(rival) == 2.0 - 2.0 * e;
    assert Inbound([sameDest], BranchId("d1")) == 1 && Inbound([sameDest], BranchId("d2")) == 0 by { assert [sameDest][1..] == []; }
    assert Inbound(rival, BranchId("d1")) == 1 && Inbound(rival, BranchId("d2")) == 1;
  }
}
