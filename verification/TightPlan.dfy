/** A library whose plan is worth hardly more than half of the best choice: the factor of two is tight for plans too. */
module TightPlan {
  import opened Types
  import opened Domain
  import opened Circulation
  import opened Custody
  import opened LibraryRuns
  import opened Greedy
  import opened Rebalancing

  const I := Isbn("i")
  const J := Isbn("j")
  const S1 := BranchId("s1")
  const S2 := BranchId("s2")
  const D1 := BranchId("d1")
  const D2 := BranchId("d2")
  const C1 := CopyId("c1")
  const C2 := CopyId("c2")
  const C3 := CopyId("c3")
  const C4 := CopyId("c4")

  function OnShelf(isbn: Isbn, branch: BranchId): Copy {
    Copy(isbn, branch, AVAILABLE, None, None, None, 0)
  }

  /** Two copies of i at s1 and two of j at s2. */
  const STOCK: Copies := map[C1 := OnShelf(I, S1), C2 := OnShelf(I, S1), C3 := OnShelf(J, S2), C4 := OnShelf(J, S2)]

  const LIBRARY: World := EMPTY.(copies := STOCK, titles := map[I := Physical("", [C1, C2]), J := Physical("", [C3, C4])])

  /** Both titles are wanted at d1, and i at d2 as well; s1 and d1 share a place, all else is `km` apart. */
  function Wanted(e: real): Survey {
    Survey([I, J], [S1, S2, D1, D2],
           (isbn: Isbn, b: BranchId) => if b == D1 || (isbn == I && b == D2) then SURGE else NORMAL,
           (a: BranchId, b: BranchId) => if a == S1 && b == D1 then 0.0 else e * 20.0, 1)
  }

  function Best(): Candidate {
    Candidate(-250.0, I, C1, S1, D1, 250.0, 0.0)
  }

  function SameCopy(e: real): Candidate {
    Candidate(-(250.0 - e), I, C1, S1, D2, 250.0, e)
  }

  function SameDest(e: real): Candidate {
    Candidate(-(250.0 - e), J, C3, S2, D1, 250.0, e)
  }

  lemma StockAt(b: BranchId)
    ensures AvailableAt([C1, C2], STOCK, b) == if b == S1 then [C1, C2] else []
    ensures AvailableAt([C3, C4], STOCK, b) == if b == S2 then [C3, C4] else []
  {
    assert [C1, C2][..1] == [C1] && [C1][..0] == [] && [C3, C4][..1] == [C3] && [C3][..0] == [];
    assert Available([C1], STOCK, Some(b)) == if b == S1 then [C1] else [];
    assert Available([C3], STOCK, Some(b)) == if b == S2 then [C3] else [];
  }

  lemma NothingUnderWay(b: BranchId)
    ensures |OpenTo(LIBRARY.transfers, b)| == 0
  {
    assert OpenTo(LIBRARY.transfers, b) == {};
  }

  lemma SpareAt(isbn: Isbn, b: BranchId)
    requires isbn == I || isbn == J
    ensures AvailableAt(Shelf(LIBRARY.titles, isbn), STOCK, b) ==
      if isbn == I && b == S1 then [C1, C2] else if isbn == J && b == S2 then [C3, C4] else []
  {
    StockAt(b);
  }

  lemma WantedAt(e: real, isbn: Isbn, b: BranchId)
    requires isbn == I || isbn == J
    ensures Wants(LIBRARY, Wanted(e), isbn, b) <==> b == D1 || (isbn == I && b == D2)
  {
    NothingUnderWay(b);
    SpareAt(isbn, b);
  }

  lemma TheseAreCandidates(e: real)
    requires 0.0 < e < 250.0
    ensures IsCandidate(Best(), LIBRARY, Wanted(e))
    ensures IsCandidate(SameCopy(e), LIBRARY, Wanted(e))
    ensures IsCandidate(SameDest(e), LIBRARY, Wanted(e))
  {
    SpareAt(I, S1);
    SpareAt(J, S2);
    WantedAt(e, I, D1);
    WantedAt(e, I, D2);
    WantedAt(e, J, D1);
  }

  lemma NoOthersAreCandidates(e: real, x: Candidate)
    requires 0.0 < e < 250.0 && IsCandidate(x, LIBRARY, Wanted(e))
    ensures x == Best() || x == SameCopy(e) || x == SameDest(e)
  {
    SpareAt(x.isbn, x.source);
    WantedAt(e, x.isbn, x.dest);
  }

  lemma CandidatesAre(e: real, x: Candidate)
    requires 0.0 < e < 250.0
    ensures IsCandidate(x, LIBRARY, Wanted(e)) <==> x == Best() || x == SameCopy(e) || x == SameDest(e)
  {
    TheseAreCandidates(e);
    if IsCandidate(x, LIBRARY, Wanted(e)) {
      NoOthersAreCandidates(e, x);
    }
  }

  lemma StockIsSound()
    ensures CustodyOk(STOCK, map[]) && TransitOk(STOCK, map[])
    ensures LogOk(STOCK, [], map[])
  {
  }

  lemma LibraryIsSound()
    ensures Inv(LIBRARY)
  {
    StockIsSound();
    forall isbn ensures FifoAt([], [], Queues(map[], map[]), isbn) {}
    assert ListOk([C1, C2], I, STOCK) && ListOk([C3, C4], J, STOCK);
    assert TitlesOk(LIBRARY.titles, STOCK);
  }

  lemma PlanIsTheBestMove(e: real)
    requires 0.0 < e < 250.0
    ensures IsPlan([Best()], LIBRARY, Wanted(e))
  {
    var order, loads := [Best(), SameCopy(e), SameDest(e)], map[];
    forall b ensures Load(loads, b) == |OpenTo(LIBRARY.transfers, b)| {
      NothingUnderWay(b);
    }
    forall x ensures x in order <==> IsCandidate(x, LIBRARY, Wanted(e)) {
      CandidatesAre(e, x);
    }
    var st := Start(loads).Step(Best(), 1);
    assert st == Planning([Best()], {C1}, map[D1 := 1]);
    assert order[1..] == [SameCopy(e), SameDest(e)] && order[1..][1..] == [SameDest(e)] && order[1..][1..][1..] == [];
    assert st.Step(SameCopy(e), 1) == st && st.Step(SameDest(e), 1) == st;
    assert Run(st, [SameDest(e)], 1) == st by { assert [SameDest(e)][1..] == []; }
    assert Run(st, order[1..], 1) == st;
    assert IsPass([Best()], order, loads, LIBRARY, Wanted(e));
  }

  lemma RivalsAreAChoice(e: real)
    requires 0.0 < e < 250.0
    ensures IsChoice([SameCopy(e), SameDest(e)], LIBRARY, Wanted(e))
    ensures Value([SameCopy(e), SameDest(e)]) == 500.0 - 2.0 * e
  {
    var x, y := SameCopy(e), SameDest(e);
    var rival, last := [x, y], [y];
    assert rival[1..] == last && last[1..] == [];
    assert Value(last) == 250.0 - e;
    assert D1.text != D2.text;
    assert Inbound(last, D1) == 1 && Inbound(last, D2) == 0;
    assert Inbound(rival, D1) == 1 && Inbound(rival, D2) == 1;
    NothingUnderWay(D1);
    NothingUnderWay(D2);
    CandidatesAre(e, x);
    CandidatesAre(e, y);
  }

  /** The one move planned is worth 250, the two it shuts out together as close to 500 as one likes. */
  lemma PlanCanBeNearlyHalf(e: real)
    requires 0.0 < e < 250.0
    ensures Inv(LIBRARY) && IsPlan([Best()], LIBRARY, Wanted(e)) && IsChoice([SameCopy(e), SameDest(e)], LIBRARY, Wanted(e))
    ensures Value([Best()]) == 250.0 && Value([SameCopy(e), SameDest(e)]) == 500.0 - 2.0 * e
  {
    LibraryIsSound();
    PlanIsTheBestMove(e);
    RivalsAreAChoice(e);
    assert [Best()][1..] == [];
  }
}
