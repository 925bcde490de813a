/**
  The rebalancing rules on values: which moves are candidates, what a plan computed from a library promises, and what
  executing plans does to transfers and stock over every run in which the rebalancer alone sends copies.
 */
module Rebalancing {
  import opened Types
  import opened Domain
  import opened Circulation
  import opened Custody
  import opened LibraryRuns
  import opened Greedy
  import opened GreedyBound

  datatype Demand = SURGE | MODERATE | NORMAL

  /** What the engine is told: titles and branches in listing order, forecast demand, distances, and the cap. */
  datatype Survey = Survey(
    isbns: seq<Isbn>, branches: seq<BranchId>, demand: (Isbn, BranchId) -> Demand, distance: (BranchId, BranchId) -> real, cap: int)

  function Shelf(titles: map<Isbn, Title>, isbn: Isbn): seq<CopyId> {
    if isbn in titles && titles[isbn].Physical? then titles[isbn].copyIds else []
  }

  predicate IsAvailableAt(c: CopyId, copies: Copies, branch: BranchId) {
    IsAvailable(c, copies, Some(branch))
  }

  function AvailableAt(ids: seq<CopyId>, copies: Copies, branch: BranchId): seq<CopyId> {
    Available(ids, copies, Some(branch))
  }

  function OpenTo(transfers: Transfers, dest: BranchId): set<TransferId> {
    set t | t in transfers && !transfers[t].completed && transfers[t].dest == dest
  }

  predicate NeedsStock(demand: Demand, available: nat) {
    (demand == SURGE && available <= 1) || (demand == MODERATE && available == 0)
  }

  /** The move from a source with these copies to spare, if it is worth its distance. */
  function Offer(isbn: Isbn, source: BranchId, dest: BranchId, demand: Demand, km: real, spare: seq<CopyId>): Option<Candidate> {
    var weight := if demand == SURGE then 250.0 else 150.0;
    var cost := km * 0.05;
    if source == dest || |spare| < 2 || weight - cost <= 0.0 then None
    else Some(Candidate(-(weight - cost), isbn, spare[0], source, dest, weight, cost))
  }

  /** A destination below its cap that needs the title. */
  predicate Wants(w: World, s: Survey, isbn: Isbn, dest: BranchId) {
    |OpenTo(w.transfers, dest)| < s.cap && NeedsStock(s.demand(isbn, dest), |AvailableAt(Shelf(w.titles, isbn), w.copies, dest)|)
  }

  predicate IsCandidate(x: Candidate, w: World, s: Survey) {
    && x.isbn in s.isbns && x.source in s.branches && x.dest in s.branches
    && Wants(w, s, x.isbn, x.dest)
    && Offer(x.isbn, x.source, x.dest, s.demand(x.isbn, x.dest), s.distance(x.source, x.dest),
             AvailableAt(Shelf(w.titles, x.isbn), w.copies, x.source)) == Some(x)
  }

  ghost predicate Counts(loads: Loads, transfers: Transfers) {
    forall d :: Load(loads, d) == |OpenTo(transfers, d)|
  }

  /** A plan of a library: the greedy pass over its candidates, best first and ties in any order. */
  ghost predicate IsPlan(plan: seq<Candidate>, w: World, s: Survey) {
    exists order, loads :: IsPass(plan, order, loads, w, s)
  }

  ghost predicate IsPass(plan: seq<Candidate>, order: seq<Candidate>, loads: Loads, w: World, s: Survey) {
    && Counts(loads, w.transfers) && Falling(order)
    && (forall x :: x in order ==> IsCandidate(x, w, s))
    && (forall x :: IsCandidate(x, w, s) ==> x in order)
    && plan == Run(Start(loads), order, s.cap).plan
  }

  // ---- available copies

  lemma {:induction false} AvailableMembers(ids: seq<CopyId>, copies: Copies, at: Option<BranchId>)
    ensures forall c :: c in Available(ids, copies, at) ==> c in ids && IsAvailable(c, copies, at)
    ensures forall c :: c in ids && IsAvailable(c, copies, at) ==> c in Available(ids, copies, at)
  {
    if ids != [] {
      AvailableMembers(ids[..|ids| - 1], copies, at);
    }
  }

  lemma {:induction false} AvailableDistinct(ids: seq<CopyId>, copies: Copies, at: Option<BranchId>)
    requires Distinct(ids)
    ensures Distinct(Available(ids, copies, at))
  {
    if ids != [] {
      AvailableDistinct(ids[..|ids| - 1], copies, at);
      AvailableMembers(ids[..|ids| - 1], copies, at);
    }
  }

  /** A candidate's copy is of its title, at its source, which has another one. */
  lemma CandidateHasSpare(x: Candidate, w: World, s: Survey) returns (other: CopyId)
    requires TitlesOk(w.titles, w.copies) && IsCandidate(x, w, s)
    ensures IsAvailableAt(x.copyId, w.copies, x.source) && w.copies[x.copyId].isbn == x.isbn
    ensures x.copyId in Shelf(w.titles, x.isbn)
    ensures other in Shelf(w.titles, x.isbn) && IsAvailableAt(other, w.copies, x.source) && w.copies[other].isbn == x.isbn
    ensures other != x.copyId && x.copyId == AvailableAt(Shelf(w.titles, x.isbn), w.copies, x.source)[0]
    ensures x.source != x.dest && x.Utility() > 0.0
  {
    var shelf := Shelf(w.titles, x.isbn);
    var spare := AvailableAt(shelf, w.copies, x.source);
    assert ListOk(shelf, x.isbn, w.copies);
    AvailableMembers(shelf, w.copies, Some(x.source));
    AvailableDistinct(shelf, w.copies, Some(x.source));
    other := spare[1];
    assert spare[0] in spare && spare[1] in spare;
  }

  /** Candidates for one title and source all offer the same copy, and a copy is only offered under its title and place. */
  lemma SameStockSameCopy(x: Candidate, y: Candidate, w: World, s: Survey)
    requires TitlesOk(w.titles, w.copies) && IsCandidate(x, w, s) && IsCandidate(y, w, s)
    ensures x.copyId == y.copyId <==> x.isbn == y.isbn && x.source == y.source
  {
    var _ := CandidateHasSpare(x, w, s);
    var _ := CandidateHasSpare(y, w, s);
  }

  // ---- which moves are offered, and which are preferred

  /**
    A move is offered from another branch with two copies or more, when it is worth its distance: 250 less its cost in a
    surge and 150 otherwise, at 0.05 a kilometre.
   */
  lemma OfferedIff(isbn: Isbn, source: BranchId, dest: BranchId, demand: Demand, km: real, spare: seq<CopyId>)
    ensures Offer(isbn, source, dest, demand, km, spare).Some? <==>
      source != dest && |spare| >= 2 && km < if demand == SURGE then 5000.0 else 3000.0
    ensures Offer(isbn, source, dest, demand, km, spare).Some? ==>
      && Offer(isbn, source, dest, demand, km, spare).value.copyId == spare[0]
      && Offer(isbn, source, dest, demand, km, spare).value.Utility() == (if demand == SURGE then 250.0 else 150.0) - km / 20.0
  {
  }

  /** A surge outranks a moderate demand unless its copy travels 2000 kilometres further or more; of equals the nearer wins. */
  lemma SurgeOutranksModerate(x: Candidate, y: Candidate, w: World, s: Survey)
    requires IsCandidate(x, w, s) && IsCandidate(y, w, s)
    ensures s.demand(x.isbn, x.dest) == SURGE && s.demand(y.isbn, y.dest) == MODERATE ==>
      (x.Utility() > y.Utility() <==> s.distance(x.source, x.dest) < s.distance(y.source, y.dest) + 2000.0)
    ensures s.demand(x.isbn, x.dest) == s.demand(y.isbn, y.dest) ==>
      (x.Utility() > y.Utility() <==> s.distance(x.source, x.dest) < s.distance(y.source, y.dest))
  {
    OfferedIff(x.isbn, x.source, x.dest, s.demand(x.isbn, x.dest), s.distance(x.source, x.dest),
               AvailableAt(Shelf(w.titles, x.isbn), w.copies, x.source));
    OfferedIff(y.isbn, y.source, y.dest, s.demand(y.isbn, y.dest), s.distance(y.source, y.dest),
               AvailableAt(Shelf(w.titles, y.isbn), w.copies, y.source));
  }

  ghost predicate StandsAt(w: World, c: CopyId, branch: BranchId) {
    c in w.copies && w.copies[c].status == AVAILABLE && w.copies[c].branch == branch
  }

  lemma ThereIff(w: World, isbn: Isbn, dest: BranchId, c: CopyId)
    requires TitlesOk(w.titles, w.copies)
    ensures var there := AvailableAt(Shelf(w.titles, isbn), w.copies, dest);
      Distinct(there) && (c in there <==> c in Shelf(w.titles, isbn) && StandsAt(w, c, dest))
  {
    var shelf := Shelf(w.titles, isbn);
    if shelf != [] {
      assert ListOk(shelf, isbn, w.copies);
    }
    AvailableMembers(shelf, w.copies, Some(dest));
    AvailableDistinct(shelf, w.copies, Some(dest));
  }

  lemma AtMostOne(ids: seq<CopyId>)
    requires Distinct(ids)
    ensures |ids| <= 1 <==> forall c, d :: c in ids && d in ids ==> c == d
    ensures ids == [] <==> forall c :: c !in ids
  {
    if |ids| > 1 {
      assert ids[0] in ids && ids[1] in ids;
    } else if ids != [] {
      assert ids[0] in ids;
    }
  }

  /**
    A destination below its cap is wanted: in a surge when it has at most one copy to lend, at moderate demand when it
    has none, and otherwise not at all.
   */
  lemma WantedIff(w: World, s: Survey, isbn: Isbn, dest: BranchId)
    requires TitlesOk(w.titles, w.copies)
    ensures var shelf := Shelf(w.titles, isbn);
      Wants(w, s, isbn, dest) <==>
        && |OpenTo(w.transfers, dest)| < s.cap
        && match s.demand(isbn, dest)
           case SURGE => forall c, d :: c in shelf && d in shelf && StandsAt(w, c, dest) && StandsAt(w, d, dest) ==> c == d
           case MODERATE => forall c :: c in shelf ==> !StandsAt(w, c, dest)
           case NORMAL => false
  {
    var shelf := Shelf(w.titles, isbn);
    var there := AvailableAt(shelf, w.copies, dest);
    ThereIff(w, isbn, dest, CopyId(""));
    forall c ensures c in there <==> c in shelf && StandsAt(w, c, dest) {
      ThereIff(w, isbn, dest, c);
    }
    AtMostOne(there);
  }

  // ---- what a plan promises

  /** A choice among a library's candidates that moves each copy once and keeps every destination within the cap. */
  ghost predicate IsChoice(rival: seq<Candidate>, w: World, s: Survey) {
    && (forall x :: x in rival ==> IsCandidate(x, w, s))
    && (forall i, j :: 0 <= i < j < |rival| ==> rival[i].copyId != rival[j].copyId)
    && (forall i :: 0 <= i < |rival| ==> |OpenTo(w.transfers, rival[i].dest)| + Inbound(rival, rival[i].dest) <= s.cap)
  }

  /** A plan is worth at least half of any choice. */
  lemma PlanWithinFactorTwo(plan: seq<Candidate>, w: World, s: Survey, rival: seq<Candidate>)
    requires TitlesOk(w.titles, w.copies) && IsPlan(plan, w, s) && IsChoice(rival, w, s)
    ensures 2.0 * Value(plan) >= Value(rival)
  {
    var order: seq<Candidate>, loads :| IsPass(plan, order, loads, w, s);
    forall x | x in order ensures x.Utility() >= 0.0 {
      var _ := CandidateHasSpare(x, w, s);
    }
    forall i | 0 <= i < |rival| ensures Load(loads, rival[i].dest) + Inbound(rival, rival[i].dest) <= s.cap {
      assert Load(loads, rival[i].dest) == |OpenTo(w.transfers, rival[i].dest)|;
    }
    GreedyWithinFactorTwo(order, loads, s.cap, rival);
  }

  /** Each move is a candidate, and each copy is moved once. */
  lemma PlanMovesCandidates(plan: seq<Candidate>, w: World, s: Survey)
    requires IsPlan(plan, w, s)
    ensures forall x :: x in plan ==> IsCandidate(x, w, s)
    ensures forall i, j :: 0 <= i < j < |plan| ==> plan[i].copyId != plan[j].copyId
  {
    var order, loads :| IsPass(plan, order, loads, w, s);
    RunIsMaximal(Start(loads), order, loads, s.cap);
    forall x | x in plan ensures IsCandidate(x, w, s) {
      assert x in order;
    }
  }

  /** No title leaves a source twice. */
  lemma PlanTakesOneOfEach(plan: seq<Candidate>, w: World, s: Survey)
    requires TitlesOk(w.titles, w.copies) && IsPlan(plan, w, s)
    ensures forall i, j :: 0 <= i < j < |plan| ==> plan[i].isbn != plan[j].isbn || plan[i].source != plan[j].source
  {
    PlanMovesCandidates(plan, w, s);
    forall i, j | 0 <= i < j < |plan| ensures plan[i].isbn != plan[j].isbn || plan[i].source != plan[j].source {
      SameStockSameCopy(plan[i], plan[j], w, s);
    }
  }

  /** No destination is planned over the cap, counting what is under way. */
  lemma PlanFitsTheCap(plan: seq<Candidate>, w: World, s: Survey, d: BranchId)
    requires IsPlan(plan, w, s) && Inbound(plan, d) > 0
    ensures |OpenTo(w.transfers, d)| + Inbound(plan, d) <= s.cap
  {
    var order, loads :| IsPass(plan, order, loads, w, s);
    RunIsMaximal(Start(loads), order, loads, s.cap);
    InboundPositive(plan, d);
    assert Load(loads, d) == |OpenTo(w.transfers, d)|;
  }

  /** A plan is itself such a choice. */
  lemma PlanIsAChoice(plan: seq<Candidate>, w: World, s: Survey)
    requires IsPlan(plan, w, s)
    ensures IsChoice(plan, w, s)
  {
    PlanMovesCandidates(plan, w, s);
    forall i | 0 <= i < |plan| ensures |OpenTo(w.transfers, plan[i].dest)| + Inbound(plan, plan[i].dest) <= s.cap {
      InboundPositive(plan, plan[i].dest);
      PlanFitsTheCap(plan, w, s, plan[i].dest);
    }
  }

  /** A candidate is left out only for its copy, already moved, or for its destination, already full. */
  lemma PlanLeavesNothingUseful(plan: seq<Candidate>, w: World, s: Survey, x: Candidate)
    requires IsPlan(plan, w, s) && IsCandidate(x, w, s) && x !in plan
    ensures (exists y :: y in plan && y.copyId == x.copyId) || |OpenTo(w.transfers, x.dest)| + Inbound(plan, x.dest) >= s.cap
  {
    var order, loads :| IsPass(plan, order, loads, w, s);
    var start, end := Start(loads), Run(Start(loads), order, s.cap);
    RunIsMaximal(start, order, loads, s.cap);
    TakenAreInPlan(start, order, s.cap);
    assert x in order;
    assert end.Blocks(x, s.cap);
    assert Load(end.loads, x.dest) == Load(loads, x.dest) + Inbound(plan, x.dest);
    assert Load(loads, x.dest) == |OpenTo(w.transfers, x.dest)|;
  }

  /** And then the moves preferred to it were at least as useful: the plan has them before any worse one. */
  lemma PlanPrefersUseful(plan: seq<Candidate>, w: World, s: Survey, x: Candidate) returns (n: nat)
    requires IsPlan(plan, w, s) && IsCandidate(x, w, s) && x !in plan
    ensures n <= |plan| && AllAtLeast(plan[..n], x.Utility())
    ensures ShutsOut(plan[..n], x, |OpenTo(w.transfers, x.dest)|, s.cap)
  {
    var order, loads :| IsPass(plan, order, loads, w, s);
    n := RunPrefersUseful(Start(loads), order, loads, s.cap, x);
    assert Load(loads, x.dest) == |OpenTo(w.transfers, x.dest)|;
  }

  /** Every copy taken is moved by the plan. */
  ghost predicate TakenIsPlanned(st: Planning) {
    forall c :: c in st.taken ==> exists y :: y in st.plan && y.copyId == c
  }

  lemma StepPlansWhatItTakes(st: Planning, x: Candidate, cap: int)
    requires TakenIsPlanned(st)
    ensures TakenIsPlanned(st.Step(x, cap))
  {
    var st' := st.Step(x, cap);
    forall c | c in st'.taken ensures exists y :: y in st'.plan && y.copyId == c {
      if c in st.taken {
        var y :| y in st.plan && y.copyId == c;
        assert y in st'.plan;
      } else {
        assert x in st'.plan;
      }
    }
  }

  lemma {:induction false} TakenAreInPlan(st: Planning, order: seq<Candidate>, cap: int)
    requires TakenIsPlanned(st)
    ensures TakenIsPlanned(Run(st, order, cap))
    decreases |order|
  {
    if order != [] {
      StepPlansWhatItTakes(st, order[0], cap);
      TakenAreInPlan(st.Step(order[0], cap), order[1..], cap);
    }
  }

  ghost predicate AllAtLeast(plan: seq<Candidate>, utility: real) {
    forall y :: y in plan ==> y.Utility() >= utility
  }

  /** The moves of the plan leave no place for this one. */
  ghost predicate ShutsOut(plan: seq<Candidate>, x: Candidate, load: int, cap: int) {
    (exists y :: y in plan && y.copyId == x.copyId) || load + Inbound(plan, x.dest) >= cap
  }

  lemma BlockedIsShutOut(st: Planning, x: Candidate, loads: Loads, cap: int)
    requires Tracks(st, loads, cap) && TakenIsPlanned(st) && st.Blocks(x, cap)
    ensures ShutsOut(st.plan, x, Load(loads, x.dest), cap)
  {
  }

  /** The pass goes on with a move no more useful than those planned. */
  ghost predicate PassesOver(st: Planning, order: seq<Candidate>, loads: Loads, cap: int, x: Candidate) {
    && Tracks(st, loads, cap) && TakenIsPlanned(st) && AllAtLeast(st.plan, x.Utility())
    && Falling(order) && x in order && x !in Run(st, order, cap).plan
  }

  lemma PassGoesOn(st: Planning, order: seq<Candidate>, loads: Loads, cap: int, x: Candidate)
    requires PassesOver(st, order, loads, cap, x) && !st.Blocks(x, cap)
    ensures PassesOver(st.Step(order[0], cap), order[1..], loads, cap, x)
  {
    var st' := st.Step(order[0], cap);
    StepTracks(st, order[0], loads, cap);
    StepPlansWhatItTakes(st, order[0], cap);
    RunIsMaximal(st', order[1..], loads, cap);
    assert x == order[0] ==> x in st'.plan;
  }

  /** Along a falling order a move left out was blocked by moves before it. */
  lemma {:induction false} RunPrefersUseful(st: Planning, order: seq<Candidate>, loads: Loads, cap: int, x: Candidate) returns (n: nat)
    requires PassesOver(st, order, loads, cap, x)
    ensures n <= |Run(st, order, cap).plan|
    ensures AllAtLeast(Run(st, order, cap).plan[..n], x.Utility())
    ensures ShutsOut(Run(st, order, cap).plan[..n], x, Load(loads, x.dest), cap)
    decreases |order|
  {
    if st.Blocks(x, cap) {
      n := |st.plan|;
      RunIsMaximal(st, order, loads, cap);
      BlockedIsShutOut(st, x, loads, cap);
      assert Run(st, order, cap).plan[..n] == st.plan;
    } else {
      PassGoesOn(st, order, loads, cap, x);
      n := RunPrefersUseful(st.Step(order[0], cap), order[1..], loads, cap, x);
    }
  }

  // ---- executing a plan

  /** Copies no longer available are skipped; a refused request ends the execution, after the earlier ones were sent. */
  function Execute(w: World, plan: seq<Candidate>, ids: seq<TransferId>): (seq<Transfer>, bool, World)
    requires |ids| == |plan|
    decreases |plan|
  {
    if plan == [] then ([], false, w)
    else
      var c := plan[0].copyId;
      if c !in w.copies || w.copies[c].status != AVAILABLE then Execute(w, plan[1..], ids[1..])
      else
        var (sent, w') := RequestTransfer(w, c, plan[0].dest, ids[0]);
        if sent.Err? then ([], true, w')
        else
          var (rest, raised, w'') := Execute(w', plan[1..], ids[1..]);
          ([sent.value] + rest, raised, w'')
  }

  function SentTo(sent: seq<Transfer>, dest: BranchId): nat {
    if sent == [] then 0 else (if sent[0].dest == dest then 1 else 0) + SentTo(sent[1..], dest)
  }

  ghost predicate NewIds(ids: seq<TransferId>, transfers: Transfers) {
    && (forall i :: 0 <= i < |ids| ==> ids[i] !in transfers)
    && (forall i, j :: 0 <= i < j < |ids| ==> ids[i] != ids[j])
  }

  lemma RequestOpensOne(w: World, c: CopyId, dest: BranchId, t: TransferId, d: BranchId)
    requires t !in w.transfers && RequestTransfer(w, c, dest, t).0.Ok?
    ensures |OpenTo(RequestTransfer(w, c, dest, t).1.transfers, d)| == |OpenTo(w.transfers, d)| + if d == dest then 1 else 0
  {
    var transfers' := RequestTransfer(w, c, dest, t).1.transfers;
    if d == dest {
      assert OpenTo(transfers', d) == OpenTo(w.transfers, d) + {t};
    } else {
      assert OpenTo(transfers', d) == OpenTo(w.transfers, d);
    }
  }

  /** An arrival takes one transfer off those open to its destination, and off no others. */
  lemma ArrivalFreesRoom(w: World, t: TransferId, d: BranchId)
    requires CompleteTransfer(w, t).0.Some? && CompleteTransfer(w, t).0.value.Ok?
    ensures |OpenTo(CompleteTransfer(w, t).1.transfers, d)| == |OpenTo(w.transfers, d)| - if d == w.transfers[t].dest then 1 else 0
  {
    var transfers' := CompleteTransfer(w, t).1.transfers;
    if d == w.transfers[t].dest {
      assert OpenTo(transfers', d) == OpenTo(w.transfers, d) - {t} && t in OpenTo(w.transfers, d);
    } else {
      assert OpenTo(transfers', d) == OpenTo(w.transfers, d);
    }
  }

  lemma {:induction false} ExecuteKeepsInv(w: World, plan: seq<Candidate>, ids: seq<TransferId>)
    requires Inv(w) && |ids| == |plan| && NewIds(ids, w.transfers)
    ensures Inv(Execute(w, plan, ids).2)
    decreases |plan|
  {
    if plan != [] {
      var c := plan[0].copyId;
      if c !in w.copies || w.copies[c].status != AVAILABLE {
        ExecuteKeepsInv(w, plan[1..], ids[1..]);
      } else {
        TransferKeepsInv(w, c, plan[0].dest, ids[0]);
        ExecuteKeepsInv(RequestTransfer(w, c, plan[0].dest, ids[0]).1, plan[1..], ids[1..]);
      }
    }
  }

  /** Execution opens one transfer per copy sent, at most what was planned. */
  lemma {:induction false} ExecuteOpensWhatItSends(w: World, plan: seq<Candidate>, ids: seq<TransferId>, d: BranchId)
    requires |ids| == |plan| && NewIds(ids, w.transfers)
    ensures |OpenTo(Execute(w, plan, ids).2.transfers, d)| == |OpenTo(w.transfers, d)| + SentTo(Execute(w, plan, ids).0, d)
    ensures SentTo(Execute(w, plan, ids).0, d) <= Inbound(plan, d)
    decreases |plan|
  {
    if plan != [] {
      var c := plan[0].copyId;
      if c !in w.copies || w.copies[c].status != AVAILABLE {
        ExecuteOpensWhatItSends(w, plan[1..], ids[1..], d);
      } else {
        var (sent, w') := RequestTransfer(w, c, plan[0].dest, ids[0]);
        if sent.Ok? {
          RequestOpensOne(w, c, plan[0].dest, ids[0], d);
          ExecuteOpensWhatItSends(w', plan[1..], ids[1..], d);
          assert Execute(w, plan, ids).0[1..] == Execute(w', plan[1..], ids[1..]).0;
        }
      }
    }
  }

  lemma {:induction false} ExecuteSparesOthers(w: World, plan: seq<Candidate>, ids: seq<TransferId>, c: CopyId)
    requires |ids| == |plan| && forall x :: x in plan ==> x.copyId != c
    ensures var w' := Execute(w, plan, ids).2; c in w.copies ==> c in w'.copies && w'.copies[c] == w.copies[c]
    decreases |plan|
  {
    if plan != [] {
      assert plan[0] in plan;
      var p := plan[0];
      if p.copyId !in w.copies || w.copies[p.copyId].status != AVAILABLE {
        ExecuteSparesOthers(w, plan[1..], ids[1..], c);
      } else {
        ExecuteSparesOthers(RequestTransfer(w, p.copyId, p.dest, ids[0]).1, plan[1..], ids[1..], c);
      }
    }
  }

  lemma {:induction false} ExecuteKeepsShelves(w: World, plan: seq<Candidate>, ids: seq<TransferId>, isbn: Isbn)
    requires |ids| == |plan|
    ensures Shelf(w.titles, isbn) <= Shelf(Execute(w, plan, ids).2.titles, isbn)
    decreases |plan|
  {
    if plan != [] {
      var p := plan[0];
      if p.copyId !in w.copies || w.copies[p.copyId].status != AVAILABLE {
        ExecuteKeepsShelves(w, plan[1..], ids[1..], isbn);
      } else {
        ExecuteKeepsShelves(RequestTransfer(w, p.copyId, p.dest, ids[0]).1, plan[1..], ids[1..], isbn);
      }
    }
  }

  /** A plan executed at once keeps every destination within the cap, or at what it was. */
  lemma PlanExecutedAtOnceFits(
    plan: seq<Candidate>, w: World, s: Survey, ids: seq<TransferId>, d: BranchId)
    requires Inv(w) && IsPlan(plan, w, s) && |ids| == |plan| && NewIds(ids, w.transfers)
    ensures Inv(Execute(w, plan, ids).2)
    ensures |OpenTo(Execute(w, plan, ids).2.transfers, d)| <= Max(s.cap, |OpenTo(w.transfers, d)|)
  {
    ExecuteKeepsInv(w, plan, ids);
    ExecuteOpensWhatItSends(w, plan, ids, d);
    if Inbound(plan, d) > 0 {
      PlanFitsTheCap(plan, w, s, d);
    }
  }

  function Max(a: int, b: int): int {
    if a < b then b else a
  }

  /** And it strips no source: of each title sent from it, a copy is still available there. */
  lemma PlanLeavesStock(
    plan: seq<Candidate>, w: World, s: Survey, ids: seq<TransferId>, x: Candidate)
    requires Inv(w) && IsPlan(plan, w, s) && |ids| == |plan| && x in plan
    ensures var w' := Execute(w, plan, ids).2; AvailableAt(Shelf(w'.titles, x.isbn), w'.copies, x.source) != []
  {
    PlanMovesCandidates(plan, w, s);
    var w' := Execute(w, plan, ids).2;
    var other := CandidateHasSpare(x, w, s);
    forall y | y in plan ensures y.copyId != other {
      var _ := CandidateHasSpare(y, w, s);
    }
    ExecuteSparesOthers(w, plan, ids, other);
    ExecuteKeepsShelves(w, plan, ids, x.isbn);
    assert other in Shelf(w'.titles, x.isbn) by {
      var k :| 0 <= k < |Shelf(w.titles, x.isbn)| && Shelf(w.titles, x.isbn)[k] == other;
      assert Shelf(w'.titles, x.isbn)[k] == other;
    }
    AvailableMembers(Shelf(w'.titles, x.isbn), w'.copies, Some(x.source));
  }

  ghost predicate ReadyToSend(w: World, plan: seq<Candidate>) {
    && (forall i :: 0 <= i < |plan| ==> IsAvailableAt(plan[i].copyId, w.copies, plan[i].source) && plan[i].source != plan[i].dest)
    && (forall i, j :: 0 <= i < j < |plan| ==> plan[i].copyId != plan[j].copyId)
  }

  lemma SendingOneLeavesTheRestReady(w: World, plan: seq<Candidate>, t: TransferId)
    requires ReadyToSend(w, plan) && plan != [] && plan[0].dest in w.branches
    ensures var (sent, w') := RequestTransfer(w, plan[0].copyId, plan[0].dest, t);
            && ReadyToSend(w', plan[1..]) && w'.branches == w.branches
            && sent == Ok(Transfer(plan[0].copyId, w.copies[plan[0].copyId].isbn, plan[0].source, plan[0].dest, false))
            && (forall i :: 0 <= i < |plan[1..]| ==> w'.copies[plan[1..][i].copyId] == w.copies[plan[1..][i].copyId])
  {
  }

  /** Ready moves are sent in order, all of them, up to the first whose destination the branch manager does not know. */
  lemma {:induction false} ReadyPlanIsSentWhole(w: World, plan: seq<Candidate>, ids: seq<TransferId>)
    requires |ids| == |plan| && ReadyToSend(w, plan)
    ensures var (sent, raised, _) := Execute(w, plan, ids);
            && |sent| <= |plan| && (raised <==> |sent| < |plan|)
            && (raised ==> plan[|sent|].dest !in w.branches)
            && (forall i :: 0 <= i < |sent| ==>
                  && plan[i].dest in w.branches
                  && sent[i] == Transfer(plan[i].copyId, w.copies[plan[i].copyId].isbn, plan[i].source, plan[i].dest, false))
    decreases |plan|
  {
    if plan != [] && plan[0].dest in w.branches {
      SendingOneLeavesTheRestReady(w, plan, ids[0]);
      var w' := RequestTransfer(w, plan[0].copyId, plan[0].dest, ids[0]).1;
      ReadyPlanIsSentWhole(w', plan[1..], ids[1..]);
      var sent, rest := Execute(w, plan, ids).0, Execute(w', plan[1..], ids[1..]).0;
      forall i | 0 < i < |sent|
        ensures plan[i].dest in w.branches
        ensures sent[i] == Transfer(plan[i].copyId, w.copies[plan[i].copyId].isbn, plan[i].source, plan[i].dest, false)
      {
        assert sent[i] == rest[i - 1] && plan[1..][i - 1] == plan[i];
      }
    }
  }

  lemma PlansAreReady(plan: seq<Candidate>, w: World, s: Survey)
    requires TitlesOk(w.titles, w.copies) && IsPlan(plan, w, s)
    ensures ReadyToSend(w, plan)
  {
    PlanMovesCandidates(plan, w, s);
    forall i | 0 <= i < |plan| ensures IsAvailableAt(plan[i].copyId, w.copies, plan[i].source) && plan[i].source != plan[i].dest {
      assert plan[i] in plan;
      var _ := CandidateHasSpare(plan[i], w, s);
    }
  }

  // ---- the engine sees only part of the library

  predicate SameStock(v: World, w: World) {
    v.copies == w.copies && v.titles == w.titles && v.branches == w.branches && v.transfers == w.transfers
  }

  /** A plan made on the stock alone is a plan of the whole library. */
  lemma StockDecidesPlans(plan: seq<Candidate>, v: World, w: World, s: Survey)
    requires SameStock(v, w) && IsPlan(plan, v, s)
    ensures IsPlan(plan, w, s)
  {
    var order, loads :| IsPass(plan, order, loads, v, s);
    assert forall x :: IsCandidate(x, v, s) <==> IsCandidate(x, w, s);
    assert IsPass(plan, order, loads, w, s);
  }

  /** Executing a plan needs the stock alone, and leaves the rest of the library as it is. */
  lemma {:induction false} StockDecidesExecution(plan: seq<Candidate>, v: World, w: World, ids: seq<TransferId>)
    requires SameStock(v, w) && |ids| == |plan|
    ensures Execute(v, plan, ids).0 == Execute(w, plan, ids).0 && Execute(v, plan, ids).1 == Execute(w, plan, ids).1
    ensures SameStock(Execute(v, plan, ids).2, Execute(w, plan, ids).2)
    ensures var w' := Execute(w, plan, ids).2; w' == w.(copies := w'.copies, titles := w'.titles, transfers := w'.transfers)
    decreases |plan|
  {
    if plan != [] {
      var p := plan[0];
      if p.copyId !in w.copies || w.copies[p.copyId].status != AVAILABLE {
        StockDecidesExecution(plan[1..], v, w, ids[1..]);
      } else {
        var v', w' := RequestTransfer(v, p.copyId, p.dest, ids[0]).1, RequestTransfer(w, p.copyId, p.dest, ids[0]).1;
        StockDecidesExecution(plan[1..], v', w', ids[1..]);
      }
    }
  }

  // ---- plans that have been waiting

  /** A plan executed later still keeps the cap wherever no more is under way than when it was made. */
  lemma OldPlanIsSafeWhenLessIsUnderWay(
    plan: seq<Candidate>, w: World, s: Survey, later: World, ids: seq<TransferId>, d: BranchId)
    requires TitlesOk(w.titles, w.copies) && IsPlan(plan, w, s)
    requires |ids| == |plan| && NewIds(ids, later.transfers)
    requires |OpenTo(later.transfers, d)| <= |OpenTo(w.transfers, d)| && |OpenTo(w.transfers, d)| <= s.cap
    ensures |OpenTo(Execute(later, plan, ids).2.transfers, d)| <= s.cap
  {
    if Inbound(plan, d) > 0 {
      PlanFitsTheCap(plan, w, s, d);
    }
    ExecuteOpensWhatItSends(later, plan, ids, d);
  }

  /** It goes over as soon as its destination has filled up since: execution looks at the copy, not at the cap. */
  lemma OldPlanCanOverfill(w: World, x: Candidate, t: TransferId, cap: nat)
    requires |OpenTo(w.transfers, x.dest)| == cap && t !in w.transfers && x.dest in w.branches
    requires IsAvailableAt(x.copyId, w.copies, x.source) && x.source != x.dest
    ensures |OpenTo(Execute(w, [x], [t]).2.transfers, x.dest)| == cap + 1
  {
    RequestOpensOne(w, x.copyId, x.dest, t, x.dest);
    assert [x][1..] == [] && [t][1..] == [];
  }

  /**
    The moves of a plan that will leave: those whose copy is still available, up to the first that is refused. `gone`
    are the copies already sent.
   */
  function Departures(copies: Copies, branches: set<BranchId>, plan: seq<Candidate>, gone: set<CopyId>): seq<Candidate> {
    if plan == [] then []
    else
      var x := plan[0];
      if x.copyId in gone || x.copyId !in copies || copies[x.copyId].status != AVAILABLE
      then Departures(copies, branches, plan[1..], gone)
      else if x.dest !in branches || copies[x.copyId].branch == x.dest then []
      else [x] + Departures(copies, branches, plan[1..], gone + {x.copyId})
  }

  /** Some copies have been sent since; all others are as they were. */
  ghost predicate HaveLeft(gone: set<CopyId>, before: Copies, after: Copies) {
    && (forall c :: c in gone ==> c in after && after[c].status == IN_TRANSIT)
    && (forall c :: c !in gone && c in before ==> c in after && after[c] == before[c])
    && (forall c :: c !in gone && c in after ==> c in before)
  }

  /** Execution sends the departures, one by one. */
  lemma {:induction false} ExecuteSendsDepartures(
    w: World, plan: seq<Candidate>, ids: seq<TransferId>, copies: Copies, gone: set<CopyId>, d: BranchId)
    requires |ids| == |plan| && HaveLeft(gone, copies, w.copies)
    ensures var (sent, moves) := (Execute(w, plan, ids).0, Departures(copies, w.branches, plan, gone));
            && |sent| == |moves|
            && (forall i :: 0 <= i < |sent| ==> sent[i].copyId == moves[i].copyId && sent[i].dest == moves[i].dest)
            && SentTo(sent, d) == Inbound(moves, d)
    decreases |plan|
  {
    if plan != [] {
      var x := plan[0];
      if x.copyId !in w.copies || w.copies[x.copyId].status != AVAILABLE {
        ExecuteSendsDepartures(w, plan[1..], ids[1..], copies, gone, d);
      } else {
        var w' := RequestTransfer(w, x.copyId, x.dest, ids[0]).1;
        if RequestTransfer(w, x.copyId, x.dest, ids[0]).0.Ok? {
          ExecuteSendsDepartures(w', plan[1..], ids[1..], copies, gone + {x.copyId}, d);
        }
      }
    }
  }

  /** Exactly when a plan, however old, fits a cap: count what is under way now and what will leave. */
  lemma PlanFitsIff(w: World, plan: seq<Candidate>, ids: seq<TransferId>, d: BranchId, cap: int)
    requires |ids| == |plan| && NewIds(ids, w.transfers)
    ensures |OpenTo(Execute(w, plan, ids).2.transfers, d)| <= cap <==>
      |OpenTo(w.transfers, d)| + Inbound(Departures(w.copies, w.branches, plan, {}), d) <= cap
  {
    ExecuteSendsDepartures(w, plan, ids, w.copies, {}, d);
    ExecuteOpensWhatItSends(w, plan, ids, d);
  }

  // ---- runs in which only the rebalancer sends copies

  datatype Round =
    | Rebalance(survey: Survey, plan: seq<Candidate>, ids: seq<TransferId>)
    | Other(step: Step)

  ghost predicate Allowed(w: World, round: Round, cap: int) {
    match round
    case Rebalance(s, plan, ids) => s.cap == cap && IsPlan(plan, w, s) && |ids| == |plan| && NewIds(ids, w.transfers)
    case Other(step) => Enabled(w, step) && !step.DoTransfer?
  }

  ghost function After(w: World, round: Round, cap: int): World
    requires Allowed(w, round, cap)
  {
    match round
    case Rebalance(s, plan, ids) => Execute(w, plan, ids).2
    case Other(step) => Next(w, step)
  }

  ghost function PlayRounds(w: World, rounds: seq<Round>, cap: int): World {
    if rounds == [] then w
    else
      var t, round := PlayRounds(w, rounds[..|rounds| - 1], cap), rounds[|rounds| - 1];
      if Allowed(t, round, cap) then After(t, round, cap) else t
  }

  lemma OtherStepsOpenNothing(w: World, step: Step, d: BranchId)
    requires Enabled(w, step) && !step.DoTransfer?
    ensures OpenTo(Next(w, step).transfers, d) <= OpenTo(w.transfers, d)
  {
  }

  /** No destination ever has more inbound copies than the cap, and transit, custody and the log stay sound throughout. */
  lemma {:induction false} RebalancingNeverOverfills(rounds: seq<Round>, cap: nat, d: BranchId)
    ensures var w := PlayRounds(EMPTY, rounds, cap);
            Inv(w) && |OpenTo(w.transfers, d)| <= cap
  {
    if rounds == [] {
      EmptyLibraryIsSound();
      assert OpenTo(EMPTY.transfers, d) == {};
    } else {
      var before := rounds[..|rounds| - 1];
      var w, round := PlayRounds(EMPTY, before, cap), rounds[|rounds| - 1];
      RebalancingNeverOverfills(before, cap, d);
      if Allowed(w, round, cap) {
        match round
        case Rebalance(s, plan, ids) => PlanExecutedAtOnceFits(plan, w, s, ids, d);
        case Other(step) =>
          NextKeepsInv(w, step);
          OtherStepsOpenNothing(w, step, d);
          assert |OpenTo(Next(w, step).transfers, d)| <= |OpenTo(w.transfers, d)| by {
            SubsetIsSmaller(OpenTo(Next(w, step).transfers, d), OpenTo(w.transfers, d));
          }
      }
    }
  }
}
