/** The rebalancing engine: a heap of candidate moves, the selection loop, and the execution of plans. */
module RebalancingEngines {
  import opened Types
  import opened Domain
  import opened Circulation
  import opened Repositories
  import opened Heaps
  import opened Greedy
  import opened Rebalancing

  type MoveHeap = seq<Item<Candidate>>

  function Entry(x: Candidate): Item<Candidate> {
    Item(x.priority, 0, x)
  }

  /** A heap of candidates, which compare by priority alone. */
  ghost predicate IsMoveHeap(heap: MoveHeap) {
    IsHeap(heap) && forall e :: e in heap ==> e == Entry(e.payload)
  }

  ghost predicate Holds(heap: MoveHeap, x: Candidate) {
    Entry(x) in heap
  }

  method PushMove(heap: MoveHeap, x: Candidate) returns (r: MoveHeap)
    requires IsMoveHeap(heap)
    ensures IsMoveHeap(r)
    ensures forall y :: Holds(r, y) <==> Holds(heap, y) || y == x
  {
    r := Push(heap, Entry(x));
    assert forall e :: e in r <==> e in multiset(r);
    assert forall e :: e in heap <==> e in multiset(heap);
  }

  /** Offered to this destination by one of these sources. */
  ghost predicate OfferedBy(sources: seq<BranchId>, x: Candidate, s: Survey, isbn: Isbn, dest: BranchId, available: map<BranchId, seq<CopyId>>) {
    && x.source in sources && x.source in available
    && Offer(isbn, x.source, dest, s.demand(isbn, dest), s.distance(x.source, dest), available[x.source]) == Some(x)
  }

  method PushOffers(heap: MoveHeap, s: Survey, isbn: Isbn, dest: BranchId, available: map<BranchId, seq<CopyId>>) returns (r: MoveHeap)
    requires IsMoveHeap(heap) && forall b :: b in s.branches ==> b in available
    ensures IsMoveHeap(r)
    ensures forall x :: Holds(r, x) ==> Holds(heap, x) || OfferedBy(s.branches, x, s, isbn, dest, available)
    ensures forall x :: Holds(heap, x) || OfferedBy(s.branches, x, s, isbn, dest, available) ==> Holds(r, x)
  {
    r := heap;
    var weight := if s.demand(isbn, dest) == SURGE then 250.0 else 150.0;
    for i := 0 to |s.branches|
      invariant IsMoveHeap(r)
      invariant forall x :: Holds(r, x) ==> Holds(heap, x) || OfferedBy(s.branches[..i], x, s, isbn, dest, available)
      invariant forall x :: Holds(heap, x) || OfferedBy(s.branches[..i], x, s, isbn, dest, available) ==> Holds(r, x)
    {
      var source := s.branches[i];
      assert s.branches[..i + 1] == s.branches[..i] + [source];
      if source == dest {
        continue;
      }
      var surplus := available[source];
      if |surplus| < 2 {
        continue;
      }
      var cost := s.distance(source, dest) * 0.05;
      var utility := weight - cost;
      if utility <= 0.0 {
        continue;
      }
      r := PushMove(r, Candidate(-utility, isbn, surplus[0], source, dest, weight, cost));
    }
    assert s.branches[..|s.branches|] == s.branches;
  }

  lemma {:induction false} RunOneMore(st: Planning, order: seq<Candidate>, c: Candidate, cap: int)
    ensures Run(st, order + [c], cap) == Run(st, order, cap).Step(c, cap)
    decreases |order|
  {
    if order == [] {
      assert (order + [c])[1..] == [];
    } else {
      assert (order + [c])[1..] == order[1..] + [c];
      RunOneMore(st.Step(order[0], cap), order[1..], c, cap);
    }
  }

  /** So far the most useful moves were popped, most useful first, and the heap has the rest. */
  ghost predicate Selecting(moves: MoveHeap, order: seq<Candidate>, heap: MoveHeap) {
    && IsMoveHeap(heap) && Falling(order)
    && (forall x :: Holds(moves, x) ==> x in order || Holds(heap, x))
    && (forall x :: x in order || Holds(heap, x) ==> Holds(moves, x))
    && (forall x, y :: x in order && Holds(heap, y) ==> x.priority <= y.priority)
  }

  lemma PopKeepsSelecting(moves: MoveHeap, order: seq<Candidate>, heap: MoveHeap, e: Item<Candidate>, rest: MoveHeap)
    requires Selecting(moves, order, heap) && IsHeap(rest)
    requires multiset(heap) == multiset(rest) + multiset{e} && IsLeast(e, heap)
    ensures Selecting(moves, order + [e.payload], rest)
  {
    var x := e.payload;
    assert forall f :: f in heap <==> f in multiset(heap);
    assert forall f :: f in rest <==> f in multiset(rest);
    assert e == Entry(x) && Holds(heap, x);
    forall y | Holds(heap, y) ensures y == x || Holds(rest, y) {
      assert Entry(y) in multiset(rest) + multiset{e};
    }
    forall y | Holds(rest, y) ensures Holds(heap, y) && x.priority <= y.priority {
      assert Entry(y) in multiset(heap);
      assert AtMost(e, Entry(y));
    }
    assert Falling(order + [x]) by {
      forall i | 0 <= i < |order| ensures order[i].priority <= x.priority {
        assert order[i] in order;
      }
    }
  }

  ghost predicate IsSelection(plan: seq<Candidate>, order: seq<Candidate>, moves: MoveHeap, inFlight: Loads, cap: int) {
    Falling(order) && (forall x :: x in order <==> Holds(moves, x)) && plan == Run(Start(inFlight), order, cap).plan
  }

  /** Pops everything; what is popped is a most-useful-first order of the heap, and the plan is the greedy pass over it. */
  method Select(moves: MoveHeap, inFlight: Loads, cap: int) returns (plan: seq<Candidate>)
    requires IsMoveHeap(moves)
    ensures exists order :: IsSelection(plan, order, moves, inFlight, cap)
  {
    var heap, loads, taken: set<CopyId> := moves, inFlight, {};
    ghost var order := [];
    plan := [];
    while heap != []
      invariant Selecting(moves, order, heap)
      invariant Run(Start(inFlight), order, cap) == Planning(plan, taken, loads)
      decreases |heap|
    {
      var e, rest := Pop(heap);
      var x := e.payload;
      PopKeepsSelecting(moves, order, heap, e, rest);
      RunOneMore(Start(inFlight), order, x, cap);
      heap, order := rest, order + [x];
      if x.copyId in taken {
        continue;
      }
      if Load(loads, x.dest) >= cap {
        continue;
      }
      taken, loads, plan := taken + {x.copyId}, loads[x.dest := Load(loads, x.dest) + 1], plan + [x];
    }
    assert IsSelection(plan, order, moves, inFlight, cap);
  }

  ghost function OpenAmong(transfers: Transfers, seen: set<TransferId>, d: BranchId): nat {
    |OpenTo(transfers, d) * seen|
  }

  lemma CountOneMore(transfers: Transfers, seen: set<TransferId>, t: TransferId, d: BranchId)
    requires t in transfers && t !in seen
    ensures OpenAmong(transfers, seen + {t}, d) ==
      OpenAmong(transfers, seen, d) + if !transfers[t].completed && transfers[t].dest == d then 1 else 0
  {
    if t in OpenTo(transfers, d) {
      assert OpenTo(transfers, d) * (seen + {t}) == OpenTo(transfers, d) * seen + {t};
    } else {
      assert OpenTo(transfers, d) * (seen + {t}) == OpenTo(transfers, d) * seen;
    }
  }

  class CrossBranchRebalancingEngine {
    const bookRepo: InMemoryBookRepository
    const branchMgr: MultiBranchManager
    const maxTransfersPerBranch: int

    /** The library as the engine knows it: no users, ledger or queues. */
    ghost function View(): World
      reads bookRepo, branchMgr
    {
      EMPTY.(copies := bookRepo.view, titles := bookRepo.titles, branches := branchMgr.branches, transfers := branchMgr.transfers)
    }

    constructor (bookRepo: InMemoryBookRepository, branchMgr: MultiBranchManager, cap: int)
      ensures this.bookRepo == bookRepo && this.branchMgr == branchMgr && maxTransfersPerBranch == cap
    {
      this.bookRepo, this.branchMgr, maxTransfersPerBranch := bookRepo, branchMgr, cap;
    }

    method CountInFlight(branches: seq<BranchId>) returns (loads: Loads)
      ensures Counts(loads, branchMgr.transfers)
    {
      loads := map b | b in branches :: 0;
      var transfers := branchMgr.transfers;
      var todo := transfers.Keys;
      forall d ensures OpenAmong(transfers, transfers.Keys - todo, d) == 0 {
        assert OpenTo(transfers, d) * (transfers.Keys - todo) == {};
      }
      while todo != {}
        invariant todo <= transfers.Keys
        invariant forall d :: Load(loads, d) == OpenAmong(transfers, transfers.Keys - todo, d)
        decreases todo
      {
        var t :| t in todo;
        ghost var seen := transfers.Keys - todo;
        todo := todo - {t};
        assert transfers.Keys - todo == seen + {t};
        if !transfers[t].completed {
          loads := loads[transfers[t].dest := Load(loads, transfers[t].dest) + 1];
        }
        forall d ensures Load(loads, d) == OpenAmong(transfers, seen + {t}, d) {
          CountOneMore(transfers, seen, t, d);
        }
      }
      forall d ensures Load(loads, d) == |OpenTo(transfers, d)| {
        assert OpenTo(transfers, d) * (transfers.Keys - todo) == OpenTo(transfers, d);
      }
    }

    method CopiesByBranch(ids: seq<CopyId>, branches: seq<BranchId>) returns (available: map<BranchId, seq<CopyId>>)
      requires bookRepo.Valid()
      ensures available.Keys == set b | b in branches
      ensures forall b :: b in branches ==> available[b] == AvailableAt(ids, bookRepo.view, b)
    {
      available := map b | b in branches :: [];
      for i := 0 to |ids|
        invariant available.Keys == set b | b in branches
        invariant forall b :: b in branches ==> available[b] == AvailableAt(ids[..i], bookRepo.view, b)
      {
        assert ids[..i + 1][..i] == ids[..i];
        if ids[i] in bookRepo.copies {
          var copy := bookRepo.copies[ids[i]];
          if copy.branchId in available && copy.status == AVAILABLE {
            available := available[copy.branchId := available[copy.branchId] + [ids[i]]];
          }
        }
      }
      assert ids[..|ids|] == ids;
    }

    /** A candidate of one title, for one of these destinations. */
    ghost predicate CandidateOf(x: Candidate, s: Survey, isbn: Isbn, dests: seq<BranchId>)
      reads bookRepo, branchMgr
    {
      x.dest in dests && x.isbn == isbn && IsCandidate(x, View(), s.(isbns := [isbn]))
    }

    method PushTitle(heap: MoveHeap, s: Survey, isbn: Isbn, inFlight: Loads) returns (r: MoveHeap)
      requires bookRepo.Valid() && IsMoveHeap(heap) && Counts(inFlight, branchMgr.transfers)
      requires isbn in bookRepo.titles && bookRepo.titles[isbn].Physical?
      ensures IsMoveHeap(r)
      ensures forall x :: Holds(r, x) ==> Holds(heap, x) || CandidateOf(x, s, isbn, s.branches)
      ensures forall x :: Holds(heap, x) || CandidateOf(x, s, isbn, s.branches) ==> Holds(r, x)
    {
      r := heap;
      var available := CopiesByBranch(bookRepo.titles[isbn].copyIds, s.branches);
      for i := 0 to |s.branches|
        invariant IsMoveHeap(r)
        invariant forall x :: Holds(r, x) ==> Holds(heap, x) || CandidateOf(x, s, isbn, s.branches[..i])
        invariant forall x :: Holds(heap, x) || CandidateOf(x, s, isbn, s.branches[..i]) ==> Holds(r, x)
      {
        var dest := s.branches[i];
        assert s.branches[..i + 1] == s.branches[..i] + [dest];
        assert Load(inFlight, dest) == |OpenTo(branchMgr.transfers, dest)|;
        if Load(inFlight, dest) >= s.cap {
          continue;
        }
        if !NeedsStock(s.demand(isbn, dest), |available[dest]|) {
          continue;
        }
        r := PushOffers(r, s, isbn, dest, available);
        forall x: Candidate | x.dest == dest ensures CandidateOf(x, s, isbn, [dest]) <==> OfferedBy(s.branches, x, s, isbn, dest, available) {
        }
      }
      assert s.branches[..|s.branches|] == s.branches;
    }

    method CalculateRebalancingPlan(s: Survey) returns (plan: seq<Candidate>)
      requires bookRepo.Valid() && s.cap == maxTransfersPerBranch
      ensures IsPlan(plan, View(), s)
    {
      var inFlight := CountInFlight(s.branches);
      var heap: MoveHeap := [];
      for i := 0 to |s.isbns|
        invariant IsMoveHeap(heap)
        invariant forall x :: Holds(heap, x) ==> x.isbn in s.isbns[..i] && IsCandidate(x, View(), s)
        invariant forall x: Candidate :: x.isbn in s.isbns[..i] && IsCandidate(x, View(), s) ==> Holds(heap, x)
      {
        var isbn := s.isbns[i];
        assert s.isbns[..i + 1] == s.isbns[..i] + [isbn];
        if isbn !in bookRepo.titles || bookRepo.titles[isbn].Digital? {
          continue;
        }
        heap := PushTitle(heap, s, isbn, inFlight);
      }
      assert s.isbns[..|s.isbns|] == s.isbns;
      plan := Select(heap, inFlight, s.cap);
      ghost var order :| IsSelection(plan, order, heap, inFlight, s.cap);
      assert IsPass(plan, order, inFlight, View(), s);
    }

    /** `ids` are the ids the transfers get, one kept ready for each move. */
    method ExecuteRebalancingPlan(plan: seq<Candidate>, ids: seq<TransferId>) returns (executed: seq<Transfer>, raised: bool)
      requires bookRepo.Valid() && |ids| == |plan|
      modifies bookRepo, bookRepo.copies.Values, branchMgr
      ensures bookRepo.Valid() && bookRepo.copies == old(bookRepo.copies)
      ensures (executed, raised, View()) == Execute(old(View()), plan, ids)
    {
      executed := [];
      ghost var start := View();
      assert plan[0..] == plan && ids[0..] == ids;
      assert [] + Execute(start, plan, ids).0 == Execute(start, plan, ids).0;
      for i := 0 to |plan|
        invariant bookRepo.Valid() && bookRepo.copies == old(bookRepo.copies)
        invariant Extended(executed, Execute(View(), plan[i..], ids[i..])) == Execute(start, plan, ids)
      {
        ExecuteFrom(View(), plan, ids, i);
        var item := plan[i];
        if item.copyId !in bookRepo.copies || bookRepo.copies[item.copyId].status != AVAILABLE {
          continue;
        }
        var sent := Send(item.copyId, item.dest, ids[i]);
        if sent.Err? {
          assert executed + [] == executed;
          return executed, true;
        }
        ExtendedTwice(executed, sent.value, Execute(View(), plan[i + 1..], ids[i + 1..]));
        executed := executed + [sent.value];
      }
      assert executed + [] == executed;
      raised := false;
    }

    method Send(c: CopyId, dest: BranchId, id: TransferId) returns (sent: Result<Transfer, Error>)
      requires bookRepo.Valid() && c in bookRepo.copies
      modifies bookRepo, bookRepo.copies[c], branchMgr
      ensures bookRepo.Valid() && bookRepo.copies == old(bookRepo.copies)
      ensures (sent, View()) == RequestTransfer(old(View()), c, dest, id)
    {
      var copy := bookRepo.copies[c];
      sent := branchMgr.RequestTransfer(copy, dest, id);
      if sent.Ok? {
        bookRepo.SaveCopy(copy);
      }
    }

    /** Nothing when the transfer or its copy is unknown; an error when it has already arrived. */
    method CompleteTransfer(t: TransferId) returns (r: Option<Result<Transfer, Error>>)
      requires bookRepo.Valid()
      modifies bookRepo, bookRepo.copies.Values, branchMgr
      ensures bookRepo.Valid() && bookRepo.copies == old(bookRepo.copies)
      ensures (r, View()) == Circulation.CompleteTransfer(old(View()), t)
    {
      if t !in branchMgr.transfers {
        return None;
      }
      var c := branchMgr.transfers[t].copyId;
      if c !in bookRepo.copies {
        return None;
      }
      var copy := bookRepo.copies[c];
      var done := branchMgr.CompleteTransfer(t, copy);
      if done.Ok? {
        bookRepo.SaveCopy(copy);
      }
      r := Some(done);
    }
  }

  /** One round of the execution, from the i-th move on. */
  lemma ExecuteFrom(w: World, plan: seq<Candidate>, ids: seq<TransferId>, i: nat)
    requires |ids| == |plan| && i < |plan|
    ensures var c := plan[i].copyId;
            Execute(w, plan[i..], ids[i..]) ==
              if c !in w.copies || w.copies[c].status != AVAILABLE then Execute(w, plan[i + 1..], ids[i + 1..])
              else
                var (sent, w') := RequestTransfer(w, c, plan[i].dest, ids[i]);
                if sent.Err? then ([], true, w') else Extended([sent.value], Execute(w', plan[i + 1..], ids[i + 1..]))
  {
    assert plan[i..][1..] == plan[i + 1..] && ids[i..][1..] == ids[i + 1..];
  }

  function Extended(sent: seq<Transfer>, rest: (seq<Transfer>, bool, World)): (seq<Transfer>, bool, World) {
    (sent + rest.0, rest.1, rest.2)
  }

  lemma ExtendedTwice(sent: seq<Transfer>, next: Transfer, rest: (seq<Transfer>, bool, World))
    ensures Extended(sent, Extended([next], rest)) == Extended(sent + [next], rest)
  {
    assert sent + ([next] + rest.0) == sent + [next] + rest.0;
  }
}
