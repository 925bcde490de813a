/**
  What each operation of the library answers and what it leaves behind, told by the fields of copies, accounts, waiting
  lists and transfers, in every reachable state.
 */
module Outcomes {
  import opened Types
  import opened Domain
  import opened Heaps
  import opened AllocationQueues
  import opened Circulation
  import opened Custody
  import opened LibraryRuns

  // ---- issue

  /** Who gets which copy, and the reason given otherwise. */
  lemma IssueAnswers(w: World, c: CopyId, u: UserId, tx: TransactionId)
    requires Inv(w)
    ensures var answer := Issue(w, c, u, tx).0;
      && (answer == Err(UserNotFound) <==> u !in w.accounts)
      && (answer == Err(UserNotEligible) <==>
            u in w.accounts &&
            (w.accounts[u].suspended || w.accounts[u].fines > 100.0 || |w.accounts[u].active| >= w.accounts[u].limit))
      && (u in w.accounts && !w.accounts[u].suspended && w.accounts[u].fines <= 100.0 && |w.accounts[u].active| < w.accounts[u].limit ==>
            && (answer == Err(CopyNotFound) <==> c !in w.copies)
            && (c in w.copies ==>
                  if w.copies[c].status == AVAILABLE || (w.copies[c].status == RESERVED && w.copies[c].reserver == Some(u))
                  then answer == Ok(BorrowRecord(tx, c, w.copies[c].isbn, u))
                  else answer == Err(CopyUnavailable(w.copies[c].status))))
  {
  }

  /** A lent copy is out with its borrower, whose account, the ledger and the log each gain one entry. */
  lemma IssueLeaves(w: World, c: CopyId, u: UserId, tx: TransactionId)
    requires Inv(w) && Issue(w, c, u, tx).0.Ok?
    ensures c in w.copies && u in w.accounts
    ensures var (copy, account, w') := (w.copies[c], w.accounts[u], Issue(w, c, u, tx).1);
      w' == w.(
        copies := w.copies[c := copy.(status := ISSUED, reserver := None, borrower := Some(u), borrowCount := copy.borrowCount + 1)],
        accounts := w.accounts[u := account.(
          active := account.active + {c}, history := account.history + [Loan(c, copy.isbn, false, false, false)])],
        records := w.records + [BorrowRecord(tx, c, copy.isbn, u)],
        outbox := w.outbox + [Issued(c, copy.isbn, u, tx)],
        titles := w'.titles)
  {
    assert Tidy(w.copies[c]);
  }

  // ---- return

  /** A return is accepted exactly for a copy that is out; what it says is logged, and the account is freed. */
  lemma ReturnLeaves(w: World, c: CopyId, late: bool, damaged: bool)
    requires Inv(w)
    ensures var answer := Return(w, c, late, damaged).0;
      && (answer == Err(CopyNotFound) <==> c !in w.copies)
      && (c in w.copies && w.copies[c].status != ISSUED ==> answer == Err(InvalidTransition))
      && (c in w.copies && w.copies[c].status == ISSUED ==> answer.Ok? && w.copies[c].borrower.Some? && w.copies[c].borrower.value in w.accounts)
    ensures c in w.copies && w.copies[c].status == ISSUED ==>
      var (answer, w') := Return(w, c, late, damaged);
      var u := w.copies[c].borrower.value;
      && w'.outbox == w.outbox + [Returned(c, w.copies[c].isbn, u, late, damaged, answer.value)]
      && w'.accounts.Keys == w.accounts.Keys && (forall v :: v in w.accounts && v != u ==> w'.accounts[v] == w.accounts[v])
      && w'.accounts[u].active == w.accounts[u].active - {c} && |w'.accounts[u].history| == |w.accounts[u].history|
      && w'.records == w.records && w'.transfers == w.transfers && w'.allocation == w.allocation
  {
    if c in w.copies {
      assert Tidy(w.copies[c]);
      if w.copies[c].borrower.Some? {
        ReturnServes(w, c, late, damaged);
        ClosingOneLoan(w.accounts[w.copies[c].borrower.value].history, c, late, damaged, c);
      }
    }
  }

  function UserOf(reservations: Reservations, r: ReservationId): Option<UserId> {
    if r in reservations then Some(reservations[r].user) else None
  }

  /** After a return the user served can take exactly that copy, if in good standing, and nobody else can. */
  lemma ServedUserCanCollect(w: World, c: CopyId, late: bool, damaged: bool, u: UserId, tx: TransactionId)
    requires Inv(w) && c in w.copies && w.copies[c].status == ISSUED && WaitingFor(w.queues, w.copies[c].isbn) != []
    ensures var w' := Return(w, c, late, damaged).1;
      var first := WaitingFor(w.queues, w.copies[c].isbn)[0];
      Issue(w', c, u, tx).0.Ok? <==>
        && UserOf(w.queues.reservations, first) == Some(u) && u in w'.accounts
        && !w'.accounts[u].suspended && w'.accounts[u].fines <= 100.0 && |w'.accounts[u].active| < w'.accounts[u].limit
  {
    assert Tidy(w.copies[c]);
    ReturnServes(w, c, late, damaged);
    ReturnKeepsInv(w, c, late, damaged);
    IssueAnswers(Return(w, c, late, damaged).1, c, u, tx);
  }

  predicate Collects(step: Step, c: CopyId, u: UserId) {
    step.DoIssue? && step.c == c && step.u == u
  }

  /** Only this copy may have changed, and it stands where it stood. */
  ghost predicate ChangesAtMost(before: Copies, after: Copies, c: CopyId) {
    && after.Keys == before.Keys
    && (forall d :: d in before && d != c ==> after[d] == before[d])
    && (c in before ==> after[c].branch == before[c].branch)
  }

  lemma IssueChangesOne(w: World, c: CopyId, u: UserId, tx: TransactionId)
    requires Inv(w)
    ensures ChangesAtMost(w.copies, Issue(w, c, u, tx).1.copies, c) && Issue(w, c, u, tx).1.transfers == w.transfers
    ensures c in w.copies && w.copies[c].status == RESERVED && w.copies[c].reserver != Some(u) ==> Issue(w, c, u, tx).1 == w
  {
    if Issue(w, c, u, tx).0.Ok? {
      IssueLeaves(w, c, u, tx);
      IssueAnswers(w, c, u, tx);
    }
  }

  lemma ReturnChangesOne(w: World, c: CopyId, late: bool, damaged: bool)
    requires Inv(w)
    ensures ChangesAtMost(w.copies, Return(w, c, late, damaged).1.copies, c) && Return(w, c, late, damaged).1.transfers == w.transfers
    ensures c in w.copies && w.copies[c].status != ISSUED ==> Return(w, c, late, damaged).1 == w
  {
    if c in w.copies {
      assert Tidy(w.copies[c]);
      if w.copies[c].borrower.Some? {
        ReturnServes(w, c, late, damaged);
      }
    }
  }

  lemma DropChangesOne(w: World, isbn: Isbn, tx: TransactionId) returns (c: CopyId)
    requires Inv(w)
    ensures ChangesAtMost(w.copies, Drop(w, isbn, tx).1.copies, c) && Drop(w, isbn, tx).1.transfers == w.transfers
    ensures Drop(w, isbn, tx).1.copies != w.copies ==> c in w.copies && w.copies[c].status == AVAILABLE
  {
    c := CopyId("");
    if Drop(w, isbn, tx).0.Some? {
      FirstAvailableIsAvailable(w.titles[isbn].copyIds, w.copies);
      var (request, rest) := AllocationOf(w, isbn).Pop();
      c := FirstAvailable(w.titles[isbn].copyIds, w.copies).value;
      ServiceOrderPops(AllocationOf(w, isbn));
      IssueChangesOne(w.(allocation := w.allocation[isbn := rest]), c, request.value.payload.userId, tx);
    }
  }

  lemma ServiceOrderPops(q: QueueState)
    ensures q.InServiceOrder() ==> q.Pop().1.InServiceOrder()
  {
  }

  /** An issue, a return or a drop. */
  predicate AtTheDesk(step: Step) {
    step.DoIssue? || step.DoReturn? || step.DoDrop?
  }

  predicate OnTheRoad(step: Step) {
    step.DoTransfer? || step.DoComplete?
  }

  lemma DeskKeepsForReserver(w: World, step: Step, c: CopyId)
    requires Inv(w) && AtTheDesk(step) && c in w.copies && w.copies[c].status == RESERVED
    requires w.copies[c].reserver.Some? && !Collects(step, c, w.copies[c].reserver.value)
    ensures c in Next(w, step).copies && Next(w, step).copies[c] == w.copies[c]
  {
    match step
    case DoIssue(d, u, tx) => IssueChangesOne(w, d, u, tx);
    case DoReturn(d, late, damaged) => ReturnChangesOne(w, d, late, damaged);
    case DoDrop(isbn, tx) => var _ := DropChangesOne(w, isbn, tx);
  }

  lemma RoadKeepsForReserver(w: World, step: Step, c: CopyId)
    requires Inv(w) && Enabled(w, step) && OnTheRoad(step) && c in w.copies && w.copies[c].status == RESERVED
    ensures c in Next(w, step).copies && Next(w, step).copies[c] == w.copies[c]
  {
    match step
    case DoTransfer(d, dest, t) => DepartureAnswers(w, d, dest, t);
    case DoComplete(t) =>
      ArrivalAnswers(w, t);
      assert t in w.transfers && !w.transfers[t].completed ==> Carries(w.transfers, t, w.transfers[t].copyId);
  }

  /** All other steps leave the copies alone, except that one may be added. */
  lemma OtherStepsKeepCopies(w: World, step: Step)
    requires Enabled(w, step) && !AtTheDesk(step) && !OnTheRoad(step)
    ensures Next(w, step).transfers == w.transfers
    ensures forall c :: c in w.copies ==> c in Next(w, step).copies && Next(w, step).copies[c] == w.copies[c]
    ensures forall c :: c in Next(w, step).copies && c !in w.copies ==>
      step.DoAddCopy? && step.c == c && AddCopy(w, step.isbn, c, step.branch).0.None? && Next(w, step).copies[c].branch == step.branch
  {
    if step.DoAddCopy? {
      AddCopyAnswers(w, step.isbn, step.c, step.branch);
    }
  }

  lemma StepKeepsForReserver(w: World, step: Step, c: CopyId)
    requires Inv(w) && Enabled(w, step) && c in w.copies && w.copies[c].status == RESERVED
    requires w.copies[c].reserver.Some? && !Collects(step, c, w.copies[c].reserver.value)
    ensures c in Next(w, step).copies && Next(w, step).copies[c] == w.copies[c]
  {
    if AtTheDesk(step) {
      DeskKeepsForReserver(w, step, c);
    } else if OnTheRoad(step) {
      RoadKeepsForReserver(w, step, c);
    } else {
      OtherStepsKeepCopies(w, step);
    }
  }

  /** A copy kept for somebody stays as it is until that user collects it, whatever else is done meanwhile. */
  lemma {:induction false} KeptUntilCollected(w: World, steps: seq<Step>, c: CopyId)
    requires Inv(w) && c in w.copies && w.copies[c].status == RESERVED && w.copies[c].reserver.Some?
    requires forall i :: 0 <= i < |steps| ==> !Collects(steps[i], c, w.copies[c].reserver.value)
    ensures c in Play(w, steps).copies && Play(w, steps).copies[c] == w.copies[c]
  {
    if steps != [] {
      var before, step := steps[..|steps| - 1], steps[|steps| - 1];
      KeptUntilCollected(w, before, c);
      EveryRunKeepsInv(w, before);
      if Enabled(Play(w, before), step) {
        StepKeepsForReserver(Play(w, before), step, c);
      }
    }
  }

  // ---- waiting lists

  /** Somebody new goes to the back of the line; somebody waiting keeps the place held, and nothing changes. */
  lemma ReserveAnswers(w: World, isbn: Isbn, u: UserId, added: ReservationId)
    requires Inv(w) && added !in w.queues.reservations
    ensures var (answer, w') := ReserveTitle(w, isbn, u, added);
      var line := WaitingFor(w.queues, isbn);
      && (forall i :: 0 <= i < |line| && UserOf(w.queues.reservations, line[i]) == Some(u) ==>
            answer == line[i] && WaitingFor(w'.queues, isbn) == line && w'.queues.reservations == w.queues.reservations)
      && ((forall i :: 0 <= i < |line| ==> UserOf(w.queues.reservations, line[i]) != Some(u)) ==>
            && answer == added && WaitingFor(w'.queues, isbn) == line + [added]
            && w'.queues.reservations == w.queues.reservations[added := Reservation(isbn, u, PENDING, None)])
      && (forall other :: other != isbn ==> WaitingFor(w'.queues, other) == WaitingFor(w.queues, other))
      && w' == w.(queues := w'.queues, accepted := w'.accepted)
  {
    var line, reservations := WaitingFor(w.queues, isbn), w.queues.reservations;
    assert FifoAt(w.accepted, w.outbox, w.queues, isbn);
    forall i | 0 <= i < |line| ensures line[i] in reservations {
      assert IsPending(reservations, line[i]);
    }
    NotFoundMeansAbsent(line, reservations, isbn, u);
    forall i | 0 <= i < |line| && UserOf(reservations, line[i]) == Some(u) ensures FindWaiting(line, reservations, u) == Some(line[i]) {
      OwnPlaceIsFound(line, reservations, isbn, u, i);
    }
  }

  lemma {:induction false} OwnPlaceIsFound(line: seq<ReservationId>, reservations: Reservations, isbn: Isbn, u: UserId, i: nat)
    requires LineOk(line, reservations, isbn) && i < |line| && line[i] in reservations && reservations[line[i]].user == u
    ensures FindWaiting(line, reservations, u) == Some(line[i])
  {
    assert IsPending(reservations, line[0]) && IsPending(reservations, line[i]);
    if i > 0 {
      assert reservations[line[0]].user != reservations[line[i]].user;
      OwnPlaceIsFound(line[1..], reservations, isbn, u, i - 1);
    }
  }

  // ---- smart allocation

  /** A drop gives the first listed copy that is available to the first in line, if in good standing. */
  lemma DropAnswers(w: World, isbn: Isbn, tx: TransactionId)
    requires Inv(w)
    ensures var answer := Drop(w, isbn, tx).0;
      var line := AllocationOf(w, isbn).pending;
      var ids := if isbn in w.titles && w.titles[isbn].Physical? then w.titles[isbn].copyIds else [];
      && (answer.None? <==> line == [] || forall i :: 0 <= i < |ids| ==> w.copies[ids[i]].status != AVAILABLE)
      && (answer.Some? ==>
            && var u := line[0].payload.userId;
            && (answer.value.Ok? <==>
                  && u in w.accounts && !w.accounts[u].suspended && w.accounts[u].fines <= 100.0
                  && |w.accounts[u].active| < w.accounts[u].limit)
            && (answer.value.Ok? ==>
                  && answer.value.value.user == u
                  && exists k :: 0 <= k < |ids| && answer.value.value.copyId == ids[k] && w.copies[ids[k]].status == AVAILABLE &&
                                 forall i :: 0 <= i < k ==> w.copies[ids[i]].status != AVAILABLE))
  {
    var ids := if isbn in w.titles && w.titles[isbn].Physical? then w.titles[isbn].copyIds else [];
    if ids != [] {
      assert ListOk(ids, isbn, w.copies);
    }
    FirstAvailableIsFirst(ids, w.copies);
  }

  lemma {:induction false} FirstAvailableIsFirst(ids: seq<CopyId>, copies: Copies)
    requires forall i :: 0 <= i < |ids| ==> ids[i] in copies
    ensures var r := FirstAvailable(ids, copies);
      && (r.None? <==> forall i :: 0 <= i < |ids| ==> copies[ids[i]].status != AVAILABLE)
      && (r.Some? ==> exists k :: 0 <= k < |ids| && r.value == ids[k] && copies[ids[k]].status == AVAILABLE &&
                                  forall i :: 0 <= i < k ==> copies[ids[i]].status != AVAILABLE)
  {
    if ids != [] && copies[ids[0]].status != AVAILABLE {
      FirstAvailableIsFirst(ids[1..], copies);
      var r := FirstAvailable(ids[1..], copies);
      if r.Some? {
        var k :| 0 <= k < |ids| - 1 && r.value == ids[1..][k] && copies[ids[1..][k]].status == AVAILABLE &&
                 forall i :: 0 <= i < k ==> copies[ids[1..][i]].status != AVAILABLE;
        forall i | 0 <= i < k + 1 ensures copies[ids[i]].status != AVAILABLE {
          assert i > 0 ==> ids[1..][i - 1] == ids[i];
        }
        assert r.value == ids[k + 1];
      } else {
        forall i | 0 <= i < |ids| ensures copies[ids[i]].status != AVAILABLE {
          assert i > 0 ==> ids[1..][i - 1] == ids[i];
        }
      }
    }
  }

  /** A request is taken from every known user and from nobody else. */
  lemma RequestAnswers(w: World, isbn: Isbn, request: Request, priority: real)
    requires Inv(w)
    ensures var (answer, w') := RequestAllocation(w, isbn, request, priority);
      && (answer.None? <==> request.userId in w.accounts)
      && (answer.Some? ==> answer == Some(UserNotFound) && w' == w)
      && (answer.None? ==>
            var before, after := AllocationOf(w, isbn), AllocationOf(w', isbn);
            multiset(after.pending) == multiset(before.pending) + multiset{Item(-priority, before.counter + 1, request)})
  {
    EnqueueKeepsServiceOrder(AllocationOf(w, isbn), request, priority);
  }

  /** A copy can be added exactly to a physical title; it is then available at its branch. */
  lemma AddCopyAnswers(w: World, isbn: Isbn, c: CopyId, branch: BranchId)
    ensures var (answer, w') := AddCopy(w, isbn, c, branch);
      && (answer.None? <==> isbn in w.titles && w.titles[isbn].Physical?)
      && (answer.Some? ==> answer == Some(BookNotFound) && w' == w)
      && (answer.None? ==>
            && w'.copies == w.copies[c := Copy(isbn, branch, AVAILABLE, None, None, None, 0)]
            && isbn in w'.titles && w'.titles[isbn].Physical? && c in w'.titles[isbn].copyIds)
  {
  }

  // ---- transfers

  /** Which copies leave for where, and the reason given otherwise. */
  lemma DepartureAnswers(w: World, c: CopyId, dest: BranchId, t: TransferId)
    ensures var (answer, w') := RequestTransfer(w, c, dest, t);
      && (answer == Err(CopyNotFound) <==> c !in w.copies)
      && (answer == Err(BadTransfer) <==> c in w.copies && (dest !in w.branches || w.copies[c].branch == dest))
      && (answer == Err(InvalidTransition) <==>
            c in w.copies && dest in w.branches && w.copies[c].branch != dest && w.copies[c].status != AVAILABLE)
      && (answer.Err? ==> w' == w)
      && (answer.Ok? ==>
            && answer.value == Transfer(c, w.copies[c].isbn, w.copies[c].branch, dest, false)
            && w'.transfers == w.transfers[t := answer.value]
            && w'.copies == w.copies[c := w.copies[c].(status := IN_TRANSIT, target := Some(dest))])
  {
  }

  /** An open transfer completes, and its copy then stands available at the destination, otherwise as it was. */
  lemma ArrivalAnswers(w: World, t: TransferId)
    requires Inv(w)
    ensures var (answer, w') := CompleteTransfer(w, t);
      && (answer.Some? && answer.value.Ok? <==> t in w.transfers && !w.transfers[t].completed)
      && (!(answer.Some? && answer.value.Ok?) ==> w' == w)
      && (t in w.transfers && !w.transfers[t].completed ==>
            && w.transfers[t].copyId in w.copies
            && answer.value.value == w.transfers[t].(completed := true)
            && w'.transfers == w.transfers[t := w.transfers[t].(completed := true)]
            && w'.copies == w.copies[w.transfers[t].copyId :=
                 w.copies[w.transfers[t].copyId].(status := AVAILABLE, branch := w.transfers[t].dest, target := None)])
  {
    if t in w.transfers && !w.transfers[t].completed {
      assert Carries(w.transfers, t, w.transfers[t].copyId);
    }
  }

  /** Sending a copy and letting it arrive changes where it stands and nothing else about any copy. */
  lemma TransferMovesTheCopy(w: World, c: CopyId, dest: BranchId, t: TransferId)
    requires Inv(w) && t !in w.transfers && RequestTransfer(w, c, dest, t).0.Ok?
    ensures CompleteTransfer(RequestTransfer(w, c, dest, t).1, t).1.copies == w.copies[c := w.copies[c].(branch := dest)]
  {
    var w' := RequestTransfer(w, c, dest, t).1;
    assert Tidy(w.copies[c]);
    DepartureAnswers(w, c, dest, t);
    TransferKeepsInv(w, c, dest, t);
    ArrivalAnswers(w', t);
  }

  /** The branch the copy was added at, or the destination of the last transfer it completed. */
  function LastPlace(steps: seq<Step>, c: CopyId): Option<BranchId> {
    if steps == [] then None
    else
      var (w, before) := (Play(EMPTY, steps[..|steps| - 1]), LastPlace(steps[..|steps| - 1], c));
      match steps[|steps| - 1]
      case DoAddCopy(isbn, d, branch) => if d == c && c !in w.copies && AddCopy(w, isbn, d, branch).0.None? then Some(branch) else before
      case DoComplete(t) =>
        (match CompleteTransfer(w, t).0
         case Some(Ok(transfer)) => if transfer.copyId == c then Some(transfer.dest) else before
         case _ => before)
      case _ => before
  }

  /** An open transfer starts where its copy still stands. */
  ghost predicate SourcesOk(copies: Copies, transfers: Transfers) {
    forall t, c :: Carries(transfers, t, c) ==> c in copies && copies[c].branch == transfers[t].source
  }

  /** Every copy stands where it stood, there is no other, and no transfer has changed. */
  ghost predicate StaysPut(w: World, w': World) {
    && w'.copies.Keys == w.copies.Keys && w'.transfers == w.transfers
    && forall c :: c in w.copies ==> w'.copies[c].branch == w.copies[c].branch
  }

  lemma IssueStaysPut(w: World, c: CopyId, u: UserId, tx: TransactionId)
    requires Inv(w)
    ensures StaysPut(w, Issue(w, c, u, tx).1)
  {
    IssueChangesOne(w, c, u, tx);
  }

  lemma ReturnStaysPut(w: World, c: CopyId, late: bool, damaged: bool)
    requires Inv(w)
    ensures StaysPut(w, Return(w, c, late, damaged).1)
  {
    ReturnChangesOne(w, c, late, damaged);
  }

  lemma DropStaysPut(w: World, isbn: Isbn, tx: TransactionId)
    requires Inv(w)
    ensures StaysPut(w, Drop(w, isbn, tx).1)
  {
    var _ := DropChangesOne(w, isbn, tx);
  }

  lemma DeskKeepsPlaces(w: World, step: Step)
    requires Inv(w) && AtTheDesk(step)
    ensures StaysPut(w, Next(w, step))
  {
    match step
    case DoIssue(c, u, tx) => IssueStaysPut(w, c, u, tx);
    case DoReturn(c, late, damaged) => ReturnStaysPut(w, c, late, damaged);
    case DoDrop(isbn, tx) => DropStaysPut(w, isbn, tx);
  }

  lemma DepartureKeepsSources(w: World, c: CopyId, dest: BranchId, t: TransferId)
    requires Inv(w) && t !in w.transfers && SourcesOk(w.copies, w.transfers)
    ensures SourcesOk(RequestTransfer(w, c, dest, t).1.copies, RequestTransfer(w, c, dest, t).1.transfers)
  {
    var w' := RequestTransfer(w, c, dest, t).1;
    DepartureAnswers(w, c, dest, t);
    forall s, d | Carries(w'.transfers, s, d) ensures d in w'.copies && w'.copies[d].branch == w'.transfers[s].source {
      assert Carries(w.transfers, s, d) || (s == t && d == c);
    }
  }

  lemma ArrivalKeepsSources(w: World, t: TransferId)
    requires Inv(w) && SourcesOk(w.copies, w.transfers)
    ensures SourcesOk(CompleteTransfer(w, t).1.copies, CompleteTransfer(w, t).1.transfers)
  {
    var w' := CompleteTransfer(w, t).1;
    ArrivalAnswers(w, t);
    if w' != w {
      assert Carries(w.transfers, t, w.transfers[t].copyId);
      forall s, d | Carries(w'.transfers, s, d) ensures d in w'.copies && w'.copies[d].branch == w'.transfers[s].source {
        assert Carries(w.transfers, s, d) && s != t;
      }
    }
  }

  lemma StepKeepsSources(w: World, step: Step)
    requires Inv(w) && Enabled(w, step) && SourcesOk(w.copies, w.transfers)
    ensures SourcesOk(Next(w, step).copies, Next(w, step).transfers)
  {
    if AtTheDesk(step) {
      DeskKeepsPlaces(w, step);
    } else if OnTheRoad(step) {
      match step
      case DoTransfer(c, dest, t) => DepartureKeepsSources(w, c, dest, t);
      case DoComplete(t) => ArrivalKeepsSources(w, t);
    } else {
      OtherStepsKeepCopies(w, step);
    }
  }

  lemma {:induction false} EveryRunKeepsSources(steps: seq<Step>)
    ensures Inv(Play(EMPTY, steps)) && SourcesOk(Play(EMPTY, steps).copies, Play(EMPTY, steps).transfers)
  {
    EmptyLibraryIsSound();
    EveryRunKeepsInv(EMPTY, steps);
    if steps != [] {
      EveryRunKeepsSources(steps[..|steps| - 1]);
      if Enabled(Play(EMPTY, steps[..|steps| - 1]), steps[|steps| - 1]) {
        StepKeepsSources(Play(EMPTY, steps[..|steps| - 1]), steps[|steps| - 1]);
      }
    }
  }

  /** A step other than an arrival leaves a copy where it is. */
  lemma StepLeavesAt(w: World, step: Step, c: CopyId)
    requires Inv(w) && Enabled(w, step) && c in w.copies && !step.DoComplete?
    ensures c in Next(w, step).copies && Next(w, step).copies[c].branch == w.copies[c].branch
  {
    if AtTheDesk(step) {
      DeskKeepsPlaces(w, step);
    } else if OnTheRoad(step) {
      DepartureAnswers(w, step.c, step.dest, step.t);
    } else {
      OtherStepsKeepCopies(w, step);
    }
  }

  /** Only adding a copy brings one in. */
  lemma StepBringsIn(w: World, step: Step, c: CopyId)
    requires Inv(w) && Enabled(w, step) && c !in w.copies && c in Next(w, step).copies
    ensures step.DoAddCopy? && step.c == c && AddCopy(w, step.isbn, c, step.branch).0.None?
    ensures Next(w, step).copies[c].branch == step.branch
  {
    if AtTheDesk(step) {
      DeskKeepsPlaces(w, step);
    } else if OnTheRoad(step) {
      match step
      case DoTransfer(d, dest, t) => DepartureAnswers(w, d, dest, t);
      case DoComplete(t) => ArrivalAnswers(w, t);
    } else {
      OtherStepsKeepCopies(w, step);
    }
  }

  /** In every run a copy stands where it was added or was last sent to and arrived, and while in transit at its transfer's source. */
  lemma {:induction false} CopiesStandWhereSent(steps: seq<Step>, c: CopyId)
    requires c in Play(EMPTY, steps).copies
    ensures var w := Play(EMPTY, steps);
      && LastPlace(steps, c) == Some(w.copies[c].branch)
      && forall t :: Carries(w.transfers, t, c) ==> w.copies[c].branch == w.transfers[t].source
  {
    EveryRunKeepsSources(steps);
    if steps != [] {
      var before, step := steps[..|steps| - 1], steps[|steps| - 1];
      var w := Play(EMPTY, before);
      EveryRunKeepsSources(before);
      if c in w.copies {
        CopiesStandWhereSent(before, c);
        if Enabled(w, step) && step.DoComplete? {
          ArrivalAnswers(w, step.t);
        } else if Enabled(w, step) {
          StepLeavesAt(w, step, c);
        }
      } else {
        StepBringsIn(w, step, c);
      }
    }
  }
}
