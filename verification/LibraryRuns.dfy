/** The joint invariant over every run of the library, and what it says to users, librarians and readers of the log. */
module LibraryRuns {
  import opened Types
  import opened Domain
  import opened AllocationQueues
  import opened Circulation
  import opened Custody

  ghost predicate ListOk(ids: seq<CopyId>, isbn: Isbn, copies: Copies) {
    && (forall i :: 0 <= i < |ids| ==> ids[i] in copies && copies[ids[i]].isbn == isbn)
    && (forall i, j :: 0 <= i < j < |ids| ==> ids[i] != ids[j])
  }

  /** A title lists copies of its own, each once. */
  ghost predicate TitlesOk(titles: map<Isbn, Title>, copies: Copies) {
    forall isbn :: isbn in titles && titles[isbn].Physical? ==> ListOk(titles[isbn].copyIds, isbn, copies)
  }

  ghost predicate AllocationOk(allocation: map<Isbn, QueueState>) {
    forall isbn :: isbn in allocation ==> allocation[isbn].InServiceOrder()
  }

  ghost predicate Inv(w: World) {
    && CustodyOk(w.copies, w.accounts)
    && LogOk(w.copies, w.outbox, w.queues.reservations)
    && w.records == Borrows(w.outbox)
    && FifoOk(w.accepted, w.outbox, w.queues)
    && TransitOk(w.copies, w.transfers)
    && TitlesOk(w.titles, w.copies)
    && AllocationOk(w.allocation)
  }

  lemma SavingKeepsTitles(titles: map<Isbn, Title>, copies: Copies, c: CopyId, copy: Copy)
    requires TitlesOk(titles, copies) && (c in copies ==> copies[c].isbn == copy.isbn)
    ensures TitlesOk(Listed(titles, copy.isbn, c), copies[c := copy])
  {
    var titles' := Listed(titles, copy.isbn, c);
    forall isbn | isbn in titles' && titles'[isbn].Physical? ensures ListOk(titles'[isbn].copyIds, isbn, copies[c := copy]) {
      assert ListOk(titles[isbn].copyIds, isbn, copies);
    }
  }

  lemma IssueKeepsInv(w: World, c: CopyId, u: UserId, tx: TransactionId)
    requires Inv(w)
    ensures Inv(Issue(w, c, u, tx).1)
  {
    if IssueError(w, c, u).None? {
      var copy := w.copies[c].CheckOut(u).value;
      var e := Issued(c, copy.isbn, u, tx);
      assert Shows(Replay(w.outbox, c), c, w.copies[c], w.queues.reservations);
      IssueKeepsCustody(w.copies, w.accounts, c, u);
      EventKeepsLog(w.copies, w.outbox, w.queues.reservations, e, copy, w.queues.reservations);
      LogAppends(w.outbox, e, c);
      IssueEventKeepsFifo(w.accepted, w.outbox, w.queues, e);
      GroundedCopyKeepsTransit(w.copies, w.transfers, c, copy);
      SavingKeepsTitles(w.titles, w.copies, c, copy);
    }
  }

  /** What a return of a lent copy makes of the copy and of its title's waiting list. */
  lemma ReturnServes(w: World, c: CopyId, late: bool, damaged: bool)
    requires Inv(w) && c in w.copies && w.copies[c].borrower.Some?
    ensures Return(w, c, late, damaged).0.Ok?
    ensures var line := WaitingFor(w.queues, w.copies[c].isbn);
            var (result, w') := Return(w, c, late, damaged);
            var back := w.copies[c].(status := AVAILABLE, borrower := None);
            && c in w'.copies
            && (line == [] ==> result.value.None? && w'.copies[c] == back && w'.queues == w.queues)
            && (line != [] ==>
                  && result.value == Some(line[0])
                  && IsPending(w.queues.reservations, line[0])
                  && var r := w.queues.reservations[line[0]];
                  && w'.copies[c] == back.(status := RESERVED, reserver := Some(r.user))
                  && WaitingFor(w'.queues, w.copies[c].isbn) == line[1..]
                  && w'.queues.reservations == w.queues.reservations[line[0] := r.(status := READY_FOR_PICKUP, copyId := Some(c))])
  {
    assert Tidy(w.copies[c]);
    assert FifoAt(w.accepted, w.outbox, w.queues, w.copies[c].isbn);
    HeadIsServed(w.queues, w.copies[c].isbn, c);
  }

  lemma ReturnKeepsInv(w: World, c: CopyId, late: bool, damaged: bool)
    requires Inv(w)
    ensures Inv(Return(w, c, late, damaged).1)
  {
    if c in w.copies && w.copies[c].borrower.Some? {
      var (result, w') := Return(w, c, late, damaged);
      ReturnServes(w, c, late, damaged);
      var isbn, u, copy := w.copies[c].isbn, w.copies[c].borrower.value, w'.copies[c];
      var e := Returned(c, isbn, u, late, damaged, result.value);
      assert Tidy(w.copies[c]) && Shows(Replay(w.outbox, c), c, w.copies[c], w.queues.reservations);
      ReturnKeepsCustody(w.copies, w.accounts, c, copy, late, damaged);
      EventKeepsLog(w.copies, w.outbox, w.queues.reservations, e, copy, w'.queues.reservations);
      LogAppends(w.outbox, e, c);
      ServingKeepsFifo(w.accepted, w.outbox, w.queues, e);
      GroundedCopyKeepsTransit(w.copies, w.transfers, c, copy);
      SavingKeepsTitles(w.titles, w.copies, c, copy);
    }
  }

  lemma ReserveKeepsInv(w: World, isbn: Isbn, u: UserId, added: ReservationId)
    requires Inv(w) && added !in w.queues.reservations
    ensures Inv(ReserveTitle(w, isbn, u, added).1)
  {
    ReserveKeepsFifo(w, isbn, u, added);
    var w' := ReserveTitle(w, isbn, u, added).1;
    forall c | c in w.copies ensures Shows(Replay(w.outbox, c), c, w.copies[c], w'.queues.reservations) {
      assert Shows(Replay(w.outbox, c), c, w.copies[c], w.queues.reservations);
    }
  }

  lemma RequestKeepsInv(w: World, isbn: Isbn, request: Request, priority: real)
    requires Inv(w)
    ensures Inv(RequestAllocation(w, isbn, request, priority).1)
  {
    EnqueueKeepsServiceOrder(AllocationOf(w, isbn), request, priority);
  }

  lemma DropKeepsInv(w: World, isbn: Isbn, tx: TransactionId)
    requires Inv(w)
    ensures Inv(Drop(w, isbn, tx).1)
  {
    if isbn in w.titles && w.titles[isbn].Physical? && AllocationOf(w, isbn).pending != [] {
      var available := FirstAvailable(w.titles[isbn].copyIds, w.copies);
      if available.Some? {
        var (request, rest) := AllocationOf(w, isbn).Pop();
        IssueKeepsInv(w.(allocation := w.allocation[isbn := rest]), available.value, request.value.payload.userId, tx);
      }
    }
  }

  lemma TransferKeepsInv(w: World, c: CopyId, dest: BranchId, t: TransferId)
    requires Inv(w) && t !in w.transfers
    ensures Inv(RequestTransfer(w, c, dest, t).1)
  {
    var (result, w') := RequestTransfer(w, c, dest, t);
    if result.Ok? {
      var copy := w.copies[c].StartTransfer(dest).value;
      SameBorrowerKeepsCustody(w.copies, w.accounts, c, copy);
      QuietCopyKeepsLog(w.copies, w.outbox, w.queues.reservations, c, copy);
      DepartureKeepsTransit(w.copies, w.transfers, c, copy, t, result.value);
      SavingKeepsTitles(w.titles, w.copies, c, copy);
    }
  }

  lemma CompleteKeepsInv(w: World, t: TransferId)
    requires Inv(w)
    ensures Inv(CompleteTransfer(w, t).1)
  {
    var (result, w') := CompleteTransfer(w, t);
    if result.Some? && result.value.Ok? {
      var c := w.transfers[t].copyId;
      var copy := w.copies[c].CompleteTransfer().value;
      assert Carries(w.transfers, t, c);
      SameBorrowerKeepsCustody(w.copies, w.accounts, c, copy);
      QuietCopyKeepsLog(w.copies, w.outbox, w.queues.reservations, c, copy);
      ArrivalKeepsTransit(w.copies, w.transfers, c, copy, t);
      SavingKeepsTitles(w.titles, w.copies, c, copy);
    }
  }

  lemma AddCopyKeepsInv(w: World, isbn: Isbn, c: CopyId, branch: BranchId)
    requires Inv(w) && c !in w.copies
    ensures Inv(AddCopy(w, isbn, c, branch).1)
  {
    if AddCopy(w, isbn, c, branch).0.None? {
      var copy := Copy(isbn, branch, AVAILABLE, None, None, None, 0);
      SameBorrowerKeepsCustody(w.copies, w.accounts, c, copy);
      QuietCopyKeepsLog(w.copies, w.outbox, w.queues.reservations, c, copy);
      GroundedCopyKeepsTransit(w.copies, w.transfers, c, copy);
      SavingKeepsTitles(w.titles, w.copies, c, copy);
    }
  }

  lemma NextKeepsInv(w: World, step: Step)
    requires Inv(w) && Enabled(w, step)
    ensures Inv(Next(w, step))
  {
    match step
    case DoIssue(c, u, tx) => IssueKeepsInv(w, c, u, tx);
    case DoReturn(c, late, damaged) => ReturnKeepsInv(w, c, late, damaged);
    case DoReserve(isbn, u, added) => ReserveKeepsInv(w, isbn, u, added);
    case DoRequest(isbn, request, priority) => RequestKeepsInv(w, isbn, request, priority);
    case DoDrop(isbn, tx) => DropKeepsInv(w, isbn, tx);
    case DoTransfer(c, dest, t) => TransferKeepsInv(w, c, dest, t);
    case DoComplete(t) => CompleteKeepsInv(w, t);
    case DoRegister(isbn, _, _) =>
    case DoAddCopy(isbn, c, branch) => AddCopyKeepsInv(w, isbn, c, branch);
    case DoAddUser(u, limit) => AccountKeepsCustody(w.copies, w.accounts, u, Account(limit, false, 0.0, {}, []));
    case DoAccount(u, fines, suspended) =>
      AccountKeepsCustody(w.copies, w.accounts, u, w.accounts[u].(fines := fines, suspended := suspended));
    case DoAddBranch(branch) =>
  }

  lemma {:induction false} EveryRunKeepsInv(w: World, steps: seq<Step>)
    requires Inv(w)
    ensures Inv(Play(w, steps))
  {
    if steps != [] {
      var t, step := Play(w, steps[..|steps| - 1]), steps[|steps| - 1];
      EveryRunKeepsInv(w, steps[..|steps| - 1]);
      if Enabled(t, step) {
        NextKeepsInv(t, step);
      }
    }
  }

  lemma EmptyLibraryIsSound()
    ensures Inv(EMPTY)
  {
    forall isbn ensures FifoAt(EMPTY.accepted, EMPTY.outbox, EMPTY.queues, isbn) {}
  }

  // ---- custody, read off any reachable state

  /** Issued means held by exactly the borrower, who alone has one open loan of the copy. */
  lemma EachIssuedCopyHasOneHolder(steps: seq<Step>, c: CopyId, u: UserId)
    requires var w := Play(EMPTY, steps); c in w.copies && u in w.accounts
    ensures var w := Play(EMPTY, steps);
            && (w.copies[c].status == ISSUED <==> w.copies[c].borrower.Some?)
            && (w.copies[c].borrower.Some? ==> w.copies[c].borrower.value in w.accounts)
            && (c in w.accounts[u].active <==> w.copies[c].borrower == Some(u))
            && OpenLoans(w.accounts[u].history, c) == (if w.copies[c].borrower == Some(u) then 1 else 0)
            && |w.accounts[u].active| <= (if w.accounts[u].limit > 0 then w.accounts[u].limit else 0)
  {
    EmptyLibraryIsSound();
    EveryRunKeepsInv(EMPTY, steps);
    var w := Play(EMPTY, steps);
    assert Tidy(w.copies[c]) && AccountOk(w.accounts[u]);
    assert Holds(w.accounts, u, c) <==> c in w.accounts[u].active;
    if w.copies[c].borrower == Some(u) {
      assert Holds(w.accounts, u, c);
    }
  }

  lemma {:induction false} ClosingNeedsAnOpenLoan(history: seq<Loan>, c: CopyId, late: bool, damaged: bool)
    ensures Closed(history, c, late, damaged) == history <==> OpenLoans(history, c) == 0
  {
    if OpenLoans(history, c) > 0 {
      ClosingOneLoan(history, c, late, damaged, c);
    } else if history != [] {
      ClosingNeedsAnOpenLoan(history[..|history| - 1], c, late, damaged);
    }
  }

  /** Whether an account still shows a copy that is brought back. */
  predicate StillShows(accounts: Accounts, u: UserId, c: CopyId) {
    u in accounts && (c in accounts[u].active || OpenLoans(accounts[u].history, c) > 0)
  }

  lemma AccountChangesIff(accounts: Accounts, u: UserId, c: CopyId, late: bool, damaged: bool)
    ensures AfterUserReturn(accounts, u, c, late, damaged) != accounts <==> StillShows(accounts, u, c)
  {
    if u in accounts {
      var a := accounts[u];
      ClosingNeedsAnOpenLoan(a.history, c, late, damaged);
      assert a.RecordReturn(c, late, damaged) == a <==> c !in a.active && OpenLoans(a.history, c) == 0;
      assert AfterUserReturn(accounts, u, c, late, damaged)[u] == a.RecordReturn(c, late, damaged);
    }
  }

  /** A return raises and yet leaves a trace exactly when a lent copy cannot come back and the borrower's account shows it. */
  lemma FailedReturnLeavesTraceIff(w: World, c: CopyId, late: bool, damaged: bool)
    ensures Return(w, c, late, damaged).0.Err? && Return(w, c, late, damaged).1 != w <==>
      && c in w.copies && w.copies[c].borrower.Some?
      && w.copies[c].status != ISSUED && w.copies[c].status != RESERVED
      && StillShows(w.accounts, w.copies[c].borrower.value, c)
  {
    if c in w.copies && w.copies[c].borrower.Some? {
      AccountChangesIff(w.accounts, w.copies[c].borrower.value, c, late, damaged);
    }
  }

  /** In a reachable state a failed return or issue changes nothing. */
  lemma FailureChangesNothing(steps: seq<Step>, c: CopyId, late: bool, damaged: bool, u: UserId, tx: TransactionId)
    ensures var w := Play(EMPTY, steps);
            && (Return(w, c, late, damaged).0.Err? ==> Return(w, c, late, damaged).1 == w)
            && (Issue(w, c, u, tx).0.Err? ==> Issue(w, c, u, tx).1 == w)
            && (Return(w, c, late, damaged).0.Ok? <==> c in w.copies && w.copies[c].status == ISSUED)
  {
    EmptyLibraryIsSound();
    EveryRunKeepsInv(EMPTY, steps);
    var w := Play(EMPTY, steps);
    if c in w.copies {
      assert Tidy(w.copies[c]);
      if w.copies[c].borrower.Some? {
        ReturnServes(w, c, late, damaged);
      }
    }
  }

  /** Marking an issued copy lost, which no service does, keeps its borrower: the return then fails halfway. */
  lemma LostCopyReturnsHalfway(c: CopyId, u: UserId, isbn: Isbn, branch: BranchId)
    ensures var copy := Copy(isbn, branch, ISSUED, Some(u), None, None, 1).MarkLost();
            var account := Account(3, false, 0.0, {c}, [Loan(c, isbn, false, false, false)]);
            var w := EMPTY.(copies := map[c := copy], accounts := map[u := account]);
            var (result, w') := Return(w, c, false, false);
            result == Err(InvalidTransition) && w'.accounts[u].active == {} && w'.copies[c].borrower == Some(u)
  {
  }

  lemma BorrowThenReturn(a: Account, c: CopyId, isbn: Isbn, late: bool, damaged: bool)
    requires c !in a.active
    ensures a.AddBorrow(c, isbn).RecordReturn(c, late, damaged).active == a.active
    ensures a.AddBorrow(c, isbn).RecordReturn(c, late, damaged).history == a.history + [Loan(c, isbn, true, late, damaged)]
  {
    assert (a.history + [Loan(c, isbn, false, false, false)])[..|a.history|] == a.history;
    assert a.active + {c} - {c} == a.active;
  }

  /** Returning what was just issued gives back the copy, one borrowing older, and leaves one closed loan behind. */
  lemma ReturnUndoesIssue(w: World, c: CopyId, u: UserId, tx: TransactionId, late: bool, damaged: bool)
    requires Inv(w) && IssueError(w, c, u).None? && WaitingFor(w.queues, w.copies[c].isbn) == []
    ensures Return(Issue(w, c, u, tx).1, c, late, damaged).1.copies ==
      w.copies[c := w.copies[c].(status := AVAILABLE, reserver := None, borrowCount := w.copies[c].borrowCount + 1)]
    ensures Return(Issue(w, c, u, tx).1, c, late, damaged).1.accounts ==
      w.accounts[u := w.accounts[u].(history := w.accounts[u].history + [Loan(c, w.copies[c].isbn, true, late, damaged)])]
    ensures Return(Issue(w, c, u, tx).1, c, late, damaged).1.queues == w.queues
  {
    IssueLends(w, c, u, tx);
    ReturnAfterLoan(w, Issue(w, c, u, tx).1, c, u, late, damaged);
  }

  lemma ReturnAfterLoan(w: World, w': World, c: CopyId, u: UserId, late: bool, damaged: bool)
    requires c in w.copies && u in w.accounts && w.copies[c].borrower.None? && c !in w.accounts[u].active
    requires w'.copies == w.copies[c := w.copies[c].(
      status := ISSUED, reserver := None, borrower := Some(u), borrowCount := w.copies[c].borrowCount + 1)]
    requires w'.accounts == w.accounts[u := w.accounts[u].AddBorrow(c, w.copies[c].isbn)]
    requires w'.queues == w.queues && WaitingFor(w.queues, w.copies[c].isbn) == []
    ensures Return(w', c, late, damaged).1.copies ==
      w.copies[c := w.copies[c].(status := AVAILABLE, reserver := None, borrowCount := w.copies[c].borrowCount + 1)]
    ensures Return(w', c, late, damaged).1.accounts ==
      w.accounts[u := w.accounts[u].(history := w.accounts[u].history + [Loan(c, w.copies[c].isbn, true, late, damaged)])]
    ensures Return(w', c, late, damaged).1.queues == w.queues
  {
    BorrowThenReturn(w.accounts[u], c, w.copies[c].isbn, late, damaged);
    ReturnWithoutWaiters(w', c, u, late, damaged);
    assert w'.copies[c := w'.copies[c].(status := AVAILABLE, borrower := None)] ==
           w.copies[c := w'.copies[c].(status := AVAILABLE, borrower := None)];
    assert w'.accounts[u := w'.accounts[u].RecordReturn(c, late, damaged)] ==
           w.accounts[u := w'.accounts[u].RecordReturn(c, late, damaged)];
  }

  lemma IssueLends(w: World, c: CopyId, u: UserId, tx: TransactionId)
    requires Inv(w) && IssueError(w, c, u).None?
    ensures Issue(w, c, u, tx).1.copies == w.copies[c := w.copies[c].(
      status := ISSUED, reserver := None, borrower := Some(u), borrowCount := w.copies[c].borrowCount + 1)]
    ensures Issue(w, c, u, tx).1.accounts == w.accounts[u := w.accounts[u].AddBorrow(c, w.copies[c].isbn)]
    ensures Issue(w, c, u, tx).1.queues == w.queues
    ensures c !in w.accounts[u].active && w.copies[c].borrower.None?
  {
    assert Tidy(w.copies[c]);
    assert !Holds(w.accounts, u, c);
  }

  lemma ReturnWithoutWaiters(w: World, c: CopyId, u: UserId, late: bool, damaged: bool)
    requires c in w.copies && w.copies[c].status == ISSUED && w.copies[c].borrower == Some(u) && u in w.accounts
    requires WaitingFor(w.queues, w.copies[c].isbn) == []
    ensures Return(w, c, late, damaged).1.copies == w.copies[c := w.copies[c].(status := AVAILABLE, borrower := None)]
    ensures Return(w, c, late, damaged).1.accounts == w.accounts[u := w.accounts[u].RecordReturn(c, late, damaged)]
    ensures Return(w, c, late, damaged).1.queues == w.queues
  {
  }

  // ---- the outbox as a ledger

  function EventsOf(log: seq<Event>, c: CopyId): seq<Event> {
    if log == [] then []
    else EventsOf(log[..|log| - 1], c) + if log[|log| - 1].copyId == c then [log[|log| - 1]] else []
  }

  /** Issued and returned in turn, starting with issued, each return by the user of the issue before it. */
  ghost predicate TakesTurns(es: seq<Event>) {
    && (forall i :: 0 <= i < |es| ==> (es[i].Issued? <==> i % 2 == 0))
    && (forall i :: 0 < i < |es| && i % 2 == 1 ==> es[i].user == es[i - 1].user)
  }

  lemma {:induction false} AlternationPerCopy(log: seq<Event>, c: CopyId)
    requires Alternates(log)
    ensures TakesTurns(EventsOf(log, c))
    ensures var es := EventsOf(log, c);
            && (es == [] ==> Replay(log, c) == Free)
            && (es != [] ==> Replay(log, c) == SeenAfter(es[|es| - 1]))
  {
    if log != [] {
      AlternationPerCopy(log[..|log| - 1], c);
    }
  }

  lemma {:induction false} LastIssuedMeansOdd(es: seq<Event>)
    requires TakesTurns(es)
    ensures es != [] && SeenAfter(es[|es| - 1]).With? <==> |es| % 2 == 1
  {
    if es != [] {
      assert es[|es| - 1].Issued? <==> (|es| - 1) % 2 == 0;
    }
  }

  lemma LogShowsHolder(w: World, c: CopyId)
    requires Inv(w) && c in w.copies
    ensures var seen := Replay(w.outbox, c);
            && (forall u :: w.copies[c].borrower == Some(u) <==> seen == With(u))
            && (w.copies[c].status == ISSUED <==> seen.With?)
            && (w.copies[c].status == RESERVED <==> seen.Held?)
            && (seen.Held? ==>
                  && seen.reservation in w.queues.reservations
                  && w.copies[c].reserver == Some(w.queues.reservations[seen.reservation].user))
  {
    assert Tidy(w.copies[c]) && Shows(Replay(w.outbox, c), c, w.copies[c], w.queues.reservations);
  }

  lemma TurnsTellWhoIsNext(log: seq<Event>, c: CopyId)
    requires Alternates(log)
    ensures TakesTurns(EventsOf(log, c)) && (Replay(log, c).With? <==> |EventsOf(log, c)| % 2 == 1)
  {
    AlternationPerCopy(log, c);
    LastIssuedMeansOdd(EventsOf(log, c));
  }

  /** The log tells who has each copy and which reservation it is kept for, and its events of a copy take turns. */
  lemma LogRebuildsCustody(steps: seq<Step>, c: CopyId)
    requires c in Play(EMPTY, steps).copies
    ensures var w := Play(EMPTY, steps);
            var seen := Replay(w.outbox, c);
            && (forall u :: w.copies[c].borrower == Some(u) <==> seen == With(u))
            && (w.copies[c].status == RESERVED <==> seen.Held?)
            && (seen.Held? ==>
                  && seen.reservation in w.queues.reservations
                  && w.copies[c].reserver == Some(w.queues.reservations[seen.reservation].user))
            && TakesTurns(EventsOf(w.outbox, c))
            && (w.copies[c].status == ISSUED <==> |EventsOf(w.outbox, c)| % 2 == 1)
  {
    EmptyLibraryIsSound();
    EveryRunKeepsInv(EMPTY, steps);
    LogShowsHolder(Play(EMPTY, steps), c);
    TurnsTellWhoIsNext(Play(EMPTY, steps).outbox, c);
  }

  function Total(ids: seq<CopyId>, log: seq<Event>): nat {
    if ids == [] then 0 else IssuedCount(log, ids[0]) + Total(ids[1..], log)
  }

  function BorrowCounts(ids: seq<CopyId>, copies: Copies): nat {
    if ids == [] then 0 else (if ids[0] in copies then copies[ids[0]].borrowCount else 0) + BorrowCounts(ids[1..], copies)
  }

  predicate Distinct(ids: seq<CopyId>) {
    forall i, j :: 0 <= i < j < |ids| ==> ids[i] != ids[j]
  }

  lemma {:induction false} TotalGrowsByOne(ids: seq<CopyId>, log: seq<Event>, e: Event)
    requires Distinct(ids)
    ensures Total(ids, log + [e]) == Total(ids, log) + if e.Issued? && e.copyId in ids then 1 else 0
  {
    if ids != [] {
      TotalGrowsByOne(ids[1..], log, e);
      LogAppends(log, e, ids[0]);
    }
  }

  lemma {:induction false} RecordsAreTotal(ids: seq<CopyId>, log: seq<Event>)
    requires Distinct(ids) && forall i :: 0 <= i < |log| && log[i].Issued? ==> log[i].copyId in ids
    ensures |Borrows(log)| == Total(ids, log)
  {
    if log == [] {
      NothingLoggedNothingCounted(ids);
    } else {
      var n := |log| - 1;
      RecordsAreTotal(ids, log[..n]);
      assert log == log[..n] + [log[n]];
      TotalGrowsByOne(ids, log[..n], log[n]);
    }
  }

  lemma {:induction false} NothingLoggedNothingCounted(ids: seq<CopyId>)
    ensures Total(ids, []) == 0
  {
    if ids != [] {
      NothingLoggedNothingCounted(ids[1..]);
    }
  }

  lemma {:induction false} IssuedIsCounted(log: seq<Event>, i: nat)
    requires i < |log| && log[i].Issued?
    ensures IssuedCount(log, log[i].copyId) > 0
  {
    if i < |log| - 1 {
      IssuedIsCounted(log[..|log| - 1], i);
    }
  }

  lemma {:induction false} CountsMatchLog(ids: seq<CopyId>, w: World)
    requires Inv(w) && forall i :: 0 <= i < |ids| ==> ids[i] in w.copies
    ensures Total(ids, w.outbox) == BorrowCounts(ids, w.copies)
  {
    if ids != [] {
      CountsMatchLog(ids[1..], w);
    }
  }

  /** Ledger entries, issue events and the copies' own counters agree, whatever order the copies are counted in. */
  lemma LedgerMatchesCounters(steps: seq<Step>, ids: seq<CopyId>)
    requires Distinct(ids) && forall c :: c in ids <==> c in Play(EMPTY, steps).copies
    ensures var w := Play(EMPTY, steps);
            w.records == Borrows(w.outbox) && |w.records| == BorrowCounts(ids, w.copies)
  {
    EmptyLibraryIsSound();
    EveryRunKeepsInv(EMPTY, steps);
    var w := Play(EMPTY, steps);
    forall i | 0 <= i < |w.outbox| && w.outbox[i].Issued? ensures w.outbox[i].copyId in ids {
      IssuedIsCounted(w.outbox, i);
    }
    RecordsAreTotal(ids, w.outbox);
    CountsMatchLog(ids, w);
  }

  // ---- reservations

  /** First come, first served: served so far, then still waiting, is the order of acceptance; nobody waits twice. */
  lemma ReservationsAreServedInOrder(steps: seq<Step>, isbn: Isbn)
    ensures var w := Play(EMPTY, steps);
            var line := WaitingFor(w.queues, isbn);
            && AcceptedFor(w.accepted, isbn) == ServedFor(w.outbox, isbn) + line
            && (forall i :: 0 <= i < |line| ==> IsPending(w.queues.reservations, line[i]))
            && (forall i, j :: 0 <= i < j < |line| && IsPending(w.queues.reservations, line[i]) && IsPending(w.queues.reservations, line[j])
                  ==> w.queues.reservations[line[i]].user != w.queues.reservations[line[j]].user)
  {
    EmptyLibraryIsSound();
    EveryRunKeepsInv(EMPTY, steps);
    var w := Play(EMPTY, steps);
    assert FifoAt(w.accepted, w.outbox, w.queues, isbn);
  }

  // ---- smart allocation

  lemma {:induction false} FirstAvailableIsAvailable(ids: seq<CopyId>, copies: Copies)
    ensures var r := FirstAvailable(ids, copies);
            && (r.None? <==> forall i :: 0 <= i < |ids| ==> !(ids[i] in copies && copies[ids[i]].status == AVAILABLE))
            && (r.Some? ==> r.value in ids && r.value in copies && copies[r.value].status == AVAILABLE)
  {
    if ids != [] && !(ids[0] in copies && copies[ids[0]].status == AVAILABLE) {
      FirstAvailableIsAvailable(ids[1..], copies);
      if FirstAvailable(ids[1..], copies).None? {
        forall i | 0 <= i < |ids| ensures !(ids[i] in copies && copies[ids[i]].status == AVAILABLE) {
          if i > 0 {
            assert ids[i] == ids[1..][i - 1];
          }
        }
      }
    }
  }

  /** A drop loses its request exactly when it had a copy to give and the first in line may not borrow. */
  lemma DropLosesRequestIff(w: World, isbn: Isbn, tx: TransactionId)
    ensures var (result, w') := Drop(w, isbn, tx);
            var line := AllocationOf(w, isbn).pending;
            && (result.Some? && result.value.Err? <==>
                  && line != []
                  && isbn in w.titles && w.titles[isbn].Physical?
                  && (exists c :: c in w.titles[isbn].copyIds && c in w.copies && w.copies[c].status == AVAILABLE)
                  && !(line[0].payload.userId in w.accounts && w.accounts[line[0].payload.userId].CanBorrow()))
            && (result.Some? && result.value.Err? ==>
                  w' == w.(allocation := w.allocation[isbn := AllocationOf(w, isbn).Pop().1]))
            && (result.None? ==> w' == w)
            && (result.Some? && result.value.Ok? ==>
                  && line != [] && result.value.value.user == line[0].payload.userId
                  && AllocationOf(w', isbn).pending == line[1..])
  {
    if isbn in w.titles && w.titles[isbn].Physical? {
      FirstAvailableIsAvailable(w.titles[isbn].copyIds, w.copies);
    }
  }

  // ---- the desk does not know the branches: its operations neither read nor change them or their transfers

  function Elsewhere(w: World, branches: set<BranchId>, transfers: Transfers): World {
    w.(branches := branches, transfers := transfers)
  }

  lemma IssueIgnoresTransfers(w: World, branches: set<BranchId>, transfers: Transfers, c: CopyId, u: UserId, tx: TransactionId)
    ensures Issue(Elsewhere(w, branches, transfers), c, u, tx) ==
      (Issue(w, c, u, tx).0, Elsewhere(Issue(w, c, u, tx).1, branches, transfers))
  {
  }

  lemma ReturnIgnoresTransfers(w: World, branches: set<BranchId>, transfers: Transfers, c: CopyId, late: bool, damaged: bool)
    ensures Return(Elsewhere(w, branches, transfers), c, late, damaged) ==
      (Return(w, c, late, damaged).0, Elsewhere(Return(w, c, late, damaged).1, branches, transfers))
  {
  }

  lemma DropIgnoresTransfers(w: World, branches: set<BranchId>, transfers: Transfers, isbn: Isbn, tx: TransactionId)
    ensures Drop(Elsewhere(w, branches, transfers), isbn, tx) ==
      (Drop(w, isbn, tx).0, Elsewhere(Drop(w, isbn, tx).1, branches, transfers))
  {
    var (request, rest) := AllocationOf(w, isbn).Pop();
    if Drop(w, isbn, tx).0.Some? {
      var c, w' := FirstAvailable(w.titles[isbn].copyIds, w.copies).value, w.(allocation := w.allocation[isbn := rest]);
      IssueIgnoresTransfers(w', branches, transfers, c, request.value.payload.userId, tx);
    }
  }

  // ---- titles and their copies

  ghost predicate AllListed(w: World) {
    forall c :: c in w.copies ==>
      && w.copies[c].isbn in w.titles
      && w.titles[w.copies[c].isbn].Physical?
      && c in w.titles[w.copies[c].isbn].copyIds
  }

  lemma SavingKeepsListed(w: World, c: CopyId, copy: Copy)
    requires AllListed(w) && if c in w.copies then w.copies[c].isbn == copy.isbn else copy.isbn in w.titles && w.titles[copy.isbn].Physical?
    ensures AllListed(SaveCopy(w, c, copy))
  {
  }

  lemma SameShelves(w: World, w': World)
    requires w'.copies == w.copies && w'.titles == w.titles && AllListed(w)
    ensures AllListed(w')
  {
  }

  lemma IssueKeepsListed(w: World, c: CopyId, u: UserId, tx: TransactionId)
    requires AllListed(w)
    ensures AllListed(Issue(w, c, u, tx).1)
  {
    if IssueError(w, c, u).None? {
      var copy := w.copies[c].CheckOut(u).value;
      SavingKeepsListed(w, c, copy);
      SameShelves(SaveCopy(w, c, copy), Issue(w, c, u, tx).1);
    }
  }

  lemma ReturnKeepsListed(w: World, c: CopyId, late: bool, damaged: bool)
    requires AllListed(w)
    ensures AllListed(Return(w, c, late, damaged).1)
  {
    var w' := Return(w, c, late, damaged).1;
    if Return(w, c, late, damaged).0.Ok? {
      SavingKeepsListed(w, c, w'.copies[c]);
      SameShelves(SaveCopy(w, c, w'.copies[c]), w');
    } else {
      SameShelves(w, w');
    }
  }

  lemma DropKeepsListed(w: World, isbn: Isbn, tx: TransactionId)
    requires AllListed(w)
    ensures AllListed(Drop(w, isbn, tx).1)
  {
    var (request, rest) := AllocationOf(w, isbn).Pop();
    var w' := w.(allocation := w.allocation[isbn := rest]);
    SameShelves(w, w');
    if Drop(w, isbn, tx).0.Some? {
      IssueKeepsListed(w', FirstAvailable(w.titles[isbn].copyIds, w.copies).value, request.value.payload.userId, tx);
    }
  }

  lemma TransferKeepsListed(w: World, c: CopyId, dest: BranchId, t: TransferId)
    requires AllListed(w)
    ensures AllListed(RequestTransfer(w, c, dest, t).1)
  {
    var w' := RequestTransfer(w, c, dest, t).1;
    if w' != w {
      SavingKeepsListed(w, c, w'.copies[c]);
      SameShelves(SaveCopy(w, c, w'.copies[c]), w');
    }
  }

  lemma CompleteKeepsListed(w: World, t: TransferId)
    requires AllListed(w)
    ensures AllListed(CompleteTransfer(w, t).1)
  {
    var w' := CompleteTransfer(w, t).1;
    if w' != w {
      var c := w.transfers[t].copyId;
      SavingKeepsListed(w, c, w'.copies[c]);
      SameShelves(SaveCopy(w, c, w'.copies[c]), w');
    }
  }

  /** A step keeps every copy under its title, except registering a title again that already has copies. */
  lemma OnlyRegisteringAgainOrphans(w: World, step: Step)
    requires AllListed(w) && Enabled(w, step)
    ensures AllListed(Next(w, step)) <==> !(step.DoRegister? && exists c :: c in w.copies && w.copies[c].isbn == step.isbn)
  {
    var w' := Next(w, step);
    match step
    case DoIssue(c, u, tx) => IssueKeepsListed(w, c, u, tx);
    case DoReturn(c, late, damaged) => ReturnKeepsListed(w, c, late, damaged);
    case DoDrop(isbn, tx) => DropKeepsListed(w, isbn, tx);
    case DoTransfer(c, dest, t) => TransferKeepsListed(w, c, dest, t);
    case DoComplete(t) => CompleteKeepsListed(w, t);
    case DoAddCopy(isbn, c, branch) =>
      if w' != w {
        SavingKeepsListed(w, c, w'.copies[c]);
      }
    case DoRegister(isbn, _, _) =>
      if c :| c in w.copies && w.copies[c].isbn == isbn {
        assert c in w'.copies;
      }
    case _ => SameShelves(w, w');
  }
}
