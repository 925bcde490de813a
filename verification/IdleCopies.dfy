/** Whether a copy can stand available while somebody waits for its title: only a return looks at the waiting list. */
module IdleCopies {
  import opened Types
  import opened Domain
  import opened AllocationQueues
  import opened Circulation
  import opened Custody
  import opened LibraryRuns

  /** No copy is available while anybody waits for its title. */
  ghost predicate NoneIdle(w: World) {
    forall c :: c in w.copies && w.copies[c].status == AVAILABLE ==> WaitingFor(w.queues, w.copies[c].isbn) == []
  }

  ghost predicate HasAvailable(w: World, isbn: Isbn) {
    exists c :: c in w.copies && w.copies[c].status == AVAILABLE && w.copies[c].isbn == isbn
  }

  /** A first reservation beside an available copy, or a copy that comes in by another way than a return. */
  ghost predicate LeavesIdle(w: World, step: Step) {
    match step
    case DoReserve(isbn, _, _) => WaitingFor(w.queues, isbn) == [] && HasAvailable(w, isbn)
    case DoAddCopy(isbn, c, branch) => AddCopy(w, isbn, c, branch).0.None? && WaitingFor(w.queues, isbn) != []
    case DoComplete(t) =>
      var result := CompleteTransfer(w, t).0;
      result.Some? && result.value.Ok? && WaitingFor(w.queues, w.copies[w.transfers[t].copyId].isbn) != []
    case _ => false
  }

  /** One copy changes, and no waiting list. */
  lemma OneCopyChanges(w: World, w': World, c: CopyId)
    requires NoneIdle(w) && w'.queues == w.queues && c in w'.copies
    requires forall d :: d in w'.copies && d != c ==> d in w.copies && w'.copies[d] == w.copies[d]
    ensures NoneIdle(w') <==> !(w'.copies[c].status == AVAILABLE && WaitingFor(w.queues, w'.copies[c].isbn) != [])
  {
  }

  lemma ReturnLeavesNoneIdle(w: World, c: CopyId, late: bool, damaged: bool)
    requires Inv(w) && NoneIdle(w)
    ensures NoneIdle(Return(w, c, late, damaged).1)
  {
    if c in w.copies && w.copies[c].borrower.Some? {
      var w' := Return(w, c, late, damaged).1;
      ReturnServes(w, c, late, damaged);
      forall d | d in w'.copies && w'.copies[d].status == AVAILABLE ensures WaitingFor(w'.queues, w'.copies[d].isbn) == [] {
        if d != c {
          assert w'.copies[d] == w.copies[d];
        }
      }
    }
  }

  lemma IssueLeavesNoneIdle(w: World, c: CopyId, u: UserId, tx: TransactionId)
    requires NoneIdle(w)
    ensures NoneIdle(Issue(w, c, u, tx).1)
  {
    if IssueError(w, c, u).None? {
      OneCopyChanges(w, Issue(w, c, u, tx).1, c);
    }
  }

  lemma DropLeavesNoneIdle(w: World, isbn: Isbn, tx: TransactionId)
    requires NoneIdle(w)
    ensures NoneIdle(Drop(w, isbn, tx).1)
  {
    if Drop(w, isbn, tx).0.Some? {
      var (request, rest) := AllocationOf(w, isbn).Pop();
      var w' := w.(allocation := w.allocation[isbn := rest]);
      IssueLeavesNoneIdle(w', FirstAvailable(w.titles[isbn].copyIds, w.copies).value, request.value.payload.userId, tx);
    }
  }

  lemma ReserveLeavesNoneIdleIff(w: World, isbn: Isbn, u: UserId, added: ReservationId)
    requires NoneIdle(w)
    ensures NoneIdle(ReserveTitle(w, isbn, u, added).1) <==> !(WaitingFor(w.queues, isbn) == [] && HasAvailable(w, isbn))
  {
    var w' := ReserveTitle(w, isbn, u, added).1;
    assert WaitingFor(w'.queues, isbn) != [];
    if c :| c in w.copies && w.copies[c].status == AVAILABLE && w.copies[c].isbn == isbn {
      assert c in w'.copies;
    }
  }

  lemma TransferLeavesNoneIdle(w: World, c: CopyId, dest: BranchId, t: TransferId)
    requires NoneIdle(w)
    ensures NoneIdle(RequestTransfer(w, c, dest, t).1)
  {
    if RequestTransfer(w, c, dest, t).0.Ok? {
      OneCopyChanges(w, RequestTransfer(w, c, dest, t).1, c);
    }
  }

  lemma CompleteLeavesNoneIdleIff(w: World, t: TransferId)
    requires NoneIdle(w)
    ensures NoneIdle(CompleteTransfer(w, t).1) <==> !LeavesIdle(w, DoComplete(t))
  {
    if CompleteTransfer(w, t).0.Some? && CompleteTransfer(w, t).0.value.Ok? {
      OneCopyChanges(w, CompleteTransfer(w, t).1, w.transfers[t].copyId);
    }
  }

  lemma AddCopyLeavesNoneIdleIff(w: World, isbn: Isbn, c: CopyId, branch: BranchId)
    requires NoneIdle(w) && c !in w.copies
    ensures NoneIdle(AddCopy(w, isbn, c, branch).1) <==> !LeavesIdle(w, DoAddCopy(isbn, c, branch))
  {
    if AddCopy(w, isbn, c, branch).0.None? {
      OneCopyChanges(w, AddCopy(w, isbn, c, branch).1, c);
    }
  }

  /** From a state where none is idle, exactly these steps leave a copy available while somebody waits for its title. */
  lemma NoneIdleKeptIff(w: World, step: Step)
    requires Inv(w) && NoneIdle(w) && Enabled(w, step)
    ensures NoneIdle(Next(w, step)) <==> !LeavesIdle(w, step)
  {
    match step
    case DoIssue(c, u, tx) => IssueLeavesNoneIdle(w, c, u, tx);
    case DoReturn(c, late, damaged) => ReturnLeavesNoneIdle(w, c, late, damaged);
    case DoReserve(isbn, u, added) => ReserveLeavesNoneIdleIff(w, isbn, u, added);
    case DoDrop(isbn, tx) => DropLeavesNoneIdle(w, isbn, tx);
    case DoTransfer(c, dest, t) => TransferLeavesNoneIdle(w, c, dest, t);
    case DoComplete(t) => CompleteLeavesNoneIdleIff(w, t);
    case DoAddCopy(isbn, c, branch) => AddCopyLeavesNoneIdleIff(w, isbn, c, branch);
    case _ =>
  }

  /** No step of the run, when its turn comes, is one of them. */
  ghost predicate NeverLeavesIdle(steps: seq<Step>) {
    steps == [] ||
    (var w, step := Play(EMPTY, steps[..|steps| - 1]), steps[|steps| - 1];
     NeverLeavesIdle(steps[..|steps| - 1]) && (Enabled(w, step) ==> !LeavesIdle(w, step)))
  }

  /** In a run of other steps alone, nobody ever waits for a title with an available copy. */
  lemma {:induction false} NobodyWaitsForAnIdleCopy(steps: seq<Step>)
    requires NeverLeavesIdle(steps)
    ensures NoneIdle(Play(EMPTY, steps))
  {
    if steps != [] {
      var before, step := steps[..|steps| - 1], steps[|steps| - 1];
      NobodyWaitsForAnIdleCopy(before);
      EmptyLibraryIsSound();
      EveryRunKeepsInv(EMPTY, before);
      if Enabled(Play(EMPTY, before), step) {
        NoneIdleKeptIff(Play(EMPTY, before), step);
      }
    }
  }
}
