/** The parts of the library's joint invariant (custody, log, waiting lists, transit) and what keeps each of them. */
module Custody {
  import opened Types
  import opened Domain
  import opened AllocationQueues
  import opened Circulation

  // ---- who has what

  /** The status says which of borrower, reserver and target is set. */
  predicate Tidy(c: Copy) {
    && (c.status == ISSUED <==> c.borrower.Some?)
    && (c.status == RESERVED <==> c.reserver.Some?)
    && (c.status == IN_TRANSIT <==> c.target.Some?)
    && c.status != LOST && c.status != UNDER_REPAIR
  }

  /** Within the limit, and one open loan for exactly the copies held. */
  ghost predicate AccountOk(a: Account) {
    && |a.active| <= (if a.limit > 0 then a.limit else 0)
    && forall c :: OpenLoans(a.history, c) == if c in a.active then 1 else 0
  }

  ghost predicate Holds(accounts: Accounts, u: UserId, c: CopyId) {
    u in accounts && c in accounts[u].active
  }

  ghost predicate CustodyOk(copies: Copies, accounts: Accounts) {
    && (forall c :: c in copies ==> Tidy(copies[c]))
    && (forall c :: c in copies && copies[c].borrower.Some? ==> Holds(accounts, copies[c].borrower.value, c))
    && (forall u, c :: Holds(accounts, u, c) ==> c in copies && copies[c].borrower == Some(u))
    && (forall u :: u in accounts ==> AccountOk(accounts[u]))
  }

  lemma IssueKeepsCustody(copies: Copies, accounts: Accounts, c: CopyId, u: UserId)
    requires CustodyOk(copies, accounts) && u in accounts && accounts[u].CanBorrow()
    requires c in copies && copies[c].CheckOut(u).Some?
    ensures CustodyOk(copies[c := copies[c].CheckOut(u).value], accounts[u := accounts[u].AddBorrow(c, copies[c].isbn)])
  {
    var copies', accounts' := copies[c := copies[c].CheckOut(u).value], accounts[u := accounts[u].AddBorrow(c, copies[c].isbn)];
    assert copies[c].borrower.None?;
    assert !Holds(accounts, u, c);
    forall d ensures OpenLoans(accounts'[u].history, d) == if d in accounts'[u].active then 1 else 0 {
      OpeningOneLoan(accounts[u].history, c, copies[c].isbn, d);
    }
    forall v, d ensures Holds(accounts', v, d) <==> Holds(accounts, v, d) || (v == u && d == c) {}
  }

  lemma ReturnKeepsCustody(copies: Copies, accounts: Accounts, c: CopyId, copy: Copy, late: bool, damaged: bool)
    requires CustodyOk(copies, accounts) && c in copies && copies[c].borrower.Some?
    requires Tidy(copy) && copy.borrower.None?
    ensures CustodyOk(copies[c := copy], AfterUserReturn(accounts, copies[c].borrower.value, c, late, damaged))
  {
    var u := copies[c].borrower.value;
    assert Holds(accounts, u, c);
    var copies', accounts' := copies[c := copy], AfterUserReturn(accounts, u, c, late, damaged);
    forall d ensures OpenLoans(accounts'[u].history, d) == if d in accounts'[u].active then 1 else 0 {
      ClosingOneLoan(accounts[u].history, c, late, damaged, d);
      assert OpenLoans(accounts[u].history, c) == 1;
    }
    forall v, d ensures Holds(accounts', v, d) <==> Holds(accounts, v, d) && d != c {
      if Holds(accounts, v, c) { assert v == u; }
    }
  }

  lemma SameBorrowerKeepsCustody(copies: Copies, accounts: Accounts, c: CopyId, copy: Copy)
    requires CustodyOk(copies, accounts) && Tidy(copy)
    requires if c in copies then copy.borrower == copies[c].borrower else copy.borrower.None?
    ensures CustodyOk(copies[c := copy], accounts)
  {
  }

  lemma AccountKeepsCustody(copies: Copies, accounts: Accounts, u: UserId, a: Account)
    requires CustodyOk(copies, accounts)
    requires if u in accounts then a.active == accounts[u].active && a.history == accounts[u].history && a.limit == accounts[u].limit
             else a.active == {} && a.history == []
    ensures CustodyOk(copies, accounts[u := a])
  {
    var accounts' := accounts[u := a];
    forall v, d ensures Holds(accounts', v, d) <==> Holds(accounts, v, d) {}
    assert AccountOk(a) by {
      if u in accounts {
        assert AccountOk(accounts[u]);
      }
    }
    forall v | v in accounts' ensures AccountOk(accounts'[v]) {}
    forall c | c in copies && copies[c].borrower.Some? ensures Holds(accounts', copies[c].borrower.value, c) {}
    assert forall v, c :: Holds(accounts', v, c) ==> c in copies && copies[c].borrower == Some(v);
    assert forall c :: c in copies ==> Tidy(copies[c]);
  }

  // ---- what the outbox tells

  datatype Seen = Free | With(user: UserId) | Held(reservation: ReservationId)

  function SeenAfter(e: Event): Seen {
    match e
    case Issued(_, _, user, _) => With(user)
    case Returned(_, _, _, _, _, servedTo) => if servedTo.Some? then Held(servedTo.value) else Free
  }

  /** What a reader of the log alone would say of a copy. */
  function Replay(log: seq<Event>, c: CopyId): Seen {
    if log == [] then Free
    else if log[|log| - 1].copyId == c then SeenAfter(log[|log| - 1])
    else Replay(log[..|log| - 1], c)
  }

  function IssuedCount(log: seq<Event>, c: CopyId): nat {
    if log == [] then 0
    else IssuedCount(log[..|log| - 1], c) + if log[|log| - 1].Issued? && log[|log| - 1].copyId == c then 1 else 0
  }

  function Borrows(log: seq<Event>): seq<BorrowRecord> {
    if log == [] then []
    else
      var e := log[|log| - 1];
      Borrows(log[..|log| - 1]) + if e.Issued? then [BorrowRecord(e.tx, e.copyId, e.isbn, e.user)] else []
  }

  /** A copy is issued only when the log does not show it lent, and returned only by whom the log shows it lent to. */
  predicate Follows(log: seq<Event>, e: Event) {
    match e
    case Issued(c, _, _, _) => !Replay(log, c).With?
    case Returned(c, _, u, _, _, _) => Replay(log, c) == With(u)
  }

  predicate Alternates(log: seq<Event>) {
    log == [] || (Alternates(log[..|log| - 1]) && Follows(log[..|log| - 1], log[|log| - 1]))
  }

  ghost predicate Shows(seen: Seen, c: CopyId, copy: Copy, reservations: Reservations) {
    match seen
    case Free => copy.borrower.None? && copy.reserver.None?
    case With(u) => copy.borrower == Some(u) && copy.reserver.None?
    case Held(r) =>
      && copy.borrower.None? && r in reservations && reservations[r].status == READY_FOR_PICKUP
      && copy.reserver == Some(reservations[r].user) && reservations[r].copyId == Some(c)
  }

  ghost predicate LogOk(copies: Copies, log: seq<Event>, reservations: Reservations) {
    && Alternates(log)
    && (forall c :: c in copies ==>
          Shows(Replay(log, c), c, copies[c], reservations) && copies[c].borrowCount == IssuedCount(log, c))
    && (forall c :: c !in copies ==> Replay(log, c) == Free && IssuedCount(log, c) == 0)
  }

  lemma LogAppends(log: seq<Event>, e: Event, c: CopyId)
    ensures Replay(log + [e], c) == if e.copyId == c then SeenAfter(e) else Replay(log, c)
    ensures IssuedCount(log + [e], c) == IssuedCount(log, c) + if e.Issued? && e.copyId == c then 1 else 0
    ensures Borrows(log + [e]) == Borrows(log) + if e.Issued? then [BorrowRecord(e.tx, e.copyId, e.isbn, e.user)] else []
    ensures Alternates(log + [e]) <==> Alternates(log) && Follows(log, e)
  {
    assert (log + [e])[..|log|] == log;
  }

  /** An event about one copy, with the copy changed to match. */
  lemma EventKeepsLog(copies: Copies, log: seq<Event>, reservations: Reservations, e: Event, copy: Copy, reservations': Reservations)
    requires LogOk(copies, log, reservations) && e.copyId in copies && Follows(log, e)
    requires Shows(SeenAfter(e), e.copyId, copy, reservations')
    requires copy.borrowCount == copies[e.copyId].borrowCount + if e.Issued? then 1 else 0
    requires forall r :: r in reservations && reservations[r].status == READY_FOR_PICKUP ==>
      r in reservations' && reservations'[r] == reservations[r]
    ensures LogOk(copies[e.copyId := copy], log + [e], reservations')
  {
    var copies' := copies[e.copyId := copy];
    LogAppends(log, e, e.copyId);
    forall c
      ensures c in copies' ==> Shows(Replay(log + [e], c), c, copies'[c], reservations') && copies'[c].borrowCount == IssuedCount(log + [e], c)
      ensures c !in copies' ==> Replay(log + [e], c) == Free && IssuedCount(log + [e], c) == 0
    {
      LogAppends(log, e, c);
    }
  }

  lemma QuietCopyKeepsLog(copies: Copies, log: seq<Event>, reservations: Reservations, c: CopyId, copy: Copy)
    requires LogOk(copies, log, reservations)
    requires if c in copies
      then copy.borrower == copies[c].borrower && copy.reserver == copies[c].reserver && copy.borrowCount == copies[c].borrowCount
      else copy.borrower.None? && copy.reserver.None? && copy.borrowCount == 0
    ensures LogOk(copies[c := copy], log, reservations)
  {
  }

  // ---- first come, first served

  function AcceptedFor(accepted: seq<(Isbn, ReservationId)>, isbn: Isbn): seq<ReservationId> {
    if accepted == [] then []
    else
      var last := accepted[|accepted| - 1];
      AcceptedFor(accepted[..|accepted| - 1], isbn) + if last.0 == isbn then [last.1] else []
  }

  /** The reservations of a title that returned copies were given to, in order. */
  function ServedFor(log: seq<Event>, isbn: Isbn): seq<ReservationId> {
    if log == [] then []
    else
      var e := log[|log| - 1];
      ServedFor(log[..|log| - 1], isbn) +
      if e.Returned? && e.isbn == isbn && e.servedTo.Some? then [e.servedTo.value] else []
  }

  /** A waiting list: pending entries of this title, each user at most once. */
  ghost predicate LineOk(line: seq<ReservationId>, reservations: Reservations, isbn: Isbn) {
    && (forall i :: 0 <= i < |line| ==> IsPending(reservations, line[i]) && reservations[line[i]].isbn == isbn)
    && (forall i, j :: 0 <= i < j < |line| ==>
          line[i] in reservations && line[j] in reservations && reservations[line[i]].user != reservations[line[j]].user)
  }

  /** Those accepted so far were served first, in the same order, and the rest still wait. */
  ghost predicate FifoAt(accepted: seq<(Isbn, ReservationId)>, log: seq<Event>, queues: Queues, isbn: Isbn) {
    && LineOk(WaitingFor(queues, isbn), queues.reservations, isbn)
    && AcceptedFor(accepted, isbn) == ServedFor(log, isbn) + WaitingFor(queues, isbn)
  }

  ghost predicate FifoOk(accepted: seq<(Isbn, ReservationId)>, log: seq<Event>, queues: Queues) {
    forall isbn :: FifoAt(accepted, log, queues, isbn)
  }

  lemma ServedAppends(log: seq<Event>, e: Event, isbn: Isbn)
    ensures ServedFor(log + [e], isbn) ==
      ServedFor(log, isbn) + if e.Returned? && e.isbn == isbn && e.servedTo.Some? then [e.servedTo.value] else []
  {
    assert (log + [e])[..|log|] == log;
  }

  lemma AcceptedAppends(accepted: seq<(Isbn, ReservationId)>, a: (Isbn, ReservationId), isbn: Isbn)
    ensures AcceptedFor(accepted + [a], isbn) == AcceptedFor(accepted, isbn) + if a.0 == isbn then [a.1] else []
  {
    assert (accepted + [a])[..|accepted|] == accepted;
  }

  lemma {:induction false} NotFoundMeansAbsent(line: seq<ReservationId>, reservations: Reservations, isbn: Isbn, u: UserId)
    requires LineOk(line, reservations, isbn)
    ensures FindWaiting(line, reservations, u).None? <==>
      forall i :: 0 <= i < |line| ==> line[i] in reservations && reservations[line[i]].user != u
  {
    if line != [] {
      assert IsPending(reservations, line[0]);
      NotFoundMeansAbsent(line[1..], reservations, isbn, u);
      if FindWaiting(line[1..], reservations, u).None? {
        forall i | 0 < i < |line| ensures line[i] in reservations && reservations[line[i]].user != u {
          assert line[i] == line[1..][i - 1];
        }
      }
    }
  }

  lemma LongerLine(line: seq<ReservationId>, reservations: Reservations, isbn: Isbn, added: ReservationId, r: Reservation)
    requires LineOk(line, reservations, isbn) && added !in reservations
    requires r.isbn == isbn && r.status == PENDING && FindWaiting(line, reservations, r.user).None?
    ensures LineOk(line + [added], reservations[added := r], isbn)
  {
    NotFoundMeansAbsent(line, reservations, isbn, r.user);
  }

  lemma OtherLine(line: seq<ReservationId>, reservations: Reservations, isbn: Isbn, added: ReservationId, r: Reservation)
    requires LineOk(line, reservations, isbn) && added !in reservations
    ensures LineOk(line, reservations[added := r], isbn)
  {
  }

  lemma NewcomerKeepsLines(q: Queues, isbn: Isbn, u: UserId, added: ReservationId, i: Isbn)
    requires LineOk(WaitingFor(q, i), q.reservations, i) && LineOk(WaitingFor(q, isbn), q.reservations, isbn)
    requires FindWaiting(WaitingFor(q, isbn), q.reservations, u).None? && added !in q.reservations
    ensures var q' := JoinQueue(q, isbn, u, added).1; LineOk(WaitingFor(q', i), q'.reservations, i)
  {
    var r := Reservation(isbn, u, PENDING, None);
    if i == isbn {
      LongerLine(WaitingFor(q, isbn), q.reservations, isbn, added, r);
    } else {
      OtherLine(WaitingFor(q, i), q.reservations, i, added, r);
    }
  }

  lemma NewcomerIsAcceptedLast(accepted: seq<(Isbn, ReservationId)>, served: seq<ReservationId>, q: Queues,
                               isbn: Isbn, u: UserId, added: ReservationId, i: Isbn)
    requires AcceptedFor(accepted, i) == served + WaitingFor(q, i)
    requires FindWaiting(WaitingFor(q, isbn), q.reservations, u).None?
    ensures AcceptedFor(accepted + [(isbn, added)], i) == served + WaitingFor(JoinQueue(q, isbn, u, added).1, i)
  {
    AcceptedAppends(accepted, (isbn, added), i);
    if i == isbn {
      assert served + WaitingFor(q, i) + [added] == served + (WaitingFor(q, i) + [added]);
    }
  }

  lemma ReserveKeepsFifo(w: World, isbn: Isbn, u: UserId, added: ReservationId)
    requires FifoOk(w.accepted, w.outbox, w.queues) && added !in w.queues.reservations
    ensures FifoOk(ReserveTitle(w, isbn, u, added).1.accepted, w.outbox, ReserveTitle(w, isbn, u, added).1.queues)
  {
    var w' := ReserveTitle(w, isbn, u, added).1;
    forall i ensures FifoAt(w'.accepted, w.outbox, w'.queues, i) {
      assert FifoAt(w.accepted, w.outbox, w.queues, i) && FifoAt(w.accepted, w.outbox, w.queues, isbn);
      if FindWaiting(WaitingFor(w.queues, isbn), w.queues.reservations, u).None? {
        NewcomerKeepsLines(w.queues, isbn, u, added, i);
        NewcomerIsAcceptedLast(w.accepted, ServedFor(w.outbox, i), w.queues, isbn, u, added, i);
      }
    }
  }

  /** In good order the head of the line is the one served, and only its entry changes. */
  lemma HeadIsServed(q: Queues, isbn: Isbn, c: CopyId)
    requires LineOk(WaitingFor(q, isbn), q.reservations, isbn)
    ensures WaitingFor(q, isbn) == [] ==> AssignReturned(q, isbn, c) == (None, q)
    ensures WaitingFor(q, isbn) != [] ==>
      && var head := WaitingFor(q, isbn)[0];
      && IsPending(q.reservations, head)
      && AssignReturned(q, isbn, c) ==
         (Some(head),
          Queues(q.waiting[isbn := WaitingFor(q, isbn)[1..]],
                 q.reservations[head := q.reservations[head].(status := READY_FOR_PICKUP, copyId := Some(c))]))
  {
    if WaitingFor(q, isbn) != [] {
      assert IsPending(q.reservations, WaitingFor(q, isbn)[0]);
    }
  }

  lemma ServedLeavesLine(q: Queues, isbn: Isbn, c: CopyId, i: Isbn)
    requires LineOk(WaitingFor(q, isbn), q.reservations, isbn) && LineOk(WaitingFor(q, i), q.reservations, i)
    requires WaitingFor(q, isbn) != []
    ensures var q' := AssignReturned(q, isbn, c).1; LineOk(WaitingFor(q', i), q'.reservations, i)
  {
    HeadIsServed(q, isbn, c);
    var q' := AssignReturned(q, isbn, c).1;
    var head, line, line' := WaitingFor(q, isbn)[0], WaitingFor(q, i), WaitingFor(q', i);
    forall k | 0 <= k < |line'| ensures line'[k] != head && line'[k] in line {
      if i == isbn {
        assert line'[k] == line[k + 1];
      }
    }
  }

  lemma ServingKeepsFifoAt(accepted: seq<(Isbn, ReservationId)>, log: seq<Event>, q: Queues, e: Event, i: Isbn)
    requires FifoAt(accepted, log, q, i) && FifoAt(accepted, log, q, e.isbn)
    requires e.Returned? && e.servedTo == AssignReturned(q, e.isbn, e.copyId).0
    ensures FifoAt(accepted, log + [e], AssignReturned(q, e.isbn, e.copyId).1, i)
  {
    var line, q' := WaitingFor(q, e.isbn), AssignReturned(q, e.isbn, e.copyId).1;
    HeadIsServed(q, e.isbn, e.copyId);
    ServedAppends(log, e, i);
    if line != [] {
      ServedLeavesLine(q, e.isbn, e.copyId, i);
      if i == e.isbn {
        calc {
          AcceptedFor(accepted, i);
          ServedFor(log, i) + line;
          { assert line == [line[0]] + line[1..]; }
          ServedFor(log, i) + ([line[0]] + line[1..]);
          (ServedFor(log, i) + [line[0]]) + line[1..];
          ServedFor(log + [e], i) + WaitingFor(q', i);
        }
      }
    }
  }

  lemma ServingKeepsFifo(accepted: seq<(Isbn, ReservationId)>, log: seq<Event>, q: Queues, e: Event)
    requires FifoOk(accepted, log, q) && e.Returned? && e.servedTo == AssignReturned(q, e.isbn, e.copyId).0
    ensures FifoOk(accepted, log + [e], AssignReturned(q, e.isbn, e.copyId).1)
  {
    assert FifoAt(accepted, log, q, e.isbn);
    forall i ensures FifoAt(accepted, log + [e], AssignReturned(q, e.isbn, e.copyId).1, i) {
      ServingKeepsFifoAt(accepted, log, q, e, i);
    }
  }

  lemma IssueEventKeepsFifo(accepted: seq<(Isbn, ReservationId)>, log: seq<Event>, q: Queues, e: Event)
    requires FifoOk(accepted, log, q) && e.Issued?
    ensures FifoOk(accepted, log + [e], q)
  {
    forall i ensures FifoAt(accepted, log + [e], q, i) {
      assert FifoAt(accepted, log, q, i);
      ServedAppends(log, e, i);
    }
  }

  // ---- transfers

  ghost predicate Carries(transfers: Transfers, t: TransferId, c: CopyId) {
    t in transfers && !transfers[t].completed && transfers[t].copyId == c
  }

  ghost predicate Carried(transfers: Transfers, c: CopyId) {
    exists t :: Carries(transfers, t, c)
  }

  /** A copy is in transit exactly when one open transfer names it, and that transfer has its target. */
  ghost predicate TransitOk(copies: Copies, transfers: Transfers) {
    && (forall c :: c in copies && copies[c].status == IN_TRANSIT ==> Carried(transfers, c))
    && (forall t, c :: Carries(transfers, t, c) ==>
          c in copies && copies[c].status == IN_TRANSIT && copies[c].target == Some(transfers[t].dest))
    && (forall s, t, c :: Carries(transfers, s, c) && Carries(transfers, t, c) ==> s == t)
  }

  lemma GroundedCopyKeepsTransit(copies: Copies, transfers: Transfers, c: CopyId, copy: Copy)
    requires TransitOk(copies, transfers) && copy.status != IN_TRANSIT && (c in copies ==> copies[c].status != IN_TRANSIT)
    ensures TransitOk(copies[c := copy], transfers)
  {
  }

  lemma DepartureKeepsTransit(copies: Copies, transfers: Transfers, c: CopyId, copy: Copy, t: TransferId, transfer: Transfer)
    requires TransitOk(copies, transfers) && c in copies && copies[c].status != IN_TRANSIT && t !in transfers
    requires copy.status == IN_TRANSIT && copy.target == Some(transfer.dest) && transfer.copyId == c && !transfer.completed
    ensures TransitOk(copies[c := copy], transfers[t := transfer])
  {
    var transfers' := transfers[t := transfer];
    forall s, d ensures Carries(transfers', s, d) <==> Carries(transfers, s, d) || (s == t && d == c) {}
    forall d | d in copies && d != c && copies[d].status == IN_TRANSIT ensures Carried(transfers', d) {
      var s :| Carries(transfers, s, d);
      assert Carries(transfers', s, d);
    }
    assert Carries(transfers', t, c);
  }

  lemma ArrivalKeepsTransit(copies: Copies, transfers: Transfers, c: CopyId, copy: Copy, t: TransferId)
    requires TransitOk(copies, transfers) && Carries(transfers, t, c) && copy.status != IN_TRANSIT
    ensures TransitOk(copies[c := copy], transfers[t := transfers[t].(completed := true)])
  {
    var transfers' := transfers[t := transfers[t].(completed := true)];
    forall s, d ensures Carries(transfers', s, d) <==> Carries(transfers, s, d) && s != t {}
    forall d | d in copies && d != c && copies[d].status == IN_TRANSIT ensures Carried(transfers', d) {
      var s :| Carries(transfers, s, d);
      assert Carries(transfers', s, d);
    }
  }
}
