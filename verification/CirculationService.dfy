/** The circulation desk: each operation changes copies, accounts, ledger, queues and outbox as `Circulation` says. */
module CirculationServices {
  import opened Types
  import opened Domain
  import opened AllocationQueues
  import opened Circulation
  import opened Repositories
  import opened Catalog
  import LruCaches

  ghost predicate UsersShow(users: map<UserId, User>, view: Accounts)
    reads users.Values
  {
    && users.Keys == view.Keys
    && forall u :: u in users ==> users[u].userId == u && users[u].View() == view[u]
  }

  ghost predicate QueuesShow(queues: map<Isbn, SmartAllocationQueue>, view: map<Isbn, QueueState>)
    reads queues.Values
  {
    && queues.Keys == view.Keys
    && forall isbn :: isbn in queues ==> queues[isbn].isbn == isbn && queues[isbn].Valid() && queues[isbn].View() == view[isbn]
  }

  /** The copy and the user note the loan; no other copy or user changes. */
  method Lend(copies: map<CopyId, BookCopy>, users: map<UserId, User>, c: CopyId, u: UserId, ghost view: Copies, ghost accounts: Accounts)
    requires CopiesShow(copies, view) && UsersShow(users, accounts) && c in copies && u in users && view[c].CheckOut(u).Some?
    modifies copies[c], users[u]
    ensures OthersShow(copies, view, c) && copies[c].View() == view[c].CheckOut(u).value
    ensures UsersShow(users, accounts[u := accounts[u].AddBorrow(c, view[c].isbn)])
  {
    var ok := copies[c].CheckOut(u);
    users[u].AddBorrow(c, copies[c].bookIsbn);
  }

  /** The loan is noted and the copy saved. */
  method LendFrom(bookRepo: InMemoryBookRepository, users: map<UserId, User>, c: CopyId, u: UserId, ghost accounts: Accounts)
    requires bookRepo.Valid() && UsersShow(users, accounts) && c in bookRepo.copies && u in users
    requires bookRepo.view[c].CheckOut(u).Some?
    modifies bookRepo, bookRepo.copies[c], users[u]
    ensures bookRepo.Valid() && bookRepo.copies == old(bookRepo.copies)
    ensures UsersShow(users, accounts[u := accounts[u].AddBorrow(c, old(bookRepo.view)[c].isbn)])
    ensures bookRepo.view == old(bookRepo.view)[c := old(bookRepo.view)[c].CheckOut(u).value]
    ensures bookRepo.titles == Listed(old(bookRepo.titles), old(bookRepo.view)[c].isbn, c)
  {
    var copy := bookRepo.copies[c];
    Lend(bookRepo.copies, users, c, u, bookRepo.view, accounts);
    bookRepo.SaveCopy(copy);
  }

  method CopyBack(bookRepo: InMemoryBookRepository, c: CopyId) returns (ok: bool)
    requires bookRepo.Valid() && c in bookRepo.copies
    modifies bookRepo, bookRepo.copies[c]
    ensures bookRepo.Valid() && bookRepo.copies == old(bookRepo.copies)
    ensures ok <==> old(bookRepo.view)[c].Return().Some?
    ensures bookRepo.view == if ok then old(bookRepo.view)[c := old(bookRepo.view)[c].Return().value] else old(bookRepo.view)
    ensures bookRepo.titles == if ok then Listed(old(bookRepo.titles), old(bookRepo.view)[c].isbn, c) else old(bookRepo.titles)
    ensures ok ==> bookRepo.titles == Listed(bookRepo.titles, bookRepo.view[c].isbn, c)
  {
    var copy := bookRepo.copies[c];
    ok := copy.ReturnBook();
    if ok {
      bookRepo.SaveCopy(copy);
    }
  }

  /** A copy just returned goes to the first user waiting for its title. */
  method PassOn(bookRepo: InMemoryBookRepository, reservationMgr: BookReservationQueueManager, c: CopyId)
    returns (chosen: Option<ReservationId>)
    requires bookRepo.Valid() && c in bookRepo.copies
    requires bookRepo.titles == Listed(bookRepo.titles, bookRepo.view[c].isbn, c)
    modifies bookRepo, bookRepo.copies[c], reservationMgr
    ensures bookRepo.Valid() && bookRepo.copies == old(bookRepo.copies) && reservationMgr.accepted == old(reservationMgr.accepted)
    ensures (chosen, reservationMgr.View()) == AssignReturned(old(reservationMgr.View()), old(bookRepo.view)[c].isbn, c)
    ensures bookRepo.view == old(bookRepo.view)[c := KeptFor(old(bookRepo.view)[c], chosen, reservationMgr.reservations)]
    ensures bookRepo.titles == old(bookRepo.titles)
  {
    var copy := bookRepo.copies[c];
    chosen := reservationMgr.HandleCopyReturned(copy.bookIsbn, c);
    if chosen.Some? && chosen.value in reservationMgr.reservations {
      var _ := copy.Reserve(reservationMgr.reservations[chosen.value].user);
      bookRepo.SaveCopy(copy);
    }
  }

  method CopyReturns(bookRepo: InMemoryBookRepository, reservationMgr: BookReservationQueueManager, c: CopyId)
    returns (ok: bool, chosen: Option<ReservationId>)
    requires bookRepo.Valid() && c in bookRepo.copies
    modifies bookRepo, bookRepo.copies[c], reservationMgr
    ensures bookRepo.Valid() && bookRepo.copies == old(bookRepo.copies) && reservationMgr.accepted == old(reservationMgr.accepted)
    ensures ok <==> old(bookRepo.view)[c].Return().Some?
    ensures !ok ==> bookRepo.view == old(bookRepo.view) && bookRepo.titles == old(bookRepo.titles)
    ensures !ok ==> chosen == None && reservationMgr.View() == old(reservationMgr.View())
    ensures ok ==> (chosen, reservationMgr.View()) == AssignReturned(old(reservationMgr.View()), old(bookRepo.view)[c].isbn, c)
    ensures ok ==> bookRepo.titles == Listed(old(bookRepo.titles), old(bookRepo.view)[c].isbn, c)
    ensures ok ==> (
      bookRepo.view == old(bookRepo.view)[c := KeptFor(old(bookRepo.view)[c].Return().value, chosen, reservationMgr.reservations)])
  {
    ghost var before := bookRepo.view;
    ok := CopyBack(bookRepo, c);
    chosen := None;
    if ok {
      ghost var back := bookRepo.view[c];
      chosen := PassOn(bookRepo, reservationMgr, c);
      UpdateTwice(before, c, back, bookRepo.view[c]);
    }
  }

  lemma IssueIs(w: World, w': World, c: CopyId, u: UserId, tx: TransactionId)
    requires IssueError(w, c, u).None?
    requires w'.copies == w.copies[c := w.copies[c].CheckOut(u).value] && w'.titles == Listed(w.titles, w.copies[c].isbn, c)
    requires w'.accounts == w.accounts[u := w.accounts[u].AddBorrow(c, w.copies[c].isbn)]
    requires w'.records == w.records + [BorrowRecord(tx, c, w.copies[c].isbn, u)]
    requires w'.outbox == w.outbox + [Issued(c, w.copies[c].isbn, u, tx)]
    requires w'.queues == w.queues && w'.accepted == w.accepted && w'.allocation == w.allocation
    requires w'.branches == w.branches && w'.transfers == w.transfers
    ensures Issue(w, c, u, tx) == (Ok(BorrowRecord(tx, c, w.copies[c].isbn, u)), w')
  {
  }

  lemma UpdateTwice<K, V>(m: map<K, V>, k: K, v: V, v': V)
    ensures m[k := v][k := v'] == m[k := v']
  {
  }

  class CirculationService {
    const bookRepo: InMemoryBookRepository
    const reservationMgr: BookReservationQueueManager
    const cache: LruCaches.InMemoryCache<Details>
    var users: map<UserId, User>
    var records: seq<BorrowRecord>
    var outbox: seq<Event>
    var allocationQueues: map<Isbn, SmartAllocationQueue>
    ghost var accounts: Accounts
    ghost var allocation: map<Isbn, QueueState>

    ghost predicate Valid()
      reads this, bookRepo, bookRepo.copies.Values, users.Values, allocationQueues.Values
    {
      StoresValid() && QueuesShow(allocationQueues, allocation)
    }

    ghost predicate StoresValid()
      reads this, bookRepo, bookRepo.copies.Values, users.Values
    {
      bookRepo.Valid() && UsersShow(users, accounts)
    }

    /** The library as the desk knows it: it has no part in transfers. */
    ghost function View(): World
      reads this, bookRepo, reservationMgr
    {
      World(bookRepo.view, bookRepo.titles, accounts, records, outbox, reservationMgr.View(), reservationMgr.accepted,
            allocation, {}, map[])
    }

    constructor (bookRepo: InMemoryBookRepository, reservationMgr: BookReservationQueueManager, users: map<UserId, User>,
                 cache: LruCaches.InMemoryCache<Details>)
      requires bookRepo.Valid() && forall u :: u in users ==> users[u].userId == u
      ensures Valid() && this.bookRepo == bookRepo && this.reservationMgr == reservationMgr && this.users == users && this.cache == cache
      ensures records == [] && outbox == [] && allocationQueues == map[]
    {
      this.bookRepo, this.reservationMgr, this.users, this.cache := bookRepo, reservationMgr, users, cache;
      records, outbox, allocationQueues := [], [], map[];
      accounts, allocation := map u | u in users :: users[u].View(), map[];
    }

    method ForgetPage(isbn: Isbn)
      requires Valid() && cache.Valid()
      modifies cache
      ensures Valid() && View() == old(View())
      ensures cache.Valid() && cache.entries == Forget(old(cache.entries), isbn)
    {
      var _ := cache.Invalidate(Page(isbn));
    }

    /** An issue, after which the title's page is forgotten. */
    method IssuePhysicalBook(copyId: CopyId, userId: UserId, tx: TransactionId) returns (r: Result<BorrowRecord, Error>)
      requires Valid() && cache.Valid()
      modifies this`accounts, this`records, this`outbox, bookRepo, bookRepo.copies.Values, users.Values, cache
      ensures Valid() && bookRepo.copies == old(bookRepo.copies)
      ensures (r, View()) == Issue(old(View()), copyId, userId, tx)
      ensures cache.Valid() && cache.entries == AfterIssue(old(cache.entries), r)
    {
      r := IssueCopy(copyId, userId, tx);
      if r.Ok? {
        ForgetPage(r.value.isbn);
      }
    }

    method IssueCopy(copyId: CopyId, userId: UserId, tx: TransactionId) returns (r: Result<BorrowRecord, Error>)
      requires Valid()
      modifies this`accounts, this`records, this`outbox, bookRepo, bookRepo.copies.Values, users.Values
      ensures Valid() && bookRepo.copies == old(bookRepo.copies)
      ensures (r, View()) == Issue(old(View()), copyId, userId, tx)
    {
      var error := Refusal(copyId, userId);
      if error.Some? {
        return Err(error.value);
      }
      r := Complete(copyId, userId, tx);
    }

    /** What an issue does once nothing stands against it. */
    method Complete(c: CopyId, u: UserId, tx: TransactionId) returns (r: Result<BorrowRecord, Error>)
      requires Valid() && IssueError(View(), c, u).None?
      modifies this`accounts, this`records, this`outbox, bookRepo, bookRepo.copies[c], users[u]
      ensures Valid() && bookRepo.copies == old(bookRepo.copies)
      ensures (r, View()) == Issue(old(View()), c, u, tx)
    {
      ghost var before := View();
      r := Ok(BorrowRecord(tx, c, bookRepo.copies[c].bookIsbn, u));
      CheckOut(c, u, r.value);
      IssueIs(before, View(), c, u, tx);
    }

    /** Why the copy cannot be issued to the user, if so. */
    method Refusal(copyId: CopyId, userId: UserId) returns (error: Option<Error>)
      requires Valid()
      ensures error == IssueError(View(), copyId, userId)
    {
      if userId !in users {
        return Some(UserNotFound);
      }
      if !users[userId].CanBorrow() {
        return Some(UserNotEligible);
      }
      if copyId !in bookRepo.copies {
        return Some(CopyNotFound);
      }
      var copy := bookRepo.copies[copyId];
      if copy.status != AVAILABLE {
        var reservedForUser := copy.status == RESERVED && copy.currentReserverId == Some(userId);
        if !reservedForUser {
          return Some(CopyUnavailable(copy.status));
        }
      }
      error := None;
    }

    method CheckOut(c: CopyId, u: UserId, record: BorrowRecord)
      requires Valid() && c in bookRepo.copies && u in users && bookRepo.view[c].CheckOut(u).Some?
      modifies this`accounts, this`records, this`outbox, bookRepo, bookRepo.copies[c], users[u]
      ensures Valid() && bookRepo.copies == old(bookRepo.copies)
      ensures bookRepo.view == old(bookRepo.view)[c := old(bookRepo.view)[c].CheckOut(u).value]
      ensures bookRepo.titles == Listed(old(bookRepo.titles), old(bookRepo.view)[c].isbn, c)
      ensures accounts == old(accounts)[u := old(accounts)[u].AddBorrow(c, old(bookRepo.view)[c].isbn)]
      ensures records == old(records) + [record]
      ensures outbox == old(outbox) + [Issued(c, old(bookRepo.view)[c].isbn, u, record.tx)]
    {
      var copy := bookRepo.copies[c];
      LendHere(c, u);
      Note(accounts[u := accounts[u].AddBorrow(c, copy.bookIsbn)], [record], Issued(c, copy.bookIsbn, u, record.tx));
    }

    method LendHere(c: CopyId, u: UserId)
      requires Valid() && c in bookRepo.copies && u in users && bookRepo.view[c].CheckOut(u).Some?
      modifies bookRepo, bookRepo.copies[c], users[u]
      ensures bookRepo.Valid() && bookRepo.copies == old(bookRepo.copies) && QueuesShow(allocationQueues, allocation)
      ensures UsersShow(users, accounts[u := accounts[u].AddBorrow(c, old(bookRepo.view)[c].isbn)])
      ensures bookRepo.view == old(bookRepo.view)[c := old(bookRepo.view)[c].CheckOut(u).value]
      ensures bookRepo.titles == Listed(old(bookRepo.titles), old(bookRepo.view)[c].isbn, c)
    {
      LendFrom(bookRepo, users, c, u, accounts);
    }

    method Note(ghost accounts': Accounts, entries: seq<BorrowRecord>, event: Event)
      requires bookRepo.Valid() && UsersShow(users, accounts') && QueuesShow(allocationQueues, allocation)
      modifies this`accounts, this`records, this`outbox
      ensures Valid() && accounts == accounts' && records == old(records) + entries && outbox == old(outbox) + [event]
    {
      records, outbox, accounts := records + entries, outbox + [event], accounts';
    }

    /** A return, after which the title's page is forgotten. */
    method ReturnPhysicalBook(copyId: CopyId, late: bool, damaged: bool) returns (r: Result<Option<ReservationId>, Error>)
      requires Valid() && cache.Valid()
      modifies this`accounts, this`outbox, bookRepo, bookRepo.copies.Values, users.Values, reservationMgr, cache
      ensures Valid() && bookRepo.copies == old(bookRepo.copies)
      ensures (r, View()) == Return(old(View()), copyId, late, damaged)
      ensures cache.Valid()
      ensures cache.entries == if r.Ok? then Forget(old(cache.entries), old(bookRepo.view)[copyId].isbn) else old(cache.entries)
    {
      r := ReturnCopy(copyId, late, damaged);
      if r.Ok? {
        ForgetPage(bookRepo.copies[copyId].bookIsbn);
      }
    }

    method ReturnCopy(copyId: CopyId, late: bool, damaged: bool) returns (r: Result<Option<ReservationId>, Error>)
      requires Valid()
      modifies this`accounts, this`outbox, bookRepo, bookRepo.copies.Values, users.Values, reservationMgr
      ensures Valid() && bookRepo.copies == old(bookRepo.copies)
      ensures (r, View()) == Return(old(View()), copyId, late, damaged)
    {
      if copyId !in bookRepo.copies {
        return Err(CopyNotFound);
      }
      var copy := bookRepo.copies[copyId];
      if copy.currentBorrowerId.None? {
        return Err(InvalidTransition);
      }
      r := Receive(copyId, copy.currentBorrowerId.value, late, damaged);
    }

    /** The account first, then the copy; when the copy refuses, the account stays changed. */
    method Receive(c: CopyId, u: UserId, late: bool, damaged: bool) returns (r: Result<Option<ReservationId>, Error>)
      requires StoresValid() && c in bookRepo.copies && bookRepo.view[c].borrower == Some(u)
      modifies this`accounts, this`outbox, bookRepo, bookRepo.copies[c], users.Values, reservationMgr
      ensures StoresValid() && bookRepo.copies == old(bookRepo.copies)
      ensures (r, View()) == Return(old(View()), c, late, damaged)
    {
      UserReturns(u, c, late, damaged);
      r := CheckIn(c, u, late, damaged);
    }

    method CheckIn(c: CopyId, u: UserId, late: bool, damaged: bool) returns (r: Result<Option<ReservationId>, Error>)
      requires StoresValid() && c in bookRepo.copies
      modifies this`outbox, bookRepo, bookRepo.copies[c], reservationMgr
      ensures StoresValid() && bookRepo.copies == old(bookRepo.copies)
      ensures (r, View()) == HandBack(old(View()), c, u, late, damaged)
    {
      var ok, chosen := CopyReturns(bookRepo, reservationMgr, c);
      if !ok {
        return Err(InvalidTransition);
      }
      outbox := outbox + [Returned(c, bookRepo.copies[c].bookIsbn, u, late, damaged, chosen)];
      r := Ok(chosen);
    }

    method UserReturns(u: UserId, c: CopyId, late: bool, damaged: bool)
      requires StoresValid()
      modifies this`accounts, users.Values
      ensures StoresValid()
      ensures View() == old(View()).(accounts := AfterUserReturn(old(accounts), u, c, late, damaged))
    {
      if u in users {
        users[u].RecordReturn(c, late, damaged);
        accounts := AfterUserReturn(accounts, u, c, late, damaged);
      }
    }

    method RequestSmartAllocation(isbn: Isbn, request: Request, priority: real) returns (error: Option<Error>)
      requires Valid()
      modifies this`allocationQueues, this`allocation, allocationQueues.Values
      ensures Valid()
      ensures (error, View()) == RequestAllocation(old(View()), isbn, request, priority)
    {
      if request.userId !in users {
        return Some(UserNotFound);
      }
      Enlist(isbn, request, priority);
      error := None;
    }

    method Enlist(isbn: Isbn, request: Request, priority: real)
      requires QueuesShow(allocationQueues, allocation)
      modifies this`allocationQueues, this`allocation, allocationQueues.Values
      ensures QueuesShow(allocationQueues, allocation)
      ensures allocation == old(allocation)[isbn :=
        (if isbn in old(allocation) then old(allocation)[isbn] else QueueState([], 0)).Enqueue(request, priority)]
    {
      OpenQueue(isbn);
      ghost var opened' := allocation[isbn];
      Enqueue(isbn, request, priority);
      UpdateTwice(old(allocation), isbn, opened', allocation[isbn]);
    }

    method OpenQueue(isbn: Isbn)
      requires QueuesShow(allocationQueues, allocation)
      modifies this`allocationQueues, this`allocation
      ensures QueuesShow(allocationQueues, allocation)
      ensures allocation == if isbn in old(allocation) then old(allocation) else old(allocation)[isbn := QueueState([], 0)]
      ensures isbn in allocationQueues && (allocationQueues[isbn] in old(allocationQueues.Values) || fresh(allocationQueues[isbn]))
    {
      if isbn !in allocationQueues {
        var queue := new SmartAllocationQueue(isbn);
        allocationQueues, allocation := allocationQueues[isbn := queue], allocation[isbn := QueueState([], 0)];
      }
    }

    method Enqueue(isbn: Isbn, request: Request, priority: real)
      requires QueuesShow(allocationQueues, allocation) && isbn in allocationQueues
      modifies this`allocation, allocationQueues[isbn]
      ensures QueuesShow(allocationQueues, allocation)
      ensures allocation == old(allocation)[isbn := old(allocation)[isbn].Enqueue(request, priority)]
    {
      var _ := allocationQueues[isbn].Enqueue(request, priority);
      allocation := allocation[isbn := allocation[isbn].Enqueue(request, priority)];
    }

    /** Pops the first request only when there is a copy to give; the issue may still fail then. */
    method ProcessSmartAllocationDrop(isbn: Isbn, tx: TransactionId) returns (r: Option<Result<BorrowRecord, Error>>)
      requires Valid() && cache.Valid()
      modifies this`accounts, this`records, this`outbox, this`allocation, bookRepo, bookRepo.copies.Values, users.Values, allocationQueues.Values, cache
      ensures Valid() && bookRepo.copies == old(bookRepo.copies)
      ensures (r, View()) == Drop(old(View()), isbn, tx)
      ensures cache.Valid() && cache.entries == if r.Some? then AfterIssue(old(cache.entries), r.value) else old(cache.entries)
    {
      var choice := Choose(isbn);
      if choice.None? {
        return None;
      }
      var issued := Grant(isbn, choice.value, tx);
      r := Some(issued);
    }

    /** The first request is popped, and gone whether or not the issue succeeds. */
    method Grant(isbn: Isbn, c: CopyId, tx: TransactionId) returns (r: Result<BorrowRecord, Error>)
      requires Valid() && isbn in allocation && allocation[isbn].pending != [] && cache.Valid()
      modifies this`accounts, this`records, this`outbox, this`allocation, bookRepo, bookRepo.copies.Values, users.Values, allocationQueues.Values, cache
      ensures Valid() && bookRepo.copies == old(bookRepo.copies)
      ensures cache.Valid() && cache.entries == AfterIssue(old(cache.entries), r)
      ensures var (top, rest) := old(allocation)[isbn].Pop();
        (r, View()) == Issue(old(View()).(allocation := old(allocation)[isbn := rest]), c, top.value.payload.userId, tx)
    {
      var top := PopFirst(isbn);
      r := IssuePhysicalBook(c, top.payload.userId, tx);
    }

    /** The first copy to give, when somebody is waiting for one. */
    method Choose(isbn: Isbn) returns (choice: Option<CopyId>)
      requires Valid()
      ensures choice ==
        if AllocationOf(View(), isbn).pending == [] || isbn !in bookRepo.titles || bookRepo.titles[isbn].Digital? then None
        else FirstAvailable(bookRepo.titles[isbn].copyIds, bookRepo.view)
    {
      if isbn !in allocationQueues || allocationQueues[isbn].Size() == 0 {
        return None;
      }
      if isbn !in bookRepo.titles || bookRepo.titles[isbn].Digital? {
        return None;
      }
      var available := bookRepo.GetAvailableCopies(bookRepo.titles[isbn].copyIds, None);
      FirstOfAvailable(bookRepo.titles[isbn].copyIds, bookRepo.view);
      choice := if available == [] then None else Some(available[0].copyId);
    }

    method PopFirst(isbn: Isbn) returns (top: Entry)
      requires Valid() && isbn in allocation && allocation[isbn].pending != []
      modifies this`allocation, allocationQueues.Values
      ensures Valid() && top == old(allocation)[isbn].pending[0]
      ensures View() == old(View()).(allocation := old(allocation)[isbn := old(allocation)[isbn].Pop().1])
    {
      top := PopTop(isbn);
    }

    method PopTop(isbn: Isbn) returns (top: Entry)
      requires QueuesShow(allocationQueues, allocation) && isbn in allocation && allocation[isbn].pending != []
      modifies this`allocation, allocationQueues[isbn]
      ensures QueuesShow(allocationQueues, allocation)
      ensures top == old(allocation)[isbn].pending[0]
      ensures allocation == old(allocation)[isbn := old(allocation)[isbn].Pop().1]
    {
      var popped := allocationQueues[isbn].PopHighestPriority();
      allocation := allocation[isbn := allocation[isbn].Pop().1];
      top := popped.value;
    }
  }
}
