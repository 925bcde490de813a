/**
  The circulation rules on values: what one state of the library holds, and what each operation makes of it, errors
  and partial effects included.
 */
module Circulation {
  import opened Types
  import opened Domain
  import opened AllocationQueues

  // ---- the state

  /** A catalogued title: what is said about it and, when physical, its copies in the order they were added. */
  datatype Title = Physical(about: string, copyIds: seq<CopyId>) | Digital(about: string)

  datatype BorrowRecord = BorrowRecord(tx: TransactionId, copyId: CopyId, isbn: Isbn, user: UserId)

  datatype Event =
    | Issued(copyId: CopyId, isbn: Isbn, user: UserId, tx: TransactionId)
    | Returned(copyId: CopyId, isbn: Isbn, user: UserId, late: bool, damaged: bool, servedTo: Option<ReservationId>)

  datatype ReservationStatus = PENDING | READY_FOR_PICKUP | FULFILLED | EXPIRED | CANCELLED

  datatype Reservation = Reservation(isbn: Isbn, user: UserId, status: ReservationStatus, copyId: Option<CopyId>)

  type Copies = map<CopyId, Copy>
  type Accounts = map<UserId, Account>
  type Reservations = map<ReservationId, Reservation>

  /** Waiting lists by title, and every reservation ever made. An entry is known by its id in both. */
  datatype Queues = Queues(waiting: map<Isbn, seq<ReservationId>>, reservations: Reservations)

  datatype Transfer = Transfer(copyId: CopyId, isbn: Isbn, source: BranchId, dest: BranchId, completed: bool)

  type Transfers = map<TransferId, Transfer>

  /** `accepted` lists new reservations in time order; no operation reads it. */
  datatype World = World(
    copies: Copies,
    titles: map<Isbn, Title>,
    accounts: Accounts,
    records: seq<BorrowRecord>,
    outbox: seq<Event>,
    queues: Queues,
    accepted: seq<(Isbn, ReservationId)>,
    allocation: map<Isbn, QueueState>,
    branches: set<BranchId>,
    transfers: Transfers)

  datatype Error =
    | UserNotFound
    | UserNotEligible
    | CopyNotFound
    | CopyUnavailable(status: Status)
    | InvalidTransition
    | BookNotFound
    | BadTransfer

  // ---- saving a copy

  /** Saving a copy also enters it in its title's list, when the title is physical and does not list it yet. */
  function Listed(titles: map<Isbn, Title>, isbn: Isbn, c: CopyId): map<Isbn, Title> {
    if isbn in titles && titles[isbn].Physical? && c !in titles[isbn].copyIds
    then titles[isbn := titles[isbn].(copyIds := titles[isbn].copyIds + [c])]
    else titles
  }

  function SaveCopy(w: World, c: CopyId, copy: Copy): World {
    w.(copies := w.copies[c := copy], titles := Listed(w.titles, copy.isbn, c))
  }

  // ---- issue and return

  function IssueError(w: World, c: CopyId, u: UserId): Option<Error> {
    if u !in w.accounts then Some(UserNotFound)
    else if !w.accounts[u].CanBorrow() then Some(UserNotEligible)
    else if c !in w.copies then Some(CopyNotFound)
    else if w.copies[c].status != AVAILABLE && !(w.copies[c].status == RESERVED && w.copies[c].reserver == Some(u))
      then Some(CopyUnavailable(w.copies[c].status))
    else if w.copies[c].CheckOut(u).None? then Some(InvalidTransition)
    else None
  }

  function Issue(w: World, c: CopyId, u: UserId, tx: TransactionId): (Result<BorrowRecord, Error>, World) {
    var error := IssueError(w, c, u);
    if error.Some? then (Err(error.value), w)
    else
      var copy := w.copies[c].CheckOut(u).value;
      var record := BorrowRecord(tx, c, copy.isbn, u);
      (Ok(record),
       SaveCopy(w, c, copy).(
         accounts := w.accounts[u := w.accounts[u].AddBorrow(c, copy.isbn)],
         records := w.records + [record],
         outbox := w.outbox + [Issued(c, copy.isbn, u, tx)]))
  }

  function WaitingFor(q: Queues, isbn: Isbn): seq<ReservationId> {
    if isbn in q.waiting then q.waiting[isbn] else []
  }

  predicate IsPending(reservations: Reservations, r: ReservationId) {
    r in reservations && reservations[r].status == PENDING
  }

  /** Entries are taken off the front until a pending one turns up. */
  function PopPending(queue: seq<ReservationId>, reservations: Reservations): (Option<ReservationId>, seq<ReservationId>) {
    if queue == [] then (None, [])
    else if IsPending(reservations, queue[0]) then (Some(queue[0]), queue[1..])
    else PopPending(queue[1..], reservations)
  }

  /** The returned copy goes to the first waiting user, if any. */
  function AssignReturned(q: Queues, isbn: Isbn, c: CopyId): (Option<ReservationId>, Queues) {
    if WaitingFor(q, isbn) == [] then (None, q)
    else
      var (r, rest) := PopPending(q.waiting[isbn], q.reservations);
      var waiting := q.waiting[isbn := rest];
      if r.None? || r.value !in q.reservations then (None, Queues(waiting, q.reservations))
      else
        var ready := q.reservations[r.value].(status := READY_FOR_PICKUP, copyId := Some(c));
        (r, Queues(waiting, q.reservations[r.value := ready]))
  }

  function AfterUserReturn(accounts: Accounts, u: UserId, c: CopyId, late: bool, damaged: bool): Accounts {
    if u in accounts then accounts[u := accounts[u].RecordReturn(c, late, damaged)] else accounts
  }

  /** The copy kept for the reservation chosen for it, or as it is when there is none. */
  function KeptFor(back: Copy, chosen: Option<ReservationId>, reservations: Reservations): Copy {
    if chosen.Some? && chosen.value in reservations && back.Reserve(reservations[chosen.value].user).Some?
    then back.Reserve(reservations[chosen.value].user).value
    else back
  }

  /** The copy comes back from `u`, goes to the first user waiting, if any, and the log says so. */
  function HandBack(w: World, c: CopyId, u: UserId, late: bool, damaged: bool): (Result<Option<ReservationId>, Error>, World)
    requires c in w.copies
  {
    var back := w.copies[c].Return();
    if back.None? then (Err(InvalidTransition), w)
    else
      var isbn := back.value.isbn;
      var (chosen, queues) := AssignReturned(w.queues, isbn, c);
      (Ok(chosen),
       SaveCopy(w, c, KeptFor(back.value, chosen, queues.reservations)).(
         queues := queues, outbox := w.outbox + [Returned(c, isbn, u, late, damaged, chosen)]))
  }

  /** The account is updated before the copy, so an error of the copy's state leaves the account changed. */
  function Return(w: World, c: CopyId, late: bool, damaged: bool): (Result<Option<ReservationId>, Error>, World) {
    if c !in w.copies then (Err(CopyNotFound), w)
    else if w.copies[c].borrower.None? then (Err(InvalidTransition), w)
    else
      var u := w.copies[c].borrower.value;
      HandBack(w.(accounts := AfterUserReturn(w.accounts, u, c, late, damaged)), c, u, late, damaged)
  }

  // ---- reservations and smart allocation

  /** The first entry of the user in the queue that is pending or ready. */
  function FindWaiting(queue: seq<ReservationId>, reservations: Reservations, u: UserId): Option<ReservationId> {
    if queue == [] then None
    else if queue[0] in reservations && reservations[queue[0]].user == u &&
            (reservations[queue[0]].status == PENDING || reservations[queue[0]].status == READY_FOR_PICKUP)
      then Some(queue[0])
    else FindWaiting(queue[1..], reservations, u)
  }

  /** A user already in the queue keeps the old entry; otherwise a new one goes to the back under `added`. */
  function JoinQueue(q: Queues, isbn: Isbn, u: UserId, added: ReservationId): (ReservationId, Queues) {
    var queue := WaitingFor(q, isbn);
    var found := FindWaiting(queue, q.reservations, u);
    if found.Some? then (found.value, q.(waiting := q.waiting[isbn := queue]))
    else (added, Queues(q.waiting[isbn := queue + [added]], q.reservations[added := Reservation(isbn, u, PENDING, None)]))
  }

  function ReserveTitle(w: World, isbn: Isbn, u: UserId, added: ReservationId): (ReservationId, World) {
    var (id, queues) := JoinQueue(w.queues, isbn, u, added);
    var isNew := FindWaiting(WaitingFor(w.queues, isbn), w.queues.reservations, u).None?;
    (id, w.(queues := queues, accepted := if isNew then w.accepted + [(isbn, added)] else w.accepted))
  }

  function AllocationOf(w: World, isbn: Isbn): QueueState {
    if isbn in w.allocation then w.allocation[isbn] else QueueState([], 0)
  }

  function RequestAllocation(w: World, isbn: Isbn, request: Request, priority: real): (Option<Error>, World) {
    if request.userId !in w.accounts then (Some(UserNotFound), w)
    else (None, w.(allocation := w.allocation[isbn := AllocationOf(w, isbn).Enqueue(request, priority)]))
  }

  predicate IsAvailable(c: CopyId, copies: Copies, at: Option<BranchId>) {
    c in copies && copies[c].status == AVAILABLE && (at.None? || copies[c].branch == at.value)
  }

  /** The listed copies that can be lent, in list order, at one branch or anywhere. */
  function Available(ids: seq<CopyId>, copies: Copies, at: Option<BranchId>): seq<CopyId> {
    if ids == [] then []
    else Available(ids[..|ids| - 1], copies, at) + if IsAvailable(ids[|ids| - 1], copies, at) then [ids[|ids| - 1]] else []
  }

  function FirstAvailable(copyIds: seq<CopyId>, copies: Copies): Option<CopyId> {
    if copyIds == [] then None
    else if copyIds[0] in copies && copies[copyIds[0]].status == AVAILABLE then Some(copyIds[0])
    else FirstAvailable(copyIds[1..], copies)
  }

  /** None when there is nobody waiting or nothing to give. The request is gone even when the issue then raises. */
  function Drop(w: World, isbn: Isbn, tx: TransactionId): (Option<Result<BorrowRecord, Error>>, World) {
    if AllocationOf(w, isbn).pending == [] then (None, w)
    else if isbn !in w.titles || w.titles[isbn].Digital? then (None, w)
    else
      var available := FirstAvailable(w.titles[isbn].copyIds, w.copies);
      if available.None? then (None, w)
      else
        var (request, rest) := AllocationOf(w, isbn).Pop();
        var w' := w.(allocation := w.allocation[isbn := rest]);
        var (result, w'') := Issue(w', available.value, request.value.payload.userId, tx);
        (Some(result), w'')
  }

  lemma {:induction false} FirstOfAvailable(ids: seq<CopyId>, copies: Copies)
    ensures FirstAvailable(ids, copies) ==
      if Available(ids, copies, None) == [] then None else Some(Available(ids, copies, None)[0])
  {
    if ids != [] {
      FirstOfAvailable(ids[1..], copies);
      AvailableFromFront(ids, copies, None);
    }
  }

  lemma {:induction false} AvailableFromFront(ids: seq<CopyId>, copies: Copies, at: Option<BranchId>)
    requires ids != []
    ensures Available(ids, copies, at) == (if IsAvailable(ids[0], copies, at) then [ids[0]] else []) + Available(ids[1..], copies, at)
  {
    if |ids| > 1 {
      AvailableFromFront(ids[..|ids| - 1], copies, at);
      assert ids[1..][..|ids| - 2] == ids[..|ids| - 1][1..];
    }
  }

  // ---- transfers

  function Departure(copy: Copy, c: CopyId, branches: set<BranchId>, dest: BranchId): Result<Transfer, Error> {
    if dest !in branches || copy.branch == dest then Err(BadTransfer)
    else if copy.StartTransfer(dest).None? then Err(InvalidTransition)
    else Ok(Transfer(c, copy.isbn, copy.branch, dest, false))
  }

  function RequestTransfer(w: World, c: CopyId, dest: BranchId, t: TransferId): (Result<Transfer, Error>, World) {
    if c !in w.copies then (Err(CopyNotFound), w)
    else
      var transfer := Departure(w.copies[c], c, w.branches, dest);
      if transfer.Err? then (transfer, w)
      else (transfer, SaveCopy(w, c, w.copies[c].StartTransfer(dest).value).(transfers := w.transfers[t := transfer.value]))
  }

  function Arrival(copy: Copy, transfer: Transfer): Result<Transfer, Error> {
    if transfer.completed || copy.CompleteTransfer().None? then Err(InvalidTransition)
    else Ok(transfer.(completed := true))
  }

  /** Nothing when the transfer or its copy is unknown. */
  function CompleteTransfer(w: World, t: TransferId): (Option<Result<Transfer, Error>>, World) {
    if t !in w.transfers || w.transfers[t].copyId !in w.copies then (None, w)
    else
      var c := w.transfers[t].copyId;
      var done := Arrival(w.copies[c], w.transfers[t]);
      if done.Err? then (Some(done), w)
      else (Some(done), SaveCopy(w, c, w.copies[c].CompleteTransfer().value).(transfers := w.transfers[t := done.value]))
  }

  // ---- catalogue

  /** Registering a known title again replaces it, and its list of copies starts empty. */
  function RegisterTitle(w: World, isbn: Isbn, about: string, physical: bool): World {
    w.(titles := w.titles[isbn := if physical then Physical(about, []) else Digital(about)])
  }

  function AddCopy(w: World, isbn: Isbn, c: CopyId, branch: BranchId): (Option<Error>, World) {
    if isbn !in w.titles || w.titles[isbn].Digital? then (Some(BookNotFound), w)
    else (None, SaveCopy(w, c, Copy(isbn, branch, AVAILABLE, None, None, None, 0)))
  }

  // ---- runs

  datatype Step =
    | DoIssue(c: CopyId, u: UserId, tx: TransactionId)
    | DoReturn(c: CopyId, late: bool, damaged: bool)
    | DoReserve(isbn: Isbn, u: UserId, added: ReservationId)
    | DoRequest(isbn: Isbn, request: Request, priority: real)
    | DoDrop(isbn: Isbn, tx: TransactionId)
    | DoTransfer(c: CopyId, dest: BranchId, t: TransferId)
    | DoComplete(t: TransferId)
    | DoRegister(isbn: Isbn, about: string, physical: bool)
    | DoAddCopy(isbn: Isbn, c: CopyId, branch: BranchId)
    | DoAddUser(u: UserId, limit: int)
    | DoAccount(u: UserId, fines: real, suspended: bool)
    | DoAddBranch(branch: BranchId)

  /** Generated ids are new, and copies and users are added once. */
  predicate Enabled(w: World, step: Step) {
    match step
    case DoReserve(_, _, added) => added !in w.queues.reservations
    case DoTransfer(_, _, t) => t !in w.transfers
    case DoAddCopy(_, c, _) => c !in w.copies
    case DoAddUser(u, _) => u !in w.accounts
    case DoAccount(u, _, _) => u in w.accounts
    case _ => true
  }

  function Next(w: World, step: Step): World
    requires Enabled(w, step)
  {
    match step
    case DoIssue(c, u, tx) => Issue(w, c, u, tx).1
    case DoReturn(c, late, damaged) => Return(w, c, late, damaged).1
    case DoReserve(isbn, u, added) => ReserveTitle(w, isbn, u, added).1
    case DoRequest(isbn, request, priority) => RequestAllocation(w, isbn, request, priority).1
    case DoDrop(isbn, tx) => Drop(w, isbn, tx).1
    case DoTransfer(c, dest, t) => RequestTransfer(w, c, dest, t).1
    case DoComplete(t) => CompleteTransfer(w, t).1
    case DoRegister(isbn, about, physical) => RegisterTitle(w, isbn, about, physical)
    case DoAddCopy(isbn, c, branch) => AddCopy(w, isbn, c, branch).1
    case DoAddUser(u, limit) => w.(accounts := w.accounts[u := Account(limit, false, 0.0, {}, [])])
    case DoAccount(u, fines, suspended) => w.(accounts := w.accounts[u := w.accounts[u].(fines := fines, suspended := suspended)])
    case DoAddBranch(branch) => w.(branches := w.branches + {branch})
  }

  function Play(w: World, steps: seq<Step>): World {
    if steps == [] then w
    else
      var t, step := Play(w, steps[..|steps| - 1]), steps[|steps| - 1];
      if Enabled(t, step) then Next(t, step) else t
  }

  const EMPTY := World(map[], map[], map[], [], [], Queues(map[], map[]), [], map[], {}, map[])
}
