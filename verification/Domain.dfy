/** Copies with their lifecycle states, and users with their loans: the objects, and the values their fields hold. */
module Domain {
  import opened Types

  datatype Status = AVAILABLE | RESERVED | ISSUED | IN_TRANSIT | UNDER_REPAIR | LOST

  /** A copy's fields. The transitions give None where the state raises. */
  datatype Copy = Copy(
    isbn: Isbn, branch: BranchId, status: Status, borrower: Option<UserId>, reserver: Option<UserId>,
    target: Option<BranchId>, borrowCount: nat)
  {
    function CheckOut(user: UserId): Option<Copy> {
      match status
      case AVAILABLE => Some(this.(status := ISSUED, borrower := Some(user), borrowCount := borrowCount + 1))
      case RESERVED =>
        if reserver.Some? && reserver.value != user then None
        else Some(this.(status := ISSUED, reserver := None, borrower := Some(user), borrowCount := borrowCount + 1))
      case _ => None
    }

    function Return(): Option<Copy> {
      match status
      case RESERVED => Some(this.(status := AVAILABLE, reserver := None))
      case ISSUED => Some(this.(status := AVAILABLE, borrower := None))
      case _ => None
    }

    function Reserve(user: UserId): Option<Copy> {
      if status == AVAILABLE then Some(this.(status := RESERVED, reserver := Some(user))) else None
    }

    function StartTransfer(dest: BranchId): Option<Copy> {
      if status == AVAILABLE then Some(this.(status := IN_TRANSIT, target := Some(dest))) else None
    }

    function CompleteTransfer(): Option<Copy> {
      if status != IN_TRANSIT then None
      else if target.Some? then Some(this.(status := AVAILABLE, branch := target.value, target := None))
      else Some(this.(status := AVAILABLE))
    }

    function MarkLost(): Copy {
      this.(status := LOST)
    }
  }

  /** Lending and bringing back, keeping and releasing, sending and arriving: each takes an available copy back to where it was. */
  lemma LifecycleRoundTrips(copy: Copy, u: UserId, dest: BranchId)
    requires copy.status == AVAILABLE && copy.borrower.None? && copy.reserver.None? && copy.target.None?
    ensures copy.CheckOut(u).Some? && copy.CheckOut(u).value.borrower == Some(u)
    ensures copy.CheckOut(u).value.Return() == Some(copy.(borrowCount := copy.borrowCount + 1))
    ensures copy.Reserve(u).Some? && copy.Reserve(u).value.Return() == Some(copy)
    ensures copy.Reserve(u).value.CheckOut(u) == copy.CheckOut(u)
    ensures forall v :: v != u ==> copy.Reserve(u).value.CheckOut(v).None?
    ensures copy.StartTransfer(dest).Some? && copy.StartTransfer(dest).value.CompleteTransfer() == Some(copy.(branch := dest))
  {
  }

  class BookCopy {
    const copyId: CopyId
    const bookIsbn: Isbn
    var branchId: BranchId
    var status: Status
    var currentBorrowerId: Option<UserId>
    var currentReserverId: Option<UserId>
    var targetBranchId: Option<BranchId>
    var borrowCount: nat

    function View(): Copy
      reads this
    {
      Copy(bookIsbn, branchId, status, currentBorrowerId, currentReserverId, targetBranchId, borrowCount)
    }

    constructor (copyId: CopyId, isbn: Isbn, branch: BranchId)
      ensures this.copyId == copyId && View() == Copy(isbn, branch, AVAILABLE, None, None, None, 0)
    {
      this.copyId, bookIsbn, branchId := copyId, isbn, branch;
      status, currentBorrowerId, currentReserverId, targetBranchId, borrowCount := AVAILABLE, None, None, None, 0;
    }

    method CheckOut(user: UserId) returns (ok: bool)
      modifies this
      ensures ok <==> old(View()).CheckOut(user).Some?
      ensures View() == if ok then old(View()).CheckOut(user).value else old(View())
    {
      match status {
        case AVAILABLE =>
          currentBorrowerId, status := Some(user), ISSUED;
        case RESERVED =>
          if currentReserverId.Some? && currentReserverId.value != user {
            return false;
          }
          currentReserverId, currentBorrowerId, status := None, Some(user), ISSUED;
        case _ =>
          return false;
      }
      borrowCount := borrowCount + 1;
      ok := true;
    }

    method ReturnBook() returns (ok: bool)
      modifies this
      ensures ok <==> old(View()).Return().Some?
      ensures View() == if ok then old(View()).Return().value else old(View())
    {
      match status {
        case RESERVED =>
          currentReserverId, status := None, AVAILABLE;
        case ISSUED =>
          currentBorrowerId, status := None, AVAILABLE;
        case _ =>
          return false;
      }
      ok := true;
    }

    method Reserve(user: UserId) returns (ok: bool)
      modifies this
      ensures ok <==> old(View()).Reserve(user).Some?
      ensures View() == if ok then old(View()).Reserve(user).value else old(View())
    {
      ok := status == AVAILABLE;
      if ok {
        currentReserverId, status := Some(user), RESERVED;
      }
    }

    method StartTransfer(dest: BranchId) returns (ok: bool)
      modifies this
      ensures ok <==> old(View()).StartTransfer(dest).Some?
      ensures View() == if ok then old(View()).StartTransfer(dest).value else old(View())
    {
      ok := status == AVAILABLE;
      if ok {
        targetBranchId, status := Some(dest), IN_TRANSIT;
      }
    }

    method CompleteTransfer() returns (ok: bool)
      modifies this
      ensures ok <==> old(View()).CompleteTransfer().Some?
      ensures View() == if ok then old(View()).CompleteTransfer().value else old(View())
    {
      ok := status == IN_TRANSIT;
      if ok {
        if targetBranchId.Some? {
          branchId, targetBranchId := targetBranchId.value, None;
        }
        status := AVAILABLE;
      }
    }
  }

  // ---- users

  datatype Loan = Loan(copyId: CopyId, isbn: Isbn, returned: bool, late: bool, damaged: bool)

  const FINE_THRESHOLD := 100.0

  /** The last open loan of a copy closed. */
  function Closed(history: seq<Loan>, copyId: CopyId, late: bool, damaged: bool): seq<Loan> {
    if history == [] then []
    else
      var n := |history| - 1;
      if history[n].copyId == copyId && !history[n].returned
      then history[..n] + [Loan(copyId, history[n].isbn, true, late, damaged)]
      else Closed(history[..n], copyId, late, damaged) + [history[n]]
  }

  /** How many loans of a copy are open. */
  function OpenLoans(history: seq<Loan>, copyId: CopyId): nat {
    if history == [] then 0
    else
      var n := |history| - 1;
      OpenLoans(history[..n], copyId) + if history[n].copyId == copyId && !history[n].returned then 1 else 0
  }

  datatype Account = Account(limit: int, suspended: bool, fines: real, active: set<CopyId>, history: seq<Loan>) {
    predicate CanBorrow() {
      !suspended && fines <= FINE_THRESHOLD && |active| < limit
    }

    function AddBorrow(copyId: CopyId, isbn: Isbn): Account {
      this.(active := active + {copyId}, history := history + [Loan(copyId, isbn, false, false, false)])
    }

    function RecordReturn(copyId: CopyId, late: bool, damaged: bool): Account {
      this.(active := active - {copyId}, history := Closed(history, copyId, late, damaged))
    }
  }

  class User {
    const userId: UserId
    const maxBorrowLimit: int
    var isSuspended: bool
    var unpaidFines: real
    var active: set<CopyId>
    var borrowHistory: seq<Loan>

    function View(): Account
      reads this
    {
      Account(maxBorrowLimit, isSuspended, unpaidFines, active, borrowHistory)
    }

    constructor (userId: UserId, limit: int)
      ensures this.userId == userId && View() == Account(limit, false, 0.0, {}, [])
    {
      this.userId, maxBorrowLimit := userId, limit;
      isSuspended, unpaidFines, active, borrowHistory := false, 0.0, {}, [];
    }

    function CanBorrow(): (r: bool)
      reads this
      ensures r == View().CanBorrow()
    {
      if isSuspended then false
      else if unpaidFines > FINE_THRESHOLD then false
      else if |active| >= maxBorrowLimit then false
      else true
    }

    method AddBorrow(copyId: CopyId, isbn: Isbn)
      modifies this
      ensures View() == old(View()).AddBorrow(copyId, isbn)
    {
      active := active + {copyId};
      borrowHistory := borrowHistory + [Loan(copyId, isbn, false, false, false)];
    }

    method RecordReturn(copyId: CopyId, late: bool, damaged: bool)
      modifies this
      ensures View() == old(View()).RecordReturn(copyId, late, damaged)
    {
      ghost var before := borrowHistory;
      active := active - {copyId};
      var i := |borrowHistory|;
      assert before[..i] == before && before[i..] == [];
      while i > 0
        invariant 0 <= i <= |before| && borrowHistory == before
        invariant active == old(active) - {copyId} && isSuspended == old(isSuspended) && unpaidFines == old(unpaidFines)
        invariant Closed(before, copyId, late, damaged) == Closed(before[..i], copyId, late, damaged) + before[i..]
      {
        i := i - 1;
        ClosedStep(before, i, copyId, late, damaged);
        if borrowHistory[i].copyId == copyId && !borrowHistory[i].returned {
          borrowHistory := borrowHistory[i := Loan(copyId, borrowHistory[i].isbn, true, late, damaged)];
          return;
        }
      }
    }

    method AddFine(amount: real)
      modifies this
      ensures View() == old(View()).(fines := old(unpaidFines) + if amount > 0.0 then amount else 0.0)
    {
      unpaidFines := unpaidFines + if amount > 0.0 then amount else 0.0;
    }

    /** Pays at most the balance. */
    method PayFine(amount: real) returns (paid: real)
      modifies this
      ensures paid <= amount && paid <= old(unpaidFines) && (paid == amount || paid == old(unpaidFines))
      ensures View() == old(View()).(fines := old(unpaidFines) - paid)
    {
      paid := if unpaidFines < amount then unpaidFines else amount;
      unpaidFines := unpaidFines - paid;
    }
  }

  /** One round of the search from the back. */
  lemma ClosedStep(history: seq<Loan>, i: nat, copyId: CopyId, late: bool, damaged: bool)
    requires i < |history|
    ensures Closed(history[..i + 1], copyId, late, damaged) + history[i + 1..] ==
      if history[i].copyId == copyId && !history[i].returned then history[i := Loan(copyId, history[i].isbn, true, late, damaged)]
      else Closed(history[..i], copyId, late, damaged) + history[i..]
  {
    assert history[..i + 1][..i] == history[..i];
    assert [history[i]] + history[i + 1..] == history[i..];
    var closed := Loan(copyId, history[i].isbn, true, late, damaged);
    assert history[i := closed] == history[..i] + [closed] + history[i + 1..];
  }

  lemma {:induction false} ClosingOneLoan(history: seq<Loan>, copyId: CopyId, late: bool, damaged: bool, other: CopyId)
    ensures OpenLoans(Closed(history, copyId, late, damaged), other) ==
      if other == copyId && OpenLoans(history, copyId) > 0 then OpenLoans(history, copyId) - 1 else OpenLoans(history, other)
    ensures |Closed(history, copyId, late, damaged)| == |history|
  {
    if history != [] {
      var n := |history| - 1;
      ClosingOneLoan(history[..n], copyId, late, damaged, other);
      var r := Closed(history, copyId, late, damaged);
      assert |r| == n + 1 && r[..n] == if history[n].copyId == copyId && !history[n].returned then history[..n]
                                       else Closed(history[..n], copyId, late, damaged);
    }
  }

  /** It is the last open loan of the copy that is closed, and no other entry changes. */
  lemma {:induction false} ClosesTheLastOpen(history: seq<Loan>, copyId: CopyId, late: bool, damaged: bool) returns (k: nat)
    requires OpenLoans(history, copyId) > 0
    ensures k < |history| && history[k].copyId == copyId && !history[k].returned
    ensures forall i :: k < i < |history| ==> history[i].copyId != copyId || history[i].returned
    ensures Closed(history, copyId, late, damaged) == history[k := Loan(copyId, history[k].isbn, true, late, damaged)]
  {
    k := |history| - 1;
    if history[k].copyId != copyId || history[k].returned {
      k := ClosesTheLastOpen(history[..k], copyId, late, damaged);
    }
  }

  lemma OpeningOneLoan(history: seq<Loan>, copyId: CopyId, isbn: Isbn, other: CopyId)
    ensures OpenLoans(history + [Loan(copyId, isbn, false, false, false)], other) ==
      OpenLoans(history, other) + if other == copyId then 1 else 0
  {
    assert (history + [Loan(copyId, isbn, false, false, false)])[..|history|] == history;
  }
}
