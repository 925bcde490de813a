/** The stores the services share: copies and titles, waiting lists, and transfers between branches. */
module Repositories {
  import opened Types
  import opened Domain
  import opened Circulation

  /** The copies, each under its own id, are as in `view`. */
  ghost predicate CopiesShow(copies: map<CopyId, BookCopy>, view: Copies)
    reads copies.Values
  {
    && copies.Keys == view.Keys
    && forall c :: c in copies ==> copies[c].copyId == c && copies[c].View() == view[c]
  }

  /** The same, for all copies but one that is being changed. */
  ghost predicate OthersShow(copies: map<CopyId, BookCopy>, view: Copies, c: CopyId)
    reads copies.Values
  {
    && copies.Keys == view.Keys
    && forall d :: d in copies ==> copies[d].copyId == d && (d != c ==> copies[d].View() == view[d])
  }

  function WithOwn(copies: map<CopyId, BookCopy>, own: seq<BookCopy>): map<CopyId, BookCopy> {
    if own == [] then copies
    else WithOwn(copies, own[..|own| - 1])[own[|own| - 1].copyId := own[|own| - 1]]
  }

  ghost function WithViews(view: Copies, own: seq<BookCopy>): Copies
    reads own
  {
    if own == [] then view
    else WithViews(view, own[..|own| - 1])[own[|own| - 1].copyId := own[|own| - 1].View()]
  }

  /** Saving a title stores each of its own copies and leaves all other copies as they were. */
  lemma {:induction false} OwnCopiesAreStored(copies: map<CopyId, BookCopy>, own: seq<BookCopy>, ids: seq<CopyId>)
    requires Carries(own, ids)
    ensures forall i :: 0 <= i < |ids| ==> ids[i] in WithOwn(copies, own) && WithOwn(copies, own)[ids[i]] == own[i]
    ensures forall c :: c !in ids ==> (c in WithOwn(copies, own) <==> c in copies) && (c in copies ==> WithOwn(copies, own)[c] == copies[c])
  {
    if own != [] {
      OwnCopiesAreStored(copies, own[..|own| - 1], ids[..|ids| - 1]);
    }
  }

  /** A title's own copies, one for each id it lists. */
  ghost predicate Carries(own: seq<BookCopy>, ids: seq<CopyId>) {
    && |own| == |ids|
    && (forall i :: 0 <= i < |ids| ==> own[i].copyId == ids[i])
    && (forall i, j :: 0 <= i < j < |ids| ==> ids[i] != ids[j])
  }

  /** Copies are live objects: a change to one is seen at once through the repository. */
  class InMemoryBookRepository {
    var copies: map<CopyId, BookCopy>
    var titles: map<Isbn, Title>
    ghost var view: Copies

    ghost predicate Valid()
      reads this, copies.Values
    {
      CopiesShow(copies, view)
    }

    constructor ()
      ensures Valid() && copies == map[] && titles == map[] && view == map[]
    {
      copies, titles, view := map[], map[], map[];
    }

    /** The title, and with a physical one each copy of its own under that copy's id. */
    method SaveBook(isbn: Isbn, title: Title, own: seq<BookCopy>)
      requires Valid()
      requires match title case Physical(_, ids) => Carries(own, ids) case Digital(_) => own == []
      modifies this
      ensures Valid() && titles == old(titles)[isbn := title]
      ensures copies == WithOwn(old(copies), own)
      ensures view == WithViews(old(view), own)
    {
      titles := titles[isbn := title];
      for i := 0 to |own|
        invariant Valid() && titles == old(titles)[isbn := title]
        invariant copies == WithOwn(old(copies), own[..i]) && view == WithViews(old(view), own[..i])
      {
        assert own[..i + 1][..i] == own[..i];
        Put(own[i]);
      }
      assert own[..|own|] == own;
    }

    method Put(copy: BookCopy)
      requires OthersShow(copies, view, copy.copyId)
      modifies this`copies, this`view
      ensures Valid() && copies == old(copies)[copy.copyId := copy] && view == old(view)[copy.copyId := copy.View()]
    {
      copies, view := copies[copy.copyId := copy], view[copy.copyId := copy.View()];
    }

    method SaveCopy(copy: BookCopy)
      requires OthersShow(copies, view, copy.copyId)
      modifies this
      ensures Valid() && copies == old(copies)[copy.copyId := copy] && view == old(view)[copy.copyId := copy.View()]
      ensures titles == Listed(old(titles), copy.bookIsbn, copy.copyId)
    {
      Put(copy);
      if copy.bookIsbn in titles {
        match titles[copy.bookIsbn] {
          case Physical(about, ids) =>
            if copy.copyId !in ids {
              titles := titles[copy.bookIsbn := Physical(about, ids + [copy.copyId])];
            }
          case Digital(_) =>
        }
      }
    }

    /** The listed copies that can be lent, in list order, at one branch or anywhere. */
    method GetAvailableCopies(ids: seq<CopyId>, at: Option<BranchId>) returns (available: seq<BookCopy>)
      requires Valid()
      ensures |available| == |Available(ids, view, at)|
      ensures forall i :: 0 <= i < |available| ==> IsCopy(available[i], Available(ids, view, at)[i])
    {
      available := [];
      for i := 0 to |ids|
        invariant |available| == |Available(ids[..i], view, at)|
        invariant forall j :: 0 <= j < |available| ==> IsCopy(available[j], Available(ids[..i], view, at)[j])
      {
        assert ids[..i + 1][..i] == ids[..i];
        if ids[i] in copies && copies[ids[i]].status == AVAILABLE && (at.None? || copies[ids[i]].branchId == at.value) {
          available := available + [copies[ids[i]]];
        }
      }
      assert ids[..|ids|] == ids;
    }

    ghost predicate IsCopy(copy: BookCopy, c: CopyId)
      reads this
    {
      copy.copyId == c && c in copies && copies[c] == copy
    }
  }

  class BookReservationQueueManager {
    var queues: map<Isbn, seq<ReservationId>>
    var reservations: Reservations
    ghost var accepted: seq<(Isbn, ReservationId)>

    ghost function View(): Queues
      reads this
    {
      Queues(queues, reservations)
    }

    constructor ()
      ensures View() == Queues(map[], map[]) && accepted == []
    {
      queues, reservations, accepted := map[], map[], [];
    }

    /** Someone already in the queue keeps the old entry. */
    method ReserveBook(isbn: Isbn, user: UserId, newId: ReservationId) returns (id: ReservationId)
      modifies this
      ensures (id, View()) == JoinQueue(old(View()), isbn, user, newId)
      ensures accepted == old(accepted) +
        if FindWaiting(WaitingFor(old(View()), isbn), old(reservations), user).None? then [(isbn, newId)] else []
    {
      if isbn !in queues {
        queues := queues[isbn := []];
      }
      var queue := queues[isbn];
      assert queue[0..] == queue;
      for i := 0 to |queue|
        invariant queues == old(queues)[isbn := queue] && queue == WaitingFor(old(View()), isbn)
        invariant reservations == old(reservations) && accepted == old(accepted)
        invariant FindWaiting(queue[i..], reservations, user) == FindWaiting(queue, reservations, user)
      {
        if queue[i] in reservations && reservations[queue[i]].user == user &&
           (reservations[queue[i]].status == PENDING || reservations[queue[i]].status == READY_FOR_PICKUP) {
          return queue[i];
        }
        assert queue[i..][1..] == queue[i + 1..];
      }
      queues := queues[isbn := queue + [newId]];
      assert queues == old(queues)[isbn := queue + [newId]];
      reservations := reservations[newId := Reservation(isbn, user, PENDING, None)];
      accepted := accepted + [(isbn, newId)];
      id := newId;
    }

    /** Takes entries off the queue until one is still pending, and readies it. */
    method HandleCopyReturned(isbn: Isbn, copyId: CopyId) returns (chosen: Option<ReservationId>)
      modifies this
      ensures (chosen, View()) == AssignReturned(old(View()), isbn, copyId) && accepted == old(accepted)
    {
      if isbn !in queues || queues[isbn] == [] {
        return None;
      }
      ghost var start := queues[isbn];
      while queues[isbn] != []
        invariant isbn in queues && queues == old(queues)[isbn := queues[isbn]]
        invariant reservations == old(reservations) && accepted == old(accepted)
        invariant PopPending(queues[isbn], reservations) == PopPending(start, reservations)
        decreases |queues[isbn]|
      {
        var entry := queues[isbn][0];
        queues := queues[isbn := queues[isbn][1..]];
        assert queues == old(queues)[isbn := queues[isbn]];
        if IsPending(reservations, entry) {
          reservations := reservations[entry := reservations[entry].(status := READY_FOR_PICKUP, copyId := Some(copyId))];
          return Some(entry);
        }
      }
      assert PopPending(start, reservations) == (None, []);
      chosen := None;
    }
  }

  class MultiBranchManager {
    var branches: set<BranchId>
    var transfers: Transfers

    constructor ()
      ensures branches == {} && transfers == map[]
    {
      branches, transfers := {}, map[];
    }

    method RegisterBranch(branch: BranchId)
      modifies this
      ensures branches == old(branches) + {branch} && transfers == old(transfers)
    {
      branches := branches + {branch};
    }

    /** Puts the copy on its way under a new transfer id. */
    method RequestTransfer(copy: BookCopy, dest: BranchId, newId: TransferId) returns (r: Result<Transfer, Error>)
      modifies this, copy
      ensures branches == old(branches)
      ensures r == Departure(old(copy.View()), copy.copyId, branches, dest)
      ensures copy.View() == if r.Ok? then old(copy.View()).StartTransfer(dest).value else old(copy.View())
      ensures transfers == if r.Ok? then old(transfers)[newId := r.value] else old(transfers)
    {
      if dest !in branches {
        return Err(BadTransfer);
      }
      if copy.branchId == dest {
        return Err(BadTransfer);
      }
      var ok := copy.StartTransfer(dest);
      if !ok {
        return Err(InvalidTransition);
      }
      var transfer := Transfer(copy.copyId, copy.bookIsbn, copy.branchId, dest, false);
      transfers := transfers[newId := transfer];
      r := Ok(transfer);
    }

    method CompleteTransfer(t: TransferId, copy: BookCopy) returns (r: Result<Transfer, Error>)
      modifies this, copy
      ensures branches == old(branches)
      ensures r == if t !in old(transfers) then Err(BadTransfer) else Arrival(old(copy.View()), old(transfers)[t])
      ensures copy.View() == if r.Ok? then old(copy.View()).CompleteTransfer().value else old(copy.View())
      ensures transfers == if r.Ok? then old(transfers)[t := r.value] else old(transfers)
    {
      if t !in transfers {
        return Err(BadTransfer);
      }
      if transfers[t].completed {
        return Err(InvalidTransition);
      }
      var ok := copy.CompleteTransfer();
      if !ok {
        return Err(InvalidTransition);
      }
      var done := transfers[t].(completed := true);
      transfers := transfers[t := done];
      r := Ok(done);
    }
  }
}
