/**
  The catalogue's details page behind its cache: which operations forget a title's page, and when what the cache
  serves is what the repository would say.
 */
module Catalog {
  import opened Types
  import opened Domain
  import opened Circulation
  import opened LibraryRuns
  import Lru = LruCaches

  datatype CopyRow = CopyRow(
    copyId: CopyId, branch: BranchId, status: Status, borrower: Option<UserId>, reserver: Option<UserId>, borrowCount: nat)

  /** What is shown of a title; the numbers of all and of available copies follow from the rows. */
  datatype Details = Details(about: string, physical: bool, rows: seq<CopyRow>)

  type Pages = Lru.Entries<Details>

  function Row(c: CopyId, copy: Copy): CopyRow {
    CopyRow(c, copy.branch, copy.status, copy.borrower, copy.reserver, copy.borrowCount)
  }

  function Rows(ids: seq<CopyId>, copies: Copies): seq<CopyRow> {
    if ids == [] then []
    else
      Rows(ids[..|ids| - 1], copies) +
      if ids[|ids| - 1] in copies then [Row(ids[|ids| - 1], copies[ids[|ids| - 1]])] else []
  }

  /** What the repository itself says of a title. */
  function DetailsOf(titles: map<Isbn, Title>, copies: Copies, isbn: Isbn): Option<Details> {
    if isbn !in titles then None
    else
      match titles[isbn]
      case Physical(about, ids) => Some(Details(about, true, Rows(ids, copies)))
      case Digital(about) => Some(Details(about, false, []))
  }

  function Page(isbn: Isbn): Lru.Key {
    "book:" + isbn.text
  }

  const PAGE_TTL := 600.0

  // ---- what the operations do to the cache

  function Forget(cache: Pages, isbn: Isbn): Pages {
    Lru.Without(cache, {Page(isbn)})
  }

  function AfterIssue(cache: Pages, result: Result<BorrowRecord, Error>): Pages {
    if result.Ok? then Forget(cache, result.value.isbn) else cache
  }

  /** Transfers, accounts and reservations forget nothing. */
  function CacheAfter(w: World, cache: Pages, step: Step): Pages {
    match step
    case DoIssue(c, u, tx) => AfterIssue(cache, Issue(w, c, u, tx).0)
    case DoReturn(c, late, damaged) =>
      if Return(w, c, late, damaged).0.Ok? then Forget(cache, w.copies[c].isbn) else cache
    case DoDrop(isbn, tx) =>
      var result := Drop(w, isbn, tx).0;
      if result.Some? then AfterIssue(cache, result.value) else cache
    case DoRegister(isbn, _, _) => Forget(Lru.WithoutPrefix(cache, "search:"), isbn)
    case DoAddCopy(isbn, c, branch) => if AddCopy(w, isbn, c, branch).0.None? then Forget(cache, isbn) else cache
    case _ => cache
  }

  function ReadPage(w: World, cache: Pages, capacity: int, isbn: Isbn, now: real): (Option<Details>, Pages) {
    Lru.GetOr(cache, capacity, Page(isbn), DetailsOf(w.titles, w.copies, isbn), Some(PAGE_TTL), now)
  }

  // ---- coherence

  /** What is cached of a title, fresh or expired, is what the repository says. */
  ghost predicate CoherentAt(w: World, cache: Pages, isbn: Isbn) {
    forall e :: e in cache && e.key == Page(isbn) ==> DetailsOf(w.titles, w.copies, isbn) == Some(e.value)
  }

  ghost predicate Coherent(w: World, cache: Pages) {
    forall isbn :: CoherentAt(w, cache, isbn)
  }

  ghost predicate Cached(cache: Pages, isbn: Isbn) {
    exists e :: e in cache && e.key == Page(isbn)
  }

  lemma PagesDiffer(i: Isbn, j: Isbn)
    ensures Page(i) == Page(j) ==> i == j
  {
    assert Page(i)[5..] == i.text && Page(j)[5..] == j.text;
  }

  lemma {:induction false} RowsAreListed(ids: seq<CopyId>, isbn: Isbn, copies: Copies)
    requires ListOk(ids, isbn, copies)
    ensures |Rows(ids, copies)| == |ids|
    ensures forall i :: 0 <= i < |ids| ==> Rows(ids, copies)[i] == Row(ids[i], copies[ids[i]])
  {
    if ids != [] {
      RowsAreListed(ids[..|ids| - 1], isbn, copies);
    }
  }

  lemma {:induction false} RowsOfOthers(ids: seq<CopyId>, copies: Copies, c: CopyId, copy: Copy)
    requires c !in ids
    ensures Rows(ids, copies[c := copy]) == Rows(ids, copies)
  {
    if ids != [] {
      RowsOfOthers(ids[..|ids| - 1], copies, c, copy);
    }
  }

  /** A change to one copy shows on no other title's page. */
  lemma OtherTitlesUnchanged(titles: map<Isbn, Title>, copies: Copies, c: CopyId, copy: Copy, isbn: Isbn)
    requires TitlesOk(titles, copies) && (c in copies ==> copies[c].isbn == copy.isbn) && isbn != copy.isbn
    ensures DetailsOf(Listed(titles, copy.isbn, c), copies[c := copy], isbn) == DetailsOf(titles, copies, isbn)
  {
    if isbn in titles && titles[isbn].Physical? {
      assert ListOk(titles[isbn].copyIds, isbn, copies);
      RowsOfOthers(titles[isbn].copyIds, copies, c, copy);
    }
  }

  lemma ForgottenIsCoherent(w: World, cache: Pages, isbn: Isbn)
    ensures CoherentAt(w, Forget(cache, isbn), isbn)
  {
    Lru.WithoutMembers(cache, {Page(isbn)});
  }

  /** Changing a copy and forgetting its title's page leaves every other page as it was. */
  lemma SaveAndForget(w: World, cache: Pages, c: CopyId, copy: Copy, w': World, isbn: Isbn)
    requires TitlesOk(w.titles, w.copies) && CoherentAt(w, cache, isbn) && (c in w.copies ==> w.copies[c].isbn == copy.isbn)
    requires w'.titles == Listed(w.titles, copy.isbn, c) && w'.copies == w.copies[c := copy]
    ensures CoherentAt(w', Forget(cache, copy.isbn), isbn)
  {
    if isbn == copy.isbn {
      ForgottenIsCoherent(w', cache, isbn);
    } else {
      Lru.WithoutMembers(cache, {Page(copy.isbn)});
      OtherTitlesUnchanged(w.titles, w.copies, c, copy, isbn);
    }
  }

  /** The title whose page the step forgets, if any. */
  function Forgotten(w: World, step: Step): Option<Isbn> {
    match step
    case DoIssue(c, u, tx) =>
      var result := Issue(w, c, u, tx).0;
      if result.Ok? then Some(result.value.isbn) else None
    case DoReturn(c, late, damaged) => if Return(w, c, late, damaged).0.Ok? then Some(w.copies[c].isbn) else None
    case DoDrop(isbn, tx) =>
      var result := Drop(w, isbn, tx).0;
      if result.Some? && result.value.Ok? then Some(result.value.value.isbn) else None
    case DoRegister(isbn, _, _) => Some(isbn)
    case DoAddCopy(isbn, c, branch) => if AddCopy(w, isbn, c, branch).0.None? then Some(isbn) else None
    case _ => None
  }

  lemma ForgottenPageIsGone(w: World, cache: Pages, step: Step, isbn: Isbn)
    requires Enabled(w, step) && Forgotten(w, step) == Some(isbn)
    ensures CoherentAt(Next(w, step), CacheAfter(w, cache, step), isbn)
  {
    ForgottenIsCoherent(Next(w, step), if step.DoRegister? then Lru.WithoutPrefix(cache, "search:") else cache, isbn);
  }

  lemma IssueKeepsCoherence(w: World, cache: Pages, c: CopyId, u: UserId, tx: TransactionId, isbn: Isbn)
    requires Inv(w) && CoherentAt(w, cache, isbn)
    ensures CoherentAt(Issue(w, c, u, tx).1, AfterIssue(cache, Issue(w, c, u, tx).0), isbn)
  {
    if IssueError(w, c, u).None? {
      SaveAndForget(w, cache, c, w.copies[c].CheckOut(u).value, Issue(w, c, u, tx).1, isbn);
    }
  }

  lemma ReturnKeepsCoherence(w: World, cache: Pages, c: CopyId, late: bool, damaged: bool, isbn: Isbn)
    requires Inv(w) && CoherentAt(w, cache, isbn)
    ensures CoherentAt(Return(w, c, late, damaged).1, CacheAfter(w, cache, DoReturn(c, late, damaged)), isbn)
  {
    if Return(w, c, late, damaged).0.Ok? {
      var w' := Return(w, c, late, damaged).1;
      SaveAndForget(w, cache, c, w'.copies[c], w', isbn);
    }
  }

  lemma DropKeepsCoherence(w: World, cache: Pages, title: Isbn, tx: TransactionId, isbn: Isbn)
    requires Inv(w) && CoherentAt(w, cache, isbn)
    ensures CoherentAt(Drop(w, title, tx).1, CacheAfter(w, cache, DoDrop(title, tx)), isbn)
  {
    if Drop(w, title, tx).0.Some? {
      var (request, rest) := AllocationOf(w, title).Pop();
      var w' := w.(allocation := w.allocation[title := rest]);
      IssueKeepsCoherence(w', cache, FirstAvailable(w.titles[title].copyIds, w.copies).value, request.value.payload.userId, tx, isbn);
    }
  }

  lemma RegisterKeepsCoherence(w: World, cache: Pages, title: Isbn, about: string, physical: bool, isbn: Isbn)
    requires CoherentAt(w, cache, isbn)
    ensures CoherentAt(RegisterTitle(w, title, about, physical), CacheAfter(w, cache, DoRegister(title, about, physical)), isbn)
  {
    var kept, w' := Lru.WithoutPrefix(cache, "search:"), RegisterTitle(w, title, about, physical);
    if isbn == title {
      ForgottenIsCoherent(w', kept, isbn);
    } else {
      SearchPagesGo(cache);
      Lru.WithoutMembers(kept, {Page(title)});
      assert DetailsOf(w'.titles, w'.copies, isbn) == DetailsOf(w.titles, w.copies, isbn);
    }
  }

  lemma {:induction false} SearchPagesGo(cache: Pages)
    ensures forall e :: e in Lru.WithoutPrefix(cache, "search:") ==> e in cache
  {
    if cache != [] {
      SearchPagesGo(cache[1..]);
    }
  }

  /** The title of the copy that the step sends off or lets arrive. */
  function Moved(w: World, step: Step): Option<Isbn> {
    match step
    case DoTransfer(c, dest, t) => if RequestTransfer(w, c, dest, t).0.Ok? then Some(w.copies[c].isbn) else None
    case DoComplete(t) =>
      var result := CompleteTransfer(w, t).0;
      if result.Some? && result.value.Ok? then Some(w.copies[w.transfers[t].copyId].isbn) else None
    case _ => None
  }

  lemma MoveSparesOthers(w: World, cache: Pages, step: Step, isbn: Isbn)
    requires Inv(w) && CoherentAt(w, cache, isbn) && (step.DoTransfer? || step.DoComplete?)
    requires Enabled(w, step) && Moved(w, step) != Some(isbn)
    ensures CoherentAt(Next(w, step), CacheAfter(w, cache, step), isbn)
  {
    var w' := Next(w, step);
    if Moved(w, step).Some? {
      var c := if step.DoTransfer? then step.c else w.transfers[step.t].copyId;
      OtherTitlesUnchanged(w.titles, w.copies, c, w'.copies[c], isbn);
    }
  }

  /** A step leaves a title's page coherent unless it moves one of the title's copies. */
  lemma StepKeepsCoherence(w: World, cache: Pages, step: Step, isbn: Isbn)
    requires Inv(w) && CoherentAt(w, cache, isbn) && Enabled(w, step) && Moved(w, step) != Some(isbn)
    ensures CoherentAt(Next(w, step), CacheAfter(w, cache, step), isbn)
  {
    match step
    case DoIssue(c, u, tx) => IssueKeepsCoherence(w, cache, c, u, tx, isbn);
    case DoReturn(c, late, damaged) => ReturnKeepsCoherence(w, cache, c, late, damaged, isbn);
    case DoDrop(title, tx) => DropKeepsCoherence(w, cache, title, tx, isbn);
    case DoTransfer(_, _, _) => MoveSparesOthers(w, cache, step, isbn);
    case DoComplete(_) => MoveSparesOthers(w, cache, step, isbn);
    case DoRegister(title, about, physical) => RegisterKeepsCoherence(w, cache, title, about, physical, isbn);
    case DoAddCopy(title, c, branch) =>
      if AddCopy(w, title, c, branch).0.None? {
        SaveAndForget(w, cache, c, Copy(title, branch, AVAILABLE, None, None, None, 0), Next(w, step), isbn);
      }
    case _ =>
  }

  // ---- reading

  lemma HitIsFaithful(w: World, cache: Pages, isbn: Isbn, now: real)
    requires CoherentAt(w, cache, isbn)
    ensures var cached := Lru.Get(cache, Page(isbn), now).0; cached.Some? ==> cached == DetailsOf(w.titles, w.copies, isbn)
  {
    Lru.FindMember(cache, Page(isbn));
  }

  /** What a read leaves cached was cached before, or is the page just loaded. */
  lemma ReadLeaves(w: World, cache: Pages, capacity: int, title: Isbn, now: real, e: Lru.Entry<Details>)
    requires e in ReadPage(w, cache, capacity, title, now).1
    ensures e in cache || (e.key == Page(title) && DetailsOf(w.titles, w.copies, title) == Some(e.value))
    ensures e.key == Page(title) && Lru.Get(cache, Page(title), now).0.None? ==> DetailsOf(w.titles, w.copies, title) == Some(e.value)
  {
    var key := Page(title);
    var after := Lru.Get(cache, key, now).1;
    Lru.FindMember(cache, key);
    Lru.WithoutMembers(cache, {key});
    Lru.WithoutMembers(after, {key});
    assert forall x :: x in after ==> x in cache;
    assert forall x :: x in Lru.MakeRoom(after, capacity, key) ==> x in after;
  }

  /** Reading any page leaves a coherent page coherent. */
  lemma ReadKeepsCoherence(w: World, cache: Pages, capacity: int, title: Isbn, now: real, isbn: Isbn)
    requires CoherentAt(w, cache, isbn)
    ensures CoherentAt(w, ReadPage(w, cache, capacity, title, now).1, isbn)
  {
    forall e | e in ReadPage(w, cache, capacity, title, now).1 && e.key == Page(isbn)
      ensures DetailsOf(w.titles, w.copies, isbn) == Some(e.value)
    {
      ReadLeaves(w, cache, capacity, title, now, e);
      PagesDiffer(isbn, title);
    }
  }

  /** A read that finds no live page makes its page coherent, whatever was cached before. */
  lemma MissRestoresCoherence(w: World, cache: Pages, capacity: int, isbn: Isbn, now: real)
    requires Lru.Get(cache, Page(isbn), now).0.None?
    ensures CoherentAt(w, ReadPage(w, cache, capacity, isbn, now).1, isbn)
  {
    forall e | e in ReadPage(w, cache, capacity, isbn, now).1 && e.key == Page(isbn)
      ensures DetailsOf(w.titles, w.copies, isbn) == Some(e.value)
    {
      ReadLeaves(w, cache, capacity, isbn, now, e);
    }
  }

  /** Reading a coherent page serves what the repository says. */
  lemma ReadIsFaithful(w: World, cache: Pages, capacity: int, isbn: Isbn, now: real)
    requires CoherentAt(w, cache, isbn)
    ensures ReadPage(w, cache, capacity, isbn, now).0 == DetailsOf(w.titles, w.copies, isbn)
  {
    HitIsFaithful(w, cache, isbn, now);
  }

  // ---- runs

  datatype Use = Change(step: Step) | Look(isbn: Isbn, now: real)

  /** A use leaves the library and the cache so; steps that are not enabled do nothing. */
  function AfterUse(w: World, cache: Pages, capacity: int, use: Use): (World, Pages) {
    match use
    case Change(step) => if Enabled(w, step) then (Next(w, step), CacheAfter(w, cache, step)) else (w, cache)
    case Look(isbn, now) => (w, ReadPage(w, cache, capacity, isbn, now).1)
  }

  function AfterUses(capacity: int, uses: seq<Use>): (World, Pages) {
    if uses == [] then (EMPTY, [])
    else
      var (w, cache) := AfterUses(capacity, uses[..|uses| - 1]);
      AfterUse(w, cache, capacity, uses[|uses| - 1])
  }

  /** The use moves a copy of the title. */
  predicate MovesTitle(w: World, use: Use, isbn: Isbn) {
    use.Change? && Enabled(w, use.step) && Moved(w, use.step) == Some(isbn)
  }

  /** The use forgets the title's page, or loads it. */
  predicate Renews(w: World, cache: Pages, use: Use, isbn: Isbn) {
    match use
    case Change(step) => Enabled(w, step) && Forgotten(w, step) == Some(isbn)
    case Look(title, now) => title == isbn && Lru.Get(cache, Page(isbn), now).0.None?
  }

  /** A copy of the title has moved since its page was last forgotten or loaded. */
  predicate MovedSince(capacity: int, uses: seq<Use>, isbn: Isbn) {
    uses != [] &&
    (var (w, cache) := AfterUses(capacity, uses[..|uses| - 1]);
     var use := uses[|uses| - 1];
     MovesTitle(w, use, isbn) || (!Renews(w, cache, use, isbn) && MovedSince(capacity, uses[..|uses| - 1], isbn)))
  }

  lemma UseKeepsCoherence(w: World, cache: Pages, capacity: int, use: Use, isbn: Isbn)
    requires Inv(w) && !MovesTitle(w, use, isbn) && (Renews(w, cache, use, isbn) || CoherentAt(w, cache, isbn))
    ensures var (w', cache') := AfterUse(w, cache, capacity, use); Inv(w') && CoherentAt(w', cache', isbn)
  {
    match use
    case Change(step) =>
      if Enabled(w, step) {
        NextKeepsInv(w, step);
        if Forgotten(w, step) == Some(isbn) {
          ForgottenPageIsGone(w, cache, step, isbn);
        } else {
          StepKeepsCoherence(w, cache, step, isbn);
        }
      }
    case Look(title, now) =>
      if Renews(w, cache, use, isbn) {
        MissRestoresCoherence(w, cache, capacity, isbn, now);
      } else {
        ReadKeepsCoherence(w, cache, capacity, title, now, isbn);
      }
  }

  lemma {:induction false} UnmovedIsCoherent(capacity: int, uses: seq<Use>, isbn: Isbn)
    ensures var (w, cache) := AfterUses(capacity, uses);
            Inv(w) && (!MovedSince(capacity, uses, isbn) ==> CoherentAt(w, cache, isbn))
  {
    if uses == [] {
      EmptyLibraryIsSound();
    } else {
      var before, use := uses[..|uses| - 1], uses[|uses| - 1];
      UnmovedIsCoherent(capacity, before, isbn);
      var (w, cache) := AfterUses(capacity, before);
      if MovesTitle(w, use, isbn) {
        NextKeepsInv(w, use.step);
      } else if MovedSince(capacity, uses, isbn) {
        if use.Change? && Enabled(w, use.step) {
          NextKeepsInv(w, use.step);
        }
      } else {
        UseKeepsCoherence(w, cache, capacity, use, isbn);
      }
    }
  }

  /**
    In every run, transfers included, whatever the capacity and the clock: a page is what the repository says unless a
    copy of its title has moved since the page was last forgotten or loaded.
   */
  lemma PagesAreFaithfulUnlessMoved(capacity: int, uses: seq<Use>, isbn: Isbn, now: real)
    requires !MovedSince(capacity, uses, isbn)
    ensures var (w, cache) := AfterUses(capacity, uses);
            ReadPage(w, cache, capacity, isbn, now).0 == DetailsOf(w.titles, w.copies, isbn)
  {
    UnmovedIsCoherent(capacity, uses, isbn);
    var (w, cache) := AfterUses(capacity, uses);
    ReadIsFaithful(w, cache, capacity, isbn, now);
  }

  predicate MovesCopies(use: Use) {
    use.Change? && (use.step.DoTransfer? || use.step.DoComplete?)
  }

  lemma {:induction false} WithoutTransfersNothingMoves(capacity: int, uses: seq<Use>, isbn: Isbn)
    requires forall i :: 0 <= i < |uses| ==> !MovesCopies(uses[i])
    ensures !MovedSince(capacity, uses, isbn)
  {
    if uses != [] {
      WithoutTransfersNothingMoves(capacity, uses[..|uses| - 1], isbn);
      assert !MovesCopies(uses[|uses| - 1]);
    }
  }

  /** So in every run without transfers each page read is what the repository says. */
  lemma PagesAreNeverStale(capacity: int, uses: seq<Use>, isbn: Isbn, now: real)
    requires forall i :: 0 <= i < |uses| ==> !MovesCopies(uses[i])
    ensures var (w, cache) := AfterUses(capacity, uses);
            && Inv(w) && Coherent(w, cache)
            && ReadPage(w, cache, capacity, isbn, now).0 == DetailsOf(w.titles, w.copies, isbn)
  {
    forall i ensures !MovedSince(capacity, uses, i) {
      WithoutTransfersNothingMoves(capacity, uses, i);
    }
    var (w, cache) := AfterUses(capacity, uses);
    forall i ensures Inv(w) && CoherentAt(w, cache, i) {
      UnmovedIsCoherent(capacity, uses, i);
    }
    ReadIsFaithful(w, cache, capacity, isbn, now);
  }

  // ---- transfers

  /** A copy whose status changed shows on its physical title's page. */
  lemma StatusChangeShows(titles: map<Isbn, Title>, copies: Copies, c: CopyId, copy: Copy)
    requires TitlesOk(titles, copies) && c in copies && copies[c].isbn == copy.isbn && copies[c].status != copy.status
    requires copy.isbn in titles && titles[copy.isbn].Physical?
    ensures DetailsOf(Listed(titles, copy.isbn, c), copies[c := copy], copy.isbn) != DetailsOf(titles, copies, copy.isbn)
  {
    var titles', copies', isbn := Listed(titles, copy.isbn, c), copies[c := copy], copy.isbn;
    var ids, ids' := titles[isbn].copyIds, titles'[isbn].copyIds;
    SavingKeepsTitles(titles, copies, c, copy);
    assert ListOk(ids, isbn, copies) && ListOk(ids', isbn, copies');
    RowsAreListed(ids, isbn, copies);
    RowsAreListed(ids', isbn, copies');
    if c in ids {
      var k :| 0 <= k < |ids| && ids[k] == c;
      assert Rows(ids, copies)[k].status != Rows(ids', copies')[k].status;
    }
  }

  /** What a page shows of each copy, column by column. */
  lemma PageShows(titles: map<Isbn, Title>, copies: Copies, isbn: Isbn, k: nat)
    requires TitlesOk(titles, copies) && isbn in titles && titles[isbn].Physical? && k < |titles[isbn].copyIds|
    ensures var ids := titles[isbn].copyIds;
      var page := DetailsOf(titles, copies, isbn);
      && page.Some? && |page.value.rows| == |ids| && ids[k] in copies
      && var row, copy := page.value.rows[k], copies[ids[k]];
      && row.copyId == ids[k] && row.branch == copy.branch && row.status == copy.status
      && row.borrower == copy.borrower && row.reserver == copy.reserver && row.borrowCount == copy.borrowCount
  {
    assert ListOk(titles[isbn].copyIds, isbn, copies);
    RowsAreListed(titles[isbn].copyIds, isbn, copies);
  }

  /** A title just registered shows what was said about it, and no copies. */
  lemma RegisteredPage(w: World, isbn: Isbn, about: string, physical: bool)
    ensures var w' := RegisterTitle(w, isbn, about, physical);
      && DetailsOf(w'.titles, w'.copies, isbn) == Some(Details(about, physical, []))
      && w' == w.(titles := w'.titles) && forall other :: other != isbn ==>
           DetailsOf(w'.titles, w'.copies, other) == DetailsOf(w.titles, w.copies, other)
  {
  }

  /** Two copies that no page tells apart. */
  predicate LooksLike(a: Copy, b: Copy) {
    && a.branch == b.branch && a.status == b.status && a.borrower == b.borrower && a.reserver == b.reserver
    && a.borrowCount == b.borrowCount
  }

  /** Two states of the copies show the same page of a title exactly when they agree, copy by copy, on what is shown. */
  lemma SamePageIff(titles: map<Isbn, Title>, copies: Copies, copies': Copies, isbn: Isbn)
    requires TitlesOk(titles, copies) && TitlesOk(titles, copies') && isbn in titles && titles[isbn].Physical?
    ensures DetailsOf(titles, copies, isbn) == DetailsOf(titles, copies', isbn) <==>
      forall c :: c in titles[isbn].copyIds ==> c in copies && c in copies' && LooksLike(copies[c], copies'[c])
  {
    var ids := titles[isbn].copyIds;
    assert ListOk(ids, isbn, copies) && ListOk(ids, isbn, copies');
    RowsAreListed(ids, isbn, copies);
    RowsAreListed(ids, isbn, copies');
    var rows, rows' := Rows(ids, copies), Rows(ids, copies');
    forall i | 0 <= i < |ids| ensures rows[i] == rows'[i] <==> LooksLike(copies[ids[i]], copies'[ids[i]]) {}
    assert rows == rows' <==> forall i :: 0 <= i < |ids| ==> rows[i] == rows'[i];
  }

  /** A saved change that forgets nothing leaves a coherent page of its title stale exactly when there is one cached. */
  lemma UnforgottenChange(w: World, cache: Pages, c: CopyId, copy: Copy, w': World)
    requires TitlesOk(w.titles, w.copies) && CoherentAt(w, cache, copy.isbn)
    requires c in w.copies && w.copies[c].isbn == copy.isbn && w.copies[c].status != copy.status
    requires w'.titles == Listed(w.titles, copy.isbn, c) && w'.copies == w.copies[c := copy]
    ensures CoherentAt(w', cache, copy.isbn) <==>
      !(copy.isbn in w.titles && w.titles[copy.isbn].Physical? && Cached(cache, copy.isbn))
  {
    if copy.isbn in w.titles && w.titles[copy.isbn].Physical? {
      StatusChangeShows(w.titles, w.copies, c, copy);
      if Cached(cache, copy.isbn) {
        var e :| e in cache && e.key == Page(copy.isbn);
        assert DetailsOf(w'.titles, w'.copies, copy.isbn) != Some(e.value);
      }
    }
  }

  /** A read of the changed title's page is then wrong exactly while the page of a physical title is cached and unexpired. */
  lemma UnforgottenRead(w: World, cache: Pages, c: CopyId, copy: Copy, w': World, capacity: int, now: real)
    requires TitlesOk(w.titles, w.copies) && CoherentAt(w, cache, copy.isbn)
    requires c in w.copies && w.copies[c].isbn == copy.isbn && w.copies[c].status != copy.status
    requires w'.titles == Listed(w.titles, copy.isbn, c) && w'.copies == w.copies[c := copy]
    ensures ReadPage(w', cache, capacity, copy.isbn, now).0 != DetailsOf(w'.titles, w'.copies, copy.isbn) <==>
      copy.isbn in w.titles && w.titles[copy.isbn].Physical? && Lru.Get(cache, Page(copy.isbn), now).0.Some?
  {
    HitIsFaithful(w, cache, copy.isbn, now);
    if copy.isbn in w.titles && w.titles[copy.isbn].Physical? {
      StatusChangeShows(w.titles, w.copies, c, copy);
    }
  }

  /** Sending a copy off makes its title's coherent page stale exactly when the title is physical and the page cached. */
  lemma TransferStalesIff(w: World, cache: Pages, c: CopyId, dest: BranchId, t: TransferId)
    requires Inv(w) && RequestTransfer(w, c, dest, t).0.Ok? && CoherentAt(w, cache, w.copies[c].isbn)
    ensures var isbn := w.copies[c].isbn;
            CoherentAt(RequestTransfer(w, c, dest, t).1, CacheAfter(w, cache, DoTransfer(c, dest, t)), isbn) <==>
            !(isbn in w.titles && w.titles[isbn].Physical? && Cached(cache, isbn))
  {
    UnforgottenChange(w, cache, c, w.copies[c].StartTransfer(dest).value, RequestTransfer(w, c, dest, t).1);
  }

  /** So does its arrival. */
  lemma ArrivalStalesIff(w: World, cache: Pages, t: TransferId)
    requires Inv(w) && CompleteTransfer(w, t).0.Some? && CompleteTransfer(w, t).0.value.Ok?
    requires CoherentAt(w, cache, w.copies[w.transfers[t].copyId].isbn)
    ensures var isbn := w.copies[w.transfers[t].copyId].isbn;
            CoherentAt(CompleteTransfer(w, t).1, CacheAfter(w, cache, DoComplete(t)), isbn) <==>
            !(isbn in w.titles && w.titles[isbn].Physical? && Cached(cache, isbn))
  {
    var c := w.transfers[t].copyId;
    UnforgottenChange(w, cache, c, w.copies[c].CompleteTransfer().value, CompleteTransfer(w, t).1);
  }

  /** Right after a departure, reading the page at any time shows the copy as it was exactly while the old page lives. */
  lemma TransferMisleadsIff(w: World, cache: Pages, c: CopyId, dest: BranchId, t: TransferId, capacity: int, now: real)
    requires Inv(w) && RequestTransfer(w, c, dest, t).0.Ok? && CoherentAt(w, cache, w.copies[c].isbn)
    ensures var w', isbn := RequestTransfer(w, c, dest, t).1, w.copies[c].isbn;
            ReadPage(w', CacheAfter(w, cache, DoTransfer(c, dest, t)), capacity, isbn, now).0 != DetailsOf(w'.titles, w'.copies, isbn) <==>
            isbn in w.titles && w.titles[isbn].Physical? && Lru.Get(cache, Page(isbn), now).0.Some?
  {
    UnforgottenRead(w, cache, c, w.copies[c].StartTransfer(dest).value, RequestTransfer(w, c, dest, t).1, capacity, now);
  }

  /** Likewise after an arrival. */
  lemma ArrivalMisleadsIff(w: World, cache: Pages, t: TransferId, capacity: int, now: real)
    requires Inv(w) && CompleteTransfer(w, t).0.Some? && CompleteTransfer(w, t).0.value.Ok?
    requires CoherentAt(w, cache, w.copies[w.transfers[t].copyId].isbn)
    ensures var w', isbn := CompleteTransfer(w, t).1, w.copies[w.transfers[t].copyId].isbn;
            ReadPage(w', CacheAfter(w, cache, DoComplete(t)), capacity, isbn, now).0 != DetailsOf(w'.titles, w'.copies, isbn) <==>
            isbn in w.titles && w.titles[isbn].Physical? && Lru.Get(cache, Page(isbn), now).0.Some?
  {
    var c := w.transfers[t].copyId;
    UnforgottenRead(w, cache, c, w.copies[c].CompleteTransfer().value, CompleteTransfer(w, t).1, capacity, now);
  }

  /** A page loaded before a departure misleads for ten minutes from its loading, and not after. */
  lemma PageMisleadsForTenMinutes(w: World, cache: Pages, c: CopyId, dest: BranchId, t: TransferId, capacity: int, loaded: real, now: real)
    requires Inv(w) && RequestTransfer(w, c, dest, t).0.Ok? && Lru.Distinct(cache)
    requires var isbn := w.copies[c].isbn; isbn in w.titles && w.titles[isbn].Physical? && Lru.Get(cache, Page(isbn), loaded).0.None?
    ensures var w', isbn := RequestTransfer(w, c, dest, t).1, w.copies[c].isbn;
            var kept := CacheAfter(w, ReadPage(w, cache, capacity, isbn, loaded).1, DoTransfer(c, dest, t));
            ReadPage(w', kept, capacity, isbn, now).0 != DetailsOf(w'.titles, w'.copies, isbn) <==> now <= loaded + 600.0
  {
    var isbn := w.copies[c].isbn;
    var page := DetailsOf(w.titles, w.copies, isbn);
    var cached := ReadPage(w, cache, capacity, isbn, loaded).1;
    MissRestoresCoherence(w, cache, capacity, isbn, loaded);
    Lru.WithoutMembers(cache, {Page(isbn)});
    Lru.ServedUntilExpiry(Lru.Without(cache, {Page(isbn)}), capacity, Page(isbn), page.value, Some(PAGE_TTL), loaded, now);
    TransferMisleadsIff(w, cached, c, dest, t, capacity, now);
  }
}
