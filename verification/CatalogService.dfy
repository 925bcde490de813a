/** The catalogue desk: titles and copies are added, and a title's page is served through the cache. */
module CatalogServices {
  import opened Types
  import opened Domain
  import opened Circulation
  import opened Repositories
  import opened Catalog
  import LruCaches
  import Index = InvertedIndexes
  import Tries

  /** One phrase entered for a title; a phrase that normalises to nothing is ignored. */
  function Entered(normalize: string -> string, table: Tries.Table, phrase: string, isbn: Isbn, text: string, weight: real): Tries.Table {
    if normalize(phrase) == "" then table
    else Tries.Inserted(table, Tries.PathOf(normalize(phrase)), isbn.text, text, weight)
  }

  /** A title is suggested under its own name, and a little behind under each of its authors' names. */
  function Suggested(normalize: string -> string, table: Tries.Table, isbn: Isbn, title: string, authors: seq<string>, rating: real): Tries.Table {
    if authors == [] then Entered(normalize, table, title, isbn, title, rating)
    else
      var author := authors[|authors| - 1];
      Entered(normalize, Suggested(normalize, table, isbn, title, authors[..|authors| - 1], rating),
              author, isbn, ByAuthor(title, author), Behind(rating))
  }

  function Behind(rating: real): real {
    rating * 0.9
  }

  function ByAuthor(title: string, author: string): string {
    title + " (by " + author + ")"
  }

  method Suggest(trie: Tries.AutocompleteTrie, isbn: Isbn, title: string, authors: seq<string>, rating: real)
    requires trie.Valid()
    modifies trie, trie.model.nodes.Values
    ensures trie.Valid() && fresh(trie.model.nodes.Values - old(trie.model.nodes.Values))
    ensures trie.Entries() == Suggested(trie.normalize, old(trie.Entries()), isbn, title, authors, rating)
  {
    Enter(trie, title, isbn, title, rating);
    for i := 0 to |authors|
      invariant trie.Valid() && forall n :: n in trie.model.nodes.Values ==> n in old(trie.model.nodes.Values) || fresh(n)
      invariant trie.Entries() == Suggested(trie.normalize, old(trie.Entries()), isbn, title, authors[..i], rating)
    {
      SuggestedStep(trie.normalize, old(trie.Entries()), isbn, title, authors, i, rating, trie.Entries());
      Enter(trie, authors[i], isbn, ByAuthor(title, authors[i]), Behind(rating));
    }
    assert authors[..|authors|] == authors;
  }

  method Enter(trie: Tries.AutocompleteTrie, phrase: string, isbn: Isbn, text: string, weight: real)
    requires trie.Valid()
    modifies trie, trie.model.nodes.Values
    ensures trie.Valid() && forall n :: n in trie.model.nodes.Values ==> n in old(trie.model.nodes.Values) || fresh(n)
    ensures trie.Entries() == Entered(trie.normalize, old(trie.Entries()), phrase, isbn, text, weight)
  {
    trie.Insert(phrase, isbn.text, text, weight);
  }

  lemma SuggestedStep(
    normalize: string -> string, table: Tries.Table, isbn: Isbn, title: string, authors: seq<string>, i: nat, rating: real, sofar: Tries.Table)
    requires i < |authors| && sofar == Suggested(normalize, table, isbn, title, authors[..i], rating)
    ensures Entered(normalize, sofar, authors[i], isbn, ByAuthor(title, authors[i]), Behind(rating)) ==
      Suggested(normalize, table, isbn, title, authors[..i + 1], rating)
  {
    assert authors[..i + 1][..i] == authors[..i];
  }

  /** The item has a row under the phrase, of this weight or more. */
  predicate HasRow(table: Tries.Table, phrase: string, isbn: Isbn, weight: real) {
    (Tries.PathOf(phrase), isbn.text) in table && table[(Tries.PathOf(phrase), isbn.text)].weight >= weight
  }

  lemma {:induction false} SuggestionsStay(
    normalize: string -> string, table: Tries.Table, isbn: Isbn, title: string, authors: seq<string>, rating: real, phrase: string, weight: real)
    requires HasRow(table, phrase, isbn, weight)
    ensures HasRow(Suggested(normalize, table, isbn, title, authors, rating), phrase, isbn, weight)
  {
    if authors != [] {
      SuggestionsStay(normalize, table, isbn, title, authors[..|authors| - 1], rating, phrase, weight);
    }
  }

  /** A registered title has a row under its own name with its rating, and under each author's with nine tenths of it. */
  lemma {:induction false} TitleIsSuggested(
    normalize: string -> string, table: Tries.Table, isbn: Isbn, title: string, authors: seq<string>, rating: real, name: string)
    ensures var table' := Suggested(normalize, table, isbn, title, authors, rating);
      && (name == title && normalize(name) != "" ==> HasRow(table', normalize(name), isbn, rating))
      && (name in authors && normalize(name) != "" ==> HasRow(table', normalize(name), isbn, rating * 9.0 / 10.0))
      && forall p, item :: item != isbn.text ==>
           ((p, item) in table' <==> (p, item) in table) && ((p, item) in table ==> table'[(p, item)] == table[(p, item)])
  {
    if authors != [] {
      var n := |authors| - 1;
      TitleIsSuggested(normalize, table, isbn, title, authors[..n], rating, name);
      assert name in authors ==> name in authors[..n] || name == authors[n];
    }
  }

  /** So it is found by every beginning of its name and of its authors' names, in any spelling that normalises alike. */
  lemma TitleIsFound(
    normalize: string -> string, table: Tries.Table, isbn: Isbn, title: string, authors: seq<string>, rating: real, name: string, prefix: string)
    requires (name == title || name in authors) && normalize(name) != "" && normalize(prefix) <= normalize(name)
    ensures Tries.Matches(Suggested(normalize, table, isbn, title, authors, rating), Tries.PathOf(normalize(prefix)), isbn.text)
  {
    TitleIsSuggested(normalize, table, isbn, title, authors, rating, name);
    Tries.ExtendsIsPrefix(normalize(name), normalize(prefix));
    var table' := Suggested(normalize, table, isbn, title, authors, rating);
    assert Tries.Row(table', Tries.PathOf(normalize(prefix)), isbn.text, Tries.PathOf(normalize(name)));
  }

  /** The title's book enters the index, and its phrases the trie. */
  method Announce(index: Index.InvertedIndex, trie: Tries.AutocompleteTrie, book: Index.Book, title: string, authors: seq<string>)
    requires index.Valid() && trie.Valid()
    modifies index, trie, trie.model.nodes.Values
    ensures index.Valid() && index.books == old(index.books)[book.isbn := book]
    ensures trie.Valid() && trie.Entries() == Suggested(trie.normalize, old(trie.Entries()), book.isbn, title, authors, book.rating)
  {
    index.IndexBook(book);
    Suggest(trie, book.isbn, title, authors, book.rating);
  }

  class CatalogService {
    const bookRepo: InMemoryBookRepository
    const trie: Tries.AutocompleteTrie
    const index: Index.InvertedIndex
    const cache: LruCaches.InMemoryCache<Details>

    ghost predicate Valid()
      reads bookRepo, bookRepo.copies.Values, cache
    {
      bookRepo.Valid() && cache.Valid()
    }

    /** The library as the catalogue knows it. */
    ghost function View(): World
      reads bookRepo
    {
      EMPTY.(copies := bookRepo.view, titles := bookRepo.titles)
    }

    constructor (bookRepo: InMemoryBookRepository, trie: Tries.AutocompleteTrie, index: Index.InvertedIndex,
                 cache: LruCaches.InMemoryCache<Details>)
      ensures this.bookRepo == bookRepo && this.trie == trie && this.index == index && this.cache == cache
    {
      this.bookRepo, this.trie, this.index, this.cache := bookRepo, trie, index, cache;
    }

    /** The title replaces any of its ISBN in the repository and in the index; what the trie knew of it stays. */
    method RegisterBook(book: Index.Book, about: string, physical: bool, title: string, authors: seq<string>)
      requires Valid() && index.Valid() && trie.Valid()
      modifies bookRepo, cache, index, trie, trie.model.nodes.Values
      ensures Valid() && View() == RegisterTitle(old(View()), book.isbn, about, physical)
      ensures index.Valid() && index.books == old(index.books)[book.isbn := book]
      ensures trie.Valid() && trie.Entries() == Suggested(trie.normalize, old(trie.Entries()), book.isbn, title, authors, book.rating)
      ensures cache.entries == Forget(LruCaches.WithoutPrefix(old(cache.entries), "search:"), book.isbn)
    {
      SaveTitle(book.isbn, about, physical);
      AnnounceHere(book, title, authors);
    }

    method AnnounceHere(book: Index.Book, title: string, authors: seq<string>)
      requires Valid() && index.Valid() && trie.Valid()
      modifies index, trie, trie.model.nodes.Values
      ensures Valid() && View() == old(View()) && cache.entries == old(cache.entries)
      ensures index.Valid() && index.books == old(index.books)[book.isbn := book]
      ensures trie.Valid() && trie.Entries() == Suggested(trie.normalize, old(trie.Entries()), book.isbn, title, authors, book.rating)
    {
      Announce(index, trie, book, title, authors);
    }

    method SaveTitle(isbn: Isbn, about: string, physical: bool)
      requires Valid() && index.Valid() && trie.Valid()
      modifies bookRepo, cache
      ensures index.Valid() && index.books == old(index.books)
      ensures trie.Valid() && trie.model == old(trie.model)
      ensures Valid() && View() == RegisterTitle(old(View()), isbn, about, physical)
      ensures cache.entries == Forget(LruCaches.WithoutPrefix(old(cache.entries), "search:"), isbn)
    {
      bookRepo.SaveBook(isbn, if physical then Physical(about, []) else Digital(about), []);
      ForgetTitle(isbn);
    }

    method ForgetTitle(isbn: Isbn)
      requires cache.Valid()
      modifies cache
      ensures cache.Valid() && cache.entries == Forget(LruCaches.WithoutPrefix(old(cache.entries), "search:"), isbn)
    {
      var _ := cache.InvalidatePrefix("search:");
      var _ := cache.Invalidate(Page(isbn));
    }

    method AddPhysicalCopy(isbn: Isbn, copyId: CopyId, branch: BranchId) returns (error: Option<Error>)
      requires Valid()
      modifies bookRepo, cache
      ensures Valid() && (error, View()) == AddCopy(old(View()), isbn, copyId, branch)
      ensures cache.entries == CacheAfter(old(View()), old(cache.entries), DoAddCopy(isbn, copyId, branch))
    {
      if isbn !in bookRepo.titles || bookRepo.titles[isbn].Digital? {
        return Some(BookNotFound);
      }
      var copy := new BookCopy(copyId, isbn, branch);
      bookRepo.SaveCopy(copy);
      var _ := cache.Invalidate(Page(isbn));
      error := None;
    }

    /** The page as the repository has it. */
    method Describe(isbn: Isbn) returns (page: Option<Details>)
      requires bookRepo.Valid()
      ensures page == DetailsOf(bookRepo.titles, bookRepo.view, isbn)
    {
      if isbn !in bookRepo.titles {
        return None;
      }
      match bookRepo.titles[isbn] {
        case Digital(about) =>
          page := Some(Details(about, false, []));
        case Physical(about, ids) =>
          var rows := [];
          for i := 0 to |ids|
            invariant rows == Rows(ids[..i], bookRepo.view)
          {
            assert ids[..i + 1][..i] == ids[..i];
            if ids[i] in bookRepo.copies {
              var copy := bookRepo.copies[ids[i]];
              rows := rows + [CopyRow(ids[i], copy.branchId, copy.status, copy.currentBorrowerId, copy.currentReserverId, copy.borrowCount)];
            }
          }
          assert ids[..|ids|] == ids;
          page := Some(Details(about, true, rows));
      }
    }

    /** With a cache that cannot hold anything, storing the page raises, and no page is served. */
    method GetBookDetails(isbn: Isbn, now: real) returns (page: Option<Details>, raised: bool)
      requires Valid()
      modifies cache
      ensures Valid()
      ensures raised <==>
        && LruCaches.Misses(old(cache.entries), Page(isbn), DetailsOf(View().titles, View().copies, isbn), now)
        && LruCaches.Get(old(cache.entries), Page(isbn), now).1 == [] && cache.capacity <= 0
      ensures !raised ==> (page, cache.entries) == ReadPage(View(), old(cache.entries), cache.capacity, isbn, now)
    {
      var loaded := Describe(isbn);
      page, raised := cache.GetOrCompute(Page(isbn), loaded, Some(PAGE_TTL), now);
    }
  }
}
