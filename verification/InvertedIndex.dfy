/**
  The catalogue's inverted index. A book enters with its fields already tokenised; the four dictionaries are proved
  to be at all times what a recount of the indexed books would give.
 */
module InvertedIndexes {
  import opened Types
  import opened Sorting

  type Term = string

  datatype Book = Book(
    isbn: Isbn, compactIsbn: Term, lowerIsbn: Term,
    title: seq<Term>, authors: seq<seq<Term>>, category: seq<Term>, keywords: seq<seq<Term>>, description: seq<Term>,
    rating: real)

  /** Every token list twice, in order. */
  function Doubled(lists: seq<seq<Term>>): seq<Term> {
    if lists == [] then [] else Doubled(lists[..|lists| - 1]) + lists[|lists| - 1] + lists[|lists| - 1]
  }

  /** What one field adds, boosted: titles count three times, authors, category and keywords twice. */
  function FieldTokens(b: Book, field: nat): seq<Term> {
    match field
    case 0 => [b.compactIsbn, b.lowerIsbn]
    case 1 => b.title + b.title + b.title
    case 2 => Doubled(b.authors)
    case 3 => b.category + b.category
    case 4 => Doubled(b.keywords)
    case _ => b.description
  }

  function FirstFields(b: Book, n: nat): (r: seq<Term>)
    ensures n > 0 ==> |r| >= 2
  {
    if n == 0 then [] else FirstFields(b, n - 1) + FieldTokens(b, n - 1)
  }

  /** The token list of a book: its six fields in order. */
  function Tokens(b: Book): seq<Term> {
    FirstFields(b, 6)
  }

  type Postings = map<Term, set<Isbn>>
  type Frequencies = map<Isbn, map<Term, nat>>
  type Books = map<Isbn, Book>
  type Docs = map<Isbn, seq<Term>>

  function Posting(index: Postings, t: Term): set<Isbn> {
    if t in index then index[t] else {}
  }

  function Count(freq: map<Term, nat>, t: Term): nat {
    if t in freq then freq[t] else 0
  }

  function Tf(freqs: Frequencies, i: Isbn, t: Term): nat {
    if i in freqs then Count(freqs[i], t) else 0
  }

  /** `freq` holds exactly the terms of `tokens`, each with its number of occurrences. */
  ghost predicate Counts(freq: map<Term, nat>, tokens: seq<Term>) {
    && (forall t :: t in freq <==> t in tokens)
    && (forall t :: t in freq ==> freq[t] == multiset(tokens)[t])
  }

  /** The books whose token list has `t`. */
  ghost function Holding(docs: Docs, t: Term): set<Isbn> {
    set i | i in docs && t in docs[i]
  }

  ghost predicate PostingsAgree(index: Postings, docs: Docs) {
    forall t :: Posting(index, t) == Holding(docs, t)
  }

  ghost predicate FrequenciesAgree(freqs: Frequencies, lengths: map<Isbn, nat>, docs: Docs) {
    && freqs.Keys == docs.Keys == lengths.Keys
    && (forall i :: i in docs ==> Counts(freqs[i], docs[i]) && lengths[i] == |docs[i]|)
  }

  function DocsOf(books: Books): (docs: Docs)
    ensures docs.Keys == books.Keys
  {
    map i | i in books :: Tokens(books[i])
  }

  /** All four dictionaries are what a recount of the books would give. */
  ghost predicate Agrees(index: Postings, freqs: Frequencies, lengths: map<Isbn, nat>, books: Books) {
    && PostingsAgree(index, DocsOf(books))
    && FrequenciesAgree(freqs, lengths, DocsOf(books))
    && forall i :: i in books ==> books[i].isbn == i
  }

  class InvertedIndex {
    var index: Postings
    var docTermFreq: Frequencies
    var books: Books
    var docLengths: map<Isbn, nat>

    ghost predicate Valid()
      reads this
    {
      Agrees(index, docTermFreq, docLengths, books)
    }

    constructor ()
      ensures Valid() && books == map[]
    {
      index, docTermFreq, books, docLengths := map[], map[], map[], map[];
    }

    method IndexBook(book: Book)
      requires Valid()
      modifies this
      ensures Valid() && books == old(books)[book.isbn := book]
    {
      var isbn := book.isbn;
      books := books[isbn := book];
      var mid := DiscardAll(index, KnownTerms(docTermFreq, isbn), isbn);
      var tokens := Collect(book);
      var added, freq := AddAll(mid, tokens, isbn);
      IndexingKeepsAgreement(index, docTermFreq, docLengths, old(books), book, mid, added, freq);
      docLengths := docLengths[isbn := |tokens|];
      index, docTermFreq := added, docTermFreq[isbn := freq];
    }

    method RemoveBook(isbn: Isbn)
      requires Valid()
      modifies this
      ensures Valid() && books == old(books) - {isbn}
      ensures isbn in old(books) ==> forall t :: t in DocsOf(old(books))[isbn] && t in index ==> index[t] != {}
    {
      var purged := DiscardAndPurge(index, KnownTerms(docTermFreq, isbn), isbn);
      RemovalKeepsAgreement(index, docTermFreq, docLengths, books, isbn, purged);
      books, index := books - {isbn}, purged;
      docTermFreq, docLengths := docTermFreq - {isbn}, docLengths - {isbn};
    }
  }

  /** The terms recorded for a book; reading the default dictionary for an unknown book gives none. */
  function KnownTerms(freqs: Frequencies, isbn: Isbn): set<Term> {
    if isbn in freqs then freqs[isbn].Keys else {}
  }

  ghost predicate Discarded(index: Postings, terms: set<Term>, isbn: Isbn, r: Postings) {
    forall t :: Posting(r, t) == if t in terms then Posting(index, t) - {isbn} else Posting(index, t)
  }

  ghost predicate Added(index: Postings, tokens: seq<Term>, isbn: Isbn, r: Postings) {
    forall t :: Posting(r, t) == if t in tokens then Posting(index, t) + {isbn} else Posting(index, t)
  }

  lemma DiscardedEverywhere(index: Postings, freqs: Frequencies, lengths: map<Isbn, nat>, docs: Docs, isbn: Isbn, r: Postings)
    requires PostingsAgree(index, docs) && FrequenciesAgree(freqs, lengths, docs)
    requires Discarded(index, KnownTerms(freqs, isbn), isbn, r)
    ensures PostingsAgree(r, docs - {isbn})
  {
    forall t ensures Posting(r, t) == Holding(docs - {isbn}, t) {
      assert Posting(index, t) == Holding(docs, t);
      if isbn in docs {
        assert Counts(freqs[isbn], docs[isbn]);
      }
    }
  }

  lemma RemovalKeepsAgreement(index: Postings, freqs: Frequencies, lengths: map<Isbn, nat>, books: Books, isbn: Isbn, r: Postings)
    requires Agrees(index, freqs, lengths, books) && Discarded(index, KnownTerms(freqs, isbn), isbn, r)
    ensures Agrees(r, freqs - {isbn}, lengths - {isbn}, books - {isbn})
    ensures isbn in books ==> forall t :: t in DocsOf(books)[isbn] ==> t in KnownTerms(freqs, isbn)
  {
    DiscardedEverywhere(index, freqs, lengths, DocsOf(books), isbn, r);
    assert DocsOf(books - {isbn}) == DocsOf(books) - {isbn};
    if isbn in books {
      assert Counts(freqs[isbn], DocsOf(books)[isbn]);
    }
  }

  lemma IndexingKeepsAgreement(
    index: Postings, freqs: Frequencies, lengths: map<Isbn, nat>, books: Books, book: Book,
    mid: Postings, r: Postings, freq: map<Term, nat>)
    requires Agrees(index, freqs, lengths, books)
    requires Discarded(index, KnownTerms(freqs, book.isbn), book.isbn, mid)
    requires Added(mid, Tokens(book), book.isbn, r) && Counts(freq, Tokens(book))
    ensures Agrees(r, freqs[book.isbn := freq], lengths[book.isbn := |Tokens(book)|], books[book.isbn := book])
  {
    var docs := DocsOf(books);
    DiscardedEverywhere(index, freqs, lengths, docs, book.isbn, mid);
    PostingsAfterIndexing(docs, book.isbn, Tokens(book), mid, r);
    FrequenciesAfterIndexing(freqs, lengths, docs, book.isbn, Tokens(book), freq);
    DocsAfterIndexing(books, book);
  }

  lemma DocsAfterIndexing(books: Books, book: Book)
    ensures DocsOf(books[book.isbn := book]) == DocsOf(books)[book.isbn := Tokens(book)]
  {
  }

  lemma PostingsAfterIndexing(docs: Docs, isbn: Isbn, tokens: seq<Term>, mid: Postings, r: Postings)
    requires PostingsAgree(mid, docs - {isbn}) && Added(mid, tokens, isbn, r)
    ensures PostingsAgree(r, docs[isbn := tokens])
  {
    forall t ensures Posting(r, t) == Holding(docs[isbn := tokens], t) {
      assert Posting(mid, t) == Holding(docs - {isbn}, t);
    }
  }

  lemma FrequenciesAfterIndexing(
    freqs: Frequencies, lengths: map<Isbn, nat>, docs: Docs, isbn: Isbn, tokens: seq<Term>, freq: map<Term, nat>)
    requires FrequenciesAgree(freqs, lengths, docs) && Counts(freq, tokens)
    ensures FrequenciesAgree(freqs[isbn := freq], lengths[isbn := |tokens|], docs[isbn := tokens])
  {
  }

  /** The token list, built field by field. */
  method Collect(b: Book) returns (tokens: seq<Term>)
    ensures tokens == Tokens(b)
  {
    tokens := [b.compactIsbn, b.lowerIsbn];
    assert tokens == FirstFields(b, 1);
    tokens := tokens + (b.title + b.title + b.title);
    assert tokens == FirstFields(b, 2);
    var authors := CollectTwice(b.authors);
    tokens := tokens + authors;
    assert tokens == FirstFields(b, 3);
    tokens := tokens + (b.category + b.category);
    assert tokens == FirstFields(b, 4);
    var keywords := CollectTwice(b.keywords);
    tokens := tokens + keywords;
    assert tokens == FirstFields(b, 5);
    tokens := tokens + b.description;
  }

  method CollectTwice(lists: seq<seq<Term>>) returns (tokens: seq<Term>)
    ensures tokens == Doubled(lists)
  {
    tokens := [];
    for k := 0 to |lists|
      invariant tokens == Doubled(lists[..k])
    {
      assert lists[..k + 1][..k] == lists[..k];
      tokens := tokens + lists[k] + lists[k];
    }
    assert lists[..|lists|] == lists;
  }

  method DiscardAll(index: Postings, terms: set<Term>, isbn: Isbn) returns (r: Postings)
    ensures Discarded(index, terms, isbn, r)
  {
    r := index;
    var left := terms;
    while left != {}
      invariant left <= terms
      invariant Discarded(index, terms - left, isbn, r)
      decreases left
    {
      var t :| t in left;
      r, left := r[t := Posting(r, t) - {isbn}], left - {t};
    }
    assert terms - left == terms;
  }

  /** As above, and a posting set that becomes empty is deleted. */
  method DiscardAndPurge(index: Postings, terms: set<Term>, isbn: Isbn) returns (r: Postings)
    ensures Discarded(index, terms, isbn, r)
    ensures forall t :: t in terms && t in r ==> r[t] != {}
  {
    r := index;
    var left := terms;
    while left != {}
      invariant left <= terms
      invariant Discarded(index, terms - left, isbn, r)
      invariant forall t :: t in terms - left && t in r ==> r[t] != {}
      decreases left
    {
      var t :| t in left;
      if t in r {
        var rest := r[t] - {isbn};
        r := if rest == {} then r - {t} else r[t := rest];
      }
      left := left - {t};
    }
    assert terms - left == terms;
  }

  method AddAll(index: Postings, tokens: seq<Term>, isbn: Isbn) returns (r: Postings, freq: map<Term, nat>)
    ensures Added(index, tokens, isbn, r) && Counts(freq, tokens)
  {
    r, freq := index, map[];
    for k := 0 to |tokens|
      invariant Added(index, tokens[..k], isbn, r)
      invariant Counts(freq, tokens[..k])
    {
      var token := tokens[k];
      assert tokens[..k + 1] == tokens[..k] + [token];
      r := r[token := Posting(r, token) + {isbn}];
      freq := freq[token := Count(freq, token) + 1];
    }
    assert tokens[..|tokens|] == tokens;
  }

  // ---- what agreement means for a reader

  /** A book is posted under a term exactly when it has it, and its length is the sum of its term frequencies. */
  lemma AgreementPerBook(ix: InvertedIndex, i: Isbn, t: Term)
    requires ix.Valid()
    ensures i in Posting(ix.index, t) <==> Tf(ix.docTermFreq, i, t) > 0
    ensures i in ix.books ==> Tf(ix.docTermFreq, i, t) == multiset(DocsOf(ix.books)[i])[t]
    ensures i in ix.books ==> ix.docLengths[i] == |multiset(DocsOf(ix.books)[i])|
  {
    var docs := DocsOf(ix.books);
    assert Posting(ix.index, t) == Holding(docs, t);
    if i in docs {
      assert Counts(ix.docTermFreq[i], docs[i]);
      assert t in docs[i] <==> multiset(docs[i])[t] > 0;
    }
  }

  ghost predicate SamePostings(index: Postings, index': Postings) {
    forall t :: Posting(index', t) == Posting(index, t)
  }

  /** The books alone decide what an index in agreement with them says: postings, frequencies and lengths. */
  lemma BooksDecideIndex(
    index: Postings, freqs: Frequencies, lengths: map<Isbn, nat>, index': Postings, freqs': Frequencies, lengths': map<Isbn, nat>, books: Books)
    requires Agrees(index, freqs, lengths, books) && Agrees(index', freqs', lengths', books)
    ensures SamePostings(index, index')
    ensures freqs' == freqs && lengths' == lengths
  {
    forall t ensures Posting(index', t) == Posting(index, t) {
      assert Posting(index, t) == Holding(DocsOf(books), t);
    }
    forall i | i in freqs ensures freqs'[i] == freqs[i] {
      assert Counts(freqs[i], DocsOf(books)[i]) && Counts(freqs'[i], DocsOf(books)[i]);
      assert freqs[i].Keys == freqs'[i].Keys;
    }
  }

  /** Indexing a new book and removing it again restores every non-empty posting list, all frequencies and all lengths. */
  method IndexThenRemove(ix: InvertedIndex, book: Book)
    requires ix.Valid() && book.isbn !in ix.books
    modifies ix
    ensures ix.Valid() && ix.books == old(ix.books)
    ensures SamePostings(old(ix.index), ix.index)
    ensures ix.docTermFreq == old(ix.docTermFreq) && ix.docLengths == old(ix.docLengths)
  {
    ghost var index, freqs, lengths := ix.index, ix.docTermFreq, ix.docLengths;
    ix.IndexBook(book);
    ix.RemoveBook(book.isbn);
    assert ix.books == old(ix.books);
    BooksDecideIndex(index, freqs, lengths, ix.index, ix.docTermFreq, ix.docLengths, ix.books);
  }

  // ---- what a book is indexed under

  /** How often a term occurs in some lists together. */
  function Occurrences(lists: seq<seq<Term>>, t: Term): nat {
    if lists == [] then 0 else Occurrences(lists[..|lists| - 1], t) + multiset(lists[|lists| - 1])[t]
  }

  lemma {:induction false} DoubledCounts(lists: seq<seq<Term>>, t: Term)
    ensures multiset(Doubled(lists))[t] == 2 * Occurrences(lists, t)
  {
    if lists != [] {
      DoubledCounts(lists[..|lists| - 1], t);
    }
  }

  lemma {:induction false} OccursInOne(lists: seq<seq<Term>>, t: Term)
    ensures Occurrences(lists, t) > 0 <==> exists k :: 0 <= k < |lists| && t in lists[k]
  {
    if lists != [] {
      var n := |lists| - 1;
      OccursInOne(lists[..n], t);
      assert multiset(lists[n])[t] > 0 <==> t in lists[n];
      if k :| 0 <= k < n && t in lists[..n][k] {
        assert t in lists[k];
      }
      if k :| 0 <= k < |lists| && t in lists[k] && k < n {
        assert t in lists[..n][k];
      }
    }
  }

  lemma OneMoreField(b: Book, n: nat, t: Term)
    ensures multiset(FirstFields(b, n + 1))[t] == multiset(FirstFields(b, n))[t] + multiset(FieldTokens(b, n))[t]
  {
  }

  /** A term counts three times in the title, twice in authors, category and keywords, and once in the rest. */
  lemma TokenCounts(b: Book, t: Term)
    ensures multiset(Tokens(b))[t] ==
      multiset([b.compactIsbn, b.lowerIsbn])[t] + 3 * multiset(b.title)[t] + 2 * Occurrences(b.authors, t) +
      2 * multiset(b.category)[t] + 2 * Occurrences(b.keywords, t) + multiset(b.description)[t]
  {
    assert FirstFields(b, 0) == [];
    OneMoreField(b, 0, t);
    OneMoreField(b, 1, t);
    OneMoreField(b, 2, t);
    OneMoreField(b, 3, t);
    OneMoreField(b, 4, t);
    OneMoreField(b, 5, t);
    DoubledCounts(b.authors, t);
    DoubledCounts(b.keywords, t);
  }

  predicate InSome(lists: seq<seq<Term>>, t: Term) {
    exists k :: 0 <= k < |lists| && t in lists[k]
  }

  /** The term is in one of the book's fields. */
  predicate Mentions(b: Book, t: Term) {
    || t == b.compactIsbn || t == b.lowerIsbn || t in b.title || InSome(b.authors, t)
    || t in b.category || InSome(b.keywords, t) || t in b.description
  }

  /** A book is found by a term exactly if one of its fields mentions it. */
  lemma FoundByItsFields(books: Books, i: Isbn, query: seq<Term>)
    requires i in books && query != []
    ensures Candidate(DocsOf(books), query, i) <==> exists t :: t in query && Mentions(books[i], t)
  {
    var b := books[i];
    forall t ensures t in Tokens(b) <==> Mentions(b, t) {
      TokenCounts(b, t);
      OccursInOne(b.authors, t);
      OccursInOne(b.keywords, t);
      assert t in Tokens(b) <==> multiset(Tokens(b))[t] > 0;
      assert t in b.title <==> multiset(b.title)[t] > 0;
      assert t in b.category <==> multiset(b.category)[t] > 0;
      assert t in b.description <==> multiset(b.description)[t] > 0;
      assert t in [b.compactIsbn, b.lowerIsbn] <==> multiset([b.compactIsbn, b.lowerIsbn])[t] > 0;
    }
  }

  // ---- ranked search

  datatype Hit = Hit(isbn: Isbn, score: real)

  /** What a hit must meet, and which titles are available at the time of the search. */
  datatype Filter = Filter(given: bool, passes: Book -> bool, onlyAvailable: bool, available: Isbn -> bool) {
    predicate Admits(book: Book) {
      passes(book) && (onlyAvailable ==> available(book.isbn))
    }
  }

  predicate Better(a: Hit, b: Hit) {
    a.score > b.score
  }

  function IdfArgument(documents: nat, df: nat): real {
    (documents as real - df as real + 0.5) / (df as real + 0.5) + 1.0
  }

  function Weight(ln: real -> real, documents: nat, df: nat, tf: nat, length: nat): real
    requires length > 0
  {
    if tf == 0 then 0.0 else tf as real / length as real * ln(IdfArgument(documents, df))
  }

  ghost predicate PositiveAboveOne(ln: real -> real) {
    forall x :: x > 1.0 ==> ln(x) > 0.0
  }

  /** The relevance of a book for a query, summed from the books alone. */
  ghost function Relevance(ln: real -> real, docs: Docs, i: Isbn, query: seq<Term>): real
    requires i in docs && |docs[i]| > 0
  {
    if query == [] then 0.0
    else
      var n := |query| - 1;
      Relevance(ln, docs, i, query[..n]) +
      Weight(ln, Documents(docs), |Holding(docs, query[n])|, multiset(docs[i])[query[n]], |docs[i]|)
  }

  function Documents<V>(docs: map<Isbn, V>): nat {
    if |docs| > 0 then |docs| else 1
  }

  /** Rounded to four places, a tie to the even neighbour. */
  function Rounded(x: real): real {
    var y := x * 10000.0;
    var below := y.Floor;
    var rest := y - below as real;
    (if rest < 0.5 || (rest == 0.5 && below % 2 == 0) then below else below + 1) as real / 10000.0
  }

  ghost function Score(ln: real -> real, f: Filter, books: Books, i: Isbn, query: seq<Term>): real
    requires i in books && |DocsOf(books)[i]| > 0
  {
    Boosted(Relevance(ln, DocsOf(books), i, query), books[i].rating, f.available(i))
  }

  /** Relevance with what rating and availability add, rounded. */
  function Boosted(relevance: real, rating: real, available: bool): real {
    Rounded(relevance + rating * 0.1 + (if available then 0.5 else 0.0))
  }

  /** Document frequency never exceeds the number of documents, so each logarithm is taken above one. */
  lemma IdfIsPositive(docs: Docs, t: Term)
    ensures |Holding(docs, t)| <= Documents(docs)
    ensures IdfArgument(Documents(docs), |Holding(docs, t)|) > 1.0
  {
    SubsetIsSmaller(Holding(docs, t), docs.Keys);
    var df := |Holding(docs, t)| as real;
    assert (Documents(docs) as real - df + 0.5) / (df + 0.5) > 0.0;
  }

  /** A query term adds to a book's score when the book has it, and nothing otherwise. */
  lemma WeightSign(ln: real -> real, docs: Docs, i: Isbn, t: Term)
    requires i in docs && |docs[i]| > 0 && PositiveAboveOne(ln)
    ensures var w := Weight(ln, Documents(docs), |Holding(docs, t)|, multiset(docs[i])[t], |docs[i]|);
      if t in docs[i] then w > 0.0 else w == 0.0
  {
    IdfIsPositive(docs, t);
    var tf, length := multiset(docs[i])[t], |docs[i]|;
    assert tf > 0 <==> t in docs[i];
    if tf > 0 {
      ProductPositive(tf as real / length as real, ln(IdfArgument(Documents(docs), |Holding(docs, t)|)));
    }
  }

  lemma ProductPositive(x: real, y: real)
    requires x > 0.0 && y > 0.0
    ensures x * y > 0.0
  {
  }

  /** A book's relevance is positive exactly when it has a query term: candidates and relevant books coincide. */
  lemma {:induction false} RelevanceIsPositive(ln: real -> real, docs: Docs, i: Isbn, query: seq<Term>)
    requires i in docs && |docs[i]| > 0 && PositiveAboveOne(ln)
    ensures Relevance(ln, docs, i, query) >= 0.0
    ensures Relevance(ln, docs, i, query) > 0.0 <==> exists t :: t in query && t in docs[i]
  {
    if query != [] {
      var n := |query| - 1;
      RelevanceIsPositive(ln, docs, i, query[..n]);
      WeightSign(ln, docs, i, query[n]);
      assert query == query[..n] + [query[n]];
    }
  }

  // ---- what raises a score

  ghost predicate StrictlyRising(ln: real -> real) {
    forall x, y :: 0.0 < x < y ==> ln(x) < ln(y)
  }

  lemma LargerOverSmaller(a: real, b: real, c: real, d: real)
    requires a > c > 0.0 && 0.0 < b < d
    ensures a / b > c / d > 0.0
  {
    var p, q := a / b, c / d;
    assert p * b == a && q * d == c;
    assert p <= q ==> p * b <= q * b;
    assert q > 0.0 && q * b < q * d;
  }

  lemma LargerFactor(x: real, y: real, z: real)
    requires x > 0.0 && y > z
    ensures x * y > x * z
  {
  }

  /** At equal frequency the term that fewer books have adds more. */
  lemma RarerWeighsMore(ln: real -> real, documents: nat, df: nat, df': nat, tf: nat, length: nat)
    requires StrictlyRising(ln) && df < df' <= documents && tf > 0 && length > 0
    ensures Weight(ln, documents, df, tf, length) > Weight(ln, documents, df', tf, length)
  {
    var n, d, d' := documents as real, df as real, df' as real;
    LargerOverSmaller(n - d + 0.5, d + 0.5, n - d' + 0.5, d' + 0.5);
    LargerOverSmaller(tf as real, length as real, tf as real / 2.0, length as real + 1.0);
    LargerFactor(tf as real / length as real, ln(IdfArgument(documents, df)), ln(IdfArgument(documents, df')));
  }

  /** A term adds more the more often it occurs among as many. */
  lemma MoreOftenWeighsMore(ln: real -> real, documents: nat, df: nat, tf: nat, tf': nat, length: nat)
    requires ln(IdfArgument(documents, df)) > 0.0 && tf < tf' && length > 0
    ensures Weight(ln, documents, df, tf', length) > Weight(ln, documents, df, tf, length)
  {
    var x, l := ln(IdfArgument(documents, df)), length as real;
    var p, q := tf as real / l, tf' as real / l;
    assert p * l == tf as real && q * l == tf' as real;
    assert q <= p ==> q * l <= p * l;
    LargerFactor(x, q, p);
  }

  /** Rounding moves a number to a nearest multiple of a ten-thousandth. */
  lemma RoundedIsNear(x: real)
    ensures -0.00005 <= Rounded(x) - x <= 0.00005
    ensures Rounded(x + 0.5) == Rounded(x) + 0.5
  {
    var y := x * 10000.0;
    assert (x + 0.5) * 10000.0 == y + 5000.0;
    assert (y + 5000.0).Floor == y.Floor + 5000;
  }

  lemma RoundedRises(x: real, y: real)
    requires x <= y
    ensures Rounded(x) <= Rounded(y)
  {
    var a, b := x * 10000.0, y * 10000.0;
    assert a <= b && a.Floor <= b.Floor;
  }

  /** An available book scores half a point more, and a higher rating never less, by a tenth of a point up to rounding. */
  lemma WhatRaisesAScore(relevance: real, rating: real, rating': real, available: bool)
    ensures Boosted(relevance, rating, true) == Boosted(relevance, rating, false) + 0.5
    ensures -0.00005 <= Boosted(relevance, rating, false) - (relevance + rating * 0.1) <= 0.00005
    ensures rating <= rating' ==> Boosted(relevance, rating, available) <= Boosted(relevance, rating', available)
    ensures rating' - rating > 0.001 ==> Boosted(relevance, rating, available) < Boosted(relevance, rating', available)
  {
    RoundedIsNear(relevance + rating * 0.1);
    RoundedIsNear(relevance + rating' * 0.1);
    if rating <= rating' {
      RoundedRises(relevance + rating * 0.1, relevance + rating' * 0.1);
    }
  }

  /** Hits come by falling score. */
  lemma HitsFallByScore(ranked: seq<Hit>, books: Books, query: seq<Term>, f: Filter, ln: real -> real)
    requires IsRanking(ranked, books, query, f, ln)
    ensures forall i, j :: 0 <= i < j < |ranked| ==> ranked[i].score >= ranked[j].score
  {
  }

  /** The books a search considers: those with a query term, or all of them when only filters are given. */
  ghost predicate Candidate(docs: Docs, query: seq<Term>, i: Isbn) {
    i in docs && (query == [] || exists t :: t in query && t in docs[i])
  }

  /** A complete ranking: exactly the passing candidates, once each, scored from the books, best first. */
  ghost predicate IsRanking(ranked: seq<Hit>, books: Books, query: seq<Term>, f: Filter, ln: real -> real) {
    && Sorted(ranked, Better)
    && Scored(ranked, books, query, f, ln)
    && forall i :: Listed(ranked, i) <==> Candidate(DocsOf(books), query, i) && f.Admits(books[i])
  }

  ghost predicate Listed(ranked: seq<Hit>, i: Isbn) {
    exists k :: 0 <= k < |ranked| && ranked[k].isbn == i
  }

  ghost predicate Scored(ranked: seq<Hit>, books: Books, query: seq<Term>, f: Filter, ln: real -> real) {
    && (forall j, k :: 0 <= j < k < |ranked| ==> ranked[j].isbn != ranked[k].isbn)
    && (forall k :: 0 <= k < |ranked| ==> ranked[k].isbn in books && ranked[k].score == Score(ln, f, books, ranked[k].isbn, query))
  }

  /** Listed are exactly the books that mention a query term, or all for an empty query, and that pass the filter. */
  lemma RankingListsExactly(ranked: seq<Hit>, books: Books, query: seq<Term>, f: Filter, ln: real -> real, i: Isbn)
    requires IsRanking(ranked, books, query, f, ln) && forall j :: j in books ==> books[j].isbn == j
    ensures Listed(ranked, i) <==>
      && i in books && (query == [] || exists t :: t in query && Mentions(books[i], t))
      && f.passes(books[i]) && (f.onlyAvailable ==> f.available(i))
  {
    assert Listed(ranked, i) <==> Candidate(DocsOf(books), query, i) && f.Admits(books[i]);
    if i in books && query != [] {
      FoundByItsFields(books, i, query);
    }
  }

  lemma AgreedReads(ix: InvertedIndex, i: Isbn, t: Term)
    requires ix.Valid() && i in ix.books
    ensures i in ix.docTermFreq && i in ix.docLengths && ix.docLengths[i] == |DocsOf(ix.books)[i]| > 0
    ensures Count(ix.docTermFreq[i], t) == multiset(DocsOf(ix.books)[i])[t]
    ensures Posting(ix.index, t) == Holding(DocsOf(ix.books), t)
  {
    AgreementPerBook(ix, i, t);
  }

  method RelevanceOf(ix: InvertedIndex, i: Isbn, query: seq<Term>, ln: real -> real) returns (r: real)
    requires ix.Valid() && i in ix.books
    ensures |DocsOf(ix.books)[i]| > 0 && r == Relevance(ln, DocsOf(ix.books), i, query)
  {
    AgreedReads(ix, i, "");
    var documents := Documents(ix.books);
    assert documents == Documents(DocsOf(ix.books)) by { assert |ix.books.Keys| == |DocsOf(ix.books).Keys|; }
    r := 0.0;
    for k := 0 to |query|
      invariant r == Relevance(ln, DocsOf(ix.books), i, query[..k])
    {
      AgreedReads(ix, i, query[k]);
      assert query[..k + 1][..k] == query[..k];
      var tf := Count(ix.docTermFreq[i], query[k]);
      r := r + Weight(ln, documents, |Posting(ix.index, query[k])|, tf, ix.docLengths[i]);
    }
    assert query[..|query|] == query;
  }

  method Candidates(ix: InvertedIndex, query: seq<Term>) returns (r: set<Isbn>)
    requires ix.Valid()
    ensures forall i :: i in r <==> Candidate(DocsOf(ix.books), query, i)
  {
    if query == [] {
      return ix.books.Keys;
    }
    r := {};
    ghost var docs := DocsOf(ix.books);
    for k := 0 to |query|
      invariant forall i :: i in r <==> i in docs && exists t :: t in query[..k] && t in docs[i]
    {
      assert query[..k + 1] == query[..k] + [query[k]];
      assert Posting(ix.index, query[k]) == Holding(docs, query[k]);
      r := r + Posting(ix.index, query[k]);
    }
    assert query[..|query|] == query;
  }

  /** The scored hits of those books in `seen` that pass. */
  ghost predicate Ranks(
    ranked: seq<Hit>, books: Books, seen: set<Isbn>, query: seq<Term>, f: Filter, ln: real -> real) {
    && Scored(ranked, books, query, f, ln)
    && forall i :: Listed(ranked, i) <==> i in seen && i in books && f.Admits(books[i])
  }

  lemma RanksOneMore(
    ranked: seq<Hit>, books: Books, seen: set<Isbn>, query: seq<Term>, f: Filter, ln: real -> real, i: Isbn)
    requires Ranks(ranked, books, seen, query, f, ln) && i in books && i !in seen
    ensures !f.Admits(books[i]) ==> Ranks(ranked, books, seen + {i}, query, f, ln)
    ensures f.Admits(books[i]) ==> Ranks(ranked + [Hit(i, Score(ln, f, books, i, query))], books, seen + {i}, query, f, ln)
  {
    assert !Listed(ranked, i);
    ListedAppend(ranked, Hit(i, Score(ln, f, books, i, query)));
  }

  method RankOne(
    ix: InvertedIndex, ranked: seq<Hit>, ghost seen: set<Isbn>, query: seq<Term>, f: Filter, ln: real -> real, i: Isbn)
    returns (r: seq<Hit>)
    requires ix.Valid() && Ranks(ranked, ix.books, seen, query, f, ln) && i in ix.books && i !in seen
    ensures Ranks(r, ix.books, seen + {i}, query, f, ln)
  {
    r := ranked;
    var book := ix.books[i];
    if f.Admits(book) {
      var relevance := RelevanceOf(ix, i, query, ln);
      var score := Boosted(relevance, book.rating, f.available(i));
      assert score == Score(ln, f, ix.books, i, query);
      r := r + [Hit(i, score)];
    }
    RanksOneMore(ranked, ix.books, seen, query, f, ln, i);
  }

  method Rank(ix: InvertedIndex, candidates: set<Isbn>, query: seq<Term>, f: Filter, ln: real -> real)
    returns (ranked: seq<Hit>)
    requires ix.Valid() && candidates <= ix.books.Keys
    ensures Ranks(ranked, ix.books, candidates, query, f, ln)
  {
    ranked := [];
    var left := candidates;
    ghost var seen: set<Isbn> := {};
    while left != {}
      invariant seen + left == candidates && seen !! left
      invariant Ranks(ranked, ix.books, seen, query, f, ln)
      decreases left
    {
      var i :| i in left;
      ranked := RankOne(ix, ranked, seen, query, f, ln, i);
      left, seen := left - {i}, seen + {i};
    }
    assert seen == candidates;
  }

  lemma ListedAppend(ranked: seq<Hit>, h: Hit)
    ensures forall i :: Listed(ranked + [h], i) <==> Listed(ranked, i) || i == h.isbn
  {
    forall i ensures Listed(ranked + [h], i) <==> Listed(ranked, i) || i == h.isbn {
      if k :| 0 <= k < |ranked| && ranked[k].isbn == i {
        assert (ranked + [h])[k].isbn == i;
      }
      assert (ranked + [h])[|ranked|] == h;
    }
  }

  lemma SortedIsRanking(ranked: seq<Hit>, books: Books, query: seq<Term>, f: Filter, ln: real -> real)
    requires Scored(ranked, books, query, f, ln)
    requires forall i :: Listed(ranked, i) <==> Candidate(DocsOf(books), query, i) && f.Admits(books[i])
    ensures IsRanking(Sort(ranked, Better), books, query, f, ln)
  {
    var sorted := Sort(ranked, Better);
    SortIsStable(ranked, Better);
    PermutationKeepsMembers(ranked, sorted);
    PermutationKeepsDistinct(ranked, sorted, (h: Hit) => h.isbn);
    forall i ensures Listed(sorted, i) <==> Listed(ranked, i) {
      if k :| 0 <= k < |sorted| && sorted[k].isbn == i {
        assert sorted[k] in ranked;
      }
      if k :| 0 <= k < |ranked| && ranked[k].isbn == i {
        assert ranked[k] in sorted;
      }
    }
    forall k | 0 <= k < |sorted|
      ensures sorted[k].isbn in books && sorted[k].score == Score(ln, f, books, sorted[k].isbn, query) {
      assert sorted[k] in ranked;
    }
    forall j, k | 0 <= j < k < |sorted| ensures sorted[j].isbn != sorted[k].isbn {
      var isbnOf := (h: Hit) => h.isbn;
      assert isbnOf(sorted[j]) != isbnOf(sorted[k]);
    }
  }

  /** The slice up to `limit` of a complete ranking; nothing for an empty query without filters. */
  method Search(ix: InvertedIndex, query: seq<Term>, f: Filter, ln: real -> real, limit: int)
    returns (hits: seq<Hit>, ghost ranked: seq<Hit>)
    requires ix.Valid()
    ensures query == [] && !f.given && !f.onlyAvailable ==> hits == []
    ensures query != [] || f.given || f.onlyAvailable ==> IsRanking(ranked, ix.books, query, f, ln) && hits == Cut(ranked, limit)
  {
    if query == [] && !f.given && !f.onlyAvailable {
      return [], [];
    }
    var candidates := Candidates(ix, query);
    var unsorted := Rank(ix, candidates, query, f, ln);
    SortedIsRanking(unsorted, ix.books, query, f, ln);
    var all := Sort(unsorted, Better);
    ranked := all;
    hits := Cut(all, limit);
  }
}
