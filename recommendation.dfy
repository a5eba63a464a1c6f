/** `src/controllers/recommendationController.js`: the two-tier resolver of
    `getRecommendationsForIsbn` (the similarity table, then books by the same
    authors), the existence check of `recommendBook`, and the paged seed set
    of `recommendForUser`. */
module Recommendation {
  import opened Wrappers
  import opened Seqs
  import opened Isbn
  import opened Catalog
  import opened Users

  /** What the resolver reads: the book catalog and the similarity table, which
      maps an isbn to its `top_similar` list. */
  datatype Store = Store(catalog: seq<Book>, similar: map<string, seq<string>>)

  /** The `source` of a recommendation: "similar" or "author". */
  datatype Source = Similar | Author

  datatype Recommendation = Recommendation(source: Source, books: seq<Book>)

  /** The most books a recommendation holds (`.limit(10)`). */
  const MaxRecommended: nat := 10

  /** `similarBookModel.findOne({ isbn: key })` followed by `.top_similar`. A
      null key matches nothing, since every table entry has an isbn. */
  function Lookup(similar: map<string, seq<string>>, key: Option<string>): (r: Option<seq<string>>)
    ensures r.Some? <==> key.Some? && key.value in similar
    ensures r.Some? ==> r.value == similar[key.value]
  {
    if key.Some? && key.value in similar then Some(similar[key.value]) else None
  }

  /** The entry the resolver ends up with: the one under `isbn10to13(isbn)`,
      unless that is missing or empty, in which case the one under the raw
      isbn, even when that one is missing. */
  function FinalEntry(similar: map<string, seq<string>>, isbn: string): Option<seq<string>> {
    var first := Lookup(similar, Isbn13Of(Some(isbn)));
    if first.None? || first.value == [] then Lookup(similar, Some(isbn)) else first
  }

  predicate NonEmpty(entry: Option<seq<string>>) {
    entry.Some? && entry.value != []
  }

  /** `isbn13to10` on one table isbn. */
  function To10(): string -> Option<string> {
    (s: string) => Isbn10Of(Some(s))
  }

  /** `top_similar.map(isbn13to10).filter(Boolean)`. */
  function Isbn10List(top: seq<string>): seq<string> {
    Collect(top, To10())
  }

  /** The converted list holds exactly the conversions that succeed. */
  lemma Isbn10ListMembers(top: seq<string>, v: string)
    ensures v in Isbn10List(top) <==> exists j :: 0 <= j < |top| && Isbn10Of(Some(top[j])) == Some(v)
  {
    CollectMembers(top, To10(), v);
  }

  /** The loop behind `top_similar.map(isbn13to10).filter(Boolean)`. */
  method ConvertAll(top: seq<string>) returns (list: seq<string>)
    ensures list == Isbn10List(top)
  {
    list := [];
    for j := 0 to |top|
      invariant list == Isbn10List(top[..j])
    {
      var converted := Isbn13To10(Some(top[j]));
      assert top[..j + 1][..j] == top[..j];
      if converted.Some? {
        list := list + [converted.value];
      }
    }
    assert top[..|top|] == top;
  }

  /** `isbn: { $in: list }`. */
  function IsbnIn(list: seq<string>): Book -> bool {
    (b: Book) => b.isbn in list
  }

  /** The books tier 1 queries: those whose isbn is in the converted list of
      a non-empty final entry; none otherwise. */
  function Tier1Pool(store: Store, isbn: string): seq<Book> {
    var entry := FinalEntry(store.similar, isbn);
    if NonEmpty(entry) then Filter(store.catalog, IsbnIn(Isbn10List(entry.value))) else []
  }

  /** The books the author fallback queries: those sharing an author with the
      seed book, other than the seed; none when the seed is missing or has no
      authors. */
  function AuthorFallbackPool(store: Store, isbn: string): seq<Book> {
    match FindByIsbn(store.catalog, isbn)
    case None => []
    case Some(seed) => if |seed.authors| > 0 then AuthorPool(store.catalog, seed.authors, isbn) else []
  }

  /** The books of `getRecommendationsForIsbn(isbn)`: the top ten of tier 1,
      or, when tier 1 finds nothing, the top ten of the author fallback. */
  ghost predicate ResolvesBooks(store: Store, isbn: string, books: seq<Book>) {
    var tier1 := Tier1Pool(store, isbn);
    if |tier1| > 0 then IsTopK(books, tier1, MaxRecommended)
    else IsTopK(books, AuthorFallbackPool(store, isbn), MaxRecommended)
  }

  /** The whole answer: the books, and "similar" exactly when the final entry
      is non-empty, wherever the books came from. */
  ghost predicate Resolves(store: Store, isbn: string, rec: Recommendation) {
    && (rec.source == Similar <==> NonEmpty(FinalEntry(store.similar, isbn)))
    && ResolvesBooks(store, isbn, rec.books)
  }

  /** What `getRecommendationsForIsbn(isbn)` returns, with the database's tie
      order fixed to the one `SortByRating` gives. */
  function Recommend(store: Store, isbn: string): Recommendation {
    var tier1 := Tier1Pool(store, isbn);
    var books := if |tier1| > 0 then TopByRating(tier1, MaxRecommended)
                 else TopByRating(AuthorFallbackPool(store, isbn), MaxRecommended);
    Recommendation(if NonEmpty(FinalEntry(store.similar, isbn)) then Similar else Author, books)
  }

  /** That answer meets `Resolves`, whatever the tie order. */
  lemma RecommendResolves(store: Store, isbn: string)
    ensures Resolves(store, isbn, Recommend(store, isbn))
  {
    TopByRatingIsTopK(Tier1Pool(store, isbn), MaxRecommended);
    TopByRatingIsTopK(AuthorFallbackPool(store, isbn), MaxRecommended);
  }

  /** `getRecommendationsForIsbn`, step by step: the table lookup by ISBN-13,
      the retry by raw isbn, the tier-1 query, the author fallback when tier 1
      found nothing, and the source tag. */
  method RecommendationsForIsbn(store: Store, isbn: string) returns (rec: Recommendation)
    ensures rec == Recommend(store, isbn)
  {
    var isbn13 := Isbn10To13(Some(isbn));
    var similar := Lookup(store.similar, isbn13);
    if similar.None? || |similar.value| == 0 {
      similar := Lookup(store.similar, Some(isbn));
    }
    assert similar == FinalEntry(store.similar, isbn);
    var books: seq<Book> := [];
    if similar.Some? && |similar.value| > 0 {
      var list := ConvertAll(similar.value);
      assert Filter(store.catalog, IsbnIn(list)) == Tier1Pool(store, isbn);
      books := TopByRating(Filter(store.catalog, IsbnIn(list)), MaxRecommended);
    }
    if |books| == 0 {
      var current := FindByIsbn(store.catalog, isbn);
      if current.Some? && |current.value.authors| > 0 {
        books := TopByRating(AuthorPool(store.catalog, current.value.authors, isbn), MaxRecommended);
      }
    }
    var source := if similar.Some? && |similar.value| > 0 then Similar else Author;
    rec := Recommendation(source, books);
  }

  /** `recommendBook`: not found unless the isbn is in the catalog. */
  method RecommendBook(store: Store, isbn: string) returns (r: Reply<Recommendation>)
    ensures r.NotFound? <==> FindByIsbn(store.catalog, isbn).None?
    ensures r.NotFound? ==> r.message == "Book not found"
    ensures r.Ok? || r.NotFound?
    ensures r.Ok? ==> Resolves(store, isbn, r.value)
  {
    var current := FindByIsbn(store.catalog, isbn);
    if current.None? {
      return NotFound("Book not found");
    }
    var rec := RecommendationsForIsbn(store, isbn);
    RecommendResolves(store, isbn);
    r := Ok(rec);
  }

  // ------------------------------------------------------------ properties

  /** Every answer is sorted by rating, then by number of ratings, and holds
      at most ten books, all from the catalog. */
  lemma {:induction false} ResolvedBooksSortedAndBounded(store: Store, isbn: string, books: seq<Book>)
    requires ResolvesBooks(store, isbn, books)
    ensures SortedByRating(books) && |books| <= MaxRecommended
    ensures forall b :: b in books ==> b in store.catalog
  {
    var tier1 := Tier1Pool(store, isbn);
    var pool := if |tier1| > 0 then tier1 else AuthorFallbackPool(store, isbn);
    forall b | b in books ensures b in store.catalog {
      TopKMembers(books, pool, MaxRecommended, b);
    }
  }

  /** Tier 1 queries exactly the catalog books whose isbn is the `isbn13to10`
      conversion of some entry of the final, non-empty `top_similar`. */
  lemma {:induction false} Tier1PoolMembers(store: Store, isbn: string, b: Book)
    ensures b in Tier1Pool(store, isbn) <==>
      && NonEmpty(FinalEntry(store.similar, isbn))
      && b in store.catalog
      && exists j :: 0 <= j < |FinalEntry(store.similar, isbn).value| &&
           Isbn10Of(Some(FinalEntry(store.similar, isbn).value[j])) == Some(b.isbn)
  {
    var entry := FinalEntry(store.similar, isbn);
    if NonEmpty(entry) {
      Isbn10ListMembers(entry.value, b.isbn);
    }
  }

  /** The author fallback is used only when tier 1 finds nothing; it gives the
      books sharing an author with the seed, other than the seed itself. */
  lemma {:induction false} AuthorFallbackMembers(store: Store, isbn: string, books: seq<Book>, b: Book)
    requires ResolvesBooks(store, isbn, books)
    requires |Tier1Pool(store, isbn)| == 0 && b in books
    ensures exists seed :: (seed in store.catalog && seed.isbn == isbn && |seed.authors| > 0
      && SharesAuthor(b, seed.authors))
    ensures b.isbn != isbn && b in store.catalog
  {
    TopKMembers(books, AuthorFallbackPool(store, isbn), MaxRecommended, b);
  }

  /** A seed that is missing, or has no authors, and no tier-1 books give an
      empty answer. */
  lemma {:induction false} NoSeedNoBooks(store: Store, isbn: string, books: seq<Book>)
    requires ResolvesBooks(store, isbn, books)
    requires |Tier1Pool(store, isbn)| == 0
    requires FindByIsbn(store.catalog, isbn).None? || |FindByIsbn(store.catalog, isbn).value.authors| == 0
    ensures books == []
  {
    assert AuthorFallbackPool(store, isbn) == [];
  }

  /** The tag can say "similar" while the books come from the author fallback:
      a non-empty final entry none of whose isbns converts (a 979 ISBN-13, for
      instance) leaves tier 1 empty. */
  lemma {:induction false} SimilarTagWithAuthorBooks(store: Store, isbn: string, rec: Recommendation)
    requires Resolves(store, isbn, rec)
    requires NonEmpty(FinalEntry(store.similar, isbn))
    requires forall y :: y in FinalEntry(store.similar, isbn).value ==> Isbn10Of(Some(y)).None?
    ensures rec.source == Similar
    ensures IsTopK(rec.books, AuthorFallbackPool(store, isbn), MaxRecommended)
  {
    var top := FinalEntry(store.similar, isbn).value;
    assert Isbn10List(top) == [] by {
      if Isbn10List(top) != [] {
        var v := Isbn10List(top)[0];
        Isbn10ListMembers(top, v);
        assert false;
      }
    }
    assert Tier1Pool(store, isbn) == [] by {
      FilterNone(store.catalog, IsbnIn([]));
    }
  }

  /** The table is read under the ISBN-13 form first; the raw isbn is tried
      only when that entry is missing or empty. */
  lemma FinalEntryPrefersIsbn13(similar: map<string, seq<string>>, isbn: string, key: string)
    requires Isbn13Of(Some(isbn)) == Some(key) && key in similar && similar[key] != []
    ensures FinalEntry(similar, isbn) == Some(similar[key])
  {
  }

  lemma FinalEntryFallsBackToRawIsbn(similar: map<string, seq<string>>, isbn: string)
    requires !NonEmpty(Lookup(similar, Isbn13Of(Some(isbn))))
    ensures FinalEntry(similar, isbn) == Lookup(similar, Some(isbn))
    ensures isbn !in similar ==> FinalEntry(similar, isbn).None?
  {
  }

  // ------------------------------------------------------------ per-user recommendations

  /** Books a user's ratings of 4 or more point at, in entry order. */
  function HighRated(es: seq<ReviewEntry>): (r: seq<BookId>)
    ensures forall id :: id in r <==> exists i :: (0 <= i < |es| && es[i].bookId == id
      && es[i].rating.Some? && es[i].rating.value >= 4)
  {
    if es == [] then []
    else
      assert forall i :: 1 <= i < |es| ==> es[1..][i - 1] == es[i];
      (if es[0].rating.Some? && es[0].rating.value >= 4 then [es[0].bookId] else []) + HighRated(es[1..])
  }

  /** `[...new Set([...completedIds, ...highRatedBookIds])]`. */
  function Seeds(st: ReadingState): seq<BookId> {
    Dedup(st.completed + HighRated(st.ratingsAndReviews))
  }

  /** The seed set holds each completed or highly rated book once, the
      completed ones first, each at its first occurrence. */
  lemma {:induction false} SeedsShape(st: ReadingState)
    ensures NoDup(Seeds(st))
    ensures forall id :: id in Seeds(st) <==> id in st.completed || id in HighRated(st.ratingsAndReviews)
    ensures |Dedup(st.completed)| <= |Seeds(st)|
    ensures Seeds(st)[..|Dedup(st.completed)|] == Dedup(st.completed)
  {
    DedupPrefix(st.completed, HighRated(st.ratingsAndReviews));
  }

  /** `_id: { $in: ids }`. */
  function IdIn(ids: seq<BookId>): Book -> bool {
    (b: Book) => b.id in ids
  }

  /** `bookModel.find({ _id: { $in: paginatedIds } })`: the page's books in
      catalog order, not in seed order. */
  function BaseBooks(catalog: seq<Book>, ids: seq<BookId>): (r: seq<Book>)
    ensures forall b :: b in r <==> b in catalog && b.id in ids
    ensures IsSubsequence(r, catalog)
  {
    FilterIsSubsequence(catalog, IdIn(ids));
    Filter(catalog, IdIn(ids))
  }

  /** The ids of some books. */
  function Ids(books: seq<Book>): (r: seq<BookId>)
    ensures |r| == |books|
    ensures forall i :: 0 <= i < |books| ==> r[i] == books[i].id
  {
    if books == [] then [] else [books[0].id] + Ids(books[1..])
  }

  lemma {:induction false} FilterKeepsUniqueKeys(catalog: seq<Book>, p: Book -> bool)
    requires UniqueKeys(catalog)
    ensures UniqueKeys(Filter(catalog, p))
  {
    var R := (a: Book, b: Book) => a.id != b.id && a.isbn != b.isbn;
    assert Pairwise(catalog, R);
    FilterPairwise(catalog, p, R);
  }

  lemma {:induction false} UniqueKeysDistinctIds(books: seq<Book>)
    requires UniqueKeys(books)
    ensures NoDup(Ids(books))
  {
    if books != [] {
      assert UniqueKeys(books[1..]);
      UniqueKeysDistinctIds(books[1..]);
      assert Ids(books) == [books[0].id] + Ids(books[1..]);
      forall i | 0 <= i < |Ids(books[1..])| ensures Ids(books[1..])[i] != books[0].id {
        assert books[1..][i] == books[i + 1];
      }
    }
  }

  /** With unique book ids, a page of four seeds yields at most four base
      books, so at most four entries. */
  lemma {:induction false} BaseBooksAtMostPage(catalog: seq<Book>, ids: seq<BookId>)
    requires UniqueKeys(catalog)
    ensures |BaseBooks(catalog, ids)| <= |ids|
  {
    var base := BaseBooks(catalog, ids);
    FilterKeepsUniqueKeys(catalog, IdIn(ids));
    UniqueKeysDistinctIds(base);
    forall x | x in Ids(base) ensures x in ids {
      var i :| 0 <= i < |Ids(base)| && Ids(base)[i] == x;
      assert base[i] in base;
    }
    NoDupWithinIsShorter(Ids(base), ids);
  }

  /** One entry of `personalizedRecommendations`. */
  datatype SeedEntry = SeedEntry(title: string, isbn: string, recommendations: seq<Book>)

  /** The body of a `recommendForUser` answer. */
  datatype Personalized = Personalized(
    totalBooksConsidered: nat, currentPage: nat, totalPages: nat, entries: seq<SeedEntry>)

  /** Seeds per page (`limit = 4`). */
  const SeedsPerPage: nat := 4

  /** `recommendForUser`: a missing user is not found; otherwise the page of
      seeds (`page` from `parseInt(req.query.page) || 1`), the page's books in
      catalog order, and one independently resolved entry per book. */
  method RecommendForUser(store: Store, user: Option<ReadingState>, pageParam: Option<nat>)
    returns (r: Reply<Personalized>)
    ensures user.None? <==> r == NotFound("User not found")
    ensures user.Some? ==> r.Ok?
    ensures r.Ok? ==>
      var seeds := Seeds(user.value);
      var page := PageNumber(pageParam);
      var base := BaseBooks(store.catalog, PageOf(seeds, page, SeedsPerPage));
      && r.value.totalBooksConsidered == |seeds|
      && r.value.currentPage == page
      && r.value.totalPages == CeilDiv(|seeds|, SeedsPerPage)
      && |r.value.entries| == |base|
      && forall i :: 0 <= i < |base| ==> EntryFor(store, base[i], r.value.entries[i])
  {
    if user.None? {
      return NotFound("User not found");
    }
    var page := PageNumber(pageParam);
    var seeds := Seeds(user.value);
    var total := |seeds|;
    var pageIds := Slice(seeds, (page - 1) * SeedsPerPage, SeedsPerPage);
    var base := BaseBooks(store.catalog, pageIds);
    var entries := ResolveEach(store, base);
    MappedEntriesResolve(store, base);
    r := Ok(Personalized(total, page, CeilDiv(total, SeedsPerPage), entries));
  }

  /** Each entry built by `EntryOf` is resolved for its base book. */
  lemma MappedEntriesResolve(store: Store, base: seq<Book>)
    ensures |Map(base, EntryOf(store))| == |base|
    ensures forall i :: 0 <= i < |base| ==> EntryFor(store, base[i], Map(base, EntryOf(store))[i])
  {
    if base != [] {
      MapAt(base, EntryOf(store), 0);
    }
    forall i | 0 <= i < |base| ensures EntryFor(store, base[i], Map(base, EntryOf(store))[i]) {
      MapAt(base, EntryOf(store), i);
      RecommendResolves(store, base[i].isbn);
    }
  }

  /** An entry resolved for a base book: its title, its isbn, and what the
      resolver gives for that isbn. */
  ghost predicate EntryFor(store: Store, b: Book, e: SeedEntry) {
    e.title == b.title && e.isbn == b.isbn && ResolvesBooks(store, b.isbn, e.recommendations)
  }

  /** The entry `recommendForUser` builds for one base book. */
  function EntryOf(store: Store): Book -> SeedEntry {
    (b: Book) => SeedEntry(b.title, b.isbn, Recommend(store, b.isbn).books)
  }

  /** The loop of `recommendForUser`: one entry per base book, in order, each
      resolved on its own isbn. */
  method ResolveEach(store: Store, base: seq<Book>) returns (entries: seq<SeedEntry>)
    ensures entries == Map(base, EntryOf(store))
  {
    entries := [];
    for i := 0 to |base|
      invariant entries == Map(base[..i], EntryOf(store))
    {
      var rec := RecommendationsForIsbn(store, base[i].isbn);
      assert base[..i + 1][..i] == base[..i];
      entries := entries + [SeedEntry(base[i].title, base[i].isbn, rec.books)];
      assert entries == Map(base[..i + 1], EntryOf(store));
    }
    assert base[..|base|] == base;
  }

  /** The page count: a page number has seeds exactly when it is at most
      `totalPages`. */
  lemma SeedPageNonEmpty(st: ReadingState, page: nat)
    requires page >= 1
    ensures |PageOf(Seeds(st), page, SeedsPerPage)| > 0 <==> page <= CeilDiv(|Seeds(st)|, SeedsPerPage)
  {
    PageNonEmptyIffInRange(Seeds(st), page, SeedsPerPage);
  }
}
