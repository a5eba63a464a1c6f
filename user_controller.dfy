/** The reading-list handlers of `src/controllers/userController.js`: adding a
    book to a shelf and removing it, the status query, the dashboard
    statistics, the shelf views and the user's own reviews. */
module UserController {
  import opened Wrappers
  import opened Seqs
  import opened Text
  import opened Catalog
  import opened Users

  /** The three shelves a book can be put on. */
  datatype Status = PlanToRead | Reading | Completed

  /** `validStatuses.includes(status)`, mapping the accepted names to shelves. */
  function ParseStatus(s: Option<string>): (r: Option<Status>)
    ensures r.None? <==> s != Some("planToRead") && s != Some("reading") && s != Some("completed")
    ensures r == Some(PlanToRead) <==> s == Some("planToRead")
    ensures r == Some(Reading) <==> s == Some("reading")
    ensures r == Some(Completed) <==> s == Some("completed")
  {
    if s == Some("planToRead") then Some(PlanToRead)
    else if s == Some("reading") then Some(Reading)
    else if s == Some("completed") then Some(Completed)
    else None
  }

  /** `user[status]`. */
  function Shelf(st: ReadingState, s: Status): seq<BookId> {
    match s
    case PlanToRead => st.planToRead
    case Reading => st.reading
    case Completed => st.completed
  }

  /** The tests the handlers filter with: `!id.equals(book._id)` and
      `!r.bookId.equals(book._id)`. */
  function IsOther(id: BookId): BookId -> bool {
    x => x != id
  }

  function IsOtherReview(id: BookId): ReviewEntry -> bool {
    (e: ReviewEntry) => e.bookId != id
  }

  function IsOtherPages(id: BookId): PagesEntry -> bool {
    (e: PagesEntry) => e.bookId != id
  }

  /** The five filters of `deleteBookFromUser`, which `addBookToUser` runs first too. */
  function AfterDelete(st: ReadingState, id: BookId): ReadingState {
    ReadingState(
      Filter(st.planToRead, IsOther(id)),
      Filter(st.reading, IsOther(id)),
      Filter(st.completed, IsOther(id)),
      Filter(st.ratingsAndReviews, IsOtherReview(id)),
      Filter(st.pagesRead, IsOtherPages(id)))
  }

  /** `addBookToUser` on the stored record: remove every trace of the book, then
      push it onto the chosen shelf and push its new review and pages entries. */
  function AfterAdd(st: ReadingState, s: Status, id: BookId,
                    pages: Option<int>, rating: Option<int>, review: Option<string>): ReadingState
  {
    var cleared := AfterDelete(st, id);
    ReadingState(
      cleared.planToRead + (if s == PlanToRead then [id] else []),
      cleared.reading + (if s == Reading then [id] else []),
      cleared.completed + (if s == Completed then [id] else []),
      cleared.ratingsAndReviews + [ReviewEntry(id, rating, review)],
      cleared.pagesRead + [PagesEntry(id, pages)])
  }

  // ------------------------------------------------------------ invariants

  function DistinctReviewBooks(): (ReviewEntry, ReviewEntry) -> bool {
    (a: ReviewEntry, b: ReviewEntry) => a.bookId != b.bookId
  }

  function DistinctPagesBooks(): (PagesEntry, PagesEntry) -> bool {
    (a: PagesEntry, b: PagesEntry) => a.bookId != b.bookId
  }

  /** The record the handlers maintain: a book is on at most one shelf, at most
      once, and has at most one review entry and one pages entry. */
  ghost predicate Consistent(st: ReadingState) {
    && NoDup(st.planToRead + st.reading + st.completed)
    && Pairwise(st.ratingsAndReviews, DistinctReviewBooks())
    && Pairwise(st.pagesRead, DistinctPagesBooks())
  }

  /** One shelf after `addBookToUser`: filtered, then `pushed` (empty, or the
      book itself) appended. */
  lemma {:induction false} ShelfAfterPush(l: seq<BookId>, id: BookId, pushed: seq<BookId>)
    requires pushed == [] || pushed == [id]
    ensures multiset(Filter(l, IsOther(id)) + pushed)[id] == |pushed|
    ensures forall x :: x != id ==> multiset(Filter(l, IsOther(id)) + pushed)[x] == multiset(l)[x]
    ensures Filter(Filter(l, IsOther(id)) + pushed, IsOther(id)) == Filter(l, IsOther(id))
  {
    FilterAfterPush(l, IsOther(id), pushed);
    FilterMultiset(l, IsOther(id));
    assert multiset(Filter(l, IsOther(id)) + pushed) == multiset(Filter(l, IsOther(id))) + multiset(pushed);
  }

  /** A shelf after adding: filtered, with the book pushed onto the chosen one. */
  lemma ShelfAfterAdd(st: ReadingState, s: Status, id: BookId,
                      pages: Option<int>, rating: Option<int>, review: Option<string>, t: Status)
    ensures Shelf(AfterAdd(st, s, id, pages, rating, review), t)
      == Filter(Shelf(st, t), IsOther(id)) + (if t == s then [id] else [])
  {
    match t
    case PlanToRead =>
    case Reading =>
    case Completed =>
  }

  /** After adding, the book is on the chosen shelf, as its last element, and
      on no other shelf; every shelf keeps its other ids in their order. */
  lemma {:induction false} AddPlacesOnce(st: ReadingState, s: Status, id: BookId,
                                         pages: Option<int>, rating: Option<int>, review: Option<string>)
    ensures var n := AfterAdd(st, s, id, pages, rating, review);
      && |Shelf(n, s)| > 0 && Shelf(n, s)[|Shelf(n, s)| - 1] == id
      && (forall t :: multiset(Shelf(n, t))[id] == if t == s then 1 else 0)
      && (forall t :: Filter(Shelf(n, t), IsOther(id)) == Filter(Shelf(st, t), IsOther(id)))
  {
    var n := AfterAdd(st, s, id, pages, rating, review);
    ShelfAfterAdd(st, s, id, pages, rating, review, s);
    forall t ensures multiset(Shelf(n, t))[id] == (if t == s then 1 else 0)
      && Filter(Shelf(n, t), IsOther(id)) == Filter(Shelf(st, t), IsOther(id))
    {
      ShelfAfterAdd(st, s, id, pages, rating, review, t);
      ShelfAfterPush(Shelf(st, t), id, if t == s then [id] else []);
    }
  }

  /** Other ids keep their number of occurrences on every shelf when a book is added. */
  lemma {:induction false} AddKeepsOtherIds(st: ReadingState, s: Status, id: BookId,
                                            pages: Option<int>, rating: Option<int>, review: Option<string>, x: BookId)
    requires x != id
    ensures var n := AfterAdd(st, s, id, pages, rating, review);
      forall t :: multiset(Shelf(n, t))[x] == multiset(Shelf(st, t))[x]
  {
    var n := AfterAdd(st, s, id, pages, rating, review);
    forall t ensures multiset(Shelf(n, t))[x] == multiset(Shelf(st, t))[x] {
      ShelfAfterAdd(st, s, id, pages, rating, review, t);
      ShelfAfterPush(Shelf(st, t), id, if t == s then [id] else []);
    }
  }

  /** After adding, the book has exactly one review entry and one pages entry,
      the new ones, pushed last; the entries of other books are kept in order. */
  lemma {:induction false} AddOneEntryEach(st: ReadingState, s: Status, id: BookId,
                                           pages: Option<int>, rating: Option<int>, review: Option<string>)
    ensures var n := AfterAdd(st, s, id, pages, rating, review);
      && |n.ratingsAndReviews| > 0 && |n.pagesRead| > 0
      && n.ratingsAndReviews[|n.ratingsAndReviews| - 1] == ReviewEntry(id, rating, review)
      && n.pagesRead[|n.pagesRead| - 1] == PagesEntry(id, pages)
      && (forall i :: 0 <= i < |n.ratingsAndReviews| - 1 ==> n.ratingsAndReviews[i].bookId != id)
      && (forall i :: 0 <= i < |n.pagesRead| - 1 ==> n.pagesRead[i].bookId != id)
      && Filter(n.ratingsAndReviews, IsOtherReview(id)) == Filter(st.ratingsAndReviews, IsOtherReview(id))
      && Filter(n.pagesRead, IsOtherPages(id)) == Filter(st.pagesRead, IsOtherPages(id))
  {
    var n := AfterAdd(st, s, id, pages, rating, review);
    FilterAfterPush(st.ratingsAndReviews, IsOtherReview(id), [ReviewEntry(id, rating, review)]);
    FilterAfterPush(st.pagesRead, IsOtherPages(id), [PagesEntry(id, pages)]);
    var kept := Filter(st.ratingsAndReviews, IsOtherReview(id));
    var keptPages := Filter(st.pagesRead, IsOtherPages(id));
    forall i | 0 <= i < |n.ratingsAndReviews| - 1 ensures n.ratingsAndReviews[i].bookId != id {
      assert n.ratingsAndReviews[i] == kept[i];
      assert kept[i] in kept;
    }
    forall i | 0 <= i < |n.pagesRead| - 1 ensures n.pagesRead[i].bookId != id {
      assert n.pagesRead[i] == keptPages[i];
      assert keptPages[i] in keptPages;
    }
  }

  /** Removing a book right after adding it is removing it from the record
      as it was before. */
  lemma {:induction false} DeleteAfterAdd(st: ReadingState, s: Status, id: BookId,
                                          pages: Option<int>, rating: Option<int>, review: Option<string>)
    ensures AfterDelete(AfterAdd(st, s, id, pages, rating, review), id) == AfterDelete(st, id)
  {
    var n := AfterAdd(st, s, id, pages, rating, review);
    var d := AfterDelete(st, id);
    assert AfterDelete(n, id).planToRead == d.planToRead by {
      FilterAfterPush(st.planToRead, IsOther(id), if s == PlanToRead then [id] else []);
    }
    assert AfterDelete(n, id).reading == d.reading by {
      FilterAfterPush(st.reading, IsOther(id), if s == Reading then [id] else []);
    }
    assert AfterDelete(n, id).completed == d.completed by {
      FilterAfterPush(st.completed, IsOther(id), if s == Completed then [id] else []);
    }
    assert AfterDelete(n, id).ratingsAndReviews == d.ratingsAndReviews by {
      FilterAfterPush(st.ratingsAndReviews, IsOtherReview(id), [ReviewEntry(id, rating, review)]);
    }
    assert AfterDelete(n, id).pagesRead == d.pagesRead by {
      FilterAfterPush(st.pagesRead, IsOtherPages(id), [PagesEntry(id, pages)]);
    }
  }

  /** Adding the same book twice with the same arguments leaves the record as
      adding it once. */
  lemma {:induction false} AddIdempotent(st: ReadingState, s: Status, id: BookId,
                                         pages: Option<int>, rating: Option<int>, review: Option<string>)
    ensures var once := AfterAdd(st, s, id, pages, rating, review);
      AfterAdd(once, s, id, pages, rating, review) == once
  {
    DeleteAfterAdd(st, s, id, pages, rating, review);
  }

  /** Removing a book leaves no entry for it in any of the five collections. */
  lemma {:induction false} DeleteRemovesBook(st: ReadingState, id: BookId)
    ensures var n := AfterDelete(st, id);
      && (forall t :: id !in Shelf(n, t))
      && (forall e :: e in n.ratingsAndReviews ==> e.bookId != id)
      && (forall e :: e in n.pagesRead ==> e.bookId != id)
  {
    var n := AfterDelete(st, id);
    forall t ensures id !in Shelf(n, t) {
      assert Shelf(n, t) == Filter(Shelf(st, t), IsOther(id));
    }
  }

  /** Removing a book keeps every other id and entry, as often as it occurred,
      and each collection keeps its order. */
  lemma {:induction false} DeleteKeepsOthers(st: ReadingState, id: BookId)
    ensures var n := AfterDelete(st, id);
      && (forall t, x :: x != id ==> multiset(Shelf(n, t))[x] == multiset(Shelf(st, t))[x])
      && (forall e: ReviewEntry :: e.bookId != id ==> multiset(n.ratingsAndReviews)[e] == multiset(st.ratingsAndReviews)[e])
      && (forall e: PagesEntry :: e.bookId != id ==> multiset(n.pagesRead)[e] == multiset(st.pagesRead)[e])
      && (forall t :: IsSubsequence(Shelf(n, t), Shelf(st, t)))
      && IsSubsequence(n.ratingsAndReviews, st.ratingsAndReviews)
      && IsSubsequence(n.pagesRead, st.pagesRead)
  {
    DeleteKeepsOtherIds(st, id);
    DeleteKeepsOtherEntries(st, id);
  }

  /** The shelf part of `DeleteKeepsOthers`. */
  lemma DeleteKeepsOtherIds(st: ReadingState, id: BookId)
    ensures var n := AfterDelete(st, id);
      && (forall t, x :: x != id ==> multiset(Shelf(n, t))[x] == multiset(Shelf(st, t))[x])
      && (forall t :: IsSubsequence(Shelf(n, t), Shelf(st, t)))
  {
    var n := AfterDelete(st, id);
    forall t ensures (forall x :: x != id ==> multiset(Shelf(n, t))[x] == multiset(Shelf(st, t))[x])
      && IsSubsequence(Shelf(n, t), Shelf(st, t))
    {
      assert Shelf(n, t) == Filter(Shelf(st, t), IsOther(id));
      FilterKeeps(Shelf(st, t), IsOther(id));
    }
  }

  /** The review and pages part of `DeleteKeepsOthers`. */
  lemma DeleteKeepsOtherEntries(st: ReadingState, id: BookId)
    ensures var n := AfterDelete(st, id);
      && (forall e: ReviewEntry :: e.bookId != id ==> multiset(n.ratingsAndReviews)[e] == multiset(st.ratingsAndReviews)[e])
      && (forall e: PagesEntry :: e.bookId != id ==> multiset(n.pagesRead)[e] == multiset(st.pagesRead)[e])
      && IsSubsequence(n.ratingsAndReviews, st.ratingsAndReviews)
      && IsSubsequence(n.pagesRead, st.pagesRead)
  {
    FilterKeeps(st.ratingsAndReviews, IsOtherReview(id));
    FilterKeeps(st.pagesRead, IsOtherPages(id));
  }

  lemma AllShelvesMultiset(st: ReadingState, x: BookId)
    ensures multiset(st.planToRead + st.reading + st.completed)[x]
      == multiset(st.planToRead)[x] + multiset(st.reading)[x] + multiset(st.completed)[x]
  {
    assert multiset(st.planToRead + st.reading + st.completed)
      == multiset(st.planToRead) + multiset(st.reading) + multiset(st.completed);
  }

  /** After adding, the review entries still name each book at most once. */
  lemma {:induction false} AddKeepsReviewsUnique(es: seq<ReviewEntry>, e: ReviewEntry)
    requires Pairwise(es, DistinctReviewBooks())
    ensures Pairwise(Filter(es, IsOtherReview(e.bookId)) + [e], DistinctReviewBooks())
  {
    var kept := Filter(es, IsOtherReview(e.bookId));
    FilterPairwise(es, IsOtherReview(e.bookId), DistinctReviewBooks());
    forall i | 0 <= i < |kept| ensures kept[i].bookId != e.bookId {
      assert kept[i] in kept;
    }
  }

  /** After adding, the pages entries still name each book at most once. */
  lemma {:induction false} AddKeepsPagesUnique(es: seq<PagesEntry>, e: PagesEntry)
    requires Pairwise(es, DistinctPagesBooks())
    ensures Pairwise(Filter(es, IsOtherPages(e.bookId)) + [e], DistinctPagesBooks())
  {
    var kept := Filter(es, IsOtherPages(e.bookId));
    FilterPairwise(es, IsOtherPages(e.bookId), DistinctPagesBooks());
    forall i | 0 <= i < |kept| ensures kept[i].bookId != e.bookId {
      assert kept[i] in kept;
    }
  }

  /** How often an id occurs across the shelves after adding: once for the
      book added, as before for every other id. */
  lemma {:induction false} AddShelfCount(st: ReadingState, s: Status, id: BookId,
                                         pages: Option<int>, rating: Option<int>, review: Option<string>, x: BookId)
    ensures var n := AfterAdd(st, s, id, pages, rating, review);
      multiset(n.planToRead + n.reading + n.completed)[x]
        == if x == id then 1 else multiset(st.planToRead + st.reading + st.completed)[x]
  {
    var n := AfterAdd(st, s, id, pages, rating, review);
    AllShelvesMultiset(n, x);
    AllShelvesMultiset(st, x);
    match s
    case PlanToRead =>
      ShelfAfterPush(st.planToRead, id, [id]);
      ShelfAfterPush(st.reading, id, []);
      ShelfAfterPush(st.completed, id, []);
    case Reading =>
      ShelfAfterPush(st.planToRead, id, []);
      ShelfAfterPush(st.reading, id, [id]);
      ShelfAfterPush(st.completed, id, []);
    case Completed =>
      ShelfAfterPush(st.planToRead, id, []);
      ShelfAfterPush(st.reading, id, []);
      ShelfAfterPush(st.completed, id, [id]);
  }

  /** After adding, no book is on two shelves or twice on one. */
  lemma {:induction false} AddKeepsShelvesUnique(st: ReadingState, s: Status, id: BookId,
                                                 pages: Option<int>, rating: Option<int>, review: Option<string>)
    requires NoDup(st.planToRead + st.reading + st.completed)
    ensures var n := AfterAdd(st, s, id, pages, rating, review);
      NoDup(n.planToRead + n.reading + n.completed)
  {
    var n := AfterAdd(st, s, id, pages, rating, review);
    forall x ensures multiset(n.planToRead + n.reading + n.completed)[x] <= 1 {
      AddShelfCount(st, s, id, pages, rating, review, x);
    }
  }


  /** Adding keeps the record consistent. */
  lemma {:induction false} AddPreservesConsistent(st: ReadingState, s: Status, id: BookId,
                                                  pages: Option<int>, rating: Option<int>, review: Option<string>)
    requires Consistent(st)
    ensures Consistent(AfterAdd(st, s, id, pages, rating, review))
  {
    AddKeepsShelvesUnique(st, s, id, pages, rating, review);
    AddKeepsReviewsUnique(st.ratingsAndReviews, ReviewEntry(id, rating, review));
    AddKeepsPagesUnique(st.pagesRead, PagesEntry(id, pages));
  }

  /** Removing a book never raises how often any id occurs across the shelves. */
  lemma {:induction false} DeleteShelfCount(st: ReadingState, id: BookId, x: BookId)
    ensures var n := AfterDelete(st, id);
      multiset(n.planToRead + n.reading + n.completed)[x]
        <= multiset(st.planToRead + st.reading + st.completed)[x]
  {
    var n := AfterDelete(st, id);
    AllShelvesMultiset(n, x);
    AllShelvesMultiset(st, x);
    FilterMultiset(st.planToRead, IsOther(id));
    FilterMultiset(st.reading, IsOther(id));
    FilterMultiset(st.completed, IsOther(id));
  }

  /** Removing keeps the record consistent. */
  lemma {:induction false} DeletePreservesConsistent(st: ReadingState, id: BookId)
    requires Consistent(st)
    ensures Consistent(AfterDelete(st, id))
  {
    var n := AfterDelete(st, id);
    assert NoDup(n.planToRead + n.reading + n.completed) by {
      forall x ensures multiset(n.planToRead + n.reading + n.completed)[x] <= 1 {
        DeleteShelfCount(st, id, x);
      }
    }
    assert Pairwise(n.ratingsAndReviews, DistinctReviewBooks()) by {
      FilterPairwise(st.ratingsAndReviews, IsOtherReview(id), DistinctReviewBooks());
    }
    assert Pairwise(n.pagesRead, DistinctPagesBooks()) by {
      FilterPairwise(st.pagesRead, IsOtherPages(id), DistinctPagesBooks());
    }
  }

  // ------------------------------------------------------------ status query

  /** Priority of the shelves in `checkUserBookStatus`. */
  function Rank(s: Status): nat {
    match s
    case PlanToRead => 0
    case Reading => 1
    case Completed => 2
  }

  /** The first shelf, in the order planToRead, reading, completed, that holds
      the book; none when no shelf does. */
  function StatusOf(st: ReadingState, id: BookId): (r: Option<Status>)
    ensures r.Some? ==> id in Shelf(st, r.value)
    ensures r.Some? ==> forall t :: Rank(t) < Rank(r.value) ==> id !in Shelf(st, t)
    ensures r.None? <==> forall t :: id !in Shelf(st, t)
  {
    if id in st.planToRead then Some(PlanToRead)
    else if id in st.reading then Some(Reading)
    else if id in st.completed then Some(Completed)
    else None
  }

  /** `checkUserBookStatus`: a missing or empty isbn is a bad request, an
      unknown isbn is not found, otherwise the status (and `alreadyAdded`
      is whether there is one). */
  function CheckStatus(catalog: seq<Book>, isbn: Option<string>, st: ReadingState): (r: Reply<Option<Status>>)
    ensures r == BadRequest <==> !Truthy(isbn)
    ensures r.NotFound? <==> Truthy(isbn) && FindByIsbn(catalog, isbn.value).None?
    ensures r.Ok? ==> exists b :: b in catalog && b.isbn == isbn.value && r.value == StatusOf(st, b.id)
    ensures Truthy(isbn) && FindByIsbn(catalog, isbn.value).Some? ==>
      r == Ok(StatusOf(st, FindByIsbn(catalog, isbn.value).value.id))
  {
    if !Truthy(isbn) then BadRequest
    else match FindByIsbn(catalog, isbn.value)
      case None => NotFound("Book not found")
      case Some(b) => Ok(StatusOf(st, b.id))
  }

  /** After adding a book to a shelf, its status is that shelf. */
  lemma {:induction false} StatusAfterAdd(st: ReadingState, s: Status, id: BookId,
                                          pages: Option<int>, rating: Option<int>, review: Option<string>)
    ensures StatusOf(AfterAdd(st, s, id, pages, rating, review), id) == Some(s)
  {
    var n := AfterAdd(st, s, id, pages, rating, review);
    AddPlacesOnce(st, s, id, pages, rating, review);
    var r := StatusOf(n, id);
    assert multiset(Shelf(n, s))[id] == 1;
    if r.Some? {
      assert multiset(Shelf(n, r.value))[id] > 0;
    }
  }

  /** After removing a book, it has no status. */
  lemma StatusAfterDelete(st: ReadingState, id: BookId)
    ensures StatusOf(AfterDelete(st, id), id).None?
  {
    DeleteRemovesBook(st, id);
  }

  // ------------------------------------------------------------ dashboard

  /** `r.review && r.review.trim()`: a review with some non-space text. */
  predicate HasReviewText(e: ReviewEntry) {
    HasText(e.review)
  }

  /** `r.rating > 0`. */
  predicate IsRated(e: ReviewEntry) {
    e.rating.Some? && e.rating.value > 0
  }

  /** `r.rating || 0`. */
  function RatingOrZero(e: ReviewEntry): int {
    if e.rating.Some? then e.rating.value else 0
  }

  /** The `reduce` adding up `r.rating || 0` over the entries. */
  function RatingSum(es: seq<ReviewEntry>): int {
    if es == [] then 0 else RatingOrZero(es[0]) + RatingSum(es[1..])
  }

  /** The histogram bucket of an entry: its rating when that is 1..5, and 0,
      standing for "N/A", otherwise. */
  function Bucket(e: ReviewEntry): (k: nat)
    ensures k <= 5
    ensures k != 0 <==> e.rating.Some? && 1 <= e.rating.value <= 5
    ensures k != 0 ==> e.rating == Some(k)
  {
    var v := RatingOrZero(e);
    if 1 <= v <= 5 then v else 0
  }

  /** How many entries land in bucket `k`. */
  function BucketCount(es: seq<ReviewEntry>, k: nat): nat {
    if es == [] then 0
    else BucketCount(es[..|es| - 1], k) + (if Bucket(es[|es| - 1]) == k then 1 else 0)
  }

  /** The `stats` and `ratingsStats` of `getDashboard`; `ratingCounts[0]` is
      the "N/A" bucket and `ratingCounts[k]` the bucket of rating `k`. */
  datatype Dashboard = Dashboard(
    booksPlanned: nat, booksReading: nat, booksCompleted: nat,
    totalReviews: nat, totalRatings: nat, ratingSum: int, avgRating: real,
    ratingCounts: seq<nat>)

  /** `getDashboard`: shelf sizes, review and rating counts, the average of the
      ratings above 0, and the histogram filled entry by entry. */
  method GetDashboard(st: ReadingState) returns (d: Dashboard)
    ensures d.booksPlanned == |st.planToRead| && d.booksReading == |st.reading|
    ensures d.booksCompleted == |st.completed|
    ensures d.totalReviews == |Filter(st.ratingsAndReviews, HasReviewText)|
    ensures d.totalRatings == |Filter(st.ratingsAndReviews, IsRated)|
    ensures d.ratingSum == RatingSum(st.ratingsAndReviews)
    ensures d.avgRating == if d.totalRatings > 0 then d.ratingSum as real / d.totalRatings as real else 0.0
    ensures |d.ratingCounts| == 6
    ensures forall k :: 0 <= k < 6 ==> d.ratingCounts[k] == BucketCount(st.ratingsAndReviews, k)
  {
    var es := st.ratingsAndReviews;
    var totalRatings := |Filter(es, IsRated)|;
    var ratingSum := RatingSum(es);
    var avg := if totalRatings > 0 then ratingSum as real / totalRatings as real else 0.0;
    var counts: seq<nat> := [0, 0, 0, 0, 0, 0];
    for i := 0 to |es|
      invariant |counts| == 6
      invariant forall k :: 0 <= k < 6 ==> counts[k] == BucketCount(es[..i], k)
    {
      assert es[..i + 1][..i] == es[..i];
      var b := Bucket(es[i]);
      counts := counts[b := counts[b] + 1];
    }
    assert es[..|es|] == es;
    d := Dashboard(|st.planToRead|, |st.reading|, |st.completed|,
                   |Filter(es, HasReviewText)|, totalRatings, ratingSum, avg, counts);
  }

  /** Every entry lands in exactly one bucket, so the buckets add up to the
      number of entries. */
  lemma {:induction false} BucketsSumToEntries(es: seq<ReviewEntry>)
    ensures BucketCount(es, 0) + BucketCount(es, 1) + BucketCount(es, 2)
      + BucketCount(es, 3) + BucketCount(es, 4) + BucketCount(es, 5) == |es|
  {
    if es != [] {
      BucketsSumToEntries(es[..|es| - 1]);
    }
  }

  /** With the schema's 0..5 ratings, the ratings above 0 add up to between
      one and five times their number: the average, when there is one, lies
      in 1..5. */
  lemma {:induction false} RatingSumWithinScale(es: seq<ReviewEntry>)
    requires RatingsInRange(es)
    ensures var n := |Filter(es, IsRated)|;
      n <= RatingSum(es) <= 5 * n
  {
    if es != [] {
      assert RatingsInRange(es[1..]) by {
        forall i | 0 <= i < |es[1..]| ensures RatingInRange(es[1..][i]) {
          assert es[1..][i] == es[i + 1];
        }
      }
      assert RatingInRange(es[0]);
      RatingSumWithinScale(es[1..]);
    }
  }

  // ------------------------------------------------------------ shelf views

  /** A JavaScript `Map` filled by `forEach(e => m.set(key(e), value(e)))`. */
  function Index<E(!new), V(!new)>(es: seq<E>, key: E -> BookId, value: E -> V): map<BookId, V> {
    if es == [] then map[]
    else
      var last := es[|es| - 1];
      Index(es[..|es| - 1], key, value)[key(last) := value(last)]
  }

  /** The map's keys are exactly the keys of the entries. */
  lemma {:induction false} IndexKeys<E(!new), V(!new)>(es: seq<E>, key: E -> BookId, value: E -> V, id: BookId)
    ensures id in Index(es, key, value) <==> exists i :: 0 <= i < |es| && key(es[i]) == id
  {
    if es != [] {
      var front := es[..|es| - 1];
      IndexKeys(front, key, value, id);
      if id in Index(front, key, value) {
        var i :| 0 <= i < |front| && key(front[i]) == id;
        assert front[i] == es[i];
      }
      if id !in Index(es, key, value) {
        forall i | 0 <= i < |es| ensures key(es[i]) != id {
          if i < |front| {
            assert front[i] == es[i];
          }
        }
      }
    }
  }

  /** Each key maps to the value of its last entry. */
  lemma {:induction false} IndexLast<E(!new), V(!new)>(es: seq<E>, key: E -> BookId, value: E -> V, i: nat)
    requires i < |es| && forall j :: i < j < |es| ==> key(es[j]) != key(es[i])
    ensures key(es[i]) in Index(es, key, value) && Index(es, key, value)[key(es[i])] == value(es[i])
  {
    if i < |es| - 1 {
      var front := es[..|es| - 1];
      assert front[i] == es[i];
      assert forall j :: i < j < |front| ==> front[j] == es[j];
      IndexLast(front, key, value, i);
    }
  }

  /** The `forEach` loop that fills such a map. */
  method BuildIndex<E(!new), V(!new)>(es: seq<E>, key: E -> BookId, value: E -> V) returns (m: map<BookId, V>)
    ensures m == Index(es, key, value)
  {
    m := map[];
    for i := 0 to |es|
      invariant m == Index(es[..i], key, value)
    {
      assert es[..i + 1][..i] == es[..i];
      m := m[key(es[i]) := value(es[i])];
    }
    assert es[..|es|] == es;
  }

  function PagesKey(e: PagesEntry): BookId { e.bookId }
  function PagesValue(e: PagesEntry): Option<int> { e.pagesRead }
  function ReviewKey(e: ReviewEntry): BookId { e.bookId }
  function ReviewRating(e: ReviewEntry): Option<int> { e.rating }

  /** `.populate(shelf)`: the shelf's books in shelf order; ids whose book is
      gone from the catalog are dropped. */
  function Populate(catalog: seq<Book>, ids: seq<BookId>): (r: seq<Book>)
    ensures |r| <= |ids|
    ensures forall b :: b in r ==> b in catalog && b.id in ids
    ensures (forall i :: 0 <= i < |ids| ==> FindById(catalog, ids[i]).Some?) ==>
      |r| == |ids| && forall i :: 0 <= i < |ids| ==> Some(r[i]) == FindById(catalog, ids[i])
  {
    var r := Collect(ids, FindIn(catalog));
    CollectAllSome(ids, FindIn(catalog));
    assert forall b :: b in r ==> b in catalog && b.id in ids by {
      forall b | b in r ensures b in catalog && b.id in ids {
        CollectMembers(ids, FindIn(catalog), b);
      }
    }
    r
  }

  /** The lookup `populate` does for one id. */
  function FindIn(catalog: seq<Book>): BookId -> Option<Book> {
    (id: BookId) => FindById(catalog, id)
  }

  /** `pagesMap.get(id) || 0`. */
  function PagesShown(m: map<BookId, Option<int>>, id: BookId): int {
    if id in m && m[id].Some? && m[id].value != 0 then m[id].value else 0
  }

  /** A shown rating: `ratingMap.get(id) || ''`. */
  datatype RatingView = NoRating | Rated(value: int)

  function RatingShown(m: map<BookId, Option<int>>, id: BookId): (r: RatingView)
    ensures r.Rated? ==> r.value != 0
    ensures id in m && m[id].Some? && m[id].value != 0 ==> r == Rated(m[id].value)
    ensures id !in m || m[id].None? || m[id].value == 0 ==> r == NoRating
  {
    if id in m && m[id].Some? && m[id].value != 0 then Rated(m[id].value) else NoRating
  }

  /** One element of the `reading`, `completed` or `planToRead` response. */
  datatype ListEntry = ListEntry(book: Book, pagesRead: int, rating: RatingView)

  /** `getReading`, `getCompleted` and `getPlanned`: the populated shelf, in
      order, each book with the pages and rating of its last entries. */
  method ListView(catalog: seq<Book>, st: ReadingState, shelf: Status) returns (r: seq<ListEntry>)
    ensures var books := Populate(catalog, Shelf(st, shelf));
      && |r| == |books|
      && forall i :: 0 <= i < |r| ==> (r[i].book == books[i]
        && r[i].pagesRead == PagesShown(Index(st.pagesRead, PagesKey, PagesValue), books[i].id)
        && r[i].rating == RatingShown(Index(st.ratingsAndReviews, ReviewKey, ReviewRating), books[i].id))
  {
    var pagesMap := BuildIndex(st.pagesRead, PagesKey, PagesValue);
    var ratingMap := BuildIndex(st.ratingsAndReviews, ReviewKey, ReviewRating);
    var books := Populate(catalog, Shelf(st, shelf));
    r := seq(|books|, i requires 0 <= i < |books| =>
      ListEntry(books[i], PagesShown(pagesMap, books[i].id), RatingShown(ratingMap, books[i].id)));
  }

  /** The shown pages come from the book's last pages entry; a book without
      one shows 0. */
  lemma PagesShownIsLastEntry(es: seq<PagesEntry>, id: BookId)
    ensures (forall i :: 0 <= i < |es| ==> es[i].bookId != id) ==>
      PagesShown(Index(es, PagesKey, PagesValue), id) == 0
    ensures forall i :: (0 <= i < |es| && es[i].bookId == id &&
      (forall j :: i < j < |es| ==> es[j].bookId != id)) ==>
        PagesShown(Index(es, PagesKey, PagesValue), id) ==
          if es[i].pagesRead.Some? then es[i].pagesRead.value else 0
  {
    IndexKeys(es, PagesKey, PagesValue, id);
    forall i | 0 <= i < |es| && es[i].bookId == id && (forall j :: i < j < |es| ==> es[j].bookId != id)
      ensures Index(es, PagesKey, PagesValue)[id] == es[i].pagesRead
    {
      IndexLast(es, PagesKey, PagesValue, i);
    }
  }

  /** The shown rating comes from the book's last review entry when that has a
      non-zero rating; a book without an entry, or whose last entry has no
      rating or a rating of 0, shows `''`. */
  lemma RatingShownIsLastEntry(es: seq<ReviewEntry>, id: BookId)
    ensures (forall i :: 0 <= i < |es| ==> es[i].bookId != id) ==>
      RatingShown(Index(es, ReviewKey, ReviewRating), id) == NoRating
    ensures forall i :: (0 <= i < |es| && es[i].bookId == id &&
      (forall j :: i < j < |es| ==> es[j].bookId != id)) ==>
        RatingShown(Index(es, ReviewKey, ReviewRating), id) ==
          if es[i].rating.Some? && es[i].rating.value != 0 then Rated(es[i].rating.value) else NoRating
  {
    IndexKeys(es, ReviewKey, ReviewRating, id);
    forall i | 0 <= i < |es| && es[i].bookId == id && (forall j :: i < j < |es| ==> es[j].bookId != id)
      ensures Index(es, ReviewKey, ReviewRating)[id] == es[i].rating
    {
      IndexLast(es, ReviewKey, ReviewRating, i);
    }
  }

  // ------------------------------------------------------------ own reviews

  /** One element of the `getUserReviews` response. */
  datatype ReviewView = ReviewView(entry: ReviewEntry, book: Book, pagesRead: int)

  /** `v` is what `getUserReviews` shows for the entry `e`: the entry, its
      populated book, and the pages the map shows for that book. */
  predicate ViewOf(catalog: seq<Book>, pagesMap: map<BookId, Option<int>>, e: ReviewEntry, v: ReviewView) {
    v.entry == e && Some(v.book) == FindById(catalog, e.bookId) && v.pagesRead == PagesShown(pagesMap, e.bookId)
  }

  /** `getUserReviews`: the entries with review text, each with its populated
      book and shown pages. An entry kept whose book is gone from the catalog
      populates to null and reading its `_id` throws: a server error. */
  method UserReviews(catalog: seq<Book>, st: ReadingState) returns (r: Reply<seq<ReviewView>>)
    ensures r.Ok? || r.ServerError?
    ensures var kept := Filter(st.ratingsAndReviews, HasReviewText);
      r.ServerError? <==> exists k :: 0 <= k < |kept| && FindById(catalog, kept[k].bookId).None?
    ensures var kept := Filter(st.ratingsAndReviews, HasReviewText);
      r.Ok? ==> |r.value| == |kept| && forall i :: 0 <= i < |kept| ==>
        ViewOf(catalog, Index(st.pagesRead, PagesKey, PagesValue), kept[i], r.value[i])
  {
    var pagesMap := BuildIndex(st.pagesRead, PagesKey, PagesValue);
    var kept := Filter(st.ratingsAndReviews, HasReviewText);
    var out: seq<ReviewView> := [];
    for i := 0 to |kept|
      invariant |out| == i
      invariant forall j :: 0 <= j < i ==> ViewOf(catalog, pagesMap, kept[j], out[j])
    {
      var book := FindById(catalog, kept[i].bookId);
      if book.None? {
        assert exists k :: 0 <= k < |kept| && FindById(catalog, kept[k].bookId).None?;
        assert kept == Filter(st.ratingsAndReviews, HasReviewText);
        return ServerError;
      }
      out := out + [ReviewView(kept[i], book.value, PagesShown(pagesMap, kept[i].bookId))];
    }
    r := Ok(out);
  }


  // ------------------------------------------------------------ the stored record

  /** A user document, whose five collections the handlers overwrite and push
      into before saving. */
  class User {
    var planToRead: seq<BookId>
    var reading: seq<BookId>
    var completed: seq<BookId>
    var ratingsAndReviews: seq<ReviewEntry>
    var pagesRead: seq<PagesEntry>

    function State(): ReadingState
      reads this
    {
      ReadingState(planToRead, reading, completed, ratingsAndReviews, pagesRead)
    }

    constructor (st: ReadingState)
      ensures State() == st
    {
      planToRead := st.planToRead;
      reading := st.reading;
      completed := st.completed;
      ratingsAndReviews := st.ratingsAndReviews;
      pagesRead := st.pagesRead;
    }

    /** `addBookToUser`. An invalid status or unknown isbn is refused before
        anything changes. When the new rating breaks the schema's 0..5 bound,
        `save` fails: the reply is a server error and the stored record is
        unchanged. `AddPreservesConsistent` shows that the new record is
        consistent when the old one was. */
    method AddBook(catalog: seq<Book>, isbn: string, status: Option<string>,
                   pages: Option<int>, rating: Option<int>, review: Option<string>)
      returns (r: Reply<()>)
      modifies this
      ensures ParseStatus(status).None? ==> r == BadRequest && State() == old(State())
      ensures ParseStatus(status).Some? && FindByIsbn(catalog, isbn).None? ==>
        r == NotFound("Book not found") && State() == old(State())
      ensures ParseStatus(status).Some? && FindByIsbn(catalog, isbn).Some? ==>
        var next := AfterAdd(old(State()), ParseStatus(status).value, FindByIsbn(catalog, isbn).value.id,
                             pages, rating, review);
        if RatingsInRange(next.ratingsAndReviews) then r == Ok(()) && State() == next
        else r == ServerError && State() == old(State())
    {
      var s := ParseStatus(status);
      if s.None? {
        return BadRequest;
      }
      var book := FindByIsbn(catalog, isbn);
      if book.None? {
        return NotFound("Book not found");
      }
      var id := book.value.id;
      ghost var before := State();
      ghost var next := AfterAdd(before, s.value, id, pages, rating, review);
      var plan := Filter(planToRead, IsOther(id)) + (if s.value == PlanToRead then [id] else []);
      var now := Filter(reading, IsOther(id)) + (if s.value == Reading then [id] else []);
      var done := Filter(completed, IsOther(id)) + (if s.value == Completed then [id] else []);
      var reviews := Filter(ratingsAndReviews, IsOtherReview(id)) + [ReviewEntry(id, rating, review)];
      var pagesEntries := Filter(pagesRead, IsOtherPages(id)) + [PagesEntry(id, pages)];
      assert ReadingState(plan, now, done, reviews, pagesEntries) == next;
      if !RatingsInRange(reviews) {
        return ServerError;
      }
      planToRead, reading, completed, ratingsAndReviews, pagesRead := plan, now, done, reviews, pagesEntries;
      assert State() == next;
      r := Ok(());
    }

    /** `deleteBookFromUser`: an unknown isbn is not found; otherwise every
        entry for the book goes from all five collections. */
    method DeleteBook(catalog: seq<Book>, isbn: string) returns (r: Reply<()>)
      modifies this
      ensures FindByIsbn(catalog, isbn).None? ==> r == NotFound("Book not found") && State() == old(State())
      ensures FindByIsbn(catalog, isbn).Some? ==>
        r == Ok(()) && State() == AfterDelete(old(State()), FindByIsbn(catalog, isbn).value.id)
      ensures Consistent(old(State())) ==> Consistent(State())
    {
      var book := FindByIsbn(catalog, isbn);
      if book.None? {
        return NotFound("Book not found");
      }
      var id := book.value.id;
      ghost var before := State();
      planToRead := Filter(planToRead, IsOther(id));
      reading := Filter(reading, IsOther(id));
      completed := Filter(completed, IsOther(id));
      ratingsAndReviews := Filter(ratingsAndReviews, IsOtherReview(id));
      pagesRead := Filter(pagesRead, IsOtherPages(id));
      assert State() == AfterDelete(before, id);
      if Consistent(before) {
        DeletePreservesConsistent(before, id);
      }
      r := Ok(());
    }
  }
}
