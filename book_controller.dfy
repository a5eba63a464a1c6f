/** `src/controllers/bookController.js`: the enrichment of a stored book from
    the Google Books answer (`getBook`), and the catalog queries of
    `getByAuthor`, `getReviews`, `getPopular`, the no-term branch of `search`
    and `getGenres`. */
module BookController {
  import opened Wrappers
  import opened Seqs
  import opened Text
  import opened Catalog
  import opened Users
  import opened GoogleBooks

  // ------------------------------------------------------------ getBook

  /** `provided || stored` for optional strings. */
  function OrString(provided: Option<string>, stored: Option<string>): Option<string> {
    if Truthy(provided) then provided else stored
  }

  /** `(stored === 0) ? (provided || stored) : stored` for the average rating:
      a stored rating other than 0 is kept, and a change only ever brings in
      the provider's non-zero rating. */
  function MergedRating(stored: real, provided: Option<real>): (r: real)
    ensures stored != 0.0 ==> r == stored
    ensures r != stored ==> provided == Some(r) && r != 0.0
    ensures stored == 0.0 && provided.Some? && provided.value != 0.0 ==> r == provided.value
  {
    if stored == 0.0 && provided.Some? && provided.value != 0.0 then provided.value else stored
  }

  /** The same rule for the number of ratings. */
  function MergedCount(stored: int, provided: Option<int>): (r: int)
    ensures stored != 0 ==> r == stored
    ensures r != stored ==> provided == Some(r) && r != 0
    ensures stored == 0 && provided.Some? && provided.value != 0 ==> r == provided.value
  {
    if stored == 0 && provided.Some? && provided.value != 0 then provided.value else stored
  }

  /** The retail price: replaced by the sale info's price only when there is one. */
  function MergedPrice(stored: Option<Price>, sale: Option<SaleInfo>): (r: Option<Price>)
    ensures sale.None? || sale.value.retailPrice.None? ==> r == stored
    ensures sale.Some? && sale.value.retailPrice.Some? ==> r == sale.value.retailPrice
  {
    if sale.Some? && sale.value.retailPrice.Some?
    then Some(Price(sale.value.retailPrice.value.amount, sale.value.retailPrice.value.currencyCode))
    else stored
  }

  /** The merge rule of `getBook`: the volume's id becomes `googleBooksId`; a
      descriptive field takes the provider's value when that is truthy (a
      present array or object always is, a number unless it is 0); the rating
      and its count follow `MergedRating` and `MergedCount`, the retail price
      `MergedPrice`. The keys are left alone. */
  function Enrich(b: Book, v: Volume): (r: Book)
    ensures r.id == b.id && r.isbn == b.isbn
    ensures r.googleBooksId == v.id
  {
    var info := v.volumeInfo;
    b.(
      googleBooksId := v.id,
      title := if Truthy(info.title) then info.title.value else b.title,
      authors := if info.authors.Some? then info.authors.value else b.authors,
      publisher := OrString(info.publisher, b.publisher),
      publishedDate := OrString(info.publishedDate, b.publishedDate),
      description := OrString(info.description, b.description),
      pageCount := if info.pageCount.Some? && info.pageCount.value != 0 then info.pageCount else b.pageCount,
      printType := OrString(info.printType, b.printType),
      imageLinks := if info.imageLinks.Some? then info.imageLinks else b.imageLinks,
      language := OrString(info.language, b.language),
      genre := if info.categories.Some? then info.categories.value else b.genre,
      avgRating := MergedRating(b.avgRating, info.averageRating),
      totalRatings := MergedCount(b.totalRatings, info.ratingsCount),
      retailPrice := MergedPrice(b.retailPrice, v.saleInfo))
  }

  /** The descriptive fields under the merge rule: the provider's value when
      it is truthy, the stored value otherwise. */
  lemma EnrichDescriptiveFields(b: Book, v: Volume)
    ensures Truthy(v.volumeInfo.title) ==> Some(Enrich(b, v).title) == v.volumeInfo.title
    ensures !Truthy(v.volumeInfo.title) ==> Enrich(b, v).title == b.title
    ensures v.volumeInfo.authors.Some? ==> Enrich(b, v).authors == v.volumeInfo.authors.value
    ensures v.volumeInfo.authors.None? ==> Enrich(b, v).authors == b.authors
    ensures v.volumeInfo.categories.Some? ==> Enrich(b, v).genre == v.volumeInfo.categories.value
    ensures v.volumeInfo.categories.None? ==> Enrich(b, v).genre == b.genre
    ensures Truthy(v.volumeInfo.description) ==> Enrich(b, v).description == v.volumeInfo.description
    ensures !Truthy(v.volumeInfo.description) ==> Enrich(b, v).description == b.description
    ensures Truthy(v.volumeInfo.publisher) ==> Enrich(b, v).publisher == v.volumeInfo.publisher
    ensures !Truthy(v.volumeInfo.publisher) ==> Enrich(b, v).publisher == b.publisher
    ensures Truthy(v.volumeInfo.publishedDate) ==> Enrich(b, v).publishedDate == v.volumeInfo.publishedDate
    ensures !Truthy(v.volumeInfo.publishedDate) ==> Enrich(b, v).publishedDate == b.publishedDate
    ensures Truthy(v.volumeInfo.printType) ==> Enrich(b, v).printType == v.volumeInfo.printType
    ensures !Truthy(v.volumeInfo.printType) ==> Enrich(b, v).printType == b.printType
    ensures Truthy(v.volumeInfo.language) ==> Enrich(b, v).language == v.volumeInfo.language
    ensures !Truthy(v.volumeInfo.language) ==> Enrich(b, v).language == b.language
    ensures v.volumeInfo.imageLinks.Some? ==> Enrich(b, v).imageLinks == v.volumeInfo.imageLinks
    ensures v.volumeInfo.imageLinks.None? ==> Enrich(b, v).imageLinks == b.imageLinks
    ensures v.volumeInfo.pageCount.Some? && v.volumeInfo.pageCount.value != 0 ==>
      Enrich(b, v).pageCount == v.volumeInfo.pageCount
    ensures v.volumeInfo.pageCount.None? || v.volumeInfo.pageCount.value == 0 ==>
      Enrich(b, v).pageCount == b.pageCount
  {
  }

  /** Merging the same volume twice gives what merging it once gave. */
  lemma EnrichIdempotent(b: Book, v: Volume)
    ensures Enrich(Enrich(b, v), v) == Enrich(b, v)
  {
  }

  /** Position of the book `findOne({ isbn })` returns, or `|catalog|`. */
  function IsbnIndex(catalog: seq<Book>, isbn: string): (i: nat)
    ensures i <= |catalog|
    ensures i == |catalog| <==> FindByIsbn(catalog, isbn).None?
    ensures i < |catalog| ==> FindByIsbn(catalog, isbn) == Some(catalog[i])
  {
    if catalog == [] || catalog[0].isbn == isbn then 0
    else IsbnIndex(catalog[1..], isbn) + 1
  }

  /** An enriched book replaced in a catalog with unique keys keeps the keys
      unique, and is what a later lookup of its isbn finds; when the volume had
      an id, that later lookup sees `googleBooksId` set and skips the provider. */
  lemma {:induction false} EnrichedBookIsFoundAgain(catalog: seq<Book>, i: nat, v: Volume)
    requires UniqueKeys(catalog) && i < |catalog|
    ensures UniqueKeys(catalog[i := Enrich(catalog[i], v)])
    ensures FindByIsbn(catalog[i := Enrich(catalog[i], v)], catalog[i].isbn) == Some(Enrich(catalog[i], v))
    ensures Truthy(v.id) ==> Truthy(Enrich(catalog[i], v).googleBooksId)
  {
    var next := catalog[i := Enrich(catalog[i], v)];
    assert UniqueKeys(next) by {
      forall j, k | 0 <= j < k < |next|
        ensures next[j].id != next[k].id && next[j].isbn != next[k].isbn
      {
        assert next[j].id == catalog[j].id && next[j].isbn == catalog[j].isbn;
        assert next[k].id == catalog[k].id && next[k].isbn == catalog[k].isbn;
      }
    }
    assert next[i] in next;
    FindUnique(next, next[i], ByIsbn(next[i].isbn));
  }

  /** The field assignments of `getBook`: the volume's fields written one by
      one onto the stored book. */
  method MergeVolume(stored: Book, volume: Volume) returns (book: Book)
    ensures book == Enrich(stored, volume)
  {
    book := stored;
    var info := volume.volumeInfo;
    book := book.(googleBooksId := volume.id);
    book := book.(title := if Truthy(info.title) then info.title.value else book.title);
    book := book.(authors := if info.authors.Some? then info.authors.value else book.authors);
    book := book.(publisher := OrString(info.publisher, book.publisher));
    book := book.(publishedDate := OrString(info.publishedDate, book.publishedDate));
    book := book.(description := OrString(info.description, book.description));
    book := book.(pageCount := if info.pageCount.Some? && info.pageCount.value != 0 then info.pageCount else book.pageCount);
    book := book.(printType := OrString(info.printType, book.printType));
    book := book.(imageLinks := if info.imageLinks.Some? then info.imageLinks else book.imageLinks);
    book := book.(language := OrString(info.language, book.language));
    book := book.(genre := if info.categories.Some? then info.categories.value else book.genre);
    book := book.(avgRating := MergedRating(book.avgRating, info.averageRating));
    book := book.(totalRatings := MergedCount(book.totalRatings, info.ratingsCount));
    if volume.saleInfo.Some? && volume.saleInfo.value.retailPrice.Some? {
      var price := volume.saleInfo.value.retailPrice.value;
      book := book.(retailPrice := Some(Price(price.amount, price.currencyCode)));
    }
  }

  /** The book collection, which `getBook` updates in place. */
  class BookCollection {
    var books: seq<Book>

    constructor (catalog: seq<Book>)
      ensures books == catalog
    {
      books := catalog;
    }

    /** `getBook(isbn)`, given `provided`, what `getGoogleAPI(isbn)` would
        answer (null, or a list of volumes). A missing book, or a missing or
        empty answer for a book that still needs enrichment, is not found and
        changes nothing; a book with a `googleBooksId` is returned as stored;
        otherwise the first volume is merged into the stored book in place. */
    method GetBook(isbn: string, provided: Option<seq<Volume>>) returns (r: Reply<Book>)
      modifies this
      ensures FindByIsbn(old(books), isbn).None? ==>
        r == NotFound("Book not found") && books == old(books)
      ensures FindByIsbn(old(books), isbn).Some? && Truthy(FindByIsbn(old(books), isbn).value.googleBooksId) ==>
        r == Ok(FindByIsbn(old(books), isbn).value) && books == old(books)
      ensures (FindByIsbn(old(books), isbn).Some? && !Truthy(FindByIsbn(old(books), isbn).value.googleBooksId) &&
        (provided.None? || provided.value == [])) ==>
        r == NotFound("No data from Google API") && books == old(books)
      ensures (FindByIsbn(old(books), isbn).Some? && !Truthy(FindByIsbn(old(books), isbn).value.googleBooksId) &&
        provided.Some? && provided.value != []) ==>
        var i := IsbnIndex(old(books), isbn);
        && r == Ok(Enrich(old(books)[i], provided.value[0]))
        && books == old(books)[i := r.value]
    {
      var i := IsbnIndex(books, isbn);
      if i == |books| {
        return NotFound("Book not found");
      }
      var book := books[i];
      if Truthy(book.googleBooksId) {
        return Ok(book);
      }
      if provided.None? || |provided.value| == 0 {
        return NotFound("No data from Google API");
      }
      var volume := provided.value[0];
      book := MergeVolume(book, volume);
      books := books[i := book];
      r := Ok(book);
    }
  }

  // ------------------------------------------------------------ getByAuthor

  /** The answer of `getByAuthor`: the seed's authors and their other books. */
  datatype AuthorBooks = AuthorBooks(author: seq<string>, books: seq<Book>)

  const MaxByAuthor: nat := 20

  /** `getByAuthor(isbn)`: not found when the book is missing or has no
      authors; otherwise the twenty best-rated books sharing an author with
      it, other than the book itself. */
  function GetByAuthor(catalog: seq<Book>, isbn: string): (r: Reply<AuthorBooks>)
    ensures r.Ok? || r.NotFound?
    ensures r.NotFound? <==> FindByIsbn(catalog, isbn).None? || FindByIsbn(catalog, isbn).value.authors == []
    ensures r.NotFound? ==> r.message == "No authors found for this book"
    ensures r.Ok? ==>
      var seed := FindByIsbn(catalog, isbn).value;
      && r.value.author == seed.authors
      && IsTopK(r.value.books, AuthorPool(catalog, seed.authors, isbn), MaxByAuthor)
  {
    match FindByIsbn(catalog, isbn)
    case None => NotFound("No authors found for this book")
    case Some(seed) =>
      if seed.authors == [] then NotFound("No authors found for this book")
      else
        TopByRatingIsTopK(AuthorPool(catalog, seed.authors, isbn), MaxByAuthor);
        Ok(AuthorBooks(seed.authors, TopByRating(AuthorPool(catalog, seed.authors, isbn), MaxByAuthor)))
  }

  /** Every book `getByAuthor` returns is another book by one of the authors. */
  lemma {:induction false} ByAuthorMembers(catalog: seq<Book>, isbn: string, b: Book)
    requires GetByAuthor(catalog, isbn).Ok? && b in GetByAuthor(catalog, isbn).value.books
    ensures b in catalog && b.isbn != isbn
    ensures SharesAuthor(b, FindByIsbn(catalog, isbn).value.authors)
    ensures |GetByAuthor(catalog, isbn).value.books| <= MaxByAuthor
  {
    var seed := FindByIsbn(catalog, isbn).value;
    TopKMembers(GetByAuthor(catalog, isbn).value.books, AuthorPool(catalog, seed.authors, isbn), MaxByAuthor, b);
  }

  // ------------------------------------------------------------ getReviews

  /** One review as `getReviews` shows it. */
  datatype PublicReview = PublicReview(name: string, profileImg: string, rating: int, review: string)

  /** An entry `getReviews` shows: about the book, rated, with a review that
      is not blank. */
  predicate IsPublicReviewOf(e: ReviewEntry, id: BookId) {
    e.bookId == id && e.rating.Some? && HasText(e.review)
  }

  function PublicReviewOf(u: UserRecord, e: ReviewEntry): PublicReview
    requires e.rating.Some? && e.review.Some?
  {
    PublicReview(u.name, u.profileImg, e.rating.value, e.review.value)
  }

  /** The reviews of the book among the entries `es` of user `u`, in entry order. */
  function ReviewsIn(u: UserRecord, es: seq<ReviewEntry>, id: BookId): seq<PublicReview> {
    if es == [] then []
    else
      var e := es[|es| - 1];
      ReviewsIn(u, es[..|es| - 1], id) + (if IsPublicReviewOf(e, id) then [PublicReviewOf(u, e)] else [])
  }

  /** The reviews of the book across `users`, user by user. */
  function MatchingReviews(users: seq<UserRecord>, id: BookId): seq<PublicReview> {
    if users == [] then []
    else
      var u := users[|users| - 1];
      MatchingReviews(users[..|users| - 1], id) + ReviewsIn(u, u.state.ratingsAndReviews, id)
  }

  lemma {:induction false} ReviewsInMembers(u: UserRecord, es: seq<ReviewEntry>, id: BookId, x: PublicReview)
    ensures x in ReviewsIn(u, es, id) <==>
      exists j :: 0 <= j < |es| && IsPublicReviewOf(es[j], id) && x == PublicReviewOf(u, es[j])
  {
    if es != [] {
      var front := es[..|es| - 1];
      ReviewsInMembers(u, front, id, x);
      assert forall j :: 0 <= j < |front| ==> front[j] == es[j];
    }
  }

  /** `getReviews` shows exactly the rated, non-blank reviews of the book,
      each with its author's name and picture. */
  lemma {:induction false} MatchingReviewsMembers(users: seq<UserRecord>, id: BookId, x: PublicReview)
    ensures x in MatchingReviews(users, id) <==>
      exists i, j :: 0 <= i < |users| && 0 <= j < |users[i].state.ratingsAndReviews| &&
        IsPublicReviewOf(users[i].state.ratingsAndReviews[j], id) &&
        x == PublicReviewOf(users[i], users[i].state.ratingsAndReviews[j])
  {
    if users != [] {
      var front := users[..|users| - 1];
      var u := users[|users| - 1];
      MatchingReviewsMembers(front, id, x);
      ReviewsInMembers(u, u.state.ratingsAndReviews, id, x);
      assert forall i :: 0 <= i < |front| ==> front[i] == users[i];
    }
  }

  /** The nested `forEach` of `getReviews`, pushing each matching entry. */
  method CollectReviews(users: seq<UserRecord>, id: BookId) returns (matching: seq<PublicReview>)
    ensures matching == MatchingReviews(users, id)
  {
    matching := [];
    for i := 0 to |users|
      invariant matching == MatchingReviews(users[..i], id)
    {
      var u := users[i];
      var es := u.state.ratingsAndReviews;
      for j := 0 to |es|
        invariant matching == MatchingReviews(users[..i], id) + ReviewsIn(u, es[..j], id)
      {
        assert es[..j + 1][..j] == es[..j];
        if IsPublicReviewOf(es[j], id) {
          matching := matching + [PublicReviewOf(u, es[j])];
        }
      }
      assert es[..|es|] == es;
      assert users[..i + 1][..i] == users[..i];
    }
    assert users[..|users|] == users;
  }

  /** The body of a `getReviews` answer. */
  datatype ReviewPage = ReviewPage(totalReviews: nat, currentPage: nat, totalPages: nat, reviews: seq<PublicReview>)

  const ReviewsPerPage: nat := 5

  /** `getReviews(isbn, page)`: not found when the book is missing; otherwise
      the page's five reviews out of all matching ones. */
  method GetReviews(catalog: seq<Book>, users: seq<UserRecord>, isbn: string, pageParam: Option<nat>)
    returns (r: Reply<ReviewPage>)
    ensures r.Ok? || r == NotFound("Book not found")
    ensures r.Ok? <==> FindByIsbn(catalog, isbn).Some?
    ensures r.Ok? ==>
      var matching := MatchingReviews(users, FindByIsbn(catalog, isbn).value.id);
      var page := PageNumber(pageParam);
      && r.value.totalReviews == |matching|
      && r.value.currentPage == page
      && r.value.totalPages == CeilDiv(|matching|, ReviewsPerPage)
      && r.value.reviews == PageOf(matching, page, ReviewsPerPage)
  {
    var page := PageNumber(pageParam);
    var skip := (page - 1) * ReviewsPerPage;
    var book := FindByIsbn(catalog, isbn);
    if book.None? {
      return NotFound("Book not found");
    }
    var matching := CollectReviews(users, book.value.id);
    var total := |matching|;
    r := Ok(ReviewPage(total, page, CeilDiv(total, ReviewsPerPage), Slice(matching, skip, ReviewsPerPage)));
  }

  /** A page of reviews holds at most five, and is non-empty exactly when its
      number is at most `totalPages`. */
  lemma ReviewPageShape(matching: seq<PublicReview>, page: nat)
    requires page >= 1
    ensures |PageOf(matching, page, ReviewsPerPage)| <= ReviewsPerPage
    ensures |PageOf(matching, page, ReviewsPerPage)| > 0 <==> page <= CeilDiv(|matching|, ReviewsPerPage)
  {
    PageNonEmptyIffInRange(matching, page, ReviewsPerPage);
  }

  // ------------------------------------------------------------ getPopular and the search fallback

  /** `{ totalRatings: { $gte: 20000 }, avgRating: { $gte: 4 } }`. */
  predicate IsPopular(b: Book) {
    b.totalRatings >= 20000 && b.avgRating >= 4.0
  }

  /** A page of the popular books, in rating order. */
  function PopularPage(catalog: seq<Book>, page: nat, limit: nat): seq<Book>
    requires page >= 1
  {
    PageOf(SortByRating(Filter(catalog, IsPopular)), page, limit)
  }

  /** The body of a `getPopular` answer. */
  datatype PopularAnswer = PopularAnswer(totalBooks: nat, currentPage: nat, totalPages: nat, books: seq<Book>)

  const PopularPerPage: nat := 10

  /** `getPopular(page)`. */
  function GetPopular(catalog: seq<Book>, pageParam: Option<nat>): (r: PopularAnswer)
    ensures r.totalBooks == |Filter(catalog, IsPopular)|
    ensures r.currentPage == PageNumber(pageParam)
    ensures r.totalPages == CeilDiv(r.totalBooks, PopularPerPage)
    ensures r.books == PopularPage(catalog, r.currentPage, PopularPerPage)
  {
    var page := PageNumber(pageParam);
    var total := |Filter(catalog, IsPopular)|;
    PopularAnswer(total, page, CeilDiv(total, PopularPerPage), PopularPage(catalog, page, PopularPerPage))
  }

  /** A slice of a rating-sorted sequence is rating-sorted and holds only its elements. */
  lemma SortedSlice(s: seq<Book>, skip: nat, limit: nat)
    requires SortedByRating(s)
    ensures SortedByRating(Slice(s, skip, limit))
    ensures forall b :: b in Slice(s, skip, limit) ==> b in s
  {
    var p := Slice(s, skip, limit);
    forall j, k | 0 <= j < k < |p| ensures RanksAtLeast(p[j], p[k]) {
      assert p[j] == s[skip + j] && p[k] == s[skip + k];
    }
  }

  /** A page of popular books holds only popular catalog books, in rating order. */
  lemma {:induction false} PopularPageMembers(catalog: seq<Book>, page: nat, limit: nat)
    requires page >= 1
    ensures forall b :: b in PopularPage(catalog, page, limit) ==> b in catalog && IsPopular(b)
    ensures SortedByRating(PopularPage(catalog, page, limit))
  {
    var pool := Filter(catalog, IsPopular);
    var sorted := SortByRating(pool);
    SortedSlice(sorted, (page - 1) * limit, limit);
    forall b | b in sorted ensures b in pool {
      assert b in multiset(sorted);
    }
  }

  /** A page of popular books holds at most `limit` of them, and is non-empty
      exactly when its number is at most the page count. */
  lemma {:induction false} PopularPageCount(catalog: seq<Book>, page: nat, limit: nat)
    requires page >= 1 && limit > 0
    ensures |PopularPage(catalog, page, limit)| <= limit
    ensures |PopularPage(catalog, page, limit)| > 0 <==> page <= CeilDiv(|Filter(catalog, IsPopular)|, limit)
  {
    PageNonEmptyIffInRange(SortByRating(Filter(catalog, IsPopular)), page, limit);
  }

  /** The first page is the best-rated popular books, whatever the order of ties. */
  lemma {:induction false} PopularFirstPageIsTop(catalog: seq<Book>, limit: nat)
    ensures IsTopK(PopularPage(catalog, 1, limit), Filter(catalog, IsPopular), limit)
  {
    var pool := Filter(catalog, IsPopular);
    assert PopularPage(catalog, 1, limit) == TopByRating(pool, limit);
    TopByRatingIsTopK(pool, limit);
  }

  /** `parseInt(req.query.limit) || 21`. */
  function LimitNumber(param: Option<nat>): (limit: nat)
    ensures limit >= 1
    ensures param.Some? && param.value != 0 ==> limit == param.value
    ensures param.None? || param.value == 0 ==> limit == 21
  {
    if param.None? || param.value == 0 then 21 else param.value
  }

  /** The body of the fallback answer of `search`. */
  datatype FallbackAnswer = FallbackAnswer(currentPage: nat, totalPages: nat, books: seq<Book>)

  /** `search` without a search term (missing, or blank after `trim`) and
      without a genre: the popular books, `limit` per page. Requests with a
      term or a genre take the text-search branch, which is not part of this
      model, and give `None` here. */
  function SearchFallback(catalog: seq<Book>, searchTerm: Option<string>, genre: Option<string>,
                          pageParam: Option<nat>, limitParam: Option<nat>): (r: Option<FallbackAnswer>)
    ensures r.Some? <==> !HasText(searchTerm) && !Truthy(genre)
    ensures r.Some? ==>
      && r.value.currentPage == PageNumber(pageParam)
      && r.value.totalPages == CeilDiv(|Filter(catalog, IsPopular)|, LimitNumber(limitParam))
      && r.value.books == PopularPage(catalog, r.value.currentPage, LimitNumber(limitParam))
  {
    if HasText(searchTerm) || Truthy(genre) then None
    else
      var page := PageNumber(pageParam);
      var limit := LimitNumber(limitParam);
      var total := |Filter(catalog, IsPopular)|;
      Some(FallbackAnswer(page, CeilDiv(total, limit), PopularPage(catalog, page, limit)))
  }

  /** With a limit of 10 the fallback shows the same page as `getPopular`. */
  lemma FallbackAgreesWithPopular(catalog: seq<Book>, pageParam: Option<nat>)
    ensures SearchFallback(catalog, None, None, pageParam, Some(PopularPerPage)).Some?
    ensures SearchFallback(catalog, None, None, pageParam, Some(PopularPerPage)).value.books ==
      GetPopular(catalog, pageParam).books
    ensures SearchFallback(catalog, None, None, pageParam, Some(PopularPerPage)).value.totalPages ==
      GetPopular(catalog, pageParam).totalPages
  {
  }

  // ------------------------------------------------------------ getGenres

  /** `$unwind: "$genre"`: every genre entry of every book, book by book. */
  function AllGenres(catalog: seq<Book>): seq<string> {
    if catalog == [] then [] else AllGenres(catalog[..|catalog| - 1]) + catalog[|catalog| - 1].genre
  }

  /** A genre must be named on more than this many book entries to be listed. */
  const GenreThreshold: nat := 100

  /** `$match` of non-empty genres, then `$match: { count: { $gt: 100 } }`. */
  function IsFrequentIn(all: seq<string>): string -> bool {
    (g: string) => g != "" && multiset(all)[g] > GenreThreshold
  }

  ghost predicate SortedStrings(s: seq<string>) {
    forall i, j :: 0 <= i < j < |s| ==> StrLeq(s[i], s[j])
  }

  /** Inserts `x` into an ascending sequence of strings. */
  function InsertString(x: string, s: seq<string>): (r: seq<string>)
    requires SortedStrings(s)
    ensures |r| == |s| + 1
    ensures SortedStrings(r)
    ensures multiset(r) == multiset(s) + multiset{x}
  {
    if s == [] then [x]
    else if StrLeq(x, s[0]) then
      LeqHeadLeqAll(x, s);
      [x] + s
    else
      StrLeqTotal(x, s[0]);
      var rest := InsertString(x, s[1..]);
      assert s == [s[0]] + s[1..];
      HeadLeqInserted(x, s, rest);
      [s[0]] + rest
  }

  lemma LeqHeadLeqAll(x: string, s: seq<string>)
    requires s != [] && SortedStrings(s) && StrLeq(x, s[0])
    ensures forall j :: 0 <= j < |s| ==> StrLeq(x, s[j])
  {
    forall j | 0 <= j < |s| ensures StrLeq(x, s[j]) {
      if j > 0 {
        StrLeqTransitive(x, s[0], s[j]);
      }
    }
  }

  lemma HeadLeqInserted(x: string, s: seq<string>, rest: seq<string>)
    requires s != [] && SortedStrings(s) && StrLeq(s[0], x)
    requires multiset(rest) == multiset(s[1..]) + multiset{x}
    ensures forall j :: 0 <= j < |rest| ==> StrLeq(s[0], rest[j])
  {
    forall j | 0 <= j < |rest| ensures StrLeq(s[0], rest[j]) {
      assert rest[j] in multiset(rest);
      if rest[j] != x {
        assert rest[j] in multiset(s[1..]);
        var i :| 0 <= i < |s[1..]| && s[1..][i] == rest[j];
        assert s[i + 1] == rest[j];
      }
    }
  }

  /** `$sort: { _id: 1 }` on strings. */
  function SortStrings(s: seq<string>): (r: seq<string>)
    ensures |r| == |s|
    ensures SortedStrings(r)
    ensures multiset(r) == multiset(s)
  {
    if s == [] then []
    else
      assert s == [s[0]] + s[1..];
      InsertString(s[0], SortStrings(s[1..]))
  }

  /** `getGenres`: the frequent genres, each once (`$group`), in ascending order. */
  function Genres(catalog: seq<Book>): seq<string> {
    var all := AllGenres(catalog);
    SortStrings(Dedup(Filter(all, IsFrequentIn(all))))
  }

  /** `getGenres` lists exactly the non-empty genres named on more than 100
      book entries, each once, in strictly ascending order. */
  lemma {:induction false} GenresShape(catalog: seq<Book>)
    ensures forall g :: g in Genres(catalog) <==> g != "" && multiset(AllGenres(catalog))[g] > GenreThreshold
    ensures forall i, j :: 0 <= i < j < |Genres(catalog)| ==>
      StrLeq(Genres(catalog)[i], Genres(catalog)[j]) && Genres(catalog)[i] != Genres(catalog)[j]
  {
    var all := AllGenres(catalog);
    var d := Dedup(Filter(all, IsFrequentIn(all)));
    var r := Genres(catalog);
    forall g ensures g in r <==> g != "" && multiset(all)[g] > GenreThreshold {
      assert g in r <==> g in multiset(r);
      assert g in d <==> g in multiset(d);
    }
    assert NoDup(r) by {
      forall x ensures multiset(r)[x] <= 1 {
        assert multiset(r)[x] == multiset(d)[x];
      }
    }
    forall i, j | 0 <= i < j < |r| ensures r[i] != r[j] {
      NoDupDistinct(r, i, j);
    }
  }

  /** The count `$group` computes for a genre is the number of its entries
      across the books. */
  lemma {:induction false} GenreCountAddsUp(catalog: seq<Book>, b: Book, g: string)
    ensures multiset(AllGenres(catalog + [b]))[g] == multiset(AllGenres(catalog))[g] + multiset(b.genre)[g]
  {
    assert (catalog + [b])[..|catalog + [b]| - 1] == catalog;
  }
}
