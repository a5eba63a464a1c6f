/** The book catalog of `src/models/bookModel.js` held in memory, with the
    queries the controllers run against it: lookup by key, and MongoDB's
    `.sort({ avgRating: -1, totalRatings: -1 }).limit(k)`. */
module Catalog {
  import opened Wrappers
  import opened Seqs

  /** A book's `_id`, compared as a string. */
  type BookId = string

  datatype ImageLinks = ImageLinks(
    smallThumbnail: Option<string>, thumbnail: Option<string>, small: Option<string>,
    medium: Option<string>, large: Option<string>, extraLarge: Option<string>)

  datatype Price = Price(amount: Option<real>, currencyCode: Option<string>)

  /** A catalog entry. `avgRating` and `totalRatings` default to 0. */
  datatype Book = Book(
    id: BookId,
    isbn: string,
    googleBooksId: Option<string>,
    title: string,
    authors: seq<string>,
    genre: seq<string>,
    publisher: Option<string>,
    publishedDate: Option<string>,
    description: Option<string>,
    pageCount: Option<int>,
    printType: Option<string>,
    imageLinks: Option<ImageLinks>,
    language: Option<string>,
    avgRating: real,
    totalRatings: int,
    retailPrice: Option<Price>)

  /** The schema's keys: `_id` and `isbn` are unique across the catalog. */
  ghost predicate UniqueKeys(catalog: seq<Book>) {
    forall i, j :: 0 <= i < j < |catalog| ==>
      catalog[i].id != catalog[j].id && catalog[i].isbn != catalog[j].isbn
  }

  /** The two keys a book is looked up by: its `_id` and its `isbn`. */
  datatype Key = ById(id: BookId) | ByIsbn(isbn: string)

  predicate HasKey(b: Book, k: Key) {
    match k
    case ById(id) => b.id == id
    case ByIsbn(isbn) => b.isbn == isbn
  }

  /** The first catalog book with the key, as `findOne`, `findById` and
      `populate` return it. */
  function Find(catalog: seq<Book>, k: Key): (r: Option<Book>)
    ensures r.Some? ==> r.value in catalog && HasKey(r.value, k)
    ensures r.None? <==> forall b :: b in catalog ==> !HasKey(b, k)
  {
    if catalog == [] then None
    else if HasKey(catalog[0], k) then Some(catalog[0])
    else Find(catalog[1..], k)
  }

  /** `bookModel.findOne({ isbn })`. */
  function FindByIsbn(catalog: seq<Book>, isbn: string): Option<Book> {
    Find(catalog, ByIsbn(isbn))
  }

  /** `bookModel.findById(id)`, and the lookup behind `populate`. */
  function FindById(catalog: seq<Book>, id: BookId): Option<Book> {
    Find(catalog, ById(id))
  }

  /** With the schema's unique `_id` and `isbn`, a lookup by either key of a
      catalog book returns that very book. */
  lemma {:induction false} FindUnique(catalog: seq<Book>, b: Book, k: Key)
    requires UniqueKeys(catalog) && b in catalog && HasKey(b, k)
    ensures Find(catalog, k) == Some(b)
  {
    if catalog[0] != b {
      assert UniqueKeys(catalog[1..]);
      assert catalog[0].id != b.id && catalog[0].isbn != b.isbn;
      FindUnique(catalog[1..], b, k);
    }
  }

  // ------------------------------------------------------------ rating order

  /** `a` may precede `b` under `sort({ avgRating: -1, totalRatings: -1 })`. */
  predicate RanksAtLeast(a: Book, b: Book) {
    a.avgRating > b.avgRating || (a.avgRating == b.avgRating && a.totalRatings >= b.totalRatings)
  }

  ghost predicate SortedByRating(s: seq<Book>) {
    forall i, j :: 0 <= i < j < |s| ==> RanksAtLeast(s[i], s[j])
  }

  /** Inserts `b` into a rating-sorted sequence before the first book it ranks
      at least as high as. */
  function InsertByRating(b: Book, s: seq<Book>): (r: seq<Book>)
    requires SortedByRating(s)
    ensures |r| == |s| + 1
    ensures SortedByRating(r)
    ensures multiset(r) == multiset(s) + multiset{b}
  {
    if s == [] || RanksAtLeast(b, s[0]) then
      SortedCons(b, s);
      [b] + s
    else
      SortedTail(s);
      var rest := InsertByRating(b, s[1..]);
      assert s == [s[0]] + s[1..];
      HeadRanksAtLeastInserted(b, s, rest);
      SortedCons(s[0], rest);
      [s[0]] + rest
  }

  /** Dropping the head keeps a sequence sorted. */
  lemma SortedTail(s: seq<Book>)
    requires s != [] && SortedByRating(s)
    ensures SortedByRating(s[1..])
  {
    forall i, j | 0 <= i < j < |s| - 1 ensures RanksAtLeast(s[1..][i], s[1..][j]) {
      assert s[1..][i] == s[i + 1] && s[1..][j] == s[j + 1];
    }
  }

  /** A book ranking at least as high as every book of a sorted sequence, and
      as its head when there is one, can be put in front of it. */
  lemma SortedCons(h: Book, t: seq<Book>)
    requires SortedByRating(t)
    requires t == [] || RanksAtLeast(h, t[0]) || forall j :: 0 <= j < |t| ==> RanksAtLeast(h, t[j])
    ensures SortedByRating([h] + t)
  {
    var r := [h] + t;
    forall i, j | 0 <= i < j < |r| ensures RanksAtLeast(r[i], r[j]) {
      assert r[j] == t[j - 1];
      if i > 0 {
        assert r[i] == t[i - 1];
      } else if t != [] && RanksAtLeast(h, t[0]) && j > 1 {
        assert RanksAtLeast(t[0], t[j - 1]);
      }
    }
  }

  /** The head of `s` ranks at least as high as every book of `b` inserted into its tail. */
  lemma HeadRanksAtLeastInserted(b: Book, s: seq<Book>, rest: seq<Book>)
    requires s != [] && SortedByRating(s) && !RanksAtLeast(b, s[0])
    requires multiset(rest) == multiset(s[1..]) + multiset{b}
    ensures forall j :: 0 <= j < |rest| ==> RanksAtLeast(s[0], rest[j])
  {
    forall j | 0 <= j < |rest| ensures RanksAtLeast(s[0], rest[j]) {
      assert rest[j] in multiset(rest);
      if rest[j] != b {
        assert rest[j] in multiset(s[1..]);
        var i :| 0 <= i < |s[1..]| && s[1..][i] == rest[j];
        assert s[i + 1] == rest[j];
      }
    }
  }

  /** The catalog order of a query result after MongoDB's rating sort. Ties
      are not ordered by the database; this model keeps one fixed order. */
  function SortByRating(s: seq<Book>): (r: seq<Book>)
    ensures |r| == |s|
    ensures SortedByRating(r)
    ensures multiset(r) == multiset(s)
  {
    if s == [] then []
    else
      assert s == [s[0]] + s[1..];
      InsertByRating(s[0], SortByRating(s[1..]))
  }

  /** `r` is what `.sort({ avgRating: -1, totalRatings: -1 }).limit(k)` may
      return for the matching books `pool`, whatever order the database gives
      to ties: `min(k, |pool|)` of those books, sorted, and no book left out
      ranks above a book kept. */
  ghost predicate IsTopK(r: seq<Book>, pool: seq<Book>, k: nat) {
    && |r| == Min(k, |pool|)
    && SortedByRating(r)
    && multiset(r) <= multiset(pool)
    && forall x, y :: x in multiset(pool) - multiset(r) && y in r ==> RanksAtLeast(y, x)
  }

  /** The sorted, truncated query result. */
  function TopByRating(pool: seq<Book>, k: nat): seq<Book> {
    SortByRating(pool)[..Min(k, |pool|)]
  }

  lemma {:induction false} TopByRatingIsTopK(pool: seq<Book>, k: nat)
    ensures IsTopK(TopByRating(pool, k), pool, k)
  {
    var s := SortByRating(pool);
    var n := Min(k, |pool|);
    var r := s[..n];
    assert multiset(pool) == multiset(r) + multiset(s[n..]) by {
      assert s == r + s[n..];
    }
    forall x, y | x in multiset(pool) - multiset(r) && y in r
      ensures RanksAtLeast(y, x)
    {
      assert x in multiset(s[n..]);
      SortedSplitRanks(s, n, x, y);
    }
  }

  /** In a sorted sequence, a book before the cut ranks at least as high as a
      book after it. */
  lemma SortedSplitRanks(s: seq<Book>, n: nat, x: Book, y: Book)
    requires SortedByRating(s) && n <= |s| && x in s[n..] && y in s[..n]
    ensures RanksAtLeast(y, x)
  {
    var j :| 0 <= j < |s| - n && s[n..][j] == x;
    var i :| 0 <= i < n && s[..n][i] == y;
    assert s[i] == y && s[n + j] == x;
  }

  /** Members of a top-k result are members of the pool. */
  lemma TopKMembers(r: seq<Book>, pool: seq<Book>, k: nat, b: Book)
    requires IsTopK(r, pool, k) && b in r
    ensures b in pool
  {
    assert b in multiset(r);
  }

  /** A pool with at least `k` books yields exactly `k`; a smaller pool is
      returned whole. */
  lemma TopKSize(r: seq<Book>, pool: seq<Book>, k: nat)
    requires IsTopK(r, pool, k)
    ensures |pool| >= k ==> |r| == k
    ensures |pool| <= k ==> multiset(r) == multiset(pool)
  {
    if |pool| <= k {
      var d := multiset(pool) - multiset(r);
      assert multiset(pool) == multiset(r) + d;
      assert |d| == 0;
    }
  }

  // ------------------------------------------------------------ author overlap

  /** `authors: { $in: authors }`: the book has at least one of those authors. */
  predicate SharesAuthor(b: Book, authors: seq<string>) {
    exists a :: a in b.authors && a in authors
  }

  /** `find({ authors: { $in: authors }, isbn: { $ne: isbn } })` in catalog order. */
  function AuthorPool(catalog: seq<Book>, authors: seq<string>, isbn: string): (r: seq<Book>)
    ensures forall b :: b in r <==> b in catalog && SharesAuthor(b, authors) && b.isbn != isbn
  {
    Filter(catalog, (b: Book) => SharesAuthor(b, authors) && b.isbn != isbn)
  }
}
