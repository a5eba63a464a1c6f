# books-review-backend in Dafny

This project models the core of a book-tracking backend. The backend is an
Express/MongoDB service. Its users shelve books (plan to read, reading,
completed), rate and review them, and get recommendations. The model covers
five parts:

- **ISBN codec** (`isbn.dfy`): `isbn13to10` and `isbn10to13` from
  `src/utils/isbnUtil.js`.
  - `Isbn10Of` and `Isbn13Of` say what each call returns.
  - The methods `Isbn13To10` and `Isbn10To13` compute it with the source's
    summing loops and are proved equal to those functions.
  - The check characters are those of ISO 2108: the mod-11 ISBN-10 character
    and the EAN-13 digit with weights 1 and 3.
  - The 978 "Bookland" prefix is the only one an ISBN-10 can represent.
- **ISBN selection** (`google_books.dfy`): `getIsbnFromVolumeInfo`, which
  picks a catalog ISBN out of a Google Books volume.
- **Catalog queries** (`catalog.dfy`, `book_controller.dfy`):
  - the catalog is a `seq<Book>`;
  - MongoDB's `sort({ avgRating: -1, totalRatings: -1 }).limit(k)` is stated
    tie-independently by `IsTopK`, and computed by an insertion sort;
  - `getBook` is a method of `BookCollection` that merges the provider's
    first volume into the stored book in place;
  - `getByAuthor`, `getReviews` (nested loops proved equal to a
    specification function), `getPopular`, the no-term branch of `search`,
    and `getGenres`.
- **Recommendation resolver** (`recommendation.dfy`):
  - `getRecommendationsForIsbn` step by step: the ISBN-13 table lookup, the
    retry by raw isbn, the tier-1 query, the author fallback and the source
    tag. It is proved against the predicate `Resolves`.
  - `recommendBook`.
  - `recommendForUser`: the deduplicated seed set, its pages of four, and one
    resolved entry per page book.
- **Reading lists** (`users.dfy`, `user_controller.dfy`):
  - The user document is the class `User`. Its five collections are
    rewritten in place by `AddBook` (filter, then push) and `DeleteBook`
    (filter only).
  - Each of these methods is tied to a state function, `AfterAdd` or
    `AfterDelete`, whose invariants are proved as lemmas: one shelf per book,
    one entry each, idempotence and consistency.
  - The read-only handlers: the status check, the dashboard (a histogram
    loop), the shelf views (maps filled by loops) and a user's own reviews.

`wrappers.dfy` defines `Option` (null or undefined) and `Reply`. `Reply`
stands for the HTTP outcomes: 200, 400, 404 with its message, and 500.
`seqs.dfy` holds `filter`, `slice`, `Set` deduplication and the paging
arithmetic. `text.dfy` holds JavaScript's `\s`, `trim`, truthiness and the
code-point string order.

Three behaviours of the code are worth knowing before reading the contracts:

- **Source tag.** `getRecommendationsForIsbn` tags its answer `similar`
  whenever the final similarity entry is non-empty
  (recommendationController.js:43), even when the books come from the author
  fallback. `SimilarTagWithAuthorBooks` exhibits such a case.
- **Check digit.** `isbn10to13` computes the EAN-13 check digit as
  (10 − sum mod 10) mod 10 with weights 1 and 3, which `Isbn13OfConverts`
  proves yields a valid ISBN-13.
- **Recommendation order.** Per-user recommendations come back in catalog
  (`$in` query) order, not in seed order (`BaseBooks`).

Under MongoDB, the order of equally rated books is unspecified. Contracts
about sorted results therefore use `IsTopK`, or sortedness plus membership,
never a fixed order.

## Model

| member | source | states |
|---|---|---|
| Isbn.Clean | src/utils/isbnUtil.js:4 | removing hyphens and white space leaves no separator and never lengthens the string |
| Isbn.CleanChar | src/utils/isbnUtil.js:4 | a hyphen or a white-space character is removed, and any other character is kept |
| Isbn.CleanConcat | src/utils/isbnUtil.js:4 | cleaning works character by character, so the kept characters stay in their order |
| Isbn.CleanKeepsPlain | src/utils/isbnUtil.js:30 | cleaning a string without separators leaves it unchanged |
| Isbn.Isbn10CheckUnique | src/utils/isbnUtil.js:20-22 | the computed ISBN-10 check character is the only character completing the mod-11 checksum |
| Isbn.Ean13CheckUnique | src/utils/isbnUtil.js:48-49 | the computed ISBN-13 check digit is the only digit completing the weight-1/3 mod-10 checksum |
| Isbn.SameIsbn10 | src/utils/isbnUtil.js:20-22 | two valid ISBN-10s sharing their nine digits are the same ISBN |
| Isbn.SameIsbn13 | src/utils/isbnUtil.js:48-49 | two valid ISBN-13s sharing their first twelve digits are the same ISBN |
| Isbn.Isbn10Of | src/utils/isbnUtil.js:1-25 | every non-null result of `isbn13to10` is 10 characters long |
| Isbn.Isbn13To10 | src/utils/isbnUtil.js:1-25 | the step-by-step conversion with its summing loop returns exactly `Isbn10Of(input)` |
| Isbn.SumIsbn10 | src/utils/isbnUtil.js:16-19 | the summing loop computes the weighted sum Σ (10 − i)·dᵢ of the nine digits |
| Isbn.Isbn13Of | src/utils/isbnUtil.js:27-52 | every non-null result of `isbn10to13` is 13 digits |
| Isbn.Isbn10To13 | src/utils/isbnUtil.js:27-52 | the step-by-step conversion with its summing loop returns exactly `Isbn13Of(input)` |
| Isbn.SumEan13 | src/utils/isbnUtil.js:43-47 | the summing loop computes the EAN-13 weighted sum, weights 1 and 3 alternating |
| Isbn.MissingOrEmptyIsNull | src/utils/isbnUtil.js:2 | a missing, non-string or empty input gives null in both directions (also line 28 of the same file) |
| Isbn.Isbn10OfPassesTenCharacters | src/utils/isbnUtil.js:6-8 | any cleaned 10-character string is returned as it is, unchecked |
| Isbn.Isbn13OfPassesThirteenDigits | src/utils/isbnUtil.js:32-34 | any cleaned 13-digit string is returned as it is, whatever its prefix |
| Isbn.Isbn10OfRejects | src/utils/isbnUtil.js:10-12 | a cleaned input neither 10 characters long nor 13 digits starting with 978 gives null |
| Isbn.Isbn13OfRejects | src/utils/isbnUtil.js:36-38 | a cleaned input that is neither 13 digits nor nine digits followed by a digit or X gives null |
| Isbn.Isbn10OfConverts | src/utils/isbnUtil.js:14-24 | a 978 ISBN-13 converts to its digits 3..11 plus a check character, and the result is a valid ISBN-10 |
| Isbn.Isbn13OfConverts | src/utils/isbnUtil.js:36-51 | nine digits plus a digit or X convert to 978, the nine digits and a check digit, and the result is a valid ISBN-13 |
| Isbn.CheckCharacterIgnored | src/utils/isbnUtil.js:40 | the input's check character has no effect on the ISBN-13 produced |
| Isbn.RoundTripFromIsbn10 | src/utils/isbnUtil.js:14-24 | ISBN-10 to ISBN-13 and back is the identity on valid ISBN-10s (also lines 40-51 of the same file) |
| Isbn.RoundTripFromIsbn13 | src/utils/isbnUtil.js:14-24 | ISBN-13 to ISBN-10 and back is the identity on valid 978 ISBN-13s (also lines 40-51 of the same file) |
| Isbn.Isbn13OfPlainIsbn10 | src/utils/isbnUtil.js:40-51 | on a plain ISBN-10 the result is 978, its first nine characters and the EAN-13 check digit |
| GoogleBooks.FirstOfKind | src/utils/googleBooksAPI.js:32-33 | `find` returns the first identifier of the requested type, none before it having that type |
| GoogleBooks.IdentifierOf | src/utils/googleBooksAPI.js:32-33 | the identifier is that of the first element of the type, and missing when there is none |
| GoogleBooks.IsbnFromVolumeInfo | src/utils/googleBooksAPI.js:30-38 | no identifiers gives null; a result is never empty; a result not taken from ISBN_10 is 10 characters long |
| GoogleBooks.Isbn10TakesPrecedence | src/utils/googleBooksAPI.js:32-36 | the first ISBN_10 identifier, when non-empty, is returned verbatim, whatever ISBN_13 identifiers exist |
| GoogleBooks.Isbn13Fallback | src/utils/googleBooksAPI.js:33-37 | when the first ISBN_10 identifier is missing or empty (or there is no ISBN_10 entry), the result is `isbn13to10` of the first ISBN_13, and null when there is none |
| GoogleBooks.Isbn979YieldsNull | src/utils/googleBooksAPI.js:33-37 | a 979 ISBN-13 as the only ISBN gives null |
| Catalog.Find | src/controllers/bookController.js:9 | `findOne({ isbn })`, like `findById` and `populate`, finds a catalog book with the key, and nothing exactly when no book has it |
| Catalog.FindUnique | src/models/bookModel.js:18-19 | with unique `_id` and `isbn`, a lookup by either key of a catalog book returns that very book |
| Catalog.InsertByRating | src/controllers/recommendationController.js:23 | inserting into a rating-sorted sequence keeps it sorted and adds exactly the one book |
| Catalog.SortByRating | src/controllers/recommendationController.js:23 | the sort is a permutation sorted by avgRating, then totalRatings, both descending |
| Catalog.TopByRatingIsTopK | src/controllers/recommendationController.js:21-25 | sorting then truncating to k gives a valid top-k result: sorted, `min(k, n)` books, no book left out ranking above one kept |
| Catalog.TopKMembers | src/controllers/recommendationController.js:21-25 | every book of a top-k result comes from the queried pool |
| Catalog.TopKSize | src/controllers/recommendationController.js:24 | a pool of at least k books yields exactly k, and a smaller pool is returned whole |
| Catalog.AuthorPool | src/controllers/recommendationController.js:31-35 | the author query matches exactly the catalog books sharing an author, other than the given isbn |
| Recommendation.Lookup | src/controllers/recommendationController.js:9 | the table lookup finds an entry exactly when the key is present and not null |
| Recommendation.Isbn10ListMembers | src/controllers/recommendationController.js:17-19 | the converted list holds exactly the `isbn13to10` conversions that succeed |
| Recommendation.ConvertAll | src/controllers/recommendationController.js:17-19 | the conversion loop over `top_similar` yields exactly `Isbn10List` |
| Recommendation.RecommendationsForIsbn | src/controllers/recommendationController.js:6-46 | the step-by-step resolver (ISBN-13 lookup, raw-isbn retry, tier-1 query, author fallback, tag) returns exactly `Recommend` |
| Recommendation.RecommendResolves | src/controllers/recommendationController.js:16-43 | the answer meets `Resolves`: tag "similar" exactly when the final entry is non-empty, and a top ten of tier 1, or of the author fallback when tier 1 is empty, whatever the tie order |
| Recommendation.RecommendBook | src/controllers/recommendationController.js:48-67 | not found with "Book not found" exactly when the isbn is not in the catalog; otherwise the resolver's answer |
| Recommendation.ResolvedBooksSortedAndBounded | src/controllers/recommendationController.js:23-24 | every answer is sorted by rating, holds at most ten books, all from the catalog (also lines 36-37 of the same file) |
| Recommendation.Tier1PoolMembers | src/controllers/recommendationController.js:16-22 | tier 1 queries exactly the catalog books whose isbn is a conversion of an entry of the final non-empty `top_similar` |
| Recommendation.AuthorFallbackMembers | src/controllers/recommendationController.js:28-40 | with tier 1 empty, every book shares an author with the seed and is not the seed |
| Recommendation.NoSeedNoBooks | src/controllers/recommendationController.js:29-30 | with tier 1 empty and the seed missing or authorless, the answer is empty |
| Recommendation.SimilarTagWithAuthorBooks | src/controllers/recommendationController.js:43 | a non-empty entry none of whose isbns converts gives the tag "similar" with books from the author fallback |
| Recommendation.FinalEntryPrefersIsbn13 | src/controllers/recommendationController.js:7-12 | a non-empty entry under the ISBN-13 form is the one used |
| Recommendation.FinalEntryFallsBackToRawIsbn | src/controllers/recommendationController.js:10-11 | otherwise the raw-isbn entry replaces it, even when that one is absent |
| Recommendation.HighRated | src/controllers/recommendationController.js:85-87 | the high-rated ids are exactly the book ids of entries rated 4 or more |
| Recommendation.SeedsShape | src/controllers/recommendationController.js:85-91 | the seed set has no duplicates, holds exactly the completed and high-rated ids, and starts with the deduplicated completed ids |
| Recommendation.BaseBooks | src/controllers/recommendationController.js:96-99 | the page's books are the catalog books with an id on the page, in catalog order |
| Recommendation.FilterKeepsUniqueKeys | src/models/bookModel.js:19 | a query result over a catalog with unique keys has unique keys |
| Recommendation.UniqueKeysDistinctIds | src/models/bookModel.js:19 | books with unique keys have pairwise distinct ids |
| Recommendation.BaseBooksAtMostPage | src/controllers/recommendationController.js:94-99 | with unique ids, a page of ids yields at most that many books, so at most four entries |
| Recommendation.RecommendForUser | src/controllers/recommendationController.js:70-123 | a missing user is not found; otherwise the totals, the page, and one independently resolved entry per base book, in base-book order |
| Recommendation.ResolveEach | src/controllers/recommendationController.js:101-111 | the loop builds one entry per base book, in order, each resolved on that book's isbn |
| Recommendation.SeedPageNonEmpty | src/controllers/recommendationController.js:94 | a page of seeds is non-empty exactly when its number is at most `totalPages` (also line 116 of the same file) |
| Seqs.Filter | src/controllers/userController.js:21-23 | `filter` keeps exactly the elements satisfying the predicate, never adding any |
| Seqs.Dedup | src/controllers/recommendationController.js:91 | `[...new Set(s)]` has no duplicates and the same members as `s` |
| Seqs.DedupKeepsFirstOccurrenceOrder | src/controllers/recommendationController.js:91 | the `Set` keeps elements in the order of their first occurrences |
| Seqs.DedupPrefix | src/controllers/recommendationController.js:91 | deduplicating `a + b` starts with the deduplication of `a` |
| Seqs.Slice | src/controllers/bookController.js:119 | `slice(skip, skip + limit)` has `min(limit, n - skip)` elements, taken from position `skip` on |
| Seqs.CeilDiv | src/controllers/bookController.js:124 | `Math.ceil(n / d)` is the least count of pages of d covering n |
| Seqs.PageNumber | src/controllers/bookController.js:82 | the page is the parsed number when non-zero, and 1 otherwise |
| Seqs.PageNonEmptyIffInRange | src/controllers/bookController.js:119-124 | a page is non-empty exactly when its number is at most the page count |
| UserController.ParseStatus | src/controllers/userController.js:9-12 | a status is accepted exactly when it is one of the three shelf names, and maps to that shelf |
| UserController.AddPlacesOnce | src/controllers/userController.js:21-24 | after adding, the book sits once in the chosen shelf, as its last element, and in no other shelf |
| UserController.AddKeepsOtherIds | src/controllers/userController.js:21-24 | adding leaves every other book's occurrences in every shelf as they were |
| UserController.AddOneEntryEach | src/controllers/userController.js:26-39 | after adding, ratingsAndReviews and pagesRead hold one entry for the book, the new one and last, other entries kept in order |
| UserController.DeleteAfterAdd | src/controllers/userController.js:21-39 | deleting after adding gives what deleting alone gives (also lines 311-319 of the same file) |
| UserController.AddIdempotent | src/controllers/userController.js:21-39 | adding twice with the same arguments gives what adding once gives |
| UserController.DeleteRemovesBook | src/controllers/userController.js:311-319 | after deleting, the book is in no shelf and has no entries |
| UserController.DeleteKeepsOthers | src/controllers/userController.js:311-319 | deleting keeps every other book's occurrences and entries, in order |
| UserController.AllShelvesMultiset | src/controllers/userController.js:21-23 | a book's count across the three shelves is the sum of its counts in each |
| UserController.AddKeepsReviewsUnique | src/controllers/userController.js:26-33 | filter-then-push keeps at most one review entry per book |
| UserController.AddKeepsPagesUnique | src/controllers/userController.js:35-39 | filter-then-push keeps at most one pages entry per book |
| UserController.AddKeepsShelvesUnique | src/controllers/userController.js:21-24 | adding keeps each book in at most one shelf position |
| UserController.AddPreservesConsistent | src/controllers/userController.js:21-39 | adding preserves consistency: each book on at most one shelf, with at most one entry of each kind |
| UserController.DeletePreservesConsistent | src/controllers/userController.js:311-319 | deleting preserves consistency |
| UserController.StatusOf | src/controllers/userController.js:66-70 | the status is a shelf holding the book with no earlier shelf holding it, and null exactly when no shelf holds it |
| UserController.CheckStatus | src/controllers/userController.js:55-72 | a missing isbn is a bad request, an unknown one not found, and a known one always succeeds with the status of that book |
| UserController.StatusAfterAdd | src/controllers/userController.js:21-24 | after adding, the status is the chosen shelf (also lines 66-70 of the same file) |
| UserController.StatusAfterDelete | src/controllers/userController.js:311-313 | after deleting, the status is null (also lines 66-70 of the same file) |
| UserController.Bucket | src/controllers/userController.js:138-143 | an entry's bucket is its rating when that is 1..5, and "N/A" otherwise |
| UserController.GetDashboard | src/controllers/userController.js:119-144 | shelf sizes, counts of non-blank reviews and of ratings above 0, the rating sum and average, and each bucket equal to the entries landing in it |
| UserController.BucketsSumToEntries | src/controllers/userController.js:137-144 | every entry lands in exactly one bucket: the six buckets add up to the number of entries |
| UserController.RatingSumWithinScale | src/models/userModel.js:17 | with ratings in 0..5, the rating sum lies between one and five times the count of ratings above 0 |
| UserController.IndexKeys | src/controllers/userController.js:170-174 | the map holds exactly the keys of the entries |
| UserController.IndexLast | src/controllers/userController.js:171-174 | each key maps to the value of its last entry, later `set` calls overwriting earlier ones |
| UserController.BuildIndex | src/controllers/userController.js:171 | the `forEach` loop builds exactly that map |
| UserController.Populate | src/controllers/userController.js:166-168 | populating yields only catalog books whose id is on the shelf, no more than the ids, and, when no book is gone, exactly the looked-up books in shelf order |
| UserController.RatingShown | src/controllers/userController.js:179 | the map's rating is shown when it is present and non-zero, and `''` otherwise, so a shown rating is never 0 |
| UserController.RatingShownIsLastEntry | src/controllers/userController.js:173-179 | the shown rating is that of the book's last review entry when it is non-zero, and `''` when that entry has none or there is no entry |
| UserController.ListView | src/controllers/userController.js:164-237 | the list view has one element per populated book, in order, each with the pages and rating of its last entries |
| UserController.PagesShownIsLastEntry | src/controllers/userController.js:171-178 | the shown pages are those of the book's last pages entry, and 0 without one |
| UserController.UserReviews | src/controllers/userController.js:239-261 | the entries with review text, each with its book and pages; a kept entry whose book is gone gives a server error |
| UserController.User.constructor | src/models/userModel.js:11-26 | the stored record starts as the given collections |
| UserController.User.AddBook | src/controllers/userController.js:4-48 | invalid status or unknown isbn changes nothing; otherwise the record becomes `AfterAdd`, or stays unchanged with a server error when the rating breaks the schema |
| UserController.User.DeleteBook | src/controllers/userController.js:299-328 | unknown isbn changes nothing; otherwise the record becomes `AfterDelete`, and stays consistent |
| BookController.MergedRating | src/controllers/bookController.js:37 | a stored non-zero rating is kept; a change only brings in the provider's non-zero rating |
| BookController.MergedCount | src/controllers/bookController.js:38 | a stored non-zero count is kept; a change only brings in the provider's non-zero count |
| BookController.MergedPrice | src/controllers/bookController.js:40-45 | the price is replaced only when the sale info has one |
| BookController.Enrich | src/controllers/bookController.js:26-45 | the merge keeps the book's keys and sets `googleBooksId` to the volume's id |
| BookController.EnrichDescriptiveFields | src/controllers/bookController.js:27-36 | each descriptive field takes the provider's value when it is truthy (title, publisher, publishedDate, description, printType, language), present (authors, genre, imageLinks) or a non-zero count (pageCount), and keeps the stored value otherwise |
| BookController.EnrichIdempotent | src/controllers/bookController.js:26-45 | merging the same volume twice gives what merging once gives |
| BookController.IsbnIndex | src/controllers/bookController.js:9 | the position found is that of the book `findOne` returns, and past the end exactly when none matches |
| BookController.EnrichedBookIsFoundAgain | src/controllers/bookController.js:15 | the saved book keeps the keys unique, is what the next lookup finds, and with a volume id is not enriched again (also lines 26, 47 of the same file) |
| BookController.MergeVolume | src/controllers/bookController.js:26-45 | the field-by-field assignments produce exactly `Enrich` |
| BookController.BookCollection.constructor | src/models/bookModel.js:18-36 | the collection starts as the given catalog |
| BookController.BookCollection.GetBook | src/controllers/bookController.js:5-56 | missing book, or no provider data for an unenriched book, is not found and changes nothing; an enriched book is returned as stored; otherwise the book is replaced in place by its merge |
| BookController.GetByAuthor | src/controllers/bookController.js:58-77 | missing book or no authors is not found; otherwise the authors and a top-20 of the other books sharing an author |
| BookController.ByAuthorMembers | src/controllers/bookController.js:66-69 | every book returned shares an author, is not the seed, and there are at most 20 |
| BookController.ReviewsInMembers | src/controllers/bookController.js:100-114 | one user's shown reviews are exactly their rated entries for the book with non-blank text |
| BookController.MatchingReviewsMembers | src/controllers/bookController.js:97-116 | the collected reviews are exactly the rated, non-blank reviews of the book across users |
| BookController.CollectReviews | src/controllers/bookController.js:97-116 | the nested loops collect exactly `MatchingReviews`, user order then entry order |
| BookController.GetReviews | src/controllers/bookController.js:79-132 | missing book is not found; otherwise the total, page, page count and the page's five reviews |
| BookController.ReviewPageShape | src/controllers/bookController.js:118-124 | a review page holds at most five and is non-empty exactly when its number is at most `totalPages` |
| BookController.GetPopular | src/controllers/bookController.js:134-160 | the total counts the popular books; the page is the sorted popular books' page of ten |
| BookController.SortedSlice | src/controllers/bookController.js:144-146 | skipping and limiting a sorted result leaves it sorted and adds nothing |
| BookController.PopularPageMembers | src/controllers/bookController.js:140-146 | a popular page holds only catalog books with at least 20000 ratings and an average of at least 4, in rating order |
| BookController.PopularPageCount | src/controllers/bookController.js:145-152 | a popular page holds at most the limit and is non-empty exactly when its number is at most `totalPages` |
| BookController.PopularFirstPageIsTop | src/controllers/bookController.js:142-146 | the first page is a valid top-k of the popular books, whatever the order of ties |
| BookController.LimitNumber | src/controllers/bookController.js:167 | the limit is the parsed number when non-zero, and 21 otherwise |
| BookController.SearchFallback | src/controllers/bookController.js:164-187 | the fallback answers exactly the requests with no non-blank term and no genre, with the popular page and its page count |
| BookController.FallbackAgreesWithPopular | src/controllers/bookController.js:142-152 | with a limit of 10 the fallback shows the same books and page count as `getPopular` (also lines 171-184 of the same file) |
| BookController.InsertString | src/controllers/bookController.js:270 | inserting into an ascending string sequence keeps it ascending and adds exactly the one string |
| BookController.SortStrings | src/controllers/bookController.js:270 | the string sort is an ascending permutation |
| BookController.GenresShape | src/controllers/bookController.js:263-279 | the genres listed are exactly the non-empty ones named more than 100 times, each once, strictly ascending |
| BookController.GenreCountAddsUp | src/controllers/bookController.js:266-268 | a genre's count grows by its occurrences in each further book's list |

## Left out

- The HTTP layer (server.js, the routers, request parsing, `res.status(...).json(...)`) is not modelled. Outcomes are the `Reply` datatype, and response fields that only echo inputs are dropped.
- MongoDB is replaced by in-memory sequences and maps: `findOne` is the first match in catalog order, `find` keeps catalog order, `populate` drops dangling ids. Indexes, `.lean()`, `.select()` and `save()` round trips are not modelled, and `save()` failures are modelled only for the rating bound.
- Authentication (authController.js), the Gemini review enhancement, the profile handlers (`getProfileInfo`, `updateProfile`), uploads (multer/Cloudinary), and `getUserBookReview` are not part of this model.
- The network calls to Google Books are not modelled: `getGoogleAPI`'s answer is a parameter of `GetBook`. The fetch-and-insert loop and the `$regex` text search of `search` (bookController.js:189-245) are left out, because they depend on the network and on library regex semantics. `SearchFallback` gives `None` for requests that take that branch.
- `Recommendation.RecommendationsForIsbn` and `BookController.GetPopular` order equally rated books the way `SortByRating` does. MongoDB leaves that order open, so the properties proved about them (`RecommendResolves`, `PopularFirstPageIsTop`) hold for any tie order.
- Timestamps (`updatedAt`, the `date` of a review) are not modelled.
- `UserController.GetDashboard` does not return the user's `bio` (userController.js:147): the profile text is a stored field that the dashboard passes through untouched, and the model's `ReadingState` does not carry it.
- `BookController.GetBook`: a second book saved with an already used `googleBooksId` would break the sparse unique index and end in a 500. That is not modelled.
- `BookController.GetBook`: a volume without `volumeInfo` would throw. The model assumes every volume has one.
- `parseInt` details are not modelled. A page or limit is `Option<nat>`, with 0 and unparseable values both defaulting. Negative numbers, which would reach `slice` with negative indices, are not represented.
- Ratings are whole numbers (`Option<int>`); fractional ratings are not modelled.
- `avgRating` is a `real`, used only as a sort key. `UserController.GetDashboard` states the exact quotient, without `toFixed(2)` rounding or its string form.
- Strings are sequences of code points. JavaScript's UTF-16 lengths and MongoDB's collation are not modelled, and `StrLeq` is code-point order.
- `UserController.User.AddBook` does not state in its own contract that consistency is kept. `UserController.AddPreservesConsistent` proves it for `AfterAdd`, which `AddBook` is proved to produce.
- A user document that does not exist (`findById` giving null) is modelled only in `recommendForUser`. Elsewhere the handlers would throw; the model takes the authenticated user to exist.
- `getDashboard`, `getReading`, `getCompleted` and `getPlanned` read a user chosen by the authentication layer. The model takes that user's collections as input.
