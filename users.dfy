/** The reading-list part of a user record (`src/models/userModel.js`): three
    shelves of book ids, one rating/review entry and one pages entry per book. */
module Users {
  import opened Wrappers
  import opened Catalog

  /** One `ratingsAndReviews` element. `rating` is a whole number when present. */
  datatype ReviewEntry = ReviewEntry(bookId: BookId, rating: Option<int>, review: Option<string>)

  /** One `pagesRead` element. */
  datatype PagesEntry = PagesEntry(bookId: BookId, pagesRead: Option<int>)

  /** The five collections a user record keeps about books. */
  datatype ReadingState = ReadingState(
    planToRead: seq<BookId>,
    reading: seq<BookId>,
    completed: seq<BookId>,
    ratingsAndReviews: seq<ReviewEntry>,
    pagesRead: seq<PagesEntry>)

  /** The fields of a user that other users' requests read. */
  datatype UserRecord = UserRecord(name: string, profileImg: string, state: ReadingState)

  /** The schema bound on a rating: `min: 0, max: 5`; a missing rating passes. */
  predicate RatingInRange(e: ReviewEntry) {
    e.rating.None? || 0 <= e.rating.value <= 5
  }

  /** What `user.save()` validates about the review entries. */
  predicate RatingsInRange(entries: seq<ReviewEntry>) {
    forall i :: 0 <= i < |entries| ==> RatingInRange(entries[i])
  }
}
