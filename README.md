# Book-review catalogue: a Dafny model of its data and query layer

This project models the core of a book-review backend: an Express service over
MongoDB that stores books and user-authored reviews. The model covers:

- the Book schema: required, trimmed text fields and a sparse-unique `isbn`;
- the `reviews` relation, i.e. every review whose `book` is the book's id;
- the derived `averageRating`;
- the book routes: create, a filtered and paged list, one book with a page
  of its reviews, and search;
- the review routes: create, update and delete, each a fixed sequence of
  guards that ends in one change to the review collection.

MongoDB is replaced by in-memory tables. A collection is a sequence, and each
record carries its own id. The model assumes that an unsorted `find` returns
documents in insertion order. MongoDB does not promise this (see "## Left
out"), so the facts about pages of an unsorted listing hold only under that
assumption. The two stores that change state are classes:

- `BookRoutes.BookStore` holds the books;
- `ReviewRoutes.ReviewStore` holds the reviews.

Their methods state the entire new table, and they keep a table invariant:

- books: ids are distinct and issued by the store, the required fields are
  present and trimmed, and no two books share an isbn;
- reviews: ids rise along the table, every stored rating is 1 to 5, every
  comment is trimmed and non-empty, and there is at most one review per
  (book, user) pair.

The read handlers are functions over the tables. A cursor's `skip`, `limit` and
`sort` are modelled in `Cursor`, and express-validator's `trim` in `Text`.

Modules:

- `Common`: option and result types, how a numeric body field parses, and the
  names of validated fields;
- `Text`: JavaScript's whitespace trim, and case-insensitive substring matching;
- `BookModel`: records, the `reviews` relation, the rating average and its
  rendering, and isbn uniqueness;
- `Cursor`: parameter defaulting, paging, `Math.ceil(total / limit)`, and a
  descending sort;
- `BookRoutes` and `ReviewRoutes`: the handlers.

Inputs the service takes from outside become parameters:

- the caller's identity (`req.user._id`) is a plain `UserId`;
- `new Date().getFullYear()`, which the validator list evaluates once when the
  routes are loaded, is `maxYear`;
- MongoDB's text-search relevance is an abstract `score` function;
- the creation timestamp is the review table's insertion counter. The same
  counter names each review, so newest first means highest id first.

`averageRating` is computed exactly. The sum of the ratings divided by their
count is rounded to tenths, half away from zero, and rendered with one decimal
("4.5", "3.0"). With no reviews it is the number 0, rendered "0".

Behaviour of the handlers that the model keeps as the code has it:

- `PUT /:id` validates the body before it looks the review up
  (src/routes/review.routes.js:61-69). So an invalid body on an unknown id
  answers 400.
- A second review of a book by the same user answers 400
  (src/routes/review.routes.js:34-38).
- A duplicate isbn is refused by the unique index when the book is saved, and
  the route's catch block answers 500 (src/routes/book.routes.js:29-35).
- `parseInt(x) || d` makes a page or limit given as 0 or as a non-number
  fall back to the default (src/routes/book.routes.js:41-42). Any other value
  is kept as it is, negative ones included.

## Model

| member | source | states |
|---|---|---|
| Text.Trim | src/routes/book.routes.js:10-13 | The trimmed text neither starts nor ends with a JavaScript whitespace character |
| Text.TrimStrips | src/routes/book.routes.js:10-13 | Trimming only removes whitespace from the two ends: the result is a contiguous slice of the input and everything cut off is whitespace |
| Text.TrimEmptyIffAllSpace | src/routes/review.routes.js:12 | `trim().notEmpty()` fails exactly when the field is empty or all whitespace |
| Text.TrimIdempotent | src/models/book.model.js:5-18 | The schema's own `trim: true` changes nothing once the validator has trimmed a field |
| Text.Contains | src/routes/book.routes.js:46-47 | True exactly when the pattern occurs at some position of the text |
| BookModel.FindBook | src/routes/book.routes.js:76 | `findById` returns a book of the table with that id, or reports that no book has that id |
| BookModel.ReviewsOf | src/models/book.model.js:41-45 | A book's reviews are exactly the review records whose `book` is its id, each as often as in the table |
| BookModel.ReviewsOfMembership | src/models/book.model.js:41-45 | A review belongs to a book's reviews if and only if it is in the table and its `book` is that id |
| BookModel.SumPermutation | src/models/book.model.js:50 | The `reduce` sum of ratings depends only on the multiset of ratings |
| BookModel.Average | src/models/book.model.js:48-53 | 0 if and only if there are no reviews; otherwise the tenths value is sum/count rounded half away from zero |
| BookModel.AverageOrderIndependent | src/models/book.model.js:50-51 | Two rating lists with the same multiset have the same average |
| BookModel.AverageBounds | src/models/book.model.js:50-51 | When every rating is an integer from 1 to 5, the average lies between 1.0 and 5.0 |
| BookModel.AverageExamples | src/models/book.model.js:48-53 | No reviews give "0", ratings 4 and 5 give "4.5", and a single 3 gives "3.0" |
| BookModel.Digits | src/models/book.model.js:51 | The decimal digits of a whole number, without leading zeros, which read back as that number |
| BookModel.Render | src/models/book.model.js:48-53 | No reviews give "0"; otherwise `toFixed(1)`'s text: an optional minus, digits without a leading zero, a point and one digit, which read back as the average's tenths, so the text is fixed |
| BookModel.DigitsCanonical | src/models/book.model.js:51 | Any digit string without a leading zero is the `Digits` of the number it reads as, so a number has one such spelling |
| BookModel.RenderCanonical | src/models/book.model.js:51 | A text of digits, a point and one digit, without a leading zero, that reads back as a non-negative average's tenths is exactly that average's rendering |
| BookModel.AddKeepsIsbnUnique | src/models/book.model.js:27-31 | Adding a book with no isbn, or with an isbn no book has, keeps isbns unique, so any number of books may lack one |
| Cursor.ParamOr | src/routes/book.routes.js:41-42 | `parseInt(x) \|\| d`: the parsed value when it is a non-zero number, otherwise the default |
| Cursor.Select | src/routes/book.routes.js:45-54 | `find(filter)` returns every document that passes the filter, as often as in the collection, and nothing else |
| Cursor.SelectAppend | src/routes/book.routes.js:49 | Selecting from a concatenation is selecting from each part in turn, so with `Cursor.SelectOne` the matches keep the collection's order |
| Cursor.SelectOne | src/routes/book.routes.js:49 | A single document is kept exactly when it passes the filter |
| Cursor.Window | src/routes/book.routes.js:49 | `skip(n).limit(c)` returns the items from position n on, at most c of them, and nothing past the end |
| Cursor.PageOf | src/routes/book.routes.js:43-49 | A negative `(page-1)*limit` is refused by the cursor; otherwise the page is the window at that skip, `\|limit\|` items long |
| Cursor.CeilDiv | src/routes/book.routes.js:59 | `Math.ceil(total / limit)` is the least number of limit-sized pages covering total, for a limit of either sign |
| Cursor.PagesCoverAll | src/routes/book.routes.js:43-59 | For limit ≥ 1, pages 1 to totalPages concatenated are the whole matching list in order, and any later page is empty without error |
| Cursor.PageSizes | src/routes/book.routes.js:43-59 | Every page before the last holds exactly limit items, and the last holds the non-empty remainder |
| Cursor.PagingExample | src/routes/book.routes.js:59 | 25 items at 10 per page make 3 pages of 10, 10 and 5, and page 4 is empty |
| Cursor.SortDesc | src/routes/book.routes.js:81 | The sort returns a permutation of its input, ordered by key, largest first |
| Cursor.WindowOfSorted | src/routes/book.routes.js:79-81 | A skipped and limited slice of a sorted list is itself sorted |
| BookRoutes.ValidateBook | src/routes/book.routes.js:9-18 | Each field is reported if and only if its rule fails: title, author, genre or description empty after trimming, or a year that is not an integer from 1000 to the current year. Each failing field is reported exactly once and nothing else is reported |
| BookRoutes.StoredBook | src/routes/book.routes.js:28 | The saved document has the new id, the trimmed title, author, genre and description, the year when one was given, and the trimmed isbn when one was given; it is well-formed when validation passed |
| BookRoutes.AddKeepsValid | src/routes/book.routes.js:28-29 | Saving a well-formed book under a fresh id with an untaken isbn keeps ids distinct and isbns unique |
| BookRoutes.BookStore.CreateBook | src/routes/book.routes.js:21-36 | Invalid fields answer 400 with their list; a taken isbn is refused; either way nothing is stored and no id is used. It succeeds if and only if validation passes and the isbn is untaken, and then appends exactly the stored form of the body under a fresh id |
| BookRoutes.ListBooks | src/routes/book.routes.js:39-67 | The page is the window of the filtered books at `(page-1)*limit`, each with its average over all its reviews. totalBooks counts the same filter, totalPages is its ceiling quotient, and a negative skip fails |
| BookRoutes.ListWithoutFilters | src/routes/book.routes.js:45-47 | With no author or genre parameter, the listing pages through every book in collection order |
| BookRoutes.FiltersCompose | src/routes/book.routes.js:45-47 | The author and genre conditions are conjoined and independent: filtering by both is filtering by author and then by genre, in the same order |
| BookRoutes.NewestFirst | src/routes/book.routes.js:81 | Reviews sorted by `createdAt` descending, as a permutation of the input |
| BookRoutes.ReviewPageOfBook | src/routes/book.routes.js:76-87 | A page of a book's reviews holds only that book's reviews, newest first |
| BookRoutes.GetBookAsWritten | src/routes/book.routes.js:70-108 | 404 if and only if the book is missing. Otherwise it returns the page of the book's reviews, newest first; the average and totals are computed from that page |
| BookRoutes.GetBookAsWrittenTotals | src/routes/book.routes.js:93-100 | As written, totalReviews is never more than limit and totalPages never more than 1 |
| BookRoutes.GetBookAsWrittenMiscounts | src/routes/book.routes.js:93-100 | A book with two reviews, asked for at limit 1, reports one review on one page and an average of 5.0 instead of 3.0 |
| BookRoutes.GetBook | src/routes/book.routes.js:70-108 | The same page of reviews, while the average, totalReviews and totalPages describe all of the book's reviews |
| BookRoutes.GetBookCoversAllReviews | src/routes/book.routes.js:93-100 | Corrected: pages 1 to totalPages hold every review of the book exactly once, and the average matches the listing's |
| BookRoutes.RankedWindow | src/routes/book.routes.js:127-129 | A page of the relevance ranking is in descending score order and holds only ranked books |
| BookRoutes.SearchPage | src/routes/book.routes.js:118-140 | The page is the window at `(page-1)*limit` of the books with positive relevance, ranked highest first, each with average 0. totalBooks counts all matches, totalPages is its ceiling quotient, and a negative skip fails |
| BookRoutes.SearchResultsRanked | src/routes/book.routes.js:123-129 | Every book on a page of results has positive relevance to the term, and the page is in descending order of relevance |
| BookRoutes.SearchBooks | src/routes/book.routes.js:111-146 | 400 if and only if `q` is empty after trimming. Otherwise it answers the query's page for the trimmed term, and a cursor failure becomes a 500 |
| ReviewRoutes.ValidateReview | src/routes/review.routes.js:10-13 | rating is reported if and only if it is not an integer from 1 to 5, comment if and only if it is empty after trimming. Each failing field is reported exactly once and nothing else is reported |
| ReviewRoutes.Reviewed | src/routes/review.routes.js:29-32 | True exactly when some review has this book and this user |
| ReviewRoutes.IndexOfId | src/routes/review.routes.js:66 | `findById` finds the position of the review with that id, or reports that no review has it |
| ReviewRoutes.AppendKeepsTable | src/routes/review.routes.js:28-47 | Appending a validated review for a (book, user) pair without one keeps the table invariant, including one review per pair |
| ReviewRoutes.UpdateKeepsTable | src/routes/review.routes.js:78-80 | Replacing one review's rating and comment with validated values keeps the table invariant |
| ReviewRoutes.RemoveKeepsTable | src/routes/review.routes.js:106 | Removing one review keeps the table invariant |
| ReviewRoutes.ReviewsOfAppend | src/routes/review.routes.js:40-47 | A new review joins its own book's reviews, at the end, and no other book's |
| ReviewRoutes.ReviewsOfReplace | src/routes/review.routes.js:78-80 | An update swaps the review within its own book's reviews and leaves every other book's unchanged |
| ReviewRoutes.ReviewsOfRemove | src/routes/review.routes.js:106 | A delete takes the review out of its own book's reviews and leaves every other book's unchanged |
| ReviewRoutes.StoredAverageInRange | src/routes/review.routes.js:11 | Because only validated ratings are stored, every reviewed book's average lies between 1.0 and 5.0 |
| ReviewRoutes.OneReviewPerUserPerBook | src/routes/review.routes.js:28-38 | Within one book's reviews, no two come from the same user |
| ReviewRoutes.ReviewStore.CreateReview | src/routes/review.routes.js:16-56 | Guards in order: validation 400, book missing 404, already reviewed 400, and any rejection leaves the table unchanged. It succeeds if and only if all three guards pass, and then appends exactly one review with this book, caller, rating and trimmed comment |
| ReviewRoutes.ReviewStore.UpdateReview | src/routes/review.routes.js:59-89 | Guards in order: validation 400, unknown id 404, non-owner 403, with no change on rejection. It succeeds if and only if the body is valid and the caller owns an existing review, and then replaces only that review's rating and comment |
| ReviewRoutes.ReviewStore.DeleteReview | src/routes/review.routes.js:92-113 | Unknown id 404, non-owner 403, with no change on rejection. It succeeds if and only if the caller owns an existing review, and then removes exactly that review and keeps every other in order |

## Left out

- Concurrency: the model is sequential. The check-then-insert race between
  `findOne` and `save` in review creation is not modelled. The model shows
  only that the check suffices when requests do not interleave.
- MongoDB's `$text` search is an abstract `score` function. Its tokenising,
  stemming and scoring are not modelled, and neither are ties in the order of
  equal scores.
- `GET /search` is registered after `GET /:id`, so Express dispatches
  `/search` to the id handler. `BookRoutes.SearchBooks` models the search
  handler on its own and says nothing about reachability.
- `BookRoutes.SearchPage` treats a document as matching when its score is
  positive.
- The `author` and `genre` filters build a `RegExp` from the parameter.
  `BookRoutes.PassesFilter` matches the parameter as a literal substring, so
  regular-expression metacharacters are not modelled. Its case folding covers
  ASCII letters only. A parameter that is not a valid pattern, such as `(`,
  makes `new RegExp` throw inside the `try`, and the route answers 500.
  `BookRoutes.ListBooks` returns a page for such a parameter instead.
- `toFixed(1)` on binary floating point is not modelled. The average is exact
  and rounds half away from zero, so for ties on binary-inexact values the
  model and the service can round differently.
- `BookModel.Render` has no negative zero. `toFixed(1)` keeps the sign of a
  negative number that rounds to zero, so a negative average above -0.05
  renders "-0.0" in the service and "0.0" here (`BookModel.Average` gives
  `OneDecimal(0)` for it). This needs a negative rating, and no route stores
  one: every stored rating is 1 to 5 (`ReviewRoutes.StoredAverageInRange`).
- `BookModel.Render` gives the string form of the average. The difference
  between the number 0 and a string in the JSON is not modelled.
- Timestamps: `createdAt` is an insertion counter and `updatedAt` is not
  modelled.
- `populate("user", "username")` and other display joins are not modelled.
- The model assumes an unsorted `find` returns documents in insertion order.
  MongoDB does not guarantee any order without a sort, so the service's pages
  of `GET /` may overlap or skip books between requests. `Cursor.Select`,
  `Cursor.PagesCoverAll` and `BookRoutes.ListWithoutFilters` describe the
  service only under this assumption.
- `BookRoutes.BookStore.CreateBook` always issues the store's next id.
  `new Book(req.body)` also accepts an `_id` supplied in the body, and saving
  one that is already taken fails with a 500. Neither is modelled.
- Page, limit and skip are unbounded integers here. In the service they are
  JavaScript numbers: `parseInt` of a very long digit string gives an inexact
  value or `Infinity`, and MongoDB refuses a skip or limit outside its 64-bit
  range with a 500. None of this is modelled.
- Malformed ids raise a MongoDB `CastError`, which the routes answer with 500.
  Ids here are numbers, so this error is not modelled.
- A negative `limit` is modelled as MongoDB's single batch of `|limit|`
  items. Batch sizes and the driver's other limit semantics are not modelled.
- Failures of the database itself (connection loss and the like), which the
  routes answer with 500, are not modelled. Of the 500s a request itself can
  cause, two are modelled: a negative skip (`Cursor.NegativeSkip`) and a
  duplicate isbn (`BookRoutes.DuplicateIsbn`). Others are listed above and
  below: an invalid `author` or `genre` pattern, a client `_id` already
  taken, a skip or limit outside the 64-bit range, and a malformed id.
- The authentication middleware and `src/index.js` (process start-up,
  middleware wiring, the database connection) are not part of this model.
  The caller's identity is an input.
- The review schema file is not part of this model. The stored rating and
  comment rules come from the route's validators, and the one-review-per-pair
  rule comes from the route's explicit check, not from any index.

## Findings

| source | as written | input that shows it | evidently intended | confidence | as-written member | corrected member |
|---|---|---|---|---|---|---|
| src/routes/book.routes.js:93-100 | `populate` applies `skip` and `limit` to the reviews, so `totalReviews` is the length of the page, `totalPages` is at most 1, and the `averageRating` virtual averages only the page | A book with ratings 1 (older) and 5 (newer), `GET /:id?limit=1`: the response says 1 review, 1 page, average 5.0 | totalReviews and totalPages count all of the book's reviews, and averageRating averages all of them (3.0 here) | not executed | BookRoutes.GetBookAsWritten, BookRoutes.GetBookAsWrittenMiscounts | BookRoutes.GetBook, BookRoutes.GetBookCoversAllReviews |
