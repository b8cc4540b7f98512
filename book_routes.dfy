/** The book routes: the `validateBook` rules and the create handler, which
    inserts into the book collection, and the read handlers (list, get by id,
    search) as functions over the stored tables. */
module BookRoutes {
  import opened Common
  import opened Text
  import opened BookModel
  import opened Cursor

  /** A create-book request body. An absent text field arrives as the empty
      string, which the validators treat alike. */
  datatype BookInput = BookInput(
    title: string,
    author: string,
    genre: string,
    description: string,
    publishedYear: NumField,
    isbn: Option<string>)

  /** `publishedYear` is optional; when present it must be an integer from
      1000 to `maxYear`, the calendar year in which the process evaluated the
      validator list (`new Date().getFullYear()` runs once, when the routes
      are loaded). */
  predicate YearAccepted(y: NumField, maxYear: int) {
    match y
    case Missing => true
    case Int(n) => 1000 <= n <= maxYear
    case NotInt => false
  }

  /** `validateBook`: every field whose rule fails is reported, once, and no
      other field. */
  function ValidateBook(input: BookInput, maxYear: int): (errs: seq<Field>)
    ensures Title in errs <==> Trim(input.title) == []
    ensures Author in errs <==> Trim(input.author) == []
    ensures Genre in errs <==> Trim(input.genre) == []
    ensures Description in errs <==> Trim(input.description) == []
    ensures PublishedYear in errs <==> !YearAccepted(input.publishedYear, maxYear)
    ensures Rating !in errs && Comment !in errs && Query !in errs
    ensures |errs| == Count(Trim(input.title) == []) + Count(Trim(input.author) == [])
      + Count(Trim(input.genre) == []) + Count(Trim(input.description) == [])
      + Count(!YearAccepted(input.publishedYear, maxYear))
  {
    BookErrors(Trim(input.title) == [], Trim(input.author) == [], Trim(input.genre) == [],
               Trim(input.description) == [], !YearAccepted(input.publishedYear, maxYear))
  }

  /** The error list for the given failed rules, in declaration order. */
  function BookErrors(title: bool, author: bool, genre: bool, description: bool, year: bool): (errs: seq<Field>)
    ensures Title in errs <==> title
    ensures Author in errs <==> author
    ensures Genre in errs <==> genre
    ensures Description in errs <==> description
    ensures PublishedYear in errs <==> year
    ensures Rating !in errs && Comment !in errs && Query !in errs
    ensures |errs| == Count(title) + Count(author) + Count(genre) + Count(description) + Count(year)
  {
    Report(title, Title) + Report(author, Author) + Report(genre, Genre)
    + Report(description, Description) + Report(year, PublishedYear)
  }

  /** The document `new Book(req.body)` saves once the sanitisers have run:
      text fields and a present isbn trimmed. */
  function StoredBook(input: BookInput, id: BookId): (b: Book)
    ensures b.id == id
    ensures b.title == Trim(input.title) && b.author == Trim(input.author)
    ensures b.genre == Trim(input.genre) && b.description == Trim(input.description)
    ensures b.publishedYear == if input.publishedYear.Int? then Some(input.publishedYear.n) else None
    ensures b.isbn == StoredIsbn(input)
    ensures (Trim(input.title) != [] && Trim(input.author) != [] && Trim(input.genre) != []
             && Trim(input.description) != []) ==> WellFormed(b)
  {
    Book(id, Trim(input.title), Trim(input.author), Trim(input.genre), Trim(input.description),
         if input.publishedYear.Int? then Some(input.publishedYear.n) else None,
         StoredIsbn(input))
  }

  /** `body("isbn").optional().trim()`: a present isbn is stored trimmed. */
  function StoredIsbn(input: BookInput): Option<string> {
    if input.isbn.Some? then Some(Trim(input.isbn.value)) else None
  }

  datatype CreateBookError =
    | InvalidBook(fields: seq<Field>)  // 400 with the list of failed fields
    | DuplicateIsbn                    // the unique index refuses the save: 500

  /** The collection invariant kept by `BookStore`. */
  ghost predicate StoreInvariant(books: seq<Book>, nextId: BookId) {
    && (forall i :: 0 <= i < |books| ==> books[i].id < nextId && WellFormed(books[i]))
    && (forall i, j :: 0 <= i < j < |books| ==> books[i].id != books[j].id)
    && IsbnUnique(books)
  }

  /** Saving a well-formed book under a fresh id with an untaken isbn keeps
      the invariant. */
  lemma AddKeepsValid(books: seq<Book>, nextId: BookId, b: Book)
    requires StoreInvariant(books, nextId)
    requires b.id == nextId && WellFormed(b) && !IsbnTaken(books, b.isbn)
    ensures StoreInvariant(books + [b], nextId + 1)
    ensures FindBook(books, b.id).None?
  {
    AddKeepsIsbnUnique(books, b);
    var s := books + [b];
    forall i, j | 0 <= i < j < |s| ensures s[i].id != s[j].id {
      if j == |books| { assert s[i] == books[i]; }
    }
  }

  /** The book collection. */
  class BookStore {
    var books: seq<Book>
    var nextId: BookId

    /** Ids are fresh and distinct, required fields present and trimmed, and
        no two books share an isbn. */
    ghost predicate Valid()
      reads this
    {
      StoreInvariant(books, nextId)
    }

    constructor ()
      ensures Valid() && books == []
    {
      books := [];
      nextId := 0;
    }

    /** POST `/`: validate, then save; a failure stores nothing. */
    method CreateBook(input: BookInput, maxYear: int) returns (res: Result<Book, CreateBookError>)
      requires Valid()
      modifies this
      ensures Valid()
      ensures ValidateBook(input, maxYear) != [] ==> res == Failure(InvalidBook(ValidateBook(input, maxYear)))
      ensures ValidateBook(input, maxYear) == [] && IsbnTaken(old(books), StoredIsbn(input))
              ==> res == Failure(DuplicateIsbn)
      ensures res.Failure? ==> books == old(books) && nextId == old(nextId)
      ensures res.Success? <==> ValidateBook(input, maxYear) == [] && !IsbnTaken(old(books), StoredIsbn(input))
      ensures res.Success? ==>
                && ValidateBook(input, maxYear) == []
                && !IsbnTaken(old(books), res.value.isbn)
                && res.value == StoredBook(input, res.value.id)
                && FindBook(old(books), res.value.id).None?
                && books == old(books) + [res.value]
    {
      var errs := ValidateBook(input, maxYear);
      if errs != [] {
        return Failure(InvalidBook(errs));
      }
      var b := StoredBook(input, nextId);
      if IsbnTaken(books, b.isbn) {
        return Failure(DuplicateIsbn);
      }
      AddKeepsValid(books, nextId, b);
      books := books + [b];
      nextId := nextId + 1;
      res := Success(b);
    }
  }

  // ----- GET `/`: filtered, paged list -----

  /** A book as a listing shows it: with its average over all its reviews. */
  datatype ListedBook = ListedBook(book: Book, averageRating: AverageRating)

  datatype BookPage = BookPage(books: seq<ListedBook>, currentPage: int, totalPages: int, totalBooks: nat)

  /** The filter object: an author or genre condition is added only when that
      query parameter is non-empty, and the conditions are conjoined. */
  predicate PassesFilter(b: Book, author: string, genre: string) {
    AuthorMatches(b, author) && GenreMatches(b, genre)
  }

  predicate AuthorMatches(b: Book, author: string) {
    author == [] || MatchesIgnoreCase(b.author, author)
  }

  predicate GenreMatches(b: Book, genre: string) {
    genre == [] || MatchesIgnoreCase(b.genre, genre)
  }

  /** The two conditions are independent: filtering by both at once is
      filtering by author and then, in the same order, by genre. */
  lemma {:induction false} FiltersCompose(books: seq<Book>, author: string, genre: string)
    ensures Select(books, b => PassesFilter(b, author, genre))
            == Select(Select(books, b => AuthorMatches(b, author)), b => GenreMatches(b, genre))
    decreases |books|
  {
    if books != [] {
      var both := (b: Book) => PassesFilter(b, author, genre);
      var byAuthor := (b: Book) => AuthorMatches(b, author);
      var byGenre := (b: Book) => GenreMatches(b, genre);
      var x := books[0];
      FiltersCompose(books[1..], author, genre);
      assert books == [x] + books[1..];
      SelectAppend([x], books[1..], both);
      SelectAppend([x], books[1..], byAuthor);
      SelectOne(x, both);
      SelectOne(x, byAuthor);
      SelectAppend(Select([x], byAuthor), Select(books[1..], byAuthor), byGenre);
      SelectOne(x, byGenre);
      assert Select([], byGenre) == [];
    }
  }

  function Listed(b: Book, reviews: seq<Review>): ListedBook {
    ListedBook(b, Average(Ratings(ReviewsOf(b.id, reviews))))
  }

  function ListBooks(books: seq<Book>, reviews: seq<Review>, author: string, genre: string,
                     pageQ: Option<int>, limitQ: Option<int>): (r: Result<BookPage, CursorError>)
    ensures var page, limit := ParamOr(pageQ, 1), ParamOr(limitQ, 10);
      && (r.Failure? <==> (page - 1) * limit < 0)
      && (r.Success? ==>
            var matching := Select(books, b => PassesFilter(b, author, genre));
            && r.value.currentPage == page
            && r.value.totalBooks == |matching|
            && r.value.totalPages == CeilDiv(|matching|, limit)
            && var w := Window(matching, (page - 1) * limit, Abs(limit));
            && |r.value.books| == |w|
            && forall k :: 0 <= k < |w| ==>
                 && r.value.books[k] == Listed(w[k], reviews)
                 && PassesFilter(w[k], author, genre))
  {
    var page, limit := ParamOr(pageQ, 1), ParamOr(limitQ, 10);
    var matching := Select(books, b => PassesFilter(b, author, genre));
    match PageOf(matching, page, limit)
    case Failure(e) => Failure(e)
    case Success(w) =>
      Success(BookPage(seq(|w|, k requires 0 <= k < |w| => Listed(w[k], reviews)),
                       page, CeilDiv(|matching|, limit), |matching|))
  }

  /** Without author and genre parameters the listing pages through every
      book in collection order. */
  lemma ListWithoutFilters(books: seq<Book>)
    ensures Select(books, b => PassesFilter(b, [], [])) == books
  {
    SelectAll(books, b => PassesFilter(b, [], []));
  }

  // ----- GET `/:id`: one book with a page of its reviews -----

  /** `sort: { createdAt: -1 }`. */
  function NewestFirst(reviews: seq<Review>): (r: seq<Review>)
    ensures multiset(r) == multiset(reviews)
    ensures SortedDesc(r, (x: Review) => x.createdAt)
  {
    SortDesc(reviews, (x: Review) => x.createdAt)
  }

  datatype ReviewsSummary = ReviewsSummary(currentPage: int, totalPages: int, totalReviews: nat)

  /** The response: the book with its populated (paged) reviews, the
      `averageRating` virtual as serialised with it, and the summary. */
  datatype BookDetail = BookDetail(
    book: Book,
    reviews: seq<Review>,
    averageRating: AverageRating,
    summary: ReviewsSummary)

  datatype GetBookError =
    | BookNotFound              // 404
    | GetBookFailed(CursorError) // 500

  /** GET `/:id` as written: `populate` applies `skip` and `limit` to the
      book's reviews, so the `averageRating` virtual and `totalReviews` both see
      only the requested page. */
  function GetBookAsWritten(books: seq<Book>, reviews: seq<Review>, id: BookId,
                            pageQ: Option<int>, limitQ: Option<int>): (r: Result<BookDetail, GetBookError>)
    ensures FindBook(books, id).None? <==> r == Failure(BookNotFound)
    ensures var page, limit := ParamOr(pageQ, 1), ParamOr(limitQ, 10);
      && (FindBook(books, id).Some? ==> (r.Failure? <==> (page - 1) * limit < 0))
      && (r.Success? ==>
            var d := r.value;
            && Some(d.book) == FindBook(books, id)
            && d.reviews == Window(NewestFirst(ReviewsOf(id, reviews)), (page - 1) * limit, Abs(limit))
            && d.averageRating == Average(Ratings(d.reviews))
            && d.summary == ReviewsSummary(page, CeilDiv(|d.reviews|, limit), |d.reviews|))
  {
    var page, limit := ParamOr(pageQ, 1), ParamOr(limitQ, 10);
    match FindBook(books, id)
    case None => Failure(BookNotFound)
    case Some(b) =>
      match PageOf(NewestFirst(ReviewsOf(id, reviews)), page, limit)
      case Failure(e) => Failure(GetBookFailed(e))
      case Success(w) =>
        Success(BookDetail(b, w, Average(Ratings(w)), ReviewsSummary(page, CeilDiv(|w|, limit), |w|)))
  }

  /** What GET `/:id` reports of a book's reviews as written: the page holds
      only reviews of that book, newest first, and `totalReviews` can never
      exceed `limit`, so `totalPages` is never more than 1. */
  lemma GetBookAsWrittenTotals(books: seq<Book>, reviews: seq<Review>, id: BookId,
                               pageQ: Option<int>, limitQ: Option<int>)
    requires ParamOr(limitQ, 10) >= 1
    requires GetBookAsWritten(books, reviews, id, pageQ, limitQ).Success?
    ensures var d := GetBookAsWritten(books, reviews, id, pageQ, limitQ).value;
      && (forall k :: 0 <= k < |d.reviews| ==> d.reviews[k].book == id)
      && SortedDesc(d.reviews, (x: Review) => x.createdAt)
      && d.summary.totalReviews <= ParamOr(limitQ, 10)
      && d.summary.totalPages <= 1
  {
    var d := GetBookAsWritten(books, reviews, id, pageQ, limitQ).value;
    var page, limit := ParamOr(pageQ, 1), ParamOr(limitQ, 10);
    ReviewPageOfBook(reviews, id, (page - 1) * limit, limit);
    CeilDivAtMostOne(|d.reviews|, limit);
  }

  /** A page of a book's reviews, newest first, holds only that book's
      reviews and is itself newest first. */
  lemma ReviewPageOfBook(reviews: seq<Review>, id: BookId, skip: nat, count: nat)
    requires count > 0
    ensures var w := Window(NewestFirst(ReviewsOf(id, reviews)), skip, count);
      && (forall k :: 0 <= k < |w| ==> w[k].book == id)
      && SortedDesc(w, (x: Review) => x.createdAt)
  {
    var all := NewestFirst(ReviewsOf(id, reviews));
    var w := Window(all, skip, count);
    forall k | 0 <= k < |w| ensures w[k].book == id {
      assert w[k] == all[skip + k];
      assert all[skip + k] in multiset(all);
    }
    WindowOfSorted(all, skip, count, (x: Review) => x.createdAt);
  }

  lemma CeilDivAtMostOne(n: nat, limit: int)
    requires 1 <= limit && n <= limit
    ensures CeilDiv(n, limit) <= 1
  {
    var t := CeilDiv(n, limit);
    if t > 1 {
      MulMono(1, t - 1, limit);
    }
  }

  /** A book with an older review rated 1 and a newer one rated 5, asked for
      one review per page: the response claims one review on one page, and
      an average of 5.0 where the book's two ratings average 3.0. */
  lemma GetBookAsWrittenMiscounts(b: Book, older: Review, newer: Review)
    requires older.book == b.id && newer.book == b.id && older.createdAt < newer.createdAt
    requires older.rating == 1 && newer.rating == 5
    ensures GetBookAsWritten([b], [older, newer], b.id, None, Some(1)).Success?
    ensures var d := GetBookAsWritten([b], [older, newer], b.id, None, Some(1)).value;
      && |ReviewsOf(b.id, [older, newer])| == 2
      && d.reviews == [newer]
      && d.summary == ReviewsSummary(1, 1, 1)
      && d.averageRating == OneDecimal(50)
      && Average(Ratings(ReviewsOf(b.id, [older, newer]))) == OneDecimal(30)
  {
    assert FindBook([b], b.id) == Some(b);
    TwoReviewsNewestFirst(older, newer);
    assert Window([newer, older], 0, 1) == [newer];
    assert Ratings([newer]) == [5];
    assert Ratings([older, newer]) == [1, 5];
    TwoAverages();
    assert CeilDiv(1, 1) == 1;
  }

  lemma TwoReviewsNewestFirst(older: Review, newer: Review)
    requires older.book == newer.book && older.createdAt < newer.createdAt
    ensures ReviewsOf(older.book, [older, newer]) == [older, newer]
    ensures NewestFirst([older, newer]) == [newer, older]
  {
    var rs := [older, newer];
    assert rs[1..] == [newer];
    assert ReviewsOf(older.book, [newer]) == [newer];
    var key := (x: Review) => x.createdAt;
    assert SortDesc([newer], key) == [newer];
  }

  lemma TwoAverages()
    ensures Average([5]) == OneDecimal(50)
    ensures Average([1, 5]) == OneDecimal(30)
  {
    assert Sum([1, 5]) == 6 by { assert [1, 5][1..] == [5]; }
  }

  /** GET `/:id` as evidently intended: the page of reviews as before, while
      `averageRating`, `totalReviews` and `totalPages` describe all of the
      book's reviews. */
  function GetBook(books: seq<Book>, reviews: seq<Review>, id: BookId,
                   pageQ: Option<int>, limitQ: Option<int>): (r: Result<BookDetail, GetBookError>)
    ensures FindBook(books, id).None? <==> r == Failure(BookNotFound)
    ensures var page, limit := ParamOr(pageQ, 1), ParamOr(limitQ, 10);
      && (FindBook(books, id).Some? ==> (r.Failure? <==> (page - 1) * limit < 0))
      && (r.Success? ==>
            var d := r.value;
            var all := ReviewsOf(id, reviews);
            && Some(d.book) == FindBook(books, id)
            && d.reviews == Window(NewestFirst(all), (page - 1) * limit, Abs(limit))
            && d.averageRating == Average(Ratings(all))
            && d.summary == ReviewsSummary(page, CeilDiv(|all|, limit), |all|))
  {
    var page, limit := ParamOr(pageQ, 1), ParamOr(limitQ, 10);
    match FindBook(books, id)
    case None => Failure(BookNotFound)
    case Some(b) =>
      var all := ReviewsOf(id, reviews);
      match PageOf(NewestFirst(all), page, limit)
      case Failure(e) => Failure(GetBookFailed(e))
      case Success(w) =>
        Success(BookDetail(b, w, Average(Ratings(all)), ReviewsSummary(page, CeilDiv(|all|, limit), |all|)))
  }

  /** The corrected summary is consistent with its pages: with `limit >= 1`
      pages 1 to `totalPages` together hold every review of the book exactly
      once, newest first, and the average agrees with the one the listing
      shows for that book. */
  lemma GetBookCoversAllReviews(books: seq<Book>, reviews: seq<Review>, id: BookId, limit: nat)
    requires limit >= 1
    requires FindBook(books, id).Some?
    ensures GetBook(books, reviews, id, None, Some(limit)).Success?
    ensures var d := GetBook(books, reviews, id, None, Some(limit)).value;
      && PagesUpTo(NewestFirst(ReviewsOf(id, reviews)), limit, d.summary.totalPages)
           == NewestFirst(ReviewsOf(id, reviews))
      && multiset(PagesUpTo(NewestFirst(ReviewsOf(id, reviews)), limit, d.summary.totalPages))
           == multiset(ReviewsOf(id, reviews))
      && d.averageRating == Listed(d.book, reviews).averageRating
  {
    var mine := ReviewsOf(id, reviews);
    var all := NewestFirst(mine);
    assert |all| == |mine| by {
      assert |multiset(all)| == |multiset(mine)|;
    }
    GetBookFirstPage(books, reviews, id, limit);
    PagesCoverAll(all, limit, 1);
  }

  /** The first page's summary and average, for a book that exists. */
  lemma GetBookFirstPage(books: seq<Book>, reviews: seq<Review>, id: BookId, limit: nat)
    requires limit >= 1
    requires FindBook(books, id).Some?
    ensures var r := GetBook(books, reviews, id, None, Some(limit));
      && r.Success?
      && r.value.book.id == id
      && r.value.summary.totalPages == CeilDiv(|ReviewsOf(id, reviews)|, limit)
      && r.value.averageRating == Average(Ratings(ReviewsOf(id, reviews)))
  {
    assert (1 - 1) * limit == 0;
  }

  // ----- GET `/search` -----

  datatype SearchError =
    | InvalidSearch(fields: seq<Field>) // 400
    | SearchFailed(CursorError)         // 500

  /** A page of a ranking is ranked and holds only ranked items. */
  lemma RankedWindow(s: seq<Book>, skip: nat, count: nat, key: Book -> int)
    requires count > 0
    ensures var w := Window(SortDesc(s, key), skip, count);
      SortedDesc(w, key) && forall k :: 0 <= k < |w| ==> w[k] in s
  {
    var ranked := SortDesc(s, key);
    WindowOfSorted(ranked, skip, count, key);
    var w := Window(ranked, skip, count);
    forall k | 0 <= k < |w| ensures w[k] in s {
      assert w[k] == ranked[skip + k];
      assert ranked[skip + k] in multiset(ranked);
    }
  }

  /** The ranking key for a search term: the text index's relevance. */
  function RankKey(score: (string, Book) -> nat, term: string): Book -> int {
    b => score(term, b)
  }

  /** A book matches a search term when its relevance is positive. */
  function MatchesTerm(score: (string, Book) -> nat, term: string): Book -> bool {
    b => score(term, b) > 0
  }

  /** The search query once `q` has passed validation: the books whose
      relevance to `term` is positive, highest relevance first, paged like
      the listing. The results do not populate reviews, so each one's
      `averageRating` is the getter's 0. */
  function SearchPage(books: seq<Book>, term: string, score: (string, Book) -> nat,
                      page: int, limit: int): (r: Result<BookPage, CursorError>)
    requires limit != 0
    ensures r.Failure? <==> (page - 1) * limit < 0
    ensures r.Success? ==>
      var matching := Select(books, MatchesTerm(score, term));
      && r.value.currentPage == page
      && r.value.totalBooks == |matching|
      && r.value.totalPages == CeilDiv(|matching|, limit)
      && var w := Window(SortDesc(matching, RankKey(score, term)), (page - 1) * limit, Abs(limit));
      && |r.value.books| == |w|
      && forall k :: 0 <= k < |w| ==> r.value.books[k] == ListedBook(w[k], Zero)
  {
    var matching := Select(books, MatchesTerm(score, term));
    match PageOf(SortDesc(matching, RankKey(score, term)), page, limit)
    case Failure(e) => Failure(e)
    case Success(w) =>
      Success(BookPage(seq(|w|, k requires 0 <= k < |w| => ListedBook(w[k], Zero)),
                       page, CeilDiv(|matching|, limit), |matching|))
  }

  /** Every book on a page of search results matches the term, and the page
      is in descending order of relevance. */
  lemma SearchResultsRanked(books: seq<Book>, term: string, score: (string, Book) -> nat,
                            page: int, limit: int)
    requires limit != 0
    requires SearchPage(books, term, score, page, limit).Success?
    ensures var found := SearchPage(books, term, score, page, limit).value.books;
      && (forall k :: 0 <= k < |found| ==> score(term, found[k].book) > 0)
      && (forall i, j :: 0 <= i < j < |found| ==> score(term, found[i].book) >= score(term, found[j].book))
  {
    var matching := Select(books, MatchesTerm(score, term));
    var w := Window(SortDesc(matching, RankKey(score, term)), (page - 1) * limit, Abs(limit));
    var found := SearchPage(books, term, score, page, limit).value.books;
    RankedWindow(matching, (page - 1) * limit, Abs(limit), RankKey(score, term));
    forall k | 0 <= k < |found| ensures score(term, found[k].book) > 0 {
      assert found[k].book == w[k];
      assert MatchesTerm(score, term)(w[k]);
    }
    forall i, j | 0 <= i < j < |found| ensures score(term, found[i].book) >= score(term, found[j].book) {
      assert found[i].book == w[i] && found[j].book == w[j];
      assert RankKey(score, term)(w[i]) >= RankKey(score, term)(w[j]);
    }
  }

  /** GET `/search`: `q` is trimmed by its validator and must not be empty
      (400); then the query runs on the trimmed term, and a cursor failure
      answers 500. */
  function SearchBooks(books: seq<Book>, q: string, score: (string, Book) -> nat,
                       pageQ: Option<int>, limitQ: Option<int>): (r: Result<BookPage, SearchError>)
    ensures Trim(q) == [] <==> r == Failure(InvalidSearch([Query]))
    ensures Trim(q) != [] ==>
      var p := SearchPage(books, Trim(q), score, ParamOr(pageQ, 1), ParamOr(limitQ, 10));
      && (r.Success? <==> p.Success?)
      && (r.Success? ==> r.value == p.value)
      && (p.Failure? ==> r == Failure(SearchFailed(p.error)))
  {
    var term := Trim(q);
    if term == [] then Failure(InvalidSearch([Query]))
    else
      match SearchPage(books, term, score, ParamOr(pageQ, 1), ParamOr(limitQ, 10))
      case Failure(e) => Failure(SearchFailed(e))
      case Success(p) => Success(p)
  }
}
