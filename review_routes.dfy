/** The review routes: the `validateReview` rules and the create, update and
    delete handlers, each a fixed sequence of guards followed by one change to
    the review collection. The caller's identity is a plain input. */
module ReviewRoutes {
  import opened Common
  import opened Text
  import opened BookModel

  // ----- validateReview -----

  /** `rating` must be an integer from 1 to 5. */
  predicate RatingAccepted(rating: NumField) {
    rating.Int? && 1 <= rating.n <= 5
  }

  /** Every failing rule is reported, rating first. */
  function ValidateReview(rating: NumField, comment: string): (errs: seq<Field>)
    ensures Rating in errs <==> !RatingAccepted(rating)
    ensures Comment in errs <==> Trim(comment) == []
    ensures forall f :: f in errs ==> f == Rating || f == Comment
    ensures |errs| == Count(!RatingAccepted(rating)) + Count(Trim(comment) == [])
  {
    Report(!RatingAccepted(rating), Rating) + Report(Trim(comment) == [], Comment)
  }

  datatype ReviewError =
    | InvalidReview(fields: seq<Field>) // 400 with the list of failed fields
    | BookNotFound                      // 404
    | AlreadyReviewed                   // 400
    | ReviewNotFound                    // 404
    | NotOwner                          // 403

  // ----- the review table -----

  /** `Review.findOne({ book, user })` finds something. */
  function Reviewed(reviews: seq<Review>, book: BookId, user: UserId): (b: bool)
    ensures b <==> exists k :: 0 <= k < |reviews| && reviews[k].book == book && reviews[k].user == user
  {
    if reviews == [] then false
    else if reviews[0].book == book && reviews[0].user == user then true
    else
      var b := Reviewed(reviews[1..], book, user);
      assert forall k :: 0 < k < |reviews| ==> reviews[k] == reviews[1..][k - 1];
      assert b ==> exists k :: 0 < k < |reviews| && reviews[k].book == book && reviews[k].user == user by {
        if b {
          var j :| 0 <= j < |reviews[1..]| && reviews[1..][j].book == book && reviews[1..][j].user == user;
          assert reviews[j + 1] == reviews[1..][j];
        }
      }
      b
  }

  /** `Review.findById`: the position of the review with this id. */
  function IndexOfId(reviews: seq<Review>, id: ReviewId): (r: Option<nat>)
    ensures r.Some? ==> r.value < |reviews| && reviews[r.value].id == id
    ensures r.None? ==> forall k :: 0 <= k < |reviews| ==> reviews[k].id != id
  {
    if reviews == [] then None
    else if reviews[0].id == id then Some(0)
    else
      match IndexOfId(reviews[1..], id)
      case None => None
      case Some(i) => Some(i + 1)
  }

  /** What a stored review's fields satisfy: the validated rating and the
      trimmed, non-empty comment. */
  predicate StoredReview(r: Review) {
    1 <= r.rating <= 5 && r.comment != [] && IsTrimmed(r.comment)
  }

  /** At most one review per (book, user) pair. */
  ghost predicate OneReviewPerUser(reviews: seq<Review>) {
    forall i, j :: 0 <= i < j < |reviews| ==>
      reviews[i].book != reviews[j].book || reviews[i].user != reviews[j].user
  }

  /** The table's invariant. One counter names each new review and stamps its
      creation, so ids and creation times rise along the table. */
  ghost predicate ReviewTable(reviews: seq<Review>, nextId: nat) {
    && (forall k :: 0 <= k < |reviews| ==>
          && StoredReview(reviews[k])
          && reviews[k].id < nextId
          && reviews[k].createdAt == reviews[k].id)
    && (forall i, j :: 0 <= i < j < |reviews| ==> reviews[i].id < reviews[j].id)
    && OneReviewPerUser(reviews)
  }

  lemma AppendKeepsTable(reviews: seq<Review>, nextId: nat, r: Review)
    requires ReviewTable(reviews, nextId)
    requires StoredReview(r) && r.id == nextId && r.createdAt == nextId
    requires !Reviewed(reviews, r.book, r.user)
    ensures ReviewTable(reviews + [r], nextId + 1)
  {
    var s := reviews + [r];
    forall i, j | 0 <= i < j < |s|
      ensures s[i].book != s[j].book || s[i].user != s[j].user
    {
      if j == |reviews| {
        assert s[i] == reviews[i];
      }
    }
  }

  lemma UpdateKeepsTable(reviews: seq<Review>, nextId: nat, i: nat, rating: int, comment: string)
    requires ReviewTable(reviews, nextId) && i < |reviews|
    requires 1 <= rating <= 5 && comment != [] && IsTrimmed(comment)
    ensures ReviewTable(reviews[i := reviews[i].(rating := rating, comment := comment)], nextId)
  {
  }

  lemma RemoveKeepsTable(reviews: seq<Review>, nextId: nat, i: nat)
    requires ReviewTable(reviews, nextId) && i < |reviews|
    ensures ReviewTable(reviews[..i] + reviews[i + 1..], nextId)
  {
    var s := reviews[..i] + reviews[i + 1..];
    assert forall k :: 0 <= k < |s| ==> s[k] == reviews[if k < i then k else k + 1];
  }

  // ----- what each change does to a book's aggregate -----

  /** An appended review joins its own book's reviews, at the end, and no
      other book's. */
  lemma {:induction false} ReviewsOfAppend(id: BookId, reviews: seq<Review>, r: Review)
    ensures ReviewsOf(id, reviews + [r]) == ReviewsOf(id, reviews) + (if r.book == id then [r] else [])
    decreases |reviews|
  {
    if reviews == [] {
      assert [] + [r] == [r];
    } else {
      assert (reviews + [r])[1..] == reviews[1..] + [r];
      ReviewsOfAppend(id, reviews[1..], r);
    }
  }

  /** Removing one element of a sequence removes it from the multiset. */
  lemma MultisetRemove(s: seq<Review>, i: nat)
    requires i < |s|
    ensures multiset(s[..i] + s[i + 1..]) == multiset(s) - multiset{s[i]}
  {
    assert s == s[..i] + [s[i]] + s[i + 1..];
  }

  /** How often `x` occurs among a book's reviews. */
  lemma ReviewsOfCount(id: BookId, reviews: seq<Review>, x: Review)
    ensures multiset(ReviewsOf(id, reviews))[x] == if x.book == id then multiset(reviews)[x] else 0
  {
  }

  /** Removing one review takes it out of its own book's reviews and
      leaves every other book's as they were. */
  lemma ReviewsOfRemove(id: BookId, reviews: seq<Review>, i: nat)
    requires i < |reviews|
    ensures multiset(ReviewsOf(id, reviews[..i] + reviews[i + 1..]))
            == multiset(ReviewsOf(id, reviews)) - (if reviews[i].book == id then multiset{reviews[i]} else multiset{})
  {
    var rest := reviews[..i] + reviews[i + 1..];
    var gone := if reviews[i].book == id then multiset{reviews[i]} else multiset{};
    var before, after := multiset(ReviewsOf(id, reviews)), multiset(ReviewsOf(id, rest));
    MultisetRemove(reviews, i);
    forall x ensures after[x] == (before - gone)[x] {
      ReviewsOfCount(id, reviews, x);
      ReviewsOfCount(id, rest, x);
      if x == reviews[i] {
        assert multiset(reviews)[x] >= 1;
      }
    }
  }

  /** Replacing one element of a sequence swaps it in the multiset. */
  lemma MultisetUpdate(s: seq<Review>, i: nat, v: Review)
    requires i < |s|
    ensures multiset(s[i := v]) == multiset(s) - multiset{s[i]} + multiset{v}
  {
    assert s == s[..i] + [s[i]] + s[i + 1..];
    assert s[i := v] == s[..i] + [v] + s[i + 1..];
  }

  /** Replacing one review's rating and comment swaps it within its own
      book's reviews and leaves every other book's as they were. */
  lemma ReviewsOfReplace(id: BookId, reviews: seq<Review>, i: nat, r: Review)
    requires i < |reviews| && r.book == reviews[i].book
    ensures multiset(ReviewsOf(id, reviews[i := r]))
            == if r.book == id then multiset(ReviewsOf(id, reviews)) - multiset{reviews[i]} + multiset{r}
               else multiset(ReviewsOf(id, reviews))
  {
    var t := reviews[i := r];
    var before, after := multiset(ReviewsOf(id, reviews)), multiset(ReviewsOf(id, t));
    MultisetUpdate(reviews, i, r);
    if r.book == id {
      forall x ensures after[x] == (before - multiset{reviews[i]} + multiset{r})[x] {
        ReviewsOfCount(id, reviews, x);
        ReviewsOfCount(id, t, x);
        if x == reviews[i] {
          assert multiset(reviews)[x] >= 1;
        }
      }
    } else {
      forall x ensures after[x] == before[x] {
        ReviewsOfCount(id, reviews, x);
        ReviewsOfCount(id, t, x);
      }
    }
  }

  /** Every stored rating passed `validateReview`, so a book with reviews has
      an average from 1.0 to 5.0. */
  lemma StoredAverageInRange(reviews: seq<Review>, nextId: nat, id: BookId)
    requires ReviewTable(reviews, nextId)
    requires ReviewsOf(id, reviews) != []
    ensures 10 <= Average(Ratings(ReviewsOf(id, reviews))).tenths <= 50
  {
    var mine := ReviewsOf(id, reviews);
    forall k | 0 <= k < |mine| ensures 1 <= Ratings(mine)[k] <= 5 {
      ReviewsOfMembership(id, reviews, mine[k]);
      var j :| 0 <= j < |reviews| && reviews[j] == mine[k];
      assert StoredReview(reviews[j]);
    }
    AverageBounds(Ratings(mine));
  }

  /** A book's reviews carry distinct users. */
  lemma OneReviewPerUserPerBook(reviews: seq<Review>, nextId: nat, id: BookId, x: Review, y: Review)
    requires ReviewTable(reviews, nextId)
    requires x in ReviewsOf(id, reviews) && y in ReviewsOf(id, reviews)
    requires x.user == y.user
    ensures x == y
  {
    ReviewsOfMembership(id, reviews, x);
    ReviewsOfMembership(id, reviews, y);
    var i :| 0 <= i < |reviews| && reviews[i] == x;
    var j :| 0 <= j < |reviews| && reviews[j] == y;
    if i < j {
      assert reviews[i].book == reviews[j].book;
    } else if j < i {
      assert reviews[j].book == reviews[i].book;
    }
  }

  class ReviewStore {
    var reviews: seq<Review>
    var nextId: ReviewId

    ghost predicate Valid()
      reads this
    {
      ReviewTable(reviews, nextId)
    }

    constructor ()
      ensures Valid() && reviews == []
    {
      reviews := [];
      nextId := 0;
    }

    /** POST `/books/:id/reviews`: validation (400), then the book must exist
        (404), then the caller must not have reviewed it yet (400); only then
        is one review appended. */
    method CreateReview(books: seq<Book>, bookId: BookId, caller: UserId, rating: NumField, comment: string)
      returns (res: Result<Review, ReviewError>)
      requires Valid()
      modifies this
      ensures Valid()
      ensures ValidateReview(rating, comment) != [] ==>
                res == Failure(InvalidReview(ValidateReview(rating, comment)))
      ensures ValidateReview(rating, comment) == [] && FindBook(books, bookId).None? ==>
                res == Failure(BookNotFound)
      ensures (ValidateReview(rating, comment) == [] && FindBook(books, bookId).Some?
               && Reviewed(old(reviews), bookId, caller)) ==> res == Failure(AlreadyReviewed)
      ensures res.Failure? ==> reviews == old(reviews) && nextId == old(nextId)
      ensures res.Success? <==>
                ValidateReview(rating, comment) == [] && FindBook(books, bookId).Some?
                && !Reviewed(old(reviews), bookId, caller)
      ensures res.Success? ==>
                && ValidateReview(rating, comment) == []
                && FindBook(books, bookId).Some?
                && !Reviewed(old(reviews), bookId, caller)
                && res.value == Review(old(nextId), bookId, caller, rating.n, Trim(comment), old(nextId))
                && reviews == old(reviews) + [res.value]
                && nextId == old(nextId) + 1
    {
      var errs := ValidateReview(rating, comment);
      if errs != [] {
        return Failure(InvalidReview(errs));
      }
      assert RatingAccepted(rating) && Trim(comment) != [] by {
        assert Rating !in errs && Comment !in errs;
      }
      if FindBook(books, bookId).None? {
        return Failure(BookNotFound);
      }
      if Reviewed(reviews, bookId, caller) {
        return Failure(AlreadyReviewed);
      }
      var r := Review(nextId, bookId, caller, rating.n, Trim(comment), nextId);
      AppendKeepsTable(reviews, nextId, r);
      reviews := reviews + [r];
      nextId := nextId + 1;
      res := Success(r);
    }

    /** PUT `/:id`: validation (400), then the review must exist (404), then
        the caller must own it (403); only then are its rating and comment
        replaced. */
    method UpdateReview(id: ReviewId, caller: UserId, rating: NumField, comment: string)
      returns (res: Result<Review, ReviewError>)
      requires Valid()
      modifies this
      ensures Valid()
      ensures nextId == old(nextId)
      ensures ValidateReview(rating, comment) != [] ==>
                res == Failure(InvalidReview(ValidateReview(rating, comment)))
      ensures ValidateReview(rating, comment) == [] && IndexOfId(old(reviews), id).None? ==>
                res == Failure(ReviewNotFound)
      ensures (ValidateReview(rating, comment) == [] && IndexOfId(old(reviews), id).Some?
               && old(reviews)[IndexOfId(old(reviews), id).value].user != caller) ==>
                res == Failure(NotOwner)
      ensures res.Failure? ==> reviews == old(reviews)
      ensures res.Success? <==>
                ValidateReview(rating, comment) == [] && IndexOfId(old(reviews), id).Some?
                && old(reviews)[IndexOfId(old(reviews), id).value].user == caller
      ensures res.Success? ==>
                && ValidateReview(rating, comment) == []
                && IndexOfId(old(reviews), id).Some?
                && var i := IndexOfId(old(reviews), id).value;
                && old(reviews)[i].user == caller
                && res.value == old(reviews)[i].(rating := rating.n, comment := Trim(comment))
                && reviews == old(reviews)[i := res.value]
    {
      var errs := ValidateReview(rating, comment);
      if errs != [] {
        return Failure(InvalidReview(errs));
      }
      assert RatingAccepted(rating) && Trim(comment) != [] by {
        assert Rating !in errs && Comment !in errs;
      }
      var found := IndexOfId(reviews, id);
      if found.None? {
        return Failure(ReviewNotFound);
      }
      var i := found.value;
      if reviews[i].user != caller {
        return Failure(NotOwner);
      }
      var r := reviews[i].(rating := rating.n, comment := Trim(comment));
      UpdateKeepsTable(reviews, nextId, i, rating.n, Trim(comment));
      reviews := reviews[i := r];
      res := Success(r);
    }

    /** DELETE `/:id`: the review must exist (404) and the caller must own it
        (403); only then is exactly that review removed. The success value
        is the removed record, not the response body, which is only the
        fixed message "Review deleted successfully". */
    method DeleteReview(id: ReviewId, caller: UserId) returns (res: Result<Review, ReviewError>)
      requires Valid()
      modifies this
      ensures Valid()
      ensures nextId == old(nextId)
      ensures IndexOfId(old(reviews), id).None? ==> res == Failure(ReviewNotFound)
      ensures (IndexOfId(old(reviews), id).Some?
               && old(reviews)[IndexOfId(old(reviews), id).value].user != caller) ==>
                res == Failure(NotOwner)
      ensures res.Failure? ==> reviews == old(reviews)
      ensures res.Success? <==>
                IndexOfId(old(reviews), id).Some? && old(reviews)[IndexOfId(old(reviews), id).value].user == caller
      ensures res.Success? ==>
                && IndexOfId(old(reviews), id).Some?
                && var i := IndexOfId(old(reviews), id).value;
                && old(reviews)[i].user == caller
                && res.value == old(reviews)[i]
                && reviews == old(reviews)[..i] + old(reviews)[i + 1..]
    {
      var found := IndexOfId(reviews, id);
      if found.None? {
        return Failure(ReviewNotFound);
      }
      var i := found.value;
      if reviews[i].user != caller {
        return Failure(NotOwner);
      }
      res := Success(reviews[i]);
      RemoveKeepsTable(reviews, nextId, i);
      reviews := reviews[..i] + reviews[i + 1..];
    }
  }
}
