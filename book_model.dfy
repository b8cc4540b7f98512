/** The Book schema with its two derived values: the `reviews` relation
    (every Review whose `book` is the book's id) and `averageRating`, a fold
    over those reviews' ratings. Collections are sequences in insertion order,
    each record carrying its own id. */
module BookModel {
  import opened Common
  import opened Text

  type BookId = nat
  type ReviewId = nat
  type UserId = nat

  datatype Book = Book(
    id: BookId,
    title: string,
    author: string,
    genre: string,
    description: string,
    publishedYear: Option<int>,
    isbn: Option<string>)

  /** A stored review. The review schema file is not part of this model; the
      fields are the ones the routes read and write. `createdAt` stands for the
      automatic creation timestamp: a counter that grows with every insertion. */
  datatype Review = Review(
    id: ReviewId,
    book: BookId,
    user: UserId,
    rating: int,
    comment: string,
    createdAt: nat)

  /** The required text fields are present (non-empty) and stored trimmed. */
  predicate WellFormed(b: Book) {
    && b.title != [] && IsTrimmed(b.title)
    && b.author != [] && IsTrimmed(b.author)
    && b.genre != [] && IsTrimmed(b.genre)
    && b.description != [] && IsTrimmed(b.description)
  }

  /** `findById` on the book collection. */
  function FindBook(books: seq<Book>, id: BookId): (r: Option<Book>)
    ensures r.Some? ==> r.value in books && r.value.id == id
    ensures r.None? ==> forall i :: 0 <= i < |books| ==> books[i].id != id
  {
    if books == [] then None
    else if books[0].id == id then Some(books[0])
    else FindBook(books[1..], id)
  }

  // ----- the `reviews` virtual: localField `_id`, foreignField `book` -----

  /** The reviews of book `id`, in table order. */
  function ReviewsOf(id: BookId, reviews: seq<Review>): (r: seq<Review>)
    ensures forall x :: multiset(r)[x] == if x.book == id then multiset(reviews)[x] else 0
  {
    if reviews == [] then []
    else
      var rest := ReviewsOf(id, reviews[1..]);
      assert reviews == [reviews[0]] + reviews[1..];
      if reviews[0].book == id then [reviews[0]] + rest else rest
  }

  /** The relation is exactly "the Review records whose `book` is the id". */
  lemma ReviewsOfMembership(id: BookId, reviews: seq<Review>, x: Review)
    ensures x in ReviewsOf(id, reviews) <==> x in reviews && x.book == id
  {
    assert x in ReviewsOf(id, reviews) <==> multiset(ReviewsOf(id, reviews))[x] > 0;
    assert x in reviews <==> multiset(reviews)[x] > 0;
  }

  function Ratings(reviews: seq<Review>): (r: seq<int>)
    ensures |r| == |reviews|
    ensures forall i :: 0 <= i < |r| ==> r[i] == reviews[i].rating
  {
    seq(|reviews|, i requires 0 <= i < |reviews| => reviews[i].rating)
  }

  // ----- averageRating: `reduce((acc, r) => acc + r.rating, 0)`, divided, `toFixed(1)` -----

  function Sum(xs: seq<int>): int {
    if xs == [] then 0 else xs[0] + Sum(xs[1..])
  }

  lemma {:induction false} SumAppend(xs: seq<int>, ys: seq<int>)
    ensures Sum(xs + ys) == Sum(xs) + Sum(ys)
  {
    if xs == [] {
      assert xs + ys == ys;
    } else {
      assert (xs + ys)[1..] == xs[1..] + ys;
      SumAppend(xs[1..], ys);
    }
  }

  /** Taking one element out of a sequence takes its value out of the sum and
      one occurrence out of the multiset. */
  lemma {:induction false} RemoveAt(ys: seq<int>, j: nat)
    requires j < |ys|
    ensures Sum(ys) == ys[j] + Sum(ys[..j] + ys[j + 1..])
    ensures multiset(ys[..j] + ys[j + 1..]) == multiset(ys) - multiset{ys[j]}
  {
    var a, x, b := ys[..j], ys[j], ys[j + 1..];
    assert ys == a + [x] + b;
    SumAppend(a + [x], b);
    SumAppend(a, [x]);
    SumAppend(a, b);
    assert Sum([x]) == x + Sum([]);
  }

  /** The sum is a function of the multiset of ratings: the fold's order
      does not matter. */
  lemma {:induction false} SumPermutation(xs: seq<int>, ys: seq<int>)
    requires multiset(xs) == multiset(ys)
    ensures Sum(xs) == Sum(ys)
  {
    if xs == [] {
      assert |ys| == |multiset(ys)| == 0;
    } else {
      assert xs[0] in multiset(ys);
      var j :| 0 <= j < |ys| && ys[j] == xs[0];
      RemoveAt(ys, j);
      assert xs == [xs[0]] + xs[1..];
      assert multiset(xs[1..]) == multiset(xs) - multiset{xs[0]};
      SumPermutation(xs[1..], ys[..j] + ys[j + 1..]);
    }
  }

  /** Every rating lies in `lo..hi`, so the sum lies in `n*lo..n*hi`. */
  lemma {:induction false} SumBounds(xs: seq<int>, lo: int, hi: int)
    requires forall i :: 0 <= i < |xs| ==> lo <= xs[i] <= hi
    ensures |xs| * lo <= Sum(xs) <= |xs| * hi
  {
    if xs != [] {
      SumBounds(xs[1..], lo, hi);
    }
  }

  /** The getter's value: the number 0 when the book has no reviews, otherwise
      a string with one decimal, kept here as a count of tenths. */
  datatype AverageRating = Zero | OneDecimal(tenths: int)

  /** `t` tenths is the one-decimal rounding of `sum / n`: the nearest tenth,
      and on a tie the one further from zero (as `toFixed` does on an exact
      value). */
  predicate RoundsTo(sum: int, n: nat, t: int) {
    n > 0 &&
    if sum >= 0 then (2 * t - 1) * n <= 20 * sum < (2 * t + 1) * n
    else (2 * t - 1) * n < 20 * sum <= (2 * t + 1) * n
  }

  function Average(ratings: seq<int>): (a: AverageRating)
    ensures a == Zero <==> ratings == []
    ensures a.OneDecimal? ==> RoundsTo(Sum(ratings), |ratings|, a.tenths)
  {
    if ratings == [] then Zero
    else
      var n, s := |ratings|, Sum(ratings);
      if s >= 0 then
        DivBounds(20 * s + n, 2 * n);
        OneDecimal((20 * s + n) / (2 * n))
      else
        DivBounds(n - 20 * s, 2 * n);
        OneDecimal(-((n - 20 * s) / (2 * n)))
  }

  /** The average is a function of the multiset of ratings. */
  lemma AverageOrderIndependent(xs: seq<int>, ys: seq<int>)
    requires multiset(xs) == multiset(ys)
    ensures Average(xs) == Average(ys)
  {
    assert |xs| == |multiset(xs)| == |multiset(ys)| == |ys|;
    SumPermutation(xs, ys);
  }

  /** With every rating an integer from 1 to 5, a book with reviews averages
      between 1.0 and 5.0. */
  lemma AverageBounds(ratings: seq<int>)
    requires ratings != []
    requires forall i :: 0 <= i < |ratings| ==> 1 <= ratings[i] <= 5
    ensures 10 <= Average(ratings).tenths <= 50
  {
    SumBounds(ratings, 1, 5);
    TenthsBounds(Sum(ratings), |ratings|, Average(ratings).tenths);
  }

  lemma TenthsBounds(s: int, n: nat, t: int)
    requires n > 0 && n <= s <= 5 * n
    requires RoundsTo(s, n, t)
    ensures 10 <= t <= 50
  {
    if t < 10 {
      MulMono(2 * t + 1, 19, n);
      assert false;
    }
    if t > 50 {
      MulMono(101, 2 * t - 1, n);
      assert false;
    }
  }

  function DigitChar(d: nat): (c: char)
    requires d < 10
    ensures IsDigit(c) && DigitValue(c) == d
  {
    ('0' as int + d) as char
  }

  predicate IsDigit(c: char) {
    '0' <= c <= '9'
  }

  function DigitValue(c: char): int {
    c as int - '0' as int
  }

  /** Reads a string of decimal digits back as a number, most significant
      digit first. */
  function ReadDigits(s: string): int {
    if s == [] then 0 else ReadDigits(s[..|s| - 1]) * 10 + DigitValue(s[|s| - 1])
  }

  /** Decimal digits of `n`, no leading zeros; reading them back gives `n`. */
  function Digits(n: nat): (r: string)
    ensures r != [] && (r[0] != '0' || n == 0)
    ensures forall i :: 0 <= i < |r| ==> IsDigit(r[i])
    ensures ReadDigits(r) == n
    decreases n
  {
    if n < 10 then
      assert [DigitChar(n)][..0] == [];
      [DigitChar(n)]
    else
      var front := Digits(n / 10);
      var r := front + [DigitChar(n % 10)];
      assert r[..|r| - 1] == front;
      r
  }

  /** The text of a number with one decimal: digits, a point, one digit. */
  predicate DecimalText(s: string) {
    && |s| >= 3 && s[|s| - 2] == '.'
    && forall i :: 0 <= i < |s| && i != |s| - 2 ==> IsDigit(s[i])
  }

  /** No leading zero before the point: the whole part is "0" or starts
      with a non-zero digit. */
  predicate NoLeadingZero(s: string)
    requires DecimalText(s)
  {
    s[0] != '0' || s[1] == '.'
  }

  /** Reads such a text back as a count of tenths. */
  function TenthsOf(s: string): int
    requires DecimalText(s)
  {
    ReadDigits(s[..|s| - 2]) * 10 + DigitValue(s[|s| - 1])
  }

  /** The serialised value: `0` for no reviews, else `toFixed(1)`'s text,
      which reads back as the average's tenths. */
  function Render(a: AverageRating): (r: string)
    ensures a == Zero ==> r == "0"
    ensures a.OneDecimal? && a.tenths >= 0 ==>
      DecimalText(r) && NoLeadingZero(r) && TenthsOf(r) == a.tenths
    ensures a.OneDecimal? && a.tenths < 0 ==>
      r != [] && r[0] == '-' && DecimalText(r[1..]) && NoLeadingZero(r[1..]) && TenthsOf(r[1..]) == -a.tenths
  {
    match a
    case Zero => "0"
    case OneDecimal(t) =>
      var m := if t < 0 then -t else t;
      var whole := Digits(m / 10);
      var text := whole + "." + [DigitChar(m % 10)];
      assert text[..|text| - 2] == whole;
      assert whole[0] == '0' ==> |whole| == 1 by {
        if whole[0] == '0' {
          assert m / 10 == 0;
        }
      }
      if t < 0 then
        assert ("-" + text)[1..] == text;
        "-" + text
      else text
  }

  /** The first digit never outweighs the number it starts. */
  lemma {:induction false} ReadDigitsAtLeastFirst(s: string)
    requires s != [] && forall i :: 0 <= i < |s| ==> IsDigit(s[i])
    ensures ReadDigits(s) >= DigitValue(s[0])
    decreases |s|
  {
    var front := s[..|s| - 1];
    if front != [] {
      ReadDigitsAtLeastFirst(front);
    }
  }

  /** `Digits` is the only way to write a number: any digit string without a
      leading zero is `Digits` of the number it reads as. */
  lemma {:induction false} DigitsCanonical(s: string, n: nat)
    requires s != [] && forall i :: 0 <= i < |s| ==> IsDigit(s[i])
    requires s[0] != '0' || |s| == 1
    requires ReadDigits(s) == n
    ensures s == Digits(n)
    decreases |s|
  {
    var front, c := s[..|s| - 1], s[|s| - 1];
    if front == [] {
      assert s == [c];
      assert DigitChar(DigitValue(c)) == c;
    } else {
      assert front[0] == s[0] && s[0] != '0';
      ReadDigitsAtLeastFirst(front);
      DigitsCanonical(front, ReadDigits(front));
      assert n / 10 == ReadDigits(front) && n % 10 == DigitValue(c);
      assert DigitChar(DigitValue(c)) == c;
      assert s == front + [c];
    }
  }

  /** The rendered text of a non-negative average is the only text of its
      shape that reads back as its tenths. */
  lemma RenderCanonical(s: string, t: int)
    requires t >= 0 && DecimalText(s) && NoLeadingZero(s) && TenthsOf(s) == t
    ensures s == Render(OneDecimal(t))
  {
    var whole := s[..|s| - 2];
    assert whole[0] == s[0];
    assert whole[0] == '0' ==> |whole| == 1;
    var v := DigitValue(s[|s| - 1]);
    assert t / 10 == ReadDigits(whole) && t % 10 == v;
    DigitsCanonical(whole, t / 10);
    assert DigitChar(v) == s[|s| - 1];
    assert s == whole + "." + [s[|s| - 1]];
  }

  lemma AverageExamples()
    ensures Render(Average([])) == "0"
    ensures Average([4, 5]) == OneDecimal(45) && Render(Average([4, 5])) == "4.5"
    ensures Average([3]) == OneDecimal(30) && Render(Average([3])) == "3.0"
  {
    assert Sum([4, 5]) == 9 by { assert [4, 5][1..] == [5]; }
  }

  // ----- isbn: `unique` and `sparse` -----

  /** Another book already holds this isbn. A missing isbn is never held:
      the sparse index leaves documents without the field out. */
  predicate IsbnTaken(books: seq<Book>, isbn: Option<string>) {
    isbn.Some? && exists i :: 0 <= i < |books| && books[i].isbn == isbn
  }

  /** No two books share a present isbn. */
  ghost predicate IsbnUnique(books: seq<Book>) {
    forall i, j :: 0 <= i < j < |books| && books[i].isbn.Some? ==> books[i].isbn != books[j].isbn
  }

  /** Adding a book whose isbn is not taken keeps isbns unique; in particular
      a book without isbn can always be added. */
  lemma AddKeepsIsbnUnique(books: seq<Book>, b: Book)
    requires IsbnUnique(books)
    ensures !IsbnTaken(books, b.isbn) ==> IsbnUnique(books + [b])
    ensures b.isbn.None? ==> IsbnUnique(books + [b])
  {
    if !IsbnTaken(books, b.isbn) {
      var s := books + [b];
      forall i, j | 0 <= i < j < |s| && s[i].isbn.Some? ensures s[i].isbn != s[j].isbn {
        if j == |books| { assert s[i] == books[i]; }
      }
    }
  }
}
