/** What a MongoDB query cursor does with the parameters the routes give it:
    `sort`, `skip`, `limit`, and the totals derived from a count. The routes
    compute `page`, `limit` and `skip` from the query string with
    `parseInt(x) || default` and `(page - 1) * limit`. */
module Cursor {
  import opened Common

  /** `parseInt(q) || d`: the parsed number, or `d` when the parameter is
      absent or not numeric (`NaN`, here `None`) or parses to 0. */
  function ParamOr(q: Option<int>, d: int): (r: int)
    ensures q.Some? && q.value != 0 ==> r == q.value
    ensures q.None? || q == Some(0) ==> r == d
    ensures d != 0 ==> r != 0
  {
    if q.Some? && q.value != 0 then q.value else d
  }

  function Abs(x: int): nat {
    if x < 0 then -x else x
  }

  function Min(a: int, b: int): int {
    if a < b then a else b
  }

  function Max(a: int, b: int): int {
    if a < b then b else a
  }

  /** `find(filter)`: the documents satisfying `p`, in collection order. */
  function Select<T(!new)>(s: seq<T>, p: T -> bool): (r: seq<T>)
    ensures forall x :: multiset(r)[x] == if p(x) then multiset(s)[x] else 0
    ensures forall k :: 0 <= k < |r| ==> p(r[k]) && r[k] in s
  {
    if s == [] then []
    else
      var rest := Select(s[1..], p);
      assert s == [s[0]] + s[1..];
      assert forall x :: x in rest ==> x in s[1..] by {
        forall x | x in rest ensures x in s[1..] {
          assert x in multiset(rest);
        }
      }
      if p(s[0]) then [s[0]] + rest else rest
  }

  /** A filter every document passes selects the whole collection. */
  lemma {:induction false} SelectAll<T(!new)>(s: seq<T>, p: T -> bool)
    requires forall x :: p(x)
    ensures Select(s, p) == s
  {
    if s != [] {
      SelectAll(s[1..], p);
      assert s == [s[0]] + s[1..];
    }
  }

  /** Selecting from a concatenation selects from each part in turn: with
      `SelectOne`, the matches keep their collection order. */
  lemma {:induction false} SelectAppend<T(!new)>(a: seq<T>, b: seq<T>, p: T -> bool)
    ensures Select(a + b, p) == Select(a, p) + Select(b, p)
    decreases |a|
  {
    if a == [] {
      assert a + b == b;
    } else {
      assert (a + b)[1..] == a[1..] + b;
      SelectAppend(a[1..], b, p);
    }
  }

  /** One document is kept exactly when it passes the filter. */
  lemma SelectOne<T(!new)>(x: T, p: T -> bool)
    ensures Select([x], p) == if p(x) then [x] else []
  {
    assert [x][1..] == [];
  }

  /** `.skip(skip).limit(count)`: at most `count` items starting at position
      `skip`; empty past the end. (A limit of 0, which MongoDB reads as "no
      limit", never reaches a cursor here: `ParamOr` never yields 0.) */
  function Window<T>(s: seq<T>, skip: nat, count: nat): (r: seq<T>)
    requires count > 0
    ensures |r| == Max(0, Min(count, |s| - skip))
    ensures forall k :: 0 <= k < |r| ==> r[k] == s[skip + k]
  {
    if skip >= |s| then [] else s[skip..Min(skip + count, |s|)]
  }

  /** Why a cursor refuses its parameters: MongoDB rejects a negative skip,
      which the route turns into a 500 response. */
  datatype CursorError = NegativeSkip

  /** The page of `s` for route parameters `page` and `limit`: skip
      `(page - 1) * limit` items, then take `limit` of them; a negative limit
      returns `|limit|` items in MongoDB's single batch. */
  function PageOf<T>(s: seq<T>, page: int, limit: int): (r: Result<seq<T>, CursorError>)
    requires limit != 0
    ensures r.Failure? <==> (page - 1) * limit < 0
    ensures r.Success? ==> r.value == Window(s, (page - 1) * limit, Abs(limit))
  {
    var skip := (page - 1) * limit;
    if skip < 0 then Failure(NegativeSkip) else Success(Window(s, skip, Abs(limit)))
  }

  /** `Math.ceil(total / limit)`. */
  function CeilDiv(total: nat, limit: int): (r: int)
    requires limit != 0
    ensures limit > 0 ==> (r - 1) * limit < total <= r * limit
    ensures limit < 0 ==> r * limit <= total < (r - 1) * limit
  {
    if limit > 0 then
      DivBounds(total + limit - 1, limit);
      (total + limit - 1) / limit
    else
      DivBounds(total, -limit);
      -(total / -limit)
  }

  // ----- how the pages of a listing fit together -----

  /** Pages 1..k of `s`, one after the other. */
  function PagesUpTo<T>(s: seq<T>, limit: nat, k: nat): seq<T>
    requires limit > 0
  {
    if k == 0 then [] else PagesUpTo(s, limit, k - 1) + Window(s, (k - 1) * limit, limit)
  }

  /** The first k pages are the first `k * limit` items, no more and no fewer. */
  lemma {:induction false} PagesUpToPrefix<T>(s: seq<T>, limit: nat, k: nat)
    requires limit > 0
    ensures PagesUpTo(s, limit, k) == s[..Min(k * limit, |s|)]
  {
    if k > 0 {
      PagesUpToPrefix(s, limit, k - 1);
      MulSucc(k, limit);
      PrefixThenWindow(s, (k - 1) * limit, limit);
    }
  }

  /** The items before position `a` followed by the window at `a` are the
      items before `a + count`. */
  lemma PrefixThenWindow<T>(s: seq<T>, a: nat, count: nat)
    requires count > 0
    ensures s[..Min(a, |s|)] + Window(s, a, count) == s[..Min(a + count, |s|)]
  {
    if a < |s| {
      var e := Min(a + count, |s|);
      assert s[..a] + s[a..e] == s[..e];
    }
  }

  /** With `page >= 1` and `limit >= 1`, pages 1 to `totalPages` together list
      every matching item exactly once and in order, and every later page is
      empty. */
  lemma {:induction false} PagesCoverAll<T>(s: seq<T>, limit: nat, page: int)
    requires limit > 0
    ensures PagesUpTo(s, limit, CeilDiv(|s|, limit)) == s
    ensures page > CeilDiv(|s|, limit) ==> PageOf(s, page, limit) == Success([])
  {
    var total := CeilDiv(|s|, limit);
    var covered := total * limit;
    assert covered >= |s|;
    PagesUpToPrefix(s, limit, total);
    assert s[..Min(covered, |s|)] == s;
    if page > total {
      MulMono(total, page - 1, limit);
      var skip := (page - 1) * limit;
      assert skip >= |s|;
      assert Window(s, skip, limit) == [];
    }
  }

  /** Every page before the last is full, and the last one holds the rest. */
  lemma {:induction false} PageSizes<T>(s: seq<T>, limit: nat, page: int)
    requires limit > 0 && 1 <= page <= CeilDiv(|s|, limit)
    ensures PageOf(s, page, limit).Success?
    ensures page < CeilDiv(|s|, limit) ==> |PageOf(s, page, limit).value| == limit
    ensures page == CeilDiv(|s|, limit) ==> |PageOf(s, page, limit).value| == |s| - (page - 1) * limit > 0
  {
    var total := CeilDiv(|s|, limit);
    var skip := (page - 1) * limit;
    assert skip + limit == page * limit;
    if page < total {
      MulMono(page, total - 1, limit);
    } else {
      assert skip == (total - 1) * limit;
    }
  }

  /** 25 items at 10 per page: three pages of 10, 10 and 5, then nothing. */
  lemma PagingExample<T>(s: seq<T>)
    requires |s| == 25
    ensures CeilDiv(25, 10) == 3
    ensures |PageOf(s, 1, 10).value| == 10 && |PageOf(s, 2, 10).value| == 10
    ensures |PageOf(s, 3, 10).value| == 5 && PageOf(s, 4, 10) == Success([])
  {
  }

  // ----- `.sort({ key: -1 })` -----

  /** Ordered by `key`, largest first. */
  predicate SortedDesc<T>(s: seq<T>, key: T -> int) {
    forall i, j :: 0 <= i < j < |s| ==> key(s[i]) >= key(s[j])
  }

  /** Putting a key no smaller than every key of a sorted sequence in front
      keeps it sorted. */
  lemma SortedCons<T>(y: T, t: seq<T>, key: T -> int)
    requires SortedDesc(t, key)
    requires forall j :: 0 <= j < |t| ==> key(y) >= key(t[j])
    ensures SortedDesc([y] + t, key)
  {
    var r := [y] + t;
    forall i, j | 0 <= i < j < |r| ensures key(r[i]) >= key(r[j]) {
      assert r[j] == t[j - 1];
      if i > 0 { assert r[i] == t[i - 1]; }
    }
  }

  /** A window of a sorted sequence is sorted. */
  lemma WindowOfSorted<T>(s: seq<T>, skip: nat, count: nat, key: T -> int)
    requires count > 0 && SortedDesc(s, key)
    ensures SortedDesc(Window(s, skip, count), key)
  {
    var w := Window(s, skip, count);
    forall i, j | 0 <= i < j < |w| ensures key(w[i]) >= key(w[j]) {
      assert w[i] == s[skip + i] && w[j] == s[skip + j];
    }
  }

  function Insert<T>(x: T, s: seq<T>, key: T -> int): (r: seq<T>)
    requires SortedDesc(s, key)
    ensures multiset(r) == multiset(s) + multiset{x}
    ensures SortedDesc(r, key)
  {
    if s == [] || key(x) >= key(s[0]) then
      SortedCons(x, s, key);
      [x] + s
    else
      var t := Insert(x, s[1..], key);
      assert s == [s[0]] + s[1..];
      forall j | 0 <= j < |t| ensures key(s[0]) >= key(t[j]) {
        assert t[j] in multiset(t);
        if t[j] != x {
          assert t[j] in multiset(s[1..]);
          var m :| 0 <= m < |s[1..]| && s[1..][m] == t[j];
          assert s[m + 1] == t[j];
        }
      }
      SortedCons(s[0], t, key);
      [s[0]] + t
  }

  /** The items of `s` in descending `key` order: a permutation of `s` that
      is sorted. */
  function SortDesc<T>(s: seq<T>, key: T -> int): (r: seq<T>)
    ensures multiset(r) == multiset(s)
    ensures SortedDesc(r, key)
  {
    if s == [] then []
    else
      assert s == [s[0]] + s[1..];
      Insert(s[0], SortDesc(s[1..], key), key)
  }
}
