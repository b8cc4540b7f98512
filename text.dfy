/** String handling done by the request validators: `trim()` (which strips the
    characters of JavaScript's `\s` class at both ends) and the
    case-insensitive pattern match used by the author and genre filters. */
module Text {

  /** JavaScript white space and line terminators: the `\s` class. */
  predicate IsSpace(c: char) {
    var n := c as int;
    n == 0x20 || 0x09 <= n <= 0x0D || n == 0xA0 || n == 0x1680 || 0x2000 <= n <= 0x200A
    || n == 0x2028 || n == 0x2029 || n == 0x202F || n == 0x205F || n == 0x3000 || n == 0xFEFF
  }

  /** A string with no white space at either end. */
  predicate IsTrimmed(s: string) {
    s == [] || (!IsSpace(s[0]) && !IsSpace(s[|s| - 1]))
  }

  predicate AllSpace(s: string) {
    forall i :: 0 <= i < |s| ==> IsSpace(s[i])
  }

  /** Strips leading white space: the result is the longest suffix of `s`
      that does not start with white space. */
  function TrimStart(s: string): (r: string)
    ensures |r| <= |s| && r == s[|s| - |r|..]
    ensures AllSpace(s[..|s| - |r|])
    ensures r == [] || !IsSpace(r[0])
  {
    if |s| > 0 && IsSpace(s[0]) then
      var r := TrimStart(s[1..]);
      assert s[..|s| - |r|] == [s[0]] + s[1..][..|s| - 1 - |r|];
      r
    else s
  }

  /** Strips trailing white space: the result is the longest prefix of `s`
      that does not end with white space. */
  function TrimEnd(s: string): (r: string)
    ensures |r| <= |s| && r == s[..|r|]
    ensures AllSpace(s[|r|..])
    ensures r == [] || !IsSpace(r[|r| - 1])
  {
    if |s| > 0 && IsSpace(s[|s| - 1]) then
      var t := s[..|s| - 1];
      var r := TrimEnd(t);
      assert s[|r|..] == t[|r|..] + [s[|s| - 1]];
      r
    else s
  }

  /** `r` is `s` with the white space run `s[..i]` cut from the front and a
      white space run cut from the back, and nothing else changed. */
  predicate StrippedAt(s: string, r: string, i: nat) {
    i + |r| <= |s| && r == s[i..i + |r|] && AllSpace(s[..i]) && AllSpace(s[i + |r|..])
  }

  lemma TrimPieces(s: string, a: string, r: string)
    requires |a| <= |s| && a == s[|s| - |a|..] && AllSpace(s[..|s| - |a|]) && (a == [] || !IsSpace(a[0]))
    requires |r| <= |a| && r == a[..|r|] && AllSpace(a[|r|..]) && (r == [] || !IsSpace(r[|r| - 1]))
    ensures IsTrimmed(r) && StrippedAt(s, r, |s| - |a|)
  {
    var i := |s| - |a|;
    forall k | 0 <= k < |r| ensures r[k] == s[i + k] {
      assert r[k] == a[k];
    }
    assert r == s[i..i + |r|];
    assert s[i + |r|..] == a[|r|..];
    if r != [] { assert r[0] == a[0]; }
  }

  /** `trim()`: white space removed at both ends. */
  function Trim(s: string): (r: string)
    ensures IsTrimmed(r)
  {
    var a := TrimStart(s);
    var r := TrimEnd(a);
    TrimPieces(s, a, r);
    r
  }

  /** What trimming removes is white space, and only from the two ends. */
  lemma TrimStrips(s: string)
    ensures StrippedAt(s, Trim(s), |s| - |TrimStart(s)|)
  {
    TrimPieces(s, TrimStart(s), Trim(s));
  }

  /** `trim().notEmpty()` fails exactly for strings made of white space only. */
  lemma {:induction false} TrimEmptyIffAllSpace(s: string)
    ensures Trim(s) == [] <==> AllSpace(s)
  {
    var r := Trim(s);
    var i := |s| - |TrimStart(s)|;
    TrimStrips(s);
    if r == [] {
      forall k | 0 <= k < |s| ensures IsSpace(s[k]) {
        assert i == |s|;
        assert s[..i][k] == s[k];
      }
    } else {
      assert s[i] == r[0];
    }
  }

  /** Trimming leaves an already trimmed string as it is; in particular
      trimming twice is trimming once. */
  lemma {:induction false} TrimOfTrimmed(s: string)
    requires IsTrimmed(s)
    ensures Trim(s) == s
  {
    var r := Trim(s);
    var i := |s| - |TrimStart(s)|;
    TrimStrips(s);
    if s != [] {
      assert i == 0;
      assert |r| == |s|;
    }
  }

  lemma TrimIdempotent(s: string)
    ensures Trim(Trim(s)) == Trim(s)
  {
    TrimOfTrimmed(Trim(s));
  }

  /** The case folding of a case-insensitive match, on ASCII letters. */
  function LowerChar(c: char): (d: char)
    ensures 'A' <= c <= 'Z' ==> 'a' <= d <= 'z' && d as int - c as int == 32
    ensures !('A' <= c <= 'Z') ==> d == c
  {
    if 'A' <= c <= 'Z' then (c as int + 32) as char else c
  }

  function Lower(s: string): (r: string)
    ensures |r| == |s|
    ensures forall i :: 0 <= i < |s| ==> r[i] == LowerChar(s[i])
  {
    seq(|s|, i requires 0 <= i < |s| => LowerChar(s[i]))
  }

  /** `pat` occurs in `text` at some position. */
  predicate ContainsAt(text: string, pat: string, i: nat) {
    i + |pat| <= |text| && text[i..i + |pat|] == pat
  }

  function Contains(text: string, pat: string): (b: bool)
    ensures b <==> exists i: nat :: ContainsAt(text, pat, i)
    decreases |text|
  {
    if |pat| > |text| then
      assert forall i: nat :: !ContainsAt(text, pat, i);
      false
    else if text[..|pat|] == pat then
      assert ContainsAt(text, pat, 0);
      true
    else
      var b := Contains(text[1..], pat);
      assert forall i: nat :: ContainsAt(text[1..], pat, i) <==> ContainsAt(text, pat, i + 1) by {
        forall i: nat ensures ContainsAt(text[1..], pat, i) <==> ContainsAt(text, pat, i + 1) {
          if i + |pat| <= |text[1..]| { assert text[1..][i..i + |pat|] == text[i + 1..i + 1 + |pat|]; }
        }
      }
      assert ContainsAt(text, pat, 0) == false;
      assert forall i: nat :: ContainsAt(text, pat, i) ==> i == 0 || ContainsAt(text[1..], pat, i - 1);
      b
  }

  /** `new RegExp(pattern, "i").test(field)` for a pattern without
      metacharacters: a case-insensitive substring test. */
  predicate MatchesIgnoreCase(field: string, pattern: string) {
    Contains(Lower(field), Lower(pattern))
  }
}
