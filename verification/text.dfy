/** The Python `str` operations the answer-resolution policy relies on:
    substring containment (`n in h`), `lower()`, `strip()`, `sep.join(xs)`
    and slicing `xs[:k]`. */
module Text {

  // ---------------------------------------------------------------------
  // Substring containment
  // ---------------------------------------------------------------------

  /** `n` occurs in `h` starting at index `i`. */
  predicate OccursAt(n: string, h: string, i: nat) {
    i + |n| <= |h| && h[i..i + |n|] == n
  }

  /** Reference meaning of Python's `n in h` on strings: `n` is a contiguous
      infix of `h`. Matching is exact, so it is case-sensitive. */
  ghost predicate IsInfix(n: string, h: string) {
    exists i: nat :: i <= |h| && OccursAt(n, h, i)
  }

  /** An occurrence in the tail of `h` is an occurrence in `h`, one place later. */
  lemma OccursInTail(n: string, h: string, i: nat)
    requires |h| > 0
    ensures OccursAt(n, h[1..], i) <==> OccursAt(n, h, i + 1)
  {
  }

  /** Executable substring test: try each start position from the left. */
  function Contains(h: string, n: string): (b: bool)
    ensures b <==> IsInfix(n, h)
    decreases |h|
  {
    if |h| < |n| then false
    else if n <= h then
      assert OccursAt(n, h, 0);
      true
    else
      assert !OccursAt(n, h, 0);
      assert IsInfix(n, h) <==> IsInfix(n, h[1..]) by {
        forall i: nat ensures OccursAt(n, h[1..], i) <==> OccursAt(n, h, i + 1) {
          OccursInTail(n, h, i);
        }
        if IsInfix(n, h) {
          var i: nat :| i <= |h| && OccursAt(n, h, i);
          assert i > 0;
          assert OccursAt(n, h[1..], i - 1);
        }
      }
      Contains(h[1..], n)
  }

  /** Containment is preserved by adding text on either side. */
  lemma {:induction false} InfixExtend(n: string, h: string, p: string, s: string)
    requires IsInfix(n, h)
    ensures IsInfix(n, p + h + s)
  {
    var i: nat :| i <= |h| && OccursAt(n, h, i);
    var big := p + h + s;
    assert big[|p| + i..|p| + i + |n|] == h[i..i + |n|];
    assert OccursAt(n, big, |p| + i);
  }

  /** The characters of an occurrence are the characters of `h` it covers. */
  lemma OccurrenceChars(n: string, h: string, i: nat, k: nat)
    requires OccursAt(n, h, i)
    requires k < |n|
    ensures i + k < |h| && h[i + k] == n[k]
  {
  }

  /** A witness character: if some character of `n` is absent from `h`,
      then `n` does not occur in `h`. */
  lemma NotInfixByChar(n: string, h: string, k: nat)
    requires k < |n|
    requires n[k] !in h
    ensures !IsInfix(n, h)
  {
  }

  /** The same, naming the missing character instead of its position. */
  lemma NotInfixByMissingChar(n: string, h: string, c: char)
    requires c in n && c !in h
    ensures !IsInfix(n, h)
  {
    var k :| 0 <= k < |n| && n[k] == c;
    NotInfixByChar(n, h, k);
  }

  /** A witness pair: if two adjacent characters of `n` never appear
      adjacently in `h`, then `n` does not occur in `h`. */
  lemma {:induction false} NotInfixByPair(n: string, h: string, k: nat)
    requires k + 1 < |n|
    requires forall i | 0 <= i < |h| - 1 :: !(h[i] == n[k] && h[i + 1] == n[k + 1])
    ensures !IsInfix(n, h)
  {
    forall i: nat | i <= |h| && OccursAt(n, h, i) ensures false {
      OccurrenceChars(n, h, i, k);
      OccurrenceChars(n, h, i, k + 1);
    }
  }

  // ---------------------------------------------------------------------
  // Any of a list of fragments
  // ---------------------------------------------------------------------

  /** Reference meaning of `any(f in h for f in frags)`. */
  ghost predicate SomeInfix(frags: seq<string>, h: string) {
    exists k :: 0 <= k < |frags| && IsInfix(frags[k], h)
  }

  /** Executable `any(f in h for f in frags)`, scanning the list in order. */
  function AnyContained(frags: seq<string>, h: string): (b: bool)
    ensures b <==> SomeInfix(frags, h)
  {
    if |frags| == 0 then false
    else if Contains(h, frags[0]) then true
    else
      assert SomeInfix(frags, h) <==> SomeInfix(frags[1..], h) by {
        if SomeInfix(frags, h) {
          var k :| 0 <= k < |frags| && IsInfix(frags[k], h);
          assert k > 0 && frags[1..][k - 1] == frags[k];
        }
      }
      AnyContained(frags[1..], h)
  }

  /** Adding text around `h` never turns a match into a non-match. */
  lemma {:induction false} SomeInfixExtend(frags: seq<string>, h: string, p: string, s: string)
    requires SomeInfix(frags, h)
    ensures SomeInfix(frags, p + h + s)
  {
    var k :| 0 <= k < |frags| && IsInfix(frags[k], h);
    InfixExtend(frags[k], h, p, s);
  }

  // ---------------------------------------------------------------------
  // Lower-casing
  // ---------------------------------------------------------------------

  predicate IsUpper(c: char) {
    'A' <= c <= 'Z'
  }

  /** ASCII lower-casing of one character; every other character is kept. */
  function LowerChar(c: char): char {
    if IsUpper(c) then (c as int - 'A' as int + 'a' as int) as char else c
  }

  /** Model of Python's `s.lower()` restricted to ASCII letters. */
  function Lower(s: string): (r: string)
    ensures |r| == |s|
    ensures forall i :: 0 <= i < |r| ==> !IsUpper(r[i])
    ensures forall i :: 0 <= i < |s| && !IsUpper(s[i]) ==> r[i] == s[i]
    ensures forall i :: 0 <= i < |s| && IsUpper(s[i]) ==> r[i] as int - s[i] as int == 'a' as int - 'A' as int
  {
    seq(|s|, i requires 0 <= i < |s| => LowerChar(s[i]))
  }

  /** Lower-casing twice is lower-casing once. */
  lemma LowerIdempotent(s: string)
    ensures Lower(Lower(s)) == Lower(s)
  {
  }

  // ---------------------------------------------------------------------
  // Stripping whitespace
  // ---------------------------------------------------------------------

  /** The characters Python's `str.strip()` removes (those for which
      `str.isspace()` holds). */
  predicate IsSpace(c: char) {
    || c == ' '
    || '\t' <= c <= '\r'
    || '\U{1C}' <= c <= '\U{1F}'
    || c == '\U{85}' || c == '\U{A0}' || c == '\U{1680}'
    || '\U{2000}' <= c <= '\U{200A}'
    || c == '\U{2028}' || c == '\U{2029}' || c == '\U{202F}' || c == '\U{205F}'
    || c == '\U{3000}'
  }

  ghost predicate AllSpace(s: string) {
    forall i :: 0 <= i < |s| ==> IsSpace(s[i])
  }

  /** Removes leading whitespace. */
  function StripStart(s: string): (r: string)
    ensures |r| <= |s| && r == s[|s| - |r|..]
    ensures AllSpace(s[..|s| - |r|])
    ensures r == [] || !IsSpace(r[0])
    decreases |s|
  {
    if |s| > 0 && IsSpace(s[0]) then
      var r := StripStart(s[1..]);
      assert s[..|s| - |r|] == [s[0]] + s[1..][..|s| - 1 - |r|];
      r
    else s
  }

  /** Removes trailing whitespace. */
  function StripEnd(s: string): (r: string)
    ensures |r| <= |s| && r == s[..|r|]
    ensures AllSpace(s[|r|..])
    ensures r == [] || !IsSpace(r[|r| - 1])
    decreases |s|
  {
    if |s| > 0 && IsSpace(s[|s| - 1]) then
      var r := StripEnd(s[..|s| - 1]);
      assert s[|r|..] == s[..|s| - 1][|r|..] + [s[|s| - 1]];
      r
    else s
  }

  /** `r` is `s[i..]` cut before trailing whitespace, with only whitespace
      in front of `i`. */
  ghost predicate TrimmedAt(s: string, i: nat, r: string) {
    && i + |r| <= |s|
    && s[i..i + |r|] == r
    && AllSpace(s[..i])
    && AllSpace(s[i + |r|..])
  }

  /** Reference meaning of `r == s.strip()`: `r` is what is left of `s`
      after whitespace is cut from both ends, and it neither begins nor ends
      with whitespace. */
  ghost predicate IsStripOf(r: string, s: string) {
    && (r == [] || (!IsSpace(r[0]) && !IsSpace(r[|r| - 1])))
    && exists i: nat :: TrimmedAt(s, i, r)
  }

  /** Model of Python's `s.strip()`. */
  function Strip(s: string): (r: string)
    ensures IsStripOf(r, s)
    ensures r == [] <==> AllSpace(s)
  {
    var t := StripStart(s);
    var r := StripEnd(t);
    var i := |s| - |t|;
    assert s[i..i + |r|] == r;
    assert s[..i + |r|][i..] == t[..|r|];
    assert s[i + |r|..] == t[|r|..];
    assert TrimmedAt(s, i, r);
    StripEmptyIffAllSpace(s, r);
    r
  }

  /** A strip result is empty exactly when the whole string is whitespace. */
  lemma StripEmptyIffAllSpace(s: string, r: string)
    requires IsStripOf(r, s)
    ensures r == [] <==> AllSpace(s)
  {
  }

  /** The characterisation in `IsStripOf` pins the result down uniquely. */
  lemma StripUnique(s: string, r1: string, r2: string)
    requires IsStripOf(r1, s) && IsStripOf(r2, s)
    ensures r1 == r2
  {
  }

  /** Stripping an already stripped string changes nothing. */
  lemma StripIdempotent(s: string)
    ensures Strip(Strip(s)) == Strip(s)
  {
  }

  /** A string with no whitespace at either end is its own strip. */
  lemma StripNoop(s: string)
    requires s == [] || (!IsSpace(s[0]) && !IsSpace(s[|s| - 1]))
    ensures Strip(s) == s
  {
  }

  // ---------------------------------------------------------------------
  // Joining and slicing
  // ---------------------------------------------------------------------

  /** Model of Python's `sep.join(xs)`. */
  function Join(sep: string, xs: seq<string>): (r: string)
    ensures |xs| == 0 ==> r == ""
    ensures |xs| == 1 ==> r == xs[0]
    ensures |xs| == 2 ==> r == xs[0] + sep + xs[1]
    ensures |xs| > 0 ==> xs[0] <= r
  {
    if |xs| == 0 then ""
    else if |xs| == 1 then xs[0]
    else xs[0] + sep + Join(sep, xs[1..])
  }

  /** Model of Python's slice `xs[:k]` for `k >= 0`. */
  function Take<T>(xs: seq<T>, k: nat): (r: seq<T>)
    ensures |r| == if k <= |xs| then k else |xs|
    ensures r <= xs
  {
    if k <= |xs| then xs[..k] else xs
  }

  // ---------------------------------------------------------------------
  // Subsequences
  // ---------------------------------------------------------------------

  /** `a` can be obtained from `b` by deleting elements, keeping order. */
  ghost predicate IsSubsequence<T>(a: seq<T>, b: seq<T>)
    decreases |b|
  {
    if |a| == 0 then true
    else if |b| == 0 then false
    else (a[0] == b[0] && IsSubsequence(a[1..], b[1..])) || IsSubsequence(a, b[1..])
  }

  /** Every prefix of a subsequence is a subsequence. */
  lemma {:induction false} SubsequencePrefix<T>(a: seq<T>, b: seq<T>, k: nat)
    requires IsSubsequence(a, b)
    requires k <= |a|
    ensures IsSubsequence(a[..k], b)
    decreases |b|
  {
    if k == 0 || |a| == 0 {
    } else if a[0] == b[0] && IsSubsequence(a[1..], b[1..]) {
      SubsequencePrefix(a[1..], b[1..], k - 1);
      assert a[..k][1..] == a[1..][..k - 1];
    } else {
      SubsequencePrefix(a, b[1..], k);
    }
  }

  /** Elements of a subsequence are elements of the original. */
  lemma {:induction false} SubsequenceMembers<T>(a: seq<T>, b: seq<T>, x: T)
    requires IsSubsequence(a, b)
    requires x in a
    ensures x in b
    decreases |b|
  {
    if a[0] == b[0] && IsSubsequence(a[1..], b[1..]) {
      if x != a[0] {
        assert x in a[1..];
        SubsequenceMembers(a[1..], b[1..], x);
      }
    } else {
      SubsequenceMembers(a, b[1..], x);
    }
  }
}
