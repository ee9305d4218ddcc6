/**
 * The normaliser behind every lookup: a translation table that lower-cases the
 * ASCII letters A-Z and deletes the seven separator characters " -_.:;,".
 * Every other character is kept, in order.
 */
module Normalization {

  predicate IsUpper(c: char) { 'A' <= c <= 'Z' }

  predicate IsLower(c: char) { 'a' <= c <= 'z' }

  function ToLower(c: char): char
  {
    if IsUpper(c) then (c as int + 32) as char else c
  }

  function ToUpper(c: char): char
  {
    if IsLower(c) then (c as int - 32) as char else c
  }

  /** ASCII lower-casing of a whole string (`str.lower` restricted to ASCII). */
  function Lower(s: string): string
  {
    seq(|s|, k requires 0 <= k < |s| => ToLower(s[k]))
  }

  /** ASCII upper-casing of a whole string (`str.upper` restricted to ASCII). */
  function Upper(s: string): string
  {
    seq(|s|, k requires 0 <= k < |s| => ToUpper(s[k]))
  }

  /** The characters the translation table deletes. */
  const Removed: string := " -_.:;,"

  predicate IsRemoved(c: char) { c in Removed }

  /** A string the normaliser leaves as it is: no upper-case letter, no separator. */
  predicate IsNormal(s: string)
  {
    forall c :: c in s ==> !IsUpper(c) && !IsRemoved(c)
  }

  function Normalize(s: string): string
  {
    if s == [] then []
    else if IsRemoved(s[0]) then Normalize(s[1..])
    else [ToLower(s[0])] + Normalize(s[1..])
  }

  /** The normal form never holds an upper-case letter or a separator, and is never longer. */
  lemma {:induction false} NormalizeIsNormal(s: string)
    ensures IsNormal(Normalize(s))
    ensures |Normalize(s)| <= |s|
  {
    if s != [] {
      NormalizeIsNormal(s[1..]);
    }
  }

  /** The separators of `s` deleted, every other character kept in order. */
  function Strip(s: string): string
  {
    if s == [] then []
    else if IsRemoved(s[0]) then Strip(s[1..])
    else [s[0]] + Strip(s[1..])
  }

  /** Normalising is deleting the separators, then lower-casing what is left. */
  lemma {:induction false} NormalizeIsLowerOfStrip(s: string)
    ensures Normalize(s) == Lower(Strip(s))
  {
    if s != [] {
      NormalizeIsLowerOfStrip(s[1..]);
      if !IsRemoved(s[0]) {
        assert Lower([s[0]] + Strip(s[1..])) == [ToLower(s[0])] + Lower(Strip(s[1..]));
      }
    }
  }

  /** The normaliser works character by character, so it distributes over concatenation. */
  lemma {:induction false} NormalizeAppend(a: string, b: string)
    ensures Normalize(a + b) == Normalize(a) + Normalize(b)
  {
    if a == [] {
      assert a + b == b;
    } else {
      assert (a + b)[1..] == a[1..] + b;
      NormalizeAppend(a[1..], b);
    }
  }

  /** A string with no upper-case letter and no separator is its own normal form. */
  lemma {:induction false} NormalizeKeepsNormal(s: string)
    requires IsNormal(s)
    ensures Normalize(s) == s
  {
    if s != [] {
      assert s[0] in s;
      assert forall c :: c in s[1..] ==> c in s;
      NormalizeKeepsNormal(s[1..]);
      assert [s[0]] + s[1..] == s;
    }
  }

  lemma NormalizeIdempotent(s: string)
    ensures Normalize(Normalize(s)) == Normalize(s)
  {
    NormalizeIsNormal(s);
    NormalizeKeepsNormal(Normalize(s));
  }

  /** A string made only of separators normalises to the empty key. */
  lemma {:induction false} NormalizeSeparators(s: string)
    requires forall k :: 0 <= k < |s| ==> IsRemoved(s[k])
    ensures Normalize(s) == []
  {
    if s != [] {
      NormalizeSeparators(s[1..]);
    }
  }

  /** Changing the case of letters never changes the normal form. */
  lemma {:induction false} NormalizeIgnoresCase(s: string, t: string)
    requires Lower(s) == Lower(t)
    ensures Normalize(s) == Normalize(t)
  {
    if s != [] {
      assert ToLower(s[0]) == Lower(s)[0] == Lower(t)[0] == ToLower(t[0]);
      assert IsRemoved(s[0]) == IsRemoved(t[0]);
      assert Lower(s[1..]) == Lower(s)[1..];
      assert Lower(t[1..]) == Lower(t)[1..];
      NormalizeIgnoresCase(s[1..], t[1..]);
    }
  }

  lemma NormalizeUpperLower(s: string)
    ensures Normalize(Upper(s)) == Normalize(s)
    ensures Normalize(Lower(s)) == Normalize(s)
  {
    assert Lower(Upper(s)) == Lower(s);
    NormalizeIgnoresCase(Upper(s), s);
    assert Lower(Lower(s)) == Lower(s);
    NormalizeIgnoresCase(Lower(s), s);
  }
}
