/**
 * The three string primitives the visit tracker relies on: `trim` (applied to
 * the typed name before check-in), `toLowerCase` and `includes` (used by the
 * history search). Strings are sequences of Unicode scalar values.
 */
module Text {

  /** The code points JavaScript's `String.prototype.trim` removes: the
      ECMAScript WhiteSpace set (TAB, VT, FF, SPACE, NBSP, ZWNBSP and the
      Unicode "Zs" separators) together with the LineTerminator set
      (LF, CR, LINE SEPARATOR, PARAGRAPH SEPARATOR). */
  predicate IsWhitespace(c: char) {
    || c == '\t' || c == '\n' || c == '\U{000B}' || c == '\U{000C}' || c == '\r'
    || c == ' ' || c == '\U{00A0}' || c == '\U{1680}'
    || ('\U{2000}' <= c <= '\U{200A}')
    || c == '\U{2028}' || c == '\U{2029}' || c == '\U{202F}' || c == '\U{205F}'
    || c == '\U{3000}' || c == '\U{FEFF}'
  }

  predicate AllWhitespace(s: string) {
    forall i :: 0 <= i < |s| ==> IsWhitespace(s[i])
  }

  /** Drops the leading whitespace of `s`: what is left is a suffix of `s`
      that does not start with whitespace, and all that was dropped is whitespace. */
  function TrimStart(s: string): (r: string)
    ensures |r| <= |s| && r == s[|s| - |r|..]
    ensures AllWhitespace(s[..|s| - |r|])
    ensures r == [] || !IsWhitespace(r[0])
  {
    if s == [] || !IsWhitespace(s[0]) then s
    else
      var r := TrimStart(s[1..]);
      assert s[..|s| - |r|] == [s[0]] + s[1..][..|s| - 1 - |r|];
      r
  }

  /** Drops the trailing whitespace of `s`: what is left is a prefix of `s`
      that does not end with whitespace, and all that was dropped is whitespace. */
  function TrimEnd(s: string): (r: string)
    ensures |r| <= |s| && r == s[..|r|]
    ensures AllWhitespace(s[|r|..])
    ensures r == [] || !IsWhitespace(r[|r| - 1])
  {
    if s == [] || !IsWhitespace(s[|s| - 1]) then s
    else
      var r := TrimEnd(s[..|s| - 1]);
      assert s[|r|..] == s[..|s| - 1][|r|..] + [s[|s| - 1]];
      r
  }

  /** JavaScript `s.trim()`: the longest slice of `s` that neither starts nor
      ends with whitespace, everything around it being whitespace. The result is
      empty exactly when `s` is all whitespace, which is the case in which
      `!s.trim()` holds. */
  function Trim(s: string): (r: string)
    ensures r != [] ==> !IsWhitespace(r[0]) && !IsWhitespace(r[|r| - 1])
    ensures r == [] <==> AllWhitespace(s)
  {
    TrimEmpty(s);
    TrimEnd(TrimStart(s))
  }

  /** `r` is the slice of `s` that starts at `i`, and everything before and
      after it in `s` is whitespace. */
  predicate IsSliceBetweenWhitespace(r: string, s: string, i: int) {
    0 <= i <= |s| - |r| && r == s[i..i + |r|]
    && AllWhitespace(s[..i]) && AllWhitespace(s[i + |r|..])
  }

  /** `s.trim()` is a slice of `s` with only whitespace around it. */
  lemma TrimIsSlice(s: string)
    ensures exists i :: IsSliceBetweenWhitespace(Trim(s), s, i)
  {
    var t := TrimStart(s);
    var r := TrimEnd(t);
    var i := |s| - |t|;
    assert Trim(s) == r;
    assert r == s[i..i + |r|];
    assert AllWhitespace(s[..i]);
    assert s[i + |r|..] == t[|r|..];
    assert AllWhitespace(s[i + |r|..]);
    assert IsSliceBetweenWhitespace(r, s, i);
  }

  /** Trimming leaves nothing exactly when everything is whitespace. */
  lemma TrimEmpty(s: string)
    ensures TrimEnd(TrimStart(s)) == [] <==> AllWhitespace(s)
  {
    var t := TrimStart(s);
    var i := |s| - |t|;
    assert t != [] ==> t[0] == s[i];
    assert t == [] ==> TrimEnd(t) == [];
    if TrimEnd(t) == [] {
      assert t[0..] == t;
      assert t == [];
      assert s[..i] == s;
    }
  }

  /** Trimming a string that neither starts nor ends with whitespace gives it back. */
  lemma TrimKeepsTrimmed(s: string)
    requires s != [] && !IsWhitespace(s[0]) && !IsWhitespace(s[|s| - 1])
    ensures Trim(s) == s
  {
    assert TrimStart(s) == s;
    assert TrimEnd(s) == s;
  }

  /** `a` and `b` are the same character, or the same letter of the ASCII
      alphabet in opposite cases. */
  predicate SameLetterUpToCase(a: char, b: char) {
    || a == b
    || ('A' <= a <= 'Z' && 'a' <= b <= 'z' && a as int - 'A' as int == b as int - 'a' as int)
    || ('A' <= b <= 'Z' && 'a' <= a <= 'z' && b as int - 'A' as int == a as int - 'a' as int)
  }

  /** `s` and `t` differ at most in the case of their letters. */
  predicate SameUpToCase(s: string, t: string) {
    |s| == |t| && forall i :: 0 <= i < |s| ==> SameLetterUpToCase(s[i], t[i])
  }

  /** JavaScript `toLowerCase`, restricted to the ASCII letters. */
  function LowerChar(c: char): (d: char)
    ensures !('A' <= d <= 'Z')
    ensures 'A' <= c <= 'Z' ==> 'a' <= d <= 'z'
    ensures 'a' <= c <= 'z' || !('A' <= c <= 'Z') ==> d == c
  {
    if 'A' <= c <= 'Z' then (c as int - 'A' as int + 'a' as int) as char else c
  }

  /** `s.toLowerCase()`: the same length, each character lower-cased in place,
      no upper-case ASCII letter left. */
  function Lower(s: string): (r: string)
    ensures |r| == |s|
    ensures forall i :: 0 <= i < |s| ==> r[i] == LowerChar(s[i])
    ensures forall i :: 0 <= i < |r| ==> !('A' <= r[i] <= 'Z')
  {
    if s == [] then [] else [LowerChar(s[0])] + Lower(s[1..])
  }

  /** Two characters lower-case alike exactly when they differ at most in case. */
  lemma LowerCharIgnoresCase(a: char, b: char)
    ensures LowerChar(a) == LowerChar(b) <==> SameLetterUpToCase(a, b)
  {
  }

  /** Two strings lower-case alike exactly when they differ at most in the case
      of their letters. */
  lemma LowerIgnoresCase(s: string, t: string)
    ensures Lower(s) == Lower(t) <==> SameUpToCase(s, t)
  {
    if Lower(s) == Lower(t) {
      forall i | 0 <= i < |s| ensures SameLetterUpToCase(s[i], t[i]) {
        assert Lower(s)[i] == Lower(t)[i];
        LowerCharIgnoresCase(s[i], t[i]);
      }
    }
    if SameUpToCase(s, t) {
      forall i | 0 <= i < |s| ensures Lower(s)[i] == Lower(t)[i] {
        LowerCharIgnoresCase(s[i], t[i]);
      }
    }
  }

  /** Lower-casing commutes with taking a slice. */
  lemma LowerSlice(s: string, i: int, j: int)
    requires 0 <= i <= j <= |s|
    ensures Lower(s)[i..j] == Lower(s[i..j])
  {
    var a, b := Lower(s)[i..j], Lower(s[i..j]);
    forall k | 0 <= k < j - i ensures a[k] == b[k] {
      assert a[k] == Lower(s)[i + k] == LowerChar(s[i + k]);
      assert b[k] == LowerChar(s[i..j][k]);
    }
  }

  /** `q` occurs in `s` starting at position `i`. */
  predicate OccursAt(q: string, s: string, i: int) {
    0 <= i && i + |q| <= |s| && s[i..i + |q|] == q
  }

  /** JavaScript `s.includes(q)`: true exactly when `q` occurs somewhere in `s`. */
  function Includes(s: string, q: string): (r: bool)
    ensures r <==> exists i :: OccursAt(q, s, i)
    decreases |s|
  {
    if |q| <= |s| && s[..|q|] == q then
      assert OccursAt(q, s, 0);
      true
    else if s == [] then
      assert forall i :: !OccursAt(q, s, i);
      false
    else
      var r := Includes(s[1..], q);
      assert forall i :: OccursAt(q, s[1..], i) ==> OccursAt(q, s, i + 1);
      assert forall i :: OccursAt(q, s, i) ==> i >= 1 && OccursAt(q, s[1..], i - 1) by {
        forall i | OccursAt(q, s, i) ensures i >= 1 && OccursAt(q, s[1..], i - 1) {
          assert i != 0;
          assert s[1..][i - 1..i - 1 + |q|] == s[i..i + |q|];
        }
      }
      r
  }

  /** `q` occurs in `s` at position `i` up to the case of letters. */
  predicate OccursIgnoringCase(q: string, s: string, i: int) {
    0 <= i && i + |q| <= |s| && SameUpToCase(s[i..i + |q|], q)
  }

  /** The lower-cased `s` includes the lower-cased `q` exactly when `q`
      occurs in `s` up to the case of letters. */
  lemma IncludesIgnoringCase(s: string, q: string)
    ensures Includes(Lower(s), Lower(q)) <==> exists i :: OccursIgnoringCase(q, s, i)
  {
    forall i ensures OccursAt(Lower(q), Lower(s), i) <==> OccursIgnoringCase(q, s, i) {
      if 0 <= i && i + |q| <= |s| {
        LowerSlice(s, i, i + |q|);
        LowerIgnoresCase(s[i..i + |q|], q);
      }
    }
  }

  /** Lower-casing twice is lower-casing once. */
  lemma {:induction false} LowerIdempotent(s: string)
    ensures Lower(Lower(s)) == Lower(s)
  {
    if s != [] {
      LowerIdempotent(s[1..]);
    }
  }

  /** The empty string occurs in every string. */
  lemma IncludesEmpty(s: string)
    ensures Includes(s, [])
  {
    assert OccursAt([], s, 0);
  }
}
