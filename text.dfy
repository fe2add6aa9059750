/** The string operations the program relies on: Python's `str.strip()`,
    `str.lower()` restricted to what the keyword tests can observe, and the
    substring test `sub in s`. */
module Text {

  /** Python's `str.isspace()` for one character: the characters that
      `str.strip()` with no argument removes. */
  predicate IsSpace(c: char) {
    ('\t' <= c <= '\r') || ('\U{1C}' <= c <= '\U{1F}') || c == ' '
    || c == '\U{85}' || c == '\U{A0}' || c == '\U{1680}'
    || ('\U{2000}' <= c <= '\U{200A}') || c == '\U{2028}' || c == '\U{2029}'
    || c == '\U{202F}' || c == '\U{205F}' || c == '\U{3000}'
  }

  /** Every character is whitespace (the empty string included): exactly the
      strings that are falsy once stripped. */
  predicate Blank(s: string) {
    forall i :: 0 <= i < |s| ==> IsSpace(s[i])
  }

  /** Neither end of `s` is whitespace. */
  predicate TightEnds(s: string) {
    s == [] || (!IsSpace(s[0]) && !IsSpace(s[|s| - 1]))
  }

  /** Number of leading whitespace characters: the index of the first
      character that is not whitespace, or `|s|` when there is none. */
  function Lead(s: string): (n: nat)
    ensures n <= |s|
    ensures forall k :: 0 <= k < n ==> IsSpace(s[k])
    ensures n < |s| ==> !IsSpace(s[n])
  {
    if |s| > 0 && IsSpace(s[0]) then 1 + Lead(s[1..]) else 0
  }

  /** Number of trailing whitespace characters. */
  function Trail(s: string): (n: nat)
    ensures n <= |s|
    ensures forall k :: |s| - n <= k < |s| ==> IsSpace(s[k])
    ensures n < |s| ==> !IsSpace(s[|s| - 1 - n])
  {
    if |s| > 0 && IsSpace(s[|s| - 1]) then 1 + Trail(s[..|s| - 1]) else 0
  }

  /** `s.strip()`: `s` is made of whitespace, the result, and whitespace, and
      the result neither starts nor ends with whitespace. */
  function Strip(s: string): (r: string)
    ensures Lead(s) + |r| <= |s| && r == s[Lead(s)..Lead(s) + |r|]
    ensures forall k :: Lead(s) + |r| <= k < |s| ==> IsSpace(s[k])
    ensures TightEnds(r)
  {
    if Lead(s) == |s| then [] else s[Lead(s)..|s| - Trail(s)]
  }

  /** The strip of a string is determined by any split of it into a blank
      prefix, a core with no whitespace at its ends, and a blank suffix. */
  lemma StripOfSplit(p: string, r: string, q: string)
    requires Blank(p) && Blank(q) && TightEnds(r)
    ensures Strip(p + r + q) == r
  {
    var s := p + r + q;
    assert forall k :: 0 <= k < |p| ==> s[k] == p[k];
    assert forall k :: |p| + |r| <= k < |s| ==> s[k] == q[k - |p| - |r|];
    if r == [] {
      assert Lead(s) == |s|;
    } else {
      assert s[|p|] == r[0] && s[|p| + |r| - 1] == r[|r| - 1];
      assert Lead(s) == |p|;
      assert Trail(s) == |q|;
      assert s[|p|..|s| - |q|] == r;
    }
  }

  /** `s.strip()` is idempotent. */
  lemma StripIdempotent(s: string)
    ensures Strip(Strip(s)) == Strip(s)
  {
    var r := Strip(s);
    assert [] + r + [] == r;
    StripOfSplit([], r, []);
  }

  /** A string strips to the empty string exactly when it is all whitespace. */
  lemma StripEmptyIffBlank(s: string)
    ensures Strip(s) == [] <==> Blank(s)
  {
    if Blank(s) {
      assert s + [] + [] == s;
      StripOfSplit(s, [], []);
    }
  }

  /** Python's `str.lower()` on one character, for ASCII letters. */
  function LowerChar(c: char): (d: char)
    ensures IsSpace(d) <==> IsSpace(c)
  {
    if 'A' <= c <= 'Z' then (c as int - 'A' as int + 'a' as int) as char else c
  }

  /** `s.lower()`, character by character. */
  function Lower(s: string): (r: string)
    ensures |r| == |s|
  {
    seq(|s|, i requires 0 <= i < |s| => LowerChar(s[i]))
  }

  /** Python's `sub in s`: `sub` occurs in `s` as a contiguous block. */
  function Contains(s: string, sub: string): bool
    decreases |s|
  {
    if |sub| > |s| then false
    else s[..|sub|] == sub || Contains(s[1..], sub)
  }

  /** An occurrence at a known position makes `sub in s` true. */
  lemma {:induction false} ContainsAt(s: string, sub: string, i: nat)
    requires i + |sub| <= |s| && s[i..i + |sub|] == sub
    ensures Contains(s, sub)
  {
    if i > 0 {
      assert s[1..][i - 1..i - 1 + |sub|] == s[i..i + |sub|];
      ContainsAt(s[1..], sub, i - 1);
    }
  }

  /** Conversely, `sub in s` yields a position where `sub` occurs. */
  lemma {:induction false} ContainsWitness(s: string, sub: string) returns (i: nat)
    requires Contains(s, sub)
    ensures i + |sub| <= |s| && s[i..i + |sub|] == sub
    decreases |s|
  {
    if s[..|sub|] == sub {
      i := 0;
    } else {
      var j := ContainsWitness(s[1..], sub);
      assert s[1..][j..j + |sub|] == s[j + 1..j + 1 + |sub|];
      i := j + 1;
    }
  }

  /** Lower-casing a slice reads the same characters as slicing the
      lower-cased string. */
  lemma LowerSlice(s: string, i: nat, j: nat, u: string)
    requires i <= j <= |s| && u == s[i..j]
    ensures Lower(u) == Lower(s)[i..j]
  {
    forall m | 0 <= m < j - i ensures Lower(u)[m] == Lower(s)[i..j][m] {
      assert u[m] == s[i + m];
    }
  }

  /** An occurrence inside the bounds of a slice is an occurrence in it. */
  lemma ContainsInSlice(t: string, u: string, i: nat, j: nat, k: nat, w: string)
    requires i <= k && k + |w| <= j <= |t| && t[k..k + |w|] == w
    requires u == t[i..j]
    ensures Contains(u, w)
  {
    forall m | 0 <= m < |w| ensures u[k - i..k - i + |w|][m] == w[m] {
      assert u[k - i + m] == t[k + m] == t[k..k + |w|][m];
    }
    assert u[k - i..k - i + |w|] == w;
    ContainsAt(u, w, k - i);
  }

  /** An occurrence of a keyword with no whitespace at its ends lies inside
      the part of the string that stripping keeps. */
  lemma OccurrenceInsideStrip(s: string, w: string, k: nat)
    requires w != [] && TightEnds(w)
    requires k + |w| <= |s| && Lower(s)[k..k + |w|] == w
    ensures Lead(s) <= k && k + |w| <= Lead(s) + |Strip(s)|
  {
    assert LowerChar(s[k]) == w[0];
    assert LowerChar(s[k + |w| - 1]) == w[|w| - 1];
  }

  /** An occurrence of a keyword in the lower-cased string is an occurrence
      in the lower-cased stripped string. */
  lemma {:induction false} KeywordKeptByStrip(s: string, w: string)
    requires w != [] && TightEnds(w) && Contains(Lower(s), w)
    ensures Contains(Lower(Strip(s)), w)
  {
    var r, i := Strip(s), Lead(s);
    var k := ContainsWitness(Lower(s), w);
    OccurrenceInsideStrip(s, w, k);
    LowerSlice(s, i, i + |r|, r);
    ContainsInSlice(Lower(s), Lower(r), i, i + |r|, k, w);
  }

  /** An occurrence in a slice of `t` is an occurrence in `t`. */
  lemma ContainsInSuper(t: string, u: string, i: nat, k: nat, w: string)
    requires i + |u| <= |t| && u == t[i..i + |u|]
    requires k + |w| <= |u| && u[k..k + |w|] == w
    ensures Contains(t, w)
  {
    forall m | 0 <= m < |w| ensures t[i + k..i + k + |w|][m] == w[m] {
      assert t[i + k + m] == u[k + m] == u[k..k + |w|][m];
    }
    assert t[i + k..i + k + |w|] == w;
    ContainsAt(t, w, i + k);
  }

  /** An occurrence in the lower-cased stripped string is one in the
      lower-cased string. */
  lemma {:induction false} KeywordFromStrip(s: string, w: string)
    requires Contains(Lower(Strip(s)), w)
    ensures Contains(Lower(s), w)
  {
    var r, i := Strip(s), Lead(s);
    var k := ContainsWitness(Lower(r), w);
    LowerSlice(s, i, i + |r|, r);
    ContainsInSuper(Lower(s), Lower(r), i, k, w);
  }

  /** A keyword with no whitespace at its ends is found in the lower-cased
      string exactly when it is found in the lower-cased stripped string:
      stripping never cuts such an occurrence. */
  lemma KeywordSurvivesStrip(s: string, w: string)
    requires w != [] && TightEnds(w)
    ensures Contains(Lower(s), w) <==> Contains(Lower(Strip(s)), w)
  {
    if Contains(Lower(s), w) { KeywordKeptByStrip(s, w); }
    if Contains(Lower(Strip(s)), w) { KeywordFromStrip(s, w); }
  }

  /** Strings equal up to ASCII case have whitespace at the same places. */
  lemma SpacesIgnoreCase(a: string, b: string)
    requires Lower(a) == Lower(b)
    ensures |a| == |b|
    ensures forall k :: 0 <= k < |a| ==> (IsSpace(a[k]) <==> IsSpace(b[k]))
  {
    forall k | 0 <= k < |a| ensures IsSpace(a[k]) <==> IsSpace(b[k]) {
      assert LowerChar(a[k]) == Lower(a)[k] == Lower(b)[k] == LowerChar(b[k]);
    }
  }

  /** Strings with whitespace at the same places have the same leading and
      trailing whitespace. */
  lemma SameEnds(a: string, b: string)
    requires |a| == |b|
    requires forall k :: 0 <= k < |a| ==> (IsSpace(a[k]) <==> IsSpace(b[k]))
    ensures Lead(a) == Lead(b) && Trail(a) == Trail(b)
  {
  }

  /** The length of `s.strip()` in terms of the whitespace cut at each end. */
  lemma StripLength(s: string)
    ensures |Strip(s)| == if Lead(s) == |s| then 0 else |s| - Lead(s) - Trail(s)
  {
  }

  /** Strings with whitespace at the same places strip at the same
      positions. */
  lemma SameStripBounds(a: string, b: string)
    requires |a| == |b|
    requires forall k :: 0 <= k < |a| ==> (IsSpace(a[k]) <==> IsSpace(b[k]))
    ensures Lead(a) == Lead(b) && |Strip(a)| == |Strip(b)|
  {
    SameEnds(a, b);
    StripLength(a);
    StripLength(b);
  }

  /** Two strings equal up to ASCII case strip at the same positions, so
      their stripped forms are still equal up to case. */
  lemma StripIgnoresCase(a: string, b: string)
    requires Lower(a) == Lower(b)
    ensures Lower(Strip(a)) == Lower(Strip(b))
    ensures Strip(a) == [] <==> Strip(b) == []
  {
    SpacesIgnoreCase(a, b);
    SameStripBounds(a, b);
    var i, j := Lead(a), Lead(a) + |Strip(a)|;
    LowerSlice(a, i, j, Strip(a));
    LowerSlice(b, i, j, Strip(b));
  }
}
