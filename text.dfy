/**
 * The few Python `str` operations the bot relies on: `strip()`, `lower()`,
 * `split()` with no argument and `" ".join(...)`.
 */
module Text {

  /** Python's `str.isspace()` for one character: the characters `strip()` and `split()` treat as whitespace. */
  predicate IsSpace(c: char) {
    ('\t' <= c <= '\r') || ('\U{1C}' <= c <= ' ') || c == '\U{85}' || c == '\U{A0}' ||
    c == '\U{1680}' || ('\U{2000}' <= c <= '\U{200A}') || c == '\U{2028}' || c == '\U{2029}' ||
    c == '\U{202F}' || c == '\U{205F}' || c == '\U{3000}'
  }

  predicate AllSpace(s: string) {
    forall k :: 0 <= k < |s| ==> IsSpace(s[k])
  }

  predicate NoSpace(s: string) {
    forall k :: 0 <= k < |s| ==> !IsSpace(s[k])
  }

  // ---------------------------------------------------------------- strip

  /** `s.lstrip()`: `s` without its leading whitespace. */
  function StripLeft(s: string): (r: string)
    ensures |r| <= |s|
  {
    if s != [] && IsSpace(s[0]) then StripLeft(s[1..]) else s
  }

  /** `s.rstrip()`: `s` without its trailing whitespace. */
  function StripRight(s: string): (r: string)
    ensures |r| <= |s|
  {
    if s != [] && IsSpace(s[|s| - 1]) then StripRight(s[..|s| - 1]) else s
  }

  /** `s.strip()`: `s` without its leading and trailing whitespace. */
  function Strip(s: string): (r: string)
    ensures |r| <= |s|
  {
    StripRight(StripLeft(s))
  }

  /** Number of whitespace characters `strip()` removes from the front of `s`. */
  function StripOffset(s: string): nat {
    |s| - |StripLeft(s)|
  }

  /** `lstrip()` removes a run of whitespace from the front and stops at the first other character. */
  lemma {:induction false} StripLeftSpec(s: string)
    ensures StripLeft(s) == s[StripOffset(s)..]
    ensures AllSpace(s[..StripOffset(s)])
    ensures StripLeft(s) == [] || !IsSpace(StripLeft(s)[0])
  {
    if s != [] && IsSpace(s[0]) {
      StripLeftSpec(s[1..]);
      assert s[1..][StripOffset(s[1..])..] == s[StripOffset(s)..];
      assert s[..StripOffset(s)] == [s[0]] + s[1..][..StripOffset(s[1..])];
    } else {
      assert s[..0] == [];
    }
  }

  /** `rstrip()` removes a run of whitespace from the back and stops at the last other character. */
  lemma {:induction false} StripRightSpec(s: string)
    ensures StripRight(s) == s[..|StripRight(s)|]
    ensures AllSpace(s[|StripRight(s)|..])
    ensures StripRight(s) == [] || !IsSpace(StripRight(s)[|StripRight(s)| - 1])
  {
    if s != [] && IsSpace(s[|s| - 1]) {
      var t := s[..|s| - 1];
      StripRightSpec(t);
      var n := |StripRight(t)|;
      assert t[..n] == s[..n];
      assert s[n..] == t[n..] + [s[|s| - 1]];
    } else {
      assert s[|s|..] == [];
    }
  }

  /**
   * `strip()` keeps a slice of `s` that neither starts nor ends with
   * whitespace, and everything it removes on either side is whitespace.
   */
  lemma StripSpec(s: string)
    ensures var i := StripOffset(s); i + |Strip(s)| <= |s| && Strip(s) == s[i..i + |Strip(s)|]
    ensures AllSpace(s[..StripOffset(s)]) && AllSpace(s[StripOffset(s) + |Strip(s)|..])
    ensures Strip(s) == [] || (!IsSpace(Strip(s)[0]) && !IsSpace(Strip(s)[|Strip(s)| - 1]))
  {
    var l := StripLeft(s);
    var i := StripOffset(s);
    StripLeftSpec(s);
    StripRightSpec(l);
    var r := Strip(s);
    assert r == l[..|r|] == s[i..i + |r|];
    assert s[i + |r|..] == l[|r|..];
  }

  lemma {:induction false} StripLeftOf(p: string, x: string)
    requires AllSpace(p) && (x == [] || !IsSpace(x[0]))
    ensures StripLeft(p + x) == x
  {
    if p != [] {
      assert (p + x)[1..] == p[1..] + x;
      StripLeftOf(p[1..], x);
    } else {
      assert p + x == x;
    }
  }

  lemma {:induction false} StripRightOf(x: string, q: string)
    requires AllSpace(q) && (x == [] || !IsSpace(x[|x| - 1]))
    ensures StripRight(x + q) == x
  {
    if q != [] {
      assert (x + q)[..|x + q| - 1] == x + q[..|q| - 1];
      StripRightOf(x, q[..|q| - 1]);
    } else {
      assert x + q == x;
    }
  }

  /**
   * `strip()` is determined by its characterisation: whatever whitespace
   * surrounds a core that neither starts nor ends with whitespace, the core
   * is what remains.
   */
  lemma StripOf(p: string, m: string, q: string)
    requires AllSpace(p) && AllSpace(q)
    requires m == [] || (!IsSpace(m[0]) && !IsSpace(m[|m| - 1]))
    ensures Strip(p + m + q) == m
  {
    if m == [] {
      assert p + m + q == (p + q) + [];
      StripLeftOf(p + q, []);
    } else {
      assert p + m + q == p + (m + q);
      StripLeftOf(p, m + q);
      StripRightOf(m, q);
    }
  }

  lemma AllSpaceConcat(a: string, b: string)
    requires AllSpace(a) && AllSpace(b)
    ensures AllSpace(a + b)
  {
  }

  /** Stripping twice is stripping once. */
  lemma StripIdempotent(s: string)
    ensures Strip(Strip(s)) == Strip(s)
  {
    StripSpec(s);
    var r := Strip(s);
    assert r == [] + r + [];
    StripOf([], r, []);
  }

  /** `s` is the whitespace `strip()` removes in front, what it keeps, and the whitespace it removes behind. */
  lemma StripParts(s: string) returns (front: string, back: string)
    ensures s == front + Strip(s) + back
    ensures AllSpace(front) && AllSpace(back)
  {
    StripSpec(s);
    var r := Strip(s);
    var i := StripOffset(s);
    front, back := s[..i], s[i + |r|..];
    assert s == front + s[i..i + |r|] + back;
  }

  lemma Regroup(p: string, f: string, r: string, b: string, q: string)
    ensures p + (f + r + b) + q == (p + f) + r + (b + q)
  {
  }

  /** Extra whitespace on either side does not change what `strip()` keeps. */
  lemma StripPadded(p: string, s: string, q: string)
    requires AllSpace(p) && AllSpace(q)
    ensures Strip(p + s + q) == Strip(s)
  {
    var r := Strip(s);
    var front, back := StripParts(s);
    StripSpec(s);
    AllSpaceConcat(p, front);
    AllSpaceConcat(back, q);
    Regroup(p, front, r, back, q);
    StripOf(p + front, r, back + q);
  }

  // ---------------------------------------------------------------- lower

  /** `c.lower()` for a character whose lower-case form is a single character: `A`-`Z` only. */
  function LowerChar(c: char): char {
    if 'A' <= c <= 'Z' then (c as int - 'A' as int + 'a' as int) as char else c
  }

  predicate IsUpper(c: char) {
    'A' <= c <= 'Z'
  }

  /** `s.lower()`, character by character. */
  function Lower(s: string): (r: string)
    ensures |r| == |s|
    ensures forall k :: 0 <= k < |s| ==> r[k] == LowerChar(s[k])
  {
    seq(|s|, k requires 0 <= k < |s| => LowerChar(s[k]))
  }

  /** Lower-casing leaves whitespace where it was and no upper-case letter behind. */
  lemma LowerShape(s: string)
    ensures forall k :: 0 <= k < |s| ==> (IsSpace(Lower(s)[k]) <==> IsSpace(s[k])) && !IsUpper(Lower(s)[k])
  {
  }

  // ---------------------------------------------------------------- normalise

  /** `s.lower().strip()`: the normal form in which quiz answers are stored and compared. */
  function Normalize(s: string): string {
    Strip(Lower(s))
  }

  lemma LowerConcat(a: string, b: string)
    ensures Lower(a + b) == Lower(a) + Lower(b)
  {
  }

  /** No character of `t` changes under `lower()`. */
  predicate IsLowerCase(t: string) {
    forall k :: 0 <= k < |t| ==> LowerChar(t[k]) == t[k]
  }

  lemma LowerIsLowerCase(s: string)
    ensures IsLowerCase(Lower(s))
  {
  }

  lemma LowerFixes(t: string)
    requires IsLowerCase(t)
    ensures Lower(t) == t
  {
  }

  lemma StripKeepsLowerCase(t: string)
    requires IsLowerCase(t)
    ensures IsLowerCase(Strip(t))
  {
    StripSpec(t);
    var i := StripOffset(t);
    var r := Strip(t);
    assert forall k :: 0 <= k < |r| ==> r[k] == t[i + k];
  }

  /** What `strip()` keeps of a lower-cased string is already lower case. */
  lemma StrippedLowerIsLower(s: string)
    ensures Lower(Strip(Lower(s))) == Strip(Lower(s))
  {
    LowerIsLowerCase(s);
    StripKeepsLowerCase(Lower(s));
    LowerFixes(Strip(Lower(s)));
  }

  /** A normalised answer is its own normal form, so a stored answer compares equal to itself. */
  lemma NormalizeIdempotent(s: string)
    ensures Normalize(Normalize(s)) == Normalize(s)
  {
    var r := Normalize(s);
    StrippedLowerIsLower(s);
    StripIdempotent(Lower(s));
    assert Normalize(r) == Strip(Lower(r)) == Strip(r) == r;
  }

  /**
   * Grading is insensitive to case and to surrounding whitespace: padding the
   * text with whitespace, or changing the case of its letters, leaves its
   * normal form unchanged.
   */
  lemma NormalizeIgnoresPaddingAndCase(p: string, s: string, t: string, q: string)
    requires AllSpace(p) && AllSpace(q)
    requires Lower(s) == Lower(t)
    ensures Normalize(p + s + q) == Normalize(t)
  {
    LowerConcat(p + s, q);
    LowerConcat(p, s);
    LowerShape(p);
    LowerShape(q);
    assert AllSpace(Lower(p)) && AllSpace(Lower(q));
    StripPadded(Lower(p), Lower(s), Lower(q));
  }

  /** The bot strips a message before lower-casing and stripping it again; the first strip changes nothing. */
  lemma NormalizeStripped(s: string)
    ensures Normalize(Strip(s)) == Normalize(s)
  {
    var front, back := StripParts(s);
    NormalizeIgnoresPaddingAndCase(front, Strip(s), Strip(s), back);
  }

  // ---------------------------------------------------------------- split and join

  /** Length of the run of non-whitespace characters at the start of `s`. */
  function WordLength(s: string): (n: nat)
    ensures n <= |s| && NoSpace(s[..n])
    ensures n == |s| || IsSpace(s[n])
  {
    if s == [] || IsSpace(s[0]) then 0
    else
      var n := WordLength(s[1..]);
      assert s[..n + 1] == [s[0]] + s[1..][..n];
      n + 1
  }

  /** `s.split()`: the maximal runs of non-whitespace characters, in order. */
  function Split(s: string): (words: seq<string>)
    ensures forall k :: 0 <= k < |words| ==> words[k] != [] && NoSpace(words[k])
    decreases |s|
  {
    if s == [] then []
    else if IsSpace(s[0]) then Split(s[1..])
    else
      var n := WordLength(s);
      [s[..n]] + Split(s[n..])
  }

  /** `" ".join(words)`. */
  function JoinSpace(words: seq<string>): string {
    if words == [] then ""
    else if |words| == 1 then words[0]
    else words[0] + " " + JoinSpace(words[1..])
  }

  lemma {:induction false} WordLengthOf(w: string, rest: string)
    requires NoSpace(w) && (rest == [] || IsSpace(rest[0]))
    ensures WordLength(w + rest) == |w|
  {
    if w == [] {
      assert w + rest == rest;
    } else {
      assert (w + rest)[1..] == w[1..] + rest;
      WordLengthOf(w[1..], rest);
    }
  }

  /** Whitespace in front of a text contributes no token to `split()`. */
  lemma {:induction false} SplitSpace(p: string, rest: string)
    requires AllSpace(p)
    ensures Split(p + rest) == Split(rest)
  {
    if p == [] {
      assert p + rest == rest;
    } else {
      assert (p + rest)[0] == p[0] && IsSpace(p[0]);
      assert (p + rest)[1..] == p[1..] + rest;
      assert Split(p + rest) == Split(p[1..] + rest);
      SplitSpace(p[1..], rest);
    }
  }

  /**
   * After leading whitespace, `split()` yields the maximal whitespace-free run
   * as its next token and then goes on with the text after that run.
   */
  lemma SplitCons(p: string, w: string, rest: string)
    requires AllSpace(p) && w != [] && NoSpace(w) && (rest == [] || IsSpace(rest[0]))
    ensures Split(p + w + rest) == [w] + Split(rest)
  {
    assert p + w + rest == p + (w + rest);
    SplitSpace(p, w + rest);
    WordLengthOf(w, rest);
    var s := w + rest;
    assert s[0] == w[0];
    assert s[..|w|] == w && s[|w|..] == rest;
  }

  /**
   * Splitting the single-space join of whitespace-free, non-empty words gives
   * back exactly those words: `" ".join` is a right inverse of `split()`.
   */
  lemma {:induction false} SplitJoin(words: seq<string>)
    requires forall k :: 0 <= k < |words| ==> words[k] != [] && NoSpace(words[k])
    ensures Split(JoinSpace(words)) == words
  {
    if words == [] {
    } else if |words| == 1 {
      var w := words[0];
      assert w == w + [];
      WordLengthOf(w, []);
      assert w[|w|..] == [];
      assert w[..|w|] == w;
    } else {
      var w := words[0];
      var rest := JoinSpace(words[1..]);
      var s := w + " " + rest;
      assert s == w + (" " + rest);
      WordLengthOf(w, " " + rest);
      assert s[..|w|] == w;
      assert s[|w|..] == " " + rest;
      assert (" " + rest)[1..] == rest;
      SplitJoin(words[1..]);
      assert words == [w] + words[1..];
    }
  }
}
