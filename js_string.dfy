/**
 * The two JavaScript string operations the login handler applies to its
 * inputs: `String.prototype.trim` and `String.prototype.toUpperCase`, and the
 * lookup key `toUpperCase(trim(studentId))` built from them.
 *
 * `Trim` removes exactly the code points that ECMAScript classifies as
 * WhiteSpace or LineTerminator. `ToUpper` maps only the ASCII letters a-z;
 * every other character is left as it is.
 */
module JsString {

  /** ECMAScript WhiteSpace (TAB, VT, FF, ZWNBSP and the Unicode category Zs)
      and LineTerminator (LF, CR, LS, PS). */
  predicate IsWhitespace(c: char) {
    || c == '\t' || c == '\n' || c == '\U{B}' || c == '\U{C}' || c == '\r'
    || c == ' ' || c == '\U{A0}' || c == '\U{1680}'
    || ('\U{2000}' <= c <= '\U{200A}')
    || c == '\U{2028}' || c == '\U{2029}' || c == '\U{202F}' || c == '\U{205F}'
    || c == '\U{3000}' || c == '\U{FEFF}'
  }

  predicate AllWhitespace(s: string) {
    forall i :: 0 <= i < |s| ==> IsWhitespace(s[i])
  }

  /** A string with no whitespace at either end. */
  predicate Bare(s: string) {
    s == [] || (!IsWhitespace(s[0]) && !IsWhitespace(s[|s| - 1]))
  }

  /** Drops the leading whitespace. */
  function TrimStart(s: string): string {
    if s != [] && IsWhitespace(s[0]) then TrimStart(s[1..]) else s
  }

  /** Drops the trailing whitespace. */
  function TrimEnd(s: string): string {
    if s != [] && IsWhitespace(s[|s| - 1]) then TrimEnd(s[..|s| - 1]) else s
  }

  /** `String.prototype.trim`. */
  function Trim(s: string): string {
    TrimEnd(TrimStart(s))
  }

  /** `toUpperCase` on one character, restricted to ASCII. */
  function ToUpperChar(c: char): char {
    if 'a' <= c <= 'z' then (c as int - 32) as char else c
  }

  /** `String.prototype.toUpperCase`, restricted to ASCII letters. */
  function ToUpper(s: string): string {
    if s == [] then [] else [ToUpperChar(s[0])] + ToUpper(s[1..])
  }

  /** The lookup key the handler derives from a student ID. */
  function Key(studentId: string): string {
    ToUpper(Trim(studentId))
  }

  /** Two characters that are equal once ASCII case is ignored. */
  predicate SameIgnoringCase(a: char, b: char) {
    || a == b
    || ('a' <= a <= 'z' && b as int == a as int - 32)
    || ('a' <= b <= 'z' && a as int == b as int - 32)
  }

  predicate EqualIgnoringCase(s: string, t: string) {
    |s| == |t| && forall i :: 0 <= i < |s| ==> SameIgnoringCase(s[i], t[i])
  }

  // ---------------------------------------------------------------------
  // Trim

  lemma AllWhitespaceConcat(a: string, b: string)
    ensures AllWhitespace(a + b) <==> AllWhitespace(a) && AllWhitespace(b)
  {
    if AllWhitespace(a) && AllWhitespace(b) {
      forall i | 0 <= i < |a + b| ensures IsWhitespace((a + b)[i]) {
        if i >= |a| { assert (a + b)[i] == b[i - |a|]; }
      }
    }
    if AllWhitespace(a + b) {
      forall i | 0 <= i < |a| ensures IsWhitespace(a[i]) {
        assert (a + b)[i] == a[i];
      }
      forall i | 0 <= i < |b| ensures IsWhitespace(b[i]) {
        assert (a + b)[|a| + i] == b[i];
      }
    }
  }

  /** `TrimStart` keeps the suffix of `s` that starts at its first
      non-whitespace character. */
  lemma {:induction false} TrimStartSplits(s: string)
    ensures var r := TrimStart(s);
      && |r| <= |s| && r == s[|s| - |r|..]
      && AllWhitespace(s[..|s| - |r|])
      && (r == [] || !IsWhitespace(r[0]))
  {
    if s != [] && IsWhitespace(s[0]) {
      var t := s[1..];
      TrimStartSplits(t);
      var r := TrimStart(t);
      assert r == TrimStart(s);
      var k := |s| - |r|;
      assert t[k - 1..] == s[k..];
      var dropped := t[..k - 1];
      assert AllWhitespace(dropped);
      assert s[..k] == [s[0]] + dropped;
      AllWhitespaceConcat([s[0]], dropped);
    }
  }

  /** `TrimEnd` keeps the prefix of `s` that ends at its last non-whitespace
      character. */
  lemma {:induction false} TrimEndSplits(s: string)
    ensures var r := TrimEnd(s);
      && |r| <= |s| && r == s[..|r|]
      && AllWhitespace(s[|r|..])
      && (r == [] || !IsWhitespace(r[|r| - 1]))
  {
    if s != [] && IsWhitespace(s[|s| - 1]) {
      var t := s[..|s| - 1];
      TrimEndSplits(t);
      var r := TrimEnd(t);
      assert r == TrimEnd(s);
      assert t[..|r|] == s[..|r|];
      var dropped := t[|r|..];
      assert AllWhitespace(dropped);
      assert s[|r|..] == dropped + [s[|s| - 1]];
      AllWhitespaceConcat(dropped, [s[|s| - 1]]);
    }
  }

  lemma {:induction false} TrimStartPadded(p: string, m: string)
    requires AllWhitespace(p)
    requires m == [] || !IsWhitespace(m[0])
    ensures TrimStart(p + m) == m
  {
    if p == [] {
      assert p + m == m;
    } else {
      assert (p + m)[1..] == p[1..] + m;
      TrimStartPadded(p[1..], m);
    }
  }

  lemma {:induction false} TrimEndPadded(m: string, q: string)
    requires AllWhitespace(q)
    requires m == [] || !IsWhitespace(m[|m| - 1])
    ensures TrimEnd(m + q) == m
  {
    if q == [] {
      assert m + q == m;
    } else {
      var n := |m + q|;
      assert (m + q)[n - 1] == q[|q| - 1];
      assert (m + q)[..n - 1] == m + q[..|q| - 1];
      TrimEndPadded(m, q[..|q| - 1]);
    }
  }

  /** Trim is characterised by decomposition: whatever whitespace surrounds a
      bare string, trimming gives back exactly that string. */
  lemma TrimPadded(p: string, m: string, q: string)
    requires AllWhitespace(p) && Bare(m) && AllWhitespace(q)
    ensures Trim(p + m + q) == m
  {
    if m == [] {
      assert p + m + q == p + q;
      AllWhitespaceConcat(p, q);
      TrimStartPadded(p + q, []);
      assert p + q + [] == p + q;
    } else {
      assert p + m + q == p + (m + q);
      TrimStartPadded(p, m + q);
      TrimEndPadded(m, q);
    }
  }

  /** Every string splits into leading whitespace, its trimmed form and
      trailing whitespace, and the trimmed form is bare. */
  lemma TrimSplits(s: string) returns (p: string, q: string)
    ensures AllWhitespace(p) && AllWhitespace(q) && Bare(Trim(s))
    ensures s == p + Trim(s) + q
  {
    var t := TrimStart(s);
    TrimStartSplits(s);
    TrimEndSplits(t);
    var r := Trim(s);
    p, q := s[..|s| - |t|], t[|r|..];
    assert s == p + t;
    assert t == r + q;
  }

  /** A bare string is its own trimmed form. */
  lemma TrimBare(m: string)
    requires Bare(m)
    ensures Trim(m) == m
  {
    TrimPadded([], m, []);
    assert [] + m + [] == m;
  }

  lemma TrimIdempotent(s: string)
    ensures Trim(Trim(s)) == Trim(s)
  {
    var _, _ := TrimSplits(s);
    TrimBare(Trim(s));
  }

  /** Whitespace added around a string never changes its trimmed form. */
  lemma TrimIgnoresPadding(p: string, s: string, q: string)
    requires AllWhitespace(p) && AllWhitespace(q)
    ensures Trim(p + s + q) == Trim(s)
  {
    var p', q' := TrimSplits(s);
    assert p + s + q == (p + p') + Trim(s) + (q' + q);
    AllWhitespaceConcat(p, p');
    AllWhitespaceConcat(q', q);
    TrimPadded(p + p', Trim(s), q' + q);
  }

  // ---------------------------------------------------------------------
  // ToUpper

  /** Upper-casing works character by character. */
  lemma {:induction false} ToUpperAt(s: string)
    ensures |ToUpper(s)| == |s|
    ensures forall i :: 0 <= i < |s| ==> ToUpper(s)[i] == ToUpperChar(s[i])
  {
    if s != [] {
      ToUpperAt(s[1..]);
    }
  }

  lemma ToUpperConcat(a: string, b: string)
    ensures ToUpper(a + b) == ToUpper(a) + ToUpper(b)
  {
    ToUpperAt(a);
    ToUpperAt(b);
    ToUpperAt(a + b);
    assert forall i :: 0 <= i < |b| ==> (a + b)[|a| + i] == b[i];
  }

  /** Upper-casing leaves whitespace alone and keeps a bare string bare. */
  lemma ToUpperPreservesWhitespace(s: string)
    ensures AllWhitespace(s) ==> ToUpper(s) == s
    ensures Bare(s) ==> Bare(ToUpper(s))
  {
    ToUpperAt(s);
    if AllWhitespace(s) {
      assert forall i :: 0 <= i < |s| ==> ToUpperChar(s[i]) == s[i];
    }
  }

  /** The result holds no lower-case ASCII letter, so upper-casing twice is
      upper-casing once. */
  lemma ToUpperIdempotent(s: string)
    ensures forall i :: 0 <= i < |ToUpper(s)| ==> !('a' <= ToUpper(s)[i] <= 'z')
    ensures ToUpper(ToUpper(s)) == ToUpper(s)
  {
    ToUpperAt(s);
    ToUpperAt(ToUpper(s));
  }

  /** Upper-casing identifies two strings exactly when they differ only in
      the case of ASCII letters. */
  lemma ToUpperEqualIff(s: string, t: string)
    ensures ToUpper(s) == ToUpper(t) <==> EqualIgnoringCase(s, t)
  {
    ToUpperAt(s);
    ToUpperAt(t);
    if ToUpper(s) == ToUpper(t) {
      forall i | 0 <= i < |s| ensures SameIgnoringCase(s[i], t[i]) {
        assert ToUpper(s)[i] == ToUpper(t)[i];
      }
    }
    if EqualIgnoringCase(s, t) {
      forall i | 0 <= i < |s| ensures ToUpper(s)[i] == ToUpper(t)[i] {
        assert SameIgnoringCase(s[i], t[i]);
      }
    }
  }

  /** Trimming and upper-casing commute. */
  lemma ToUpperTrimCommute(s: string)
    ensures ToUpper(Trim(s)) == Trim(ToUpper(s))
  {
    var p, q := TrimSplits(s);
    ToUpperConcat(p + Trim(s), q);
    ToUpperConcat(p, Trim(s));
    ToUpperPreservesWhitespace(p);
    ToUpperPreservesWhitespace(q);
    ToUpperPreservesWhitespace(Trim(s));
    TrimPadded(p, ToUpper(Trim(s)), q);
  }

  // ---------------------------------------------------------------------
  // Key

  /** Surrounding whitespace never changes the key. */
  lemma KeyIgnoresPadding(p: string, s: string, q: string)
    requires AllWhitespace(p) && AllWhitespace(q)
    ensures Key(p + s + q) == Key(s)
  {
    TrimIgnoresPadding(p, s, q);
  }

  /** IDs that differ only in ASCII case have the same key. */
  lemma KeyIgnoresCase(s: string, t: string)
    requires EqualIgnoringCase(s, t)
    ensures Key(s) == Key(t)
  {
    ToUpperEqualIff(s, t);
    ToUpperTrimCommute(s);
    ToUpperTrimCommute(t);
  }

  /** A key is already normalised: it is bare, holds no lower-case ASCII
      letter, and is its own key. */
  lemma KeyIsNormal(s: string)
    ensures Bare(Key(s))
    ensures forall i :: 0 <= i < |Key(s)| ==> !('a' <= Key(s)[i] <= 'z')
    ensures Key(Key(s)) == Key(s)
  {
    var t := Trim(s);
    assert Key(s) == ToUpper(t);
    var _, _ := TrimSplits(s);
    ToUpperAt(t);
    ToUpperPreservesWhitespace(t);
    ToUpperIdempotent(t);
    TrimBare(ToUpper(t));
    assert Key(ToUpper(t)) == ToUpper(ToUpper(t));
  }

  /** Conversely, a bare string without lower-case ASCII letters is its own
      key. */
  lemma KeyOfNormal(s: string)
    requires Bare(s)
    requires forall i :: 0 <= i < |s| ==> !('a' <= s[i] <= 'z')
    ensures Key(s) == s
  {
    TrimBare(s);
    ToUpperAt(s);
    assert forall i :: 0 <= i < |s| ==> ToUpper(s)[i] == s[i];
  }
}
