/**
 * The URL extractor shared by both plugins: `text.match(/https?:\/\/[^\s]+/)[0]`.
 *
 * The regular expression's language is given as a ghost predicate (IsUrlToken) and
 * its leftmost-longest match as another (IsLeftmostLongest); FirstMatch computes the
 * span by scanning and is proved to return exactly that match, or nothing when the
 * text contains no match at all.
 */
module UrlMatch {
  import opened Wrappers

  /** The ECMAScript `\s` class: the WhiteSpace code points of section 12.2 of
      ECMA-262 (TAB, VT, FF, ZWNBSP and every Zs space) and the LineTerminator
      code points of section 12.3 (LF, CR, LS, PS). */
  predicate IsWhitespace(c: char)
  {
    var n := c as int;
    n == 0x0009 || n == 0x000B || n == 0x000C || n == 0xFEFF        // TAB VT FF ZWNBSP
    || n == 0x0020 || n == 0x00A0 || n == 0x1680                    // Zs
    || (0x2000 <= n <= 0x200A) || n == 0x202F || n == 0x205F || n == 0x3000
    || n == 0x000A || n == 0x000D || n == 0x2028 || n == 0x2029     // LineTerminator
  }

  const Http: string := "http://"
  const Https: string := "https://"

  ghost predicate NoWhitespace(u: string)
  {
    forall k :: 0 <= k < |u| ==> !IsWhitespace(u[k])
  }

  /** `u` belongs to the language of `https?://[^\s]+`. */
  ghost predicate IsUrlToken(u: string)
  {
    (|u| > |Http| && u[..|Http|] == Http && NoWhitespace(u[|Http|..]))
    || (|u| > |Https| && u[..|Https|] == Https && NoWhitespace(u[|Https|..]))
  }

  /** The regular expression matches the substring `s[i..j]`. */
  ghost predicate MatchAt(s: string, i: int, j: int)
  {
    0 <= i <= j <= |s| && IsUrlToken(s[i..j])
  }

  /** `s.match(...)` does not return null. */
  ghost predicate HasMatch(s: string)
  {
    exists i, j :: MatchAt(s, i, j)
  }

  /** The match `String.prototype.match` reports for a non-global regular expression:
      it starts at the earliest index where any match starts, and `[^\s]+` being
      greedy, it is the longest match from that index. */
  ghost predicate IsLeftmostLongest(s: string, i: int, j: int)
  {
    MatchAt(s, i, j)
    && (forall a, b :: 0 <= a < i && a <= b <= |s| ==> !MatchAt(s, a, b))
    && (forall b :: j < b <= |s| ==> !MatchAt(s, i, b))
  }

  predicate HasPrefixAt(s: string, p: string, i: nat)
  {
    i + |p| <= |s| && s[i..i + |p|] == p
  }

  /** Length of the scheme the pattern's `https?://` matches at `i`, or 0 when it
      matches neither. `s?` is greedy, so `https://` is tried first; when that fails
      the backtracking alternative needs `:` where `s` stood, so the two alternatives
      never both apply. */
  function SchemeLength(s: string, i: nat): (n: nat)
    ensures n == 0 || n == |Http| || n == |Https|
    ensures n > 0 ==> i + n <= |s|
  {
    if HasPrefixAt(s, Https, i) then |Https|
    else if HasPrefixAt(s, Http, i) then |Http|
    else 0
  }

  /** A match of the pattern starts at `i`: a scheme, then at least one
      non-whitespace character. */
  predicate StartsMatch(s: string, i: nat)
  {
    var n := SchemeLength(s, i);
    n > 0 && i + n < |s| && !IsWhitespace(s[i + n])
  }

  /** The earliest index at or after `from` where a match starts. */
  function FindStart(s: string, from: nat): (r: Option<nat>)
    ensures r.Some? ==> from <= r.value < |s| && StartsMatch(s, r.value)
    ensures r.Some? ==> forall k :: from <= k < r.value ==> !StartsMatch(s, k)
    ensures r.None? ==> forall k :: from <= k < |s| ==> !StartsMatch(s, k)
    decreases |s| - from
  {
    if from >= |s| then None
    else if StartsMatch(s, from) then Some(from)
    else FindStart(s, from + 1)
  }

  /** The end of the maximal run of non-whitespace characters starting at `k`:
      how far the greedy `[^\s]+` extends. */
  function RunEnd(s: string, k: nat): (r: nat)
    requires k <= |s|
    ensures k <= r <= |s|
    ensures forall m :: k <= m < r ==> !IsWhitespace(s[m])
    ensures r == |s| || IsWhitespace(s[r])
    decreases |s| - k
  {
    if k == |s| || IsWhitespace(s[k]) then k else RunEnd(s, k + 1)
  }

  lemma SchemeCharsNotWhitespace()
    ensures NoWhitespace(Http) && NoWhitespace(Https)
  {
  }

  /** Every token of the language is free of whitespace, scheme included. */
  lemma TokenNoWhitespace(u: string)
    ensures IsUrlToken(u) ==> NoWhitespace(u)
  {
    SchemeCharsNotWhitespace();
    var n := if |u| > |Https| && u[..|Https|] == Https && NoWhitespace(u[|Https|..]) then |Https| else |Http|;
    if IsUrlToken(u) {
      forall k | 0 <= k < |u| ensures !IsWhitespace(u[k]) {
        if k < n { assert u[k] == u[..n][k]; } else { assert u[k] == u[n..][k - n]; }
      }
    }
  }

  /** Any match starting at `i` is recognised by StartsMatch, and it uses the scheme
      SchemeLength reports. */
  lemma MatchStarts(s: string, i: nat, j: nat)
    ensures MatchAt(s, i, j) ==> StartsMatch(s, i) && i + SchemeLength(s, i) < j
  {
    if MatchAt(s, i, j) {
      var u := s[i..j];
      if |u| > |Https| && u[..|Https|] == Https && NoWhitespace(u[|Https|..]) {
        assert s[i..i + |Https|] == u[..|Https|];
        assert s[i + |Https|] == u[|Https|..][0];
      } else {
        assert s[i..i + |Http|] == u[..|Http|];
        assert s[i + 4] == u[4] == ':';
        if i + |Https| <= |s| { assert s[i..i + |Https|][4] == s[i + 4]; }
        assert s[i + |Http|] == u[|Http|..][0];
      }
    }
  }

  /** The shortest match at a start: the scheme and one more character. */
  lemma ShortestMatch(s: string, i: nat)
    ensures StartsMatch(s, i) ==> MatchAt(s, i, i + SchemeLength(s, i) + 1)
  {
    if StartsMatch(s, i) {
      var n := SchemeLength(s, i);
      var u := s[i..i + n + 1];
      assert u[..n] == s[i..i + n];
      assert u[n..] == [s[i + n]];
    }
  }

  /** From a start, the match extending over the whole non-whitespace run is a
      match, and no longer one exists. */
  lemma GreedyMatch(s: string, i: nat)
    requires StartsMatch(s, i)
    ensures MatchAt(s, i, RunEnd(s, i + SchemeLength(s, i)))
    ensures forall b :: RunEnd(s, i + SchemeLength(s, i)) < b <= |s| ==> !MatchAt(s, i, b)
  {
    var n := SchemeLength(s, i);
    var j := RunEnd(s, i + n);
    SliceSplit(s, i, i + n, j);
    forall b | j < b <= |s| ensures !MatchAt(s, i, b) {
      TokenNoWhitespace(s[i..b]);
      assert s[i..b][j - i] == s[j];
    }
  }

  /** Splitting a slice at an inner index. */
  lemma SliceSplit(s: string, i: nat, m: nat, j: nat)
    requires i <= m <= j <= |s|
    ensures s[i..j][..m - i] == s[i..m] && s[i..j][m - i..] == s[m..j]
  {
  }

  /** Where the regular expression matches, how `String.prototype.match` reports it. */
  datatype Span = Span(start: nat, end: nat)

  /** The span of `text.match(/https?:\/\/[^\s]+/)`, or None where it returns null. */
  function FirstMatch(s: string): (r: Option<Span>)
    ensures r.Some? ==> IsLeftmostLongest(s, r.value.start, r.value.end)
    ensures r.None? ==> !HasMatch(s)
  {
    match FindStart(s, 0)
    case None =>
      assert !HasMatch(s) by {
        forall a, b | 0 <= a <= b <= |s| ensures !MatchAt(s, a, b) { MatchStarts(s, a, b); }
      }
      None
    case Some(i) =>
      var j := RunEnd(s, i + SchemeLength(s, i));
      GreedyMatch(s, i);
      assert forall a, b :: 0 <= a < i && a <= b <= |s| ==> !MatchAt(s, a, b) by {
        forall a, b | 0 <= a < i && a <= b <= |s| ensures !MatchAt(s, a, b) { MatchStarts(s, a, b); }
      }
      Some(Span(i, j))
  }

  /** `text.match(/https?:\/\/[^\s]+/)?.[0]`: the first URL in the text. */
  function FirstUrl(s: string): (r: Option<string>)
    ensures r.None? <==> !HasMatch(s)
    ensures r.Some? ==> exists sp: Span :: IsLeftmostLongest(s, sp.start, sp.end) && r.value == s[sp.start..sp.end]
  {
    match FirstMatch(s)
    case None => None
    case Some(sp) =>
      assert MatchAt(s, sp.start, sp.end);
      Some(s[sp.start..sp.end])
  }

  /** The regular expression's leftmost-longest match is unique, so FirstMatch is the
      only span meeting the specification. */
  lemma LeftmostLongestUnique(s: string, i: int, j: int, i': int, j': int)
    requires IsLeftmostLongest(s, i, j) && IsLeftmostLongest(s, i', j')
    ensures i == i' && j == j'
  {
  }

  /** Shape and extent of the extracted URL: it starts with `http://` or `https://`
      at its index in the text, has at least one character after the scheme, holds no
      whitespace, and is followed by whitespace or by the end of the text. */
  lemma UrlExtent(s: string, i: nat, j: nat)
    requires IsLeftmostLongest(s, i, j)
    ensures (HasPrefixAt(s, Http, i) && i + |Http| < j) || (HasPrefixAt(s, Https, i) && i + |Https| < j)
    ensures NoWhitespace(s[i..j])
    ensures j == |s| || IsWhitespace(s[j])
  {
    MatchStarts(s, i, j);
    TokenNoWhitespace(s[i..j]);
    if j < |s| {
      assert s[i..j + 1] == s[i..j] + [s[j]];
      TokenExtend(s[i..j], s[j]);
      assert MatchAt(s, i, j + 1) == IsUrlToken(s[i..j + 1]);
    }
  }

  /** A token followed by a non-whitespace character is a longer token. */
  lemma TokenExtend(u: string, c: char)
    ensures IsUrlToken(u) && !IsWhitespace(c) ==> IsUrlToken(u + [c])
  {
    if IsUrlToken(u) && !IsWhitespace(c) {
      var n := if |u| > |Https| && u[..|Https|] == Https && NoWhitespace(u[|Https|..]) then |Https| else |Http|;
      assert (u + [c])[..n] == u[..n];
      assert (u + [c])[n..] == u[n..] + [c];
    }
  }

  /** Multiple URLs: when the text before a URL holds no match and ends in whitespace
      (or is empty), and the URL is followed by whitespace (or the end), the extractor
      returns exactly that URL, whatever comes after it. */
  lemma FirstUrlWins(p: string, u: string, rest: string)
    requires !HasMatch(p)
    requires p == [] || IsWhitespace(p[|p| - 1])
    requires IsUrlToken(u)
    requires rest == [] || IsWhitespace(rest[0])
    ensures FirstUrl(p + u + rest) == Some(u)
  {
    var s := p + u + rest;
    var i, j := |p|, |p| + |u|;
    assert s[i..j] == u;
    TokenNoWhitespace(u);
    forall a, b | 0 <= a < i && a <= b <= |s| ensures !MatchAt(s, a, b) {
      MatchStarts(s, a, b);
      NoStartInPrefix(p, u + rest, a);
      assert s == p + (u + rest);
    }
    forall b | j < b <= |s| ensures !MatchAt(s, i, b) {
      TokenNoWhitespace(s[i..b]);
      assert s[i..b][|u|] == s[j] == rest[0];
    }
    assert IsLeftmostLongest(s, i, j);
    var sp := FirstMatch(s).value;
    LeftmostLongestUnique(s, i, j, sp.start, sp.end);
  }

  /** No match starts inside a match-free prefix that ends in whitespace. */
  lemma NoStartInPrefix(p: string, t: string, a: nat)
    requires !HasMatch(p)
    requires p == [] || IsWhitespace(p[|p| - 1])
    requires a < |p|
    ensures !StartsMatch(p + t, a)
  {
    StartInPrefix(p, t, a);
    ShortestMatch(p, a);
  }

  /** A start inside a prefix that ends in whitespace is a start in the prefix alone:
      the scheme and the character after it hold no whitespace, so they end before
      the prefix's last character. */
  lemma StartInPrefix(p: string, t: string, a: nat)
    requires p == [] || IsWhitespace(p[|p| - 1])
    requires a < |p|
    ensures StartsMatch(p + t, a) ==> StartsMatch(p, a)
  {
    var s := p + t;
    var n := SchemeLength(s, a);
    if StartsMatch(s, a) {
      SchemeCharsNotWhitespace();
      assert forall k :: a <= k < a + n ==> s[k] == s[a..a + n][k - a];
      assert s[|p| - 1] == p[|p| - 1];
      assert a + n < |p| - 1;
      assert s[a..a + n] == p[a..a + n];
      if n == |Https| { assert HasPrefixAt(p, Https, a); } else { assert HasPrefixAt(p, Http, a); }
    }
  }
}
