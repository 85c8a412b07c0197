/**
 * String helpers for the reply texts: how a template literal renders an integer
 * (`${percentage}`), the parser that inverts it, and prefix, suffix and substring
 * tests.
 */
module Text {
  import opened Wrappers

  predicate IsDigit(c: char)
  {
    '0' <= c <= '9'
  }

  predicate AllDigits(s: string)
  {
    forall k :: 0 <= k < |s| ==> IsDigit(s[k])
  }

  function DigitChar(d: nat): (c: char)
    requires d < 10
    ensures IsDigit(c) && c as int - '0' as int == d
  {
    ('0' as int + d) as char
  }

  function DigitValue(c: char): (d: nat)
    requires IsDigit(c)
    ensures d < 10 && DigitChar(d) == c
  {
    c as int - '0' as int
  }

  /** Decimal digits of `n`, most significant first, without leading zeros. */
  function NatToString(n: nat): (r: string)
    ensures |r| > 0 && AllDigits(r)
    ensures r[0] == '0' <==> n == 0
    ensures n == 0 ==> r == "0"
  {
    if n < 10 then [DigitChar(n)] else NatToString(n / 10) + [DigitChar(n % 10)]
  }

  /** The value of a string of decimal digits. */
  function DigitsValue(s: string): nat
    requires AllDigits(s)
  {
    if s == [] then 0 else 10 * DigitsValue(s[..|s| - 1]) + DigitValue(s[|s| - 1])
  }

  lemma {:induction false} NatRoundTrip(n: nat)
    ensures DigitsValue(NatToString(n)) == n
  {
    if n >= 10 {
      var r := NatToString(n);
      assert r[..|r| - 1] == NatToString(n / 10);
      NatRoundTrip(n / 10);
    }
  }

  /** How JavaScript renders an integral Number in a template literal: an optional
      minus sign and the decimal digits, without leading zeros. */
  function IntToString(i: int): (r: string)
    ensures |r| > 0
    ensures forall k :: 0 <= k < |r| ==> IsDigit(r[k]) || (k == 0 && r[k] == '-')
  {
    if i < 0 then "-" + NatToString(-i) else NatToString(i)
  }

  /** Reads an optionally signed string of decimal digits. */
  function ParseInt(s: string): (r: Option<int>)
    ensures r.Some? ==> |s| > 0
  {
    if |s| > 1 && s[0] == '-' && AllDigits(s[1..]) then var v: int := DigitsValue(s[1..]); Some(-v)
    else if |s| > 0 && AllDigits(s) then Some(DigitsValue(s))
    else None
  }

  /** Rendering an integer loses nothing: parsing gives the integer back, so two
      different percentages never render alike. */
  lemma IntRoundTrip(i: int)
    ensures ParseInt(IntToString(i)) == Some(i)
  {
    var r := IntToString(i);
    if i < 0 {
      assert r[1..] == NatToString(-i);
      assert |r| > 1 && r[0] == '-' && AllDigits(r[1..]);
      NatRoundTrip(-i);
    } else {
      assert r == NatToString(i) && IsDigit(r[0]);
      NatRoundTrip(i);
    }
  }

  predicate StartsWith(s: string, p: string)
  {
    |p| <= |s| && s[..|p|] == p
  }

  predicate EndsWith(s: string, p: string)
  {
    |p| <= |s| && s[|s| - |p|..] == p
  }

  lemma PrefixOf(p: string, x: string)
    ensures StartsWith(p + x, p) && (p + x)[|p|..] == x
  {
    assert (p + x)[..|p|] == p;
  }

  lemma SuffixOf(x: string, q: string)
    ensures EndsWith(x + q, q) && (x + q)[..|x|] == x
  {
    assert (x + q)[|x|..] == q;
  }

  /** `n` occurs in `h` at index `k`. */
  predicate OccursAt(h: string, n: string, k: int)
  {
    0 <= k && k + |n| <= |h| && h[k..k + |n|] == n
  }

  /** `h.includes(n)`. */
  ghost predicate Contains(h: string, n: string)
  {
    exists k :: OccursAt(h, n, k)
  }

  lemma Regroup5(a: string, b: string, c: string, d: string, e: string)
    ensures a + b + c + d + e == a + (b + c + (d + e))
  {
  }

  lemma Regroup8(a: string, b: string, c: string, d: string, e: string, f: string, g: string, h: string)
    ensures (a + b + c + d + e) + (f + g + h) == (a + b) + c + (d + e + f) + g + h
  {
  }

  lemma SplitMiddle(h: string, a: string, m: string, e: string, b: string, c: string, d: string)
    requires h == a + m + e && m == b + c + d
    ensures h == a + b + c + d + e
  {
  }

  lemma Regroup4(a: string, b: string, c: string, d: string)
    ensures a + b + c + d == a + (b + c + d)
  {
  }

  /** The second and fourth pieces of a five-piece concatenation occur in it. */
  lemma ContainsParts5(a: string, b: string, c: string, d: string, e: string)
    ensures Contains(a + b + c + d + e, b) && Contains(a + b + c + d + e, d)
  {
    assert a + b + c + d + e == a + b + (c + d + e);
    ContainsPiece(a, b, c + d + e);
    assert a + b + c + d + e == (a + b + c) + d + e;
    ContainsPiece(a + b + c, d, e);
  }

  /** A four-piece concatenation contains its second piece and ends with its last. */
  lemma ContainsParts4(a: string, b: string, c: string, d: string)
    ensures Contains(a + b + c + d, b) && EndsWith(a + b + c + d, d)
  {
    assert a + b + c + d == a + b + (c + d);
    ContainsPiece(a, b, c + d);
    SuffixOf(a + b + c, d);
  }

  /** `c` does not occur in `s`. */
  predicate Lacks(s: string, c: char)
  {
    forall i :: 0 <= i < |s| ==> s[i] != c
  }

  lemma LacksConcat(a: string, b: string, c: char)
    requires Lacks(a, c) && Lacks(b, c)
    ensures Lacks(a + b, c)
  {
  }

  /** A needle whose second and third characters are one character `c` can occur in
      `x + [c] + y + [c, c] + r`, where `c` is absent from `x`, `y` and `r`, only over
      the doubled `c`; if its seventh character differs from the one found there, it
      does not occur at all. */
  lemma AbsentAroundPair(x: string, y: string, r: string, n: string)
    requires 6 < |n| && n[1] == n[2]
    requires Lacks(x, n[1]) && Lacks(y, n[1]) && Lacks(r, n[1]) && |y| > 0
    requires 3 < |r| && r[3] != n[6]
    ensures !Contains(x + [n[1]] + y + [n[1], n[1]] + r, n)
  {
    var c := n[1];
    var t := x + [c] + y + [c, c] + r;
    var q := |x| + 1 + |y|;
    forall i | 0 <= i < |t| && i != |x| && i != q && i != q + 1
      ensures t[i] != c
    {
      if i < |x| {
        assert t[i] == x[i];
      } else if i < q {
        assert t[i] == y[i - |x| - 1];
      } else {
        assert t[i] == r[i - q - 2];
      }
    }
    forall k | 0 <= k && k + |n| <= |t|
      ensures !OccursAt(t, n, k)
    {
      var w := t[k..k + |n|];
      assert w[1] == t[k + 1] && w[2] == t[k + 2];
      if k + 1 == q {
        assert t[k + 6] == r[3];
        assert w[6] == t[k + 6];
      } else {
        assert t[k + 1] != c || t[k + 2] != c;
      }
    }
  }

  /** The second half of a concatenation occurs in it. */
  lemma ContainsEnd(a: string, n: string)
    ensures Contains(a + n, n)
  {
    assert (a + n)[|a|..|a| + |n|] == n;
    assert OccursAt(a + n, n, |a|);
  }

  /** A piece of a concatenation occurs in it. */
  lemma ContainsPiece(a: string, n: string, b: string)
    ensures Contains(a + n + b, n)
  {
    assert (a + n + b)[|a|..|a| + |n|] == n;
    assert OccursAt(a + n + b, n, |a|);
  }
}
