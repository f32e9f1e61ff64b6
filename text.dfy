/**
 * String operations of Python's `str` that the harvester relies on:
 * `startswith`, `endswith`, the substring test `t in s`, `rfind`, `find`,
 * `replace(c, '')` and `str(n)` for natural numbers.
 */
module Text {

  /** `s.startswith(p)` */
  predicate StartsWith(s: string, p: string)
  {
    |p| <= |s| && s[..|p|] == p
  }

  /** `s.endswith(p)` */
  predicate EndsWith(s: string, p: string)
  {
    |p| <= |s| && s[|s| - |p|..] == p
  }

  /** The substring test `t in s`: some contiguous block of `s` equals `t`. */
  predicate Contains(s: string, t: string)
    decreases |s|
  {
    StartsWith(s, t) || (|s| > 0 && Contains(s[1..], t))
  }

  lemma {:induction false} ContainsInSuffix(s: string, k: nat, t: string)
    requires k <= |s|
    requires Contains(s[k..], t)
    ensures Contains(s, t)
    decreases k
  {
    if k > 0 {
      assert s[1..][k - 1..] == s[k..];
      ContainsInSuffix(s[1..], k - 1, t);
    }
  }

  /** Whatever contains `a + b` contains `a` and contains `b`. */
  lemma {:induction false} ContainsParts(s: string, a: string, b: string)
    requires Contains(s, a + b)
    ensures Contains(s, a) && Contains(s, b)
    decreases |s|
  {
    if StartsWith(s, a + b) {
      assert s[..|a|] == (a + b)[..|a|] == a;
      assert s[|a|..][..|b|] == (a + b)[|a|..] == b;
      ContainsInSuffix(s, |a|, b);
    } else {
      ContainsParts(s[1..], a, b);
    }
  }

  /** `s.rfind(c)`: the last index holding `c`, or -1. */
  function LastIndexOf(s: string, c: char): (r: int)
    ensures -1 <= r < |s|
    ensures r >= 0 ==> s[r] == c
    ensures forall i :: r < i < |s| ==> s[i] != c
    decreases |s|
  {
    if |s| == 0 then -1
    else if s[|s| - 1] == c then |s| - 1
    else LastIndexOf(s[..|s| - 1], c)
  }

  /**
   * The first index at or after `from` whose character is in `cs`, or `|s|`
   * when there is none (the `min` of several `find` calls).
   */
  function IndexOfAny(s: string, from: nat, cs: set<char>): (r: nat)
    requires from <= |s|
    ensures from <= r <= |s|
    ensures forall i :: from <= i < r ==> s[i] !in cs
    ensures r < |s| ==> s[r] in cs
    decreases |s| - from
  {
    if from == |s| then from
    else if s[from] in cs then from
    else IndexOfAny(s, from + 1, cs)
  }

  /** The last occurrence is the one position holding `c` with no `c` after it. */
  lemma LastIndexOfIs(s: string, c: char, k: int)
    requires -1 <= k < |s| && (k >= 0 ==> s[k] == c)
    requires forall i :: k < i < |s| ==> s[i] != c
    ensures LastIndexOf(s, c) == k
  {
  }

  /** The first hit is the one position in `cs` (or the end) with no hit before it. */
  lemma IndexOfAnyIs(s: string, from: nat, cs: set<char>, k: nat)
    requires from <= k <= |s| && (k < |s| ==> s[k] in cs)
    requires forall i :: from <= i < k ==> s[i] !in cs
    ensures IndexOfAny(s, from, cs) == k
  {
  }

  /** `s.replace(c, '')` for a single character `c`. */
  function RemoveChar(s: string, c: char): (r: string)
    ensures c !in r
    ensures forall x :: x != c ==> (x in r <==> x in s)
    ensures |r| <= |s|
    decreases |s|
  {
    if |s| == 0 then ""
    else if s[0] == c then RemoveChar(s[1..], c)
    else [s[0]] + RemoveChar(s[1..], c)
  }

  /**
   * RemoveChar works character by character: it distributes over
   * concatenation, drops `c` itself and keeps any other single character.
   * Together these fix the result as the non-`c` characters of `s`, in order.
   */
  lemma {:induction false} RemoveCharConcat(s: string, t: string, c: char)
    ensures RemoveChar(s + t, c) == RemoveChar(s, c) + RemoveChar(t, c)
    ensures RemoveChar([c], c) == ""
    ensures forall x :: x != c ==> RemoveChar([x], c) == [x]
    decreases |s|
  {
    if |s| > 0 {
      assert (s + t)[1..] == s[1..] + t;
      RemoveCharConcat(s[1..], t, c);
    } else {
      assert s + t == t;
    }
    forall x | x != c ensures RemoveChar([x], c) == [x] {
      assert [x][1..] == "";
    }
    assert [c][1..] == "";
  }

  function DigitChar(d: nat): (c: char)
    requires d < 10
    ensures '0' <= c <= '9'
  {
    (('0' as int) + d) as char
  }

  /** `str(n)` for a natural number: its decimal digits, most significant first. */
  function Decimal(n: nat): (r: string)
    ensures |r| >= 1
    ensures n >= 10 ==> |r| >= 2
    ensures forall i :: 0 <= i < |r| ==> '0' <= r[i] <= '9'
    decreases n
  {
    if n < 10 then [DigitChar(n)] else Decimal(n / 10) + [DigitChar(n % 10)]
  }

  /** Distinct numbers have distinct decimal spellings. */
  lemma {:induction false} DecimalInjective(m: nat, n: nat)
    requires Decimal(m) == Decimal(n)
    ensures m == n
    decreases m
  {
    if m >= 10 && n >= 10 {
      var dm, dn := Decimal(m), Decimal(n);
      assert dm[..|dm| - 1] == Decimal(m / 10);
      assert dn[..|dn| - 1] == Decimal(n / 10);
      DecimalInjective(m / 10, n / 10);
      assert dm[|dm| - 1] == DigitChar(m % 10);
      assert dn[|dn| - 1] == DigitChar(n % 10);
    } else if m < 10 && n < 10 {
      assert Decimal(m)[0] == DigitChar(m);
      assert Decimal(n)[0] == DigitChar(n);
    }
  }
}
