/**
 * String helpers the dashboard relies on: Python's `str.strip()` with no
 * argument, the code-point order in which Python's `sorted` puts strings, and
 * `sorted(set(...))` as a strictly increasing sequence.
 */
module Text {

  /** The characters for which Python's `str.isspace()` holds. */
  const Whitespace: set<char> := {
    '\t', '\n', '\U{0B}', '\U{0C}', '\r', '\U{1C}', '\U{1D}', '\U{1E}', '\U{1F}', ' ',
    '\U{85}', '\U{A0}', '\U{1680}',
    '\U{2000}', '\U{2001}', '\U{2002}', '\U{2003}', '\U{2004}', '\U{2005}',
    '\U{2006}', '\U{2007}', '\U{2008}', '\U{2009}', '\U{200A}',
    '\U{2028}', '\U{2029}', '\U{202F}', '\U{205F}', '\U{3000}'
  }

  /** Python's `ch.isspace()` for a single character. */
  predicate IsSpace(ch: char) {
    ch in Whitespace
  }

  /** `s` without its leading whitespace: a suffix of `s`. */
  function StripStart(s: string): (r: string)
    ensures |r| <= |s| && r == s[|s| - |r|..]
    ensures r == [] || !IsSpace(r[0])
    ensures forall k :: 0 <= k < |s| - |r| ==> IsSpace(s[k])
  {
    if s == [] || !IsSpace(s[0]) then s else StripStart(s[1..])
  }

  /** `s` without its trailing whitespace: a prefix of `s`. */
  function StripEnd(s: string): (r: string)
    ensures |r| <= |s| && r == s[..|r|]
    ensures r == [] || !IsSpace(r[|r| - 1])
    ensures forall k :: |r| <= k < |s| ==> IsSpace(s[k])
  {
    if s == [] || !IsSpace(s[|s| - 1]) then s else StripEnd(s[..|s| - 1])
  }

  /**
   * Python's `s.strip()`: the piece of `s` left after dropping whitespace at
   * both ends; it neither starts nor ends with whitespace, and everything
   * dropped is whitespace.
   */
  function Strip(s: string): (r: string)
    ensures var i := |s| - |StripStart(s)|;
      && i + |r| <= |s| && r == s[i..i + |r|]
      && (forall k :: 0 <= k < i ==> IsSpace(s[k]))
      && (forall k :: i + |r| <= k < |s| ==> IsSpace(s[k]))
    ensures r == [] || (!IsSpace(r[0]) && !IsSpace(r[|r| - 1]))
  {
    var t := StripStart(s);
    var r := StripEnd(t);
    assert r == s[|s| - |t|..|s| - |t| + |r|];
    r
  }

  /** Stripping an already stripped string changes nothing. */
  lemma StripIdempotent(s: string)
    ensures Strip(Strip(s)) == Strip(s)
  {
    var r := Strip(s);
    if r != [] {
      assert StripStart(r) == r;
      assert StripEnd(r) == r;
    }
  }

  /** `[x.strip() for x in xs]`. */
  function StripAll(xs: seq<string>): seq<string> {
    seq(|xs|, i requires 0 <= i < |xs| => Strip(xs[i]))
  }

  /** Strict code-point (lexicographic) order on strings, as Python compares `str` values. */
  predicate Below(a: string, b: string) {
    if a == [] then b != []
    else if b == [] then false
    else a[0] < b[0] || (a[0] == b[0] && Below(a[1..], b[1..]))
  }

  lemma {:induction false} BelowIrreflexive(a: string)
    ensures !Below(a, a)
  {
    if a != [] {
      BelowIrreflexive(a[1..]);
    }
  }

  lemma {:induction false} BelowTransitive(a: string, b: string, c: string)
    requires Below(a, b) && Below(b, c)
    ensures Below(a, c)
  {
    if a != [] && a[0] == b[0] && b[0] == c[0] {
      BelowTransitive(a[1..], b[1..], c[1..]);
    }
  }

  lemma {:induction false} BelowTotal(a: string, b: string)
    ensures a == b || Below(a, b) || Below(b, a)
  {
    if a != [] && b != [] && a[0] == b[0] {
      BelowTotal(a[1..], b[1..]);
      if a[1..] == b[1..] {
        assert a == [a[0]] + a[1..] && b == [b[0]] + b[1..];
      }
    }
  }

  /** The order is asymmetric: no two strings are each below the other, and none is below itself. */
  lemma BelowAsymmetric(a: string, b: string)
    ensures Below(a, b) ==> !Below(b, a) && a != b
  {
    BelowIrreflexive(a);
    if Below(a, b) && Below(b, a) {
      BelowTransitive(a, b, a);
    }
  }

  /** Strictly increasing in code-point order, hence also free of duplicates. */
  ghost predicate StrictlySorted(s: seq<string>) {
    forall i, j :: 0 <= i < j < |s| ==> Below(s[i], s[j])
  }

  /** Inserts `x` into a strictly increasing sequence, unless it is already there. */
  function Insert(x: string, s: seq<string>): (r: seq<string>)
    requires StrictlySorted(s)
    ensures StrictlySorted(r)
    ensures forall y :: y in r <==> y == x || y in s
  {
    if s == [] then [x]
    else if x == s[0] then s
    else if Below(x, s[0]) then
      assert forall j :: 0 <= j < |s| ==> Below(x, s[j]) by {
        forall j | 0 <= j < |s| ensures Below(x, s[j]) {
          if j > 0 { BelowTransitive(x, s[0], s[j]); }
        }
      }
      [x] + s
    else
      var t := Insert(x, s[1..]);
      BelowTotal(x, s[0]);
      assert forall y :: y in t ==> Below(s[0], y);
      [s[0]] + t
  }

  /** Python's `sorted(set(xs))`: the distinct elements of `xs` in ascending order. */
  function SortedSet(xs: seq<string>): (r: seq<string>)
    ensures StrictlySorted(r)
    ensures forall y :: y in r <==> y in xs
  {
    if xs == [] then [] else Insert(xs[0], SortedSet(xs[1..]))
  }

  /** A strictly increasing sequence holds no element twice. */
  lemma {:induction false} StrictlySortedDistinct(s: seq<string>)
    requires StrictlySorted(s)
    ensures |set y | y in s| == |s|
  {
    if s != [] {
      StrictlySortedDistinct(s[1..]);
      assert s[0] !in s[1..] by {
        forall j | 1 <= j < |s| ensures s[j] != s[0] {
          BelowAsymmetric(s[0], s[j]);
        }
      }
      assert (set y | y in s) == (set y | y in s[1..]) + {s[0]};
    }
  }

  /** A sequence holds at most as many distinct elements as it has positions. */
  lemma {:induction false} DistinctAtMostLength(xs: seq<string>)
    ensures |set y | y in xs| <= |xs|
  {
    if xs != [] {
      DistinctAtMostLength(xs[1..]);
      assert (set y | y in xs) == (set y | y in xs[1..]) + {xs[0]};
    }
  }

  /** The first element of a strictly increasing sequence is below every other one. */
  lemma HeadIsLeast(s: seq<string>, y: string)
    requires StrictlySorted(s) && y in s
    ensures y == s[0] || Below(s[0], y)
  {
  }

  /** Two strictly increasing sequences with the same elements are equal. */
  lemma {:induction false} StrictlySortedUnique(s: seq<string>, t: seq<string>)
    requires StrictlySorted(s) && StrictlySorted(t)
    requires forall y :: y in s <==> y in t
    ensures s == t
  {
    assert s == [] <==> t == [] by {
      if s != [] { assert s[0] in t; }
      if t != [] { assert t[0] in s; }
    }
    if s != [] {
      HeadIsLeast(t, s[0]);
      HeadIsLeast(s, t[0]);
      BelowAsymmetric(s[0], t[0]);
      assert s[0] == t[0];
      forall y ensures y in s[1..] <==> y in t[1..] {
        if y in s[1..] {
          var i :| 1 <= i < |s| && s[i] == y;
          BelowAsymmetric(s[0], s[i]);
          assert y in t;
          var k :| 0 <= k < |t| && t[k] == y;
          assert k != 0 && t[1..][k - 1] == y;
        }
        if y in t[1..] {
          var i :| 1 <= i < |t| && t[i] == y;
          BelowAsymmetric(t[0], t[i]);
          assert y in s;
          var k :| 0 <= k < |s| && s[k] == y;
          assert k != 0 && s[1..][k - 1] == y;
        }
      }
      StrictlySortedUnique(s[1..], t[1..]);
      assert s == [s[0]] + s[1..] && t == [t[0]] + t[1..];
    }
  }

  /**
   * `sorted(set(xs))` depends only on which strings occur in `xs`, not on
   * their order or repetition.
   */
  lemma SortedSetDependsOnlyOnElements(xs: seq<string>, ys: seq<string>)
    requires forall y :: y in xs <==> y in ys
    ensures SortedSet(xs) == SortedSet(ys)
  {
    StrictlySortedUnique(SortedSet(xs), SortedSet(ys));
  }

}
