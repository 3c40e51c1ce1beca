/**
 * The official municipality names of the boundary dataset (`GEO_NAMES`) and
 * the lookup from normalized key to official name (`GEO_NAMES_NORMALIZED`),
 * both built once when the application starts.
 *
 * The normalization `unidecode(n).lower()` is a foreign library call; it is
 * passed in as the function `norm`, about which nothing is assumed.
 */
module Geo {
  import opened Text

  /** The official names together with their normalized lookup. */
  datatype Gazetteer = Gazetteer(names: seq<string>, index: map<string, string>)

  /**
   * `GEO_NAMES`: the stripped `name` properties of the features, without
   * duplicates, in ascending code-point order.
   */
  function OfficialNames(featureNames: seq<string>): (names: seq<string>)
    ensures StrictlySorted(names)
    ensures forall n :: n in names <==> n in StripAll(featureNames)
    ensures forall f :: f in featureNames ==> Strip(f) in names
  {
    var stripped := StripAll(featureNames);
    var names := SortedSet(stripped);
    assert forall f :: f in featureNames ==> Strip(f) in names by {
      forall f | f in featureNames ensures Strip(f) in names {
        var i :| 0 <= i < |featureNames| && featureNames[i] == f;
        assert stripped[i] == Strip(f);
      }
    }
    names
  }

  /**
   * `{norm(n): n for n in names}`: every name is filed under its normalized
   * key, and each key holds a name normalizing to it.
   */
  function NormalizedIndex(names: seq<string>, norm: string -> string): (m: map<string, string>)
    ensures m.Keys == set n | n in names :: norm(n)
    ensures forall k :: k in m ==> m[k] in names && norm(m[k]) == k
  {
    if names == [] then map[]
    else
      var init := names[..|names| - 1];
      var last := names[|names| - 1];
      assert names == init + [last];
      NormalizedIndex(init, norm)[norm(last) := last]
  }

  /**
   * Last write wins: the name a key holds is at a position after which no
   * other name has that key.
   */
  lemma {:induction false} IndexLastWriteWins(names: seq<string>, norm: string -> string, k: string)
    requires k in NormalizedIndex(names, norm)
    ensures exists i ::
      && 0 <= i < |names|
      && names[i] == NormalizedIndex(names, norm)[k]
      && forall j :: i < j < |names| ==> norm(names[j]) != k
  {
    var init := names[..|names| - 1];
    var last := names[|names| - 1];
    var m := NormalizedIndex(names, norm);
    assert names == init + [last];
    if k == norm(last) {
      assert names[|names| - 1] == m[k];
    } else {
      IndexLastWriteWins(init, norm, k);
      var i :| 0 <= i < |init| && init[i] == NormalizedIndex(init, norm)[k]
        && forall j :: i < j < |init| ==> norm(init[j]) != k;
      assert names[i] == m[k];
    }
  }

  /**
   * Over the sorted official names, a key collision is won by the name that
   * comes last in code-point order.
   */
  lemma IndexKeepsGreatest(names: seq<string>, norm: string -> string, n: string)
    requires StrictlySorted(names) && n in names
    ensures var m := NormalizedIndex(names, norm);
      && norm(n) in m
      && (n == m[norm(n)] || Below(n, m[norm(n)]))
  {
    var m := NormalizedIndex(names, norm);
    var k := norm(n);
    assert k in m;
    var j :| 0 <= j < |names| && names[j] == n;
    IndexLastWriteWins(names, norm, k);
    var i :| 0 <= i < |names| && names[i] == m[k] && forall j' :: i < j' < |names| ==> norm(names[j']) != k;
    assert j <= i;
  }

  /** When no two official names share a normalized key, the index is an exact inverse of `norm`. */
  lemma IndexWithoutCollisions(names: seq<string>, norm: string -> string, n: string)
    requires n in names
    requires forall a, b :: a in names && b in names && norm(a) == norm(b) ==> a == b
    ensures var m := NormalizedIndex(names, norm); norm(n) in m && m[norm(n)] == n
  {
  }

  /** The official names are stored in ascending order and the index is built from exactly them. */
  ghost predicate WellFormed(g: Gazetteer, norm: string -> string) {
    StrictlySorted(g.names) && g.index == NormalizedIndex(g.names, norm)
  }

  /** `GEO_NAMES` and `GEO_NAMES_NORMALIZED` as the application builds them at start-up. */
  function Load(featureNames: seq<string>, norm: string -> string): (g: Gazetteer)
    ensures WellFormed(g, norm)
    ensures forall n :: n in g.names <==> n in StripAll(featureNames)
  {
    var names := OfficialNames(featureNames);
    Gazetteer(names, NormalizedIndex(names, norm))
  }

}
