/**
 * The municipality-name diagnostic: every distinct, stripped city name of the
 * vote table that is not literally an official name is reported together with
 * a suggested official name, found in three tiers (exact match, normalized
 * match, fuzzy match), or with "" when there is no confident suggestion.
 *
 * difflib's similarity ratio is a foreign library call; it is passed in as
 * the function `ratio`, about which only its range [0, 1] is assumed.
 */
module Reconcile {
  import opened Optional
  import opened Text
  import opened Geo

  /** A similarity ratio as difflib reports it. */
  type Score = r: real | 0.0 <= r <= 1.0

  /** The `cutoff=0.75` of the fuzzy tier, as an exact rational. */
  const Cutoff: real := 0.75

  /** One reported row: the name in the vote table and the suggested official name ("" for none). */
  datatype Match = Match(candidate: string, suggestion: string)

  /** The single row the download carries when every name matched. */
  const AllMatch := Match("(todos conferem)", "")

  /**
   * `difflib.get_close_matches(c, names, n=1, cutoff=0.75)`: the official name
   * scoring highest against `c`, provided it scores at least the cutoff.
   * Among equal top scores the later name is taken, as difflib's `nlargest`
   * over (score, name) pairs does for sorted names; the contract leaves that
   * choice open.
   */
  function CloseMatch(c: string, names: seq<string>, ratio: (string, string) -> Score): (best: Option<string>)
    ensures best.None? <==> forall n :: n in names ==> ratio(c, n) < Cutoff
    ensures best.Some? ==>
      && best.value in names
      && ratio(c, best.value) >= Cutoff
      && forall n :: n in names ==> ratio(c, n) <= ratio(c, best.value)
  {
    if names == [] then None
    else
      var init := names[..|names| - 1];
      var last := names[|names| - 1];
      var b := CloseMatch(c, init, ratio);
      assert names == init + [last];
      if ratio(c, last) >= Cutoff && (b.None? || ratio(c, last) >= ratio(c, b.value)) then Some(last) else b
  }

  /**
   * The suggestion for a name that is not official: the official name filed
   * under its normalized key when that is non-empty, else the fuzzy match,
   * else "".
   */
  function Suggest(c: string, g: Gazetteer, norm: string -> string, ratio: (string, string) -> Score): (s: string)
    ensures || s == ""
            || (norm(c) in g.index && s == g.index[norm(c)])
            || (s in g.names && ratio(c, s) >= Cutoff)
  {
    var key := norm(c);
    var hit := if key in g.index then g.index[key] else "";
    if hit != "" then hit
    else
      match CloseMatch(c, g.names, ratio)
      case Some(n) => n
      case None => ""
  }

  /** The rows for the candidates `cands`, in their order, skipping official names. */
  function Reconcile(cands: seq<string>, g: Gazetteer, norm: string -> string, ratio: (string, string) -> Score): (rows: seq<Match>)
    ensures |rows| <= |cands|
    ensures forall m :: m in rows ==> m.candidate in cands && m.candidate !in g.names
  {
    if cands == [] then []
    else
      var c := cands[|cands| - 1];
      Reconcile(cands[..|cands| - 1], g, norm, ratio)
        + (if c in g.names then [] else [Match(c, Suggest(c, g, norm, ratio))])
  }

  /**
   * `sorted({c.strip() for c in cities})`: the distinct stripped names in
   * ascending order, never more of them than the column has entries.
   */
  function CsvNames(cities: seq<string>): (names: seq<string>)
    ensures StrictlySorted(names)
    ensures forall c :: c in names <==> c in StripAll(cities)
    ensures |names| <= |cities|
  {
    var names := SortedSet(StripAll(cities));
    StrictlySortedDistinct(names);
    DistinctAtMostLength(StripAll(cities));
    assert (set y | y in names) == (set y | y in StripAll(cities));
    names
  }

  /** The rows the diagnostic reports for the `Cidade` column `cities`: at most one per entry of the column. */
  function Diagnostic(cities: seq<string>, g: Gazetteer, norm: string -> string, ratio: (string, string) -> Score): (rows: seq<Match>)
    ensures |rows| <= |cities|
    ensures forall m :: m in rows ==> m.candidate in StripAll(cities) && m.candidate !in g.names
  {
    Reconcile(CsvNames(cities), g, norm, ratio)
  }

  /** The candidate names of `rows`, in order. */
  function CandidatesOf(rows: seq<Match>): seq<string> {
    seq(|rows|, i requires 0 <= i < |rows| => rows[i].candidate)
  }

  /** Exactly the candidates that are not official names get a row. */
  lemma {:induction false} ReconcileCandidates(cands: seq<string>, g: Gazetteer, norm: string -> string, ratio: (string, string) -> Score)
    ensures forall c :: c in CandidatesOf(Reconcile(cands, g, norm, ratio)) <==> c in cands && c !in g.names
  {
    if cands != [] {
      var init := cands[..|cands| - 1];
      var c := cands[|cands| - 1];
      ReconcileCandidates(init, g, norm, ratio);
      var rows0 := Reconcile(init, g, norm, ratio);
      var rows := Reconcile(cands, g, norm, ratio);
      assert cands == init + [c];
      if c in g.names {
        assert rows == rows0;
      } else {
        assert rows == rows0 + [Match(c, Suggest(c, g, norm, ratio))];
        assert CandidatesOf(rows) == CandidatesOf(rows0) + [c];
      }
    }
  }

  /** Every row carries the suggestion for its candidate. */
  lemma {:induction false} ReconcileSuggestions(cands: seq<string>, g: Gazetteer, norm: string -> string, ratio: (string, string) -> Score)
    ensures forall m :: m in Reconcile(cands, g, norm, ratio) ==> m.suggestion == Suggest(m.candidate, g, norm, ratio)
  {
    if cands != [] {
      var init := cands[..|cands| - 1];
      var c := cands[|cands| - 1];
      ReconcileSuggestions(init, g, norm, ratio);
    }
  }

  /**
   * Exactly the candidates that are not official names get a row, and every
   * row carries the suggestion for its candidate.
   */
  lemma ReconcileRows(cands: seq<string>, g: Gazetteer, norm: string -> string, ratio: (string, string) -> Score)
    ensures var rows := Reconcile(cands, g, norm, ratio);
      && (forall c :: c in CandidatesOf(rows) <==> c in cands && c !in g.names)
      && (forall m :: m in rows ==> m.suggestion == Suggest(m.candidate, g, norm, ratio))
  {
    ReconcileCandidates(cands, g, norm, ratio);
    ReconcileSuggestions(cands, g, norm, ratio);
  }

  /** One more candidate adds its row, unless it is an official name. */
  lemma ReconcileStep(cands: seq<string>, i: nat, g: Gazetteer, norm: string -> string, ratio: (string, string) -> Score)
    requires i < |cands|
    ensures var c := cands[i];
      Reconcile(cands[..i + 1], g, norm, ratio)
        == Reconcile(cands[..i], g, norm, ratio) + (if c in g.names then [] else [Match(c, Suggest(c, g, norm, ratio))])
  {
    assert cands[..i + 1][..i] == cands[..i];
  }

  lemma AppendAbove(s: seq<string>, c: string)
    requires StrictlySorted(s)
    requires forall x :: x in s ==> Below(x, c)
    ensures StrictlySorted(s + [c])
  {
    forall i, j | 0 <= i < j < |s| + 1 ensures Below((s + [c])[i], (s + [c])[j]) {
      if j == |s| {
        assert s[i] in s;
      }
    }
  }

  /** Without its last element a strictly increasing sequence stays so, and lies below that element. */
  lemma SortedInit(s: seq<string>, init: seq<string>, last: string)
    requires StrictlySorted(s) && s == init + [last]
    ensures StrictlySorted(init)
    ensures forall x :: x in init ==> Below(x, last)
  {
    forall p, q | 0 <= p < q < |init| ensures Below(init[p], init[q]) {
      assert init[p] == s[p] && init[q] == s[q];
    }
    forall x | x in init ensures Below(x, last) {
      var j :| 0 <= j < |init| && init[j] == x;
      assert s[j] == x && s[|init|] == last;
    }
  }

  /** Candidates taken in ascending order give rows strictly ascending by candidate. */
  lemma {:induction false} ReconcileSorted(cands: seq<string>, g: Gazetteer, norm: string -> string, ratio: (string, string) -> Score)
    requires StrictlySorted(cands)
    ensures StrictlySorted(CandidatesOf(Reconcile(cands, g, norm, ratio)))
  {
    if cands != [] {
      var i := |cands| - 1;
      var init := cands[..i];
      var c := cands[i];
      assert cands == init + [c];
      SortedInit(cands, init, c);
      ReconcileSorted(init, g, norm, ratio);
      ReconcileStep(cands, i, g, norm, ratio);
      assert cands[..i + 1] == cands;
      var rows0 := Reconcile(init, g, norm, ratio);
      if c in g.names {
        assert Reconcile(cands, g, norm, ratio) == rows0 + [] == rows0;
      } else {
        var names0 := CandidatesOf(rows0);
        assert CandidatesOf(Reconcile(cands, g, norm, ratio)) == names0 + [c];
        ReconcileCandidates(init, g, norm, ratio);
        AppendAbove(names0, c);
      }
    }
  }

  /** The report is empty exactly when every candidate is already an official name. */
  lemma AllOfficialIffEmpty(cands: seq<string>, g: Gazetteer, norm: string -> string, ratio: (string, string) -> Score)
    ensures Reconcile(cands, g, norm, ratio) == [] <==> forall c :: c in cands ==> c in g.names
  {
    ReconcileRows(cands, g, norm, ratio);
    var rows := Reconcile(cands, g, norm, ratio);
    if rows != [] {
      assert rows[0].candidate == CandidatesOf(rows)[0];
    }
  }

  /**
   * The diagnostic reports each distinct stripped city name that is not an
   * official name exactly once, in strictly ascending order, and never one
   * that is official.
   */
  lemma DiagnosticRows(cities: seq<string>, g: Gazetteer, norm: string -> string, ratio: (string, string) -> Score)
    ensures var rows := Diagnostic(cities, g, norm, ratio);
      && StrictlySorted(CandidatesOf(rows))
      && (forall c :: c in CandidatesOf(rows) <==> c in StripAll(cities) && c !in g.names)
      && (forall m :: m in rows ==> m.candidate !in g.names && m.suggestion == Suggest(m.candidate, g, norm, ratio))
  {
    var names := CsvNames(cities);
    ReconcileCandidates(names, g, norm, ratio);
    ReconcileSuggestions(names, g, norm, ratio);
    ReconcileSorted(names, g, norm, ratio);
  }

  /** The report depends on which names occur in the column, not on their order or repetition. */
  lemma DiagnosticIgnoresRowOrder(cities: seq<string>, others: seq<string>, g: Gazetteer, norm: string -> string, ratio: (string, string) -> Score)
    requires forall c :: c in StripAll(cities) <==> c in StripAll(others)
    ensures Diagnostic(cities, g, norm, ratio) == Diagnostic(others, g, norm, ratio)
  {
    SortedSetDependsOnlyOnElements(StripAll(cities), StripAll(others));
  }

  /**
   * Tier 2 takes precedence over fuzzy matching: when an official name `n`
   * (other than "") shares the candidate's normalized key, the suggestion is
   * an official name with that same key, namely the one last in code-point
   * order among those sharing it.
   */
  lemma NormalizedTierWins(c: string, g: Gazetteer, norm: string -> string, ratio: (string, string) -> Score, n: string)
    requires WellFormed(g, norm)
    requires n in g.names && n != "" && norm(n) == norm(c)
    ensures var s := Suggest(c, g, norm, ratio);
      && s == g.index[norm(c)]
      && s in g.names && norm(s) == norm(c)
      && (s == n || Below(n, s))
  {
    IndexKeepsGreatest(g.names, norm, n);
  }

  /** Every suggestion is either "" or an official name. */
  lemma SuggestionIsOfficial(c: string, g: Gazetteer, norm: string -> string, ratio: (string, string) -> Score)
    requires WellFormed(g, norm)
    ensures var s := Suggest(c, g, norm, ratio); s == "" || s in g.names
  {
  }

  /**
   * Tier 3: without a non-empty normalized hit, a non-empty suggestion scores
   * at least the cutoff and no official name scores higher; "" means no
   * official name reaches the cutoff, or "" is itself the best-scoring
   * official name and reaches the cutoff.
   */
  lemma FuzzyTier(c: string, g: Gazetteer, norm: string -> string, ratio: (string, string) -> Score)
    requires norm(c) !in g.index || g.index[norm(c)] == ""
    ensures var s := Suggest(c, g, norm, ratio);
      && (s != "" ==> s in g.names && ratio(c, s) >= Cutoff && forall n :: n in g.names ==> ratio(c, n) <= ratio(c, s))
      && (s == "" ==>
            || (forall n :: n in g.names ==> ratio(c, n) < Cutoff)
            || ("" in g.names && ratio(c, "") >= Cutoff && forall n :: n in g.names ==> ratio(c, n) <= ratio(c, "")))
  {
  }

  /**
   * "Verificar correspondências": walks the sorted distinct names, skips the
   * official ones and collects one row per remaining name.
   */
  method Diagnose(cities: seq<string>, g: Gazetteer, norm: string -> string, ratio: (string, string) -> Score)
    returns (linhas: seq<Match>)
    ensures linhas == Diagnostic(cities, g, norm, ratio)
    ensures StrictlySorted(CandidatesOf(linhas))
    ensures forall m :: m in linhas ==> m.candidate !in g.names
  {
    var csv := CsvNames(cities);
    linhas := [];
    for i := 0 to |csv|
      invariant linhas == Reconcile(csv[..i], g, norm, ratio)
    {
      var c := csv[i];
      ReconcileStep(csv, i, g, norm, ratio);
      if c in g.names {
        continue;
      }
      var key := norm(c);
      var sugerida := if key in g.index then g.index[key] else "";
      if sugerida == "" {
        var sugestoes := CloseMatch(c, g.names, ratio);
        sugerida := if sugestoes.Some? then sugestoes.value else "";
      }
      assert sugerida == Suggest(c, g, norm, ratio);
      linhas := linhas + [Match(c, sugerida)];
    }
    assert csv[..|csv|] == csv;
    DiagnosticRows(cities, g, norm, ratio);
  }

  /**
   * "Baixar diagnóstico": the same rows as the on-screen diagnostic, or the
   * single placeholder row when there are none.
   */
  method DownloadRows(cities: seq<string>, g: Gazetteer, norm: string -> string, ratio: (string, string) -> Score)
    returns (rows: seq<Match>)
    ensures var d := Diagnostic(cities, g, norm, ratio); rows == if d == [] then [AllMatch] else d
    ensures rows != []
  {
    var csv := CsvNames(cities);
    rows := [];
    for i := 0 to |csv|
      invariant rows == Reconcile(csv[..i], g, norm, ratio)
    {
      var c := csv[i];
      ReconcileStep(csv, i, g, norm, ratio);
      if c in g.names {
        continue;
      }
      var key := norm(c);
      var sugerida := if key in g.index then g.index[key] else "";
      if sugerida == "" {
        var sugestoes := CloseMatch(c, g.names, ratio);
        sugerida := if sugestoes.Some? then sugestoes.value else "";
      }
      assert sugerida == Suggest(c, g, norm, ratio);
      rows := rows + [Match(c, sugerida)];
    }
    assert csv[..|csv|] == csv;
    if rows == [] {
      rows := [AllMatch];
    }
  }

}
