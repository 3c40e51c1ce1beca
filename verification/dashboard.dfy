/**
 * The filtering and aggregation behind the dashboard's controls: the city
 * dropdown, the two counters (total votes, number of municipalities) and the
 * ranking of municipalities by votes, all computed from the vote table rows
 * `(Inspetoria, Cidade, Votos)`.
 */
module Dashboard {
  import opened Optional
  import opened Text

  /** One row of the vote table, with `Inspetoria` and `Cidade` already stripped. */
  datatype VoteRow = VoteRow(inspetoria: string, cidade: string, votos: int)

  /** One bar of the ranking: a municipality and its summed votes. */
  datatype CityTotal = CityTotal(cidade: string, votos: int)

  /** How many bars the ranking shows (`head(15)`). */
  const RankingSize: nat := 15

  /** Python truthiness of a dropdown value: `None` and "" select nothing. */
  predicate Selected(v: Option<string>) {
    v.Some? && v.value != ""
  }

  /** Whether a row survives the inspetoria and city filters. */
  predicate Passes(r: VoteRow, inspetoria: Option<string>, cidade: Option<string>) {
    && (Selected(inspetoria) ==> r.inspetoria == inspetoria.value)
    && (Selected(cidade) ==> r.cidade == cidade.value)
  }

  /** The rows that survive the filters, in table order. */
  function FilterRows(rows: seq<VoteRow>, inspetoria: Option<string>, cidade: Option<string>): (kept: seq<VoteRow>)
    ensures |kept| <= |rows|
    ensures forall r :: r in kept <==> r in rows && Passes(r, inspetoria, cidade)
  {
    if rows == [] then []
    else
      (if Passes(rows[0], inspetoria, cidade) then [rows[0]] else [])
        + FilterRows(rows[1..], inspetoria, cidade)
  }

  /** Filtering keeps every copy of a passing row and no copy of any other row. */
  lemma {:induction false} FilterKeepsCopies(rows: seq<VoteRow>, inspetoria: Option<string>, cidade: Option<string>)
    ensures var kept := FilterRows(rows, inspetoria, cidade);
      forall r :: multiset(kept)[r] == if Passes(r, inspetoria, cidade) then multiset(rows)[r] else 0
  {
    if rows != [] {
      FilterKeepsCopies(rows[1..], inspetoria, cidade);
      assert rows == [rows[0]] + rows[1..];
      assert multiset(rows) == multiset{rows[0]} + multiset(rows[1..]);
    }
  }

  /** The `Cidade` column of `rows`. */
  function Cities(rows: seq<VoteRow>): seq<string> {
    seq(|rows|, i requires 0 <= i < |rows| => rows[i].cidade)
  }

  /**
   * `df["Votos"].sum()`: with no negative vote counts the sum is not negative
   * and no row has more votes than the sum.
   */
  function SumVotes(rows: seq<VoteRow>): (total: int)
    ensures (forall r :: r in rows ==> r.votos >= 0) ==> total >= 0 && forall r :: r in rows ==> r.votos <= total
  {
    if rows == [] then 0
    else
      assert forall r :: r in rows[1..] ==> r in rows;
      rows[0].votos + SumVotes(rows[1..])
  }

  /** The votes of the rows passing the filters, summed over the whole table. */
  function PassingVotes(rows: seq<VoteRow>, inspetoria: Option<string>, cidade: Option<string>): int {
    if rows == [] then 0
    else (if Passes(rows[0], inspetoria, cidade) then rows[0].votos else 0) + PassingVotes(rows[1..], inspetoria, cidade)
  }

  /** Summing the filtered table counts each passing row once and nothing else. */
  lemma {:induction false} FilteredSum(rows: seq<VoteRow>, inspetoria: Option<string>, cidade: Option<string>)
    ensures SumVotes(FilterRows(rows, inspetoria, cidade)) == PassingVotes(rows, inspetoria, cidade)
  {
    if rows != [] {
      FilteredSum(rows[1..], inspetoria, cidade);
      var rest := FilterRows(rows[1..], inspetoria, cidade);
      if Passes(rows[0], inspetoria, cidade) {
        assert FilterRows(rows, inspetoria, cidade) == [rows[0]] + rest;
        assert ([rows[0]] + rest)[1..] == rest;
      } else {
        assert FilterRows(rows, inspetoria, cidade) == rest;
      }
    }
  }

  /**
   * The options of the city dropdown: the distinct cities of the selected
   * inspetoria (of the whole table when none is selected), in ascending order.
   */
  function CityOptions(rows: seq<VoteRow>, inspetoria: Option<string>): (cidades: seq<string>)
    ensures StrictlySorted(cidades)
    ensures forall c :: c in cidades <==>
      exists r :: r in rows && r.cidade == c && (Selected(inspetoria) ==> r.inspetoria == inspetoria.value)
  {
    var kept := FilterRows(rows, inspetoria, None);
    var cidades := SortedSet(Cities(kept));
    assert forall c :: c in cidades <==> exists r :: r in kept && r.cidade == c by {
      forall c ensures c in cidades <==> exists r :: r in kept && r.cidade == c {
        if c in cidades {
          var i :| 0 <= i < |kept| && Cities(kept)[i] == c;
          assert kept[i] in kept;
        }
        if r :| r in kept && r.cidade == c {
          var i :| 0 <= i < |kept| && kept[i] == r;
          assert Cities(kept)[i] == c;
        }
      }
    }
    cidades
  }

  /**
   * `atualizar_opcoes_cidade`: the new options, and the selected city, which
   * is cleared when the clear button fired or when it is not among the new
   * options, and kept otherwise.
   */
  function UpdateCityDropdown(rows: seq<VoteRow>, inspetoria: Option<string>, clearClicked: bool, current: Option<string>)
    : (result: (seq<string>, Option<string>))
    ensures result.0 == CityOptions(rows, inspetoria)
    ensures result.1.Some? ==> !clearClicked && result.1 == current && result.1.value in result.0
    ensures result.1.None? ==> clearClicked || current.None? || current.value !in result.0
  {
    var cidades := CityOptions(rows, inspetoria);
    var cidade := if clearClicked then None
                  else if current.None? || current.value !in cidades then None
                  else current;
    (cidades, cidade)
  }

  /**
   * Once the dropdown has been updated, a further update with the same
   * inspetoria and no click keeps the same options and the same city.
   */
  lemma DropdownSettles(rows: seq<VoteRow>, inspetoria: Option<string>, clearClicked: bool, current: Option<string>)
    ensures var first := UpdateCityDropdown(rows, inspetoria, clearClicked, current);
      UpdateCityDropdown(rows, inspetoria, false, first.1) == first
  {
  }

  /** What the filtered table says about the passing rows of the whole table. */
  lemma FilteredFacts(rows: seq<VoteRow>, inspetoria: Option<string>, cidade: Option<string>)
    ensures var df := FilterRows(rows, inspetoria, cidade);
      && SumVotes(df) == PassingVotes(rows, inspetoria, cidade)
      && (set r | r in df :: r.cidade) == (set r | r in rows && Passes(r, inspetoria, cidade) :: r.cidade)
      && (df == [] <==> forall r :: r in rows ==> !Passes(r, inspetoria, cidade))
      && (df != [] ==> (set r | r in df :: r.cidade) != {})
  {
    var df := FilterRows(rows, inspetoria, cidade);
    FilteredSum(rows, inspetoria, cidade);
    var kept := set r | r in df :: r.cidade;
    var passing := set r | r in rows && Passes(r, inspetoria, cidade) :: r.cidade;
    forall c | c in passing ensures c in kept {
      var r :| r in rows && Passes(r, inspetoria, cidade) && r.cidade == c;
      assert r in df;
    }
    assert kept == passing;
    if df != [] {
      assert df[0] in df;
      assert df[0].cidade in kept;
    }
  }

  /**
   * The two counters: the summed votes of the filtered rows and the number of
   * distinct cities among them, both 0 when the filter keeps nothing.
   */
  function Counters(rows: seq<VoteRow>, inspetoria: Option<string>, cidade: Option<string>): (kpi: (int, nat))
    ensures kpi.0 == PassingVotes(rows, inspetoria, cidade)
    ensures kpi.1 == |set r | r in rows && Passes(r, inspetoria, cidade) :: r.cidade|
    ensures kpi.1 == 0 <==> forall r :: r in rows ==> !Passes(r, inspetoria, cidade)
    ensures kpi.1 == 0 ==> kpi.0 == 0
  {
    var df := FilterRows(rows, inspetoria, cidade);
    var total := if df == [] then 0 else SumVotes(df);
    var qtd := if df == [] then 0 else |set r | r in df :: r.cidade|;
    FilteredFacts(rows, inspetoria, cidade);
    (total, qtd)
  }

  /** With a city selected, the counters cover at most that one municipality. */
  lemma SelectedCityCountsOnce(rows: seq<VoteRow>, inspetoria: Option<string>, cidade: Option<string>)
    requires Selected(cidade)
    ensures Counters(rows, inspetoria, cidade).1 <= 1
  {
    var cities := set r | r in rows && Passes(r, inspetoria, cidade) :: r.cidade;
    assert cities == {} || cities == {cidade.value};
  }

  /**
   * The votes of the rows of city `c`: the same figure as the total-votes
   * counter shows when `c` is the selected city, and 0 for a city without rows.
   */
  function CityVotes(rows: seq<VoteRow>, c: string): (votos: int)
    ensures c != "" ==> votos == PassingVotes(rows, None, Some(c))
    ensures (forall r :: r in rows ==> r.cidade != c) ==> votos == 0
  {
    if rows == [] then 0
    else
      assert forall r :: r in rows[1..] ==> r in rows;
      (if rows[0].cidade == c then rows[0].votos else 0) + CityVotes(rows[1..], c)
  }

  /** The entries for the cities `cs`, in that order, each with its summed votes. */
  function TotalsFor(cs: seq<string>, rows: seq<VoteRow>): (groups: seq<CityTotal>)
    ensures |groups| == |cs|
    ensures forall i :: 0 <= i < |cs| ==> groups[i] == CityTotal(cs[i], CityVotes(rows, cs[i]))
  {
    if cs == [] then [] else [CityTotal(cs[0], CityVotes(rows, cs[0]))] + TotalsFor(cs[1..], rows)
  }

  /**
   * `groupby("Cidade")["Votos"].sum()`: one entry per distinct city, in
   * ascending order of city, carrying that city's summed votes.
   */
  function GroupTotals(rows: seq<VoteRow>): (groups: seq<CityTotal>)
    ensures forall i, j :: 0 <= i < j < |groups| ==> Below(groups[i].cidade, groups[j].cidade)
    ensures forall g :: g in groups ==> g.votos == CityVotes(rows, g.cidade)
    ensures forall c :: c in Cities(rows) <==> exists g :: g in groups && g.cidade == c
  {
    var cs := SortedSet(Cities(rows));
    var groups := TotalsFor(cs, rows);
    assert forall c :: c in cs ==> exists g :: g in groups && g.cidade == c by {
      forall c | c in cs ensures exists g :: g in groups && g.cidade == c {
        var i :| 0 <= i < |cs| && cs[i] == c;
        assert groups[i] in groups;
      }
    }
    groups
  }

  /** The summed votes of ranking entries. */
  function SumTotals(s: seq<CityTotal>): int {
    if s == [] then 0 else s[0].votos + SumTotals(s[1..])
  }

  /** The votes that row `r` adds to the entries for `cs`. */
  function Share(cs: seq<string>, r: VoteRow): int {
    if cs == [] then 0 else (if cs[0] == r.cidade then r.votos else 0) + Share(cs[1..], r)
  }

  /** A row adds its votes once to a list of distinct cities that holds its city. */
  lemma {:induction false} ShareOnce(cs: seq<string>, r: VoteRow)
    requires StrictlySorted(cs)
    ensures Share(cs, r) == if r.cidade in cs then r.votos else 0
  {
    if cs != [] {
      assert StrictlySorted(cs[1..]);
      ShareOnce(cs[1..], r);
      if cs[0] == r.cidade {
        forall j | 1 <= j < |cs| ensures cs[j] != r.cidade {
          BelowAsymmetric(cs[0], cs[j]);
        }
        assert r.cidade !in cs[1..];
      } else {
        assert r.cidade in cs <==> r.cidade in cs[1..];
      }
    }
  }

  /** Adding a row in front adds its share to the entries for `cs`. */
  lemma {:induction false} TotalsForCons(cs: seq<string>, r: VoteRow, rest: seq<VoteRow>)
    ensures SumTotals(TotalsFor(cs, [r] + rest)) == SumTotals(TotalsFor(cs, rest)) + Share(cs, r)
  {
    if cs != [] {
      TotalsForCons(cs[1..], r, rest);
      assert ([r] + rest)[1..] == rest;
    }
  }

  /** The entries for distinct cities covering every row add up to all the votes. */
  lemma {:induction false} TotalsForAddUp(cs: seq<string>, rows: seq<VoteRow>)
    requires StrictlySorted(cs)
    requires forall r :: r in rows ==> r.cidade in cs
    ensures SumTotals(TotalsFor(cs, rows)) == SumVotes(rows)
  {
    if rows == [] {
      assert SumTotals(TotalsFor(cs, [])) == 0 by { ZeroTotals(cs); }
    } else {
      assert rows == [rows[0]] + rows[1..];
      TotalsForAddUp(cs, rows[1..]);
      TotalsForCons(cs, rows[0], rows[1..]);
      ShareOnce(cs, rows[0]);
    }
  }

  /** Without rows, every entry has zero votes. */
  lemma {:induction false} ZeroTotals(cs: seq<string>)
    ensures SumTotals(TotalsFor(cs, [])) == 0
  {
    if cs != [] {
      ZeroTotals(cs[1..]);
    }
  }

  /** The grouped totals add up to the votes of the whole table. */
  lemma GroupTotalsAddUp(rows: seq<VoteRow>)
    ensures SumTotals(GroupTotals(rows)) == SumVotes(rows)
  {
    var cs := SortedSet(Cities(rows));
    forall r | r in rows ensures r.cidade in cs {
      var i :| 0 <= i < |rows| && rows[i] == r;
      assert Cities(rows)[i] == r.cidade;
    }
    TotalsForAddUp(cs, rows);
  }

  /** Votes never increase from one bar to the next. */
  ghost predicate NonIncreasing(s: seq<CityTotal>) {
    forall i, j :: 0 <= i < j < |s| ==> s[i].votos >= s[j].votos
  }

  /** An entry with at least the votes of everything after it keeps the order non-increasing. */
  lemma PrependLargest(h: CityTotal, t: seq<CityTotal>)
    requires NonIncreasing(t)
    requires forall y :: y in t ==> y.votos <= h.votos
    ensures NonIncreasing([h] + t)
  {
    forall i, j | 0 <= i < j < |t| + 1 ensures ([h] + t)[i].votos >= ([h] + t)[j].votos {
      if i == 0 {
        assert ([h] + t)[j] == t[j - 1] && t[j - 1] in t;
      } else {
        assert ([h] + t)[i] == t[i - 1] && ([h] + t)[j] == t[j - 1];
      }
    }
  }

  /** Everything in a rearrangement of `s` plus `x` is bounded by a bound of `x` and of `s`. */
  lemma BoundedAfterInsert(x: CityTotal, s: seq<CityTotal>, t: seq<CityTotal>, bound: int)
    requires multiset(t) == multiset(s) + multiset{x}
    requires x.votos <= bound && forall y :: y in s ==> y.votos <= bound
    ensures forall y :: y in t ==> y.votos <= bound
  {
    forall y | y in t ensures y.votos <= bound {
      assert y in multiset(t);
      assert y == x || y in multiset(s);
    }
  }

  /** In a non-increasing sequence the head has at least the votes of every entry. */
  lemma HeadIsLargest(s: seq<CityTotal>)
    requires NonIncreasing(s) && s != []
    ensures forall y :: y in s ==> y.votos <= s[0].votos
  {
    forall y | y in s ensures y.votos <= s[0].votos {
      var k :| 0 <= k < |s| && s[k] == y;
    }
  }

  /** Puts `x` before the first entry with fewer votes. */
  function InsertByVotes(x: CityTotal, s: seq<CityTotal>): (r: seq<CityTotal>)
    requires NonIncreasing(s)
    ensures NonIncreasing(r)
    ensures multiset(r) == multiset(s) + multiset{x}
  {
    if s == [] then [x]
    else if x.votos >= s[0].votos then
      HeadIsLargest(s);
      PrependLargest(x, s);
      [x] + s
    else
      var rest := s[1..];
      assert s == [s[0]] + rest;
      assert NonIncreasing(rest);
      var t := InsertByVotes(x, rest);
      HeadIsLargest(s);
      BoundedAfterInsert(x, rest, t, s[0].votos);
      PrependLargest(s[0], t);
      [s[0]] + t
  }

  /** Inserting an entry adds exactly its votes to the sum. */
  lemma {:induction false} InsertKeepsSum(x: CityTotal, s: seq<CityTotal>)
    requires NonIncreasing(s)
    ensures SumTotals(InsertByVotes(x, s)) == x.votos + SumTotals(s)
  {
    if s != [] && x.votos < s[0].votos {
      assert NonIncreasing(s[1..]);
      InsertKeepsSum(x, s[1..]);
      assert ([s[0]] + InsertByVotes(x, s[1..]))[1..] == InsertByVotes(x, s[1..]);
    } else if s != [] {
      assert ([x] + s)[1..] == s;
    }
  }

  /** Sorting keeps the sum of the votes. */
  lemma {:induction false} SortKeepsSum(s: seq<CityTotal>)
    ensures SumTotals(SortByVotes(s)) == SumTotals(s)
  {
    if s != [] {
      SortKeepsSum(s[1..]);
      InsertKeepsSum(s[0], SortByVotes(s[1..]));
    }
  }

  /** `sort_values("Votos", ascending=False)`: the same entries, by non-increasing votes. */
  function SortByVotes(s: seq<CityTotal>): (r: seq<CityTotal>)
    ensures NonIncreasing(r)
    ensures multiset(r) == multiset(s)
  {
    if s == [] then []
    else
      assert s == [s[0]] + s[1..];
      InsertByVotes(s[0], SortByVotes(s[1..]))
  }

  /** The first `k` entries of a rearrangement of `groups` are entries of `groups`, each at most as often. */
  lemma PrefixOfPermutation(groups: seq<CityTotal>, sorted: seq<CityTotal>, k: nat)
    requires multiset(sorted) == multiset(groups) && k <= |sorted|
    ensures multiset(sorted[..k]) <= multiset(groups)
    ensures forall e :: e in sorted[..k] ==> e in groups
  {
    assert sorted == sorted[..k] + sorted[k..];
    assert multiset(sorted) == multiset(sorted[..k]) + multiset(sorted[k..]);
    forall e | e in sorted[..k] ensures e in groups {
      assert e in multiset(sorted);
    }
  }

  /** Every city of the grouped totals occurs in some row. */
  lemma GroupedCityOccurs(df: seq<VoteRow>, e: CityTotal)
    requires e in GroupTotals(df)
    ensures exists r :: r in df && r.cidade == e.cidade
  {
    assert e.cidade in Cities(df);
    var i :| 0 <= i < |df| && Cities(df)[i] == e.cidade;
    assert df[i] in df;
  }

  /** The first `k` grouped totals of `df` by non-increasing votes. */
  lemma TopOfGroups(df: seq<VoteRow>, k: nat)
    requires k <= |SortByVotes(GroupTotals(df))|
    ensures var top := SortByVotes(GroupTotals(df))[..k];
      && NonIncreasing(top)
      && multiset(top) <= multiset(GroupTotals(df))
      && forall e :: e in top ==> e.votos == CityVotes(df, e.cidade) && exists r :: r in df && r.cidade == e.cidade
  {
    var groups := GroupTotals(df);
    var sorted := SortByVotes(groups);
    PrefixOfPermutation(groups, sorted, k);
    forall e | e in sorted[..k] ensures exists r :: r in df && r.cidade == e.cidade {
      GroupedCityOccurs(df, e);
    }
  }

  /**
   * The ranking: the filtered rows grouped by city, sorted by non-increasing
   * summed votes, cut after `RankingSize` entries.
   */
  function Ranking(rows: seq<VoteRow>, inspetoria: Option<string>, cidade: Option<string>): (top: seq<CityTotal>)
    ensures |top| <= RankingSize
    ensures NonIncreasing(top)
    ensures forall e :: e in top ==> e.votos == CityVotes(FilterRows(rows, inspetoria, cidade), e.cidade)
    ensures forall e :: e in top ==> exists r :: r in rows && Passes(r, inspetoria, cidade) && r.cidade == e.cidade
    ensures multiset(top) <= multiset(GroupTotals(FilterRows(rows, inspetoria, cidade)))
  {
    var df := FilterRows(rows, inspetoria, cidade);
    var sorted := SortByVotes(GroupTotals(df));
    var top := sorted[..if |sorted| < RankingSize then |sorted| else RankingSize];
    TopOfGroups(df, |top|);
    forall e | e in top ensures exists r :: r in rows && Passes(r, inspetoria, cidade) && r.cidade == e.cidade {
      var r :| r in df && r.cidade == e.cidade;
      assert r in rows && Passes(r, inspetoria, cidade);
    }
    top
  }

  /**
   * The first `k` entries of a non-increasing rearrangement of `groups`: all
   * of `groups` when `k` covers them, and none left out outweighs one kept.
   */
  lemma PrefixKeepsLargest(groups: seq<CityTotal>, sorted: seq<CityTotal>, k: nat)
    requires multiset(sorted) == multiset(groups) && NonIncreasing(sorted) && k <= |sorted|
    ensures |sorted| == |groups|
    ensures k == |sorted| ==> multiset(sorted[..k]) == multiset(groups)
    ensures forall g, e :: g in groups && g !in sorted[..k] && e in sorted[..k] ==> g.votos <= e.votos
  {
    assert |sorted| == |multiset(sorted)| == |multiset(groups)| == |groups|;
    if k == |sorted| {
      assert sorted[..k] == sorted;
    }
    forall g, e | g in groups && g !in sorted[..k] && e in sorted[..k] ensures g.votos <= e.votos {
      assert g in multiset(sorted);
      var j :| 0 <= j < |sorted| && sorted[j] == g;
      assert forall i :: 0 <= i < k ==> sorted[i] != g;
      var i :| 0 <= i < k && sorted[..k][i] == e;
      assert sorted[i] == e;
    }
  }

  /**
   * The ranking shows `RankingSize` municipalities, or all of them when there
   * are fewer, and no municipality left out has more votes than one shown.
   */
  lemma RankingKeepsLargest(rows: seq<VoteRow>, inspetoria: Option<string>, cidade: Option<string>)
    ensures var groups := GroupTotals(FilterRows(rows, inspetoria, cidade));
      var top := Ranking(rows, inspetoria, cidade);
      && |top| == (if |groups| < RankingSize then |groups| else RankingSize)
      && (|groups| <= RankingSize ==> multiset(top) == multiset(groups))
      && forall g, e :: g in groups && g !in top && e in top ==> g.votos <= e.votos
  {
    var groups := GroupTotals(FilterRows(rows, inspetoria, cidade));
    var sorted := SortByVotes(groups);
    var k := if |sorted| < RankingSize then |sorted| else RankingSize;
    assert Ranking(rows, inspetoria, cidade) == sorted[..k];
    PrefixKeepsLargest(groups, sorted, k);
  }

  /** Entries with strictly ascending cities occur at most once each. */
  lemma {:induction false} OncePerCity(s: seq<CityTotal>)
    requires forall i, j :: 0 <= i < j < |s| ==> Below(s[i].cidade, s[j].cidade)
    ensures forall e :: multiset(s)[e] <= 1
  {
    if s != [] {
      var rest := s[1..];
      assert forall i, j :: 0 <= i < j < |rest| ==> Below(rest[i].cidade, rest[j].cidade) by {
        forall i, j | 0 <= i < j < |rest| ensures Below(rest[i].cidade, rest[j].cidade) {
          assert rest[i] == s[i + 1] && rest[j] == s[j + 1];
        }
      }
      OncePerCity(rest);
      forall j | 0 <= j < |rest| ensures rest[j] != s[0] {
        assert rest[j] == s[j + 1];
        BelowAsymmetric(s[0].cidade, s[j + 1].cidade);
      }
      assert s[0] !in rest;
      assert s == [s[0]] + rest;
      assert multiset(s) == multiset{s[0]} + multiset(rest);
    }
  }

  /** Part of a sequence of entries with strictly ascending cities names no city twice. */
  lemma SubMultisetDistinctCities(top: seq<CityTotal>, groups: seq<CityTotal>)
    requires forall i, j :: 0 <= i < j < |groups| ==> Below(groups[i].cidade, groups[j].cidade)
    requires multiset(top) <= multiset(groups)
    ensures forall i, j :: 0 <= i < j < |top| ==> top[i].cidade != top[j].cidade
  {
    OncePerCity(groups);
    forall i, j | 0 <= i < j < |top| ensures top[i].cidade != top[j].cidade {
      var e := top[i];
      assert top == top[..j] + top[j..];
      assert multiset(top) == multiset(top[..j]) + multiset(top[j..]);
      assert top[..j][i] == e;
      assert top[j..][0] == top[j];
      assert top[j] != e;
      assert e in multiset(groups) && top[j] in multiset(groups);
      var p :| 0 <= p < |groups| && groups[p] == e;
      var q :| 0 <= q < |groups| && groups[q] == top[j];
      if p < q {
        BelowAsymmetric(groups[p].cidade, groups[q].cidade);
      } else {
        BelowAsymmetric(groups[q].cidade, groups[p].cidade);
      }
    }
  }

  /** No municipality appears twice in the ranking. */
  lemma RankingCitiesDistinct(rows: seq<VoteRow>, inspetoria: Option<string>, cidade: Option<string>)
    ensures var top := Ranking(rows, inspetoria, cidade);
      forall i, j :: 0 <= i < j < |top| ==> top[i].cidade != top[j].cidade
  {
    SubMultisetDistinctCities(Ranking(rows, inspetoria, cidade), GroupTotals(FilterRows(rows, inspetoria, cidade)));
  }

  /**
   * When the filter leaves at most `RankingSize` municipalities, the bars of
   * the ranking add up to the total-votes counter.
   */
  lemma RankingAddsUpToTotal(rows: seq<VoteRow>, inspetoria: Option<string>, cidade: Option<string>)
    requires |GroupTotals(FilterRows(rows, inspetoria, cidade))| <= RankingSize
    ensures SumTotals(Ranking(rows, inspetoria, cidade)) == Counters(rows, inspetoria, cidade).0
  {
    var df := FilterRows(rows, inspetoria, cidade);
    var groups := GroupTotals(df);
    var sorted := SortByVotes(groups);
    PrefixKeepsLargest(groups, sorted, |sorted|);
    assert Ranking(rows, inspetoria, cidade) == sorted[..|sorted|] == sorted;
    SortKeepsSum(groups);
    GroupTotalsAddUp(df);
    FilteredSum(rows, inspetoria, cidade);
  }

}
