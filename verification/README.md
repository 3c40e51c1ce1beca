# CREA-SC vote dashboard: name reconciliation, dropdown and counters

This Dafny project models the logic of the CREA-SC 2022 election dashboard
(`app.py`). The dashboard reads a vote table with the columns `Inspetoria`,
`Cidade` and `Votos`, and it joins the table to the official municipality
boundaries of Santa Catarina.

The centre of the model is the correspondence diagnostic ("Verificar
correspondências" and "Baixar diagnóstico"). It takes every distinct, stripped
city name of the vote table that is not literally an official name, and pairs
it with a suggestion found in three tiers:

1. exact match: an official name is skipped;
2. normalized match: the official name filed under the accent-stripped,
   lower-cased key, if that name is non-empty;
3. fuzzy match: the best-scoring official name, provided its score is at least
   0.75; otherwise the suggestion is "".

Beside it, the project models three smaller pieces:

- the city dropdown, whose options follow the selected inspetoria and whose
  selected city is cleared when it is no longer valid;
- the two counters: total votes and the number of municipalities;
- the top-15 ranking of municipalities by summed votes.

Modules:

- `Optional` (`option.dfy`): `Option`, standing for Python's `None`.
- `Text` (`text.dfy`): Python's `str.strip()`, the code-point order of
  `sorted`, and `sorted(set(...))` as a strictly increasing sequence.
- `Geo` (`geo.dfy`): `GEO_NAMES` and `GEO_NAMES_NORMALIZED`.
- `Reconcile` (`reconcile.dfy`): `get_close_matches`, the three tiers, and the
  two callbacks' loops as methods.
- `Dashboard` (`dashboard.dfy`): the dropdown rule, the filters, the counters
  and the ranking.

Foreign code is passed in as parameters:

- `unidecode(s).lower()` is a function `norm: string -> string`. Nothing is
  assumed about it.
- difflib's similarity ratio is a function `ratio: (string, string) -> Score`.
  `Score` is a real number in [0, 1].
- The cutoff 0.75 is the exact rational `0.75`.

The GeoJSON download and the CSV read are replaced by parameters. These are
the sequence of feature names and the sequence of table rows or `Cidade`
values.

Behaviour of the code worth noting:

- The code raises no error for an empty name set or an empty table. An empty
  input yields an empty report, or the single placeholder row in the
  download.
- The code has no "absent" suggestion. A missing suggestion is the empty
  string "".
- A normalized hit that maps to "" is treated as no hit (`if not sugerida`),
  so the fuzzy tier is consulted.
- The threshold is the fixed cutoff 0.75, written in the call itself.
- Among equally scored fuzzy candidates, difflib keeps the larger name. The
  model's body does the same, but no contract relies on it.

## Model

| member | source | states |
|---|---|---|
| `Text.Strip` | app.py:249 | `c.strip()`: the result is the piece of the input left after dropping only whitespace (as `str.isspace` defines it) at both ends, and it neither starts nor ends with whitespace |
| `Text.StripIdempotent` | app.py:13-14 | stripping a name that was already stripped when the table was loaded changes nothing |
| `Text.BelowTransitive` | app.py:20 | the code-point order `Below` in which `sorted` puts strings is transitive |
| `Text.BelowTotal` | app.py:20 | any two different strings are ordered by `Below` one way or the other |
| `Text.BelowAsymmetric` | app.py:20 | `Below` is asymmetric and irreflexive, so together with the two rows above it is a strict total order and `sorted` has one answer |
| `Text.SortedSet` | app.py:249 | `sorted({...})`: a strictly increasing (so duplicate-free) sequence holding exactly the strings of the input |
| `Text.StrictlySortedUnique` | app.py:249 | two strictly increasing sequences with the same elements are equal, so the sorted set is determined by its elements |
| `Text.SortedSetDependsOnlyOnElements` | app.py:249 | `sorted(set(xs))` depends only on which strings occur, not on their order or repetition |
| `Geo.OfficialNames` | app.py:20 | `GEO_NAMES` is strictly increasing and holds exactly the stripped feature names; every feature's stripped name is in it |
| `Geo.NormalizedIndex` | app.py:21 | the keys are exactly the normalized official names, and each key maps to an official name whose normalization is that key |
| `Geo.IndexLastWriteWins` | app.py:21 | last write wins: the name a key holds sits at a position after which no name has that key |
| `Geo.IndexKeepsGreatest` | app.py:20-21 | over the sorted official names, a key collision is won by the name that is greatest in code-point order |
| `Geo.IndexWithoutCollisions` | app.py:21 | when no two official names share a key, every official name is found under its own key |
| `Geo.Load` | app.py:20-21 | the start-up gazetteer is well formed: sorted names and the index built from exactly them |
| `Reconcile.Suggest` | app.py:254-258 | the tiered suggestion is "", or the name the normalized index holds for the candidate's key, or an official name scoring at least 0.75; `NormalizedTierWins`, `FuzzyTier` and `SuggestionIsOfficial` state which tier applies when |
| `Reconcile.CsvNames` | app.py:249 | `sorted({c.strip() for c in cities})`: strictly ascending, exactly the stripped names of the column, and never more of them than the column has entries |
| `Reconcile.Reconcile` | app.py:250-259 | the loop's rows: at most one per candidate, each for a candidate of the input that is not an official name |
| `Reconcile.Diagnostic` | app.py:248-259 | the report has at most one row per entry of the `Cidade` column, and each row is for a stripped name of the column that is not official |
| `Reconcile.CloseMatch` | app.py:257-258 | `get_close_matches(c, GEO_NAMES, n=1, cutoff=0.75)`: there is no match exactly when every official name scores below 0.75; a match is an official name scoring at least 0.75 that no official name outscores |
| `Reconcile.ReconcileRows` | app.py:250-259 | a candidate gets a row exactly when it is not an official name, and each row carries that candidate's tiered suggestion |
| `Reconcile.ReconcileSorted` | app.py:249-251 | strictly ascending candidates give rows strictly ascending by candidate |
| `Reconcile.AllOfficialIffEmpty` | app.py:261 | the report is empty exactly when every candidate is already an official name |
| `Reconcile.DiagnosticRows` | app.py:248-259 | the diagnostic lists each distinct stripped city name that is not official exactly once, in strictly ascending order, never an official one, each with its tiered suggestion |
| `Reconcile.DiagnosticIgnoresRowOrder` | app.py:249 | the report is the same for any two `Cidade` columns with the same stripped names, whatever their order and repetition |
| `Reconcile.NormalizedTierWins` | app.py:254-256 | if a non-empty official name shares the candidate's normalized key, the suggestion is the indexed name, which is official, has the same key and is the greatest such name; fuzzy matching is not used |
| `Reconcile.SuggestionIsOfficial` | app.py:254-258 | every suggestion is "" or an official name |
| `Reconcile.FuzzyTier` | app.py:256-258 | without a normalized hit, a non-empty suggestion scores at least 0.75 and no official name scores higher; "" means either no official name reaches 0.75, or "" is itself an official name that reaches 0.75 and that no official name outscores |
| `Reconcile.Diagnose` | app.py:248-259 | the on-screen loop yields exactly the diagnostic rows: strictly ascending by candidate, none of them an official name |
| `Reconcile.DownloadRows` | app.py:277-291 | the download loop yields the same rows as the on-screen diagnostic, or exactly the placeholder row `("(todos conferem)", "")` when those are empty; it is never empty |
| `Dashboard.FilterRows` | app.py:175-179 | the filtered table holds exactly the rows of the selected inspetoria and city, and is no longer than the table; an unselected filter (None or "") keeps everything |
| `Dashboard.FilterKeepsCopies` | app.py:175-179 | the boolean mask keeps every copy of a passing row and no copy of any other row: each row occurs in the filtered table as often as in the table if it passes, and not at all otherwise |
| `Dashboard.SumVotes` | app.py:181 | `df["Votos"].sum()`: with no negative vote counts the sum is not negative and no row has more votes than the sum |
| `Dashboard.FilteredSum` | app.py:181 | the sum over the filtered table equals the sum, over the whole table, of the votes of the rows passing the filters |
| `Dashboard.CityOptions` | app.py:148-152 | the options are strictly ascending and are exactly the cities of rows of the selected inspetoria, or of all rows when none is selected |
| `Dashboard.UpdateCityDropdown` | app.py:146-163 | the options are the city options; the city is kept only if the clear button did not fire and it is among the options, and is None otherwise |
| `Dashboard.DropdownSettles` | app.py:156-163 | a second update with the same inspetoria and no click leaves the options and the city unchanged |
| `Dashboard.Counters` | app.py:181-182 | total votes is the sum of `Votos` over the passing rows; the municipality count is the number of distinct cities among them; the count is 0 exactly when no row passes, and then the total is 0 as well |
| `Dashboard.SelectedCityCountsOnce` | app.py:178-182 | with a city selected, the municipality count is at most 1 |
| `Dashboard.CityVotes` | app.py:230 | a city's summed votes equal the total-votes counter when that city is selected, and are 0 for a city without rows |
| `Dashboard.GroupTotals` | app.py:230 | one entry per distinct city, strictly ascending by city, each carrying the sum of that city's votes |
| `Dashboard.GroupTotalsAddUp` | app.py:230 | the grouped totals add up to the votes of the whole (filtered) table |
| `Dashboard.InsertByVotes` | app.py:231 | inserting into a non-increasing sequence keeps it non-increasing and adds exactly the one entry |
| `Dashboard.SortByVotes` | app.py:231 | `sort_values("Votos", ascending=False)`: the result is a permutation of the groups, by non-increasing votes |
| `Dashboard.SortKeepsSum` | app.py:231 | sorting by votes keeps the sum of the votes |
| `Dashboard.Ranking` | app.py:230-231 | at most 15 entries, by non-increasing votes, drawn from the grouped totals (no entry more often than among the groups), each a city of a passing row carrying that city's summed votes in the filtered table |
| `Dashboard.RankingKeepsLargest` | app.py:230-231 | the ranking has 15 entries, or exactly the groups (as a multiset) when there are at most 15, and no group left out has more votes than one shown |
| `Dashboard.RankingCitiesDistinct` | app.py:230-231 | no municipality appears twice in the ranking |
| `Dashboard.RankingAddsUpToTotal` | app.py:230-231 | when the filter leaves at most 15 municipalities, the ranking's bars add up to the total-votes counter |

## Left out

- Dash layout, callback decorators and `ctx` wiring (app.py:26-107, 130-145) are UI glue. The clear-button trigger is a boolean parameter. The `clear_filters` callback, which only returns None, is not modelled.
- Plotly figures, map zoom and the highlight trace (app.py:185-228, 232-235) are rendering done inside a library.
- `requests.get` of the GeoJSON and `pd.read_csv` (app.py:12-17) are network and file I/O. Feature names and rows are parameters. `VoteRow` holds `Inspetoria` and `Cidade` already stripped, as lines 13-14 leave them.
- `dropna()` at lines 149-152 and 249 is not modelled. Line 13 already turned every missing city into the string "nan", so these calls remove nothing.
- `_centro_feature` and the bounding-box centre are floating-point averaging of coordinates.
- The internals of `unidecode` and `difflib` are foreign libraries. They are the parameters `norm` and `ratio`. difflib's `real_quick_ratio` and `quick_ratio` pre-filters are upper bounds of `ratio`, so they do not change which names pass the cutoff. They are not modelled.
- Presentation is not modelled: the HTML table, the "—" placeholder, the CSV serialization of `send_data_frame`, and the thousands-separator formatting of the counters.
- Reconcile.CloseMatch: the contract does not say which name wins among equal top scores. The body takes the later name, as difflib does.
- Dashboard.SortByVotes: the contract does not fix the order of equal totals. pandas' default sort is not stable. The body keeps ascending city order among equal totals.
- Dashboard.Counters: `Votos` are unbounded integers here and in every vote sum below. The 64-bit integer range of the pandas column (app.py:181, 230) is not modelled.
- Dashboard.SumVotes: sums unbounded integers; no 64-bit range.
- Dashboard.CityVotes: sums unbounded integers; no 64-bit range.
- Dashboard.GroupTotals: the per-city sums are unbounded integers; no 64-bit range.
- Dashboard.Ranking: the bars carry unbounded sums; no 64-bit range.
