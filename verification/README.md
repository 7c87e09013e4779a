# Lubango crime dashboard: the data transforms, in Dafny

The Streamlit dashboard of crime in the neighbourhoods (`bairros`) of Lubango
reads a CSV of `(bairro, ano, indice_criminalidade)` rows. The user picks a
year and a colour theme. Besides a choropleth map and a heatmap, the page
shows a ranking of that year's rows by crime index, a headline metric for
the top row of the year-over-year table, and the counts of rows whose change
is above 50 or below -50. The change of a row is taken against the row at
the same position in the previous year, which need not be the same
neighbourhood. For the first year the change is the index itself, so every
row with an index above 50 counts as an increase. This project models the
pure transforms behind these views as functions over an immutable
`seq<Record>`, and proves what they compute.

- `records.dfy` (`Records`): the row types `Record` and `DeltaRow`, plus the
  `Option` and `Result` wrappers. A `DeltaRow` is either a named row or a
  `Blank` row whose name and index are missing (NaN).
- `seqs.dfy` (`Seqs`): a generic order-keeping filter (a boolean row mask)
  and a descending sort by an integer key. The sort promises only
  "ordered and a permutation".
- `selection.dfy` (`Selection`): the sidebar's year list
  (`df.ano.unique()[::-1]`), the year filter, the ranking by crime index, and
  the dataset's minimum year.
- `delta.dfy` (`Delta`): `calcular_diferenca_criminalidade`, built the way
  pandas evaluates it. Both years are re-indexed `0..n-1`. `sub(...,
  fill_value=0)` runs over the union of the two indexes. The column
  assignment keeps only the current year's positions. The exception is a
  year with no rows: pandas re-indexes an empty frame to the assigned
  column, so the table then holds one `Blank` row per previous-year row,
  with change `-indice`. The result is then sorted by the change, largest
  first.
- `numfmt.dfy` (`NumberFormat`): `formatar_numero`. The abbreviation
  decision is a `Shown` datatype, rendered to a string. A parser reads the
  string back.
- `dashboard.dfy` (`Dashboard`): the headline metric with its minimum-year
  guard, and the ±50 increase/decrease selections.

The alignment of the two years is by POSITION, not by neighbourhood. Row `i`
of year `Y` is compared with the `i`-th row of year `Y-1` in file order,
whatever its name. `PositionalMatchesByNameWhenAligned` shows that this
equals a by-name reference when both years list the neighbourhoods in the
same order. `PositionalDiffersFromByNameWhenReordered` shows a
two-row input where the two differ.

## Model

| member | source | states |
|---|---|---|
| Seqs.Filter | streamlit_app.py:75 | A boolean row mask keeps exactly the rows satisfying the predicate, with their multiplicities; together with `Seqs.FilterAppend` it keeps them in their original order. |
| Seqs.SortDesc | streamlit_app.py:150 | `sort_values(ascending=False)`: the result is in non-increasing key order and is a permutation of the input. |
| Seqs.SortedPermutationsAgreeOnKeys | streamlit_app.py:150 | Two sorted permutations of one another have the same key at every position, so tie-breaking never changes the sorted key column. |
| Seqs.SortedHeadIsMax | streamlit_app.py:162 | The first row of a non-empty sorted permutation is a row of the input whose key is maximal. |
| Selection.FilterYear | streamlit_app.py:75 | `df[df.ano == y]` holds exactly the records of year `y`, each as often as in the file. |
| Selection.FilterYearPosition | streamlit_app.py:147-148 | The record at file position `k` of year `y` sits at the position given by the count of earlier year-`y` records. |
| Selection.RankByIndex | streamlit_app.py:75-76 | The ranking holds exactly the selected year's records, as a permutation, ordered by crime index non-increasing. |
| Selection.RankIndicesIndependentOfTieBreaking | streamlit_app.py:76 | Every ordering the unstable sort could produce shows the same index column as `RankByIndex`. |
| Selection.MinYear | streamlit_app.py:161 | `df.ano.min()` is a year that occurs and is no greater than any record's year; it is absent only for an empty data set. |
| Selection.AboveMinYear | streamlit_app.py:161 | The guard `ano > df.ano.min()` holds iff some record belongs to an earlier year; an empty data set never passes it. |
| Selection.UniqueYears | streamlit_app.py:72 | `ano.unique()` lists every year that occurs, each once, in order of first appearance. |
| Selection.AvailableYears | streamlit_app.py:72 | The sidebar's list holds every occurring year once, in reverse order of first appearance. |
| Selection.AvailableYearHasRecords | streamlit_app.py:72-75 | A year chosen from the sidebar has at least one record. |
| NumberFormat.Abbreviate | streamlit_app.py:140-142 | A value is abbreviated iff it is strictly above 1000; the abbreviation `k` satisfies `k*1000 <= n < (k+1)*1000`. |
| NumberFormat.FormatNumber | streamlit_app.py:140-143 | `formatar_numero(n)` prints text that the parser reads back as exactly the abbreviation decision taken for `n`: plain `n`, or `n // 1000` thousands. The number is in the form `str` prints: an optional minus sign and digits without a leading zero, followed by " K" exactly when abbreviated. |
| NumberFormat.NatToStringRoundTrip | streamlit_app.py:143 | The decimal text of a natural number reads back as that number. |
| NumberFormat.IntToStringRoundTrip | streamlit_app.py:143 | `str(n)` reads back as `n`, negative values included. |
| NumberFormat.RenderRoundTrip | streamlit_app.py:140-143 | Parsing the printed text gives back the same plain/thousands decision and value. |
| NumberFormat.FormatNumberReadsBack | streamlit_app.py:140-143 | The output ends in " K" iff `n > 1000`, so 1000 is printed in full. For `n <= 1000` the text reads back as `n`; for `n > 1000` the text before " K" reads back as `n // 1000`. |
| Delta.SubWithFill | streamlit_app.py:149 | `a.sub(b, fill_value=0)` is as long as the longer column, and at each position is `a[i] - b[i]` with missing sides taken as 0. |
| Delta.AssignColumn | streamlit_app.py:149 | Assigning a series as a column of a frame with `n > 0` rows keeps exactly the frame's `n` positions. A frame with no rows takes all of the series' positions. |
| Delta.PositionalDelta | streamlit_app.py:147-149 | With current-year records: one named row per record, carrying its name and index. Where a previous-year row exists at the same position, the change is current minus previous; otherwise it is the current index. Without current-year records: one `Blank` row per previous-year record, with change minus its index. |
| Delta.UnsortedYearDelta | streamlit_app.py:147-149 | As many rows as year `y` has records, or as year `y-1` has when `y` has none. Every named row carries the name and index of a year-`y` record. A `Blank` row appears only when year `y` has no record, and its change is minus the index of a year-`y-1` record. |
| Delta.PositionalRowOfRecord | streamlit_app.py:147-149 | The record at file position `k` of year `y` becomes row `i` of the unsorted table, where `i` counts the earlier year-`y` records. That row carries the record's name and index, and its change is the record's index minus the index of the `i`-th record of year `y-1` in file order, or minus 0 when there is none. |
| Delta.YearDelta | streamlit_app.py:146-150 | The result has as many rows as year `y` has records, or as year `y-1` has when `y` has none. It is ordered by change non-increasing and is a permutation of the unsorted positional table. |
| Delta.DeltaColumnIndependentOfTieBreaking | streamlit_app.py:150 | Every ordering the unstable sort could produce shows the same change column as `YearDelta`. |
| Delta.YearDeltaRowsFromSelectedYear | streamlit_app.py:149-150 | Every named row of the sorted table is a record of the selected year. Previous-year records give rows only when the selected year has none, and then only `Blank` rows carrying minus their index. |
| Delta.RowsComeFromCurrent | streamlit_app.py:149-150 | Each named positional row carries the name and index of a current-year record. `Blank` rows occur only without current-year rows, and carry minus a previous-year index. |
| Delta.ExtraPreviousRowsIgnored | streamlit_app.py:149 | With current-year rows, previous-year rows beyond the current year's count do not change the table. Without current-year rows, each extra previous-year row appends a row of its own. |
| Delta.NoPreviousYearMeansDeltaIsIndex | streamlit_app.py:148-149 | With no record of year `y-1` (the first year, or a gap), every row is named and every change equals the current index. |
| Delta.PositionalMatchesByNameWhenAligned | streamlit_app.py:147-149 | When both years list the same distinct neighbourhoods in the same order, the positional changes equal the per-neighbourhood changes. |
| Delta.PositionalDiffersFromByNameWhenReordered | streamlit_app.py:147-149 | When the previous year lists two neighbourhoods in swapped order, each is compared with the other's index. |
| Dashboard.Increases | streamlit_app.py:171 | Exactly the rows whose change is strictly above 50, with multiplicities. |
| Dashboard.Decreases | streamlit_app.py:172 | Exactly the rows whose change is strictly below -50, with multiplicities. |
| Dashboard.IncreasesDecreasesDisjoint | streamlit_app.py:171-172 | No row is in both selections, and the two counts sum to at most the table length. |
| Dashboard.CountsIgnoreOrder | streamlit_app.py:171-175 | The two counts are the same for any permutation of the table, so the sort does not affect them. |
| Dashboard.MetricOf | streamlit_app.py:162-164 | A named row shows its name, and its value text reads back as the abbreviation decision for its index, in the form `str` prints, with " K" exactly when the index is above 1000. A `Blank` row shows `nan` as name and value. For every row the change text reads back as the abbreviation decision for its change. |
| Dashboard.TopMetric | streamlit_app.py:161-166 | Not above the minimum year: the placeholder `('-', '-', '')`. Above it with no record of year `y` or of year `y-1`: an `IndexError`. Otherwise: the metric of a row whose change is maximal. When only year `y-1` has records, that row is nameless and shows `nan`. |
| Dashboard.TopMetricForYearWithoutRecords | streamlit_app.py:146-166 | For a single 2020 record of index 10, the metric for 2021 is `('nan', 'nan', '-10')` in the integer model (pandas, working in floats, prints `-10.0`), and not an error. |
| Dashboard.TopMetricForAvailableYear | streamlit_app.py:161-166 | For a year offered in the sidebar the metric never fails. It is the placeholder iff no record belongs to an earlier year. |

## Left out

- CSV loading (`pd.read_csv`): I/O. The records are an input `seq<Record>`.
- Page configuration, CSS, sidebar widgets, columns, `st.metric`/`st.dataframe` display, and the colour-theme choice: presentation only.
- `criar_heatmap`, `criar_mapa_coropletico`, `criar_grafico_rosquinha`: thin wrappers over Altair and Plotly with no logic of their own. The model stops at the counts handed to the donut charts.
- The crime index is an `int`. Floating-point values and NaN are not modelled. When the two years have different row counts, the index alignment in `sub` makes the change column a float column, and `formatar_numero` then prints e.g. `12.0` or `1.0 K`. That float formatting is not modelled.
- Tie-breaking of pandas' default (unstable) sort: the model promises only ordered-and-permutation, and proves that the index and change columns do not depend on it. Which of several equally ranked rows comes first, and so which neighbourhood the headline metric names on a tie, is left open.
- The `index` column that `reset_index()` adds: it is not among the three returned columns.
- Dashboard.MetricOf: the name of a `Blank` row is NaN, not a string. The model shows it as `nan`. Whether `st.metric` accepts a NaN label is not modelled.
- Delta.AssignColumn: a series shorter than the frame, which pandas fills with NaN, is not modelled, because the subtraction always covers every current-year position.
