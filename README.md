# Demand dashboard query pipeline (Dafny model)

This project models the query side of the "Gestão de Demandas - Comunidades"
Streamlit dashboard (`rc.py`). The loaded demand table is a sequence of
records. Each record holds a demand number, a supervisor, a classification
and a city. The dashboard models four steps:

- **Geocoder** (`geocoder.dfy`). The fixed table `COORDENADAS_FIXAS` maps 17
  upper-case city names to (latitude, longitude) pairs. The lookup
  `obter_coordenadas` upper-cases a name and answers the pair, or
  `(None, None)` when the name is not in the table.
- **Filters** (`demands.dfy`). Two optional masks combine with AND:
  - an exact match on the number field;
  - a case-insensitive match of the supervisor against the selection.

  An empty number or an empty selection skips its mask.
- **Frequency views** (`counts.dfy`, `dashboard.dfy`).
  - `value_counts` is a group-by in first-occurrence order (`Tally`),
    followed by a stable sort by count, largest first (`SortByCount`).
  - The supervisor view is that table.
  - The classification view re-sorts it smallest first.
  - The specification every table meets is `IsFrequencyTable`: one row per
    distinct value, each count equal to that value's multiplicity.
- **City join** (`dashboard.dfy`).
  - The city counts are walked in order.
  - A city is kept only when it is, exactly as written, a key of the fixed
    table. Each kept city carries the lookup's coordinates and its count.
  - `.dropna()` then removes the points with a missing coordinate.
  - The model proves `.dropna()` removes nothing: every kept city has both
    coordinates.

Case mapping (`text.dfy`) is ASCII only. Only 'a'..'z' and 'A'..'Z' change.
Accented letters are left as they are, so "Gália" upper-cases to "GáLIA".
This is why the table's keys still count as upper case.

Two behaviours of the code are worth knowing:

- The supervisor view keeps `value_counts()`'s order, largest count first;
  `SupervisorCountsSpec` proves it.
- The join tests `cidade in COORDENADAS_FIXAS` on the name as written. The
  lookup upper-cases its argument, but only exact keys reach the map.
  - `JoinIsCaseSensitive` states that a city with a lower-case letter never
    reaches the map.
  - `LowerCaseCityDropped` shows that "bauru" is placed by the lookup but
    not drawn.

## Model

| member | source | states |
|---|---|---|
| Text.Upper | rc.py:39 | `cidade.upper()`: same length, each character upper-cased (ASCII letters only) |
| Text.Lower | rc.py:56 | `str.lower()`: same length, each character lower-cased (ASCII letters only) |
| Text.UpperFixedPoints | rc.py:39 | upper-casing leaves a string unchanged exactly when it has no lower-case letter |
| Text.UpperIdempotent | rc.py:39 | upper-casing twice is upper-casing once |
| Text.LowerIdempotent | rc.py:56 | lower-casing twice is lower-casing once |
| Geocoder.FixedCoordinates | rc.py:18-36 | `COORDENADAS_FIXAS`, the 17 entries as written; its keys are described by `KeyIsListed`, `KeysHaveNoLowerCase` and `KeysAreUpperCase` |
| Geocoder.GetCoordinates | rc.py:38-39 | the result is present exactly when `upper(city)` is a key, and is then that key's pair; otherwise `(None, None)`; never fails; both halves present or both absent |
| Geocoder.KeyIsListed | rc.py:18-36 | every key of the table is one of the 17 listed names (only these names are keys) |
| Geocoder.KeysHaveNoLowerCase | rc.py:18-36 | no key holds a lower-case ASCII letter |
| Geocoder.KeysAreUpperCase | rc.py:18-36 | every key is its own upper case |
| Geocoder.GetCoordinatesOfKey | rc.py:38-39 | looking up a key gives that key's own pair |
| Geocoder.GetCoordinatesIgnoresCase | rc.py:38-39 | a name and its upper-cased form get the same answer |
| Geocoder.MariliaNotListed | rc.py:38-39 | a city missing from the table (Marília) gets `(None, None)` |
| Demands.WithNumber | rc.py:54 | the `#` mask; its contract is stated by `WithNumberIsSelected`: the one-pass selection by number |
| Demands.WithSupervisorIn | rc.py:56 | the supervisor mask; its contract is stated by `WithSupervisorInIsSelected`: the one-pass selection by both criteria on rows that pass the number test |
| Demands.Filter | rc.py:52-56 | the filter block; its contract is stated by `FilterSpec`, `FilterIsSelected`, `FilterWithoutCriteria` and `FilterIdempotent` |
| Demands.LowerAll | rc.py:56 | `[name.lower() for name in supervisor_name]`: same length, element-wise lower case |
| Demands.Selected | rc.py:52-56 | reference one-pass selection: an order-preserving subsequence; a row is in it iff it is in the table and passes both criteria; every copy is kept |
| Demands.FilterIsSelected | rc.py:52-56 | the two masks applied in turn equal the one-pass selection with both criteria (AND) |
| Demands.SelectedTwice | rc.py:52-56 | selecting twice, where the second criteria imply the first, is selecting once with the second |
| Demands.FilterSpec | rc.py:52-56 | the filtered table is an order-preserving subsequence; a row survives iff (number empty or equal) and (selection empty or lower(supervisor) matches a lower-cased selected name); multiplicities preserved |
| Demands.FilterWithoutCriteria | rc.py:52-56 | an empty number and an empty selection leave the table unchanged |
| Demands.FilterIdempotent | rc.py:52-56 | filtering a filtered table with the same criteria changes nothing |
| Demands.SupervisorMatchIgnoresCase | rc.py:55-56 | selecting "ana" keeps the "Ana" and "ana" rows and drops "BRUNO" |
| Counts.Tally | rc.py:61 | the group-by inside `value_counts()`; its contract is stated by `TallyIsFrequencyTable` |
| Counts.TallyIsFrequencyTable | rc.py:61 | the group-by has one row per distinct value, each with its multiplicity |
| Counts.FrequencyTableCountsPositive | rc.py:61 | every count of a frequency table is between 1 and the number of values |
| Counts.FrequencyTableSum | rc.py:61 | the counts of any frequency table add up to the number of values |
| Counts.SortByCount | rc.py:71 | result is a permutation of the input, sorted by count in the requested direction, and keeps distinct categories distinct |
| Counts.InsertKeepsSorted | rc.py:71 | inserting into a sorted table keeps it sorted |
| Counts.InsertKeepsDistinct | rc.py:71 | inserting a new category keeps categories distinct |
| Counts.SortKeepsFrequencyTable | rc.py:71 | re-sorting a frequency table leaves a frequency table of the same values |
| Counts.ValueCounts | rc.py:61 | `value_counts()`: a frequency table of the values, sorted by count non-increasing, counts summing to the number of values |
| Counts.Among | rc.py:87 | the values lying in a key set: multiplicities kept for keys and zero otherwise; values are the input's values intersected with the keys |
| Counts.AmongSize | rc.py:87 | restricting never lengthens, and keeps every value exactly when all are keys |
| Counts.RestrictTo | rc.py:87 | row kept iff its category is a key; categories intersected with the keys; distinctness preserved |
| Counts.RestrictToKeepsSorted | rc.py:87 | restricting a sorted table keeps it sorted |
| Counts.RestrictToFrequencyTable | rc.py:87 | restricting a frequency table gives the frequency table of the restricted values |
| Counts.RestrictedValueCounts | rc.py:85-87 | restricted value counts: frequency table of the restricted values, non-increasing, summing to their number |
| Counts.RestrictedValueCountsNone | rc.py:87 | when no value is a key, nothing is kept |
| Counts.RestrictedValueCountsSingle | rc.py:87 | when exactly one present value is a key, the result is that value's single row with its multiplicity |
| Counts.AscendingTableOfThree | rc.py:71 | an ascending frequency table of three values with distinct counts has exactly one order |
| Dashboard.ColumnOf | rc.py:61 | `filtered_data[col]`: one field per row, same length |
| Dashboard.SupervisorCounts | rc.py:61 | `supervisor_counts`; its contract is stated by `SupervisorCountsSpec` |
| Dashboard.ClassificationCounts | rc.py:69-71 | `classificacao_counts`; its contract is stated by `ClassificationCountsSpec` and `ClassificationCountsExample` |
| Dashboard.SupervisorCountsSpec | rc.py:61-62 | one row per distinct supervisor with its number of demands, each at least 1, non-increasing, summing to the number of filtered rows |
| Dashboard.ClassificationCountsSpec | rc.py:69-71 | the same rows as the group-by over `Classificação`, each at least 1, now non-decreasing, summing to the number of filtered rows |
| Dashboard.ClassificationCountsExample | rc.py:69-71 | five demands `a`, one `b`, three `c` give exactly (b,1), (c,3), (a,5) |
| Dashboard.CountOf | rc.py:87 | `ocorrencias.loc[...]['Contagem'].values[0]`: the count of a row for that city; in a distinct table, the city's only count |
| Dashboard.JoinKnown | rc.py:87 | the list comprehension; its contract is stated by `JoinKnownShape` |
| Dashboard.DropMissing | rc.py:88 | `.dropna()`; its contract is stated by `DropMissingKeepsLocated` |
| Dashboard.CityOccurrences | rc.py:85-88 | `coordenadas_df`; its contract is stated by `CityOccurrencesAreRestriction`, `CityOccurrencesSpec`, `CityPointsSpec` and `CityTotalSpec` |
| Dashboard.JoinKnownShape | rc.py:87 | the comprehension's (city, count) pairs are the counts restricted to the table's keys, in order; each point carries the table's coordinates |
| Dashboard.DropMissingKeepsLocated | rc.py:88 | `.dropna()` removes nothing when every point has both coordinates |
| Dashboard.CityOccurrencesAreRestriction | rc.py:85-88 | the map's (city, count) pairs are the city value counts restricted to the table's keys, and every point is located |
| Dashboard.CityOccurrencesSpec | rc.py:85-88 | the map shows exactly the distinct filtered cities that are keys, once each, with their counts, non-increasing |
| Dashboard.CityPointsSpec | rc.py:85-88 | each point is a key with the table's coordinates and the city's number of filtered demands |
| Dashboard.CityTotalSpec | rc.py:85-88 | total count at most the number of filtered rows, with equality iff every filtered city is a key |
| Dashboard.JoinIsCaseSensitive | rc.py:87 | a city containing a lower-case letter never reaches the map |
| Dashboard.NoKnownCityNoPoints | rc.py:85-88 | with no filtered city among the keys, the map is empty |
| Dashboard.LowerCaseCityDropped | rc.py:38-39 | "bauru" gets BAURU's coordinates from the lookup but is not drawn |
| Dashboard.OneKnownCity | rc.py:85-88 | when `city` is the only key among the filtered cities, the map is exactly its one point with coordinates and count |
| Dashboard.UnknownCityDropped | rc.py:85-88 | one demand in a known and one in an unknown city give exactly one point, for the known city, count 1 |
| Dashboard.BauruKeptMariliaDropped | rc.py:85-88 | demands in BAURU and MARÍLIA give exactly ("BAURU", -22.262420, -49.180159, 1) |
| Dashboard.Query | rc.py:52-88 | the filtered table and its three views; its contract is stated by `EmptyTableEmptyViews`, with `FilterSpec` for the table and the three view lemmas above |
| Dashboard.EmptyTableEmptyViews | rc.py:61-88 | the supervisor and classification views are empty iff the filtered table is; an empty table gives an empty map |

## Left out

- `load_json` and `pd.read_json` (rc.py:9-16) are file I/O and JSON parsing. The model takes the loaded table as a given sequence of records.
- The loaded-data gate at rc.py:44 is not modelled. The query is defined on any table, empty or not.
- Streamlit widgets and messages are not modelled: page setup, inputs, the count headline and the table display (rc.py:6-7, 45-50, 58-59) and the map-style selector (rc.py:90-91). The filter inputs become the parameters `number` and `selection`.
- The selection is any list of names. The restriction of the multiselect options to the supervisors in the data (rc.py:50) is not modelled.
- Plotly chart and map construction (rc.py:63-65, 73-83, 94-113) is rendering only.
- Column renaming (rc.py:62, 70, 86) is cosmetic: an `Entry` holds a category and a count.
- Coordinates are `real` constants that are stored and passed on. There is no floating-point behaviour.
- Demand: `number` is the `#` field already turned into its string form. The formatting done by `astype(str)` (rc.py:54) is not modelled.
- Text.Upper, Text.Lower: only ASCII letters are mapped. Python's full Unicode case mapping is not modelled. Two visible consequences for accented names:
  the model's `GetCoordinates("gália")` is `(None, None)`, while Python's `"gália".upper()` is the key "GÁLIA";
  and the model's `Filter` drops a row with supervisor "José" when "JOSÉ" is selected, while Python keeps it.
- Missing values are not modelled. The fields are plain strings, so `value_counts` never meets a NaN to skip.
- Counts.SortByCount: ties are kept in input order, by a stable insertion sort. The sort pandas uses for `value_counts` and `sort_values` is not guaranteed stable. So the lemmas state only what holds for any tie order: permutation, sortedness and the frequency-table property. The exact order among equal counts is not part of any contract.
- Counts.ValueCounts: the first-occurrence order of the group-by before sorting is a choice of the model. Pandas does not promise it, and no lemma depends on it.
