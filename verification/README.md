# Turkey mosque distribution with a self-organising map: the pure rules, in Dafny

The program loads a per-province mosque-count table and a province boundary
table. It joins the two on the province name and trains a 5 x 5
self-organising map (SOM) on the counts. It then draws maps and prints
per-cluster statistics. Most of that work is done by pandas, geopandas,
scikit-learn, MiniSom and matplotlib. Five small deterministic rules sit
between those library calls, and this project models and proves them:

- **Place-name normaliser** (`TurkishText`). A fixed twelve-entry table
  rewrites the Turkish letters İ ı Ş ş Ğ ğ Ü ü Ö ö Ç ç to ASCII letters. The
  string is then upper-cased and stripped of surrounding whitespace. Both
  tables are normalised this way so that their join keys agree.
- **Name-column lookup** (`NameColumn`). The headers `name`, `NAME_1`,
  `NAME` and `province` are tried in that order against the geometry
  table's columns. The first one present is used. If none is present, the
  run fails.
- **Left join with zero fill** (`RegionMerge`). The count column is coerced
  to numbers, and a cell that does not parse becomes missing. The geometry
  table is left-joined with the count table on the normalised name. Each
  missing count is then filled with 0.
- **Cluster ids** (`ClusterId`). A province's best-matching SOM cell
  (row, col) on a G x G grid gets the id `row * G + col + 1`. The model
  proves this is a bijection between the grid and [1, G²], with division
  and remainder as the inverse. G is a parameter, and the program's value
  is `SomGridSize = 5`.
- **Sample label** (`SampleLabel`). The per-cluster statistics table shows
  the first three province names joined with `", "`. It appends `"..."`
  when the cluster has more than three.

`Results` holds the shared `Option` and `Result` types. `None` in a count
cell stands for pandas' NaN.

Some modelling choices:

- Upper-casing is modelled on ASCII only: `a`..`z` become `A`..`Z` and every
  other character is unchanged.
- Stripping removes the ASCII characters Python's `str.isspace` accepts.
  These are tab, line feed, vertical tab, form feed, carriage return,
  U+001C..U+001F and space.
- The geometry of a row is an opaque type parameter.
- `pd.to_numeric(errors='coerce')` is abstracted: each count cell arrives
  either parsed (`Some(n)`) or unparseable (`None`). Parsed counts are
  integers here; see "Left out".

The left join emits one row per matching count row, so a province appears
several times when several count rows normalise to its name.
`RegionMerge.MergeLeftProvenance` gives the general multiplicity,
max(1, number of matches), and which count each of those rows carries. A
province appears exactly once when count names are unique
(`RegionMerge.MergeUniqueNames`, and `RegionMerge.MergeByNameJoinsNormalisedNames`
for the whole normalise-then-join step).

## Model

| member | source | states |
|---|---|---|
| TurkishText.ReplaceChar | Som_Algorithm.py:27 | `str.replace` with a one-character needle keeps the length. Every occurrence of the needle becomes the replacement, and every other character is unchanged. When the two differ, no needle is left. |
| TurkishText.ReplaceAll | Som_Algorithm.py:26-27 | Its own contract states only that the loop keeps the length. Its meaning, a per-character lookup, is `ReplaceAllIsLookup`. |
| TurkishText.Upper | Som_Algorithm.py:28 | `upper()` on ASCII keeps the length and leaves no lower-case ASCII letter. Each of `a`..`z` becomes its capital, 32 code points lower. Every other character is unchanged. |
| TurkishText.Normalize | Som_Algorithm.py:19-28 | The result has no leading or trailing whitespace. It contains no lower-case ASCII letter and none of the twelve table letters. It is the whitespace-strip of the input with each character transliterated and upper-cased, so it is never longer than the input. |
| TurkishText.Strip | Som_Algorithm.py:28 | `str.strip()`: the result is the slice of the input between the first and last non-whitespace characters, and only whitespace lies outside it. |
| TurkishText.ReplacementsWellFormed | Som_Algorithm.py:21-25 | Every table source is non-ASCII and every target is ASCII. No target is also a source, and each source has a single target. |
| TurkishText.TableIsTransliterate | Som_Algorithm.py:21-25 | Read as a character map, the dictionary is exactly the twelve-letter transliteration. A character is a table source exactly when the map changes it. |
| TurkishText.ReplaceAllIsLookup | Som_Algorithm.py:26-27 | For any table where no target is a source, the sequential `replace` loop rewrites each character once. Position i of the result is the table's value for the input's character at i. |
| TurkishText.ReplacementOrderIrrelevant | Som_Algorithm.py:21-27 | Applying the twelve rewrites in any order gives the same string. This holds for any sequence that lists exactly the table's pairs, in any order and with repeats. |
| TurkishText.RewriteThenUpperIsFold | Som_Algorithm.py:26-28 | The replace loop followed by `upper()` is the per-character transliterate-then-upper-case map. |
| TurkishText.NormalizeIsStrippedFold | Som_Algorithm.py:19-28 | Normalisation equals stripping the per-character fold of the input. |
| TurkishText.NoTableLetterSurvives | Som_Algorithm.py:21-28 | None of the twelve Turkish letters occurs in any normalised string. |
| TurkishText.OtherCharactersOnlyUppercased | Som_Algorithm.py:26-28 | A character outside the table is only upper-cased. If it is not a lower-case ASCII letter, it passes through unchanged. |
| TurkishText.ReplaceAllFixesClean | Som_Algorithm.py:26-27 | The replace loop leaves a string with no table letter unchanged. |
| TurkishText.NormalizeIdempotent | Som_Algorithm.py:19-28 | Normalising a normalised string returns it unchanged. |
| TurkishText.IzmirExample | Som_Algorithm.py:19-28 | "İzmir Şehri" normalises to "IZMIR SEHRI". |
| NameColumn.FirstPresent | Som_Algorithm.py:45 | For any candidate list, the result is the position of a present candidate with no present candidate before it. It is "not found" exactly when no candidate is present. |
| NameColumn.CandidatesListed | Som_Algorithm.py:44 | The priority list is `name`, `NAME_1`, `NAME`, `province`, four distinct headers in that order. |
| NameColumn.FindNameColumn | Som_Algorithm.py:44-48 | Each of the four headers is chosen exactly when it is present and every higher-priority header is absent. The lookup fails exactly when none of the four is present. |
| NameColumn.FoundColumnIsFirstPresent | Som_Algorithm.py:44-48 | A found header is among the columns and in the priority list, and no earlier candidate is among the columns. |
| NameColumn.IrrelevantColumnsIgnored | Som_Algorithm.py:44-45 | Adding columns that are not candidates never changes the outcome. |
| RegionMerge.MatchPositions | Som_Algorithm.py:57 | The positions of the count rows with a given name. Its own contract bounds how many there are. Which positions they are is stated by `MatchPositionsExact`. |
| RegionMerge.MatchPositionsExact | Som_Algorithm.py:57 | The matching positions are every count row with that name, each in range and naming that key, in strictly increasing order. |
| RegionMerge.MatchingCounts | Som_Algorithm.py:57 | There is one matched cell per matching position. None are matched exactly when no count row has that name. |
| RegionMerge.MatchingCountsAtPositions | Som_Algorithm.py:57 | Matched cell k is the cell of the k-th count row with that name, so the cells follow the count table's order. |
| RegionMerge.MatchingCountsExact | Som_Algorithm.py:57 | The count cells matched by a key are exactly the cells of count rows with that name. |
| RegionMerge.Cells | Som_Algorithm.py:57 | The count cells a geometry row receives: its matched cells when there are any, otherwise a single missing cell. |
| RegionMerge.CellsComeFromTable | Som_Algorithm.py:57 | Each cell a geometry row receives is missing or the cell of a count row with that name. |
| RegionMerge.JoinRow | Som_Algorithm.py:57 | A geometry row yields max(1, number of matches) join rows. Each carries its name and geometry. Row k carries the k-th matched count cell, or a missing count when nothing matches. |
| RegionMerge.JoinRowFromTable | Som_Algorithm.py:57 | Every count a geometry row's join rows carry is missing or belongs to a count row with that row's name. |
| RegionMerge.MergeLeft | Som_Algorithm.py:57 | Its own contract states only that the join has at least one row per geometry row. Its content is stated by `MergeLeftProvenance`, `OriginsLabelRows`, `OriginCarriesCell`, `OriginsSorted` and `OriginsMultiplicity`. |
| RegionMerge.MergeLeftProvenance | Som_Algorithm.py:57 | Each join row comes from a geometry row and carries its name and geometry. Source positions never decrease along the output, so geometry order is kept. Geometry row i appears exactly max(1, matches of its name) times. Its rows carry its matched count cells in count-table order, or one missing count when nothing matches. |
| RegionMerge.OriginsLabelRows | Som_Algorithm.py:57 | Every join row has a source geometry row, and it carries that row's name and geometry. Its count is missing or a count cell of that name. |
| RegionMerge.OriginCarriesCell | Som_Algorithm.py:57 | Join row k lies in the block of its geometry row. The block starts after max(1, matches) rows for each earlier geometry row. Its count is the entry of that row's cells at its offset within the block. |
| RegionMerge.MergeLeftLength | Som_Algorithm.py:57 | The join has exactly max(1, matches of its name) rows per geometry row, summed over the geometry table. |
| RegionMerge.OriginsSorted | Som_Algorithm.py:57 | The source positions of the join rows never decrease, so the left table's order is kept. |
| RegionMerge.OriginsMultiplicity | Som_Algorithm.py:57 | Geometry row i is the source of exactly max(1, matches of its name) join rows. |
| RegionMerge.FillMissing | Som_Algorithm.py:59 | `fillna(0)`: a present count is kept, a missing one becomes 0. Names, geometry and length are unchanged. |
| RegionMerge.MergeCounts | Som_Algorithm.py:57-59 | Its own contract states only that there is at least one region per geometry row. Its content is stated by `FillMissing`, `MergeUniqueNames` and `MergeCountsNonNegative`. |
| RegionMerge.AtMostOneMatch | Som_Algorithm.py:57 | When count names are unique, a name matches at most one count row. |
| RegionMerge.SingleJoinRow | Som_Algorithm.py:57 | When count names are unique, a geometry row yields exactly one join row. That row keeps the geometry row's name and geometry. It carries the cell of the count row with that name, or a missing count when there is none. |
| RegionMerge.MergeLeftUniqueRow | Som_Algorithm.py:57 | When count names are unique, join row i exists and is geometry row i with its name, its geometry, and its match's cell or a missing count. |
| RegionMerge.MergeLeftUniqueNames | Som_Algorithm.py:57 | When count names are unique, the join has one row per geometry row, aligned with it. An unmatched row has a missing count, and a matched row has its count row's cell. |
| RegionMerge.MergeUniqueNames | Som_Algorithm.py:57-59 | When count names are unique, the merged table has one region per geometry row, aligned with it. A matched count is the parsed value, or 0 when it did not parse. An unmatched region has count 0. |
| RegionMerge.MergeCountsNonNegative | Som_Algorithm.py:57-59 | If every parsed count is non-negative, every merged count is non-negative. |
| RegionMerge.NormalizeGeo | Som_Algorithm.py:53 | Applying the normaliser to the geometry table's name column keeps the row count and order. Each name becomes `Normalize` of the old name, and the geometry is unchanged. |
| RegionMerge.NormalizeCounts | Som_Algorithm.py:54 | Applying the normaliser to the count table's name column keeps the row count and order. Each name becomes `Normalize` of the old name, and the count cell is unchanged. |
| RegionMerge.MergeByName | Som_Algorithm.py:53-59 | After normalising both tables' names and merging, there are at least as many rows as geometry rows. Every output name is already normalised. Which count each region receives is stated by `MergeByNameJoinsNormalisedNames`. |
| RegionMerge.MergeByNameJoinsNormalisedNames | Som_Algorithm.py:53-59 | When no two count names normalise alike, there is one region per geometry row, in order. Region i keeps its geometry and takes its normalised name. Its count is the parsed count of the count row whose name normalises alike, 0 when that count did not parse, and 0 when there is no such row. |
| RegionMerge.ThreeCityExample | Som_Algorithm.py:57-59 | Geometry ISTANBUL, ANKARA, IZMIR merged with counts ISTANBUL 100 and ANKARA 50 gives 100, 50 and 0, in geometry order. |
| ClusterId.Encode | Som_Algorithm.py:92-95 | The id of a grid cell lies in [1, G²]. |
| ClusterId.Decode | Som_Algorithm.py:92-95 | `((id-1) / G, (id-1) % G)` maps every id in [1, G²] to a cell of the grid. |
| ClusterId.AssignClusters | Som_Algorithm.py:89-95 | One id per best-matching unit, in order. Each id is in [1, G²] and decodes back to its unit. |
| ClusterId.DecodeEncode | Som_Algorithm.py:92-95 | Decoding a cell's id recovers the cell. |
| ClusterId.EncodeDecode | Som_Algorithm.py:92-95 | Encoding an id's cell recovers the id. |
| ClusterId.EncodeInjective | Som_Algorithm.py:92-95 | Different cells get different ids. |
| ClusterId.EncodeOnto | Som_Algorithm.py:92-95 | Every id in [1, G²] is the id of exactly one grid cell. |
| ClusterId.DefaultGridIds | Som_Algorithm.py:92-95 | On the program's 5 x 5 grid the ids are `5*row + col + 1` and range over 1..25. |
| SampleLabel.Join | Som_Algorithm.py:154 | `sep.join(parts)`. It has no contract of its own. Its meaning is stated by `JoinAppend`, `JoinLength` and `JoinPart`. |
| SampleLabel.Label | Som_Algorithm.py:154 | The sample label. It has no contract of its own. Its meaning is stated by `LabelTruncatesJoin`, `LabelShowsFirstNames`, `LabelLength` and `LabelSeesFirstThree`. |
| SampleLabel.JoinAppend | Som_Algorithm.py:154 | `sep.join(a + b)` is `sep.join(a) + sep + sep.join(b)` for non-empty a and b. |
| SampleLabel.JoinLength | Som_Algorithm.py:154 | A join's length is the parts' total length plus one separator between each pair of neighbours. |
| SampleLabel.JoinPart | Som_Algorithm.py:154 | Part k occurs in the join at the offset left by the parts and separators before it. |
| SampleLabel.LabelTruncatesJoin | Som_Algorithm.py:154 | With at most three names the label is the `", "`-join of all of them. With more, the label ends in `"..."`. Before that it holds exactly the part of the full join that precedes the separator after the third name. |
| SampleLabel.LabelSeesFirstThree | Som_Algorithm.py:154 | Two clusters with more than three names and the same first three have the same label. |
| SampleLabel.LabelShowsFirstNames | Som_Algorithm.py:154 | Each of the first three names occurs in the label at its place in the join. |
| SampleLabel.LabelLength | Som_Algorithm.py:154 | The label's length is the lengths of the shown names, plus 2 per separator, plus 3 when names were dropped. |
| SampleLabel.LabelExamples | Som_Algorithm.py:154 | `["ANKARA","IZMIR"]` gives "ANKARA, IZMIR". Four names give the first three joined, then "...". |

## Left out

- File I/O is not modelled: reading the CSV and GeoJSON (Som_Algorithm.py:37, 41) and saving or showing figures (143, 146, 188, 190) are library side effects.
- Renaming columns (Som_Algorithm.py:38, 50) is not modelled. The model names the join key field directly.
- Numeric coercion with `pd.to_numeric(errors='coerce')` (Som_Algorithm.py:39) is not modelled as a parser. Its result is an input: a parsed integer or a missing cell.
- Non-integer counts are not represented. `pd.to_numeric(errors='coerce')` (Som_Algorithm.py:39) yields float64, so a cell such as "12.5" becomes 12.5. The model's parsed counts are integers. The join and the fill do not depend on the value type.
- Min-max scaling with `MinMaxScaler` (Som_Algorithm.py:68-69) is not modelled. It is floating point, and its constant-input handling lives inside scikit-learn.
- SOM initialisation, training, best-matching-unit search and the U-Matrix (Som_Algorithm.py:74-89, 171) are not modelled. They are MiniSom calls with pseudo-random initialisation and float weights. The best-matching cell is an input in [0, G)².
- Plotting, titles and legends (Som_Algorithm.py:98-146, 168-190) are not modelled; they are presentation only. The label loop at 181-185 reuses the id formula. It draws over `distance_map().T`, so off the diagonal the labels appear to sit on the transposed node. The model makes no claim that those labels match the assigned clusters.
- Grouping by cluster and the count, mean, min, max, sum and rounding aggregates (Som_Algorithm.py:152-158) are not modelled; they are pandas float aggregation. `SampleLabel.Label` takes one cluster's names, in table order, as its input.
- The top-10 ranking with `nlargest` (Som_Algorithm.py:163) is not modelled, because its tie-breaking is library behaviour.
- Exception and import-error handling (Som_Algorithm.py:32, 192-208) is not modelled. The model returns the name-column failure as a `Result` error instead of raising it.
- TurkishText.Normalize: upper-casing is ASCII-only, because Unicode case mapping is not modelled. Python's `str.upper()` also maps other letters, for example 'é' to 'É', 'â' to 'Â' and 'ß' to "SS", and here those characters pass through unchanged. So a name such as "Hakkâri" normalises to "HAKKâRI" here but to "HAKKÂRI" in the program. The program joins it with a count row spelled "HAKKÂRI"; the model does not, and that province keeps count 0.
- TurkishText.Strip: only ASCII whitespace is removed. Python also strips Unicode spaces such as U+00A0 and U+0085.
- RegionMerge.MergeByName: a non-string name (a NaN in the CSV's name column) would make the source raise. The model's names are always strings.
