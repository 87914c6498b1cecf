# NOAA weather cleaning rules, modelled in Dafny

`clean_data.py` turns raw NOAA hourly observations from JFK airport into a numeric,
hourly time series. Its `main()` loads one table, `data_weather`, and changes it in place
step by step:

1. The sentinel `*` becomes missing in every column.
2. In `HOURLYPrecip`, the trace marker `T` becomes `0.00`, and tokens with more than one `.` become missing.
3. Every column goes through `tryconvert`, which turns each cell into a number or missing and never raises.
4. `HOURLYVISIBILITY` values outside [0, 10] become missing.
5. The table is resampled to hourly buckets and shifted down by one period.
6. `HOURLYPressureTendency` is forward filled, and the first row is dropped.
7. The tendency code becomes three 0/1 indicator columns.
8. The output name is derived from the input path.

This project models those rules. A cell is `Option<Value>`: `None` is the missing marker
(NaN in the source). A `Value` is either a raw `Token` (before conversion) or a `Number`
(after it). Each rule is a pure function on one column (`seq<Cell>`) with its properties
proved as lemmas. The table that `main()` mutates is the class `Frames.Frame`. It holds
a timestamp index, an ordered list of column names and a map from name to column. Each of
its methods performs one stage and states its effect through those column functions.

Modules:
- `Wrappers`: `Option` and `Result`.
- `Cells`: cells, character counting and `tryconvert`.
- `Normalise`: the sentinel, trace, multi-dot and range rules.
- `Fill`: forward fill.
- `Align`: the shift and the first-row drop.
- `Tendency`: the indicator encoding.
- `Naming`: the output name.
- `Frames`: the table class and the per-column composition of the stages.

The number parser `np.float64(str)` is a parameter `parse: string -> Option<real>`.
`None` stands for "raises or yields NaN". The model never looks inside its grammar.

The output name comes from `file_name, extension = path.split(".")`, which splits at
every dot and unpacks exactly two pieces. A path with no dot, or with more than one,
raises ValueError before anything is written: `data.v2.csv` does not give
`data_cleaned.csv`, and neither does `./jfk_weather.csv`. See `Naming.OutputName`,
`Naming.VersionedPathFails` and `Naming.RelativePathFails`.

## Model

| member | source | states |
|---|---|---|
| `Cells.Count` | clean_data.py:54 | the number of occurrences of a character is at most the length, and it is zero exactly when the character is absent |
| `Cells.CountIsMultiplicity` | clean_data.py:54 | the character count equals the character's multiplicity in the string's multiset |
| `Cells.TryConvert` | clean_data.py:17-25 | total conversion: a result is present exactly when the cell is a number or a token the parser accepts; a number is kept, a token gets the parser's value, and every refusal is missing rather than an error |
| `Cells.ConvertCell` | clean_data.py:58 | the converted cell is missing or a number; it is present exactly when tryconvert gives a number, and then it holds that number; a cell that is already numeric is left as it is |
| `Cells.Convert` | clean_data.py:58 | converting a column keeps its length and leaves only numbers and missing cells |
| `Cells.ConvertFixedPoint` | clean_data.py:57-58 | conversion leaves a column unchanged if and only if the column is already all numeric |
| `Cells.ConvertIdempotent` | clean_data.py:57-58 | converting twice is the same as converting once |
| `Normalise.NullSentinel` | clean_data.py:50 | a cell becomes missing exactly when it was missing or was the token `*`; every other cell is unchanged |
| `Normalise.NullSentinelIdempotent` | clean_data.py:50 | applying the sentinel rule twice is applying it once |
| `Normalise.ReplaceTrace` | clean_data.py:52 | no `T` token remains, every `T` becomes `0.00`, and all other cells are unchanged |
| `Normalise.NullMultiDot` | clean_data.py:54 | no token with more than one `.` remains; such tokens become missing and every other cell (missing, numbers, other tokens) is unchanged |
| `Normalise.TraceZeroHasOneDot` | clean_data.py:52-54 | the replacement `0.00` has exactly one `.`, so the multi-dot rule keeps it |
| `Normalise.PrecipNormalised` | clean_data.py:52-54 | after both precipitation rules, no cell is `T` and no token has two or more dots; `T` ends up as `0.00`, malformed tokens end up missing, and other cells are unchanged |
| `Normalise.NullOutOfRange` | clean_data.py:61 | every present visibility number lies in [0, 10]; numbers above 10 or below 0 become missing; every other cell is unchanged |
| `Normalise.NullOutOfRangeIdempotent` | clean_data.py:61 | applying the range rule twice is applying it once |
| `Normalise.TokenRulesFixNumeric` | clean_data.py:50-54 | on an all-numeric column, the sentinel, trace and multi-dot rules change nothing |
| `Fill.FillFrom` | clean_data.py:67 | carrying the last value forward keeps the length and leaves present cells unchanged |
| `Fill.FFill` | clean_data.py:67 | forward fill keeps the length and leaves every present cell unchanged |
| `Fill.FillFromAt` | clean_data.py:67 | cell i of the carried fill is the nearest present value at or before i, or the carried value if there is none |
| `Fill.FFillAt` | clean_data.py:67 | forward-filled cell i equals the reference backward search for the nearest present cell at or before i |
| `Fill.LastPresentNone` | clean_data.py:67 | the backward search finds nothing exactly when every cell it searched is missing |
| `Fill.FFillSpec` | clean_data.py:67 | a filled cell is missing if and only if every cell at or before it is missing; otherwise it equals some present cell j at or before it, and every cell between j and it is missing |
| `Fill.FFillIdempotent` | clean_data.py:67 | forward filling twice is forward filling once |
| `Align.Shift` | clean_data.py:64 | shifting keeps the length, makes the first row missing and moves row k-1 to row k |
| `Align.ShiftDropFirst` | clean_data.py:64-69 | shifting and then dropping the first row leaves one row fewer than the bucket series, output row k holds bucket k, so the result is every bucket but the last |
| `Align.ShiftFillDrop` | clean_data.py:64-69 | forward filling between the shift and the drop equals forward filling every bucket but the last |
| `Tendency.Encode` | clean_data.py:77-79 | Incr is 1.0 exactly for a whole code in 0..3, Decr exactly for a whole code in 5..8, and Cons exactly for the code 4 |
| `Tendency.EncodeExclusive` | clean_data.py:77-79 | each indicator is 0.0 or 1.0 and at most one is 1.0; exactly one is 1.0 if and only if the code is a whole number in 0..8; otherwise (missing, text, fractional or out of range) all three are 0.0 |
| `Tendency.EncodeColumn` | clean_data.py:77-79 | the three indicator columns have the code column's length and are all numeric, and row i holds the encoding of code i |
| `Naming.Split` | clean_data.py:86 | `split` returns one piece more than the separator count, and no piece contains the separator |
| `Naming.JoinSplit` | clean_data.py:86 | joining the pieces with the separator gives back the original string |
| `Naming.SplitNoSep` | clean_data.py:86 | a string without the separator splits into just itself |
| `Naming.SplitAfterPrefix` | clean_data.py:86 | a separator after a separator-free prefix splits off exactly that prefix |
| `Naming.OutputName` | clean_data.py:86-87 | the name is derived if and only if the path has exactly one `.`; with no dot the unpacking lacks values, with more it has too many; a derived name ends in `_cleaned.csv` with no dot before that suffix |
| `Naming.OutputNameOfStem` | clean_data.py:86-87 | for any dot-free stem and extension, `stem.ext` gives `stem_cleaned.csv` |
| `Naming.OutputNameStem` | clean_data.py:86-87 | every derived name is the text before the path's dot followed by `_cleaned.csv` |
| `Naming.TwoDotsFail` | clean_data.py:86 | any path with two dots raises at the unpacking |
| `Naming.VersionedPathFails` | clean_data.py:86 | `data.v2.csv` raises instead of keeping `data` |
| `Naming.RelativePathFails` | clean_data.py:86 | `./jfk_weather.csv` raises |
| `Frames.Without` | clean_data.py:80 | dropping a column name leaves exactly the other names and keeps them distinct; dropping an absent name changes nothing |
| `Frames.WithoutKeepsOrder` | clean_data.py:80 | with distinct names, dropping the name at position k leaves the names before and after it in their order |
| `Frames.Kept` | clean_data.py:69 | the number of rows kept is the row count minus the number of rows carrying the dropped label (its multiplicity among the labels), so all of them when the label is absent |
| `Frames.DropLabel` | clean_data.py:69 | dropping by label keeps as many cells as there are rows with another label; a single row is kept exactly when its label differs; an absent label changes nothing; a label carried only by the first row removes exactly the first cell |
| `Frames.DropLabelAppend` | clean_data.py:69 | dropping from two stacked blocks of rows is dropping from each block and stacking the results, so with the one-row case the surviving cells are exactly those whose row label differs, in their original order |
| `Frames.DropLabelRemoves` | clean_data.py:69 | after dropping a label no row carries it, and every remaining label was there before |
| `Frames.CleanColumn` | clean_data.py:50-61 | after lines 50-61 a column keeps its length, is all numeric, and (for visibility) every present value lies in [0, 10] |
| `Frames.CleanStages` | clean_data.py:50-61 | running the five table-wide stages one after another leaves every column equal to its `CleanColumn` |
| `Frames.CleanColumnIdempotent` | clean_data.py:50-61 | cleaning an already cleaned column changes nothing |
| `Frames.SentinelBecomesMissing` | clean_data.py:50-58 | `*` ends up missing in every column, whatever the parser would make of it |
| `Frames.MalformedHasTwoDots` | clean_data.py:54 | `0.00.1` has two dots |
| `Frames.MalformedPrecipMissing` | clean_data.py:54-58 | in precipitation, `0.00.1` ends up missing whatever the parser does |
| `Frames.TracePrecipZero` | clean_data.py:52-58 | in precipitation, `T` ends up 0.0 when the parser reads `0.00` as 0.0 |
| `Frames.AlignColumn` | clean_data.py:64-69 | after shift, fill and drop, a column has one row fewer and holds every bucket but the last; the tendency column holds their forward fill |
| `Frames.Frame.constructor` | clean_data.py:45-47 | the table as read: distinct names, one column per name, every column as long as the index |
| `Frames.Frame.ReplaceSentinel` | clean_data.py:50 | every column becomes its sentinel-nulled version; the index and names are unchanged |
| `Frames.Frame.ReplaceTracePrecip` | clean_data.py:52 | only the precipitation column changes, by the trace rule |
| `Frames.Frame.NullMultiDotPrecip` | clean_data.py:54 | only the precipitation column changes, by the multi-dot rule |
| `Frames.Frame.ConvertAll` | clean_data.py:57-58 | the loop over the columns converts every column and nothing else changes |
| `Frames.Frame.NullVisibilityOutOfRange` | clean_data.py:61 | only the visibility column changes, by the range rule |
| `Frames.Frame.CleanObservations` | clean_data.py:50-61 | after the five stages every column is its `CleanColumn` and all numeric; the index and names are unchanged |
| `Frames.Frame.ShiftRows` | clean_data.py:64 | every column is shifted by one period and the index stays |
| `Frames.Frame.ForwardFillTendency` | clean_data.py:67 | only the tendency column changes, to its forward fill |
| `Frames.Frame.DropFirstRow` | clean_data.py:69 | on a non-empty table every row labelled like the first is removed, from the index and from every column; on an empty table `index[0]` raises and nothing changes |
| `Frames.Frame.AlignHourly` | clean_data.py:64-69 | on strictly increasing bucket timestamps, the index loses its first timestamp, so output row k carries bucket k+1's timestamp, and every column becomes its `AlignColumn` (bucket k's values); an empty table reports failure and is unchanged |
| `Frames.Frame.EncodeTendency` | clean_data.py:77-80 | the tendency column is replaced by Incr, Decr and Cons appended at the end, holding its encoding; the other columns are unchanged |

## Left out

- Argument parsing and the global `args` (clean_data.py:12-15): the path and the verbose flag are plain parameters.
- Reading the CSV, parsing DATE and setting the index (clean_data.py:45-47): the `Frame` constructor receives the table as read. Timestamps are integers (minutes).
- Writing the CSV with `%g` formatting (clean_data.py:87): file I/O. Only the derived name is modelled.
- The grammar of `np.float64(str)` (exponents, `inf`, `nan`, whitespace): it is the opaque `parse` parameter.
- Cells.TryConvert: float64 is modelled as `real`, so ±inf (from `inf` or `1e999`) is not represented. A parser must map such a token to missing or to a real. Neither choice matches the source downstream: in the tendency column the source keeps inf, carries it forward at line 67 and encodes it as three 0.0, whereas a missing cell is filled from the row above.
- Resampling with `resample('60min').last()` (clean_data.py:64): this is pandas bucketing. `AlignHourly` starts from a table whose rows are already the hourly buckets.
- Linear interpolation (clean_data.py:68): floating-point arithmetic with pandas-defined edge behaviour. In the model, columns other than the tendency keep their gaps after `AlignHourly`. The tendency column is taken as untouched by it, since after the forward fill its only gaps are leading ones.
- The sine/cosine encoding of wind direction and its column drop (clean_data.py:72-74): transcendental floating point. `HOURLYWindDirection` stays in the model's table.
- The float32 casts of the indicators (clean_data.py:81-83): they only ever hold 0.0 and 1.0, which are exact in float32.
- Verbose statistics (clean_data.py:89-98): printed output only.
- NullMultiDot: does not model the AttributeError that `.str` raises when the precipitation column holds no text at all (a float-typed column). Every cell is treated as a token or a number.
- NullOutOfRange: leaves text tokens alone, where pandas would raise on comparing text with a number. Tokens cannot reach line 61, because `CleanObservations` converts every column first.
- Frames.Frame.AlignHourly: requires strictly increasing timestamps, as resampling produces them. Only then is dropping the first label (line 69) the same as dropping the first row.
- Frames.Frame.EncodeTendency: requires that the three indicator names are not already columns. Tables built from the import column list never have them, and an existing column would be overwritten in place rather than appended.
- Frames.Frame.ReplaceTracePrecip: the replace at clean_data.py:52 goes through a column selection (chained assignment). The model takes it as writing through to the table.
