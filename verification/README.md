# Choropleth income merge — a Dafny model

Two pages draw a choropleth of household income per Peruvian department: `choropleth/income_map.js`
and `choropleth/income_map_shadow.js`. Both load `income_dept.csv` (one row per department, with
its `name` and `w_income`) and `peru_adm1.geojson` (a GeoJSON FeatureCollection whose features
carry `properties.lower_name`). Both then run the same merge and the same fill rule:

- **Merge.** For each CSV row in order, scan the `features` array for the first feature whose
  `lower_name` equals the row's `name` (`==`, exact and case-sensitive). Write
  `parseFloat(w_income)` into that feature's `properties.value`, then `break`.
- **Fill.** A feature whose `value` is falsy (absent, `0` or `NaN`) is filled `#ccc`. Any other
  feature gets the colour the quantize scale gives for its value, one of five greens.

The model has five modules:

- `Data` (data.dfy) holds the values the merge works on. `Num` is a parsed JavaScript number,
  finite or NaN, and `Record` is one CSV row. `Feature` is a class: the merge writes into the
  feature objects in place. `Names`, `DisplayNames` and `Values` read the array's objects as
  sequences.
- `Join` (join.dfy) is the merge as a function on values, with the lemmas about it. `FirstMatch`
  is where the inner scan stops. `Write` is the effect of one row, and `MergeValues` the effect
  of all rows in data order. `FinalValue` describes each feature's final value directly, with no
  reference to the order of writes.
- `Style` (style.dfy) holds the five-colour palette, the `#ccc` fallback and JavaScript
  truthiness of a `value`.
- `IncomeMap` (income_map.dfy) and `IncomeMapShadow` (income_map_shadow.dfy) each model one
  page. Each has its own `Merge` method, with the two nested loops and the `break` of its
  source. Its postcondition ties the new feature values to `Join.MergeValues` of the old ones.
  Each page also has its fill callback, `FeatureFill`.

Both pages' `Merge` methods have the same postcondition, so every lemma in `Join` and `Style`
applies to both pages.

`parseFloat` and the quantize scale are library code. Each one is a parameter here: a function
`string -> Num`, and a function `Num -> Colour` whose results lie in the palette.

The input features must be distinct objects (`Data.Distinct`). A parsed JSON array always
satisfies this, and it means a write to one feature cannot change another.

Matching uses `==` and is exact and case-sensitive: a row named "Lima" reaches no feature named
"lima" (`Join.ExactNameMatch`).

## Model

| member | source | states |
|---|---|---|
| `Join.FirstMatchFrom` | choropleth/income_map.js:50-55 | a scan from index `from` stops at a feature named `name` with none before it (from `from` on), or finds none when no later feature has that name |
| `Join.FirstMatch` | choropleth/income_map.js:50-59 | the feature the inner loop stops at has the record's name and is the first with that name; there is none exactly when no feature has that name |
| `Join.Write` | choropleth/income_map.js:50-61 | one record's write keeps one value per feature, and a record whose name no feature has changes nothing |
| `Join.WriteAt` | choropleth/income_map.js:50-59 | after one record's write, feature `k` holds the parsed value exactly when it has the record's name and no earlier feature has; every other feature keeps its value |
| `Join.MergeValues` | choropleth/income_map.js:41-62 | the merge keeps exactly one value per feature, so the features array keeps its length |
| `Join.LastNamed` | choropleth/income_map.js:41-44 | the index found is that of a record with the name, and no later record has that name; there is none exactly when no record has the name |
| `Join.MergeValueAt` | choropleth/income_map.js:41-62 | after the merge each feature holds its `FinalValue`: the last matching record's income if it is the first feature with its name, its prior value otherwise |
| `Join.LastRecordWins` | choropleth/income_map.js:41-59 | the first feature with a record's name ends with that record's parsed income when no later record has the same name (first feature wins per record, last record wins per feature) |
| `Join.ShadowedFeatureUntouched` | choropleth/income_map.js:50-59 | a feature preceded by another with the same `lower_name` is never written: each record writes at most one feature |
| `Join.UnmatchedFeatureUntouched` | choropleth/income_map.js:50-61 | a feature whose `lower_name` equals no record's `name` keeps its prior value |
| `Join.UnmatchedRecordIgnored` | choropleth/income_map.js:54-57 | removing a record that matches no feature does not change any final value |
| `Join.MergeIdempotent` | choropleth/income_map_shadow.js:93-133 | merging the same records a second time leaves every value as the first merge left it |
| `Join.ExactNameMatch` | choropleth/income_map.js:44-54 | name matching is exact and case-sensitive: "Lima" does not reach "lima", "lima" does, "Cusco" does not reach "cusco", and "puno" with no record stays absent |
| `Style.NoDataNotInPalette` | choropleth/income_map.js:19-21 | the fallback `#ccc` is none of the five palette colours |
| `Style.UnmatchedFeatureHasNoData` | choropleth/income_map.js:71-79 | starting from absent values, a feature named by no record is still falsy after the merge, so it is filled `#ccc` |
| `Style.MatchedFeatureHasData` | choropleth/income_map_shadow.js:142-150 | a first-with-its-name feature whose last matching record parses to a non-zero number is truthy after the merge, so it gets a palette colour |
| `IncomeMap.Merge` | choropleth/income_map.js:41-62 | the feature values after the loops are `MergeValues` of the records and the values before; `lower_name` and `NAME_1` are unchanged; the array itself is not modified |
| `IncomeMap.FeatureFill` | choropleth/income_map.js:71-79 | the fill is `#ccc` exactly when the value is falsy in JavaScript's sense of `if (value)` (`Style.Truthy`: absent, 0, -0 or NaN), otherwise the scale's colour for the value, one of the palette |
| `IncomeMapShadow.Merge` | choropleth/income_map_shadow.js:93-133 | the same merge as `IncomeMap.Merge`: values become `MergeValues` of the records, using the value parsed at line 98; names unchanged; array unchanged |
| `IncomeMapShadow.FeatureFill` | choropleth/income_map_shadow.js:142-150 | the fill is `#ccc` exactly when the value is falsy in the sense of `if (value)` (`Style.Truthy`: absent, 0, -0 or NaN), otherwise the scale's colour for it, one of the palette |

## Left out

- Loading `income_dept.csv` and the GeoJSON files with `d3.csv` / `d3.json`, and the nested asynchronous callbacks, are I/O. The parsed rows and features are inputs.
- The quantize scale's internals and its domain (`d3.scaleQuantize`, `d3.min` / `d3.max` over the unparsed `w_income` strings) are library code on floats. The scale is a parameter whose results lie in the palette.
- `parseFloat` is library code and is a parameter here. `Num` has no infinities: a row that parses to `Infinity` is outside the model.
- The two button click handlers in income_map_shadow.js (lines 100-116) are DOM event wiring. They reset the scale's domain and a captured local, and they never rewrite a feature's `value`. Neither page re-runs the merge with another column.
- Rendering: projection, `geoPath`, the SVG filter and gradient definitions, tooltips, the legend and the `pe` locale formatting.
- A feature's geometry and its other GeoJSON members. Of `properties`, the model keeps `lower_name`, `NAME_1` and `value`, flattened into the feature object.
- Rows carry only `name` and `w_income`. The `w_food` column is read only by the click handlers.
- Every feature is assumed to have an object `properties` with a string `lower_name`, and every row a string `name`. A null `properties` (a TypeError at income_map.js:52 and income_map_shadow.js:123, which stops the merge part-way) and the loose `==` at income_map.js:54 and income_map_shadow.js:125 applied to non-strings (`5 == "5"`, or `undefined == undefined` when a name is missing) are outside the model.
