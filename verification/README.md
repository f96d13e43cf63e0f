# Plazas-Vacantes dashboard: a Dafny model of its data pipeline

The dashboard "Monitor de Plazas 2026" shows teaching vacancies. It reads a vacancy file and cleans
the `PROVINCIA` and `DISTRITO` columns. It then works out which columns hold the institution name and
the education level. A sidebar offers four cascading filters: province, district, level and vacancy type.
The filtered rows feed four outputs:

- a heat map by province or by district, with a fallback to the province view;
- two "top 15" bar charts, one for schools and one for districts;
- a detail table with a fixed set of columns.

This project models that pipeline as pure functions over an in-memory table and proves what each step
promises. The UI is not modelled.

- **`wrappers.dfy`** (`Wrappers`): `Option` and `Result`.
- **`text.dfy`** (`Text`): models Python's `str.strip()` (the `str.isspace` characters) and `str.upper()`.
  - For `upper()`, only ASCII and Latin-1 letters are modelled.
  - It also models the substring test `sub in s`.
- **`ordering.dfy`** (`Ordering`): Python's order on `str`, and `sorted(values.unique())`.
  - Proves that the sorted distinct list is the only strictly ascending list holding those values.
- **`tables.dfy`** (`Tables`): the table and the loader `cargar_datos`.
  - A table is a column list plus rows. Each row is a map from column name to cell text.
  - A missing cell (pandas' NaN) is a key absent from its row.
  - Loading puts `SIN INFORMACIÓN` into every missing cell, then strips and upper-cases the two region
    columns.
- **`columns.dfy`** (`Columns`): resolving the name column and the level column. There are two forms of
  the name column:
  - as written, with the `NOMBRE_IE` placeholder;
  - corrected, as an `Option` (see Findings).
- **`filters.dfy`** (`Filters`): the filter cascade.
  - Every stage is measured against one reference, `Sieve`: the rows that every criterion admits, in
    table order.
  - `Cascade` returns the sidebar's value lists and the filtered view. When a required column is
    missing, it returns the error the dashboard would stop on instead.
- **`counting.dfy`** (`Counting`): `value_counts()` and `value_counts().head(n)`, including the totals
  the province map relies on.
- **`geo.dfy`** (`Geo`): the heat map's data.
  - Province view: per-province counts joined with the province dictionary.
  - District view: per-(province, district) counts joined with the coordinate table.
  - Places without a coordinate are dropped.
  - When the coordinate table is missing, the district view falls back to the province view.
- **`detail.dfy`** (`Detail`): the detail tab's column list and the projection `df[cols]`.
- **`dashboard.dfy`** (`Dashboard`): the two rankings, and `Run`, which builds the whole page from the
  inputs:
  - the vacancy file and the district coordinate table, each absent when it could not be read;
  - the province dictionary;
  - the selections;
  - the map radio.

A `PROVINCIA` or `DISTRITO` cell that holds only blanks becomes the empty string after loading, not
`SIN INFORMACIÓN`: the sentinel replaces only missing cells, and the strip comes after it. So a
province can be empty after loading. `Tables.Load` states exactly when that happens.

When no column name contains `NIVEL`, the source fails with an IndexError at `app.py:73`. It does not
switch the level filter off. The model follows the code: `Filters.Cascade` returns `NoLevelColumn`.

## Model

| member | source | states |
|---|---|---|
| `Text.Upper` | app.py:16 | The result has the same length and changes each lower-case letter into its capital and nothing else. It is upper-case, keeps which characters are whitespace, and leaves an upper-case string unchanged. |
| `Text.Strip` | app.py:16 | The result is a contiguous slice of the input with only whitespace cut from both ends. It has no whitespace at either end, is empty exactly when the input is all whitespace, and equals the input when there was nothing to cut. |
| `Text.Clean` | app.py:16-18 | Strip then upper-case: the result is trimmed and upper-case, empty exactly when the input is all whitespace, and a clean string is left unchanged. |
| `Text.Contains` | app.py:45 | True exactly when `sub` occurs at some position of `s`. |
| `Ordering.SortedUnique` | app.py:56 | The result is strictly ascending in Python's string order and holds exactly the input's values. |
| `Ordering.AscendingDeterminedByElements` | app.py:56 | Two strictly ascending lists with the same elements are equal, so a candidate list is fixed by the values in the view. |
| `Ordering.LessTotal` | app.py:56 | Any two different strings are ordered one way or the other, so sorting is well defined. |
| `Tables.LoadCell` | app.py:13-18 | A missing cell becomes `SIN INFORMACIÓN`. A present cell outside the region columns is kept verbatim. A region cell is the cleaned original, trimmed and upper-case. |
| `Tables.Load` | app.py:13-18 | Columns and row count are unchanged, and afterwards no cell is missing. Missing cells hold the sentinel and other cells keep their text. Region cells are cleaned, trimmed and upper-case. A region cell is empty exactly when the original was present and all blanks. |
| `Tables.LoadIdempotent` | app.py:13-18 | Loading an already loaded table changes nothing. |
| `Tables.TallyIsMultiplicity` | app.py:163 | Counting rows that hold a value equals that value's multiplicity among the column's values. |
| `Columns.MatchesHint` | app.py:45 | True exactly when the column name contains one of the hints. |
| `Columns.FirstHinted` | app.py:45-46 | Returns the index of the first column whose name contains a hint, or none when no column does. |
| `Columns.Resolve` | app.py:43-46 | The preferred name wins when present. Otherwise a column is found exactly when some column is hinted, and it is the first hinted one in column order. Any result is a column of the table. |
| `Columns.ResolveNameColumn` | app.py:43-46 | As written: gives `NOMBRE_IE` when that column is present, else the first hinted column, else the placeholder `NOMBRE_IE`. The result is not a column exactly when no name column exists. |
| `Columns.NameColumn` | app.py:43-46 | Corrected: `NOMBRE_IE` wins when present. Otherwise the result is the first column, in column order, whose name contains `NOMBRE`, `INSTITUCION` or `I.E.`. There is none exactly when neither exists. |
| `Columns.LevelColumn` | app.py:68-73 | Gives `NIVEL_EDUCATIVO` when present. Otherwise it gives the first column, in column order, whose name contains `NIVEL`. There is none exactly when neither exists; that is the source's IndexError. |
| `Columns.PlaceholderIsNotAColumn` | app.py:46 | With only the columns `PROVINCIA`, `DISTRITO` and `NIVEL_EDUCATIVO`, the name resolution answers `NOMBRE_IE`, which is not a column. |
| `Filters.Sieve` | app.py:58-82 | Keeps only rows that every criterion admits, as a subsequence of the input. |
| `Filters.SieveMultiplicity` | app.py:58-82 | Each row every criterion admits stays as often as it occurs in the input, and every other row is dropped. |
| `Filters.SieveKeepsAdmitted` | app.py:58-82 | When every row passes, the rows come back unchanged. |
| `Filters.SieveCompose` | app.py:58-82 | Filtering by one list of criteria and then another equals filtering by both lists at once. |
| `Filters.SieveSameCriteria` | app.py:58-82 | Only which criteria apply matters, not their order or repetition. |
| `Filters.Apply` | app.py:58-59 | One stage. An empty selection returns the view unchanged. Otherwise only rows whose cell is selected remain, in their order. The stage is the sieve by its one criterion. |
| `Filters.ApplyMultiplicity` | app.py:58-59 | Each row the stage admits stays as often as it occurs, and every other row is dropped. |
| `Filters.ApplyIdempotent` | app.py:58-59 | Applying the same stage twice is applying it once. |
| `Filters.ApplyCommutes` | app.py:58-65 | Two stages may run in either order. |
| `Filters.Candidates` | app.py:75 | The candidate list is strictly ascending and holds exactly the values of the column in the view. |
| `Filters.DistrictOptions` | app.py:62 | The district list is strictly ascending and holds exactly the districts of the view's rows whose province is selected (all rows when none is). |
| `Filters.Cascade` | app.py:56-82 | Errors come in the source's order: `PROVINCIA` missing, then `DISTRITO` missing, then no level column. It succeeds exactly when all three exist. On success, the view is the input rows sieved by the four stages in order, the vacancy-type stage exists exactly when the `TIPO_VACANTE` column does, and every list offered is ascending and holds the distinct values of the rows its stage sees. |
| `Filters.RunStages` | app.py:56-82 | Once the columns are known, the stages apply the criteria in the dashboard's order, the view is the sieve by all of them, and the offered lists are as in `Cascade`. |
| `Filters.CascadeViews` | app.py:58-82 | Each stage's output equals the sieve by that stage and every stage before it. |
| `Filters.TypeStageSkipped` | app.py:79-82 | Without a `TIPO_VACANTE` column the vacancy-type choice changes nothing and only three criteria apply. |
| `Filters.DistrictsFromPickedProvinces` | app.py:62 | With provinces picked, every district offered belongs to a row whose province is picked. |
| `Filters.SieveComplete` | app.py:58-82 | Filtering keeps every remaining row complete. |
| `Counting.ValueCounts` | app.py:163 | Each distinct value appears on exactly one line, with its exact number of occurrences (at least one), and no other value appears. |
| `Counting.SortedCounts` | app.py:163 | `value_counts()`: every distinct value once with its exact count, most frequent first, with ties in order of first occurrence. |
| `Counting.SortedCountsSum` | app.py:163-173 | For any set of keys, the counts of the sorted lines in that set add up to the number of elements in it. |
| `Counting.SumInValueCounts` | app.py:163-173 | Counting and then summing the lines for a set of keys gives the number of elements in that set: nothing is lost or counted twice. |
| `Counting.SumInPermutation` | app.py:163 | Lines in another order have the same sum. |
| `Counting.TopN` | app.py:225 | At most n lines, with distinct values and exact counts, in non-increasing count order and ties by first occurrence. Fewer than n lines only when every value is listed. Every value left out ranks below every value kept. |
| `Geo.Join` | app.py:181-184 | The join never adds lines. |
| `Geo.JoinMembers` | app.py:181-184 | Exactly the counted places that have a coordinate survive, each paired with its own coordinate and count. |
| `Geo.JoinTotal` | app.py:172-173 | The surviving counts add up to the counts of the places that have a coordinate. |
| `Geo.JoinDistinct` | app.py:181-184 | Distinct places stay distinct through the join. |
| `Geo.JoinNonIncreasing` | app.py:172-173 | A count table in non-increasing order stays in that order after the join. |
| `Geo.ProvincePoints` | app.py:163-173 | One point per distinct province of the view that the dictionary knows, and no other, each with that province's coordinate and its number of rows (at least one). Counts are non-increasing. Their total is the number of rows whose province the dictionary knows. |
| `Geo.DistrictPoints` | app.py:177-184 | One point per distinct (province, district) pair of the view that the coordinate table knows, and no other, each with its coordinate and its number of rows. The total is the number of rows whose pair is known. |
| `Geo.Aggregate` | app.py:159-194 | The reported mode is district exactly when districts were requested and a coordinate table exists. A province map holds the province points and a district map holds the district points. |
| `Geo.FallbackIsProvinceView` | app.py:185-194 | Requesting districts without a coordinate table gives exactly the province view, and the mode becomes province. |
| `Geo.EmptyMapMeansNoKnownPlace` | app.py:197-217 | The map is empty exactly when no row lies in a place with a coordinate. In the model this includes an empty view, which gives the "no data" message (see Left out). |
| `Geo.NoProvincePoints` | app.py:173 | No province point exactly when no row's province is in the dictionary. |
| `Geo.NoDistrictPoints` | app.py:184 | No district point exactly when no row's pair is in the coordinate table. |
| `Geo.OccursInColumn` | app.py:163 | A value occurs in a column exactly when it is one of the column's values. |
| `Detail.Present` | app.py:241 | Exactly the wanted columns the table has, as a subsequence of the wanted list. |
| `Detail.DetailColumnsAsWritten` | app.py:240-241 | As written: the resolved name, placeholder included, first, then exactly the base columns present, in base-list order. |
| `Detail.DetailColumns` | app.py:240-241 | Corrected: every column listed exists. The name column comes first when there is one, then exactly the base columns present, in base-list order. |
| `Detail.Project` | app.py:242 | `df[cols]`: fails exactly when a requested column is missing, naming one that is missing. Otherwise the rows keep their number and hold exactly the requested columns with the original cells. |
| `Detail.Missing` | app.py:242 | Finds a requested column that the table lacks, exactly when one exists. |
| `Detail.DetailViewExists` | app.py:242 | The corrected detail projection never fails on a loaded table. |
| `Detail.DetailAsWrittenFails` | app.py:241-242 | As written, a table with only `PROVINCIA`, `DISTRITO` and `NIVEL_EDUCATIVO` makes the detail projection fail on `NOMBRE_IE`. |
| `Dashboard.Ranking` | app.py:233 | At most n distinct values of the column, each with its number of rows, most frequent first. Every value left out has no more rows than any value kept, and all values are listed when fewer than n are. |
| `Dashboard.TopSchools` | app.py:225 | Corrected: a ranking exists exactly when there is a name column. It has at most 15 lines with distinct schools, each counting that school's rows, most frequent first. Every school is listed when fewer than 15 are. A school left out has no more rows than any school kept. |
| `Dashboard.TopSchoolsAsWritten` | app.py:225 | As written: a KeyError on `NOMBRE_IE` exactly when the table has no name column; otherwise the same ranking as the corrected one. |
| `Dashboard.TopSchoolsAsWrittenFails` | app.py:225 | As written, the school ranking on the three-column table fails on `NOMBRE_IE`. |
| `Dashboard.Run` | app.py:33-242 | No vacancy file stops the page. With a file, the page exists exactly when `PROVINCIA`, `DISTRITO` and a level column do; otherwise the cascade's error is returned. On success the title counts all loaded rows. The map mode is district exactly when requested and possible. A school ranking exists exactly when a name column does. The district ranking has at most 15 lines. The detail table has the corrected detail columns. Every part of the page is computed from the cascade's result, not from the whole file: the sidebar is the cascade's, the map aggregates the filtered rows, both rankings count the filtered rows, and the detail table projects the filtered rows. |
| `Dashboard.NamelessFileStillRenders` | app.py:43-46 | With the correction, a file without a name column still gives a page. It has no school ranking and no `NOMBRE_IE` column in the detail table. |

## Left out

- Streamlit is not modelled: widgets, layout, tabs, `st.error`/`st.warning`/`st.info` messages, `st.stop`,
  `@st.cache_data` and the title's number formatting. The page is a value; stopping is an `Error`.
- File reading is not modelled. `pd.read_csv` and the file-not-found handling become `Option` inputs: the
  vacancy table and the district coordinate table are either given or absent.
- No type coercion is modelled. Every cell is text, so the `astype(str)` calls are identities.
- Plotly rendering is not modelled: the density map, the bar charts, the radius (25 or 12), centre, zoom,
  colour scale and hover column. The map's mode is modelled; what it selects is presentation.
- The contents of the province dictionary (`app.py:86-148`) are not modelled. It is a parameter
  `map<string, Coord>`, and coordinates are carried as opaque reals.
- The layout of the district coordinate file is not modelled. The model takes it as a map from
  (province, district) to a coordinate, with keys unique, so the join does not duplicate rows.
  - The renaming of `LAT_DIST`/`LON_DIST` is not modelled.
  - Nor is the KeyError the source raises when the file lacks those columns or the key columns.
  - A row whose latitude is missing counts as absent from the map. A present latitude with a missing
    longitude is not modelled.
- The coordinate file's own province and district names are not cleaned by the source. The model joins
  on exact equality too.
- `Text.Upper`: covers ASCII and Latin-1 letters only. Python's full Unicode case mapping also covers
  `ß` → `SS`, `ÿ`, `µ`, Latin Extended, Greek, Cyrillic and others; the model does not.
- `Geo.DistrictPoints`: does not state the order of the points. pandas' `groupby` lists them by
  ascending (province, district); the heat map does not depend on the order.
- `Counting.TopN`: the order among equal counts is first occurrence in the view. pandas does not
  document a tie order for `value_counts`.
- The sidebar's multiselects only let a user pick offered values. The model accepts any selection sets.
  The filter semantics do not depend on this restriction.
- `Geo.EmptyMapMeansNoKnownPlace`: on an empty filtered view the model gives an empty map and the "no data" message. In
  province mode the source assigns the result of `apply` on an empty count table to two columns (`app.py:172`, and
  the fallback at `app.py:193`). Depending on the pandas version, that assignment may raise a ValueError instead.
  pandas' behaviour on empty frames is not modelled.
- `Detail.Project`: reports one missing column, while pandas' KeyError lists every missing column.

## Findings

| source | as written | input that shows it | evidently intended | confidence | as-written member | corrected member |
|---|---|---|---|---|---|---|
| app.py:43-46 | When no column matches, the name column falls back to the placeholder `NOMBRE_IE`, which the table lacks. The school ranking raises KeyError at `app.py:225`, which stops the script. The detail table at `app.py:241-242` would fail the same way. | A vacancy file whose only columns are `PROVINCIA`, `DISTRITO` and `NIVEL_EDUCATIVO`. | Without a name column, skip the school ranking and list the detail columns without a name. | not executed | `Columns.ResolveNameColumn` | `Columns.NameColumn` |

For the as-written code, `Columns.PlaceholderIsNotAColumn`, `Dashboard.TopSchoolsAsWrittenFails` and
`Detail.DetailAsWrittenFails` show that this input fails. With the correction, `Detail.DetailColumns`,
`Dashboard.TopSchools` and `Dashboard.NamelessFileStillRenders` show that the page is built. `Dashboard.Run`
uses the corrected members.
