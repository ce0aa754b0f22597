# Fome-Zero cleaning pipeline and page queries in Dafny

Fome-Zero is a multi-page Streamlit dashboard over the Zomato restaurant
listings. Each of its four scripts (`Home.py`, `Pages/1_Countries.py`,
`Pages/2_Cities.py`, `Pages/3_Cuisines.py`) carries the same copy of the
lookup tables and of `clean_code`, at lines 28-184. Each script then runs a
few aggregations over the cleaned table, filtered by country. This project
models the shared copy once and cites it through `Pages/1_Countries.py`, whose
lines 28-184 are the same as those of the other three scripts. It also models
the integer-valued page queries of every script, cited in the script that
runs them.

Modules, one file each, in dependency order:

- `values.dfy` (`Values`): cells are `Missing` (pandas' NaN), `I(int)` or
  `S(string)`. There are the two error kinds and the `Result`/`Option`
  wrappers. Also here: Python's `str.strip()`, `split(",")[0]` and
  `astype(str)` on one cell.
- `seqs.dfy` (`Seqs`): generic sequence operations (first occurrence,
  filtering, de-duplication keeping first occurrences) and their lemmas.
- `lookups.dfy` (`Lookups`): `COUNTRIES`/`country_name`, `create_price_tye`,
  `COLORS`/`color_name`, the fifteen-name country option list, and the
  properties of the tables.
- `tables.dfy` (`Tables`): a DataFrame as a value, with a header and rows.
  It holds the DataFrame calls the pipeline makes: `dropna`, relabelling,
  column reads and writes, `drop_duplicates`, and `.loc[:, cols]`.
- `pipeline.dfy` (`Pipeline`): the seven stages as functions with their
  error paths, and `Clean` as their composition. There is also an
  independent reference definition, `CleanRecord`, which gives the cleaned
  record of one raw row. The main theorems relate the two: every output row
  is the record of a complete raw row, and every complete raw row's record
  is in the output. They also give the exact success condition, the value
  domains of the cleaned columns and the consequences of the stage order.
- `groups.dfy` (`Groups`): `groupby(...).count()` and `.nunique()`, a
  stable descending sort, `head(n)`, and their totals and bounds. The model
  lists groups in the order of their first row, while pandas' `groupby`
  (with its default `sort=True`) lists them in key order. After the
  descending sort the two orders give the same count at every rank
  (`Groups.SortDescIgnoresOrder`). They can differ in the order of groups
  with equal counts, and so in which tied groups `head(10)` and
  `nlargest(10)` keep.
- `queries.dfy` (`Queries`): the country filter, the per-country and
  per-city aggregations of the Countries and Cities pages, and the Home
  metrics.
- `frames.dfy` (`Frames`): `clean_code` as the statements it runs on
  DataFrame objects. A `DataFrame` class holds the frame's header and rows.
  Column assignments update it in place; `dropna`, `copy`,
  `drop_duplicates` and `.loc` return new frames. Each method is proved
  against the table function of its stage, and `Frames.CleanCode` against
  `Pipeline.Clean`. Its caller's frame is left unchanged.

Parameters standing for what the model does not compute:

- The raw table is a parameter; the model does not read the CSV file.
- The header renaming of `rename_columns` (`inflection.titleize`, removing
  spaces, `inflection.underscore`) is an arbitrary function
  `canon: string -> string`.
- The rating threshold of `contagem_restaurante_menorque_dois`
  (`aggregate_rating < 2.5`) is a row predicate `low`.
- The page queries read the module-global `df2` although they take a `df1`
  argument. Here each query takes the table it works on explicitly.

Consequences of the source's stage order and operations, proved about the
model:

- Step 5 of `clean_code`, `drop_duplicates` (Pages/1_Countries.py:164),
  runs before the projection of step 6 (:167) and before the trimming of
  step 7 (:172-182). So the cleaned table can repeat a row, when two complete
  rows differ only in a column that the projection drops or only in blanks
  that step 7 trims (`Pipeline.CleanCanRepeatRows`).
- Running `clean_code` on its own output raises a KeyError on `price_range`
  at step 3 (:155), because the projection does not keep that column
  (`Pipeline.CleanRerunFails`).
- `.str.strip()` (:172-182) turns a non-text cell of a text column into NaN,
  so the cleaned table is free of missing cells only when the text columns
  of the complete raw rows hold text (`Pipeline.CleanHasNoMissing`).
- The restaurants-per-country query counts `restaurant_id` cells with
  `count()` (:190), not distinct ids (`Queries.CountryCounts`).

## Model

| member | source | states |
|---|---|---|
| Values.TrimLeft | Pages/1_Countries.py:172-182 | the result is the suffix of the text after its leading blanks, where blanks are the characters of Python's `isspace` |
| Values.TrimRight | Pages/1_Countries.py:172-182 | the result is the prefix of the text before its trailing blanks |
| Values.Strip | Pages/1_Countries.py:172-182 | Python's `str.strip()` with no argument, defined as trimming both ends; its properties are in `StripIsBlankTrimmedSlice` and the lemmas below |
| Values.StripIsBlankTrimmedSlice | Pages/1_Countries.py:172-182 | `strip()` is the slice of the text between a run of leading and a run of trailing blanks, and it begins and ends with a non-blank |
| Values.StripKeepsOnlyCharsOf | Pages/1_Countries.py:172-182 | every character of a stripped text occurs in the original |
| Values.StripUnchanged | Pages/1_Countries.py:172-182 | a text that neither starts nor ends with a blank is left as it is |
| Values.StripIdempotent | Pages/1_Countries.py:172-182 | stripping twice is stripping once |
| Values.StripValue | Pages/1_Countries.py:172-182 | `.str.strip()` on one cell: a text cell is stripped and any other cell becomes NaN; its properties are in `StripValueIdempotent` |
| Values.StripValueIdempotent | Pages/1_Countries.py:172-182 | `.str.strip()` on a cell twice is the same as once, NaN included |
| Values.BeforeComma | Pages/1_Countries.py:161 | `split(",")[0]` holds no comma, is a prefix of the text, and stops only at a comma or at the end |
| Values.BeforeCommaAt | Pages/1_Countries.py:161 | when the first comma is at position i, the piece is exactly the first i characters |
| Values.NatText | Pages/1_Countries.py:160 | `str()` of an integer writes decimal digits only |
| Values.IntText | Pages/1_Countries.py:160 | `str()` of an integer: a minus sign in front of the digits of a negative number |
| Values.AsText | Pages/1_Countries.py:160 | `astype(str)` keeps a text cell's text and renders NaN and integers without a comma |
| Values.ExampleCuisine | Pages/1_Countries.py:160-161 | the primary cuisine of "Italian, Pizza" is "Italian" |
| Seqs.Filter | Pages/1_Countries.py:364-365 | the kept elements are exactly the elements of the input that pass the test |
| Seqs.FilterConcat | Pages/1_Countries.py:364-365 | filtering keeps relative order: filtering a concatenation is concatenating the filtered parts |
| Seqs.FilterMultiplicity | Pages/1_Countries.py:364-365 | filtering keeps every copy of a passing element and no copy of a failing one |
| Seqs.FilterKeepsAll | Pages/1_Countries.py:364-365 | when every element passes, filtering returns the input |
| Seqs.Dedup | Pages/1_Countries.py:164 | de-duplication has no repeats and the same elements as its input |
| Seqs.DedupFirstAppearance | Pages/1_Countries.py:164 | de-duplication lists elements in the order of their first occurrence |
| Seqs.DedupOfDistinct | Pages/1_Countries.py:164 | de-duplicating a sequence without repeats returns it unchanged |
| Lookups.CountryName | Pages/1_Countries.py:47-48 | `country_name` returns a `COUNTRIES` name or a KeyError on that very code |
| Lookups.CountryNameDomain | Pages/1_Countries.py:28-48 | `country_name` succeeds exactly on the fifteen integer codes of `COUNTRIES` |
| Lookups.CodeOfInverts | Pages/1_Countries.py:28-44 | every name of `COUNTRIES` determines its code |
| Lookups.CountriesInjective | Pages/1_Countries.py:28-44 | no two codes share a country name |
| Lookups.OptionCodesMatch | Pages/3_Cuisines.py:285-288 | the fifteen filter options are the `COUNTRIES` names of fifteen distinct codes |
| Lookups.CountryOptionsAreCountryNames | Pages/3_Cuisines.py:285-288 | the option list holds each `COUNTRIES` name exactly once and nothing else |
| Lookups.CountryNameIsOption | Pages/3_Cuisines.py:285-288 | every country name is one of the filter's options |
| Lookups.CountryNameStripped | Pages/1_Countries.py:181 | trimming leaves every country name unchanged |
| Lookups.CountryNamesShape | Pages/1_Countries.py:28-44 | every country name starts with a capital and ends with a small letter |
| Lookups.PriceType | Pages/1_Countries.py:55-63 | `create_price_tye` always returns one of the four tiers |
| Lookups.PriceTypeCases | Pages/1_Countries.py:55-63 | each tier is returned exactly for 1, 2, 3 and every other value |
| Lookups.ColorName | Pages/1_Countries.py:78-79 | `color_name` returns a `COLORS` name or a KeyError on that very code |
| Lookups.ColorNameDomain | Pages/1_Countries.py:69-79 | `color_name` succeeds exactly on the seven text codes of `COLORS` |
| Lookups.ColorCollision | Pages/1_Countries.py:69-77 | "CBCBC8" and "FF7800" both give "darkred", and no other two codes share a name |
| Lookups.ColorCounts | Pages/1_Countries.py:69-77 | the colour table has seven codes and six names |
| Lookups.ColorNamesListed | Pages/1_Countries.py:69-77 | the colour names are darkgreen, green, lightgreen, orange, red and darkred |
| Lookups.ColorLookupNeedsTrimmedCode | Pages/1_Countries.py:157 | a code `color_name` knows has no blank at either end, so the same code with a blank before or after is not found |
| Lookups.ColorCodeStripped | Pages/1_Countries.py:179 | trimming leaves every known colour code unchanged |
| Lookups.PaddedColorCodesFail | Pages/1_Countries.py:157 | a known colour code with a blank added at either end is not found |
| Lookups.ColorNameStripped | Pages/1_Countries.py:182 | trimming leaves every colour name unchanged |
| Lookups.ColorNamesShape | Pages/1_Countries.py:69-77 | every colour name starts and ends with a small letter |
| Lookups.ExampleLookups | Pages/1_Countries.py:28-79 | code 30 is "Brazil", range 3 is "expensive", colour "3F7E00" is "darkgreen" |
| Tables.DropNA | Pages/1_Countries.py:149 | `dropna` keeps the header and exactly the complete rows |
| Tables.Relabel | Pages/1_Countries.py:116-126 | each new label is the renaming of the old label at that position |
| Tables.RenameColumns | Pages/1_Countries.py:116-126 | `rename_columns` changes only the labels, one for one; the rows are the same |
| Tables.CellsAt | Pages/1_Countries.py:155 | the column at a position holds each row's cell at that position |
| Tables.Column | Pages/1_Countries.py:155 | the column under a label holds each row's cell under that label |
| Tables.ColumnNamed | Pages/1_Countries.py:155 | `df[name]` is the column when the label exists and a KeyError on that label otherwise |
| Tables.ReplaceCells | Pages/1_Countries.py:160 | overwriting a column replaces exactly one cell per row |
| Tables.AppendCells | Pages/1_Countries.py:155 | adding a column extends each row by its cell |
| Tables.WithColumn | Pages/1_Countries.py:155-161 | a column assignment keeps the header for an existing label and appends a new label otherwise |
| Tables.WithColumnGet | Pages/1_Countries.py:155-161 | after the assignment the column holds the new cells and every other column what it held |
| Tables.DropDuplicates | Pages/1_Countries.py:164 | `drop_duplicates` keeps the header and the same set of rows, with no row repeated |
| Tables.DropDuplicatesOrder | Pages/1_Countries.py:164 | the surviving rows are in the order of their first occurrence |
| Tables.Positions | Pages/1_Countries.py:110 | the positions of the labels, found at their first occurrence, or a KeyError on a missing label |
| Tables.Select | Pages/1_Countries.py:110 | `.loc[:, cols]` succeeds exactly when every label exists; it then has header `cols` and the selected cells, and otherwise fails with a KeyError on a missing label |
| Tables.Pick | Pages/1_Countries.py:110 | one row's cells at the given positions, in order |
| Tables.PickAll | Pages/1_Countries.py:110 | the same for every row |
| Tables.SelectRowwise | Pages/1_Countries.py:110 | equal rows select to equal rows |
| Pipeline.SchemaFacts | Pages/1_Countries.py:86-108 | the schema has 21 distinct labels and holds the derived and text columns |
| Pipeline.SchemaDistinct | Pages/1_Countries.py:86-108 | the 21 schema labels are distinct |
| Pipeline.TextColumnsInSchema | Pages/1_Countries.py:172-182 | every column stage 7 strips is in the schema |
| Pipeline.DerivedColumnsInSchema | Pages/1_Countries.py:86-108 | the three derived columns, `rating_color` and `cuisines` are in the schema |
| Pipeline.ColumnRoles | Pages/1_Countries.py:155-182 | which of the touched columns are derived and which are stripped |
| Pipeline.SchemaLacksCodes | Pages/1_Countries.py:86-108 | `price_range` and `country_code` are not kept |
| Pipeline.LookupAll | Pages/1_Countries.py:156-157 | `apply` of a raising lookup succeeds exactly when every code is mapped; it then holds every looked-up name, and otherwise the error of the first unmapped code |
| Pipeline.PriceTypes | Pages/1_Countries.py:155 | `apply(create_price_tye)` gives each cell's tier |
| Pipeline.AddPriceType | Pages/1_Countries.py:155 | stage 3a succeeds exactly when `price_range` exists, adds `price_type`, and otherwise fails on `price_range` |
| Pipeline.AddCountry | Pages/1_Countries.py:156 | stage 3b succeeds exactly when `country_code` exists and every code is mapped, and otherwise fails on the column or on an unmapped code of a row |
| Pipeline.AddColorName | Pages/1_Countries.py:157 | stage 3c is the same for `rating_color` and `color_name` |
| Pipeline.AddDerivedColumns | Pages/1_Countries.py:155-157 | stage 3 keeps the row count and adds exactly the three derived labels |
| Pipeline.Texts | Pages/1_Countries.py:160 | `astype(str)` of every cell |
| Pipeline.FirstPieces | Pages/1_Countries.py:161 | `split(",")[0]` of every cell |
| Pipeline.FirstCuisine | Pages/1_Countries.py:160-161 | stage 4 succeeds exactly when `cuisines` exists, keeps the header and row count, and otherwise fails on `cuisines` |
| Pipeline.Stripped | Pages/1_Countries.py:172 | `.str.strip()` of every cell |
| Pipeline.StripColumn | Pages/1_Countries.py:172 | one strip statement keeps header and row count |
| Pipeline.StripColumns | Pages/1_Countries.py:172-182 | the strip statements keep header and row count |
| Pipeline.Prepare | Pages/1_Countries.py:148-161 | stages 1 to 4 keep the complete rows' count and have the renamed labels plus the derived ones |
| Pipeline.Clean | Pages/1_Countries.py:132-184 | a successful `clean_code` has exactly the 21-label schema as its header |
| Pipeline.Finish | Pages/1_Countries.py:163-182 | stages 5 to 7 produce the schema header |
| Pipeline.CleanRecord | Pages/1_Countries.py:132-184 | a raw row has a cleaned record exactly when the header has every read column and the row's codes are mapped |
| Pipeline.RecordField | Pages/1_Countries.py:155-182 | the cleaned value of one schema column of a raw row: the tier, the looked-up names, the trimmed first cuisine, a trimmed text column or the cell itself; its properties are in `RecordFieldFromPrepared` and `RecordShape` |
| Pipeline.RecordFields | Pages/1_Countries.py:86-110 | the record lists the fields in the order of the labels |
| Pipeline.RecordFieldFromPrepared | Pages/1_Countries.py:155-182 | a record field is its stage-4 value, trimmed for a text column |
| Pipeline.AddPriceTypeCell | Pages/1_Countries.py:155 | after stage 3a `price_type` holds the row's tier and other cells are kept |
| Pipeline.AddCountryCell | Pages/1_Countries.py:156 | after stage 3b `country` holds the row's country name and other cells are kept |
| Pipeline.AddColorNameCell | Pages/1_Countries.py:157 | after stage 3c `color_name` holds the row's colour name and other cells are kept |
| Pipeline.DerivedColumnsReads | Pages/1_Countries.py:155-157 | a successful stage 3 had the three code columns |
| Pipeline.DerivedColumnsCell | Pages/1_Countries.py:155-157 | each cell after stage 3 is the derived field of its own row |
| Pipeline.DerivedColumnsSucceed | Pages/1_Countries.py:155-157 | stage 3 succeeds when the code columns exist and every row's codes are mapped |
| Pipeline.DerivedColumnsFacts | Pages/1_Countries.py:155-157 | stage 3 as a relation between input rows and output cells |
| Pipeline.FirstCuisineCell | Pages/1_Countries.py:160-161 | after stage 4 `cuisines` holds the text before its first comma and other cells are kept |
| Pipeline.FirstCuisineFacts | Pages/1_Countries.py:160-161 | stage 4 as a relation on top of stage 3 |
| Pipeline.StripColumnsCell | Pages/1_Countries.py:172-182 | stage 7 strips exactly the listed columns and leaves every other cell, the rows' number and their order |
| Pipeline.StripColumnsFacts | Pages/1_Countries.py:172-182 | the same for the whole table |
| Pipeline.CompleteRowsMapped | Pages/1_Countries.py:149-157 | the rows surviving `dropna` have mapped codes exactly when every complete raw row has |
| Pipeline.PrepareFacts | Pages/1_Countries.py:148-161 | stages 1 to 4 as a relation between the complete raw rows and the stage-4 cells |
| Pipeline.PrepareSucceedsIff | Pages/1_Countries.py:148-161 | stages 1 to 4 succeed exactly when the read columns exist and every complete raw row's codes are mapped; an incomplete row's codes never matter |
| Pipeline.CleanStages | Pages/1_Countries.py:132-184 | a successful run relates stage 4, de-duplication, projection and trimming |
| Pipeline.FinishFacts | Pages/1_Countries.py:163-182 | stages 5 to 7 as relations on a stage-4 table |
| Pipeline.ViaSupports | Pages/1_Countries.py:167 | a successful projection implies the renamed header had every schema column that stage 3 does not create |
| Pipeline.ViaCell | Pages/1_Countries.py:164-182 | each output cell is the cleaned record's field of the stage-4 row it came from |
| Pipeline.ViaRow | Pages/1_Countries.py:164-182 | each output row is the cleaned record of the stage-4 row it came from |
| Pipeline.FromSupports | Pages/1_Countries.py:167 | a cleaned output implies the header has every column the records read |
| Pipeline.FromRowsAreRecords | Pages/1_Countries.py:164-182 | every output row is the record of one of the complete rows |
| Pipeline.FromKeepsRecords | Pages/1_Countries.py:164-182 | every complete row's record is in the output |
| Pipeline.FromRepeats | Pages/1_Countries.py:164-167 | two rows that differ in a kept raw column but have equal records both survive de-duplication, so a row repeats |
| Pipeline.RawRowsAreRecords | Pages/1_Countries.py:149-164 | against the raw table, every output row is the record of a complete raw row |
| Pipeline.RawKeepsRecords | Pages/1_Countries.py:149-164 | against the raw table, every complete raw row's record is in the output |
| Pipeline.RawRepeats | Pages/1_Countries.py:155-167 | against the raw table, the same repetition as `FromRepeats` |
| Pipeline.CleanHeaderSupported | Pages/1_Countries.py:132-184 | a successful run implies the renamed header had every column it reads |
| Pipeline.CleanRowsAreRecords | Pages/1_Countries.py:149-164 | every row of `clean_code` is the cleaned record of some complete raw row |
| Pipeline.CleanKeepsEveryRecord | Pages/1_Countries.py:149-164 | every complete raw row has its cleaned record among the output rows: it reached the output or was removed as a duplicate of an equal one |
| Pipeline.CleanRowCount | Pages/1_Countries.py:149-164 | the output has at most as many rows as the raw table has complete rows |
| Pipeline.CleanSucceedsIff | Pages/1_Countries.py:132-184 | `clean_code` succeeds exactly when the renamed header has every read column and every complete raw row has mapped codes |
| Pipeline.SelectSucceedsIff | Pages/1_Countries.py:167 | once stages 1 to 4 succeed, `adjust_columns_order` succeeds exactly when every schema column that stage 3 does not create was in the renamed header |
| Pipeline.CleanRecordField | Pages/1_Countries.py:86-110 | each schema label's field sits at its schema position in the record |
| Pipeline.RecordShape | Pages/1_Countries.py:155-182 | every cleaned record has a price tier, a `COUNTRIES` name, a known colour code with its own colour name, and one trimmed cuisine without a comma |
| Pipeline.CleanValueDomains | Pages/1_Countries.py:155-182 | every output row of `clean_code` has that shape |
| Pipeline.RecordHasNoMissing | Pages/1_Countries.py:149 | no field of a complete row's record is missing, given that a text column holds text |
| Pipeline.CleanHasNoMissing | Pages/1_Countries.py:149-182 | no output cell is missing, given that text columns of complete raw rows hold text |
| Pipeline.CleanCanRepeatRows | Pages/1_Countries.py:164-167 | complete rows that differ only in a dropped column or in trimmed blanks both survive as equal output rows |
| Pipeline.CleanRerunFails | Pages/1_Countries.py:132-184 | `clean_code` of its own output stops at stage 3 on the missing `price_range` |
| Pipeline.ScenarioRecord | Pages/1_Countries.py:155-161 | code 30, range 3, colour "3F7E00" and cuisines "Italian, Pizza" give Brazil, expensive, darkgreen and Italian |
| Pipeline.CleanFailsOnUnmappedCode | Pages/1_Countries.py:156-157 | one complete row with an unmapped code makes the whole run fail |
| Pipeline.CleanFailsOnUntrimmedColor | Pages/1_Countries.py:157-179 | a colour code with a blank at either end fails the lookup, although stage 7 would trim it |
| Pipeline.CleanIgnoresIncompleteRow | Pages/1_Countries.py:149 | a row with a missing value changes nothing, whatever its codes |
| Groups.Keys | Pages/1_Countries.py:190 | the key of each entry, in order |
| Groups.GroupKeys | Pages/1_Countries.py:190 | each key is listed once, and exactly the keys that occur |
| Groups.Members | Pages/1_Countries.py:190 | a group's non-missing cells are at most its rows |
| Groups.GroupCount | Pages/1_Countries.py:190 | `groupby(key)[col].count()` as `CountsOver` the groups; its properties are in `GroupCountTotal` and `NUniqueAtMostCount` |
| Groups.GroupNUnique | Pages/1_Countries.py:211 | `groupby(key)[col].nunique()` as `DistinctCountsOver` the groups; its properties are in `NUniqueAtMostCount` |
| Groups.CountsOver | Pages/1_Countries.py:190 | `count()` pairs each group with its number of non-missing cells |
| Groups.DistinctCountsOver | Pages/1_Countries.py:211 | `nunique()` pairs each group with its number of distinct non-missing cells |
| Groups.MembersOfComplete | Pages/1_Countries.py:190 | without missing cells, a group's count is its row count |
| Groups.DistinctAtMostCount | Pages/1_Countries.py:211 | a group's distinct count is at most its count, which is at most its rows |
| Groups.MembersOfAbsent | Pages/1_Countries.py:190 | a key without rows has no members |
| Groups.TotalSnoc | Pages/1_Countries.py:190 | the total of one more pair adds its count |
| Groups.CountsOverLast | Pages/1_Countries.py:190 | the last entry adds one to the total exactly when its cell is present |
| Groups.GroupCountTotal | Pages/1_Countries.py:190 | the group counts add up to the number of present cells |
| Groups.SizeByKeys | Pages/1_Countries.py:190 | a group's rows depend only on the keys |
| Groups.NUniqueAtMostCount | Pages/1_Countries.py:190-212 | over the same keys, a group's distinct count is at most its rows, and its count is listed |
| Groups.Insert | Pages/1_Countries.py:191 | insertion adds exactly one element |
| Groups.InsertAtMost | Pages/1_Countries.py:191 | insertion keeps a bound on the counts |
| Groups.InsertDescending | Pages/1_Countries.py:191 | insertion keeps a descending order descending |
| Groups.SortDesc | Pages/1_Countries.py:191 | `sort_values(ascending=False)` is non-increasing and a permutation of its input |
| Groups.Top | Pages/2_Cities.py:191 | `head(n)` has `min(n, #groups)` pairs |
| Groups.TotalInsert | Pages/1_Countries.py:191 | insertion adds the inserted count to the total |
| Groups.TotalLast | Pages/1_Countries.py:191 | the total is the total of the front plus the last count |
| Groups.TotalSortDesc | Pages/1_Countries.py:191 | sorting keeps the total |
| Groups.TopIsLargest | Pages/2_Cities.py:190-191 | no pair left out of the top n has a larger count than a pair in it |
| Groups.TopIsPrefix | Pages/2_Cities.py:190-191 | the top n is descending and a prefix of the full descending order |
| Groups.NonIncreasingUnique | Pages/1_Countries.py:191 | two non-increasing sequences of counts with the same elements are equal |
| Groups.CountsMultiset | Pages/1_Countries.py:191 | reordering the pairs reorders their counts |
| Groups.SortDescIgnoresOrder | Pages/1_Countries.py:190-191 | whatever order the groups come in, the descending sort has the same count at every rank |
| Groups.TopIgnoresOrder | Pages/2_Cities.py:190-191 | whatever order the groups come in, `head(n)` has the same count at every rank |
| Queries.FilterCountries | Pages/1_Countries.py:364-365 | `isin` keeps exactly the rows whose country is among the options, and only rows of the input |
| Queries.FilterCountriesOrder | Pages/1_Countries.py:364-365 | the filter keeps the rows' relative order |
| Queries.FilterNoCountries | Pages/1_Countries.py:364-365 | an empty selection keeps no row |
| Queries.DefaultFilterKeepsAll | Pages/3_Cuisines.py:285-297 | a table whose countries are `COUNTRIES` names is kept whole by the default selection |
| Queries.CleanCountries | Pages/1_Countries.py:156 | every cleaned row's country is a `COUNTRIES` name |
| Queries.DefaultFilterKeepsClean | Pages/3_Cuisines.py:285-297 | the default filter keeps every cleaned row |
| Queries.RowEntries | Pages/1_Countries.py:190 | `groupby` on one key has one entry per row with a present key |
| Queries.PairEntries | Pages/2_Cities.py:190 | the same for a key of two columns |
| Queries.CountryCounts | Pages/1_Countries.py:190-191 | restaurants per country, sorted non-increasing |
| Queries.CountryCityCounts | Pages/1_Countries.py:211-212 | distinct cities per country, sorted non-increasing |
| Queries.CountryCountsIgnoreGroupOrder | Pages/1_Countries.py:190-191 | pandas' key-ordered groups and the model's groups, sorted, have the same count at every rank, so they differ only in the order of countries with equal counts |
| Queries.CountryCityCountsIgnoreGroupOrder | Pages/1_Countries.py:211-212 | the same for the distinct cities per country |
| Queries.TopCities | Pages/2_Cities.py:190-191 | `groupby(['city', 'country'])['restaurant_id'].count()`, sorted descending, `head(10)`; its properties are in `TopCitiesFacts` |
| Queries.TopCuisineCities | Pages/2_Cities.py:303 | `groupby('city')['cuisines'].nunique().nlargest(10)`; its properties are in `TopCuisineCitiesFacts` |
| Queries.SelfEntries | Pages/2_Cities.py:285 | `value_counts` groups each present cell under itself |
| Queries.ValueCounts | Pages/2_Cities.py:285 | `value_counts` is sorted non-increasing |
| Queries.LowRatingCityCounts | Pages/2_Cities.py:284-285 | `value_counts()` of `city` over the rows the `low` predicate selects; its properties are in `LowRatingTotalCounts` |
| Queries.LowRatingTotal | Pages/2_Cities.py:288 | `quantidade_total`, the sum of those counts; its properties are in `LowRatingTotalCounts` |
| Queries.RowEntriesKeys | Pages/1_Countries.py:190-212 | the keys do not depend on the aggregated column |
| Queries.RowEntriesComplete | Pages/1_Countries.py:190 | without missing cells every row gives a present entry |
| Queries.CountryCountsTotal | Pages/1_Countries.py:190-191 | the per-country counts add up to the number of rows when no key or id is missing |
| Queries.CityCountAtMostRestaurantCount | Pages/1_Countries.py:190-212 | every country's distinct-city count is at most its restaurant count |
| Queries.MembersOfCompleteEntries | Pages/1_Countries.py:190 | with no id missing, each country's count is its rows |
| Queries.RowEntriesIdsPresent | Pages/1_Countries.py:190 | entries carry present ids when no id is missing |
| Queries.TopCitiesFacts | Pages/2_Cities.py:190-191 | the top 10 by (city, country) has `min(10, #groups)` entries, is the prefix of the full non-increasing order, and beats every pair it leaves out |
| Queries.TopCuisineCitiesFacts | Pages/2_Cities.py:303 | the distinct-cuisine ranking returns at most 10 cities, each with at least the count of every city left out |
| Queries.TopCitiesIgnoreGroupOrder | Pages/2_Cities.py:190-191 | for any order of the groups, the top ten have the same count at every rank; only the choice among cities tied at the cut can differ |
| Queries.TopCuisineCitiesIgnoreGroupOrder | Pages/2_Cities.py:303 | the same for the distinct-cuisine ranking |
| Queries.PresentCells | Pages/2_Cities.py:285 | the present cells are at most the cells |
| Queries.SelfEntriesPresent | Pages/2_Cities.py:285 | `value_counts` sees one entry per present cell |
| Queries.ValueCountsTotal | Pages/2_Cities.py:285-288 | `value_counts` counts every present cell once |
| Queries.PresentCellsOfComplete | Pages/2_Cities.py:285 | a column without missing cells is all present |
| Queries.FilterKeepsPresent | Pages/2_Cities.py:284 | filtering keeps only rows with the cell present |
| Queries.LowRatingTotalCounts | Pages/2_Cities.py:284-288 | `quantidade_total` is the number of low-rating rows whose city is present, which is all of them when no city is missing |
| Queries.CountryChoices | Home.py:245 | the options are distinct and are exactly the countries of the table |
| Queries.CountryChoicesOrder | Home.py:245 | the options are in first-appearance order |
| Queries.NUnique | Home.py:280-302 | `nunique()` of a column: the number of distinct non-NaN cells; its properties are in `NUniqueBound` and `CountryMetricBound` |
| Queries.NUniqueBound | Home.py:280-302 | each distinct-count metric is at most the number of rows, and zero on an empty selection |
| Queries.TextCells | Home.py:285 | the names as text cells |
| Queries.PresentCellsIn | Home.py:285 | a present cell is a cell of the column |
| Queries.TextsBound | Home.py:285 | a column drawn from `names` has at most `|names|` distinct values |
| Queries.FilterKeepsIn | Home.py:250-251 | filtering keeps only rows whose cell is among `names` |
| Queries.CountryMetricBound | Home.py:250-285 | after filtering by `countries`, the distinct-country metric is at most `|countries|`, and at most 15 when the countries are `COUNTRIES` names |
| Queries.SumIntsConcat | Home.py:295 | the vote sum over two blocks is the sum of the two sums, and the sum over no cell is zero |
| Queries.VoteSum | Home.py:295 | `df1.loc[:, 'votes'].sum()`, NaN adding nothing; its properties are in `VoteSumSnoc`, `VoteSumEmpty` and `SumIntsConcat` |
| Queries.VoteSumSnoc | Home.py:295 | the vote total of one more row adds that row's votes |
| Queries.VoteSumEmpty | Home.py:295 | the vote total of an empty selection is zero |
| Frames.DataFrame.constructor | Pages/1_Countries.py:84 | a new frame holds the given table |
| Frames.DataFrame.Copy | Pages/1_Countries.py:84 | `copy()` is a fresh frame with the same contents |
| Frames.DataFrame.SetColumn | Pages/1_Countries.py:155-161 | a column assignment in place leaves the frame holding the `WithColumn` of its old contents |
| Frames.DataFrame.SetLabels | Pages/1_Countries.py:125 | `df.columns = labels` changes the labels only |
| Frames.DropNAFrame | Pages/1_Countries.py:149 | `dropna()` is a fresh frame holding `DropNA` of the argument |
| Frames.RenameColumnsFrame | Pages/1_Countries.py:116-126 | `rename_columns` is a fresh frame holding `RenameColumns`, and its argument is unchanged |
| Frames.AddDerivedInPlace | Pages/1_Countries.py:155-157 | the three assignments in place succeed exactly when stage 3 does and leave its result, or its error |
| Frames.FirstCuisineInPlace | Pages/1_Countries.py:160-161 | the two `cuisines` assignments succeed exactly when stage 4 does and leave its result, or its error |
| Frames.PrepareFrame | Pages/1_Countries.py:148-161 | stages 1 to 4 on frames compute `Prepare`, or its error |
| Frames.DropDuplicatesFrame | Pages/1_Countries.py:164 | `drop_duplicates()` is a fresh frame holding `DropDuplicates` |
| Frames.AdjustColumnsOrder | Pages/1_Countries.py:83-110 | `adjust_columns_order` is a fresh frame holding the projection, or its KeyError; its argument is unchanged |
| Frames.StripInPlace | Pages/1_Countries.py:172 | one strip statement in place leaves `StripColumn` of the old contents |
| Frames.StripColumnsStep | Pages/1_Countries.py:172-182 | stripping one more column continues the stripping of the earlier ones |
| Frames.StripTextColumns | Pages/1_Countries.py:172-182 | the eleven strip statements in place leave `StripColumns` over the text columns |
| Frames.FinishFrame | Pages/1_Countries.py:163-182 | stages 5 to 7 on frames compute `Finish`, or its error, on a fresh frame |
| Frames.CleanCode | Pages/1_Countries.py:132-184 | `clean_code` returns a fresh frame holding `Clean`, or its error, and never modifies the caller's frame |
| Frames.FilterFrame | Home.py:250-251 | the filter rebinds to a fresh frame holding `FilterCountries`, and the old frame is unchanged |

## Left out

- Reading the CSV file (`pd.read_csv`) and the logo image is I/O. The raw table is a parameter.
- Streamlit page setup, sidebar widgets, containers, metrics display, every `st.*` call and the `print` of `quantidade_total` (Pages/2_Cities.py:289) are presentation. The option list and the default selection are modelled, as constants and as `CountryChoices`.
- The Plotly and matplotlib figures, the folium map and its marker loop, and `folium_static` are rendering.
- Locale-aware number formatting of the vote total depends on process-global locale state.
- Float work is not modelled: the means and rounding of `votes`, `aggregate_rating` and `average_cost_for_two`, the cuisine rankings by mean rating (`nlargest`/`nsmallest`), and the median of the coordinates. Cells have no float constructor, and the rating thresholds are abstract row predicates.
- `inflection.titleize` and `inflection.underscore` belong to a foreign library. The header renaming is the parameter `canon`, and only its observable contract is modelled: labels change one for one and the data does not.
- `contagem_por_cidade.columns = [...]` (Pages/2_Cities.py:287) relabels the query result for display only. `quantidade_total` is modelled as the total of the counts.
- Groups.GroupKeys: groups are listed in the order of their first row, not in pandas' key order (`groupby` sorts keys by default), and `sort_values` is modelled as a stable insertion sort. The sorted counts at every rank are the same either way (`Groups.SortDescIgnoresOrder`). The order of groups with equal counts can differ from pandas'. For example, India (id 1) before Brazil (id 2) gives [(India, 1), (Brazil, 1)] here but [(Brazil, 1), (India, 1)] in pandas.
- Queries.TopCities: among `(city, country)` groups tied at the tenth place, the model can keep different ones than pandas' `head(10)` after its key-ordered sort. The counts at every rank are the same (`Queries.TopCitiesIgnoreGroupOrder`).
- Queries.TopCuisineCities: among cities tied at the cut of `nlargest(10)` (keep='first', which keeps the key-first groups), the model can keep different ones. The counts at every rank are the same (`Queries.TopCuisineCitiesIgnoreGroupOrder`).
- Duplicate labels in a frame are not modelled: a label resolves to its first occurrence. The dtype-level `AttributeError` that `.str` raises on a column with no text at all is not modelled either. A non-text cell becomes NaN under `.str.strip()`.
- Frames.StripTextColumns: the eleven strip statements of the source are one loop over `TextColumns`, in the same order. It has the same effect on the frame.
- Queries.VoteSum: the sum requires a `votes` column without text cells. A text cell would make pandas concatenate strings, which the model does not represent.
- Pipeline.CleanHasNoMissing: stated only for text columns whose complete raw cells hold text, because `.str.strip()` turns any other cell into NaN.
- Pipeline.CleanRerunFails: a second run is stated on the cleaned table as it is, where it fails; the source defines no way to turn a cleaned table back into raw columns.
- `group_map` on Home.py (the only loop outside `clean_code`) builds map markers and is left out as rendering.
