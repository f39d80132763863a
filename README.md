# Coordinate repair and reverse-geocoding enrichment, modelled in Dafny

The repository is a set of batch scripts over CSV tables of addresses in
Brazil. This project models their logic:

- **Coordinate repair** (`corrigir_latlon.py`): a coordinate string that lost
  its decimal point is reduced to its digits and at most one leading `-`
  (`clean_to_digits_and_sign`). A `.` is then put back after a fixed number of
  whole-degree digits (`insert_decimal`). `fix_column` does this to every value
  of a column.
- **Column detection** (`detect_column` / `detect`; three copies, one model):
  - The first pass accepts a header whose stripped text, or whose lower-cased
    and stripped text, is one of the latitude or longitude names.
  - The second pass accepts a header whose lower-cased and stripped text
    contains a partial key (`lat`; `lon`, `lng`, `long`).
  - Without both columns the scripts stop.
- **Reply extraction** (`reverse_geocode` / `rev`): from the `address` object of
  a reverse-geocoding reply, each output field is read from a fixed chain of
  keys. The first non-empty value wins.
- **Output columns**: `ensure_columns` adds each missing output column, empty.
  The postcode scripts add the `CEP` column the same way.
- **Three enrichment loops**:
  - They differ in what they write: the five address fields, or only the
    postcode.
  - They differ in whether they print progress lines.
  - All three skip a row that already has a postcode, skip a row whose
    coordinates do not parse, and otherwise call the service once.
  - The five-field loop fills only blank cells. The postcode loops write any
    non-empty postcode. A row counts as filled when the reply had a postcode.
- **Output path**: the output goes to the file given with `--saida`. Otherwise
  it goes beside the input, named after the input's stem.
- **Income formatting** (`arrumar_rendamedia_ponto_virgula.py`): applied to the
  `renda_media` column, in four steps:
  1. remove `R$`;
  2. insert a `.` before each group of three digits followed by `,`;
  3. turn `,` into `.`;
  4. turn `.` into `,`.

### How the model is structured

- **Scripts as classes and methods.** A table is a class, `Tables.Table`. It
  holds a sequence of column names and an array of rows, one map per row. The
  loops update the array in place, as `df.at[idx, k] = v` does. Each loop is a
  `method`, proved against the specification functions in `RowEnrichment`:
  - `RowAfter` says what one row becomes;
  - `FilledCount` says what `filled` counts;
  - `ProgressLog` gives the progress lines.
- **Lemmas about the specification.** Further lemmas prove what the scripts
  promise about these functions:
  - a filled cell is never overwritten;
  - only the output columns change;
  - `filled` counts exactly the rows whose postcode was written;
  - the two ways of reading a postcode agree;
  - the progress lines report true counters, in row order.
- **Pure helpers as functions.** The pure text helpers are functions with
  lemmas. They cover the repair of coordinate strings, the detection of
  headers, the extraction of reply fields, the output path and the income
  format.
- **The service as an object.** The geocoding service is an object,
  `ReverseGeocode.Service`. Its `Lookup` method returns the service's `Reply`
  for a coordinate pair and appends the pair to a ghost record of the calls
  made. The loops state exactly which calls they make: `RowEnrichment.Calls`
  lists them, one pair per looked-up row, in row order.
- **Parsing as a parameter.** The parsing of coordinate text into floats is
  a parameter, `parse`.

### What the income formatting does

The comments of the script disagree with each other:

- The comments at `arrumar_rendamedia_ponto_virgula.py:9` and `:13` describe
  a `,` as the thousands separator. The code does produce that.
- The comment on the regular expression at line 14 speaks of a `.` as the
  thousands separator, and the comment at line 17 of the format
  `milhares,centavos` (thousands, then a `,` before the cents). The code does
  not produce that.

What the code does:

- Step 2 inserts thousands dots.
- Steps 3 and 4 then turn every `.` into `,`.
- The result has no `.` at all, and every thousands separator becomes a `,`,
  the same character as the decimal separator.

For example, `R$1234,56` becomes `1,234,56` (`IncomeFormat.NormalizeExample`).
Because of this, a value that used `.` for thousands and one that used `,` for
decimals become indistinguishable: `123.456` and `123,456` both give `123,456`
(`IncomeFormat.PointAndCommaConflated`). The project models the code as
written.

## Model

| member | source | states |
|---|---|---|
| LatLonRepair.CleanBlank | corrigir_latlon.py:23-25 | a blank or all-whitespace value cleans to the empty string |
| LatLonRepair.CleanWithAtMostOneDash | corrigir_latlon.py:27-32 | with at most one `-`, cleaning keeps exactly the digits and the dash, in order |
| LatLonRepair.CleanWithSeveralDashes | corrigir_latlon.py:29-31 | with several `-`, the result is one `-` followed by the digits after the first `-`; digits before it are dropped |
| LatLonRepair.CleanHasAtMostOneDash | corrigir_latlon.py:21-32 | a cleaned value never holds more than one `-`, and holds a leading one whenever the input had several |
| LatLonRepair.CleanAlphabet | corrigir_latlon.py:27 | a cleaned value holds only digits and `-` |
| LatLonRepair.InsertDecimalRejects | corrigir_latlon.py:36-42 | the result is empty exactly when the part after an optional leading `-` is not a non-empty digit string; this covers an empty value, a lone `-` and a `-` anywhere but first |
| LatLonRepair.InsertDecimalShortBody | corrigir_latlon.py:43-45 | a body no longer than the degree digits comes back unchanged |
| LatLonRepair.InsertDecimalRoundTrip | corrigir_latlon.py:46 | a longer body gets exactly one `.`; it sits after the sign and the degree digits; removing it gives the input back |
| LatLonRepair.InsertDecimalShape | corrigir_latlon.py:34-46 | every result is empty or a decimal literal: an optional `-`, then digits with at most one `.`, ending in a digit |
| LatLonRepair.FixColumn | corrigir_latlon.py:48-53 | the loop maps every value, in order, to its cleaned and re-dotted form |
| ColumnDetector.Detect | filling_Ceps/preencher_endereco_por_latlon_2.py:14-23 | a detected header is one the exact pass or the partial pass accepts |
| ColumnDetector.FirstExactIsFirst | filling_Ceps/preencher_endereco_por_latlon_2.py:16-18 | the exact pass returns the first header it accepts |
| ColumnDetector.FirstPartialIsFirst | filling_Ceps/preencher_endereco_por_latlon_2.py:19-22 | the partial pass returns the first header that contains a partial key |
| ColumnDetector.DetectExact | filling_Ceps/preencher_endereco_por_latlon_2.py:14-18 | an exact match wins over any partial match, and the first exact match is returned |
| ColumnDetector.DetectPartial | filling_Ceps/preencher_endereco_por_latlon_2.py:19-22 | with no exact match, the first header containing a partial key is returned |
| ColumnDetector.DetectNone | filling_Ceps/preencher_endereco_por_latlon_2.py:23 | no header is returned exactly when neither pass accepts any header |
| ColumnDetector.DetectWitness | filling_Ceps/preencher_endereco_por_latlon_2.py:14-23 | a returned header is the first exact match, or else the first partial match with no exact match anywhere |
| ColumnDetector.ExactHitIgnoresCase | filling_Ceps/preencher_endereco_por_latlon_2.py:17 | the exact test is the same as membership of the lower-cased, stripped header among the lower-cased names |
| ColumnDetector.DetectNeverEmpty | filling_Ceps/preencher_endereco_por_latlon_2.py:74 | the empty header is never detected, so `not lat_col` is exactly "not found" |
| ColumnDetector.ResolveLatLon | filling_Ceps/preencher_endereco_por_latlon_2.py:73-75 | a resolved pair names two non-empty headers |
| ColumnDetector.ResolveAbortsIffMissing | preencher_ceps_por_latlon_2.py:50-53 | the run stops exactly when either detection fails; otherwise it uses the two detected headers |
| ColumnDetector.LongitudeByPartialKey | filling_Ceps/preencher_endereco_por_latlon_2.py:27 | headers `Y`, `LNG_centro`: the longitude is found through the partial key `lng` |
| ColumnDetector.LatitudeMissing | filling_Ceps/preencher_endereco_por_latlon_2.py:26 | headers `Y`, `LNG_centro`: no latitude is detected |
| ColumnDetector.MissingLatitudeAborts | filling_Ceps/preencher_endereco_por_latlon_2.py:73-75 | headers `Y`, `LNG_centro`: the run stops |
| ColumnDetector.HeadersExact | filling_Ceps/preencher_endereco_por_latlon_2.py:11-12 | headers `Latitude`, `lon` resolve exactly to themselves |
| ColumnDetector.DetectIgnoresAppended | cod_testes/preencher_ceps_por_latlon.py:6-14 | headers appended after the others that neither pass accepts do not change the detection |
| ColumnDetector.CepColumnDoesNotDisturbDetection | cod_testes/preencher_ceps_por_latlon.py:35-37 | adding the `CEP` column before detection changes neither detected header |
| ReverseGeocode.FieldsOf | filling_Ceps/preencher_endereco_por_latlon_2.py:38-44 | the returned dictionary has exactly the keys CEP, Bairro, Cidade, UF and Logradouro |
| ReverseGeocode.AddressFields | filling_Ceps/preencher_endereco_por_latlon_2.py:36-44 | the five keys are returned unless the body is an object whose `address` is not an object, which raises; that is the only failure |
| ReverseGeocode.LookupFields | filling_Ceps/preencher_endereco_por_latlon_2.py:30-44 | nothing is returned exactly when the request fails or the body's `address` is not an object; otherwise the five keys |
| ReverseGeocode.Postcode | preencher_ceps_por_latlon_2.py:24-25 | reading fails exactly when the body is a true non-object or an object whose `address` is not an object; a false body, or one without `address`, gives `""` |
| ReverseGeocode.LookupPostcode | preencher_ceps_por_latlon_2.py:19-25 | nothing is returned exactly when the request fails or the body cannot be read as above |
| ReverseGeocode.FirstNonEmptyPicksFirst | filling_Ceps/preencher_endereco_por_latlon_2.py:39-43 | an `or` chain yields the value of its first key with a non-empty value |
| ReverseGeocode.FirstNonEmptyBlank | filling_Ceps/preencher_endereco_por_latlon_2.py:39-43 | an `or` chain yields `""` exactly when every key is missing or empty |
| ReverseGeocode.FirstNonEmptySource | filling_Ceps/preencher_endereco_por_latlon_2.py:39-43 | a non-empty field is the value of some key of its chain, with every earlier key empty |
| ReverseGeocode.NonObjectBodyBlank | filling_Ceps/preencher_endereco_por_latlon_2.py:37 | a non-object body, or one without `address`, gives five empty fields and no error |
| ReverseGeocode.PostcodeAgrees | preencher_ceps_por_latlon_2.py:24-25 | `rev` yields a non-empty postcode exactly when `reverse_geocode` yields a non-empty CEP, and the two are the same |
| ReverseGeocode.Service.Lookup | preencher_ceps_por_latlon_2.py:19-23 | a request returns the service's reply for the pair and is appended to the record of calls |
| Tables.Table.AddColumn | preencher_ceps_por_latlon_2.py:48 | `df[c] = ""` appends the column and gives every row an empty cell in it; a well-formed table stays well-formed |
| Tables.Table.EnsureColumn | filling_Ceps/preencher_endereco_por_latlon_2.py:47-48 | one name: when missing it is appended with an empty cell in every row, otherwise nothing changes; a well-formed table stays well-formed |
| Tables.Table.EnsureColumns | filling_Ceps/preencher_endereco_por_latlon_2.py:46-49 | the missing columns are appended in order; every row gains exactly those cells, empty; a well-formed table stays well-formed |
| Tables.WithColumnsNames | filling_Ceps/preencher_endereco_por_latlon_2.py:46-49 | afterwards the table has the old columns plus the requested ones |
| Tables.WithColumnsExtends | filling_Ceps/preencher_endereco_por_latlon_2.py:47-48 | existing columns keep their place |
| Tables.WithColumnsDistinct | filling_Ceps/preencher_endereco_por_latlon_2.py:48 | no column is added twice |
| Tables.WithColumnsIdempotent | filling_Ceps/preencher_endereco_por_latlon_2.py:46-49 | ensuring the same columns twice changes nothing more |
| Tables.NoneMissing | filling_Ceps/preencher_endereco_por_latlon_2.py:48 | when every requested column exists, nothing is added |
| Tables.ExtendedCells | filling_Ceps/preencher_endereco_por_latlon_2.py:48 | an added cell is empty; every existing cell keeps its value |
| Progress.DueOnMultiples | preencher_ceps_por_latlon_2.py:62 | a skip or invalid-coordinates line is printed exactly when verbose and the row number is a multiple of `log_every` |
| Progress.QuietWithoutVerbose | preencher_ceps_por_latlon_2.py:62-88 | without `--verbose` no progress line is printed |
| Progress.LastLookupPrints | preencher_ceps_por_latlon_2.py:88 | when the last row is looked up, a line is printed |
| Progress.SkippedLastRowNoFinalLine | preencher_ceps_por_latlon_2.py:60-67 | a skipped last row not on a multiple of `log_every` prints no final line |
| RowEnrichment.FilledCount | preencher_ceps_por_latlon_2.py:55-82 | `filled` never exceeds the number of rows |
| RowEnrichment.PassStep | preencher_ceps_por_latlon_2.py:58-94 | one more row adds at most one to `filled`, sends at most one request and prints at most one line; that line carries the row's number, the total and the updated `filled` |
| RowEnrichment.LineOf | preencher_ceps_por_latlon_2.py:62-94 | a row prints at most one progress line, and it carries the given row number, total and count |
| RowEnrichment.CallOf | preencher_ceps_por_latlon_2.py:60-80 | a row sends one request exactly when the loop takes its lookup branch, and none otherwise |
| RowEnrichment.Calls | preencher_ceps_por_latlon_2.py:58-80 | a pass sends at most one request per row |
| RowEnrichment.SkippedRowUnchanged | filling_Ceps/preencher_endereco_por_latlon_2.py:85-91 | a row with a non-blank CEP is not looked up, not changed and not counted |
| RowEnrichment.InvalidRowUnchanged | filling_Ceps/preencher_endereco_por_latlon_2.py:93-101 | a row whose coordinates do not parse is not changed and not counted |
| RowEnrichment.FailedLookupUnchanged | filling_Ceps/preencher_endereco_por_latlon_2.py:103-112 | a lookup that raises, or whose reply the script cannot read, leaves the row unchanged and uncounted |
| RowEnrichment.MergeCells | filling_Ceps/preencher_endereco_por_latlon_2.py:105-107 | after the merge, a cell holds the reply's value exactly when the reply's value is non-empty and the cell was blank |
| RowEnrichment.NeverOverwrites | filling_Ceps/preencher_endereco_por_latlon_2.py:106 | a cell that was not blank is never changed, in either mode |
| RowEnrichment.OnlyOutputColumnsChange | preencher_ceps_por_latlon_2.py:81-82 | only output columns change: the five fields, or only `CEP` when filling postcodes |
| RowEnrichment.ColumnsKept | filling_Ceps/preencher_endereco_por_latlon_2.py:107 | when the output columns exist, enrichment adds no key to a row |
| RowEnrichment.RowsKeepColumns | filling_Ceps/preencher_endereco_por_latlon_2.py:82-107 | rows that all have the table's columns still have exactly those after the pass |
| RowEnrichment.FilledMeansCepWritten | filling_Ceps/preencher_endereco_por_latlon_2.py:108 | a counted row had a blank CEP and now has a non-empty one; an uncounted row keeps its CEP |
| RowEnrichment.FilledIffCepChanged | preencher_ceps_por_latlon_2.py:81-82 | a row with an empty CEP is counted exactly when its CEP changes |
| RowEnrichment.ModesAgreeOnCep | preencher_ceps_por_latlon_2.py:79-82 | the five-field loop and the postcode loop write the same CEP and count the same rows |
| RowEnrichment.FilledAtMostQueried | preencher_ceps_por_latlon_2.py:79-82 | `filled` is at most the number of requests sent, which is at most the number of rows |
| RowEnrichment.CallsOfQueriedRows | preencher_ceps_por_latlon_2.py:60-80 | the requests sent are, one for one and in order, the coordinates of the rows that are looked up |
| RowEnrichment.QueriedRowsAreEligible | preencher_ceps_por_latlon_2.py:60-80 | the rows looked up, whose requests CallsOfQueriedRows lists, all have a blank CEP and parsable coordinates, and come in increasing row order |
| RowEnrichment.AllFilledIsFixedPoint | preencher_ceps_por_latlon_2.py:60-67 | a table whose rows all have a CEP is left unchanged: no request is sent, nothing is filled and only skip lines are printed |
| RowEnrichment.QuietLog | cod_testes/preencher_ceps_por_latlon.py:39-48 | without verbose output the pass prints nothing |
| RowEnrichment.LogLinesConsistent | preencher_ceps_por_latlon_2.py:62-94 | every progress line reports its true row number, the total and the count filled so far, and the lines come in row order |
| AddressFiller.MergeInto | filling_Ceps/preencher_endereco_por_latlon_2.py:105-107 | the merge loop writes the reply's non-empty values into the row's blank cells and touches no other row |
| AddressFiller.VisitRow | filling_Ceps/preencher_endereco_por_latlon_2.py:83-120 | one iteration updates the row as `RowAfter` says, the counter as `Fills` says, prints the line `LineOf` gives and sends the request `CallOf` gives, if any |
| AddressFiller.FillAddresses | filling_Ceps/preencher_endereco_por_latlon_2.py:79-122 | the loop leaves every row as `RowAfter` says, returns `filled` and the progress lines of the specification, and sends exactly the requests `Calls` lists |
| AddressFiller.Run | filling_Ceps/preencher_endereco_por_latlon_2.py:73-122 | the run stops, with the table untouched and no request sent, exactly when detection fails; otherwise it adds the five columns, then enriches every row with the requests `Calls` lists |
| CepFiller.VisitRow | preencher_ceps_por_latlon_2.py:59-94 | one iteration writes a non-empty postcode into the row, counts it, prints the due line and sends the request `CallOf` gives, if any |
| CepFiller.FillPostcodes | preencher_ceps_por_latlon_2.py:55-96 | the loop leaves every row as `RowAfter` says, returns `filled` and the progress lines of the specification, and sends exactly the requests `Calls` lists |
| CepFiller.AddCepColumn | preencher_ceps_por_latlon_2.py:48 | the `CEP` column is added, empty, only when missing |
| CepFiller.CepColumnKeepsResolution | preencher_ceps_por_latlon_2.py:48-53 | adding `CEP` before detection does not change the detected pair or whether the run stops |
| CepFiller.Run | preencher_ceps_por_latlon_2.py:48-96 | the `CEP` column is always added; the run stops, with no request sent, exactly when detection fails; otherwise every row is enriched with the requests `Calls` lists |
| CepFillerMinimal.VisitRow | cod_testes/preencher_ceps_por_latlon.py:40-48 | one iteration writes a non-empty postcode into the row, counts it and sends the request `CallOf` gives, if any |
| CepFillerMinimal.FillPostcodes | cod_testes/preencher_ceps_por_latlon.py:38-48 | the loop leaves every row as `RowAfter` says, returns the specification's `filled` and sends exactly the requests `Calls` lists |
| CepFillerMinimal.Run | cod_testes/preencher_ceps_por_latlon.py:35-48 | the same outcome as the verbose script run without `--verbose`, with an empty progress log |
| OutputPaths.StemSuffix | preencher_ceps_por_latlon_2.py:98 | the stem and the suffix rebuild the file name; the suffix is empty or a single `.` part |
| OutputPaths.DotEdges | preencher_ceps_por_latlon_2.py:98 | a name whose only dot is first or last has no suffix |
| OutputPaths.DefaultBesideInput | preencher_ceps_por_latlon_2.py:98 | the default output sits in the input's directory, is named stem plus suffix, and never replaces the input |
| OutputPaths.ScriptOutputsDiffer | filling_Ceps/preencher_endereco_por_latlon_2.py:124 | the postcode and address scripts never write the same default file, nor overwrite their input |
| OutputPaths.CsvExample | cod_testes/preencher_ceps_por_latlon.py:49 | `dados.csv` gives `dados_com_CEPs.csv` |
| OutputPaths.GivenWins | filling_Ceps/preencher_endereco_por_latlon_2.py:124 | a non-empty `--saida` is used as given |
| IncomeFormat.CurrencyKeepsOthers | arrumar_rendamedia_ponto_virgula.py:11 | removing `R$` keeps every other character, in order |
| IncomeFormat.CurrencyCounts | arrumar_rendamedia_ponto_virgula.py:11 | each `R` and `$` removed belongs to one removed match |
| IncomeFormat.CurrencyLength | arrumar_rendamedia_ponto_virgula.py:11 | the value shrinks by two characters per match |
| IncomeFormat.CurrencyAbsent | arrumar_rendamedia_ponto_virgula.py:11 | a value without `R$` is unchanged |
| IncomeFormat.SinglePass | arrumar_rendamedia_ponto_virgula.py:11 | the replacement is one left-to-right pass: `RR$$` becomes `R$` |
| IncomeFormat.MarkIffLookahead | arrumar_rendamedia_ponto_virgula.py:14 | a dot follows position `i` exactly when the regular expression's lookahead matches there |
| IncomeFormat.ThousandsOnlyAddsDots | arrumar_rendamedia_ponto_virgula.py:14 | with every `.` removed on both sides, the value before and after the thousands step is the same: the other characters keep their order |
| IncomeFormat.ThousandsLayout | arrumar_rendamedia_ponto_virgula.py:14 | the thousands step only inserts: every character of the value, an existing `.` included, keeps its place after the ones before it and the dots inserted among them; each marked digit is directly followed by a new `.`; the length grows by one per mark |
| IncomeFormat.DottedExample | arrumar_rendamedia_ponto_virgula.py:14 | `1.234,56`, already written with a thousands `.`, is left as it is |
| IncomeFormat.ThousandsNeedComma | arrumar_rendamedia_ponto_virgula.py:14 | without a `,` the thousands step changes nothing |
| IncomeFormat.UnifySeparatorsShape | arrumar_rendamedia_ponto_virgula.py:15-18 | the two replacements turn every `,` and `.` into `,` and change nothing else |
| IncomeFormat.NormalizeSeparators | arrumar_rendamedia_ponto_virgula.py:10-18 | the formatted value has no `.` at all; its `,` count is the separator count before the last two steps |
| IncomeFormat.NormalizeExample | arrumar_rendamedia_ponto_virgula.py:10-18 | `R$1234,56` becomes `1,234,56` |
| IncomeFormat.DottedNormalizeExample | arrumar_rendamedia_ponto_virgula.py:10-18 | `R$1.234,56` becomes `1,234,56`, the same as `R$1234,56` |
| IncomeFormat.PointAndCommaConflated | arrumar_rendamedia_ponto_virgula.py:15-18 | `123.456` and `123,456` are formatted alike |
| IncomeFormat.NormalizeColumnLocal | arrumar_rendamedia_ponto_virgula.py:10-18 | only the `renda_media` cell of each row changes, and it is formatted |

## Left out

- HTTP requests, the User-Agent, timeouts and JSON decoding are not modelled.
  A request is `Service.Lookup`, which returns the outcome of one request as a
  `Reply`: a decoded body, an HTTP error or another failure. The reply depends
  only on the coordinates, so a service whose answers change over time is not
  modelled.
- Sleeping, back-off after an HTTP error, clocks, elapsed time, rate and ETA
  are left out. They change no cell and no counter. The progress line keeps
  its event, row number, total, `filled` and last CEP.
- Converting cell text with `float(...)` is the parameter `parse`, an
  arbitrary oracle. Which strings Python accepts as floats is not modelled.
- `fix_column`'s final `pd.to_numeric(..., errors="coerce")` is left out.
  LatLonRepair.FixColumn returns the repaired strings; InsertDecimalShape
  states that each one is empty or a decimal literal.
- Reading and writing CSV files is left out: the encoding fallback, argparse,
  `print`, `sys.exit` and the existence check of the input. Aborting is the
  outcome `Aborted`.
- Cells are strings. A missing value, read by pandas as NaN and printed as
  `nan`, is treated as the text the script would see after `str(...)`.
  Numeric cell types are not modelled.
- LatLonRepair.IsDigits: models `str.isdigit` for the ASCII digits only.
  Python also accepts other Unicode digits, such as `²` or `٣`. The difference
  never shows in `fix_column`, which first removes everything but ASCII digits
  and `-`; it would show only when `insert_decimal` is called on its own.
- IncomeFormat.NormalizeColumn: requires every row to hold `renda_media`.
  Without that column the script raises `KeyError`, first at
  `arrumar_rendamedia_ponto_virgula.py:7`, before any value is changed; that
  crash is not modelled.
- Lower-casing and `str.strip` are modelled for ASCII letters and Python's
  whitespace characters. Full Unicode case mapping is left out. `\d` in the
  income regular expression is modelled as ASCII digits.
- JSON values in the `address` object are strings. A non-string value, which
  Python would return unchanged from the `or` chain, is not modelled.
- Duplicate row index labels, under which `df.at` would write several rows,
  are not modelled: rows are addressed by position.
- `--verbose` with `--log-every 0` raises `ZeroDivisionError` in Python. The
  loops require `log_every != 0` when verbose instead of modelling the crash.
- `corrigir_latlon.py`'s `main` is left out: its header stripping, column
  check and output name. So are the hard-coded file names of
  `arrumar_rendamedia_ponto_virgula.py`.
- The geocoding script `achar_lat_lon_morumbi.py` is not part of this model.
- The body of each enrichment loop is a separate method (`VisitRow`, and
  `MergeInto` for the inner field loop), called once per turn of the loop.
