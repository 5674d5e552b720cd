# Local normalization engine, modelled in Dafny

This project models the normalization engine of the energy-data pipeline
(`app/local_processing.py`). The engine turns four raw inputs into clean,
`;`-separated tables:

- **The appliance consumption report** (`pdf_to_csv`, module `Appliance`).
  It reads a PDF's page text line by line and turns it into rows of six
  fields.
- **The weather station table** (`tratar_csv`, module `Weather`).
  - It drops the `Unnamed…` columns and renames the seven it keeps.
  - Every cell is cleaned as a number (`tratar_numero`).
  - `DATAHORA` is derived from `DATA` and `HORA_UTC` (`_mk_dt`).
  - Every row with a missing cell is dropped.
- **The hourly price table** (`normalizar_datahora_pld`, module `Price`).
  - `DIA` and `HORA` are zero-padded.
  - `DATAHORA` is read from the month reference, the day and the hour as
    `%Y%m%d%H`.
  - The three source columns are dropped.
- **The sensor readings** (`tratar_dados_sensores`, then the integration pass
  of `process_dados_sensores`, module `Sensors`).
  - Column names are normalized and their variants renamed.
  - Only the dictionary's columns are kept.
  - Text is trimmed and the location hashed with a salt.
  - Values are parsed as numbers and timestamps.
  - Rows missing a critical field are dropped.
  - The second pass adds `DATAHORA`, a canonical `unit` and a canonical
    `metric`.

Shared pieces are:

| Module | What it models |
|---|---|
| `Text` | Python's `strip`, `split`, `join`, `lower`, `replace` and `remove_accents` |
| `Tables` | A data frame as a header and rows of cells, with column access and the row loops |
| `Numbers` | `float()` on positional literals, `str(float)`, `int()` and `f"{n:02d}"` |
| `Dates` | `strptime`/`strftime` over fixed-width directives, and `_parse_datetime` |
| `Wrappers` | `Option` and `Result` |

A cell is `Str`, `Int`, `Float` (a `real`) or `Null` (pandas' NaN/None).

Each transformer is a method that follows the source's statements. It is
proved equal to a specification function, and lemmas state what the output
promises.

Two places where the design description and the code disagree, and the model
follows the code:

- **The price step.** The description says a row whose timestamp does not
  parse still goes through with a null timestamp, and that no error leaves a
  component. In the code, `int(x)` and `strptime` in `normalizar_datahora_pld`
  have no handler: one bad row raises, and the step writes nothing. The model
  returns `Fail` for such a table (`Price.OutputOkIff`).
- **Weather cells.** The description says an unparseable number becomes null.
  In the code, `tratar_numero` returns the trimmed text unchanged when
  `float()` raises, so such a cell stays text and the row is kept. The model
  does the same (`Numbers.CleanNumber`).

## Model

| member | source | states |
|---|---|---|
| Text.Strip | app/local_processing.py:159 | `str.strip()`: the result is no longer than the input and neither starts nor ends with whitespace |
| Text.StripIdempotent | app/local_processing.py:159 | Stripping twice is stripping once |
| Text.StripNoOp | app/local_processing.py:165 | Text that neither starts nor ends with whitespace is left unchanged by strip |
| Text.Split | app/local_processing.py:45 | `str.split()` yields only non-empty tokens without whitespace |
| Text.SplitJoin | app/local_processing.py:45-48 | Splitting words joined by single spaces gives the words back |
| Text.SplitKeepsText | app/local_processing.py:45 | `split()` loses only whitespace: the tokens concatenated are the visible characters of the line, in order |
| Text.FilterAvoids | app/local_processing.py:43-44 | Removing characters never introduces a character that was absent |
| Text.SplitAvoids | app/local_processing.py:45 | No token of a split holds a character the line did not hold |
| Text.Lines | app/local_processing.py:40 | `text.split("\n")` yields at least one line, and no line holds a newline |
| Text.LinesJoin | app/local_processing.py:40 | Joining the lines with newlines rebuilds the text |
| Text.JoinLines | app/local_processing.py:40-41 | Splitting newline-joined lines that contain no newline gives those lines back |
| Text.StripReplace | app/local_processing.py:87 | Replacing one non-space character by another commutes with strip |
| Text.RemoveChar | app/local_processing.py:43-44 | `replace(c, "")` leaves no `c` |
| Text.Lower | app/local_processing.py:238 | `lower()` keeps the length and leaves no capital letter |
| Text.LowerIdempotent | app/local_processing.py:323 | Lower-casing twice is lower-casing once |
| Text.BaseLetter | app/local_processing.py:23-24 | NFD then dropping the marks: an accented letter becomes an unaccented one; other characters stay |
| Text.RemoveAccents | app/local_processing.py:22-24 | `remove_accents` leaves neither an accented letter nor a combining mark |
| Text.RemoveAccentsPlain | app/local_processing.py:22-24 | Text without accents or marks is unchanged |
| Text.RemoveAccentsIdempotent | app/local_processing.py:22-24 | Removing accents twice is removing them once |
| Tables.IndexOf | app/local_processing.py:103 | A named column's position is that of the first column with the name |
| Tables.SetColumn | app/local_processing.py:112 | `df[name] = cells`: the column holds the cells, other columns are unchanged, and a new name is appended at the end |
| Tables.SetColumnTwice | app/local_processing.py:112 | Assigning the same column twice is assigning it once |
| Tables.Project | app/local_processing.py:268 | Selecting columns by position keeps each row's cells at those positions |
| Tables.KeepColumns | app/local_processing.py:71 | `df.loc[:, mask]`: a name survives exactly when it is in the header and passes the mask |
| Tables.KeepColumnsCell | app/local_processing.py:129 | A kept column keeps its cells |
| Tables.Map | app/local_processing.py:100 | The element-wise loop yields `f` of each element, in order |
| Tables.Kept | app/local_processing.py:114 | Row filtering keeps only rows that pass, and only rows of the input |
| Tables.KeptMembers | app/local_processing.py:114 | A row is kept exactly when it is in the input and passes |
| Tables.KeptAll | app/local_processing.py:114 | When every row passes, nothing is dropped |
| Tables.KeepRows | app/local_processing.py:114 | The filtering loop yields exactly the rows that pass, in order |
| Tables.TryAll | app/local_processing.py:121-128 | An `apply` whose function may raise succeeds exactly when every element succeeds, and then yields each element's value |
| Tables.TryMap | app/local_processing.py:121-128 | The `apply` loop stops at the first failure and agrees with `TryAll` |
| Tables.TryAllPrefix | app/local_processing.py:121-128 | One failing element makes the whole `apply` fail |
| Numbers.Pad2TwoDigits | app/local_processing.py:121-122 | `f"{n:02d}"` of 0..99 is two digits denoting `n` |
| Numbers.Pad2Shape | app/local_processing.py:121-122 | `f"{n:02d}"` has at least two characters: digits denoting `n` when `n >= 0`, a minus sign and digits otherwise |
| Numbers.Pad2ReadsBack | app/local_processing.py:121-122 | `int()` reads `f"{n:02d}"` back as `n`, for every integer |
| Numbers.ParseDecimal | app/local_processing.py:95 | `float()` on the positional spelling accepts only a sign, digits, and at most one point with a digit on some side |
| Numbers.Render | app/local_processing.py:95 | `str(float)` writes digits, at most a leading minus, and a point |
| Numbers.RenderReadsBack | app/local_processing.py:95 | `float(str(x))` reads back the same number in canonical form, and writing it again gives the same text |
| Numbers.Normalized | app/local_processing.py:87 | After `strip().replace(',', '.')`, no comma is left and the ends are not whitespace |
| Numbers.PadPoints | app/local_processing.py:88-91 | After padding, the text neither starts nor ends with a point and is empty only when the input was |
| Numbers.CleanNumber | app/local_processing.py:85-98 | `tratar_numero`: non-text passes through, and the cell is NaN exactly when it was NaN or blank text. Other text stays text. When `float()` refuses it, it comes back as its trimmed, comma-to-point, point-padded text |
| Numbers.NormalizedCommaBlind | app/local_processing.py:87 | A decimal comma and a decimal point give the same normalized text |
| Numbers.CleanNumberCommaBlind | app/local_processing.py:85-98 | `tratar_numero` gives the same cell for comma and point spellings |
| Numbers.ParseFloat | app/local_processing.py:171-185 | `_parse_float`: None for a missing cell; an integer or float as its value; text as the number its trimmed, comma-to-point form reads as, None when that is blank or not a number |
| Numbers.ParseFloatCommaBlind | app/local_processing.py:171-185 | `_parse_float` reads comma and point spellings as the same number |
| Numbers.CleanNumberIdempotent | app/local_processing.py:85-98 | `tratar_numero` applied twice is applied once |
| Numbers.PadPointsKeepsValue | app/local_processing.py:88-91 | Adding "0" before a leading point or after a trailing one does not change the number read |
| Numbers.CleanNumberKeepsValue | app/local_processing.py:85-98 | `_parse_float` reads the same number from a cell before and after `tratar_numero` |
| Dates.Strptime | app/local_processing.py:205 | Whatever `strptime` accepts is a valid calendar date and time |
| Dates.Strftime | app/local_processing.py:206 | `dt.strftime(fmt)`: each directive as its fixed-width digits, each literal as itself, in order; its length and read-back are stated by `Dates.StrftimeSpan` and `Dates.StrptimeOfStrftime` |
| Dates.StrftimeSpan | app/local_processing.py:206 | `strftime` writes exactly as many characters as the format spans |
| Dates.ScanOfStrftime | app/local_processing.py:205-206 | Reading back `strftime`'s text with the same format restores every field the format names |
| Dates.StrptimeOfStrftime | app/local_processing.py:205-206 | For a valid `dt` whose fields outside the format hold strptime's defaults, `strptime(strftime(dt))` is `dt` |
| Dates.StrftimeOfStrptime | app/local_processing.py:205-206 | When the format names each field at most once, `strftime(strptime(s))` is `s` |
| Dates.FirstMatch | app/local_processing.py:203-209 | Formats are tried in order: none matches exactly when every one fails; otherwise the first that matches decides |
| Dates.FirstMatchPicks | app/local_processing.py:203-208 | When the formats before k all fail, format k decides |
| Dates.ParseDatetime | app/local_processing.py:188-209 | `_parse_datetime` succeeds exactly on non-blank text that some accepted format reads. Its text is "YYYY-MM-DD HH:MM:SS" and reads back as exactly the date-time the first matching format read from the trimmed input |
| Dates.ParseDatetimeKeepsCanonical | app/local_processing.py:197-206 | A canonical timestamp is read back as itself |
| Dates.ParseDatetimeIdempotent | app/local_processing.py:188-209 | Parsing a parsed timestamp again changes nothing |
| Dates.DayFirstMisses | app/local_processing.py:196-205 | Day-first text without seconds matches none of the first three formats |
| Dates.DayFirstMatch | app/local_processing.py:196-205 | Day-first text without seconds is first matched by `%d/%m/%Y %H:%M` and read as the date-time that wrote it, for every valid date-time on a whole minute |
| Dates.ParseDatetimeDayFirst | app/local_processing.py:188-209 | Day-first text without seconds, with any whitespace around it, is normalized to the same date-time written "YYYY-MM-DD HH:MM:SS" |
| Dates.SecondsShort | app/local_processing.py:196-205 | Text a format writes is never read by the same format followed by `:%S` |
| Appliance.RowWriter.constructor | app/local_processing.py:32-33 | The writer starts with no row |
| Appliance.RowWriter.WriteRow | app/local_processing.py:56 | `writerow` appends exactly one row |
| Appliance.Clean | app/local_processing.py:43-44 | No `*` and no `"` are left in the line |
| Appliance.ParseLine | app/local_processing.py:43-56 | A line is skipped exactly when it has fewer than six fields. Otherwise it gives six fields. The last five are fields without `*` or `"`. Use and unit are never "-". The name holds no accent |
| Appliance.RowsOf | app/local_processing.py:42-56 | A page never yields more rows than lines, and every row has six fields without "-" for use or unit |
| Appliance.Extract | app/local_processing.py:35-56 | Every row of the document has six fields without "-" for use or unit |
| Appliance.PdfToCsv | app/local_processing.py:26-57 | The file written is the header row followed by each page's rows, page by page |
| Appliance.WriteLines | app/local_processing.py:42-56 | The line loop appends exactly the rows of the lines that parse, in order |
| Appliance.RowsOfAppend | app/local_processing.py:42-56 | Rows keep the order of their lines: the rows of two runs of lines are those of the first, then the second |
| Appliance.ExtractAppend | app/local_processing.py:35-56 | Pages are read in order: the rows of two runs of pages are those of the first, then the second |
| Appliance.BlankPages | app/local_processing.py:37-38 | Pages without text add no row |
| Appliance.HeadingSkipped | app/local_processing.py:40-41 | The first eight lines of a page never give a row; the rest is read exactly |
| Appliance.ParseWords | app/local_processing.py:45-56 | Six or more clean words give the name from the leading words, then the last five fields, with "-" turned into "1" and "h" |
| Appliance.ShortLineSkipped | app/local_processing.py:46-47 | Fewer than six words give no row |
| Appliance.DashedLine | app/local_processing.py:45-56 | A line whose use and unit are "-" gives the words before the last five, accents removed, as the name, its power, days and kWh as written, and "1" and "h" for use and unit |
| Weather.MkDt | app/local_processing.py:104-111 | `_mk_dt` gives a value only when the day text and an hour from 0 to 23 exist, and it is the day, a space, the two-digit hour and ":00:00" |
| Weather.StampCell | app/local_processing.py:104-112 | A stamp is text exactly when `_mk_dt` succeeds, and then it is the day text, a space, the two-digit hour and ":00:00"; otherwise NaN |
| Weather.MkDtOfDate | app/local_processing.py:104-111 | Conversely, a row whose DATA is a date as `%Y-%m-%d` writes it and whose HORA_UTC is an hour 0 to 23 gets its DATAHORA |
| Weather.DayText | app/local_processing.py:106 | `str(row['DATA']).strip()`: trimmed text, the integer's digits, "nan" for a missing cell, and nothing usable for a float |
| Weather.HourOf | app/local_processing.py:107 | `int(float(row['HORA_UTC']))`: an integer as it is, a float truncated toward zero, text only when `float()` reads it, and none for a missing cell |
| Weather.CleanRow | app/local_processing.py:100 | `df.map(tratar_numero)` on a row applies `tratar_numero` to each cell |
| Weather.Cleaned | app/local_processing.py:71-100 | Dropping, renaming and cleaning keep the table well-formed |
| Weather.Stamped | app/local_processing.py:103-112 | Adding DATAHORA keeps the table well-formed |
| Weather.NormalizeWeather | app/local_processing.py:60-115 | The step's statements, run in order, produce the specified table |
| Weather.OutputNamed | app/local_processing.py:71 | No column whose name starts with "Unnamed" is written |
| Weather.OutputHeader | app/local_processing.py:71-83 | The columns get the seven canonical names exactly when seven named columns are left; otherwise they keep their names |
| Weather.OutputNoNull | app/local_processing.py:114 | No row written holds a missing cell |
| Weather.OutputKeepsComplete | app/local_processing.py:114 | Every stamped row without a missing cell is written |
| Weather.OutputStamps | app/local_processing.py:103-114 | Every row written has DATAHORA equal to its DATA text, a space, its hour 0-23 as two digits and ":00:00" |
| Weather.NoStampForHour24 | app/local_processing.py:107-111 | Hour 24 gives no stamp |
| Price.PadCell | app/local_processing.py:121-122 | A cell is padded exactly when `int()` accepts it, and the result is the two-digit text |
| Price.RowStamp | app/local_processing.py:123-127 | A row's timestamp, when it reads, is a valid date and time |
| Price.PadColumn | app/local_processing.py:121-122 | Padding a column succeeds exactly when every cell is an integer. It changes only that column, and each cell becomes its two-digit text |
| Price.Stamps | app/local_processing.py:123-128 | DATAHORA is computed exactly when every row converts, and then is each row's timestamp |
| Price.NormalizePrice | app/local_processing.py:118-130 | The step's statements, run in order, produce the specified result, including the failure |
| Price.PaddedRow | app/local_processing.py:121-125 | After padding, a row reads as a timestamp exactly when the original row converts |
| Price.OutputOkIff | app/local_processing.py:118-129 | The step succeeds exactly when the three source columns exist, the table has a row, and every row converts; a table without rows raises at the DATAHORA assignment |
| Price.OutputColumns | app/local_processing.py:123-129 | On success, the source columns are gone, every other column name is kept, DATAHORA is added, and no row is lost; the kept columns' cells are stated by `Price.OutputKeepsCells` |
| Price.MonthText | app/local_processing.py:125 | `str()` of the month reference in the f-string: text as it is, an integer's digits, nothing for a float or NaN |
| Price.StampCell | app/local_processing.py:123-128 | A row gets a DATAHORA exactly when its compact text reads as `%Y%m%d%H`, and that text reads back with `%Y-%m-%d %H:%M:%S` as the same date-time |
| Price.OutputKeepsCells | app/local_processing.py:121-129 | On success, every column other than MES_REFERENCIA, DIA, HORA and DATAHORA is still written, with each row's cell unchanged |
| Price.OutputStamps | app/local_processing.py:123-130 | On success, each row's DATAHORA is its month, day and hour read as `%Y%m%d%H` and written in ISO form, and the compact text reads back exactly |
| Price.CompactRoundTrip | app/local_processing.py:124-125 | `%Y%m%d%H` writes back exactly the text it read |
| Price.StampFromParts | app/local_processing.py:121-127 | Every hourly date-time from year 1000 on converts back from its month reference yyyymm, day and hour as integers |
| Price.MonthDigits | app/local_processing.py:125 | `str(yyyymm)` is the year's four digits followed by the month's two |
| Dates.Pad2Fixed | app/local_processing.py:121-122 | `f"{n:02d}"` of a number below a hundred is the two digits `%d` and `%H` read |
| Sensors.NormalizeName | app/local_processing.py:237-239 | A normalized column name is the stripped name, character by character: blanks and hyphens become "_" and every other character is lower-cased. So it holds no space, no hyphen and no capital letter |
| Sensors.NormalizeNameIdempotent | app/local_processing.py:237-239 | Normalizing a name twice is normalizing it once |
| Sensors.Rename | app/local_processing.py:242-254 | A known variant is renamed to a dictionary name; any other name is kept |
| Sensors.CanonicalNameVariants | app/local_processing.py:237-254 | Every spelling that normalizes to a known variant ends up as a dictionary name |
| Sensors.PresentIn | app/local_processing.py:267 | A name is kept exactly when it is expected and in the header |
| Sensors.PresentInDistinct | app/local_processing.py:256-267 | The kept names are distinct |
| Sensors.Select | app/local_processing.py:268 | `df[present]` has exactly those columns, with their cells |
| Sensors.MapColumn | app/local_processing.py:271-285 | `df[col] = df[col].map(f)` applies `f` to that column only |
| Sensors.CleanText | app/local_processing.py:157-160 | `_normalize_text` trims text and passes everything else through |
| Sensors.CleanTextIdempotent | app/local_processing.py:157-160 | Trimming twice is trimming once |
| Sensors.CleanTextColumns | app/local_processing.py:271-273 | The text loop trims the four text columns and leaves the others alone |
| Sensors.Anonymize | app/local_processing.py:163-168 | The location is always text. It is "" exactly for a non-text or blank location (or an empty digest) |
| Sensors.AnonymizeTrimBlind | app/local_processing.py:165-167 | Surrounding whitespace does not change the digest |
| Sensors.AnonymizeSaltSensitive | app/local_processing.py:163-168 | With an injective hash, one non-blank location under two different salts gets two different digests |
| Sensors.AnonymizeSeparates | app/local_processing.py:163-168 | With an injective hash whose digest is never empty, a non-blank location never gets the blank marker, and two locations get the same digest exactly when they are equal once trimmed |
| Sensors.ParseFloatCell | app/local_processing.py:280-281 | `data` becomes a float, or NaN exactly when `_parse_float` fails |
| Sensors.ParseDatetimeCell | app/local_processing.py:284-285 | `created_at` becomes a canonical timestamp that reads back as the date-time the first matching format read, or NaN exactly when `_parse_datetime` fails |
| Sensors.ParseDatetimeCellIdempotent | app/local_processing.py:284-285 | Parsing timestamps twice changes nothing |
| Sensors.ParseFloatCellIdempotent | app/local_processing.py:280-281 | Parsing values twice changes nothing |
| Sensors.Renamed | app/local_processing.py:237-254 | Each column gets its canonical name, and the rows are unchanged |
| Sensors.Selected | app/local_processing.py:256-268 | The kept columns are the expected names present after renaming |
| Sensors.Parsed | app/local_processing.py:271-285 | The cell passes keep the header and the row count |
| Sensors.Present | app/local_processing.py:267 | The comprehension loop computes the present names |
| Sensors.ApplyColumn | app/local_processing.py:271-285 | The column loop computes the mapped column |
| Sensors.CleanTextLoop | app/local_processing.py:271-273 | The `for col in …` loop trims the text columns |
| Sensors.NormalizeSensors | app/local_processing.py:212-293 | The step's statements, run in order, produce the specified table |
| Sensors.ExpectedDistinct | app/local_processing.py:256-264 | The dictionary names are distinct |
| Sensors.OutputHeader | app/local_processing.py:237-268 | The output columns are the dictionary names the input has under some spelling, each once, in dictionary order |
| Sensors.ParsedCells | app/local_processing.py:271-285 | Each row's data, created_at, data_type and location cells are those of the selected input passed through their cleaners |
| Sensors.CriticalPresent | app/local_processing.py:288 | The critical columns are exactly those of data, created_at and data_type that exist |
| Sensors.DropKeeps | app/local_processing.py:288-290 | `dropna(subset=critical)` keeps a row exactly when its critical fields are present |
| Sensors.DropOnly | app/local_processing.py:288-290 | Every kept row is an input row with every critical field |
| Sensors.OutputKeepsRow | app/local_processing.py:276-290 | A reading survives exactly when its value parses, its timestamp reads, and its type is present (for the columns the file has) |
| Sensors.OutputRowFrom | app/local_processing.py:288-290 | Every output row is a parsed row with every critical field |
| Sensors.SameRowSameCells | app/local_processing.py:288-290 | Equal rows under equal headers have equal cells |
| Sensors.OutputCells | app/local_processing.py:276-293 | Every row written has a float `data`, a canonical `created_at`, a `data_type`, and a text `location` |
| Sensors.Canon | app/local_processing.py:320-324 | `_canon_unit`/`_canon_metric` pass non-text through. Text whose trimmed, lower-cased form is a key becomes that key's value. Any other text becomes its trimmed self |
| Sensors.CanonIdempotent | app/local_processing.py:320-350 | Canonicalizing twice is canonicalizing once, for a table closed under its values |
| Sensors.FixedByKey | app/local_processing.py:310-350 | A value that is its own trimmed, lower-cased key's image stays fixed |
| Sensors.UnitMapClosed | app/local_processing.py:310-319 | Every canonical unit is left unchanged by `_canon_unit` |
| Sensors.MetricValuesFixed | app/local_processing.py:329-345 | Every canonical metric is left unchanged by `_canon_metric` |
| Sensors.MetricMapClosed | app/local_processing.py:329-345 | The metric table is closed under its values |
| Sensors.MetricNames | app/local_processing.py:329-345 | Every metric spelling maps to one of the six metric names |
| Sensors.Derive | app/local_processing.py:306-352 | `df[dst] = df[src].map(f)` when `src` exists. It appends `dst` when new, and leaves the other columns and the row count unchanged |
| Sensors.DeriveColumn | app/local_processing.py:306-352 | The column assignment computes the derived table |
| Sensors.IntegrateSensors | app/local_processing.py:302-355 | The second pass, assignment by assignment, computes the integration |
| Sensors.IntegrateColumns | app/local_processing.py:306-352 | The pass keeps all rows and columns. It adds DATAHORA, unit and metric exactly when created_at, measure_unit and data_type exist, as their copy and canonical forms |
| Sensors.NoDerivedNames | app/local_processing.py:256-268 | The first pass never writes DATAHORA, unit or metric |
| Sensors.PipelineStamps | app/local_processing.py:297-307 | After both passes, every row's DATAHORA is a canonical timestamp |

## Left out

- Reading and writing files is not modelled. Tables and page text are taken as values.
- The PDF text extraction is not modelled: each page's text is given, or missing.
- The CSV reader's details are not modelled: encoding fallbacks, delimiter sniffing, quoting and type inference. A table arrives with typed cells.
- The missing-file early returns, logging, the output folder, the `process_*` wrappers and their error reporting are left out. They do not change any table.
- Sensors.AnonymizeSeparates: SHA-256 is a parameter `hash` of the sensor step. The lemma assumes an injective hash with non-empty digests, an idealization: SHA-256 has a fixed 64-character digest and therefore collisions, and the fixed length is not assumed together with injectivity.
- Sensors.AnonymizeSaltSensitive: it rests on the same idealized injectivity assumption.
- The salt is a parameter. Its default, "change-me-salt", comes from `app/config.py:9` as `Sensors.DefaultSalt`.
- `float()` is modelled only on the positional spelling (sign, ASCII digits, point). Exponents, underscores, non-ASCII Unicode digits, "inf" and "nan" are read as not numbers. `str(float)` is modelled as the shortest positional spelling. Python switches to exponent notation for very large and very small numbers, and binary rounding is ignored.
- `int()` on text with Unicode digits or underscores is not modelled.
- Unicode NFD and `lower()` are modelled for Latin-1 letters only.
- `strptime` is modelled fixed-width. Python also accepts single-digit fields, and for `%d` a blank in place of the leading zero, as in " 5"; those inputs are rejected here. Python anchors the match at both ends, as the model does: leading text and unconverted trailing text are refused. Python also reads a space in the format as any run of whitespace, so "31/01/2024  10:00" is accepted there and refused here. Python's `\d` also matches non-ASCII digits, which the model does not read as digits.
- Dates.Strftime: `%Y` is always written with four digits. Some C libraries write years before 1000 without padding.
- Price.OutputStamps: DATAHORA is a datetime64 column. When every stamp of the table is midnight (every HORA is 0), pandas' `to_csv` writes it as "YYYY-MM-DD". The model always writes the full "YYYY-MM-DD HH:MM:SS" text.
- Price.StampCell: writes the full timestamp text for every row, for the same reason as `Price.OutputStamps`.
- Weather: pandas' choice of column type for `apply(axis=1)` on a table with zero rows is not modelled; `_mk_dt` catches the error of pandas' probe call, so the step writes an empty table, as the model does.
- Sensors: when two input columns rename to the same name, pandas keeps both. `Sensors.Select` takes the first.
- Sensors: the second pass runs on the first pass's table, not on a re-read CSV. The re-read that turns "" into NaN and re-infers types is not modelled.
- Sensors: the `try/except` around the second pass is not modelled, because the modelled pass cannot fail.
