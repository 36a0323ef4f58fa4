# HSN code validator — Dafny model

This project models the decision logic of the HSN Validator service. That
service checks Harmonized System of Nomenclature (HSN) codes against a master
table of code → description pairs. The model has four parts:

- **Text** has the string operations the validator is built on: Python's
  `str.strip()` (`Trim`, with `TrimStart` and `TrimEnd`), `str.isdigit()`
  (`IsNumeric`) and `str.replace(" ", "")` (`RemoveSpaces`).
- **MasterData** covers startup. Header names are normalised (stripped, then
  every space removed). The `HSNCode` and `Description` columns are selected
  by name. The rows are then folded into the lookup map, inserted first to
  last as `dict(zip(...))` does, so a later duplicate code overwrites an
  earlier one.
- **Validator** is `validate_hsn_code`. It strips the input, then checks the
  input is digits only, then checks the length is 2..8, then looks the code
  up by exact string match. The first failing stage decides the verdict. The
  verdict has the stripped `code`, the `valid` flag, and exactly one of
  `description` and `reason`. The table is an explicit parameter rather than
  the module-level global.
- **Batch** is the body of the POST endpoint. A decoded body that is null or
  empty, or one without `codes`, gets the error object. A single string is
  treated as a one-element list. A list gets one verdict per code, in input
  order.

`Wrappers` holds the `Option` type. All modelled code is pure, so everything
is written as functions plus lemmas about them.

The operations themselves are plain functions. Their properties are stated
by the lemmas in the table below. The functions are:

- `Text.Trim` for `strip()` (app.py:13, 18, 26);
- `Text.IsNumeric` for `isdigit()` (app.py:29);
- `Text.RemoveSpaces` for `replace(" ", "")` (app.py:13);
- `MasterData.InsertRows` for `dict(zip(...))` (app.py:18);
- `Batch.ValidateAll` for the list comprehension (app.py:82).

Two details of the source the model keeps:

- `str.strip()` removes every character for which `str.isspace()` holds.
  That set includes Unicode spaces and the ASCII separator controls.
- A missing or duplicated column fails at `app.py:18`, outside the `try`
  block. Loading then stops with a `KeyError` or an `AttributeError`, not
  with the wrapped `RuntimeError`. Every one of these failures stops
  startup, so `LoadTable` returns `None` for all of them.

## Model

| member | source | states |
|---|---|---|
| `Text.TrimStartSpec` | app.py:26 | leading strip drops exactly the longest whitespace prefix: the dropped part is all whitespace and the kept suffix does not start with whitespace |
| `Text.TrimEndSpec` | app.py:26 | trailing strip drops exactly the longest whitespace suffix |
| `Text.TrimSpec` | app.py:26 | `strip()` returns an infix of the input with only whitespace around it and no whitespace at either end |
| `Text.TrimOfPadded` | app.py:26 | `strip()` is determined by its result: any whitespace-padded trimmed string strips back to itself |
| `Text.TrimAbsorbsPadding` | app.py:26 | extra whitespace around a string does not change what `strip()` returns |
| `Text.TrimIdempotent` | app.py:26 | stripping twice equals stripping once |
| `Text.TrimmedIffFixpoint` | app.py:26 | a string has no whitespace at its ends exactly when `strip()` leaves it unchanged |
| `Text.NumericIsTrimmed` | app.py:26-29 | a string of digits is left unchanged by `strip()` |
| `Text.RemoveSpacesSpec` | app.py:13 | `replace(" ", "")` leaves no space and never lengthens the string |
| `Text.RemoveSpacesKeepsOthers` | app.py:13 | every character other than a space occurs in the result exactly as often as in the input |
| `Text.RemoveSpacesAppend` | app.py:13 | removing spaces works piecewise: the result for a concatenation is the concatenation of the results, so order is kept |
| `Text.RemoveSpacesNoSpace` | app.py:13 | a string without spaces is unchanged |
| `Text.RemoveSpacesIdempotent` | app.py:13 | removing spaces twice equals removing them once |
| `MasterData.NormalizeHeader` | app.py:13 | a normalised header contains no space and has no whitespace at either end |
| `MasterData.RemoveSpacesKeepsTrimmed` | app.py:13 | removing spaces from a stripped string leaves it stripped |
| `MasterData.NormalizeHeaderIdempotent` | app.py:13 | normalising an already normalised header changes nothing |
| `MasterData.NormalizeHeaderPadding` | app.py:13 | whitespace around a header never changes which column it names |
| `MasterData.NormalizeSpacedHeader` | app.py:13 | two whitespace-free words joined by one space, with any whitespace padding, normalise to the words run together (so " HSN Code " selects `HSNCode`) |
| `MasterData.DescriptionHeaderExample` | app.py:13 | "\tDescription " normalises to `Description` |
| `MasterData.SelectByName` | app.py:18 | column selection succeeds exactly when each of `HSNCode` and `Description` names exactly one column; then there is one (code, description) pair per record, taken from those columns' cells |
| `MasterData.SelectColumns` | app.py:13-18 | on a sheet, selection succeeds exactly when `HSNCode` and `Description` each label one column after normalising the header; each pair holds the record's cells under the headers that normalise to those names |
| `MasterData.UniqueCount` | app.py:18 | a name occurs once in the header list exactly when there is a single position holding it |
| `MasterData.InsertRowsKeys` | app.py:18 | inserting rows adds exactly the stripped codes of the rows as keys |
| `MasterData.InsertRowsLast` | app.py:18 | after the insertions, a code maps to the stripped description of the last row carrying it |
| `MasterData.BuildTable` | app.py:18 | the table's keys are exactly the stripped row codes, and every key and every description is stripped |
| `MasterData.LastWriteWins` | app.py:18 | for duplicate codes, the table holds the stripped description of the last such row |
| `MasterData.TableEntryOrigin` | app.py:18 | every table entry comes from the last row carrying its code |
| `MasterData.LoadTable` | app.py:13-18 | startup yields a table exactly when both required columns are uniquely named after normalisation; every key and every description in it is stripped |
| `MasterData.SelectedCells` | app.py:18 | the selected pairs are, record by record, the cells of the normalised `HSNCode` and `Description` columns |
| `MasterData.LoadTableContents` | app.py:13-18 | the loaded table's keys are exactly the stripped `HSNCode` cells; each code maps to the stripped `Description` cell of the last record carrying it |
| `Validator.Validate` | app.py:20-38 | the verdict's code is the stripped input. It is valid exactly when the code is numeric, has 2..8 digits and is a table key. A valid verdict carries the table's description and no reason; an invalid one carries a reason and no description. A non-numeric code gets the numeric reason whatever its length; a numeric code of the wrong length gets the length reason; a well-formed unknown code gets the not-found reason |
| `Validator.ReasonsDistinct` | app.py:30-38 | the three reasons are different strings, so a reason identifies the failing stage |
| `Validator.ValidateTrimmed` | app.py:26-38 | validating the stripped input gives the same verdict as validating the original |
| `Validator.ValidateIgnoresPadding` | app.py:26-38 | surrounding whitespace never changes the verdict |
| `Validator.ValidateAgainstRows` | app.py:18-36 | against a table built from rows, a well-formed code carried by some row is valid with the stripped description of the last such row |
| `Validator.ValidateMissingFromRows` | app.py:18-38 | against a table built from rows, a well-formed code carried by no row gets the not-found reason |
| `Validator.ExampleFound` | app.py:35-36 | "1010" with {"1010": "Live animals"} is valid with that description |
| `Validator.ExampleNotFound` | app.py:37-38 | "9999" against the same table is invalid: not found |
| `Validator.ExampleNotNumeric` | app.py:29-30 | "10A0" is invalid: not numeric |
| `Validator.ExampleTooShort` | app.py:31-32 | "1" is invalid: wrong length |
| `Validator.ExampleTooLong` | app.py:31-32 | an eleven-digit code is invalid: wrong length |
| `Validator.ExamplePadded` | app.py:26 | " 1010 " gets the verdict of "1010" |
| `Validator.ExampleLeadingZero` | app.py:35-38 | lookup is exact: "0101" is not found under the key "101" |
| `Batch.ValidateAll` | app.py:82 | one verdict per code: as many verdicts as codes, the `i`-th being the verdict for the `i`-th code |
| `Batch.ValidateMultiple` | app.py:73-83 | the error object is returned exactly for a null or empty decoded body or one without `codes`; a single string gets exactly one verdict, that of the string; a list gets one verdict per code, `results[i]` being the verdict for `codes[i]` |
| `Batch.SingleIsOneElementList` | app.py:79-80 | a single string is answered exactly like the one-element list holding it |
| `Batch.ValidateAllAppend` | app.py:82 | the verdicts for a concatenation of code lists are the concatenated verdicts, so each verdict depends only on its own code |
| `Batch.ValidCountMatches` | app.py:82 | the number of valid verdicts equals the number of codes that are well formed and in the table once stripped |
| `Batch.ExampleBatch` | app.py:75-83 | ["1010", "9999"] with only "1010" known gives one valid verdict, then one not-found verdict |

## Left out

- Reading the Excel workbook (`pd.read_excel`, app.py:12) and the `RuntimeError` wrapped around a read failure (app.py:14-15). This is foreign I/O. The model starts from a sheet whose records each have one text cell per column (`MasterData.WellFormed`). Empty (NaN) cells and the reader's renaming of duplicate raw header names are part of that I/O and are not modelled.
- Flask wiring: routing, `jsonify`, the 400 status code, the landing page (app.py:53-62), and JSON decoding in `request.get_json()` (app.py:73). The decoded body is the `Batch.Payload` datatype. The GET route (app.py:64-68) only passes the URL segment to `validate_hsn_code`, so its answer is `Validator.Validate` of that segment.
- Payloads that `Payload` cannot express. The first kind is an ill-typed `codes` field: list elements that are not strings, which raise on `.strip()`, or a dictionary, which is iterated over its keys. The second kind is a top-level JSON value that is not an object. `null`, `false`, `0`, `""`, a list without the element "codes" and a string without the substring "codes" get the error object (app.py:75). `true`, non-zero numbers, a list holding "codes" and a string containing "codes" raise a `TypeError`. `Payload` admits only an object whose `codes` is a string or a list of strings.
- The terminal interface (app.py:40-51): a blocking `input`/`print` loop.
- Startup configuration: environment variables, port parsing and `app.run` (app.py:8, 85-91).
- Text.IsNumeric: accepts only the ASCII digits '0'..'9', whereas Python's `str.isdigit()` also accepts other Unicode digits such as '²' or Arabic-Indic digits. Such a code is reported as not numeric here.
- Text.IsWhitespace: a fixed set of 29 code points (those for which `str.isspace()` holds in current Python). It does not follow later changes to the Unicode database.
- Determinism and freedom from side effects need no lemma: every modelled operation is a Dafny function.
