# excel2json in Dafny

A model of the conversion core of excel2json, a command-line tool and library that
turns the first sheet of a spreadsheet workbook into a JSON array of row objects.

- The first parsed row supplies the keys.
- Every later row is zipped with it positionally. A missing cell becomes `''`, and
  cells past the header are ignored.
- A row object with no non-empty value is dropped.
- Before that, the headers can be passed one by one through a machine translator.
  Only headers holding a CJK ideograph are sent. A successful translation is turned
  into an identifier: whitespace runs become `_`, then the text is lower-cased. A
  failure keeps the original header.
- The command line picks the source, the output path, the translate flag and the
  engine tag from its arguments. Without arguments it lists the spreadsheet files of
  the current directory.

Modules:

- `Wrappers`: Option and Result.
- `Text`: the ECMAScript `\s` class, ASCII lower-casing, `startsWith` and `endsWith`.
- `Seqs`: `filter` and `find` on sequences.
- `Translation`: `translateToEnglish` and the header pass.
- `Records`: the record-building loops.
- `Converter`: `excelToJson`.
- `Cli`: `main`.

Inputs taken as parameters:

- whether the source file exists;
- the rows the spreadsheet parser yields, as `seq<seq<string>>`;
- the directory listing;
- the translator, a total function `(Engine, string) -> Option<string>`, where None
  means the call threw or gave no text;
- the default output-path derivation, as a function `string -> string`.

## Model

| member | source | states |
|---|---|---|
| `Text.IsSpace` | excel-to-json.js:36 | the `\s` class: among ASCII characters exactly space and tab..carriage return (9..13), and the rest of the WhiteSpace and LineTerminator code points; never `_` and never a capital |
| `Text.LowerChar` | excel-to-json.js:36 | lower-casing turns each of A..Z into the letter at the same place in a..z, leaves every other character as it is, leaves no upper-case ASCII letter, and neither creates nor removes whitespace |
| `Text.ToLowerIdempotent` | excel-to-json.js:36 | lower-casing a lower-cased string changes nothing |
| `Text.ToLowerKeepsNoSpace` | excel-to-json.js:36 | a string is whitespace-free after lower-casing exactly when it was before |
| `Text.StartsWith` | excel-to-json.js:174-181 | `startsWith`: the prefix is no longer than the text and agrees with it position by position from the start |
| `Text.EndsWith` | excel-to-json.js:156-157 | `endsWith`: the suffix is no longer than the text and agrees with its last positions, position by position |
| `Text.ToLower` | excel-to-json.js:36 | `toLowerCase` keeps the length and lower-cases character by character, as `LowerChar` states |
| `Seqs.Filter` | excel-to-json.js:180-182 | `filter` keeps no more elements than it is given, and every kept element satisfies the predicate |
| `Seqs.FilterMembership` | excel-to-json.js:155-158 | an element is in the filtered list exactly when it is in the input and satisfies the predicate |
| `Seqs.FilterNone` | excel-to-json.js:155-158 | nothing is kept when no element satisfies the predicate, so a folder with no Excel file lists none |
| `Seqs.FilterSelectsMembers` | excel-to-json.js:180-182 | every element of the filtered list was an element of the input |
| `Seqs.FilterAppend` | excel-to-json.js:180-182 | filtering a concatenation is the concatenation of the filtered parts, so no reordering |
| `Seqs.FilterSnoc` | excel-to-json.js:110-111 | one more element at the end is appended exactly when it satisfies the predicate |
| `Seqs.FilterSelects` | excel-to-json.js:155-158 | the filtered list is the subsequence, at strictly increasing positions, of exactly the elements satisfying the predicate |
| `Seqs.Find` | excel-to-json.js:174 | `find` yields an element of the list that satisfies the predicate, or nothing when no element does |
| `Seqs.FindFirst` | excel-to-json.js:174 | `find` yields the element at the first position that satisfies the predicate |
| `Translation.EngineOf` | excel-to-json.js:24-33 | exactly the tags `vitalets` and `google-x` select an engine; every other tag is unsupported |
| `Translation.HasCjk` | excel-to-json.js:18 | the regular-expression test: true exactly when some character lies in U+4E00..U+9FFF, never for empty text |
| `Translation.HasCjkAppend` | excel-to-json.js:18 | the test finds a match anywhere: a concatenation has a CJK ideograph exactly when one of its parts has |
| `Translation.CollapseSpaces` | excel-to-json.js:36 | replacing whitespace runs by `_` leaves no whitespace and never lengthens the text |
| `Translation.CollapseSpacesKeepsSpaceFree` | excel-to-json.js:36 | text without whitespace is not changed by the replacement |
| `Translation.CollapseSpacesOfRun` | excel-to-json.js:36 | a non-empty run made only of whitespace becomes one `_` |
| `Translation.CollapseSpacesRunThen` | excel-to-json.js:36 | a whitespace run followed by text, or by nothing, becomes one `_` in front of the text's replacement; with `CollapseSpacesKeepsSpaceFree` and `CollapseSpacesAppend` this fixes the replacement on every string |
| `Translation.CollapseSpacesAppend` | excel-to-json.js:36 | the replacement works run by run: cutting the text after a non-space character cuts the result at the same place |
| `Translation.CollapseSpacesBetween` | excel-to-json.js:36 | a word, a whitespace run and the rest become the word, one `_` and the rest's replacement |
| `Translation.PostProcess` | excel-to-json.js:36 | post-processing a translation leaves no whitespace and never lengthens it |
| `Translation.PostProcessIdempotent` | excel-to-json.js:36 | post-processing an already post-processed text changes nothing |
| `Translation.PostProcessExample` | excel-to-json.js:36 | the translation `Date Of  Birth` becomes the key `date_of_birth`: each run of spaces is one `_` and the capitals are lowered |
| `Translation.TranslateToEnglish` | excel-to-json.js:15-41 | text without a CJK ideograph is returned unchanged; with an unsupported engine tag the text is returned unchanged; otherwise the result is the text itself or a whitespace-free, already normalised string |
| `Translation.TranslateSucceeds` | excel-to-json.js:18-36 | CJK text, a supported engine and a successful call give the post-processed translation |
| `Translation.TranslateFailsOpen` | excel-to-json.js:37-40 | a failed call returns the original text |
| `Translation.AsciiHeaderUnchanged` | excel-to-json.js:18-19 | a header made only of ASCII characters is never changed |
| `Translation.TranslateAll` | excel-to-json.js:87-92 | the translated header list has as many entries as the original |
| `Translation.TranslateHeaders` | excel-to-json.js:85-94 | the pass keeps length and order, and entry i is the translation of header i alone. With an unsupported tag it returns the headers unchanged. Headers without CJK are kept. Every other entry is the original or a whitespace-free normalised string |
| `Records.Cell` | excel-to-json.js:105 | a position past the end of the row gives `''` |
| `Records.LastIndex` | excel-to-json.js:103-106 | the position of the last column with a given header, which no later column repeats |
| `Records.RecordOf` | excel-to-json.js:100-107 | the keys of a row object are exactly the header texts |
| `Records.RecordValues` | excel-to-json.js:103-107 | the value under header j is cell j, or `''` past the end of the row, whenever no later column repeats that header |
| `Records.HasContent` | excel-to-json.js:110 | `Object.values(...).some(val => val !== '')` holds exactly when some key maps to a non-empty value |
| `Records.RowRecords` | excel-to-json.js:98-107 | one row object per data row, in row order |
| `Records.Kept` | excel-to-json.js:97-113 | the result never has more records than there are data rows, and every kept record has a non-empty value |
| `Records.RecordOfExtend` | excel-to-json.js:106 | assigning the next column adds or overwrites that header's key with the new column's cell |
| `Records.BuildRecords` | excel-to-json.js:97-113 | the nested loops compute exactly the kept records of rows 1.. of the sheet, and nothing for a sheet of one row |
| `Records.KeptSnoc` | excel-to-json.js:109-112 | a further data row adds its record at the end exactly when the record has content |
| `Records.KeptSelectsContentRows` | excel-to-json.js:97-113 | the result is the records of exactly the rows with content, at strictly increasing row positions, so source order is kept |
| `Records.KeptAppend` | excel-to-json.js:98-113 | the records of two blocks of rows are the first block's records followed by the second's |
| `Records.HasContentIff` | excel-to-json.js:110 | a row is kept exactly when some column that its header's last occurrence selects has a non-empty cell, so the test runs after duplicates overwrite |
| `Records.DistinctHeadersHasContent` | excel-to-json.js:103-110 | with distinct headers a row is kept exactly when one of its first header-count cells is non-empty |
| `Records.IgnoresExtraCells` | excel-to-json.js:103-106 | cells past the header's length never affect the record |
| `Records.ShadowedCellIgnored` | excel-to-json.js:106 | a cell whose header a later column repeats never affects the record |
| `Records.DuplicateHeaderDropsRow` | excel-to-json.js:103-112 | with headers `[a, a]` the row `[x, '']` gives `{a: ''}` and is dropped |
| `Records.BlankRowDropped` | excel-to-json.js:97-113 | headers `[Name, Age]` with rows `[John, 25]` and `['', '']` give just `{Name: John, Age: 25}` |
| `Records.ShortRowPadded` | excel-to-json.js:105 | headers `[Name, Age, City]` with the row `[Jane, 30]` give `{Name: Jane, Age: 30, City: ''}` |
| `Converter.HeadersFor` | excel-to-json.js:81-94 | the keys are as many as the first row's cells, and are the first row itself unless translation is on with a supported engine |
| `Converter.ExcelToJson` | excel-to-json.js:51-127 | the call as written. A missing source and an empty sheet are errors. A sheet with rows and no output path fails at the write. Otherwise the result is the kept records of rows 1.., keyed by the possibly translated first row; a sheet holding only the header row then gives no records and no error |
| `Converter.ExcelToJsonWithDefault` | excel-to-json.js:51-127 | the corrected call fails exactly for a missing source or an empty sheet. It writes to the given path, or else to the path derived from the source. A sheet holding only the header row gives no records and no error |
| `Cli.Split` | excel-to-json.js:176 | `split` gives at least one part, at least two when the separator occurs, and no part holds the separator |
| `Cli.SplitJoin` | excel-to-json.js:176 | joining the parts of a split with the separator gives the text back |
| `Cli.SplitHead` | excel-to-json.js:176 | the first part is the text before the first separator |
| `Cli.SplitAtFirst` | excel-to-json.js:176 | splitting at the first separator gives the text before it, then the parts of the rest |
| `Cli.IsTranslateFlag` | excel-to-json.js:170-181 | the argument is exactly `--translate`, which never starts with `--engine=`, so the two flags never overlap |
| `Cli.IsEngineArg` | excel-to-json.js:174-181 | the argument starts with `--engine=`, so its ninth character is the `=` where the tag begins |
| `Cli.IsPositional` | excel-to-json.js:180-182 | the `filter` test keeps the arguments that are neither flag: never `--translate`, and always any argument that is empty or does not start with `-` |
| `Cli.EngineTag` | excel-to-json.js:176 | `split('=')[1]` of an `--engine=` argument never holds an `=` and is shorter than the argument by at least `--engine=` |
| `Cli.ParseArgs` | excel-to-json.js:134-183 | no argument means usage; otherwise the source is `args[0]`, translation is on exactly when `--translate` is an argument, an explicit output path is a non-empty argument that is neither flag, and a tag other than `vitalets` holds no `=` |
| `Cli.SplitPartLength` | excel-to-json.js:176 | no part of a `split` is longer than the string split |
| `Cli.EngineTagBetweenEquals` | excel-to-json.js:174-177 | the engine tag of `--engine=...` is the text between its first and second `=` |
| `Cli.ParseArgsSourceAndFlag` | excel-to-json.js:169-170 | with arguments, the source path is the first argument whatever it is, and translation is on exactly when some argument equals `--translate` |
| `Cli.ParseArgsEngine` | excel-to-json.js:173-177 | the engine tag comes from the first argument starting with `--engine=` |
| `Cli.ParseArgsDefaultEngine` | excel-to-json.js:173 | without an `--engine=` argument the tag is `vitalets` |
| `Cli.ParseArgsOutput` | excel-to-json.js:180-183 | the output path is the second argument left once both flags are removed, wherever the flags stand, in front of the source path too |
| `Cli.ParseArgsEmptyOutput` | excel-to-json.js:183 | an empty second positional argument is falsy, so the derived output path is used |
| `Cli.ParseArgsNoOutput` | excel-to-json.js:183 | with at most one argument left after removing the flags, the default output path is used |
| `Cli.ExcelFiles` | excel-to-json.js:154-158 | every listed name has an `.xlsx` or `.xls` suffix in some letter case |
| `Cli.IsExcelFile` | excel-to-json.js:156-157 | a name that passes the suffix test has a `.` four or five characters from its end |
| `Cli.ExcelFileCaseInsensitive` | excel-to-json.js:156-157 | the suffix test gives the same answer for a name and its lower-cased form |
| `Cli.ExcelFilesMembership` | excel-to-json.js:155-158 | a name is listed exactly when it is in the directory and its lower-cased form ends in `.xlsx` or `.xls` |
| `Cli.ExcelFilesAppend` | excel-to-json.js:155-158 | the listing keeps the directory's order |
| `Cli.ExcelSuffixAnyCase` | excel-to-json.js:155-158 | any name ending in `.xlsx` or `.xls`, in any mix of cases, is listed |
| `Cli.ExitCode` | excel-to-json.js:185-192 | the exit status is 1 exactly for a failed conversion, else 0 |
| `Cli.RunCli` | excel-to-json.js:133-193 | without arguments the outcome is the usage listing of the directory's spreadsheet files. Otherwise, in order: a missing source or an empty sheet fails with exit status 1; else the kept records are written to the explicit output path or the derived one |

## Findings

| source | as written | input that shows it | evidently intended | confidence | as-written member | corrected member |
|---|---|---|---|---|---|---|
| excel-to-json.js:119 | the library's default output path, `null` at line 51, goes straight to `fs.writeFileSync`, which throws for a null path; the promise rejects after converting | `excelToJson('data.xlsx')` on an existing workbook with a header row | without an output path, write to the path derived from the source, as `main` does at line 183; the parameter is documented as optional. A second reading is possible: example.js:16 shows the snippet `excelToJson("sample.xlsx")` followed by printing the records, and example.js:25 shows one with a path for saving them, which suggests "return the records and write nothing". The model follows the first reading | not executed; rests on Node's `fs.writeFileSync` refusing a null path | `Converter.ExcelToJson` | `Converter.ExcelToJsonWithDefault` |

`Cli.RunCli` calls the corrected member. It passes no path when the arguments name
none, and the corrected member then derives the path that `main` derives itself. The
command line behaves the same either way.

## Left out

- File-system access (`fs.existsSync`, `XLSX.readFile`, `fs.readdirSync`, `fs.writeFileSync`): the existence test, the parsed rows and the directory listing are parameters. A failing write to a given path is not modelled.
- The spreadsheet library's `sheet_to_json` with `header: 1, defval: '', raw: false`: its output is the given `seq<seq<string>>`. Every cell is a string there, so `row[j] || ''` is the cell or `''`. Only the workbook's first sheet is read.
- The two translation libraries and their network calls: one total function per engine. It answers the same text the same way within a run, which a network service need not do. `async`/`await` is left out: the calls run one at a time.
- `JSON.stringify` with two-space indentation, and JavaScript's key-ordering rules for objects: a record is a `map`, which has no key order.
- A header named `__proto__`: a JavaScript object ignores a string assigned to that key. The model treats it as an ordinary key.
- Console output, warnings, the usage text and `process.exit`: only the outcome and its exit status are kept.
- The default output path, `path.join(dirname, basename without extname + '.json')`: the function `derive`.
- `Text.LowerChar`, `Text.ToLower`: only A..Z are lower-cased, not the full Unicode `toLowerCase`. For the `.xlsx`/`.xls` suffix test this gives the same answer, but translated text outside ASCII keeps its case. The whitespace class is ECMAScript's `\s`, written out code point by code point.
- The default parameter values `translateHeaders = false`, `translateEngine = 'vitalets'` (excel-to-json.js:51) and `engine = 'vitalets'` (excel-to-json.js:15) are not modelled: every argument is explicit. `main` passes all four, so nothing it does is lost.
- `Cli.RunCli`: a workbook that `XLSX.readFile` cannot read, or one with no sheet (excel-to-json.js:61-74), makes `excelToJson` throw and `main` exit with status 1. The model takes the parsed rows as a parameter, so neither failure appears, and `ExitCode(outcome) == 1` covers only a missing source and an empty sheet.
- example.js holds no logic; it only prints example text.
