# yellow-table in Dafny

A model of the data engine of the Yellow `table` extension. It covers:

- the table operators `joinTables`, `mergeTables`, `simplifyTable`, `filterTable`, `sortTable` and `arrangeTable`;
- the helpers these operators rely on: `array_equalise`, `array_union` and `getDSVOptions`;
- the line codecs of `getDSV`/`putTable`, covering tab-separated (TSV), pipe-separated (PSV) and comma-separated (CSV) files;
- the `.func` definition reader `getFunctionFile`;
- the `italianFiscalCode` decoder of `tablefunctions.php`.

A table is `Table(columns, data)`. Every cell is `Str(s)` or `Null`. The PHP value `false` that marks an absent table is `None`. A source handed to join or merge is `Real(table)` or `Virtual(definition)`: a `.func` definition becomes a virtual source when it names a function.

Modules follow the program's structure:

- `Tables`: cells, rows, tables and definitions. It also holds the PHP array behaviours the operators share: reading a missing offset, `array_flip` lookups (the last occurrence wins), `array_search` (the first occurrence, matched exactly), `array_equalise`, `array_filter` and `array_intersect`.
- `Text`: `implode`, `explode`, the trims and ASCII `strtolower`.
- `Escapes`: the `strtr` cell codec with the maps of `getDSVOptions`.
- `Dsv`: TSV/PSV lines, the header and row equalisation, `GetDsv` and `PutDsv`.
- `Csv`: the `sep=` hint line and the field trimming around the CSV field parser.
- `FuncFile`: the `Key: Value` parser and the virtual-table definition.
- `Join`, `Merge`, `Simplify`, `Filter`, `Sort` and `Arrange`: one module per operator.
- `FiscalCode`: the `italianFiscalCode` decoder.

Each operator is written twice:

- as a `method`, in the shape of the PHP loop it models;
- as a pure function that specifies the method.

Lemmas state what the operators promise.

Things that depend on the outside world are parameters:

- the functions a virtual table calls (`Join.Registry`);
- the case conversions and the `<=>` comparison of filter and sort;
- the CSV field parser;
- whether the function library is loaded;
- the current date of the fiscal-code decoder.

The PHP 8 string semantics that `italianFiscalCode` relies on are written out:

- An offset past the end reads "".
- `strpos` with an empty needle finds position 0.
- Writing past the end pads with spaces.
- `(int)` reads the leading integer.
- `%` truncates toward zero and throws on a string with no leading number.
- `>` compares numerically when both sides are numeric and as strings otherwise.

Name lookups follow the code:

- Join, filter, sort and arrange resolve a column name through `array_flip`. That is the LAST column with that name.
- The join key is found the same way: the last row with a given key is the one joined.
- `simplifyTable` resolves its column with `array_search`, which is the FIRST column with that name. The model matches the name exactly; PHP's loose comparison is discussed under "Left out".
- A filter condition naming a column the table lacks is not an error. It reads the missing cell as null, which compares as "".
- An unknown comparator code is skipped. In OR mode it therefore never keeps a row.

## Model

| member | source | states |
|---|---|---|
| Tables.Equalise | table.php:414-423 | the row has exactly the requested width; cell `i` is the original cell when present and null past the end, so a short row keeps its prefix and a long one is cut |
| Tables.LastIndex | table.php:239 | `array_flip` lookup: none exactly when the name is absent; otherwise a position holding the name with no later occurrence |
| Tables.LastIndexIsLast | table.php:239 | a position holding the name with no later occurrence is the one the lookup returns |
| Tables.FirstIndex | table.php:311 | `array_search`: none exactly when the value is absent; otherwise a position holding it with no earlier occurrence |
| Tables.FirstIndexIsFirst | table.php:311 | a position holding the value with no earlier occurrence is the one `array_search` returns |
| Tables.Present | table.php:234 | `array_filter`: the tables kept are exactly the present inputs, never more than were given |
| Tables.FilterPresent | table.php:234 | the filtering loop yields the present tables in order |
| Tables.SoleAsWrittenLosesTable | table.php:234-236 | with `[false, t]` one table remains after filtering, yet reading `$tables[0]` yields no table: PHP reads the undefined key as null, which the page then fails on with a type error |
| Tables.Intersect | table.php:356 | `array_intersect`: the kept names are exactly the requested names the table has, never more than requested; a single name is kept exactly when the table has it |
| Tables.IntersectConcat | table.php:356 | `array_intersect` keeps the requested order: intersecting two lists one after the other gives the two intersections one after the other |
| Tables.Indexes | table.php:359 | each kept name maps to a position of the columns holding that name, with no later column of the same name |
| Tables.Placeholder | table.php:165 | the placeholder row of a virtual table has one cell per declared value column, each holding `? ` followed by the function name |
| Text.Split | table.php:135 | `explode`: at least one part, no part holds the separator, and `implode` of the parts gives back the line |
| Text.SplitJoin | table.php:187 | `explode` undoes `implode` when no part holds the separator |
| Text.RTrim | table.php:135 | `rtrim`: a prefix of the input, not ending in a trimmed character, with only trimmed characters removed |
| Text.RTrimSuffix | table.php:135 | `rtrim` removes exactly a tail of trimmed characters from a line that otherwise ends outside the set |
| Text.LTrim | table.php:130 | `ltrim`: a suffix of the input, not starting with a trimmed character, with only trimmed characters removed |
| Text.StripAround | table.php:130 | `trim` returns the core of a string surrounded by trimmed characters |
| Text.Strip | table.php:130 | the trimmed string neither starts nor ends with a trimmed character |
| Text.Lower | table.php:123 | `strtolower` maps A–Z to a–z and keeps every other character, length unchanged; the result holds no capital letter, and equals the input exactly when the input holds none |
| Text.LowerIdempotent | table.php:123 | lower-casing twice is lower-casing once |
| Text.LowerPlain | table.php:123 | a string without capitals is its own lower case |
| Escapes.OptionsMaps | table.php:200-207 | `getDSVOptions` returns the format's separator and the escape map, flipped when encoding |
| Escapes.DecodeMapFacts | table.php:202-203 | every decoding key starts with a backslash; `\n`, `\r` and `\t` or `\p` decode to the special character they name; as written, a lone backslash decodes to itself |
| Escapes.EncodeMapFacts | table.php:206 | the flipped map escapes exactly the special characters and the backslash; as written, it maps the backslash to itself |
| Escapes.StrTrStep | table.php:135 | `strtr` replaces the longest matching key at the front, else copies one character, then continues |
| Escapes.EncodeClean | table.php:187 | an encoded cell holds no newline, carriage return or separator |
| Escapes.DecodeCons | table.php:135 | decoding an encoded character followed by more text gives that character, then the decoding of the rest |
| Escapes.CellRoundTrip | table.php:200-207 | decoding an encoded cell gives it back if and only if the cell holds no literal backslash-letter escape, or the escape map is the corrected one |
| Escapes.BareBackslashEscapes | table.php:202-203 | as written, every cell that starts with a backslash and an escape letter is changed by a write and a read |
| Escapes.LiteralEscapeChanges | table.php:202 | as written, the two-character cell `\n` is written unchanged and read back as a newline |
| Dsv.FromRows | table.php:139-142 | the first row becomes the columns; every later row is exactly as wide as the header, keeping its cells and padding with null |
| Dsv.SplitWritten | table.php:135 | a written line, stripped of its line end and split on the separator, gives back the encoded cells |
| Dsv.CellsClean | table.php:187 | encoded cells hold neither the separator nor a line break |
| Dsv.LineRoundTrip | table.php:187 | reading back a written row gives its cells as array keys, null as "", when no cell holds a literal backslash-letter escape (always, with the corrected map) |
| Dsv.HeaderRoundTrip | table.php:178 | reading back the written header gives the column names, under the same condition on escapes |
| Dsv.FromWrittenRows | table.php:139-142 | decoded rows of a well-formed table reproduce the table, with nulls read as "" |
| Dsv.TableRoundTrip | table.php:178-187 | reading back a written well-formed table with at least one column gives the same columns and rows, with nulls read as "", when no name or cell holds a literal backslash-letter escape (a table with no columns reads back with one column "") |
| Dsv.ShiftHeader | table.php:139-142 | the header-shifting, equalising loop computes the table `FromRows` describes |
| Dsv.GetDsv | table.php:133-143 | decoding the lines of a TSV or PSV file builds the table of the decoded rows |
| Dsv.PutDsv | table.php:174-188 | an absent table writes nothing; otherwise the lines are the encoded header, then the encoded rows |
| Csv.StripCSlashes | table.php:122 | `stripcslashes` never lengthens a string and keeps a leading character that is not a backslash; the escapes are stated by the lemmas below |
| Csv.StripCSlashesPlain | table.php:122 | a string without backslashes is unchanged |
| Csv.StripCSlashesEscape | table.php:122 | a backslash and a simple escape letter become the control character it names |
| Csv.StripCSlashesHex | table.php:122 | `\x` and two hexadecimal digits become the character they denote, and the rest is unescaped on its own |
| Csv.StripCSlashesOctal | table.php:122 | a backslash and three octal digits become the character of their value modulo 256, and the rest is unescaped on its own |
| Csv.SepHintOf | table.php:121-125 | a line that trims and unescapes to `sep=` and one character names that separator |
| Csv.SepHintNames | table.php:121-125 | `sep=` in any letter case, one character and trailing white space name that character |
| Csv.SepHintEscaped | table.php:122-124 | `sep=\t` and the other C escapes name the control character |
| Csv.TrimRecords | table.php:130 | every field of every record is trimmed, the shape kept |
| Csv.GetCsv | table.php:118-131 | the hint line, when present, sets the separator and is consumed; otherwise the comma is used and the first line is data; fields are trimmed; the header is shifted and rows are equalised |
| FuncFile.FirstOf | table.php:155 | the lazy key group ends at the first colon: none exactly when there is no colon |
| FuncFile.ParseLineFacts | table.php:155-156 | a recorded line had a colon; its key holds no colon and no capital; its value is non-empty and trimmed |
| FuncFile.ParseLineOf | table.php:155-156 | a line is recorded under the lower-cased trimmed text before its first colon, with the trimmed rest as its value |
| FuncFile.WrittenValue | table.php:156 | trimming a trimmed, non-empty value written after `: ` and before the line end gives the value back |
| FuncFile.ParseWritten | table.php:155-156 | a line `Key: Value` is read back as the lower-cased key and the value |
| FuncFile.RecordLastWins | table.php:154-157 | a key is recorded exactly when some line records it, and its value comes from the last such line |
| FuncFile.ParseList | table.php:162-164 | a comma-separated list splits into at least one item, none holding a comma |
| FuncFile.ListRoundTrip | table.php:162-164 | a list of trimmed, comma-free names joined with commas splits back into the names |
| FuncFile.DefinitionOf | table.php:160-165 | the function name is present exactly when the file sets it, and equals it; without `values` there are no columns |
| FuncFile.GetFunctionFile | table.php:150-166 | without the function library there is no definition; otherwise the definition of the recorded entries |
| Join.VirtualCells | table.php:252-256 | the cells a function adds are exactly as many as the declared value columns |
| Join.FirstCellsFull | table.php:267 | `array_column(…, 0)` of rows that have a first cell is the list of those cells |
| Join.JoinLosesSoleTable | table.php:234-236 | as written, `[false, t]` joins to no table (null in PHP, which passes the `!== false` guards and fails with a type error); the corrected join returns `t` |
| Join.JoinGuards | table.php:234-236 | absent exactly when every input is absent; a sole present table is returned unchanged |
| Join.RealStepUnlinked | table.php:265-266 | a real table whose key column the master lacks leaves the master unchanged |
| Join.LinkedCellsLastWins | table.php:267-272 | the cells added for a key are the rest of the last row with that key, or nulls when no row has it |
| Join.RealStepLinked | table.php:264-277 | columns grow by the other table's columns after the first; every master row keeps its place and cells, extended by the linked cells of its key |
| Join.VirtualStepShape | table.php:240-263 | columns grow by the declared columns; each row keeps its cells and gains the function's equalised result, or the placeholder when the function is not callable |
| Join.VirtualStepShadows | table.php:263 | after widening, a declared column name resolves to the new column, shadowing an older one |
| Join.StepWellFormed | table.php:238-279 | one join step keeps every row as wide as the header |
| Join.JoinAllWellFormed | table.php:238-279 | joining any number of well-formed sources keeps the table well formed |
| Join.JoinAllRows | table.php:238-280 | joining never changes the number of master rows |
| Join.Widen | table.php:240-263 | the in-place row loop computes the virtual step |
| Join.LinkOn | table.php:265-277 | the in-place row loop computes the real step |
| Join.JoinTables | table.php:233-281 | the method computes the join of the present sources, with the corrected one-table shortcut: a sole present table is returned wherever it stands |
| Join.JoinAsWrittenAgrees | table.php:234-236 | the join as written and the corrected join agree exactly when there is not exactly one present table or the first input is present; otherwise the join as written gives no table, null in PHP, on which the page fails with a type error |
| Merge.Concat | table.php:288 | `array_merge` of column lists holds exactly the names of the lists |
| Merge.Dedup | table.php:409-411 | `array_unique`: no duplicates, same names |
| Merge.DedupFirstSeen | table.php:409-411 | kept names appear in the order of their first occurrence |
| Merge.ReprojectCells | table.php:296-301 | a re-projected row has each cell under its column's name and null in the union's other columns |
| Merge.ShortcutAgrees | table.php:293-294 | the copy shortcut for a table whose columns are the union agrees with re-projection |
| Merge.MergeLosesSoleTable | table.php:285-287 | as written, `[false, t]` merges to no table; the corrected merge returns `t` |
| Merge.MergeGuards | table.php:285-287 | absent exactly when every input is absent; a sole present table is returned unchanged |
| Merge.StackedColumns | table.php:288 | the columns are the union of the inputs' columns, without duplicates, in first-seen order |
| Merge.AllRowsCount | table.php:292-304 | the row count is the sum of the inputs' row counts |
| Merge.AllRowsAt | table.php:292-304 | row `i` of input `t` lands after the rows of the inputs before it, re-projected |
| Merge.AllRowsWellFormed | table.php:291-301 | every merged row is as wide as the union |
| Merge.StackedRows | table.php:288-305 | the merged table is well formed, counts all rows, and each input row sits at its offset re-projected onto the union |
| Merge.Spread | table.php:296-301 | the cell-placing loop builds the re-projected row |
| Merge.Respread | table.php:296-302 | the row loop re-projects every row of a table |
| Merge.MergeTables | table.php:284-306 | the method computes the merge of the present sources, with the corrected one-table shortcut: a sole present table is returned wherever it stands |
| Merge.MergeAsWrittenAgrees | table.php:285-287 | the merge as written and the corrected merge agree exactly when there is not exactly one present table or the first input is present; otherwise the merge as written gives no table |
| Simplify.Reverse | table.php:315 | `array_reverse`: position `i` holds the element `i` places from the end |
| Simplify.LastOfKeyKeys | table.php:315-321 | kept rows have distinct keys, and every key of the table is kept |
| Simplify.LastOfKeyLast | table.php:315-321 | each kept row is the last row with its key, and kept rows keep table order |
| Simplify.SimplifyGuards | table.php:310-312 | absent stays absent; a missing column leaves the table unchanged; columns never change |
| Simplify.NullMeetsEmpty | table.php:316-318 | null and "" are one key, so of `[null]`, `[""]` only the latter is kept |
| Simplify.SimplifyTable | table.php:309-324 | the reverse walk with a set of seen keys computes the simplified table |
| Filter.PresentConditions | table.php:329 | `array_filter` on conditions keeps exactly the present ones |
| Filter.FilterPassing | table.php:340-349 | the kept rows are the rows that pass, in order, and every passing row is kept |
| Filter.FilterGuards | table.php:328-350 | absent stays absent; columns unchanged; never more rows than before |
| Filter.UnknownCodeIgnored | table.php:342 | in AND mode a condition with an unknown code changes no verdict |
| Filter.UnknownCodesKeepNone | table.php:342-348 | in OR mode, conditions with only unknown codes keep no row |
| Filter.MissingColumnIsEmpty | table.php:339-343 | a condition on a missing column compares "" against the value |
| Filter.FiresSettles | table.php:343 | a condition settles a row exactly when its code is known and, in OR mode, it holds, or, in AND mode, it fails |
| Filter.ScanRow | table.php:341-348 | the condition loop reaches the row's verdict |
| Filter.FilterTable | table.php:327-351 | the method computes the filtered table |
| Sort.LexFlip | table.php:366-371 | comparing key vectors the other way round flips the sign |
| Sort.LexTrans | table.php:366-371 | the key-vector order is transitive |
| Sort.BeforeTotal | table.php:366-371 | any two distinct rows are ordered one way or the other, ties by position |
| Sort.BeforeTrans | table.php:366-371 | the row order is transitive |
| Sort.SortOrder | table.php:366 | the sort order is a list of all row positions |
| Sort.InsertSorted | table.php:366-371 | inserting a position into a sorted order keeps it sorted |
| Sort.SortOrderSorted | table.php:366-371 | the order is sorted by keys, ties in original order |
| Sort.InsertSplits | table.php:366-371 | inserting a position splits the order in two around it and moves nothing else |
| Sort.ReorderInsert | table.php:366 | reordering by an order with one position inserted adds that position's row to the multiset of rows |
| Sort.SortOrderPermutes | table.php:366 | the rows taken in sort order are the rows of the table, each exactly once |
| Sort.SortedPermutes | table.php:354-374 | sorting a present table gives a table whose rows are a permutation of the original rows |
| Sort.SortGuards | table.php:355-357 | absent stays absent; no known sorting column leaves the table unchanged; columns and row count never change |
| Sort.SortOrderFacts | table.php:366-371 | the order is a permutation of the positions, ascending by keys and stable on ties |
| Sort.SortedRows | table.php:354-374 | with a known sorting column, the rows are permuted, ordered by key vectors, and stable on ties |
| Sort.Memoise | table.php:360-365 | the memo maps every sorting cell's key to its normalised form |
| Sort.SortTable | table.php:354-374 | the method computes the sorted table |
| Arrange.ArrangedCells | table.php:379-390 | the columns are the requested names the table has, in order; every row is that wide; each cell is taken from the named column |
| Arrange.ArrangeAllIsIdentity | table.php:377-391 | arranging a table with distinct columns by its own columns changes nothing |
| Arrange.IndexesInOrder | table.php:381 | with distinct columns, each column resolves to its own position |
| Arrange.IntersectAll | table.php:379 | requesting only names the table has keeps them all |
| Arrange.ArrangeAbsent | table.php:378 | an absent table stays absent |
| Arrange.ArrangeTable | table.php:377-391 | the in-place row loop computes the arranged table |
| FiscalCode.TruncMod | tablefunctions.php:113 | PHP `%`: the remainder takes the dividend's sign and is smaller than the divisor in size |
| FiscalCode.StrPosFrom | tablefunctions.php:107 | `strpos` finds the first occurrence at or after the start, and none means there is none |
| FiscalCode.StrPosChar | tablefunctions.php:107 | a one-character needle is found exactly when it occurs, at its first occurrence |
| FiscalCode.StrPosEmpty | tablefunctions.php:107 | an empty needle is found at position 0 |
| FiscalCode.WriteAt | tablefunctions.php:108 | writing an offset sets that character, keeps the others and pads with spaces past the end |
| FiscalCode.DigitRun | tablefunctions.php:111 | the leading digits `(int)` reads |
| FiscalCode.NormaliseAtEffect | tablefunctions.php:107-109 | a substitute letter at the position becomes its digit; past the end a `0` is written; elsewhere nothing changes |
| FiscalCode.NormaliseAllLength | tablefunctions.php:106-110 | normalising keeps the length, or extends it to the last position written |
| FiscalCode.NormaliseAllClears | tablefunctions.php:106-110 | after normalising, no digit position holds a substitute letter |
| FiscalCode.NormaliseAllKeeps | tablefunctions.php:106-110 | characters outside the digit positions, or not substitute letters, are unchanged |
| FiscalCode.NormaliseAllSubstitutesAt | tablefunctions.php:107-108 | a substitute letter at a digit position becomes the digit of its index |
| FiscalCode.NormalisedShape | tablefunctions.php:106-110 | the normalised code is at least 15 characters long; its digit positions hold no substitute letter; other characters are kept |
| FiscalCode.NormalisedDigit | tablefunctions.php:106-110 | a digit or substitute letter at a digit position becomes the digit it stands for |
| FiscalCode.NormalisedValid | tablefunctions.php:106-110 | every digit position of a well-formed code holds its digit, and the month and place letters are kept |
| FiscalCode.Normalise | tablefunctions.php:106-110 | the position loop computes the normalised code |
| FiscalCode.TwoDigits | tablefunctions.php:111 | a two-digit field is numeric and reads as its decimal value |
| FiscalCode.MonthOf | tablefunctions.php:112 | a month letter names a month 1..12, the letter's place in the month alphabet |
| FiscalCode.MonthFound | tablefunctions.php:112 | `strpos` of a month letter, plus one, is that month |
| FiscalCode.FieldsFromDigits | tablefunctions.php:111-115 | with digits at the year and day positions: the year is the two-digit number, the month the letter's, the day the field mod 40, the sex "F" exactly above 40, the place the four characters from 11 |
| FiscalCode.ReadValidCode | tablefunctions.php:106-114 | for a code with digits or substitute letters at the digit positions and a month letter, the fields are read from the digits they stand for |
| FiscalCode.ReadValidPlace | tablefunctions.php:106-115 | the birthplace is the letter at 11 and the digits the next three positions stand for |
| FiscalCode.ReadFieldsShape | tablefunctions.php:106-115 | for any code, reading fails exactly when the day field has no leading number; otherwise month is 1..12 (1 for a bad letter), the day is strictly between -40 and 40, the sex is "F" or "M", and the place is 4 characters |
| FiscalCode.BirthYearWindow | tablefunctions.php:117-122 | the chosen year ends in the two digits read; the birth date falls strictly before the day `minimumAge` years before now and on or after the day `minimumAge + 100` years before it, so an owner turning `minimumAge` today is placed a century earlier, as the code's strict `<` does |
| FiscalCode.BirthYearUnique | tablefunctions.php:117-122 | no other year with those two final digits falls in the window |
| FiscalCode.AsWrittenAgrees | tablefunctions.php:117-122 | when the minimum age is at most the current year mod 100, the code's century rule gives the windowed year |
| FiscalCode.AsWrittenTooYoung | tablefunctions.php:117-122 | on 2026-10-11 with minimum age 30, year 97 is placed in 1997 as written (age 29), while the window gives 1897 |
| FiscalCode.Digits | tablefunctions.php:123 | decimal digits of a number read back as the number |
| FiscalCode.PadRoundTrip | tablefunctions.php:123 | `%0wd` of a number with at most `w` digits is `w` digits reading back as the number |
| FiscalCode.DateTextRoundTrip | tablefunctions.php:123 | the date text is `YYYY-MM-DD`: three runs of digits around two dashes, each run reading back as its field |
| FiscalCode.DecodeValid | tablefunctions.php:106-124 | a well-formed code decodes to the date with the corrected (windowed) century, the sex and the normalised place read straight off its characters |
| FiscalCode.ItalianFiscalCode | tablefunctions.php:87-125 | the method computes the decoded triple with the corrected (windowed) century, or none where PHP throws |
| FiscalCode.DecodeAsWrittenAgrees | tablefunctions.php:106-124 | when the minimum age is at most the current year mod 100, the decoder with the century rule as written and the corrected decoder give the same triple for every well-formed code |

## Left out

- File handling: `fopen`, `fgets`, `fclose`, `flock` and the byte-order mark of `skipBOM`. The codecs work on sequences of lines.
- The CSV field parser and writer, `fgetcsv` and `fputcsv`. The parser is the parameter `parse` of `Csv.GetCsv`. Writing CSV is not modelled, because PHP's quoting rules are not part of this repository.
- `lockTable`: file-existence locking with polling is concurrency. Its stale-lock removal unlinks the misspelled `$lockname`, which is undefined, so a stale lock is never cleared.
- HTML rendering, the shortcut handler and its argument parsing, Markdown formatting and `table.js`. Filter conditions enter as parsed triples.
- `iconv` transliteration, `mb_convert_case` and PHP's `<=>` on strings. They are function parameters. Sort assumes the comparison is a total preorder.
- The functions a virtual table calls are the `Join.Registry` parameter, returning a list or a scalar that the model casts with `Tables.ToArray` as `array_equalise` does. A registry function that throws, or returns an object or a nested array, is not modelled. Results are cells, so strings or null: the numbers that `sum`, `sumAll` and `elapsedYears` return are not modelled as numbers, and a float used as a join or simplify key, which PHP truncates to an integer array key, is keyed here on its text.
- The other functions of `tablefunctions.php`: `sum`, `sumAndDifference`, `sumAll`, `elapsedYears`, `metaphone`, `mixedCase`, `upperCase` and `getFromTable`.
- `getdate()` is the `now` parameter of `FiscalCode.Decode`. `minimumAge` is taken as an integer, with no string conversion. A null code cell is not modelled.
- FiscalCode.IntPrefix: `(int)` reads the sign and leading digits, so a string with an exponent (`"1e3"`, which PHP reads as 1000) is read as 1. An exponent with digits needs three characters and cannot occur in the two-character fields read; `.5`, `5.` and `1e` are read as PHP does, through `LeadingNumeric` and `NumberLength`.
- Sort.SortTable: the `usort` algorithm itself is not modelled. It is an insertion sort of row positions with the stability that PHP 8's `usort` guarantees.
- Escapes: the corrected escape map is modelled only to show that it round-trips. Every read and write of the model uses the map as written.

- Tables.SoleAsWritten: PHP reads the undefined `$tables[0]` as null, with a warning, and that null is not `false`. The model writes `None` for both. The null passes the `!== false` guard of the page and the `=== false` guards of `simplifyTable`, `filterTable`, `sortTable` and `arrangeTable`, which then fail with a type error; the model's as-written join instead yields an absent table, which those guards pass through. For `mergeTables` the difference does not show, because `joinTables` filters the null out.
- Join.JoinTables: the model returns the sole present table wherever it stands, where the code as written returns null when the first input is absent. `Join.JoinedAsWritten` models the code as written, and `Join.JoinAsWrittenAgrees` states when the two agree.
- Join.JoinTables: a real table without columns is treated as having no link and leaves the master unchanged (`Join.LinkColumn`). In PHP, `$table['columns'][0]` is then null and `??` looks up the master column named "", since a null array key reads as the empty string. When the master has a column named "" (a TSV header `a<TAB>` gives one), the link is found and `array_fill(0, -1, null)` at table.php:268 throws a ValueError. The model does not represent that error; when the master has no column "", model and code agree.
- Merge.MergeTables: the same correction as `JoinTables`; `Merge.MergeAsWrittenAgrees` ties it to `Merge.MergedAsWritten`.
- FiscalCode.DecodeValid: the date's century is the windowed `FiscalCode.BirthYear`, not the code's comparison against `now.year % 100 - minimumAge`. The two differ when `minimumAge` exceeds the current year's last two figures; `FiscalCode.DecodeAsWritten` models the code as written and `FiscalCode.DecodeAsWrittenAgrees` states that they agree otherwise.
- FiscalCode.ItalianFiscalCode: computes `FiscalCode.Decode`, with the corrected century as under `DecodeValid`.
- Dsv.FromRows: an input with no rows gives `Table([], [])`. PHP leaves the columns null there, and later operators fail on them with a type error. The same holds for `Dsv.GetDsv`, `Dsv.ShiftHeader` and `Csv.GetCsv`.
- Simplify.SimplifyTable, Tables.FirstIndex, Tables.FirstIndexIsFirst: `array_search` compares loosely, so PHP finds a column `01` for the name `1`, both being numeric strings of equal value. The model matches names exactly, and agrees with PHP whenever no two names are numeric strings of equal value.
- Strings are sequences of characters, while PHP's are bytes. The two agree on ASCII text; for a multi-byte character they do not, so `Csv.SepHint` accepts `sep=é`, whose length in PHP is 6 bytes rather than 5.

## Findings

| source | as written | input that shows it | evidently intended | confidence | as-written member | corrected member |
|---|---|---|---|---|---|---|
| table.php:234-236 | `array_filter` keeps the keys, and the one-table shortcut returns `$tables[0]` | `joinTables([false, $t])` leaves only key 1, so `$tables[0]` is undefined and reads as null; that null passes the `!== false` test at table.php:57 and `array_map` over its columns fails with a type error at table.php:71 | return the sole present table | not executed | Join.JoinLosesSoleTable | Join.JoinGuards |
| table.php:285-287 | the same shortcut in `mergeTables` | `mergeTables([false, $t])` returns no table | return the sole present table | not executed | Merge.MergeLosesSoleTable | Merge.MergeGuards |
| tablefunctions.php:117-122 | the two-digit year is placed in this century or the previous one by comparing against `now.year % 100 - minimumAge` | on 2026-10-11 with `minimumAge` 30, year `97` becomes 1997, an owner aged 29 | the owner was born strictly before the day `minimumAge` years ago (the code's strict `<` kept, so someone turning `minimumAge` today goes a century back) and on or after the day `minimumAge + 100` years ago | not executed | FiscalCode.AsWrittenTooYoung | FiscalCode.BirthYearWindow |
