# Event checklist planner — a Dafny model of its state store

The planner is a single-page app, `app.js`. It keeps one state object: an event date, a task
checklist, a roster of participants and a budget. Every button and field of the page is a
handler that changes that object. This project models the object and its handlers, and it
proves what they keep and what they compute. It also models the pure helpers the handlers
rely on:

- the quick-entry parser for tasks (`title | category | owner | deadline`);
- the CSV export of the three lists;
- the line-by-line reader of a roster CSV file;
- the HTML escaper used on every piece of user text.

Modules:

- `Strings` (`strings.dfy`): JavaScript's `trim`, `split` on one character, `join`,
  `toLowerCase` and the decimal rendering of integers.
- `Seqs` (`seqs.dfy`): `filter`, the index `find` stops at, and delete-by-id on a list.
- `Entities` (`entities.dfy`): the task, roster entry and budget line records.
- `TaskInput` (`task_input.dfy`): the quick-entry parser, with its round trip.
- `Csv` (`csv.dfy`): the export, the roster reader, and what the reader makes of an export.
- `Html` (`html.dfy`): `escapeHtml`, with the decoding a browser applies to it.
- `Store` (`store.dfy`): the class `AppState` with one method per handler, and the budget totals.

The store is imperative, as in the source. `AppState` has the four fields of `state`, and each
handler is a method whose `modifies` clause names only the field it changes. Every
method keeps `Valid()`: ids are unique within each list, every task has a title, category and
owner, every participant a name and every budget line an item. The budget totals and the
roster import are loops. They are proved against the functions `SumEstimated`/`SumActual` and
`ImportedRoster`.

Ids come from `idGen`, which draws random characters. The model passes the new id (or one id
per imported line) in as a parameter. The methods require that the id is not already in use,
which is the assumption behind the random generator.

Four behaviours of `app.js` are easy to misread; the model follows the code:

- The roster reader trims and lower-cases the header names, but it does not strip quotes
  from them (app.js:181).
- The export doubles every quote in a value. The reader strips only one leading and one
  trailing quote per cell and never undoes the doubling. So a value with a quote in it comes
  back with its quotes doubled (`Csv.QuotedValueNotRecovered`), and a value with a comma in
  it comes back split across two cells, so no entry carries it again
  (`Csv.CommaValueNotRecovered`). A participant with a non-empty name whose values have
  no quotes, commas, line breaks or outer spaces does survive export and re-import
  (`Csv.RosterCsvRoundTrip`). `AddRoster` stores names and roles trimmed, and refuses an
  empty name.
- An amount of 0 is falsy, so it is exported as an empty field, not as `0`
  (`Csv.ZeroAmountExportsEmpty`).
- The roster reader drops only empty lines (app.js:180). A line of spaces between two data
  lines is kept, and it becomes an entry named "Unknown" (`Csv.CsvLinesKeepBlank`,
  `Csv.BlankLineKept`).

## Model

| member | source | states |
|---|---|---|
| Strings.Trim | app.js:80 | the result neither starts nor ends with a space, and it is the slice of the input whose surroundings are all space characters |
| Strings.TrimIdempotent | app.js:80-83 | trimming an already trimmed value (each quick-entry part) changes nothing |
| Strings.Split | app.js:83 | `split` on a one-character separator gives at least one piece, none containing the separator |
| Strings.JoinSplit | app.js:83 | joining the pieces of a split with the same separator restores the string |
| Strings.SplitJoin | app.js:149 | splitting a join of separator-free parts returns exactly those parts |
| Strings.Lower | app.js:181 | lower-casing keeps the length, turns each letter A-Z into the same letter in lower case (code point + 32), leaves every other character unchanged, and keeps a trimmed string trimmed |
| Strings.LowerOfLower | app.js:181 | lower-casing a string with no upper-case letter changes nothing |
| Strings.Join | app.js:149 | joining no parts gives the empty string; a join starts with its first part, and the separator follows it when there is a second part |
| Strings.IntToDecimal | app.js:149 | the rendering of a number is non-empty and starts with `-` exactly for negatives; the rest is digits without leading zeros (only 0 is written `0`) that read back as the number's absolute value |
| Strings.DecimalRoundTrip | app.js:149 | the digits written for a non-negative number read back as that number |
| Seqs.Filter | app.js:219 | `filter` returns a subsequence of its input in which every element passes, and returns the input itself when every element passes |
| Seqs.FilterCount | app.js:219 | `filter` keeps every element that passes as often as it occurs, and drops every element that fails |
| Seqs.FilterIdempotent | app.js:219 | filtering twice with the same test is filtering once |
| Seqs.FirstIndex | app.js:74 | `find` stops at the first element with the key, or finds none when no element has it |
| Seqs.RemoveKey | app.js:71 | delete-by-id leaves no element with that id, keeps every other element in order, and changes nothing when the id is absent |
| Seqs.RemovePresentKey | app.js:71 | with unique ids, deleting a present id removes exactly one element and the ids stay unique |
| Seqs.SubsequenceUniqueKeys | app.js:219 | whatever a filter keeps of a list with unique ids still has unique ids |
| TaskInput.TrimAll | app.js:83 | trimming every part keeps the number of parts, leaves each part trimmed, and adds no character |
| TaskInput.PartOrChoice | app.js:84-87 | a part that is present and non-empty is taken as the field; a missing or empty part gives the default, so a non-empty default always gives a non-empty field |
| TaskInput.ParseTaskInput | app.js:80-87 | blank input yields no task; otherwise title, category and owner are non-empty, and all four fields are trimmed and free of the pipe character |
| TaskInput.ParseJoinedParts | app.js:80-87 | any pipe-free parts joined with the pipe character, whose join is not blank, parse to the first four parts each trimmed, with "New Task", "General", "Unassigned" and "" for the missing ones and those empty after trimming |
| TaskInput.TrimAllSplitTrim | app.js:80-83 | trimming the whole entry before splitting it on the pipe character changes none of the trimmed parts |
| TaskInput.ParseTaskInputRoundTrip | app.js:83-87 | any well-formed task, written in shorthand with any extra parts, parses back to itself |
| Csv.CellText | app.js:149 | a missing value, "" and 0 all render as the empty cell; text renders as itself; a non-zero amount renders as its decimal text |
| Csv.DoubleQuotes | app.js:149 | doubling quotes makes a value longer by exactly its number of quotes, and leaves a quote-free value unchanged |
| Csv.QuoteField | app.js:149 | a field is its value, quotes doubled, between two quotes |
| Csv.QuoteFieldRoundTrip | app.js:149 | read by the rules of section 2 of RFC 4180, a quoted field gives back the value written |
| Csv.DoubleUndouble | app.js:149 | every field inside that an RFC 4180 reader accepts is the doubling of what it reads, so every quote of a value must be doubled |
| Csv.UnquoteQuoteField | app.js:149 | every field an RFC 4180 reader accepts is exactly the quoted field written for the value it reads |
| Csv.LoneQuoteRejected | app.js:149 | a field with an undoubled quote inside, such as `"a"b"`, is not valid RFC 4180 |
| Csv.QuotedCells | app.js:149 | a record gives one quoted field per header, and each reads back (RFC 4180) as the record's value under that header |
| Csv.RowLineQuoted | app.js:149 | a record's line starts with a quote and ends with a quote |
| Csv.ExportCSV | app.js:149 | the export starts with the header names joined by commas, and a line feed follows them when there is a record |
| Csv.TaskRow | app.js:158 | the exported record of a task holds its title, category, owner, status name and deadline under the matching headers |
| Csv.RosterRow | app.js:160 | the exported record of a participant holds the name, role and contact under the matching headers |
| Csv.BudgetRow | app.js:161 | the exported record of a budget line holds its item and category; each amount is empty when 0 and its decimal text otherwise |
| Csv.ExportTasksCSV | app.js:156-158 | tasks.csv starts with `task,category,owner,status,deadline`, and a line feed follows when there is a task |
| Csv.ExportRosterCSV | app.js:160 | roster.csv starts with `name,role,contact`, and a line feed follows when there is a participant |
| Csv.ExportBudgetCSV | app.js:161 | budget.csv starts with `item,category,estimated,actual`, and a line feed follows when there is a budget line |
| Csv.ExportCSVLines | app.js:149 | without line breaks in values, the export has one header line (names joined by commas) plus one line per record, in order |
| Csv.RowLineFields | app.js:149 | without commas in values, a record's line splits into its fields, each reading back (RFC 4180) as the value written |
| Csv.ZeroAmountExportsEmpty | app.js:161 | a budget amount of 0 is exported as an empty quoted field |
| Csv.SplitLines | app.js:180 | splitting on `\r?\n` gives as many pieces as splitting on line feeds alone, and no piece holds a line feed |
| Csv.SplitLinesCRLF | app.js:180 | lines written with CRLF endings come back from the line split exactly as written |
| Csv.CsvLines | app.js:179-180 | the reader's lines, after trimming, splitting on `\r?\n` and dropping empty lines, are all non-empty |
| Csv.CsvLinesEmpty | app.js:179-181 | the reader has no header line exactly when the trimmed text is empty |
| Csv.HeaderNames | app.js:181 | one header name per comma-separated piece, each trimmed and without an upper-case letter |
| Csv.StripQuotes | app.js:183 | one leading and one trailing quote are removed, each only when present; a lone quote becomes empty; a cell without outer quotes is unchanged |
| Csv.StripOuterQuotes | app.js:183 | a value written between two quotes reads back without them |
| Csv.CellValues | app.js:183 | one cell per comma-separated piece, each trimmed and comma-free |
| Csv.CellValuesOfJoin | app.js:183 | a line made of comma-free cells reads as those cells, each with its outer quotes removed and trimmed |
| Csv.Column | app.js:185-186 | the value under a header name is the cell of the last column with that name, or "" when there is none |
| Csv.ImportedEntry | app.js:183-186 | an imported entry has the generated id, the name column (or "Unknown"), the role and contact columns, and no attendance or notes |
| Csv.ImportEntries | app.js:182-187 | one entry per data line, each with its own generated id and a non-empty name |
| Csv.ImportedRoster | app.js:179-187 | a blank text gives no entry; otherwise one entry per data line after the header line, each with its own generated id and a non-empty name |
| Csv.ReadExportedCell | app.js:183 | for a value without outer spaces, the reader turns its exported field back into the value with the quotes still doubled |
| Csv.ReadHeaderLine | app.js:181 | a header line of comma-free names reads as those names, each trimmed and lower-cased |
| Csv.ReadPlainHeaderLine | app.js:181 | lower-case header names without spaces or commas read back as themselves |
| Csv.CsvLinesOfJoin | app.js:179-180 | lines that are non-empty, break-free and trimmed at the ends come back from the reader exactly |
| Csv.CsvLinesKeepBlank | app.js:179-180 | non-empty lines without line feeds or a trailing carriage return, the first not starting and the last not ending with a space, come back from the reader exactly, lines of spaces among them included |
| Csv.BlankLineKept | app.js:180 | a line of spaces between a header line and a name is kept as a data line |
| Csv.ReadExportedLines | app.js:179-180 | the reader sees an export with safe values as its header line followed by one line per record |
| Csv.ReadExportedRosterEntry | app.js:183-186 | for values without commas, line breaks or outer spaces, the exported line of one participant reads back as that participant, quotes doubled, "Unknown" for an empty name |
| Csv.RosterCsvReimport | app.js:160-186 | for values without commas, line breaks or outer spaces, re-importing roster.csv gives one entry per exported entry, in order, with each value's quotes doubled |
| Csv.RosterCsvRoundTrip | app.js:160-186 | named participants whose values have no quotes, commas, line breaks or outer spaces survive export and re-import unchanged |
| Csv.QuotedValueNotRecovered | app.js:183 | a name with a quote in it does not come back unchanged from export and re-import |
| Csv.ImportedCommaFree | app.js:183-186 | no name, role or contact read from a roster file holds a comma |
| Csv.CommaValueNotRecovered | app.js:183 | a name with a comma in it comes back from export and re-import in no entry at all |
| Html.EscapeChar | app.js:194 | each of `& < > " '` becomes an entity `&...;`; every other character stays itself |
| Html.EscapeHtml | app.js:194 | escaped text holds no `<`, `>`, `"` or `'`, is never shorter, and text with none of the five characters is unchanged |
| Html.UnescapeEscape | app.js:194 | decoding escaped text gives back the original: escaping loses nothing |
| Html.EscapeTwiceDiffers | app.js:194 | escaping is not idempotent: an ampersand escaped twice becomes `&amp;amp;` |
| Store.SumBounds | app.js:118-121 | the totals of no lines are 0; with no negative amount, a total is non-negative and at least every single amount |
| Store.SumAppend | app.js:118-121 | the totals of two lists placed end to end add up |
| Store.SumSplit | app.js:118-121 | a total is the part before a line, plus that line, plus the part after it |
| Store.SumSetEstimated | app.js:135 | changing one estimate moves the estimated total by the difference and leaves the actual total alone |
| Store.SumSetActual | app.js:136 | changing one actual amount moves the actual total by the difference and leaves the estimated total alone |
| Store.AppState.constructor | app.js:4-9 | the initial state has no date and three empty lists, and is valid |
| Store.AppState.LoadDefaults | app.js:21-27 | the sample state has the event date and the two sample tasks, no budget and no roster, and is valid |
| Store.AppState.SetEventDate | app.js:204 | the date picker sets the event date and changes nothing else |
| Store.AppState.AddTaskFromInput | app.js:78-91 | a task is added exactly when the trimmed input is non-empty; it is appended as the parsed fields with status Pending and the new id; ids stay unique |
| Store.AppState.DeleteTask | app.js:71 | the tasks become the delete-by-id of the old tasks, one fewer when the id was present; ids stay unique |
| Store.AppState.SetTaskStatus | app.js:74 | when some task has the id, the first one takes the new status and nothing else changes; otherwise nothing changes |
| Store.AppState.ClearDone | app.js:219 | no Done task remains and every other task stays, in its original order |
| Store.AppState.AddRoster | app.js:106-113 | an entry is added exactly when the trimmed name is non-empty, with the trimmed role, an empty contact, attendance and notes |
| Store.AppState.DeleteRoster | app.js:103 | the roster becomes the delete-by-id of the old roster, one fewer when the id was present |
| Store.AppState.ImportRosterCSV | app.js:176-191 | blank text changes nothing (the handler throws); otherwise the roster gains exactly the entries read from the file, in file order, one per data line |
| Store.AppState.AppendImported | app.js:182-187 | the loop appends one entry per data line, in order, with unique ids |
| Store.AppState.AddBudget | app.js:139-145 | a line is added exactly when the trimmed item is non-empty, as a General line with the estimate and actual 0, raising the estimated total by the estimate |
| Store.AppState.DeleteBudget | app.js:134 | the budget becomes the delete-by-id of the old budget, one fewer when the id was present |
| Store.AppState.SetBudgetEstimated | app.js:135 | the first line with the id takes the new estimate, and the estimated total moves by the difference; an unknown id changes nothing |
| Store.AppState.SetBudgetActual | app.js:136 | the first line with the id takes the new actual amount, and the actual total moves by the difference; an unknown id changes nothing |
| Store.AppState.Totals | app.js:118-121 | the loop computes the sum of the estimates and the sum of the actual amounts over all lines |
| Store.NewKeyStaysUnique | app.js:88 | appending an element with an unused id keeps the ids unique |
| Store.ReplaceKeepsKeys | app.js:74 | updating an element in place without changing its id keeps the ids unique |
| Store.RemovalKeeps | app.js:71 | delete-by-id keeps ids unique and keeps only elements that were there |
| Store.ImportedIdFresh | app.js:186 | the id generated for an imported line is used by no earlier entry |

## Left out

- Rendering: the list templates, the `selected` markers, the `—` placeholder for a missing deadline and the countdown text are DOM output. `escapeHtml` is modelled on its own.
- Persistence: `saveState`, `loadState`'s reading of saved JSON and the reset button use `localStorage`. `LoadDefaults` models only the branch taken when nothing was saved.
- JSON export and import (`exportAllJSON`, `importAllJSON`): browser downloads and `FileReader`, with `JSON.parse` merged into the state by `Object.assign`.
- The download half of `exportCSV` (Blob, object URL, the filename) and the file reading in `importRosterCSV`. The model works on the CSV text.
- `updateCountdown` and the minute timer: they depend on the clock and on `dayjs`.
- `idGen`: random ids are replaced by id parameters. The methods require an unused id. The source only makes a clash unlikely.
- Amounts: `Number(...)` coercion of field text is not modelled. Amounts are exact unbounded integers, where JavaScript holds them as doubles. So NaN, fractions and the `|| 0` defaults of text fields do not arise. The `totalEst +=` / `totalActual +=` sums of app.js:120-121 lose precision beyond 2^53; `Totals`, `SumEstimated` and `SumActual` never round. `toString()` (app.js:149) writes amounts of 10^21 and more in exponent form (`1e+21`); `IntToDecimal` writes every digit.
- Task status: it is the enumeration of the selector's three options. A status string from an imported JSON file is not modelled.
- Alerts and clearing the input fields after an add are page effects. The model returns `ok = false` instead of alerting.
- Strings.Lower: lower-cases only the ASCII letters A-Z, where `toLowerCase` also maps other Unicode letters.
- Csv.UnquoteField: a reference reader for one quoted field by section 2 of RFC 4180, not a reader of whole records; unquoted fields and line breaks inside quotes are not read by it.
- Html.UnescapeHtml: a reference decoder for the five entities the escaper writes, not a full HTML entity decoder.
