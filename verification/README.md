# Contact store with CSV export and import — a Dafny model

This project models the core of the Android contact manager `sqlitedatamigrator`:

- `MyDatabaseHelper` (DBHelper.kt) keeps one SQLite table, `contacts`. Its
  `id` column is `INTEGER PRIMARY KEY AUTOINCREMENT`, and there are three text
  columns: `name`, `phone` and `email`. The helper adds, lists (highest id
  first), updates and deletes rows.
- `exportToCSV` (MainActivity.kt) writes a header line, then one
  `name,phone,email` line per contact, in listing order.
- `importFromCSV` (MainActivity.kt) skips the first line. It splits each later
  line on `,`, trims the first three pieces, and adds a contact for every line
  with at least three pieces. It reports how many lines it handed to the store.
- The save button of the input sheet (MainActivity.kt) writes a contact only
  when all three fields are non-empty.

The model is functional:

- The table is a `Store`: a map from id to `Row`, plus the AUTOINCREMENT
  sequence value `lastId`, which is the largest id ever issued.
- Each helper call is a function from store to store, together with what the
  call returns.
- A file is a `string`. Its lines are obtained with a model of
  `BufferedReader.readLine()`, which breaks at "\n", "\r" and "\r\n". Lines are
  written with `newLine()`, which writes "\n".
- A read failure is a parameter: the index of the `readLine()` call that throws.

Modules, one file each:

- `Wrappers` (wrappers.dfy): `Option`.
- `Sequences` (sequences.dfy): reversal and regrouping of concatenations.
- `Text` (text.dfy): Kotlin's `trim()` with the exact whitespace set of
  `Char.isWhitespace()`, `split(",")`, and line framing.
- `ContactStore` (contact_store.dfy): DBHelper.kt.
- `CsvTransfer` (csv_transfer.dfy): export, line parsing, the import loop, and
  the round trip.
- `SaveForm` (save_form.dfy): the non-empty-field guard of the save handler.
- `Scenarios` (scenarios.dfy): worked examples, stated for arbitrary rows.

Three behaviours of the code are worth knowing:

- The import count includes lines whose insert failed. The code counts every
  line with at least three pieces, whether or not `addContact` succeeded
  (`CsvTransfer.FailedInsertCounted`).
- Export then import returns the same rows only when every field is clean.
  No field may contain a comma, which would add a piece. No field may contain
  a line break: `readLine()` would split the line (`Text.BreakSplitsLine`).
  No field may have leading or trailing whitespace: import trims it. Under
  these conditions (`CsvTransfer.CleanStore`), importing into any empty table
  with room in its sequence gives back the same multiset of rows. They come
  in the reverse of the exported order, because import assigns ascending ids
  in file order while the file was written highest id first
  (`CsvTransfer.ExportImportRoundTrip`).
- Import does not apply the save handler's non-empty check. A line such as
  `a,b,` imports a contact whose email is empty (`SaveForm.ImportSkipsFilledCheck`).

## Model

| member | source | states |
|---|---|---|
| ContactStore.Fresh | app/src/main/java/com/example/sqlitedatamigrator/DBHelper.kt:22-29 | a newly created table is valid and lists no contact |
| ContactStore.OnUpgrade | app/src/main/java/com/example/sqlitedatamigrator/DBHelper.kt:31-34 | an upgrade drops and recreates the table: whatever it held, the table afterwards is valid and empty |
| ContactStore.AddContact | app/src/main/java/com/example/sqlitedatamigrator/DBHelper.kt:37-47 | the insert returns -1 exactly when the AUTOINCREMENT sequence is exhausted, and then the table is unchanged; otherwise the returned id is above every id ever issued and above every present id, the id set grows by exactly that id, the new row holds the given columns, and all other rows are unchanged |
| ContactStore.Listing | app/src/main/java/com/example/sqlitedatamigrator/DBHelper.kt:50-69 | `getAllContacts` on a valid table returns every row exactly once with its own columns, in strictly descending id order (an empty table gives an empty list); `ContactStore.EnumerationUnique` shows no other list has that property |
| ContactStore.ListingEnumerates | app/src/main/java/com/example/sqlitedatamigrator/DBHelper.kt:50-69 | the listing holds every row exactly once with its own columns, in strictly descending id order (empty for an empty table) |
| ContactStore.EnumerationUnique | app/src/main/java/com/example/sqlitedatamigrator/DBHelper.kt:53 | any sequence that lists every row once, highest id first, equals the listing: `ORDER BY id DESC` fixes it completely |
| ContactStore.ListingSize | app/src/main/java/com/example/sqlitedatamigrator/DBHelper.kt:50-69 | the listing has exactly one entry per row of the table |
| ContactStore.ListingAfterAdd | app/src/main/java/com/example/sqlitedatamigrator/DBHelper.kt:37-53 | after a successful add, the listing is the new contact followed by the old listing |
| ContactStore.UpdateContact | app/src/main/java/com/example/sqlitedatamigrator/DBHelper.kt:72-82 | the update reports 0 or 1, and 1 exactly when the id is present; with 0 the table is unchanged; the id set and the sequence are unchanged, the row at the id gets the new columns, and every other row is unchanged |
| ContactStore.ListingAfterUpdate | app/src/main/java/com/example/sqlitedatamigrator/DBHelper.kt:72-82 | after an update, the listing keeps its order and ids, and only the updated entry shows the new columns |
| ContactStore.DeleteContact | app/src/main/java/com/example/sqlitedatamigrator/DBHelper.kt:85-89 | a delete removes exactly that id from the id set and leaves the other rows and the sequence unchanged; an absent id changes nothing |
| ContactStore.ListingAfterDelete | app/src/main/java/com/example/sqlitedatamigrator/DBHelper.kt:85-89 | after a delete, the listing is the old listing with that id's entry removed, other entries kept in order |
| ContactStore.Apply | app/src/main/java/com/example/sqlitedatamigrator/DBHelper.kt:37-89 | every add, update or delete keeps the table valid and never lowers the sequence |
| ContactStore.Run | app/src/main/java/com/example/sqlitedatamigrator/DBHelper.kt:37-89 | any sequence of calls keeps the table valid and never lowers the sequence |
| ContactStore.IdsNeverReused | app/src/main/java/com/example/sqlitedatamigrator/DBHelper.kt:22-47 | over any sequence of adds, updates and deletes, the issued ids strictly increase and lie above every id issued before, so a deleted id is never issued again |
| Text.LeadingSpace | app/src/main/java/com/example/sqlitedatamigrator/MainActivity.kt:195-197 | the count of leading whitespace characters: all of them are whitespace, and the next character (if any) is not |
| Text.TrailingSpace | app/src/main/java/com/example/sqlitedatamigrator/MainActivity.kt:195-197 | the count of trailing whitespace characters: all of them are whitespace, and the character before them (if any) is not |
| Text.Trim | app/src/main/java/com/example/sqlitedatamigrator/MainActivity.kt:195-197 | `trim()` returns the contiguous slice left after removing whitespace from both ends; the result has no whitespace at either end, only whitespace was removed, and a string with no whitespace at either end is returned unchanged |
| Text.Split | app/src/main/java/com/example/sqlitedatamigrator/MainActivity.kt:192 | `split(",")` returns one more piece than there are commas, keeps empty pieces, no piece contains a comma, and joining the pieces with commas gives back the line |
| Text.SplitJoin | app/src/main/java/com/example/sqlitedatamigrator/MainActivity.kt:192 | splitting comma-free pieces joined by commas gives back the pieces |
| Text.ReadLines | app/src/main/java/com/example/sqlitedatamigrator/MainActivity.kt:186-191 | each line `readLine()` returns is free of line breaks, and an empty text yields no line at all |
| Text.ReadWriteLines | app/src/main/java/com/example/sqlitedatamigrator/MainActivity.kt:163-170 | lines written with `newLine()` read back as the same lines, provided none contains a line break |
| Text.UnterminatedLastLine | app/src/main/java/com/example/sqlitedatamigrator/MainActivity.kt:191 | a final line without a terminator is still read |
| Text.BreakSplitsLine | app/src/main/java/com/example/sqlitedatamigrator/MainActivity.kt:168-169 | a field holding a "\n" between two break-free parts is written as one line but read back as those two parts |
| CsvTransfer.RecordLine | app/src/main/java/com/example/sqlitedatamigrator/MainActivity.kt:168 | a contact's line is its three columns joined by commas, in name, phone, email order |
| CsvTransfer.ExportLines | app/src/main/java/com/example/sqlitedatamigrator/MainActivity.kt:163-170 | the export holds the header line, then one line per contact of the listing, in listing order |
| CsvTransfer.ExportToCsv | app/src/main/java/com/example/sqlitedatamigrator/MainActivity.kt:158-179 | fields are written verbatim, with no quoting or escaping: whenever no field contains a line break (commas and edge whitespace included), reading the exported text line by line gives exactly the header and the record lines |
| CsvTransfer.RecordLineSingle | app/src/main/java/com/example/sqlitedatamigrator/MainActivity.kt:168 | a contact whose fields have no line break is exported as one line |
| CsvTransfer.ParseLine | app/src/main/java/com/example/sqlitedatamigrator/MainActivity.kt:192-198 | a line yields a row exactly when it has at least two commas (three pieces); the three fields are trimmed and free of commas; their values are fixed by `CsvTransfer.ThreePieces` and `CsvTransfer.ExtraPiecesIgnored` |
| CsvTransfer.ParseRecordLine | app/src/main/java/com/example/sqlitedatamigrator/MainActivity.kt:192-198 | the exported line of a contact with clean fields parses back to that contact's columns |
| CsvTransfer.ThreePieces | app/src/main/java/com/example/sqlitedatamigrator/MainActivity.kt:192-198 | a line of exactly three pieces gives the row of those three pieces trimmed, in order |
| CsvTransfer.ExtraPiecesIgnored | app/src/main/java/com/example/sqlitedatamigrator/MainActivity.kt:192-198 | with four or more pieces, only the first three are used (trimmed) and the rest is ignored |
| CsvTransfer.LineRows | app/src/main/java/com/example/sqlitedatamigrator/MainActivity.kt:193 | a line contributes at most one row, and exactly one when it has at least two commas |
| CsvTransfer.ImportLine | app/src/main/java/com/example/sqlitedatamigrator/MainActivity.kt:192-200 | one loop turn counts 1 exactly for a line that parses and then adds its row; any other line counts 0 and changes nothing |
| CsvTransfer.ImportRows | app/src/main/java/com/example/sqlitedatamigrator/MainActivity.kt:191-201 | the loop counts the lines that parse, only appends (every existing row is kept unchanged), and advances the sequence by one per counted line, up to the largest rowid |
| CsvTransfer.MalformedLineSkipped | app/src/main/java/com/example/sqlitedatamigrator/MainActivity.kt:193-200 | a line with fewer than two commas is neither added nor counted |
| CsvTransfer.FailedInsertCounted | app/src/main/java/com/example/sqlitedatamigrator/MainActivity.kt:194-199 | a line that parses is counted even when the insert fails because the sequence is exhausted |
| CsvTransfer.ImportSplit | app/src/main/java/com/example/sqlitedatamigrator/MainActivity.kt:191-201 | importing `a + b` is importing `a`, then `b` into the result, with the counts added: lines are applied in order |
| CsvTransfer.ImportRowsIsAddAll | app/src/main/java/com/example/sqlitedatamigrator/MainActivity.kt:191-201 | the loop equals parsing every line first, then adding the parsed rows in order, with the count equal to the number of parsed rows |
| CsvTransfer.ImportListing | app/src/main/java/com/example/sqlitedatamigrator/MainActivity.kt:191-201 | while the sequence has room, the listing after import is the parsed rows under consecutive new ids (the last line first) on top of the old listing |
| CsvTransfer.ImportFromCsv | app/src/main/java/com/example/sqlitedatamigrator/MainActivity.kt:181-210 | the first line is dropped and the rest are imported; a read failure reports no count but keeps the rows added before the failing read (none if the header read fails); rows already in the table are never changed |
| CsvTransfer.FailedImportResumes | app/src/main/java/com/example/sqlitedatamigrator/MainActivity.kt:207-209 | re-running the lines left after a failed read, from the table the failure left, gives the table a complete import would give |
| CsvTransfer.ResumeRows | app/src/main/java/com/example/sqlitedatamigrator/MainActivity.kt:191-201 | importing the lines from position j on, from the table the first j lines produced, gives the table of importing all of them |
| CsvTransfer.HeaderIgnored | app/src/main/java/com/example/sqlitedatamigrator/MainActivity.kt:186 | two files that differ only in their first line import identically |
| CsvTransfer.ExportedBodyParses | app/src/main/java/com/example/sqlitedatamigrator/MainActivity.kt:163-198 | the exported record lines of clean contacts parse back to the listing's rows, in listing order |
| CsvTransfer.ExportImportRoundTrip | app/src/main/java/com/example/sqlitedatamigrator/MainActivity.kt:158-210 | exporting clean contacts and importing into any empty table whose sequence has room (fresh, or emptied by deletes) succeeds, counts one per contact, and gives the same rows in reverse order, hence the same multiset |
| CsvTransfer.ExportImportFresh | app/src/main/java/com/example/sqlitedatamigrator/MainActivity.kt:158-210 | the round trip into a newly created table: it succeeds, counts one per contact, and gives the same multiset of rows |
| SaveForm.Save | app/src/main/java/com/example/sqlitedatamigrator/MainActivity.kt:125-143 | with an empty field nothing is written; with all fields filled, the contact the sheet was opened for is updated, or a new contact is added when none was; no row is removed, and every row written is filled |
| SaveForm.SaveKeepsFilled | app/src/main/java/com/example/sqlitedatamigrator/MainActivity.kt:130 | a table whose rows are all filled stays so under any save |
| SaveForm.TrailingEmptyField | app/src/main/java/com/example/sqlitedatamigrator/MainActivity.kt:192-198 | a line of two fields without commas or edge whitespace followed by a trailing comma, such as `a,b,`, parses to a row with an empty email |
| SaveForm.ImportSkipsFilledCheck | app/src/main/java/com/example/sqlitedatamigrator/MainActivity.kt:193-199 | for such a line, save refuses the row with the empty email, while import adds and counts it, leaving a table that is not all filled |
| Scenarios.AddTwoThenList | app/src/main/java/com/example/sqlitedatamigrator/DBHelper.kt:37-53 | adding `a`, then `b`, to a fresh table lists `b` with id 2 before `a` with id 1 |
| Scenarios.ExportTwo | app/src/main/java/com/example/sqlitedatamigrator/MainActivity.kt:163-170 | the export of that table is the header, then `b`'s line, then `a`'s, each ended by "\n" |
| Scenarios.ImportWithMalformedLine | app/src/main/java/com/example/sqlitedatamigrator/MainActivity.kt:186-201 | importing a header, a good line, a malformed line and an unterminated good line into a fresh table reports 2, and lists the second good row (id 2) before the first (id 1) |

## Left out

- The user interface is not part of this model: the activity, the bottom
  sheet, toasts, `refreshData`, the document pickers and ContactAdapter.kt.
- Opening and closing the database (`writableDatabase`, `close()`) is left
  out, as is the framework's version check that decides when `onUpgrade`
  runs. `OnUpgrade` takes the version numbers but ignores them, as the code
  does.
- SQLite errors other than an exhausted AUTOINCREMENT sequence are left out:
  disk full, I/O errors and locking. `addContact` is modelled as always
  succeeding while the sequence has room.
- CsvTransfer.ImportRows: the count is a `nat`. In the code it is a Kotlin
  `Int`, which would wrap after 2^31 - 1 counted lines; the model does not
  reproduce that wrap-around.
- ContactStore.ListingEnumerates: ids are kept as 64-bit rowids. The code
  reads them with `cursor.getInt` and passes them back to `updateContact` and
  `deleteContact` as Kotlin `Int`. Ids above 2^31 - 1 would be truncated
  there; the model does not reproduce that truncation.
- CsvTransfer.ExportToCsv: always produces the complete text. Three things
  are left out. If `openOutputStream` returns null, the code writes nothing
  yet reports success. A write failure may leave partial output on the
  destination. `BufferedWriter` buffering is not modelled.
- CsvTransfer.ImportFromCsv: a failure of `reader.close()` after the loop is
  left out; the model would report the count. Character decoding of the
  input stream is left out: the text is taken as already decoded.
- Kotlin strings are UTF-16; the model uses Dafny's Unicode scalar
  characters. Every whitespace character and every delimiter involved lies
  in the Basic Multilingual Plane, so trimming and splitting agree.
- Concurrency is left out: the code calls the store from one thread.
