/**
 * Bulk transfer between the contacts table and a comma-separated text file:
 * `exportToCSV` writes a fixed header and one unescaped `name,phone,email` line per
 * contact in listing order; `importFromCSV` skips the first line and adds one
 * contact for every later line that splits into at least three pieces.
 */
module CsvTransfer {
  import opened Wrappers
  import opened Text
  import opened ContactStore
  import opened Sequences

  /** The header line written first on export. */
  const Header: string := "Name,Phone,Email"

  /** The field delimiter. */
  const Comma: char := ','

  /** The exported line of one contact: its three columns joined by commas,
      written verbatim without quoting. */
  function RecordLine(c: Contact): (line: string)
    ensures line == Join([c.row.name, c.row.phone, c.row.email], Comma)
  {
    var parts := [c.row.name, c.row.phone, c.row.email];
    assert parts[1..] == [c.row.phone, c.row.email];
    assert parts[1..][1..] == [c.row.email];
    assert Join(parts[1..], Comma) == c.row.phone + [Comma] + c.row.email;
    assert Join(parts, Comma) == c.row.name + [Comma] + (c.row.phone + [Comma] + c.row.email);
    assert c.row.name + "," + c.row.phone + "," + c.row.email
        == c.row.name + [Comma] + (c.row.phone + [Comma] + c.row.email);
    c.row.name + "," + c.row.phone + "," + c.row.email
  }

  /** The record lines of a listing, in listing order. */
  function RecordLines(l: seq<Contact>): (r: seq<string>)
    ensures |r| == |l|
    ensures forall i :: 0 <= i < |l| ==> r[i] == RecordLine(l[i])
  {
    if |l| == 0 then [] else [RecordLine(l[0])] + RecordLines(l[1..])
  }

  /** The lines `exportToCSV` writes: the header, then one line per contact of the
      listing, in listing order (highest id first). */
  function ExportLines(s: Store): (r: seq<string>)
    requires Valid(s)
    ensures |r| == |Listing(s)| + 1
    ensures r[0] == Header
    ensures forall i :: 0 <= i < |Listing(s)| ==> r[i + 1] == RecordLine(Listing(s)[i])
  {
    [Header] + RecordLines(Listing(s))
  }

  /** A field that survives the unescaped format: no comma, no line break, and no
      whitespace at either end (which `trim()` would strip on import). */
  predicate CleanField(f: string) {
    Comma !in f && SingleLine(f) && Trimmed(f)
  }

  /** All three columns are clean. */
  predicate CleanRow(row: Row) {
    CleanField(row.name) && CleanField(row.phone) && CleanField(row.email)
  }

  /** Every row of the store is clean. */
  predicate CleanStore(s: Store) {
    forall id :: id in s.rows ==> CleanRow(s.rows[id])
  }

  /** No column of any row contains a line break; every clean store is one. */
  predicate NoBreaks(s: Store) {
    forall id :: id in s.rows ==>
      SingleLine(s.rows[id].name) && SingleLine(s.rows[id].phone) && SingleLine(s.rows[id].email)
  }

  /** The text `exportToCSV` writes to the chosen document. Fields are written
      verbatim, commas and edge whitespace included: whenever no field holds a
      line break, reading the text back line by line gives exactly the exported
      lines. */
  function ExportToCsv(s: Store): (text: string)
    requires Valid(s)
    ensures NoBreaks(s) ==> ReadLines(text) == ExportLines(s)
  {
    var lines := ExportLines(s);
    if NoBreaks(s) then
      ExportedLinesSingle(s);
      ReadWriteLines(lines);
      WriteLines(lines)
    else
      WriteLines(lines)
  }

  /** When no field holds a line break, no exported line contains one. */
  lemma ExportedLinesSingle(s: Store)
    requires Valid(s)
    requires NoBreaks(s)
    ensures forall k :: 0 <= k < |ExportLines(s)| ==> SingleLine(ExportLines(s)[k])
  {
    var lines := ExportLines(s);
    var l := Listing(s);
    ListingEnumerates(s);
    forall k | 0 <= k < |lines|
      ensures SingleLine(lines[k])
    {
      if k == 0 {
        HeaderSingle();
      } else {
        var c := l[k - 1];
        assert c.id in s.rows && c.row == s.rows[c.id];
        RecordLineSingle(c);
      }
    }
  }

  /** The header is one line. */
  lemma HeaderSingle()
    ensures SingleLine(Header)
  {
  }

  /** The line of a contact whose columns have no line break has none either. */
  lemma RecordLineSingle(c: Contact)
    requires SingleLine(c.row.name) && SingleLine(c.row.phone) && SingleLine(c.row.email)
    ensures SingleLine(RecordLine(c))
  {
    var row := c.row;
    var line := RecordLine(c);
    assert line == row.name + "," + row.phone + "," + row.email;
    forall i | 0 <= i < |line| ensures !IsLineBreak(line[i]) {
      if i < |row.name| {
        assert line[i] == row.name[i];
      } else if i == |row.name| {
      } else if i < |row.name| + 1 + |row.phone| {
        assert line[i] == row.phone[i - |row.name| - 1];
      } else if i == |row.name| + 1 + |row.phone| {
      } else {
        assert line[i] == row.email[i - |row.name| - |row.phone| - 2];
      }
    }
  }

  /** One line of the import loop: `split(",")`, and when there are at least three
      pieces, a row of the first three pieces trimmed, in order; extra pieces are
      dropped. A line qualifies exactly when it has at least two commas, and the
      fields it yields contain no comma and no whitespace at either end. Empty
      fields are accepted. */
  function ParseLine(line: string): (r: Option<Row>)
    ensures r.Some? <==> Occurrences(line, Comma) >= 2
    ensures r.Some? ==> Trimmed(r.value.name) && Trimmed(r.value.phone) && Trimmed(r.value.email)
    ensures r.Some? ==> Comma !in r.value.name && Comma !in r.value.phone && Comma !in r.value.email
  {
    var tokens := Split(line, Comma);
    if |tokens| >= 3 then
      TrimKeepsOut(tokens[0], Comma);
      TrimKeepsOut(tokens[1], Comma);
      TrimKeepsOut(tokens[2], Comma);
      Some(Row(Trim(tokens[0]), Trim(tokens[1]), Trim(tokens[2])))
    else
      None
  }

  /** Trimming never introduces a character. */
  lemma TrimKeepsOut(s: string, c: char)
    requires c !in s
    ensures c !in Trim(s)
  {
    var r := Trim(s);
    var i := LeadingSpace(s);
    forall k | 0 <= k < |r| ensures r[k] != c {
      assert r[k] == s[i + k];
    }
  }

  /** The exported line of a clean row parses back to that row. */
  lemma ParseRecordLine(c: Contact)
    requires CleanRow(c.row)
    ensures ParseLine(RecordLine(c)) == Some(c.row)
  {
    var parts := [c.row.name, c.row.phone, c.row.email];
    var line := RecordLine(c);
    SplitJoin(parts, Comma);
    assert Split(line, Comma) == parts;
    assert Trim(parts[0]) == c.row.name;
    assert Trim(parts[1]) == c.row.phone;
    assert Trim(parts[2]) == c.row.email;
  }

  /** A line of exactly three pieces `a`, `b`, `c` gives the row of those three
      trimmed. */
  lemma ThreePieces(a: string, b: string, c: string)
    requires Comma !in a && Comma !in b && Comma !in c
    ensures ParseLine(a + "," + b + "," + c) == Some(Row(Trim(a), Trim(b), Trim(c)))
  {
    var parts := [a, b, c];
    var line := RecordLine(Contact(0, Row(a, b, c)));
    assert line == a + "," + b + "," + c;
    SplitJoin(parts, Comma);
    assert Split(line, Comma) == parts;
  }

  /** Pieces after the third do not matter: a line whose first three pieces are
      `a`, `b`, `c` gives the row of those three trimmed, whatever follows. */
  lemma ExtraPiecesIgnored(a: string, b: string, c: string, rest: string)
    requires Comma !in a && Comma !in b && Comma !in c
    ensures ParseLine(a + "," + b + "," + c + "," + rest) == Some(Row(Trim(a), Trim(b), Trim(c)))
  {
    var line := a + "," + b + "," + c + "," + rest;
    assert line == a + [Comma] + (b + [Comma] + (c + [Comma] + rest));
    SplitAfterPiece(c, Comma, rest);
    SplitAfterPiece(b, Comma, c + [Comma] + rest);
    SplitAfterPiece(a, Comma, b + [Comma] + (c + [Comma] + rest));
    var tokens := Split(line, Comma);
    assert tokens == [a] + ([b] + ([c] + Split(rest, Comma)));
    assert tokens[0] == a && tokens[1] == b && tokens[2] == c;
  }

  /** The row one line yields: one row when it parses, none otherwise. */
  function LineRows(line: string): (r: seq<Row>)
    ensures |r| <= 1
    ensures |r| == 1 <==> Occurrences(line, Comma) >= 2
  {
    match ParseLine(line)
    case Some(row) => [row]
    case None => []
  }

  /** The rows that the lines yield, in line order. */
  function Parsed(lines: seq<string>): (r: seq<Row>)
    ensures |r| <= |lines|
  {
    if |lines| == 0 then [] else LineRows(lines[0]) + Parsed(lines[1..])
  }

  /** A line in front contributes its rows in front. */
  lemma ParsedCons(line: string, rest: seq<string>)
    ensures Parsed([line] + rest) == LineRows(line) + Parsed(rest)
  {
    assert ([line] + rest)[1..] == rest;
  }

  /** Store and counter after the import loop. */
  datatype Imported = Imported(store: Store, count: nat)

  /** One turn of the import loop: a line that parses is handed to `addContact`
      and counted once, whether or not the insert succeeded; any other line is
      skipped, uncounted, and leaves the store as it was. */
  function ImportLine(s: Store, line: string): (r: Imported)
    requires Valid(s)
    ensures Valid(r.store)
    ensures r.count == |LineRows(line)|
    ensures r.count == 0 ==> r.store == s
    ensures r.count == 1 ==> r.store == AddContact(s, LineRows(line)[0]).store
  {
    match ParseLine(line)
    case Some(row) => Imported(AddContact(s, row).store, 1)
    case None => Imported(s, 0)
  }

  /** The import loop over the lines after the header, as a left fold of
      `ImportLine`. The count is the number of lines that parse; rows already in
      the store are neither changed nor removed, and the sequence advances by one
      per counted line up to the largest rowid. */
  function ImportRows(s: Store, lines: seq<string>): (r: Imported)
    requires Valid(s)
    ensures Valid(r.store)
    ensures r.count == |Parsed(lines)|
    ensures r.store.lastId == if s.lastId + r.count <= MaxRowId then s.lastId + r.count else MaxRowId
    ensures forall id :: id in s.rows ==> id in r.store.rows && r.store.rows[id] == s.rows[id]
    decreases |lines|
  {
    if |lines| == 0 then Imported(s, 0)
    else
      var first := ImportLine(s, lines[0]);
      var rest := ImportRows(first.store, lines[1..]);
      Imported(rest.store, first.count + rest.count)
  }

  /** Malformed lines (fewer than two commas) are skipped: they add nothing and are
      not counted. */
  lemma MalformedLineSkipped(s: Store, line: string, rest: seq<string>)
    requires Valid(s)
    requires Occurrences(line, Comma) < 2
    ensures ImportRows(s, [line] + rest) == ImportRows(s, rest)
  {
    assert ([line] + rest)[1..] == rest;
  }

  /** The count is of lines handed to `addContact`, not of rows created: once
      the sequence is exhausted every well-formed line is still counted although
      the insert fails and the table stays as it was. */
  lemma FailedInsertCounted(s: Store, line: string)
    requires Valid(s)
    requires s.lastId == MaxRowId
    requires Occurrences(line, Comma) >= 2
    ensures ImportRows(s, [line]) == Imported(s, 1)
  {
    assert [line][1..] == [];
  }

  /** The import loop is a fold: importing `a + b` is importing `a`, then `b` into
      the result, with the counts added. Lines are therefore applied strictly in
      input order. */
  lemma {:induction false} ImportSplit(s: Store, a: seq<string>, b: seq<string>)
    requires Valid(s)
    ensures var first := ImportRows(s, a);
            var second := ImportRows(first.store, b);
            ImportRows(s, a + b) == Imported(second.store, first.count + second.count)
    decreases |a|
  {
    if |a| == 0 {
      assert a + b == b;
    } else {
      assert (a + b)[1..] == a[1..] + b;
      assert (a + b)[0] == a[0];
      var t := ImportLine(s, a[0]).store;
      ImportSplit(t, a[1..], b);
    }
  }

  /** New contacts for `rows` stacked on top of sequence value `base`: the row at
      position i gets id base + 1 + i, and the highest id comes first, as the
      listing shows them. */
  function Stacked(base: int, rows: seq<Row>): (l: seq<Contact>)
    ensures |l| == |rows|
    decreases |rows|
  {
    if |rows| == 0 then [] else Stacked(base + 1, rows[1..]) + [Contact(base + 1, rows[0])]
  }

  /** Stacking a row below the others gives it the lowest new id, shown last. */
  lemma StackedCons(base: int, row: Row, rows: seq<Row>)
    ensures Stacked(base, [row] + rows) == Stacked(base + 1, rows) + [Contact(base + 1, row)]
  {
    assert ([row] + rows)[1..] == rows;
  }

  /** Importing a non-empty list of lines is importing its first line, then the rest. */
  lemma ImportRowsStep(s: Store, lines: seq<string>)
    requires Valid(s)
    requires |lines| > 0
    ensures var first := ImportLine(s, lines[0]);
            var rest := ImportRows(first.store, lines[1..]);
            ImportRows(s, lines) == Imported(rest.store, first.count + rest.count)
  {
  }

  /** `addContact` applied to each row in turn. */
  function AddAll(s: Store, rows: seq<Row>): (r: Store)
    requires Valid(s)
    ensures Valid(r)
    decreases |rows|
  {
    if |rows| == 0 then s else AddAll(AddContact(s, rows[0]).store, rows[1..])
  }

  /** The import loop is the same as parsing every line first and then adding the
      rows that parsed, in order: parsing never looks at the store. */
  lemma {:induction false} ImportRowsIsAddAll(s: Store, lines: seq<string>)
    requires Valid(s)
    ensures ImportRows(s, lines) == Imported(AddAll(s, Parsed(lines)), |Parsed(lines)|)
    decreases |lines|
  {
    if |lines| > 0 {
      var first := ImportLine(s, lines[0]);
      ImportRowsIsAddAll(first.store, lines[1..]);
      ImportRowsStep(s, lines);
      if first.count == 1 {
        var row := LineRows(lines[0])[0];
        assert Parsed(lines) == [row] + Parsed(lines[1..]);
        assert ([row] + Parsed(lines[1..]))[1..] == Parsed(lines[1..]);
      } else {
        assert Parsed(lines) == Parsed(lines[1..]);
      }
    }
  }

  /** Unless the sequence would pass the largest rowid, adding rows puts one new
      contact per row, with consecutive fresh ids in row order, in front of the
      old listing. */
  lemma {:induction false} AddAllListing(s: Store, rows: seq<Row>)
    requires Valid(s)
    requires s.lastId + |rows| <= MaxRowId
    ensures Listing(AddAll(s, rows)) == Stacked(s.lastId, rows) + Listing(s)
    decreases |rows|
  {
    if |rows| > 0 {
      var row := rows[0];
      var t := AddContact(s, row).store;
      var c := Contact(s.lastId + 1, row);
      var newer := Stacked(s.lastId + 1, rows[1..]);
      assert Listing(t) == [c] + Listing(s) by {
        ListingAfterAdd(s, row);
      }
      assert Listing(AddAll(t, rows[1..])) == newer + Listing(t) by {
        AddAllListing(t, rows[1..]);
      }
      assert Stacked(s.lastId, rows) == newer + [c] by {
        assert rows == [row] + rows[1..];
        StackedCons(s.lastId, row, rows[1..]);
      }
      assert AddAll(s, rows) == AddAll(t, rows[1..]);
      Regroup(newer, [c], Listing(s), Listing(t), Listing(AddAll(t, rows[1..])), Stacked(s.lastId, rows));
    }
  }

  /** Unless the sequence would pass the largest rowid, importing puts one new
      contact per parsed line, with consecutive fresh ids in line order, in front
      of the old listing. */
  lemma ImportListing(s: Store, lines: seq<string>)
    requires Valid(s)
    requires s.lastId + |Parsed(lines)| <= MaxRowId
    ensures Listing(ImportRows(s, lines).store) == Stacked(s.lastId, Parsed(lines)) + Listing(s)
  {
    ImportRowsIsAddAll(s, lines);
    AddAllListing(s, Parsed(lines));
  }

  /** The lines after the header; an empty file has none. */
  function Body(lines: seq<string>): seq<string>
  {
    if |lines| == 0 then [] else lines[1..]
  }

  /** What `importFromCSV` ends with: the count it reports, or a failure after
      which the rows added so far stay in the table. */
  datatype ImportOutcome = Done(store: Store, count: nat) | Failed(store: Store)

  /** `importFromCSV` on the text of the chosen document. `failure` is the index of
      the `readLine()` call that throws, if any: call 0 reads the header, call i
      the i-th line after it, and the call after the last line returns null and
      ends the loop; a stream that cannot be opened fails at call 0. The first line
      is dropped unread; the rest go through the import loop. On a failure the rows
      added for the lines before the failing read are kept (there is no rollback)
      and no count is reported. */
  function ImportFromCsv(s: Store, text: string, failure: Option<nat>): (r: ImportOutcome)
    requires Valid(s)
    ensures Valid(r.store)
    ensures forall id :: id in s.rows ==> id in r.store.rows && r.store.rows[id] == s.rows[id]
    ensures r.Failed? <==> failure.Some? && failure.value <= |Body(ReadLines(text))| + 1
    ensures r.Done? ==> r == Done(ImportRows(s, Body(ReadLines(text))).store,
                                  |Parsed(Body(ReadLines(text)))|)
    ensures r.Failed? && failure.value > 0 ==>
              r.store == ImportRows(s, Body(ReadLines(text))[..failure.value - 1]).store
    ensures r.Failed? && failure.value == 0 ==> r.store == s
  {
    var body := Body(ReadLines(text));
    if failure.Some? && failure.value <= |body| + 1 then
      if failure.value == 0 then Failed(s)
      else Failed(ImportRows(s, body[..failure.value - 1]).store)
    else
      var r := ImportRows(s, body);
      Done(r.store, r.count)
  }

  /** A failed import leaves exactly what completing it would build on: re-running
      the remaining lines from the failed state gives the same table as an import
      that never failed. */
  lemma {:induction false} FailedImportResumes(s: Store, text: string, k: nat)
    requires Valid(s)
    requires 1 <= k <= |Body(ReadLines(text))| + 1
    ensures var body := Body(ReadLines(text));
            var failed := ImportFromCsv(s, text, Some(k));
            ImportRows(failed.store, body[k - 1..]).store == ImportFromCsv(s, text, None).store
  {
    var body := Body(ReadLines(text));
    var failed := ImportFromCsv(s, text, Some(k));
    var full := ImportFromCsv(s, text, None);
    assert failed.store == ImportRows(s, body[..k - 1]).store by {
      assert failed.Failed?;
    }
    assert full.store == ImportRows(s, body).store by {
      assert full.Done?;
    }
    ResumeRows(s, body, k - 1);
  }

  /** Importing the lines from position `j` on, from the table the first `j`
      lines produced, gives the table of importing all of them. */
  lemma {:induction false} ResumeRows(s: Store, lines: seq<string>, j: nat)
    requires Valid(s)
    requires j <= |lines|
    ensures ImportRows(ImportRows(s, lines[..j]).store, lines[j..]).store == ImportRows(s, lines).store
  {
    var a, b := lines[..j], lines[j..];
    assert lines == a + b;
    ImportSplit(s, a, b);
  }

  /** The first line is ignored whatever it says: two files that differ only in
      their first line import the same way. */
  lemma HeaderIgnored(s: Store, h1: string, h2: string, rest: string, failure: Option<nat>)
    requires Valid(s)
    requires SingleLine(h1) && SingleLine(h2)
    ensures ImportFromCsv(s, h1 + "\n" + rest, failure) == ImportFromCsv(s, h2 + "\n" + rest, failure)
  {
    ReadLinesCons(h1, rest);
    ReadLinesCons(h2, rest);
  }

  /** The columns of a listing, in order. */
  function RowsOf(l: seq<Contact>): (r: seq<Row>)
    ensures |r| == |l|
    ensures forall i :: 0 <= i < |l| ==> r[i] == l[i].row
  {
    if |l| == 0 then [] else [l[0].row] + RowsOf(l[1..])
  }

  /** Stacked contacts show their rows in reverse order. */
  lemma {:induction false} StackedRows(base: int, rows: seq<Row>)
    ensures RowsOf(Stacked(base, rows)) == Reverse(rows)
    decreases |rows|
  {
    if |rows| > 0 {
      StackedRows(base + 1, rows[1..]);
    }
  }

  /** Parsing the exported record lines of clean contacts gives back their rows. */
  lemma {:induction false} ParseRecordLines(l: seq<Contact>)
    requires forall i :: 0 <= i < |l| ==> CleanRow(l[i].row)
    ensures Parsed(RecordLines(l)) == RowsOf(l)
    decreases |l|
  {
    if |l| > 0 {
      ParseRecordLine(l[0]);
      ParseRecordLines(l[1..]);
      assert RecordLines(l)[1..] == RecordLines(l[1..]);
    }
  }

  /** Round trip: exporting a store whose fields are all clean and importing the
      file into an empty table `t` (a fresh one, or one emptied by deletes, as
      long as its sequence has room for every row) reports one import per contact
      and yields the same rows, listed in reverse export order (the new ids follow
      the file order, while the listing shows the highest id first), hence the
      same multiset. */
  lemma ExportImportRoundTrip(s: Store, t: Store)
    requires Valid(s)
    requires CleanStore(s)
    requires Valid(t) && t.rows == map[]
    requires t.lastId + |s.rows| <= MaxRowId
    ensures var r := ImportFromCsv(t, ExportToCsv(s), None);
            && r.Done?
            && r.count == |Listing(s)|
            && RowsOf(Listing(r.store)) == Reverse(RowsOf(Listing(s)))
            && multiset(RowsOf(Listing(r.store))) == multiset(RowsOf(Listing(s)))
  {
    var l := Listing(s);
    var body := Body(ReadLines(ExportToCsv(s)));
    assert Parsed(body) == RowsOf(l) by {
      ExportedBodyParses(s);
    }
    assert |l| == |s.rows| by {
      ListingSize(s);
    }
    assert Listing(t) == [] by {
      ListingSize(t);
    }
    assert Listing(ImportRows(t, body).store) == Stacked(t.lastId, RowsOf(l)) by {
      ImportListing(t, body);
      assert Stacked(t.lastId, RowsOf(l)) + [] == Stacked(t.lastId, RowsOf(l));
    }
    StackedRows(t.lastId, RowsOf(l));
    ReverseMultiset(RowsOf(l));
  }

  /** The round trip into a newly created table. */
  lemma ExportImportFresh(s: Store)
    requires Valid(s)
    requires CleanStore(s)
    ensures var r := ImportFromCsv(Fresh(), ExportToCsv(s), None);
            && r.Done?
            && r.count == |Listing(s)|
            && multiset(RowsOf(Listing(r.store))) == multiset(RowsOf(Listing(s)))
  {
    SizeBelowSequence(s);
    ExportImportRoundTrip(s, Fresh());
  }

  /** The lines after the header of an export of clean rows parse back to the
      rows of the listing, in listing order. */
  lemma ExportedBodyParses(s: Store)
    requires Valid(s)
    requires CleanStore(s)
    ensures Parsed(Body(ReadLines(ExportToCsv(s)))) == RowsOf(Listing(s))
  {
    var l := Listing(s);
    ListingEnumerates(s);
    var text := ExportToCsv(s);
    assert ReadLines(text) == ExportLines(s);
    var body := Body(ReadLines(text));
    assert body == RecordLines(l);
    forall i | 0 <= i < |l| ensures CleanRow(l[i].row) {
      assert l[i].id in s.rows;
    }
    ParseRecordLines(l);
  }
}
