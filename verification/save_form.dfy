/**
 * The save button of the contact input sheet: it writes to the store only when
 * all three fields are non-empty, updating the contact the sheet was opened for
 * or adding a new one. The CSV import path has no such check.
 */
module SaveForm {
  import opened Wrappers
  import opened Text
  import opened ContactStore
  import opened CsvTransfer

  /** All three fields are non-empty (`isNotEmpty()`). */
  predicate Filled(row: Row) {
    |row.name| > 0 && |row.phone| > 0 && |row.email| > 0
  }

  /** Every row of the store is filled. */
  predicate AllFilled(s: Store) {
    forall id :: id in s.rows ==> Filled(s.rows[id])
  }

  /** The save handler. `editing` is the id of the contact the sheet was opened
      for, or None when adding. With an empty field nothing is written; otherwise
      the contact is updated or a new one added. Every row it writes is filled,
      and it never removes a row. */
  function Save(s: Store, editing: Option<int>, row: Row): (r: Store)
    requires Valid(s)
    ensures Valid(r)
    ensures !Filled(row) ==> r == s
    ensures s.rows.Keys <= r.rows.Keys
    ensures forall id :: id in r.rows && (id !in s.rows || r.rows[id] != s.rows[id]) ==> Filled(r.rows[id])
    ensures Filled(row) && editing.Some? ==> r == UpdateContact(s, editing.value, row).store
    ensures Filled(row) && editing.None? ==> r == AddContact(s, row).store
  {
    if !Filled(row) then s
    else
      match editing
      case Some(id) => UpdateContact(s, id, row).store
      case None => AddContact(s, row).store
  }

  /** Saving from the sheet keeps a store whose rows are all filled that way. */
  lemma SaveKeepsFilled(s: Store, editing: Option<int>, row: Row)
    requires Valid(s)
    requires AllFilled(s)
    ensures AllFilled(Save(s, editing, row))
  {
    var r := Save(s, editing, row);
    forall id | id in r.rows ensures Filled(r.rows[id]) {
      if id in s.rows && r.rows[id] == s.rows[id] {
        assert Filled(s.rows[id]);
      }
    }
  }

  /** A line of two clean fields followed by a trailing comma, such as "a,b,",
      yields a row whose email is empty: `split` keeps the empty last piece. */
  lemma TrailingEmptyField(a: string, b: string)
    requires Comma !in a && Comma !in b
    requires Trimmed(a) && Trimmed(b)
    ensures ParseLine(a + "," + b + ",") == Some(Row(a, b, ""))
  {
    ThreePieces(a, b, "");
    assert a + "," + b + "," + "" == a + "," + b + ",";
  }

  /** Import does not apply the check: a line such as "a,b," imports a contact
      with an empty email, which the save handler refuses to write. */
  lemma ImportSkipsFilledCheck(a: string, b: string)
    requires Comma !in a && Comma !in b
    requires Trimmed(a) && Trimmed(b)
    ensures Save(Fresh(), None, Row(a, b, "")) == Fresh()
    ensures var r := ImportRows(Fresh(), [a + "," + b + ","]);
            && r.count == 1
            && 1 in r.store.rows && r.store.rows[1] == Row(a, b, "")
            && !AllFilled(r.store)
  {
    var line := a + "," + b + ",";
    TrailingEmptyField(a, b);
    ImportRowsStep(Fresh(), [line]);
    var first := ImportLine(Fresh(), line);
    assert first.store == AddContact(Fresh(), Row(a, b, "")).store;
    assert [line][1..] == [];
    assert ImportRows(first.store, []).store == first.store;
  }
}
