/**
 * The `contacts` table behind `MyDatabaseHelper`: a map from row id to the three
 * text columns, plus the AUTOINCREMENT high-water mark SQLite keeps for the table
 * (the largest id it has ever issued). With AUTOINCREMENT a new row always gets an
 * id one above that mark, so ids only grow and an id is never issued twice, even
 * after its row is deleted.
 */
module ContactStore {

  /** The largest rowid SQLite can issue, 2^63 - 1. */
  const MaxRowId: int := 0x7FFF_FFFF_FFFF_FFFF

  /** What `SQLiteDatabase.insert` returns when the row could not be inserted. */
  const InsertFailed: int := -1

  /** The text columns of one row: `name`, `phone`, `email`. */
  datatype Row = Row(name: string, phone: string, email: string)

  /** `ContactModel`: one row as read back from the table. */
  datatype Contact = Contact(id: int, row: Row)

  /** The table contents and the AUTOINCREMENT sequence value. */
  datatype Store = Store(rows: map<int, Row>, lastId: int)

  /** Every row id is a positive id the sequence has already issued, and the
      sequence has not passed the largest rowid. */
  predicate Valid(s: Store) {
    && 0 <= s.lastId <= MaxRowId
    && forall id :: id in s.rows ==> 1 <= id <= s.lastId
  }

  /** The ids appearing in a listing. */
  function IdsOf(l: seq<Contact>): set<int> {
    set i | 0 <= i < |l| :: l[i].id
  }

  /** Ids strictly decrease along `l` (so no id appears twice). */
  predicate StrictlyDescending(l: seq<Contact>) {
    forall i, j :: 0 <= i < j < |l| ==> l[i].id > l[j].id
  }

  /** Every entry of `l` shows the columns `rows` holds under its id. */
  predicate FromRows(l: seq<Contact>, rows: map<int, Row>) {
    forall i :: 0 <= i < |l| ==> l[i].id in rows && l[i].row == rows[l[i].id]
  }

  /** `l` lists every row of `s` exactly once, with its own columns, highest id first. */
  predicate Enumerates(s: Store, l: seq<Contact>) {
    && StrictlyDescending(l)
    && IdsOf(l) == s.rows.Keys
    && FromRows(l, s.rows)
  }

  /** The table as `onCreate` leaves it: no rows and a sequence that has issued nothing. */
  function Fresh(): (s: Store)
    ensures Valid(s)
    ensures Listing(s) == []
  {
    Store(map[], 0)
  }

  /** `onUpgrade`: `DROP TABLE IF EXISTS` followed by `onCreate`. Dropping the table
      also drops its sequence entry, so the result is a fresh table whatever the
      store held before. */
  function OnUpgrade(s: Store, oldVersion: int, newVersion: int): (r: Store)
    requires Valid(s)
    ensures Valid(r)
    ensures Listing(r) == []
  {
    Fresh()
  }

  /** The outcome of `addContact`: the table afterwards and the returned row id. */
  datatype Inserted = Inserted(store: Store, rowId: int)

  /** `addContact(name, phone, email)`: inserts one row under a fresh id and returns
      that id. The id is above every id the store holds and above every id it ever
      issued; the other rows are untouched. Once the sequence has reached the largest
      rowid the insert fails (SQLITE_FULL), the table is unchanged and -1 is returned. */
  function AddContact(s: Store, row: Row): (r: Inserted)
    requires Valid(s)
    ensures Valid(r.store)
    ensures r.rowId == InsertFailed <==> s.lastId == MaxRowId
    ensures r.rowId == InsertFailed ==> r.store == s
    ensures r.rowId != InsertFailed ==>
              && r.rowId > s.lastId
              && (forall id :: id in s.rows ==> id < r.rowId)
              && r.store.rows.Keys == s.rows.Keys + {r.rowId}
              && r.store.rows[r.rowId] == row
              && (forall id :: id in s.rows ==> r.store.rows[id] == s.rows[id])
              && r.store.lastId == r.rowId
  {
    if s.lastId == MaxRowId then Inserted(s, InsertFailed)
    else
      var id := s.lastId + 1;
      Inserted(Store(s.rows[id := row], id), id)
  }

  /** Rows of `rows` whose id lies in 1..k, read from k downward. */
  function ListDown(rows: map<int, Row>, k: int): seq<Contact>
    decreases k
  {
    if k <= 0 then []
    else if k in rows then [Contact(k, rows[k])] + ListDown(rows, k - 1)
    else ListDown(rows, k - 1)
  }

  /** The downward scan lists each row with id in 1..k once, with its columns,
      highest id first. */
  lemma {:induction false} ListDownEnumerates(rows: map<int, Row>, k: int)
    ensures StrictlyDescending(ListDown(rows, k))
    ensures IdsOf(ListDown(rows, k)) == set id | id in rows && 1 <= id <= k
    ensures FromRows(ListDown(rows, k), rows)
    decreases k
  {
    if k > 0 {
      var rest := ListDown(rows, k - 1);
      ListDownEnumerates(rows, k - 1);
      var below := set id | id in rows && 1 <= id <= k - 1;
      if k in rows {
        var c := Contact(k, rows[k]);
        var l := [c] + rest;
        assert l == ListDown(rows, k);
        assert StrictlyDescending(l) by {
          ConsDescending(c, rest);
        }
        assert IdsOf(l) == set id | id in rows && 1 <= id <= k by {
          IdsOfCons(c, rest);
        }
        assert FromRows(l, rows) by {
          ConsFromRows(c, rest, rows);
        }
      } else {
        assert ListDown(rows, k) == rest;
        assert below == set id | id in rows && 1 <= id <= k;
      }
    }
  }

  /** `getAllContacts` (`SELECT * … ORDER BY id DESC`): on a valid table, every
      row exactly once with its columns, highest id first. */
  function Listing(s: Store): (r: seq<Contact>)
    ensures Valid(s) ==> Enumerates(s, r)
  {
    ListDownEnumerates(s.rows, s.lastId);
    ListDown(s.rows, s.lastId)
  }

  /** `getAllContacts` returns every row exactly once with its columns, highest id
      first; an empty table gives an empty list. This is `Listing`'s guarantee as
      a lemma, to be called where a proof needs it as a fact about `Listing(s)`. */
  lemma ListingEnumerates(s: Store)
    requires Valid(s)
    ensures Enumerates(s, Listing(s))
  {
    ListDownEnumerates(s.rows, s.lastId);
  }

  /** Putting an entry in front adds exactly its id. */
  lemma IdsOfCons(c: Contact, l: seq<Contact>)
    ensures IdsOf([c] + l) == {c.id} + IdsOf(l)
  {
    var m := [c] + l;
    forall x | x in IdsOf(m) ensures x in {c.id} + IdsOf(l) {
      var i :| 0 <= i < |m| && m[i].id == x;
      if i > 0 { assert m[i] == l[i - 1]; }
    }
    forall x | x in IdsOf(l) ensures x in IdsOf(m) {
      var i :| 0 <= i < |l| && l[i].id == x;
      assert m[i + 1] == l[i];
    }
    assert m[0] == c;
  }
  /** An entry whose id is above every id of a descending listing can go in front. */
  lemma ConsDescending(c: Contact, l: seq<Contact>)
    requires StrictlyDescending(l)
    requires forall id :: id in IdsOf(l) ==> id < c.id
    ensures StrictlyDescending([c] + l)
  {
    var m := [c] + l;
    forall i, j | 0 <= i < j < |m| ensures m[i].id > m[j].id {
      assert m[j] == l[j - 1];
      assert l[j - 1].id in IdsOf(l);
      if i > 0 { assert m[i] == l[i - 1]; }
    }
  }

  /** An entry showing its own row can go in front. */
  lemma ConsFromRows(c: Contact, l: seq<Contact>, rows: map<int, Row>)
    requires c.id in rows && rows[c.id] == c.row
    requires FromRows(l, rows)
    ensures FromRows([c] + l, rows)
  {
    var m := [c] + l;
    forall i | 0 < i < |m| ensures m[i].id in rows && m[i].row == rows[m[i].id] {
      assert m[i] == l[i - 1];
    }
  }

  /** Entries keep their columns in a table that keeps every old row. */
  lemma FromRowsGrow(l: seq<Contact>, rows: map<int, Row>, more: map<int, Row>)
    requires FromRows(l, rows)
    requires forall id :: id in rows ==> id in more && more[id] == rows[id]
    ensures FromRows(l, more)
  {
  }


  /** Removing the head of a strictly descending listing removes exactly its id. */
  lemma {:induction false} IdsOfTail(l: seq<Contact>)
    requires |l| > 0
    requires StrictlyDescending(l)
    ensures IdsOf(l[1..]) == IdsOf(l) - {l[0].id}
  {
    forall id | id in IdsOf(l) - {l[0].id}
      ensures id in IdsOf(l[1..])
    {
      var i :| 0 <= i < |l| && l[i].id == id;
      assert l[1..][i - 1] == l[i];
    }
    forall id | id in IdsOf(l[1..])
      ensures id in IdsOf(l) - {l[0].id}
    {
      var i :| 0 <= i < |l[1..]| && l[1..][i].id == id;
      assert l[i + 1] == l[1..][i];
    }
  }

  /** Two strictly descending listings of the same ids list them in the same order. */
  lemma {:induction false} SameIdsSameOrder(a: seq<Contact>, b: seq<Contact>)
    requires StrictlyDescending(a) && StrictlyDescending(b)
    requires IdsOf(a) == IdsOf(b)
    ensures |a| == |b|
    ensures forall i :: 0 <= i < |a| ==> a[i].id == b[i].id
    decreases |a|
  {
    DistinctIdsCount(a);
    DistinctIdsCount(b);
    if |a| > 0 {
      assert a[0].id in IdsOf(a);
      var j :| 0 <= j < |b| && b[j].id == a[0].id;
      assert b[0].id in IdsOf(b);
      var i :| 0 <= i < |a| && a[i].id == b[0].id;
      assert b[0].id == a[0].id;
      IdsOfTail(a);
      IdsOfTail(b);
      SameIdsSameOrder(a[1..], b[1..]);
      forall k | 0 <= k < |a|
        ensures a[k].id == b[k].id
      {
        if k > 0 {
          assert a[k] == a[1..][k - 1] && b[k] == b[1..][k - 1];
        }
      }
    }
  }

  /** There is only one way to enumerate a store: any listing of every row once,
      highest id first, is the one `getAllContacts` returns. */
  lemma EnumerationUnique(s: Store, l: seq<Contact>)
    requires Valid(s)
    requires Enumerates(s, l)
    ensures l == Listing(s)
  {
    var m := Listing(s);
    ListingEnumerates(s);
    SameIdsSameOrder(l, m);
    assert forall i :: 0 <= i < |l| ==> l[i] == m[i];
  }

  /** The listing has one entry per row. */
  lemma ListingSize(s: Store)
    requires Valid(s)
    ensures |Listing(s)| == |s.rows|
  {
    ListingEnumerates(s);
    DistinctIdsCount(Listing(s));
  }

  /** A strictly descending listing has as many ids as entries. */
  lemma {:induction false} DistinctIdsCount(l: seq<Contact>)
    requires StrictlyDescending(l)
    ensures |IdsOf(l)| == |l|
    decreases |l|
  {
    if |l| > 0 {
      IdsOfTail(l);
      DistinctIdsCount(l[1..]);
      assert l[0].id in IdsOf(l);
    }
  }

  /** After a successful `addContact` the listing is the old listing with exactly
      one new entry, the inserted row under its new id, in front. */
  lemma ListingAfterAdd(s: Store, row: Row)
    requires Valid(s)
    requires AddContact(s, row).rowId != InsertFailed
    ensures var r := AddContact(s, row);
            Listing(r.store) == [Contact(r.rowId, row)] + Listing(s)
  {
    var r := AddContact(s, row);
    var prev := Listing(s);
    var c := Contact(r.rowId, row);
    var l := [c] + prev;
    ListingEnumerates(s);
    assert StrictlyDescending(l) by {
      ConsDescending(c, prev);
    }
    assert IdsOf(l) == r.store.rows.Keys by {
      IdsOfCons(c, prev);
    }
    assert FromRows(l, r.store.rows) by {
      FromRowsGrow(prev, s.rows, r.store.rows);
      ConsFromRows(c, prev, r.store.rows);
    }
    EnumerationUnique(r.store, l);
  }

  /** The outcome of `updateContact`: the table afterwards and the number of rows changed. */
  datatype Updated = Updated(store: Store, affected: nat)

  /** `updateContact(id, name, phone, email)` (`UPDATE … WHERE id = ?`): replaces the
      three columns of the row with that id and reports 1; as `id` is the primary
      key at most one row matches, so an absent id reports 0 and changes nothing.
      No other row, no id and not the sequence is affected. */
  function UpdateContact(s: Store, id: int, row: Row): (r: Updated)
    requires Valid(s)
    ensures Valid(r.store)
    ensures r.affected == 0 || r.affected == 1
    ensures r.affected == 1 <==> id in s.rows
    ensures r.affected == 0 ==> r.store == s
    ensures r.store.lastId == s.lastId
    ensures r.store.rows.Keys == s.rows.Keys
    ensures id in s.rows ==> r.store.rows[id] == row
    ensures forall k :: k in s.rows && k != id ==> r.store.rows[k] == s.rows[k]
  {
    if id in s.rows then Updated(Store(s.rows[id := row], s.lastId), 1)
    else Updated(s, 0)
  }

  /** `l` with the entry for `id` (if any) carrying `row` instead. */
  function Replace(l: seq<Contact>, id: int, row: Row): seq<Contact>
  {
    seq(|l|, i requires 0 <= i < |l| => if l[i].id == id then Contact(id, row) else l[i])
  }

  /** After `updateContact` the listing keeps its order and ids; only the entry
      with the updated id shows the new columns. */
  lemma ListingAfterUpdate(s: Store, id: int, row: Row)
    requires Valid(s)
    ensures Listing(UpdateContact(s, id, row).store) == Replace(Listing(s), id, row)
  {
    var t := UpdateContact(s, id, row).store;
    ListingEnumerates(s);
    ReplaceEnumerates(s, t, Listing(s), id, row);
    EnumerationUnique(t, Replace(Listing(s), id, row));
  }

  /** Replacing the columns of one entry keeps an enumeration an enumeration of
      the updated store. */
  lemma ReplaceEnumerates(s: Store, t: Store, m: seq<Contact>, id: int, row: Row)
    requires Enumerates(s, m)
    requires t.rows.Keys == s.rows.Keys
    requires id in s.rows ==> t.rows[id] == row
    requires forall k :: k in s.rows && k != id ==> t.rows[k] == s.rows[k]
    ensures Enumerates(t, Replace(m, id, row))
  {
    var l := Replace(m, id, row);
    assert forall i :: 0 <= i < |l| ==> l[i].id == m[i].id;
    assert StrictlyDescending(l) && IdsOf(l) == t.rows.Keys by {
      SameIds(l, m);
    }
    assert FromRows(l, t.rows) by {
      forall i | 0 <= i < |l| ensures l[i].id in t.rows && l[i].row == t.rows[l[i].id] {
        assert m[i].id in s.rows;
        if m[i].id == id {
          assert l[i] == Contact(id, row);
        } else {
          assert l[i] == m[i];
        }
      }
    }
  }

  /** Two listings with the same ids at the same positions hold the same ids,
      and one is descending when the other is. */
  lemma SameIds(l: seq<Contact>, m: seq<Contact>)
    requires |l| == |m|
    requires forall i :: 0 <= i < |l| ==> l[i].id == m[i].id
    ensures IdsOf(l) == IdsOf(m)
    ensures StrictlyDescending(m) ==> StrictlyDescending(l)
  {
    forall x | x in IdsOf(l) ensures x in IdsOf(m) {
      var i :| 0 <= i < |l| && l[i].id == x;
      assert m[i].id == x;
    }
    forall x | x in IdsOf(m) ensures x in IdsOf(l) {
      var i :| 0 <= i < |m| && m[i].id == x;
      assert l[i].id == x;
    }
  }

  /** `deleteContact(id)` (`DELETE … WHERE id = ?`): removes the row with that id
      if there is one and nothing else; an absent id leaves the store as it was.
      The sequence is not rewound, so the id is never issued again. */
  function DeleteContact(s: Store, id: int): (r: Store)
    requires Valid(s)
    ensures Valid(r)
    ensures r.rows.Keys == s.rows.Keys - {id}
    ensures forall k :: k in r.rows ==> r.rows[k] == s.rows[k]
    ensures r.lastId == s.lastId
    ensures id !in s.rows ==> r == s
  {
    if id in s.rows then Store(s.rows - {id}, s.lastId) else s
  }

  /** `l` without the entries for `id`. */
  function Without(l: seq<Contact>, id: int): (r: seq<Contact>)
    ensures |r| <= |l|
    ensures IdsOf(r) == IdsOf(l) - {id}
    ensures forall i :: 0 <= i < |r| ==> exists j :: 0 <= j < |l| && r[i] == l[j]
  {
    if |l| == 0 then []
    else
      var rest := Without(l[1..], id);
      assert forall j :: 0 <= j < |l| - 1 ==> l[1..][j] == l[j + 1];
      assert l == [l[0]] + l[1..];
      IdsOfCons(l[0], l[1..]);
      if l[0].id == id then rest
      else
        var r := [l[0]] + rest;
        assert forall i :: 0 < i < |r| ==> r[i] == rest[i - 1];
        IdsOfCons(l[0], rest);
        r
  }

  /** A sub-listing of a strictly descending listing is strictly descending. */
  lemma {:induction false} WithoutDescending(l: seq<Contact>, id: int)
    requires StrictlyDescending(l)
    ensures StrictlyDescending(Without(l, id))
    decreases |l|
  {
    if |l| > 0 {
      var rest := Without(l[1..], id);
      WithoutDescending(l[1..], id);
      if l[0].id != id {
        forall x | x in IdsOf(rest) ensures x < l[0].id {
          var k :| 0 <= k < |l[1..]| && l[1..][k].id == x;
          assert l[1..][k] == l[k + 1];
        }
        ConsDescending(l[0], rest);
        assert Without(l, id) == [l[0]] + rest;
      }
    }
  }


  /** After `deleteContact(id)` the listing is the old one with the entry for `id`
      (if any) taken out and every other entry kept in order. */
  lemma ListingAfterDelete(s: Store, id: int)
    requires Valid(s)
    ensures Listing(DeleteContact(s, id)) == Without(Listing(s), id)
  {
    var t := DeleteContact(s, id);
    var l := Without(Listing(s), id);
    ListingEnumerates(s);
    WithoutDescending(Listing(s), id);
    forall i | 0 <= i < |l|
      ensures l[i].id in t.rows && l[i].row == t.rows[l[i].id]
    {
      var j :| 0 <= j < |Listing(s)| && l[i] == Listing(s)[j];
      assert l[i].id in IdsOf(l);
    }
    assert Enumerates(t, l);
    EnumerationUnique(t, l);
  }

  /** One call into the store. */
  datatype Op = Add(row: Row) | Update(id: int, row: Row) | Delete(id: int)

  /** The store after one call. */
  function Apply(s: Store, op: Op): (r: Store)
    requires Valid(s)
    ensures Valid(r)
    ensures s.lastId <= r.lastId
  {
    match op
    case Add(row) => AddContact(s, row).store
    case Update(id, row) => UpdateContact(s, id, row).store
    case Delete(id) => DeleteContact(s, id)
  }

  /** The store after a sequence of calls. */
  function Run(s: Store, ops: seq<Op>): (r: Store)
    requires Valid(s)
    ensures Valid(r)
    ensures s.lastId <= r.lastId
    decreases |ops|
  {
    if |ops| == 0 then s else Run(Apply(s, ops[0]), ops[1..])
  }

  /** The ids returned by the successful `addContact` calls among `ops`, in call order. */
  function Issued(s: Store, ops: seq<Op>): seq<int>
    requires Valid(s)
    decreases |ops|
  {
    if |ops| == 0 then []
    else
      var rest := Issued(Apply(s, ops[0]), ops[1..]);
      if ops[0].Add? && AddContact(s, ops[0].row).rowId != InsertFailed then
        [AddContact(s, ops[0].row).rowId] + rest
      else rest
  }

  /** Over any sequence of adds, updates and deletes, the ids handed out strictly
      increase and each lies above every id issued before the sequence started,
      so no id is reused, not even one whose row was deleted. */
  lemma {:induction false} IdsNeverReused(s: Store, ops: seq<Op>)
    requires Valid(s)
    ensures forall i :: 0 <= i < |Issued(s, ops)| ==>
              s.lastId < Issued(s, ops)[i] <= Run(s, ops).lastId
    ensures forall i, j :: 0 <= i < j < |Issued(s, ops)| ==>
              Issued(s, ops)[i] < Issued(s, ops)[j]
    decreases |ops|
  {
    if |ops| > 0 {
      var t := Apply(s, ops[0]);
      IdsNeverReused(t, ops[1..]);
      var rest := Issued(t, ops[1..]);
      if ops[0].Add? && AddContact(s, ops[0].row).rowId != InsertFailed {
        var id := AddContact(s, ops[0].row).rowId;
        assert t.lastId == id;
        var all := [id] + rest;
        assert Issued(s, ops) == all;
        forall i, j | 0 <= i < j < |all|
          ensures all[i] < all[j]
        {
          assert all[j] == rest[j - 1];
          if i > 0 { assert all[i] == rest[i - 1]; }
        }
      }
    }
  }

  /** A table never holds more rows than its sequence has issued. */
  lemma SizeBelowSequence(s: Store)
    requires Valid(s)
    ensures |s.rows| <= s.lastId
  {
    IdsBelow(s.rows.Keys, s.lastId);
  }

  /** A set of ids drawn from 1..k has at most k elements. */
  lemma {:induction false} IdsBelow(ids: set<int>, k: int)
    requires forall id :: id in ids ==> 1 <= id <= k
    ensures |ids| <= if k < 0 then 0 else k
    decreases if k < 0 then 0 else k
  {
    if k <= 0 {
      assert forall id :: id !in ids;
      assert ids == {};
    } else {
      IdsBelow(ids - {k}, k - 1);
    }
  }
}
