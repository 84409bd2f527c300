/**
 * Worked examples of the store and the transfer: two adds and the listing they
 * give, the file exported from that table, and an import whose input has a
 * malformed line between two good ones. They are stated for any rows (and, for
 * the import, any malformed line) rather than for fixed strings.
 */
module Scenarios {
  import opened Wrappers
  import opened Text
  import opened ContactStore
  import opened CsvTransfer
  import opened Sequences

  /** A fresh table after adding `a`, then `b`. */
  function TwoContacts(a: Row, b: Row): (s: Store)
    ensures Valid(s)
  {
    AddContact(AddContact(Fresh(), a).store, b).store
  }

  /** On a fresh table `a` gets id 1 and `b` id 2, and the listing shows `b`
      first: adding Alice then Bob lists Bob (2), then Alice (1). */
  lemma AddTwoThenList(a: Row, b: Row)
    ensures Listing(TwoContacts(a, b)) == [Contact(2, b), Contact(1, a)]
  {
    var one := AddContact(Fresh(), a).store;
    ListingAfterAdd(Fresh(), a);
    ListingAfterAdd(one, b);
  }

  /** The export of that table is the header line, then `b`'s line, then `a`'s,
      each ended by "\n". */
  lemma ExportTwo(a: Row, b: Row)
    ensures ExportToCsv(TwoContacts(a, b))
         == Header + "\n" + RecordLine(Contact(2, b)) + "\n" + RecordLine(Contact(1, a)) + "\n"
  {
    var s := TwoContacts(a, b);
    var lines := ExportLines(s);
    var lb, la := RecordLine(Contact(2, b)), RecordLine(Contact(1, a));
    assert lines == [Header, lb, la] by {
      AddTwoThenList(a, b);
      assert Listing(s) == [Contact(2, b), Contact(1, a)];
    }
    assert ExportToCsv(s) == WriteLines(lines);
    WriteThree(Header, lb, la);
  }

  /** Three lines are written one after the other, each ended by "\n". */
  lemma WriteThree(x: string, y: string, z: string)
    ensures WriteLines([x, y, z]) == x + "\n" + y + "\n" + z + "\n"
  {
    var lines := [x, y, z];
    assert lines[1..][1..][1..] == [];
    assert WriteLines(lines[1..][1..]) == z + "\n";
    assert WriteLines(lines[1..]) == y + "\n" + (z + "\n");
  }

  /** The lines of a file holding a header, a good line, a malformed line and a
      good last line with no terminator. */
  lemma ImportExampleLines(h: string, lc: string, bad: string, ld: string)
    requires SingleLine(h) && SingleLine(lc) && SingleLine(bad) && SingleLine(ld)
    requires |ld| > 0
    ensures ReadLines(h + "\n" + (lc + "\n" + (bad + "\n" + ld))) == [h, lc, bad, ld]
  {
    var t3 := bad + "\n" + ld;
    assert ReadLines(t3) == [bad, ld] by {
      UnterminatedLastLine(ld);
      ReadLinesCons(bad, ld);
    }
    var t2 := lc + "\n" + t3;
    assert ReadLines(t2) == [lc, bad, ld] by {
      ReadLinesCons(lc, t3);
    }
    ReadLinesCons(h, t2);
  }

  /** Three lines yield the rows of each line, in order. */
  lemma ParsedThree(x: string, y: string, z: string)
    ensures Parsed([x, y, z]) == LineRows(x) + LineRows(y) + LineRows(z)
  {
    var rx, ry, rz := LineRows(x), LineRows(y), LineRows(z);
    assert Parsed([z]) == rz by {
      ParsedCons(z, []);
      assert [z] == [z] + [];
    }
    assert Parsed([y, z]) == ry + rz by {
      ParsedCons(y, [z]);
      assert [y, z] == [y] + [z];
    }
    assert Parsed([x, y, z]) == rx + (ry + rz) by {
      ParsedCons(x, [y, z]);
      assert [x, y, z] == [x] + [y, z];
    }
    Associative(rx, ry, rz);
  }

  /** Importing "Name,Phone,Email", "Carl,333,c@x.com", "bad", "Dee,444,d@x.com"
      into a fresh table reports 2 and lists Dee (id 2) before Carl (id 1): the
      header is skipped whatever it says, and the malformed line is neither added
      nor counted. Stated for any header, any two lines that parse to `c` and
      `d`, and any line with fewer than two commas between them. */
  lemma {:induction false} ImportWithMalformedLine(h: string, lc: string, bad: string, ld: string, c: Row, d: Row)
    requires SingleLine(h) && SingleLine(lc) && SingleLine(bad) && SingleLine(ld)
    requires ParseLine(lc) == Some(c) && ParseLine(ld) == Some(d)
    requires Occurrences(bad, Comma) < 2
    ensures var r := ImportFromCsv(Fresh(), h + "\n" + (lc + "\n" + (bad + "\n" + ld)), None);
            && r.Done?
            && r.count == 2
            && Listing(r.store) == [Contact(2, d), Contact(1, c)]
  {
    var text := h + "\n" + (lc + "\n" + (bad + "\n" + ld));
    var body := [lc, bad, ld];
    assert Body(ReadLines(text)) == body by {
      assert |ld| > 0;
      ImportExampleLines(h, lc, bad, ld);
      assert [h, lc, bad, ld][1..] == body;
    }
    ImportThreeLines(lc, bad, ld, c, d);
  }

  /** The import loop over a good line, a malformed line and a good line, on a
      fresh table: two lines counted, the second good row listed first. */
  lemma ImportThreeLines(lc: string, bad: string, ld: string, c: Row, d: Row)
    requires ParseLine(lc) == Some(c) && ParseLine(ld) == Some(d)
    requires Occurrences(bad, Comma) < 2
    ensures var r := ImportRows(Fresh(), [lc, bad, ld]);
            && r.count == 2
            && Listing(r.store) == [Contact(2, d), Contact(1, c)]
  {
    var body := [lc, bad, ld];
    assert Parsed(body) == [c, d] by {
      ParsedSkipsMalformed(lc, bad, ld, c, d);
    }
    assert Listing(ImportRows(Fresh(), body).store) == Stacked(0, [c, d]) by {
      ImportListing(Fresh(), body);
    }
    StackedTwo(c, d);
  }

  /** The malformed middle line yields no row. */
  lemma ParsedSkipsMalformed(lc: string, bad: string, ld: string, c: Row, d: Row)
    requires ParseLine(lc) == Some(c) && ParseLine(ld) == Some(d)
    requires Occurrences(bad, Comma) < 2
    ensures Parsed([lc, bad, ld]) == [c, d]
  {
    ParsedThree(lc, bad, ld);
    assert LineRows(bad) == [] by {
      assert |LineRows(bad)| == 0;
    }
  }

  /** Two rows stacked on a fresh sequence get ids 1 and 2, the later one first. */
  lemma StackedTwo(c: Row, d: Row)
    ensures Stacked(0, [c, d]) == [Contact(2, d), Contact(1, c)]
  {
    assert [c, d][1..] == [d];
    assert Stacked(1, [d]) == [Contact(2, d)];
  }
}
