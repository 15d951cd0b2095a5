/** Importing a CSV file into the book, row by row. */
module CsvImport {
  import opened Text
  import opened Model
  import opened Book
  import opened BookInvariant
  import opened ContactBooks
  import opened Csv
  import opened CsvRoundTrip
  import opened Samples
  import opened Validation

  /** Who imports, and the limit on the number of contacts. */
  datatype Caller = Caller(user: string, limit: nat)

  function RowFields(row: seq<string>): Fields
    requires |row| >= 6
  {
    Fields(row[1], row[2], row[3], row[4])
  }

  /** What an add is given are the columns of the name, the address, the number and the note. */
  lemma FieldColumns(row: seq<string>, k: nat)
    requires |row| >= 6 && k < 6
    ensures HEADER[k] == "name" ==> RowFields(row).name == row[k]
    ensures HEADER[k] == "email" ==> RowFields(row).email == row[k]
    ensures HEADER[k] == "phone" ==> RowFields(row).phone == row[k]
    ensures HEADER[k] == "note" ==> RowFields(row).note == row[k]
  {
    assert "name"[1] != "note"[1];
  }

  /** One row: too short rows and rejected contacts are skipped. */
  function ImportLine(b: Book, row: seq<string>, d: Draw, q: Caller): Book
    requires Sound(b)
  {
    if |row| < 6 then b else Add(b, RowFields(row), q.user, d.id, d.now, q.limit, d.persist).book
  }

  lemma LineKeeps(b: Book, row: seq<string>, d: Draw, q: Caller)
    requires Sound(b)
    ensures Sound(ImportLine(b, row, d, q))
    ensures Consistent(b) && d.id != "" && d.id !in Ids(b.contacts) ==> Consistent(ImportLine(b, row, d, q))
  {
    if |row| >= 6 {
      AddKeeps(b, RowFields(row), q.user, d.id, d.now, q.limit, d.persist);
    }
  }

  /** A row of six fields or more is added as a contact with a new id; a shorter one is passed over. */
  lemma LineAdds(b: Book, row: seq<string>, d: Draw, q: Caller)
    requires Sound(b)
    ensures |row| < 6 ==> ImportLine(b, row, d, q) == b
    ensures |row| >= 6 ==>
              ImportLine(b, row, d, q) == Add(b, Fields(row[1], row[2], row[3], row[4]), q.user, d.id, d.now, q.limit, d.persist).book
  {
  }

  function ImportLines(b: Book, rows: seq<seq<string>>, ds: seq<Draw>, q: Caller): Book
    requires Sound(b) && |ds| == |rows|
    decreases rows
  {
    if rows == [] then b
    else
      LineKeeps(b, rows[0], ds[0], q);
      ImportLines(ImportLine(b, rows[0], ds[0], q), rows[1..], ds[1..], q)
  }

  /** `import_csv_rfc`: the first row is taken for the header; a text that does not parse changes nothing. */
  method ImportCsv(book: ContactBook, data: string, ds: seq<Draw>, q: Caller) returns (ok: bool)
    requires Sound(book.View()) && |ds| == |Rows(data)| - 1
    modifies book
    ensures ok <==> ParseCsv(data).Some?
    ensures book.View() == if ParseCsv(data).Some? then ImportLines(old(book.View()), Rows(data)[1..], ds, q) else old(book.View())
  {
    var parsed, rows := ParseRfc4180(data);
    if !parsed {
      return false;
    }
    var rest, ds' := rows[1..], ds;
    while rest != []
      invariant Sound(book.View()) && |ds'| == |rest|
      invariant ImportLines(book.View(), rest, ds', q) == ImportLines(old(book.View()), rows[1..], ds, q)
      decreases |rest|
    {
      LineKeeps(book.View(), rest[0], ds'[0], q);
      if |rest[0]| >= 6 {
        var f := rest[0];
        var added, err, id := book.AddContact(Fields(f[1], f[2], f[3], f[4]), q.user, ds'[0].id, ds'[0].now, q.limit, ds'[0].persist);
      }
      rest, ds' := rest[1..], ds'[1..];
    }
    return true;
  }

  /** Every id drawn is new when it is drawn. */
  ghost predicate FreshDraws(b: Book, rows: seq<seq<string>>, ds: seq<Draw>, q: Caller)
    requires Sound(b) && |ds| == |rows|
    decreases rows
  {
    rows == [] ||
    (LineKeeps(b, rows[0], ds[0], q);
     ds[0].id != "" && ds[0].id !in Ids(b.contacts) && FreshDraws(ImportLine(b, rows[0], ds[0], q), rows[1..], ds[1..], q))
  }

  /** Whatever the file holds, the indexes stay exact. */
  lemma {:induction false} CsvKeeps(b: Book, rows: seq<seq<string>>, ds: seq<Draw>, q: Caller)
    requires Consistent(b) && |ds| == |rows| && FreshDraws(b, rows, ds, q)
    ensures Consistent(ImportLines(b, rows, ds, q))
    decreases rows
  {
    if rows != [] {
      LineKeeps(b, rows[0], ds[0], q);
      CsvKeeps(ImportLine(b, rows[0], ds[0], q), rows[1..], ds[1..], q);
    }
  }

  // ---------- when an import changes nothing ----------

  /** The row is skipped: it is too short, or its contact is rejected. */
  predicate Skipped(b: Book, row: seq<string>, limit: nat)
    requires Sound(b)
  {
    |row| < 6 || Fault(b, RowFields(row), limit) != NoError
  }

  lemma LineSame(b: Book, row: seq<string>, d: Draw, q: Caller)
    requires Sound(b)
    ensures ImportLine(b, row, d, q) == b <==> Skipped(b, row, q.limit)
    ensures |b.contacts| <= |ImportLine(b, row, d, q).contacts|
    ensures !Skipped(b, row, q.limit) ==> |b.contacts| < |ImportLine(b, row, d, q).contacts|
  {
  }

  lemma {:induction false} LinesGrow(b: Book, rows: seq<seq<string>>, ds: seq<Draw>, q: Caller)
    requires Sound(b) && |ds| == |rows|
    ensures |b.contacts| <= |ImportLines(b, rows, ds, q).contacts|
    decreases rows
  {
    if rows != [] {
      LineKeeps(b, rows[0], ds[0], q);
      LineSame(b, rows[0], ds[0], q);
      LinesGrow(ImportLine(b, rows[0], ds[0], q), rows[1..], ds[1..], q);
    }
  }

  /** An import changes nothing exactly when the book skips each of its rows. */
  lemma {:induction false} LinesSame(b: Book, rows: seq<seq<string>>, ds: seq<Draw>, q: Caller)
    requires Sound(b) && |ds| == |rows|
    ensures ImportLines(b, rows, ds, q) == b <==> forall r :: r in rows ==> Skipped(b, r, q.limit)
    decreases rows
  {
    if rows != [] {
      LineKeeps(b, rows[0], ds[0], q);
      LineSame(b, rows[0], ds[0], q);
      if Skipped(b, rows[0], q.limit) {
        LinesSame(b, rows[1..], ds[1..], q);
        assert rows == [rows[0]] + rows[1..];
      } else {
        LinesGrow(ImportLine(b, rows[0], ds[0], q), rows[1..], ds[1..], q);
        assert rows[0] in rows;
      }
    }
  }

  // ---------- a book's own export ----------

  function ContactRows(cs: seq<Contact>): (t: seq<seq<string>>)
    ensures |t| == |cs| && forall i :: 0 <= i < |cs| ==> t[i] == ContactRow(cs[i])
  {
    seq(|cs|, i requires 0 <= i < |cs| => ContactRow(cs[i]))
  }

  lemma RowsSkipped(b: Book, cs: seq<Contact>, limit: nat)
    requires Sound(b)
    ensures (forall r :: r in ContactRows(cs) ==> Skipped(b, r, limit)) <==> forall c :: c in cs ==> Skipped(b, ContactRow(c), limit)
  {
    forall c | c in cs ensures ContactRow(c) in ContactRows(cs) {
      var i :| 0 <= i < |cs| && cs[i] == c;
      assert ContactRows(cs)[i] == ContactRow(c);
    }
    forall r | r in ContactRows(cs) ensures exists c :: c in cs && ContactRow(c) == r {
      var i :| 0 <= i < |cs| && ContactRows(cs)[i] == r;
      assert cs[i] in cs;
    }
  }

  /** The rows of an export, written without the final line break, are read back exactly when no field has a bare
      carriage return, and they change nothing when imported into a book exactly when it rejects each of them.
      With the final line break that the exporter writes, the import reports an error instead
      (ExportNeverReimports). */
  lemma CsvReimport(b: Book, cs: seq<Contact>, ds: seq<Draw>, q: Caller)
    requires Sound(b) && |ds| == |cs|
    ensures var t := [HEADER] + ContactRows(cs);
            ParseCsv(TableText(t, "\n")) == Some(t) <==> NoBareCr(ContactRows(cs))
    ensures ImportLines(b, ContactRows(cs), ds, q) == b <==>
              forall c :: c in cs ==> Skipped(b, ContactRow(c), q.limit)
  {
    TextComesBack(cs);
    LinesSame(b, ContactRows(cs), ds, q);
    RowsSkipped(b, cs, q.limit);
  }

  lemma TextComesBack(cs: seq<Contact>)
    ensures var t := [HEADER] + ContactRows(cs);
            ParseCsv(TableText(t, "\n")) == Some(t) <==> NoBareCr(ContactRows(cs))
  {
    var t := [HEADER] + ContactRows(cs);
    PlainHeader();
    assert forall r :: r in t ==> |r| == 6;
    assert t[1..] == ContactRows(cs);
    assert NoBareCr(t) <==> NoBareCr(ContactRows(cs));
    TableRoundTrip(t, "\n");
  }

  /** An exactly indexed book skips the row of its own contact unless it could be added again: it has no id, is
      valid, and there is room. */
  lemma OwnLine(b: Book, c: Contact, limit: nat)
    requires Agree(b) && c in b.contacts
    ensures Skipped(b, ContactRow(c), limit) <==>
            || c.id != "" || |b.contacts| >= limit
            || !IsValidName(c.name) || !IsValidEmail(c.email) || !IsValidPhone(c.phone)
  {
    var i :| 0 <= i < |b.contacts| && b.contacts[i] == c;
    assert EmailKeys(b.contacts)[i] in b.emailToI && b.emailToI[EmailKeys(b.contacts)[i]] == i;
    assert PhoneKeys(b.contacts)[i] in b.phoneToI && b.phoneToI[PhoneKeys(b.contacts)[i]] == i;
  }

  /** So an exactly indexed book is left as it was by its own rows exactly when each of its contacts has an id,
      or is not valid, or the book is full. */
  lemma CsvReimportOwn(b: Book, ds: seq<Draw>, q: Caller)
    requires Agree(b) && |ds| == |b.contacts|
    ensures ImportLines(b, ContactRows(b.contacts), ds, q) == b <==>
            forall c :: c in b.contacts ==>
              || c.id != "" || |b.contacts| >= q.limit
              || !IsValidName(c.name) || !IsValidEmail(c.email) || !IsValidPhone(c.phone)
  {
    CsvReimport(b, b.contacts, ds, q);
    forall c | c in b.contacts
      ensures Skipped(b, ContactRow(c), q.limit) <==>
              || c.id != "" || |b.contacts| >= q.limit
              || !IsValidName(c.name) || !IsValidEmail(c.email) || !IsValidPhone(c.phone)
    {
      OwnLine(b, c, q.limit);
    }
  }

  /** With an id for every contact it always is. */
  lemma CsvReimportSame(b: Book, ds: seq<Draw>, q: Caller)
    requires Consistent(b) && |ds| == |b.contacts|
    ensures ImportLines(b, ContactRows(b.contacts), ds, q) == b
  {
    CsvReimportOwn(b, ds, q);
    forall c | c in b.contacts ensures c.id != "" {
      var i :| 0 <= i < |b.contacts| && b.contacts[i] == c;
    }
  }

  /** A book that its own rows change: its one contact came without an id, as a JSONL import admits, and a copy
      of it is added. */
  lemma CsvReimportGrows(digits: Digits, d: Draw, q: Caller)
    requires q.limit > 1
    ensures var b := ImportRows(EMPTY, [Sample("", 'a', digits, "t")]);
            Agree(b) && |b.contacts| == 1 && ImportLines(b, ContactRows(b.contacts), [d], q) != b
  {
    SampleValid("", 'a', digits, "t");
    NoIdGrows(Sample("", 'a', digits, "t"), d, q);
  }

  lemma NoIdGrows(c: Contact, d: Draw, q: Caller)
    requires c.id == "" && IsValidName(c.name) && IsValidEmail(c.email) && IsValidPhone(c.phone) && q.limit > 1
    ensures var b := ImportRows(EMPTY, [c]);
            Agree(b) && |b.contacts| == 1 && ImportLines(b, ContactRows(b.contacts), [d], q) != b
  {
    var b := Append(EMPTY, c);
    AppendSound(EMPTY, c);
    AppendIndexed(EMPTY, c);
    assert ImportRows(EMPTY, [c]) == ImportRows(b, []);
    assert b.contacts[0] == c;
    CsvReimportOwn(b, [d], q);
  }
}
