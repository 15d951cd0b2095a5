/** Exporting a book as JSONL and importing it again. */
module Reimport {
  import opened Text
  import opened Json
  import opened Model
  import opened Jsonl
  import opened Validation
  import opened Book
  import opened BookInvariant
  import opened ContactBooks
  import opened Store

  lemma OneMore<T>(a: seq<T>, b: seq<T>, x: T)
    requires |a| == |b| + 1 && a[|b|] == x && forall k :: 0 <= k < |b| ==> a[k] == b[k]
    ensures a == b + [x]
  {
  }

  lemma NextRow(cs: seq<Contact>, i: nat)
    requires i < |cs|
    ensures ToJsons(cs[..i + 1]) == ToJsons(cs[..i]) + [ToJson(cs[i])]
  {
    var a, b := cs[..i + 1], cs[..i];
    forall k | 0 <= k < i ensures ToJsons(a)[k] == ToJsons(b)[k] {
      assert a[k] == b[k];
    }
    assert a[i] == cs[i];
    OneMore(ToJsons(a), ToJsons(b), ToJson(cs[i]));
  }

  /** The JSONL branch of `export_data`. */
  method ExportJsonl(cs: seq<Contact>) returns (o: string)
    ensures o == DataText(cs)
  {
    var rows: seq<J> := [];
    for i := 0 to |cs|
      invariant rows == ToJsons(cs[..i])
    {
      NextRow(cs, i);
      rows := rows + [ToJson(cs[i])];
    }
    assert cs[..|cs|] == cs;
    DataIsJsonl(cs);
    o := WriteJsonl(rows);
  }

  lemma {:induction false} RowsBack(cs: seq<Contact>)
    ensures ReadRows(ToJsons(cs)) == (cs, true)
  {
    if cs != [] {
      ContactRoundTrip(cs[0]);
      RowsBack(cs[1..]);
      assert ToJsons(cs)[1..] == ToJsons(cs[1..]);
      assert [cs[0]] + cs[1..] == cs;
    }
  }

  /** What is exported is imported row by row, each row as it reads back. */
  lemma ExportedRows(b: Book, cs: seq<Contact>)
    requires Sound(b)
    ensures ImportText(b, DataText(cs)) == ImportRows(b, StrippedAll(cs))
  {
    DataParses(cs);
    RowsBack(StrippedAll(cs));
  }

  // ---------- into the same book ----------

  predicate Duplicate(b: Book, c: Contact)
    requires Sound(b)
  {
    EmailExists(b, c.email, "") || PhoneExists(b, c.phone, "")
  }

  lemma {:induction false} RowsGrow(b: Book, rows: seq<Contact>)
    requires Sound(b)
    ensures |ImportRows(b, rows).contacts| >= |b.contacts|
    decreases rows
  {
    if rows != [] {
      AppendSound(b, rows[0]);
      RowsGrow(ImportRow(b, rows[0]), rows[1..]);
    }
  }

  predicate AllDuplicates(b: Book, rows: seq<Contact>)
    requires Sound(b)
  {
    forall c :: c in rows ==> Duplicate(b, c)
  }

  lemma DuplicatesCons(b: Book, rows: seq<Contact>)
    requires Sound(b) && rows != []
    ensures AllDuplicates(b, rows) <==> Duplicate(b, rows[0]) && AllDuplicates(b, rows[1..])
  {
    assert rows == [rows[0]] + rows[1..];
  }

  /** An import changes nothing exactly when every row is a duplicate: a row that is none grows the book. */
  lemma {:induction false} RowsSame(b: Book, rows: seq<Contact>)
    requires Sound(b)
    ensures ImportRows(b, rows) == b <==> AllDuplicates(b, rows)
    decreases rows
  {
    if rows != [] {
      DuplicatesCons(b, rows);
      if Duplicate(b, rows[0]) {
        RowsSame(b, rows[1..]);
      } else {
        AppendSound(b, rows[0]);
        RowsGrow(Append(b, rows[0]), rows[1..]);
      }
    }
  }

  lemma StrippedIn(cs: seq<Contact>, c: Contact)
    requires c in cs
    ensures Stripped(c) in StrippedAll(cs)
  {
    var i :| 0 <= i < |cs| && cs[i] == c;
    assert StrippedAll(cs)[i] == Stripped(c);
  }

  lemma StrippedFrom(cs: seq<Contact>, r: Contact) returns (c: Contact)
    requires r in StrippedAll(cs)
    ensures c in cs && r == Stripped(c)
  {
    var i :| 0 <= i < |cs| && StrippedAll(cs)[i] == r;
    c := cs[i];
  }

  lemma StrippedDuplicates(b: Book, cs: seq<Contact>)
    requires Sound(b)
    ensures AllDuplicates(b, StrippedAll(cs)) <==>
              forall c :: c in cs ==> EmailExists(b, StripStr(c.email), "") || PhoneExists(b, StripStr(c.phone), "")
  {
    var rows := StrippedAll(cs);
    if AllDuplicates(b, rows) {
      forall c | c in cs ensures EmailExists(b, StripStr(c.email), "") || PhoneExists(b, StripStr(c.phone), "") {
        StrippedIn(cs, c);
        assert Duplicate(b, Stripped(c));
      }
    }
    if forall c :: c in cs ==> EmailExists(b, StripStr(c.email), "") || PhoneExists(b, StripStr(c.phone), "") {
      forall r | r in rows ensures Duplicate(b, r) {
        var c := StrippedFrom(cs, r);
      }
    }
  }

  /** Importing a book's own export changes nothing exactly when each contact, as it reads back, is taken for
      a duplicate. */
  lemma ReimportSame(b: Book)
    requires Sound(b)
    ensures ImportText(b, DataText(b.contacts)) == b <==>
              forall c :: c in b.contacts ==> EmailExists(b, StripStr(c.email), "") || PhoneExists(b, StripStr(c.phone), "")
  {
    ExportedRows(b, b.contacts);
    RowsSame(b, StrippedAll(b.contacts));
    StrippedDuplicates(b, b.contacts);
  }

  lemma OwnDuplicate(b: Book, c: Contact)
    requires Agree(b) && c in b.contacts && CleanContact(c)
    ensures EmailExists(b, StripStr(c.email), "") || PhoneExists(b, StripStr(c.phone), "") <==> c.id != ""
  {
    var i :| 0 <= i < |b.contacts| && b.contacts[i] == c;
    StripStrSame(c.email);
    StripStrSame(c.phone);
    assert EmailKeys(b.contacts)[i] in b.emailToI && b.emailToI[EmailKeys(b.contacts)[i]] == i;
    assert PhoneKeys(b.contacts)[i] in b.phoneToI && b.phoneToI[PhoneKeys(b.contacts)[i]] == i;
  }

  /** For an exactly indexed book of clean contacts, that is when no contact has an empty id: the duplicate
      check takes such a contact for the one to be skipped, and it is imported again. */
  lemma ReimportClean(b: Book)
    requires Agree(b) && AllClean(b.contacts)
    ensures ImportText(b, DataText(b.contacts)) == b <==> forall c :: c in b.contacts ==> c.id != ""
  {
    ReimportSame(b);
    forall c | c in b.contacts
      ensures EmailExists(b, StripStr(c.email), "") || PhoneExists(b, StripStr(c.phone), "") <==> c.id != ""
    {
      OwnDuplicate(b, c);
    }
  }

  /** A contact whose two keys both change when its text is stripped. */
  lemma LossyKeys(c: Contact)
    requires ToLower(StripStr(c.email)) != EmailKey(c) && NormalizePhone(StripStr(c.phone)) != PhoneKey(c)
    ensures var b := ImportRows(EMPTY, [c]); Agree(b) && b.contacts == [c] && ImportText(b, DataText(b.contacts)) != b
  {
    var b := Append(EMPTY, c);
    AppendSound(EMPTY, c);
    AppendIndexed(EMPTY, c);
    assert ImportRows(EMPTY, [c]) == ImportRows(b, []);
    ReimportSame(b);
    assert c in b.contacts;
  }

  /** A book with an id for its one contact, as a JSONL import leaves it, that grows when its own export is
      imported: control characters stand in front of the address and of the number. */
  lemma ReimportGrows()
    ensures exists c: Contact :: c.id == "a" && var b := ImportRows(EMPTY, [c]);
              Agree(b) && b.contacts == [c] && ImportText(b, DataText(b.contacts)) != b
  {
    var x := 1 as char;
    var c := Contact("a", "Ann", [x] + "x@y.com", [x] + "+5", "", "", []);
    Shorter(x, "x@y.com");
    assert ToLower(c.email)[0] == x && ToLower("x@y.com")[0] == 'x';
    Shorter(x, "+5");
    NumberKeys(x);
    LossyKeys(c);
  }

  lemma Shorter(x: char, s: string)
    requires Lossy(x) && CleanStr(s)
    ensures StripStr([x] + s) == s
  {
    assert ([x] + s)[1..] == s;
    StripStrSame(s);
    assert [] + s == s;
  }

  lemma NumberKeys(x: char)
    requires Lossy(x)
    ensures NormalizePhone([x] + "+5") == "5" && NormalizePhone("+5") == "+5"
  {
    assert "+5"[1..] == "5" && ([x] + "+5")[1..] == "+5" && "5"[1..] == "";
    assert Digits("5") == ['5'] + Digits("");
    assert Digits("+5") == [] + Digits("5");
    assert Digits([x] + "+5") == [] + Digits("+5");
  }

  // ---------- into a new book ----------

  lemma NewKeys(b: Book, p: Book, k: nat)
    requires Agree(b) && Agree(p) && k < |b.contacts| && p.contacts == b.contacts[..k]
    ensures EmailKey(b.contacts[k]) !in p.emailToI && PhoneKey(b.contacts[k]) !in p.phoneToI
  {
    var es, ps := EmailKeys(b.contacts), PhoneKeys(b.contacts);
    assert es[k] == EmailKey(b.contacts[k]) && ps[k] == PhoneKey(b.contacts[k]);
    assert EmailKeys(p.contacts) == es[..k] && PhoneKeys(p.contacts) == ps[..k];
    NotBefore(b.emailToI, es, p.emailToI, es[..k], k);
    NotBefore(b.phoneToI, ps, p.phoneToI, ps[..k], k);
  }

  lemma FreshRow(b: Book, p: Book, k: nat)
    requires Agree(b) && Agree(p) && k < |b.contacts| && p.contacts == b.contacts[..k]
    ensures ImportRow(p, b.contacts[k]) == Append(p, b.contacts[k]) && Agree(Append(p, b.contacts[k]))
  {
    NewKeys(b, p, k);
    AppendIndexed(p, b.contacts[k]);
  }

  lemma NotBefore(m: map<string, nat>, keys: seq<string>, m': map<string, nat>, some: seq<string>, k: nat)
    requires ExactMap(m, keys) && ExactMap(m', some) && k < |keys| && some == keys[..k]
    ensures keys[k] !in m'
  {
    ExactDistinct(m, keys);
  }

  lemma {:induction false} FreshRows(b: Book, p: Book, k: nat)
    requires Agree(b) && Agree(p) && k <= |b.contacts| && p.contacts == b.contacts[..k]
    ensures ImportRows(p, b.contacts[k..]) == b
    decreases |b.contacts| - k
  {
    if k == |b.contacts| {
      assert b.contacts[..k] == b.contacts;
      ExactUnique(b.emailToI, p.emailToI, EmailKeys(b.contacts));
      ExactUnique(b.phoneToI, p.phoneToI, PhoneKeys(b.contacts));
    } else {
      assert b.contacts[k..][0] == b.contacts[k] && b.contacts[k..][1..] == b.contacts[k + 1..];
      FreshRow(b, p, k);
      FreshRows(b, Append(p, b.contacts[k]), k + 1);
    }
  }

  lemma FirstThen<T>(p: seq<T>, r: seq<T>)
    requires r != []
    ensures p + [r[0]] + r[1..] == p + r
  {
  }

  /** At most one contact more for each row, and as many only when all are appended, in order. */
  lemma {:induction false} RowsAll(b: Book, rows: seq<Contact>)
    requires Sound(b)
    ensures |ImportRows(b, rows).contacts| <= |b.contacts| + |rows|
    ensures |ImportRows(b, rows).contacts| == |b.contacts| + |rows| ==> ImportRows(b, rows).contacts == b.contacts + rows
    decreases rows
  {
    if rows == [] {
      assert b.contacts + rows == b.contacts;
    } else if Duplicate(b, rows[0]) {
      RowsAll(b, rows[1..]);
    } else {
      AppendSound(b, rows[0]);
      RowsAll(Append(b, rows[0]), rows[1..]);
      FirstThen(b.contacts, rows);
    }
  }

  lemma ImportedAll(b: Book, rows: seq<Contact>)
    requires |rows| == |b.contacts| && ImportRows(EMPTY, rows) == b
    ensures rows == b.contacts
  {
    RowsAll(EMPTY, rows);
    assert [] + rows == rows;
  }

  lemma FreshBook(b: Book)
    requires Agree(b)
    ensures ImportRows(EMPTY, b.contacts) == b
  {
    assert b.contacts[0..] == b.contacts;
    FreshRows(b, EMPTY, 0);
  }

  /** Importing an export into a new book gives the exported book, indexes included, exactly when all its texts
      are clean. */
  lemma ImportBack(b: Book)
    requires Agree(b)
    ensures ImportText(EMPTY, DataText(b.contacts)) == b <==> AllClean(b.contacts)
  {
    var rows := StrippedAll(b.contacts);
    ExportedRows(EMPTY, b.contacts);
    StrippedAllSame(b.contacts);
    if rows == b.contacts {
      FreshBook(b);
    } else if ImportRows(EMPTY, rows) == b {
      ImportedAll(b, rows);
    }
  }
}
