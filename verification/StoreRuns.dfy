/** From calls to disk: after every run of calls with printable inputs, the saved files give back the book, and
    the fast search on them is the scan of its contacts. */
module StoreRuns {
  import opened Text
  import opened Widths
  import opened Json
  import opened Model
  import opened Validation
  import opened Book
  import opened BookInvariant
  import opened Store
  import FastSearch
  import TextIndex

  /** A contact that the files can carry: printable, and its address fit for a line of the text index. */
  predicate Carried(c: Contact) {
    CleanContact(c) && TextIndex.CleanKey(EmailKey(c))
  }

  ghost predicate AllCarried(cs: seq<Contact>) {
    forall c :: c in cs ==> Carried(c)
  }

  predicate CleanFields(f: Fields) {
    CleanStr(f.name) && CleanStr(f.note)
  }

  /** What the caller gives is printable; an address and a number need no condition, as they are validated.
      An import validates nothing, so its rows have to be fit themselves. */
  ghost predicate Printable(op: Op) {
    match op
    case OpAdd(f, user, id, now, _, _) => CleanFields(f) && CleanStr(user) && CleanStr(id) && CleanStr(now)
    case OpEdit(_, f, user, now, _) => CleanFields(f) && CleanStr(user) && CleanStr(now)
    case OpDelete(_, _) => true
    case OpImport(rows) => AllCarried(rows)
  }

  // ---------- what each operation keeps ----------

  lemma EmailCarried(email: string)
    requires IsValidEmail(email)
    ensures CleanStr(ToLower(email)) && TextIndex.CleanKey(ToLower(ToLower(email)))
  {
    forall i | 0 <= i < |email| ensures !Lossy(ToLower(email)[i]) {
      ValidEmailChars(email, email[i]);
    }
    ToLowerIdempotent(email);
    EmailKeyClean(email);
  }

  lemma PhoneCarried(phone: string)
    ensures CleanStr(NormalizePhone(phone))
  {
    var p := NormalizePhone(phone);
    forall i | 0 <= i < |p| ensures !Lossy(p[i]) {
      NormalizePhoneChars(phone, p[i]);
    }
  }

  lemma AppendCarried(cs: seq<Contact>, c: Contact)
    requires AllCarried(cs) && Carried(c)
    ensures AllCarried(cs + [c])
  {
  }

  lemma UpdateCarried(cs: seq<Contact>, i: nat, c: Contact)
    requires AllCarried(cs) && i < |cs| && Carried(c)
    ensures AllCarried(cs[i := c])
  {
  }

  lemma AddCarried(b: Book, f: Fields, user: string, id: string, now: string, limit: nat, p: Persist)
    requires Sound(b) && AllCarried(b.contacts)
    requires CleanFields(f) && CleanStr(user) && CleanStr(id) && CleanStr(now)
    ensures AllCarried(Add(b, f, user, id, now, limit, p).book.contacts)
  {
    if Fault(b, f, limit) == NoError {
      EmailCarried(f.email);
      PhoneCarried(f.phone);
      AppendCarried(b.contacts, NewContact(f, user, id, now));
    }
  }

  lemma StagesCarried(b: Book, i: nat, id: string, f: Fields)
    requires Sound(b) && i < |b.contacts| && AllCarried(b.contacts) && CleanFields(f)
    ensures AllCarried(EditName(b, i, f.name).book.contacts)
    ensures AllCarried(EditEmail(b, i, id, f.email).book.contacts)
    ensures AllCarried(EditPhone(b, i, id, f.phone).book.contacts)
  {
    var c := b.contacts[i];
    assert c in b.contacts && Carried(c);
    UpdateCarried(b.contacts, i, c.(name := f.name));
    PhoneCarried(f.phone);
    UpdateCarried(b.contacts, i, c.(phone := NormalizePhone(f.phone)));
    if IsValidEmail(f.email) {
      EmailCarried(f.email);
      UpdateCarried(b.contacts, i, c.(email := ToLower(f.email)));
    }
  }

  lemma FieldsCarried(b: Book, i: nat, id: string, f: Fields)
    requires Sound(b) && i < |b.contacts| && AllCarried(b.contacts) && CleanFields(f)
    ensures AllCarried(EditFields(b, i, id, f).book.contacts)
  {
    var b1 := EditName(b, i, f.name).book;
    NameStageSound(b, i, f.name);
    var b2 := EditEmail(b1, i, id, f.email).book;
    EmailStageSound(b1, i, id, f.email);
    StagesCarried(b, i, id, f);
    StagesCarried(b1, i, id, f);
    StagesCarried(b2, i, id, f);
  }

  lemma CloseCarried(b: Book, i: nat, note: string, user: string, now: string)
    requires i < |b.contacts| && AllCarried(b.contacts) && CleanStr(note) && CleanStr(user) && CleanStr(now)
    ensures AllCarried(Close(b, i, note, user, now).contacts)
  {
    var c := b.contacts[i];
    assert c in b.contacts && Carried(c);
    assert CleanStr("edited");
    var n := if note == "" then c.note else note;
    UpdateCarried(b.contacts, i, c.(note := n, history := c.history + [HistoryEntry(now, user, "edited")]));
  }

  lemma EditCarried(b: Book, id: string, f: Fields, user: string, now: string, p: Persist)
    requires Sound(b) && AllCarried(b.contacts) && CleanFields(f) && CleanStr(user) && CleanStr(now)
    ensures AllCarried(Edit(b, id, f, user, now, p).book.contacts)
  {
    var i := Position(b.contacts, id);
    if i < |b.contacts| {
      FieldsCarried(b, i, id, f);
      CloseCarried(EditFields(b, i, id, f).book, i, f.note, user, now);
    }
  }

  lemma {:induction false} ImportCarried(b: Book, rows: seq<Contact>)
    requires Sound(b) && AllCarried(b.contacts) && AllCarried(rows)
    ensures AllCarried(ImportRows(b, rows).contacts)
    decreases rows
  {
    if rows != [] {
      AppendSound(b, rows[0]);
      assert rows[0] in rows;
      AppendCarried(b.contacts, rows[0]);
      assert AllCarried(rows[1..]);
      ImportCarried(ImportRow(b, rows[0]), rows[1..]);
    }
  }

  lemma DeleteCarried(b: Book, id: string, p: Persist)
    requires AllCarried(b.contacts)
    ensures AllCarried(Delete(b, id, p).book.contacts)
  {
    var i := Position(b.contacts, id);
    if i < |b.contacts| {
      PartsCarried(b.contacts, i);
    }
  }

  lemma PartsCarried(cs: seq<Contact>, i: nat)
    requires AllCarried(cs) && i < |cs|
    ensures AllCarried(cs[..i] + cs[i + 1..])
  {
  }

  lemma ApplyCarried(b: Book, op: Op)
    requires Sound(b) && AllCarried(b.contacts) && Printable(op)
    ensures AllCarried(Apply(b, op).contacts)
  {
    match op
    case OpAdd(f, user, id, now, limit, p) => AddCarried(b, f, user, id, now, limit, p);
    case OpEdit(id, f, user, now, p) => EditCarried(b, id, f, user, now, p);
    case OpDelete(id, p) => DeleteCarried(b, id, p);
    case OpImport(rows) => ImportCarried(b, rows);
  }

  lemma {:induction false} RunCarried(b: Book, ops: seq<Op>)
    requires Sound(b) && AllCarried(b.contacts) && forall op :: op in ops ==> Printable(op)
    ensures AllCarried(Run(b, ops).contacts)
    decreases ops
  {
    if ops != [] {
      assert ops[0] in ops;
      ApplyCarried(b, ops[0]);
      ApplyKeeps(b, ops[0]);
      RunCarried(Apply(b, ops[0]), ops[1..]);
    }
  }

  // ---------- the files ----------

  lemma CarriedStorable(b: Book)
    requires Agree(b) && AllCarried(b.contacts) && |b.contacts| < TWO_64
    ensures Storable(b)
  {
    forall k | k in b.emailToI ensures TextIndex.CleanKey(k) {
      assert EmailKeys(b.contacts)[b.emailToI[k]] == k;
      assert b.contacts[b.emailToI[k]] in b.contacts;
    }
    PhoneKeysClean(b);
  }

  lemma RunStorable(ops: seq<Op>)
    requires FreshRun(EMPTY, ops) && forall op :: op in ops ==> Printable(op)
    requires |Run(EMPTY, ops).contacts| < TWO_64
    ensures Storable(Run(EMPTY, ops))
  {
    RunConsistent(EMPTY, ops);
    RunCarried(EMPTY, ops);
    CarriedStorable(Run(EMPTY, ops));
  }

  ghost predicate ShortKeys(cs: seq<Contact>) {
    FastSearch.ShortKeys(EmailKeys(cs)) && FastSearch.ShortKeys(PhoneKeys(cs))
  }

  lemma StorableServed(b: Book, h: Digest, fs: Files, o: Orders, email: string, phone: string)
    requires Storable(b) && OneLine(h) && Possible(b, o) && FastSearch.WithinLimits(b.contacts)
    ensures Served(b, h, fs, o, email, phone)
  {
    SaveThenLoad(h, fs, b, o);
    if (email != "" || phone != "") && ShortKeys(b.contacts) {
      FastSearch.SearchIsScan(h, fs, b, o, email, phone);
    }
  }

  /** Once the book is saved, a load gives it back with both index maps from the index file, and the fast search
      by an address, or by a number when none is given, is the scan of its contacts by normalized key, as long as
      no key is longer than the binary index can hold. */
  ghost predicate Served(b: Book, h: Digest, fs: Files, o: Orders, email: string, phone: string)
    requires Possible(b, o)
  {
    var saved := Exec(fs, SaveSteps(h, b, o));
    && Load(h, saved, EMPTY) == Ok(b, false)
    && ((email != "" || phone != "") && ShortKeys(b.contacts) ==>
          FastSearch.Search(h, saved, true, email, phone) == FastSearch.ByScan(b.contacts, email, phone))
  }

  /** After every run from the empty book with fresh ids and printable inputs, rejected calls included, whatever
      was on disk before: a save, a load and a search serve the book that the calls left. */
  lemma RunThenSave(ops: seq<Op>, b: Book, h: Digest, fs: Files, o: Orders, email: string, phone: string)
    requires FreshRun(EMPTY, ops) && (forall op :: op in ops ==> Printable(op)) && b == Run(EMPTY, ops)
    requires OneLine(h) && Possible(b, o) && FastSearch.WithinLimits(b.contacts)
    ensures Served(b, h, fs, o, email, phone)
  {
    RunStorable(ops);
    StorableServed(b, h, fs, o, email, phone);
  }
}
