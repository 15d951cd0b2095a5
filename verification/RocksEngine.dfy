/** The engine over the key-value store: add, edit, remove and search, and what every run of them keeps. */
module RocksEngine {
  import opened Text
  import opened Json
  import opened Model
  import opened Validation
  import opened Book
  import opened Rocks

  datatype Fault = NoFault | InvalidFields | DuplicateEmail | DuplicatePhone | WriteFailed | Missing | Unreadable

  predicate ValidFields(c: Contact) {
    IsValidName(c.name) && IsValidEmail(c.email) && IsValidPhone(c.phone)
  }

  function AddFault(db: Db, c: Contact, writes: bool): Fault {
    if !ValidFields(c) then InvalidFields
    else if EMAIL + EmailKey(c) in db then DuplicateEmail
    else if PHONE + PhoneKey(c) in db then DuplicatePhone
    else if !writes then WriteFailed
    else NoFault
  }

  /** The fields given that are not empty replace those of the contact. */
  function Change(c: Contact, f: Fields): Contact {
    c.(name := if f.name != "" then f.name else c.name,
       email := if f.email != "" then f.email else c.email,
       phone := if f.phone != "" then f.phone else c.phone,
       note := if f.note != "" then f.note else c.note)
  }

  function Record(db: Db, id: string): Option<Contact> {
    if CONTACT + id in db then ReadContact(db[CONTACT + id]) else None
  }

  function EditFault(db: Db, id: string, f: Fields, writes: bool): Fault {
    if CONTACT + id !in db then Missing
    else if Record(db, id).None? then Unreadable
    else if !ValidFields(Change(Record(db, id).value, f)) then InvalidFields
    else if !writes then WriteFailed
    else NoFault
  }

  function RemoveFault(db: Db, id: string, writes: bool): Fault {
    if CONTACT + id !in db then Missing
    else if Record(db, id).None? then Unreadable
    else if !writes then WriteFailed
    else NoFault
  }

  datatype Op =
    | AddOp(c: Contact, id: string, now: string, writes: bool)
    | EditOp(target: string, f: Fields, writes: bool)
    | RemoveOp(target: string, writes: bool)

  function FaultOf(db: Db, op: Op): Fault {
    match op
    case AddOp(c, id, now, writes) => AddFault(db, Fill(c, id, now), writes)
    case EditOp(id, f, writes) => EditFault(db, id, f, writes)
    case RemoveOp(id, writes) => RemoveFault(db, id, writes)
  }

  function Batch(db: Db, op: Op): seq<Write>
    requires FaultOf(db, op) == NoFault
  {
    match op
    case AddOp(c, id, now, _) => AddBatch(Fill(c, id, now))
    case EditOp(id, f, _) => EditBatch(id, Record(db, id).value, Change(Record(db, id).value, f))
    case RemoveOp(id, _) => RemoveBatch(id, Record(db, id).value)
  }

  /** A rejected operation, or one whose batch is not written, changes nothing. */
  function Step(db: Db, op: Op): Db {
    if FaultOf(db, op) == NoFault then Apply(db, Batch(db, op)) else db
  }

  /** The assignments of an edit, one field after the other. */
  method Replaced(was: Contact, f: Fields) returns (c: Contact)
    ensures c == Change(was, f)
  {
    c := was;
    if f.name != "" {
      c := c.(name := f.name);
    }
    if f.email != "" {
      c := c.(email := f.email);
    }
    if f.phone != "" {
      c := c.(phone := f.phone);
    }
    if f.note != "" {
      c := c.(note := f.note);
    }
  }

  class Engine {
    var db: Db

    constructor ()
      ensures db == map[]
    {
      db := map[];
    }

    method AddContact(c: Contact, id: string, now: string, writes: bool) returns (fault: Fault, outId: string)
      modifies this
      ensures fault == FaultOf(old(db), AddOp(c, id, now, writes))
      ensures db == Step(old(db), AddOp(c, id, now, writes))
      ensures fault == NoFault ==> outId == Fill(c, id, now).id
    {
      var x := c;
      outId := "";
      if x.id == "" {
        x := x.(id := id);
      }
      if x.createdAt == "" {
        x := x.(createdAt := now);
      }
      if !IsValidName(x.name) || !IsValidEmail(x.email) || !IsValidPhone(x.phone) {
        return InvalidFields, outId;
      }
      var eid, pid := EMAIL + ToLower(x.email), PHONE + NormalizePhone(x.phone);
      if eid in db {
        return DuplicateEmail, outId;
      }
      if pid in db {
        return DuplicatePhone, outId;
      }
      var wb := [Put(CONTACT + x.id, ContactLine(x)), Put(eid, x.id), Put(pid, x.id)];
      if !writes {
        return WriteFailed, outId;
      }
      db := Apply(db, wb);
      return NoFault, x.id;
    }

    method EditContact(id: string, f: Fields, writes: bool) returns (fault: Fault)
      modifies this
      ensures fault == FaultOf(old(db), EditOp(id, f, writes))
      ensures db == Step(old(db), EditOp(id, f, writes))
    {
      if CONTACT + id !in db {
        return Missing;
      }
      var was := ReadContact(db[CONTACT + id]);
      if was.None? {
        return Unreadable;
      }
      var c := Replaced(was.value, f);
      if !ValidFields(c) {
        return InvalidFields;
      }
      var wb := EditBatch(id, was.value, c);
      if !writes {
        return WriteFailed;
      }
      db := Apply(db, wb);
      return NoFault;
    }

    method RemoveContact(id: string, writes: bool) returns (fault: Fault)
      modifies this
      ensures fault == FaultOf(old(db), RemoveOp(id, writes))
      ensures db == Step(old(db), RemoveOp(id, writes))
    {
      if CONTACT + id !in db {
        return Missing;
      }
      var c := ReadContact(db[CONTACT + id]);
      if c.None? {
        return Unreadable;
      }
      if !writes {
        return WriteFailed;
      }
      db := Apply(db, RemoveBatch(id, c.value));
      return NoFault;
    }
  }

  // ---------- every run ----------

  /** What the engine does not check itself: that an added id is new, that an edit takes no key of another
      contact, and that the number written reads back with its key. */
  predicate Careful(db: Db, op: Op) {
    FaultOf(db, op) == NoFault ==>
      match op
      case AddOp(c, id, now, _) => CONTACT + Fill(c, id, now).id !in db && KeyReadsBack(c)
      case EditOp(id, f, _) =>
        Free(db, id, Change(Record(db, id).value, f)) && KeyReadsBack(Change(Record(db, id).value, f))
      case RemoveOp(_, _) => true
  }

  /** What the operation does to the contacts, as their records read back. */
  function StepContacts(db: Db, rs: map<string, Contact>, op: Op): map<string, Contact> {
    if FaultOf(db, op) != NoFault then rs
    else
      match op
      case AddOp(c, id, now, _) => rs[Fill(c, id, now).id := Stripped(Fill(c, id, now))]
      case EditOp(id, f, _) => if id in rs then rs[id := Stripped(Change(rs[id], f))] else rs
      case RemoveOp(id, _) => rs - {id}
  }

  lemma RecordIs(db: Db, rs: map<string, Contact>, id: string)
    requires Represents(db, rs)
    ensures CONTACT + id in db <==> id in rs
    ensures Record(db, id) == if id in rs then Some(rs[id]) else None
  {
    var m := View(db, CONTACT);
    assert id in m <==> CONTACT + id in db;
  }

  /** An operation keeps the correspondence between records and secondary keys exactly when it is careful. */
  lemma StepKeeps(db: Db, rs: map<string, Contact>, op: Op)
    requires Represents(db, rs)
    ensures Represents(Step(db, op), StepContacts(db, rs, op)) <==> Careful(db, op)
  {
    if FaultOf(db, op) == NoFault {
      match op
      case AddOp(c, id, now, _) =>
        RecordIs(db, rs, Fill(c, id, now).id);
        AddKeeps(db, rs, Fill(c, id, now));
      case EditOp(id, f, _) =>
        RecordIs(db, rs, id);
        EditKeeps(db, rs, id, Change(rs[id], f));
      case RemoveOp(id, _) =>
        RecordIs(db, rs, id);
        RemoveKeeps(db, rs, id);
    }
  }

  /** The error of an add is the first that applies: the contact is not valid, another has its address, up to case,
      another has its number, the batch is not written. */
  lemma AddFaultIs(db: Db, rs: map<string, Contact>, c: Contact, writes: bool)
    requires Represents(db, rs)
    ensures AddFault(db, c, writes) ==
            if !(IsValidName(c.name) && IsValidEmail(c.email) && IsValidPhone(c.phone)) then InvalidFields
            else if exists id :: id in rs && SameUpToCase(rs[id].email, c.email) then DuplicateEmail
            else if exists id :: id in rs && NormalizePhone(rs[id].phone) == NormalizePhone(c.phone) then DuplicatePhone
            else if !writes then WriteFailed
            else NoFault
  {
    KeyTaken(db, rs, EMAIL, EmailKey, EmailKey(c));
    KeyTaken(db, rs, PHONE, PhoneKey, PhoneKey(c));
    forall id | id in rs ensures EmailKey(rs[id]) == EmailKey(c) <==> SameUpToCase(rs[id].email, c.email) {
      SameLower(rs[id].email, c.email);
    }
  }

  lemma KeyTaken(db: Db, rs: map<string, Contact>, p: string, f: Contact -> string, k: string)
    requires IndexOk(View(db, p), KeysBy(f, rs))
    ensures p + k in db <==> exists id :: id in rs && f(rs[id]) == k
  {
    var m, keys := View(db, p), KeysBy(f, rs);
    assert k in m <==> p + k in db;
    if k in m {
      assert m[k] in keys && keys[m[k]] == k;
    }
    if id :| id in rs && f(rs[id]) == k {
      assert keys[id] == k;
    }
  }

  /** The error of an edit: nobody has the id, the contact that results is not valid, the batch is not written;
      unlike in the book, nobody asks whether the keys are taken. */
  lemma EditFaultIs(db: Db, rs: map<string, Contact>, id: string, f: Fields, writes: bool)
    requires Represents(db, rs)
    ensures EditFault(db, id, f, writes) ==
            if id !in rs then Missing
            else if !IsValidName(if f.name != "" then f.name else rs[id].name)
                    || !IsValidEmail(if f.email != "" then f.email else rs[id].email)
                    || !IsValidPhone(if f.phone != "" then f.phone else rs[id].phone) then InvalidFields
            else if !writes then WriteFailed
            else NoFault
  {
    RecordIs(db, rs, id);
  }

  lemma RemoveFaultIs(db: Db, rs: map<string, Contact>, id: string, writes: bool)
    requires Represents(db, rs)
    ensures RemoveFault(db, id, writes) == if id !in rs then Missing else if !writes then WriteFailed else NoFault
  {
    RecordIs(db, rs, id);
  }

  lemma FilledFields(rs: map<string, Contact>, c: Contact, newId: string, now: string, x: Contact)
    requires x == Stripped(Fill(c, newId, now))
    ensures x.id == StripStr(if c.id == "" then newId else c.id) && x.name == StripStr(c.name)
    ensures x.email == StripStr(c.email) && x.phone == StripStr(c.phone) && x.note == StripStr(c.note)
    ensures x.createdAt == StripStr(if c.createdAt == "" then now else c.createdAt)
  {
  }

  /** What an accepted add leaves, as the records read back: one contact more, or another of that id. */
  lemma AddFields(db: Db, rs: map<string, Contact>, op: Op, rs': map<string, Contact>, id: string)
    requires op.AddOp? && FaultOf(db, op) == NoFault && rs' == StepContacts(db, rs, op)
    requires id == if op.c.id == "" then op.id else op.c.id
    ensures id in rs' && rs' == rs[id := rs'[id]]
    ensures rs'[id].id == StripStr(id) && rs'[id].name == StripStr(op.c.name) && rs'[id].email == StripStr(op.c.email)
    ensures rs'[id].phone == StripStr(op.c.phone) && rs'[id].note == StripStr(op.c.note)
    ensures rs'[id].createdAt == StripStr(if op.c.createdAt == "" then op.now else op.c.createdAt)
  {
    FilledFields(rs, op.c, op.id, op.now, Stripped(Fill(op.c, op.id, op.now)));
  }

  /** What an accepted edit leaves: the fields given, and those not given as they were. */
  lemma EditedFields(db: Db, rs: map<string, Contact>, op: Op, rs': map<string, Contact>)
    requires op.EditOp? && op.target in rs && FaultOf(db, op) == NoFault && rs' == StepContacts(db, rs, op)
    ensures op.target in rs' && rs' == rs[op.target := rs'[op.target]]
    ensures var c, was, f := rs'[op.target], rs[op.target], op.f;
            && c.name == StripStr(if f.name != "" then f.name else was.name)
            && c.email == StripStr(if f.email != "" then f.email else was.email)
            && c.phone == StripStr(if f.phone != "" then f.phone else was.phone)
            && c.note == StripStr(if f.note != "" then f.note else was.note)
            && c.createdAt == StripStr(was.createdAt) && c.id == StripStr(was.id)
  {
  }

  function Run(db: Db, ops: seq<Op>): Db
    decreases ops
  {
    if ops == [] then db else Run(Step(db, ops[0]), ops[1..])
  }

  function RunContacts(db: Db, rs: map<string, Contact>, ops: seq<Op>): map<string, Contact>
    decreases ops
  {
    if ops == [] then rs else RunContacts(Step(db, ops[0]), StepContacts(db, rs, ops[0]), ops[1..])
  }

  predicate CarefulRun(db: Db, ops: seq<Op>)
    decreases ops
  {
    ops != [] ==> Careful(db, ops[0]) && CarefulRun(Step(db, ops[0]), ops[1..])
  }

  lemma {:induction false} RunKeeps(db: Db, rs: map<string, Contact>, ops: seq<Op>)
    requires Represents(db, rs) && CarefulRun(db, ops)
    ensures Represents(Run(db, ops), RunContacts(db, rs, ops))
    decreases ops
  {
    if ops != [] {
      StepKeeps(db, rs, ops[0]);
      RunKeeps(Step(db, ops[0]), StepContacts(db, rs, ops[0]), ops[1..]);
    }
  }

  // ---------- search ----------

  /** Through a secondary key: its id, then the record. */
  function Through(db: Db, slot: string): Option<Contact> {
    if slot in db then Record(db, db[slot]) else None
  }

  lemma IndexLookup(db: Db, rs: map<string, Contact>, p: string, f: Contact -> string, k: string)
    requires Represents(db, rs) && IndexOk(View(db, p), KeysBy(f, rs))
    ensures Through(db, p + k).None? <==> forall id :: id in rs ==> f(rs[id]) != k
    ensures forall id :: id in rs && f(rs[id]) == k ==> Through(db, p + k) == Some(rs[id])
  {
    var m, keys := View(db, p), KeysBy(f, rs);
    assert k in m <==> p + k in db;
    if k in m {
      RecordIs(db, rs, m[k]);
    }
    forall id | id in rs && f(rs[id]) == k ensures k in m && m[k] == id {
      assert keys[id] == k;
    }
  }

  // ---------- the scan by name ----------

  predicate Contains(s: string, t: string) {
    StartsWith(s, t) || (s != [] && Contains(s[1..], t))
  }

  lemma {:induction false} ContainsAt(s: string, t: string) returns (a: string, b: string)
    requires Contains(s, t)
    ensures s == a + (t + b)
  {
    if StartsWith(s, t) {
      a, b := "", s[|t|..];
      assert "" + (t + b) == t + b;
    } else {
      a, b := ContainsAt(s[1..], t);
      Assoc([s[0]], a, t + b);
      a := [s[0]] + a;
      assert s == [s[0]] + s[1..];
    }
  }

  lemma {:induction false} ContainsHere(a: string, t: string, b: string)
    ensures Contains(a + (t + b), t)
  {
    if a == "" {
      assert "" + (t + b) == t + b;
    } else {
      assert (a + (t + b))[1..] == a[1..] + (t + b);
      ContainsHere(a[1..], t, b);
    }
  }

  /** A name contains a text exactly when it stands somewhere in it. */
  lemma ContainsIs(s: string, t: string)
    ensures Contains(s, t) <==> exists a, b :: s == a + (t + b)
  {
    if Contains(s, t) {
      var a, b := ContainsAt(s, t);
    }
    if a, b :| s == a + (t + b) {
      ContainsHere(a, t, b);
    }
  }

  /** The keys in the order of the iterator. */
  ghost predicate KeyOrder(db: Db, ks: seq<string>) {
    && (forall k :: k in ks <==> k in db)
    && (forall i, j :: 0 <= i < j < |ks| ==> Less(ks[i], ks[j]))
  }

  /** A full scan: of the first `n` keys in order, the records of contacts whose name contains the text. */
  function Scan(db: Db, ks: seq<string>, n: nat, name: string): Option<seq<Contact>>
    requires n <= |ks| && forall k :: k in ks ==> k in db
  {
    if n == 0 then Some([])
    else
      var out :- Scan(db, ks, n - 1, name);
      if !StartsWith(ks[n - 1], CONTACT) then Some(out)
      else
        var c :- ReadContact(db[ks[n - 1]]);
        Some(if name == "" || Contains(c.name, name) then out + [c] else out)
  }

  /** The ids among the first `n` keys, which are those of the records. */
  function IdsOf(ks: seq<string>, n: nat): seq<string>
    requires n <= |ks|
  {
    if n == 0 then []
    else IdsOf(ks, n - 1) + if StartsWith(ks[n - 1], CONTACT) then [ks[n - 1][|CONTACT|..]] else []
  }

  /** Of some contacts those whose name contains the text; every name contains the empty one. */
  function Named(rs: map<string, Contact>, ids: seq<string>, name: string): seq<Contact>
    requires forall id :: id in ids ==> id in rs
  {
    if ids == [] then []
    else
      var id := ids[|ids| - 1];
      Named(rs, ids[..|ids| - 1], name) + if Contains(rs[id].name, name) then [rs[id]] else []
  }

  lemma ContainsNothing(s: string)
    ensures Contains(s, "")
  {
  }

  lemma {:induction false} IdsAre(ks: seq<string>, n: nat, id: string)
    requires n <= |ks|
    ensures id in IdsOf(ks, n) <==> CONTACT + id in ks[..n]
    decreases n
  {
    if n > 0 {
      IdsAre(ks, n - 1, id);
      assert ks[..n] == ks[..n - 1] + [ks[n - 1]];
      if StartsWith(ks[n - 1], CONTACT) {
        SlotOf(ks[n - 1], CONTACT);
      }
      Slot(CONTACT, id);
    }
  }

  lemma NamedNext(rs: map<string, Contact>, ids: seq<string>, id: string, name: string)
    requires (forall x :: x in ids ==> x in rs) && id in rs
    ensures (forall x :: x in ids + [id] ==> x in rs)
    ensures Named(rs, ids + [id], name) == Named(rs, ids, name) + if Contains(rs[id].name, name) then [rs[id]] else []
  {
    assert (ids + [id])[..|ids|] == ids;
  }

  /** The records are exactly those of the contacts. */
  ghost predicate Reads(db: Db, rs: map<string, Contact>) {
    && (forall id :: id in rs <==> CONTACT + id in db)
    && (forall id :: id in rs ==> ReadContact(db[CONTACT + id]) == Some(rs[id]))
  }

  lemma RepresentsReads(db: Db, rs: map<string, Contact>)
    requires Represents(db, rs)
    ensures Reads(db, rs)
  {
    forall id ensures (id in rs <==> CONTACT + id in db) && (id in rs ==> ReadContact(db[CONTACT + id]) == Some(rs[id])) {
      RecordIs(db, rs, id);
    }
  }

  /** One key more: the record under a contact's key is looked at. */
  lemma ScanNext(db: Db, ks: seq<string>, n: nat, name: string, k: string, id: string, c: Contact, out: seq<Contact>)
    requires 0 < n <= |ks| && (forall x :: x in ks ==> x in db) && k == ks[n - 1] && StartsWith(k, CONTACT)
    requires ReadContact(db[k]) == Some(c) && Scan(db, ks, n - 1, name) == Some(out)
    ensures Scan(db, ks, n, name) == Some(out + if Contains(c.name, name) then [c] else [])
  {
    ContainsNothing(c.name);
    assert out + [] == out;
  }

  /** What the next key adds to the ids and to what has been found. */
  lemma KeyNext(db: Db, rs: map<string, Contact>, ks: seq<string>, n: nat, name: string, ids: seq<string>, ids': seq<string>)
    requires Reads(db, rs) && 0 < n <= |ks| && (forall k :: k in ks ==> k in db) && forall id :: id in ids ==> id in rs
    requires ids == IdsOf(ks, n - 1) && ids' == IdsOf(ks, n) && Scan(db, ks, n - 1, name) == Some(Named(rs, ids, name))
    ensures (forall id :: id in ids' ==> id in rs) && Scan(db, ks, n, name) == Some(Named(rs, ids', name))
  {
    var k := ks[n - 1];
    assert k in ks;
    if StartsWith(k, CONTACT) {
      var id := k[|CONTACT|..];
      SlotOf(k, CONTACT);
      ScanNext(db, ks, n, name, k, id, rs[id], Named(rs, ids, name));
      NamedNext(rs, ids, id, name);
    } else {
      assert ids' == ids + [] == ids;
    }
  }

  lemma {:induction false} ScanNames(db: Db, rs: map<string, Contact>, ks: seq<string>, n: nat, name: string, ids: seq<string>)
    requires Reads(db, rs) && n <= |ks| && (forall k :: k in ks ==> k in db) && ids == IdsOf(ks, n)
    ensures (forall id :: id in ids ==> id in rs) && Scan(db, ks, n, name) == Some(Named(rs, ids, name))
    decreases n
  {
    if n > 0 {
      ScanNames(db, rs, ks, n - 1, name, IdsOf(ks, n - 1));
      KeyNext(db, rs, ks, n, name, IdsOf(ks, n - 1), ids);
    }
  }

  /** The search by name gives, in the order of their keys, the contacts whose name contains the text: of all that
      the database holds, each once. */
  lemma SearchByName(db: Db, rs: map<string, Contact>, ks: seq<string>, name: string)
    requires Represents(db, rs) && KeyOrder(db, ks)
    ensures forall id :: id in IdsOf(ks, |ks|) <==> id in rs
    ensures Scan(db, ks, |ks|, name) == Some(Named(rs, IdsOf(ks, |ks|), name))
  {
    RepresentsReads(db, rs);
    AllNames(db, rs, ks, name);
  }

  lemma AllNames(db: Db, rs: map<string, Contact>, ks: seq<string>, name: string)
    requires Reads(db, rs) && forall k :: k in ks <==> k in db
    ensures forall id :: id in IdsOf(ks, |ks|) <==> id in rs
    ensures Scan(db, ks, |ks|, name) == Some(Named(rs, IdsOf(ks, |ks|), name))
  {
    ScanNames(db, rs, ks, |ks|, name, IdsOf(ks, |ks|));
    assert ks[..|ks|] == ks;
    forall id ensures id in IdsOf(ks, |ks|) <==> id in rs {
      IdsAre(ks, |ks|, id);
    }
  }

  lemma {:induction false} PrefixNotBelow(k: string, p: string)
    ensures StartsWith(k, p) ==> !Less(k, p)
  {
    if p != [] && StartsWith(k, p) {
      assert k[..|p|][0] == p[0] && k[1..][..|p| - 1] == p[1..];
      PrefixNotBelow(k[1..], p[1..]);
    }
  }

  lemma StartsCons(k: string, p: string)
    requires k != [] && p != [] && k[0] == p[0]
    ensures StartsWith(k, p) <==> StartsWith(k[1..], p[1..])
  {
    if StartsWith(k[1..], p[1..]) {
      assert k[..|p|] == [k[0]] + k[1..][..|p| - 1];
      assert p == [p[0]] + p[1..];
    }
    if StartsWith(k, p) {
      assert k[1..][..|p| - 1] == k[..|p|][1..];
    }
  }

  /** A key past the prefix that does not start with it is past every key that does. */
  lemma {:induction false} PastPrefix(k: string, j: string, p: string)
    requires !Less(k, p) && !StartsWith(k, p) && StartsWith(j, p)
    ensures Less(j, k)
  {
    assert p != [];
    assert j[..|p|][0] == p[0];
    if k[0] == p[0] {
      StartsCons(k, p);
      StartsCons(j, p);
      PastPrefix(k[1..], j[1..], p[1..]);
    }
  }

  /** Beyond the first key past the prefix there is nothing to find. */
  lemma {:induction false} NothingBeyond(db: Db, ks: seq<string>, i: nat, n: nat, name: string)
    requires KeyOrder(db, ks) && i <= n <= |ks|
    requires i < |ks| ==> !Less(ks[i], CONTACT) && !StartsWith(ks[i], CONTACT)
    ensures Scan(db, ks, n, name) == Scan(db, ks, i, name)
    decreases n
  {
    if i < n {
      NothingBeyond(db, ks, i, n - 1, name);
      if StartsWith(ks[n - 1], CONTACT) {
        PastPrefix(ks[i], ks[n - 1], CONTACT);
        LessTransitive(ks[i], ks[n - 1], ks[i]);
        LessIrreflexive(ks[i]);
      }
    }
  }

  /** Seeking the prefix and stopping at the first key without it finds what the full scan finds. */
  method SearchName(db: Db, ks: seq<string>, name: string) returns (out: Option<seq<Contact>>)
    requires KeyOrder(db, ks)
    ensures out == Scan(db, ks, |ks|, name)
  {
    var it, found := 0, [];
    while it < |ks| && Less(ks[it], CONTACT)
      invariant it <= |ks| && Scan(db, ks, it, name) == Some([])
    {
      PrefixNotBelow(ks[it], CONTACT);
      it := it + 1;
    }
    while it < |ks| && StartsWith(ks[it], CONTACT)
      invariant it <= |ks| && Scan(db, ks, it, name) == Some(found)
      invariant it < |ks| ==> !Less(ks[it], CONTACT)
    {
      var c := ReadContact(db[ks[it]]);
      if c.None? {
        ScanFails(db, ks, it + 1, |ks|, name);
        return None;
      }
      if name == "" || Contains(c.value.name, name) {
        found := found + [c.value];
      }
      it := it + 1;
      if it < |ks| {
        StillNotBelow(ks[it - 1], ks[it]);
      }
    }
    NothingBeyond(db, ks, it, |ks|, name);
    out := Some(found);
  }

  lemma StillNotBelow(j: string, k: string)
    requires !Less(j, CONTACT) && Less(j, k)
    ensures !Less(k, CONTACT)
  {
    if Less(k, CONTACT) {
      LessTransitive(j, k, CONTACT);
    }
  }

  lemma {:induction false} ScanFails(db: Db, ks: seq<string>, i: nat, n: nat, name: string)
    requires i <= n <= |ks| && (forall k :: k in ks ==> k in db) && Scan(db, ks, i, name).None?
    ensures Scan(db, ks, n, name).None?
    decreases n
  {
    if i < n {
      ScanFails(db, ks, i, n - 1, name);
    }
  }

  /** `search`: by id, or by address, or by phone, or by name, in this order of preference. */
  method Search(db: Db, ks: seq<string>, name: string, email: string, phone: string, id: string)
    returns (out: Option<seq<Contact>>)
    requires KeyOrder(db, ks)
    ensures id != "" ==> out == One(db, CONTACT + id)
    ensures id == "" && email != "" ==> out == ByKey(db, EMAIL + ToLower(email))
    ensures id == "" && email == "" && phone != "" ==> out == ByKey(db, PHONE + NormalizePhone(phone))
    ensures id == "" && email == "" && phone == "" ==> out == Scan(db, ks, |ks|, name)
  {
    if id != "" {
      return One(db, CONTACT + id);
    }
    if email != "" {
      return ByKey(db, EMAIL + ToLower(email));
    }
    if phone != "" {
      return ByKey(db, PHONE + NormalizePhone(phone));
    }
    out := SearchName(db, ks, name);
  }

  /** The record in a slot, if there is one; `None` when it cannot be read. */
  function One(db: Db, slot: string): Option<seq<Contact>> {
    if slot !in db then Some([])
    else
      var c :- ReadContact(db[slot]);
      Some([c])
  }

  function ByKey(db: Db, slot: string): Option<seq<Contact>> {
    if slot in db then One(db, CONTACT + db[slot]) else Some([])
  }

  /** On a database that represents contacts, a search by address gives the one contact a scan of all of them
      by normalized address gives, or nothing when there is none. */
  lemma SearchByEmail(db: Db, rs: map<string, Contact>, email: string)
    requires Represents(db, rs)
    ensures (forall id :: id in rs ==> EmailKey(rs[id]) != ToLower(email)) <==> ByKey(db, EMAIL + ToLower(email)) == Some([])
    ensures forall id :: id in rs && EmailKey(rs[id]) == ToLower(email) ==> ByKey(db, EMAIL + ToLower(email)) == Some([rs[id]])
  {
    IndexLookup(db, rs, EMAIL, EmailKey, ToLower(email));
    OneFound(db, rs, EMAIL, EmailKey, ToLower(email));
  }

  lemma SearchByPhone(db: Db, rs: map<string, Contact>, phone: string)
    requires Represents(db, rs)
    ensures (forall id :: id in rs ==> PhoneKey(rs[id]) != NormalizePhone(phone)) <==>
              ByKey(db, PHONE + NormalizePhone(phone)) == Some([])
    ensures forall id :: id in rs && PhoneKey(rs[id]) == NormalizePhone(phone) ==>
              ByKey(db, PHONE + NormalizePhone(phone)) == Some([rs[id]])
  {
    IndexLookup(db, rs, PHONE, PhoneKey, NormalizePhone(phone));
    OneFound(db, rs, PHONE, PhoneKey, NormalizePhone(phone));
  }

  lemma OneFound(db: Db, rs: map<string, Contact>, p: string, f: Contact -> string, k: string)
    requires Represents(db, rs) && IndexOk(View(db, p), KeysBy(f, rs))
    ensures ByKey(db, p + k) == if Through(db, p + k).Some? then Some([Through(db, p + k).value]) else Some([])
  {
    var m := View(db, p);
    assert k in m <==> p + k in db;
    if k in m {
      assert m[k] in KeysBy(f, rs);
      RecordIs(db, rs, m[k]);
    }
  }

  lemma EmptyRepresents()
    ensures Represents(map[], map[])
  {
  }

  /** After every careful run from a new database, the records and the secondary keys are in correspondence,
      and a search by address or by number is a scan of all the contacts. */
  lemma RunFromEmpty(ops: seq<Op>, db: Db, rs: map<string, Contact>, email: string, phone: string)
    requires CarefulRun(map[], ops) && db == Run(map[], ops) && rs == RunContacts(map[], map[], ops)
    ensures Represents(db, rs)
    ensures (forall id :: id in rs ==> EmailKey(rs[id]) != ToLower(email)) <==> ByKey(db, EMAIL + ToLower(email)) == Some([])
    ensures forall id :: id in rs && EmailKey(rs[id]) == ToLower(email) ==> ByKey(db, EMAIL + ToLower(email)) == Some([rs[id]])
    ensures (forall id :: id in rs ==> PhoneKey(rs[id]) != NormalizePhone(phone)) <==>
              ByKey(db, PHONE + NormalizePhone(phone)) == Some([])
    ensures forall id :: id in rs && PhoneKey(rs[id]) == NormalizePhone(phone) ==>
              ByKey(db, PHONE + NormalizePhone(phone)) == Some([rs[id]])
  {
    EmptyRepresents();
    RunKeeps(map[], map[], ops);
    SearchByEmail(db, rs, email);
    SearchByPhone(db, rs, phone);
  }
}
