/** The key-value engine: contacts under their ids, and two secondary keys for each. */
module Rocks {
  import opened Text
  import opened Json
  import opened Model
  import opened Validation
  import opened Book

  type Db = map<string, string>

  // ---------- the key space ----------

  const EMAIL: string := "email:"
  const PHONE: string := "phone:"
  const CONTACT: string := "contact:"

  predicate StartsWith(k: string, p: string) {
    |p| <= |k| && k[..|p|] == p
  }

  lemma Slot(p: string, x: string)
    ensures StartsWith(p + x, p) && (p + x)[|p|..] == x
  {
  }

  lemma SlotOf(k: string, p: string)
    requires StartsWith(k, p)
    ensures p + k[|p|..] == k
  {
  }

  /** The entries under a prefix, without the prefix. */
  ghost function View(db: Db, p: string): (m: map<string, string>)
    ensures forall x :: x in m <==> p + x in db
    ensures forall x :: x in m ==> m[x] == db[p + x]
  {
    var ks := set k | k in db && StartsWith(k, p) :: k[|p|..];
    forall x ensures x in ks <==> p + x in db {
      Slot(p, x);
      if x in ks {
        var k :| k in db && StartsWith(k, p) && k[|p|..] == x;
        SlotOf(k, p);
      }
    }
    map x | x in ks :: db[p + x]
  }

  /** The first letter tells the three prefixes apart. */
  predicate Apart(p: string, q: string) {
    p != [] && q != [] && p[0] != q[0]
  }

  lemma SlotsDiffer(p: string, a: string, q: string, b: string)
    ensures Apart(p, q) ==> p + a != q + b
    ensures p + a == p + b ==> a == b
  {
    if Apart(p, q) {
      assert (p + a)[0] == p[0] && (q + b)[0] == q[0];
    }
    Slot(p, a);
    Slot(p, b);
  }

  lemma ViewPut(db: Db, p: string, x: string, v: string)
    ensures View(db[p + x := v], p) == View(db, p)[x := v]
  {
    forall y ensures p + y == p + x <==> y == x {
      SlotsDiffer(p, x, p, y);
    }
  }

  lemma ViewDelete(db: Db, p: string, x: string)
    ensures View(db - {p + x}, p) == View(db, p) - {x}
  {
    forall y ensures p + y == p + x <==> y == x {
      SlotsDiffer(p, x, p, y);
    }
  }

  lemma ViewOther(db: Db, p: string, q: string, x: string, v: string)
    requires Apart(p, q)
    ensures View(db[q + x := v], p) == View(db, p) && View(db - {q + x}, p) == View(db, p)
  {
    forall y ensures p + y != q + x {
      SlotsDiffer(p, y, q, x);
    }
  }

  // ---------- write batches ----------

  datatype Write = Put(key: string, value: string) | Delete(key: string)

  /** The writes of a batch take effect in order, all or none. */
  function Apply(db: Db, batch: seq<Write>): Db {
    if batch == [] then db
    else
      var before := Apply(db, batch[..|batch| - 1]);
      match batch[|batch| - 1]
      case Put(k, v) => before[k := v]
      case Delete(k) => before - {k}
  }

  function AddBatch(c: Contact): seq<Write> {
    [Put(CONTACT + c.id, ContactLine(c)), Put(EMAIL + EmailKey(c), c.id), Put(PHONE + PhoneKey(c), c.id)]
  }

  function EditBatch(id: string, was: Contact, c: Contact): seq<Write> {
    [Put(CONTACT + id, ContactLine(c)),
     Delete(EMAIL + EmailKey(was)), Delete(PHONE + PhoneKey(was)),
     Put(EMAIL + EmailKey(c), id), Put(PHONE + PhoneKey(c), id)]
  }

  function RemoveBatch(id: string, c: Contact): seq<Write> {
    [Delete(CONTACT + id), Delete(EMAIL + EmailKey(c)), Delete(PHONE + PhoneKey(c))]
  }

  /** What one write does to the three views. */
  lemma ApplyPut(db: Db, batch: seq<Write>, p: string, q: string, x: string, v: string)
    requires p == q || Apart(p, q)
    ensures View(Apply(db, batch + [Put(q + x, v)]), p) ==
            if p == q then View(Apply(db, batch), p)[x := v] else View(Apply(db, batch), p)
  {
    var b' := batch + [Put(q + x, v)];
    assert b'[..|b'| - 1] == batch;
    if p == q {
      ViewPut(Apply(db, batch), p, x, v);
    } else {
      ViewOther(Apply(db, batch), p, q, x, v);
    }
  }

  lemma ApplyDelete(db: Db, batch: seq<Write>, p: string, q: string, x: string)
    requires p == q || Apart(p, q)
    ensures View(Apply(db, batch + [Delete(q + x)]), p) ==
            if p == q then View(Apply(db, batch), p) - {x} else View(Apply(db, batch), p)
  {
    var b' := batch + [Delete(q + x)];
    assert b'[..|b'| - 1] == batch;
    if p == q {
      ViewDelete(Apply(db, batch), p, x);
    } else {
      ViewOther(Apply(db, batch), p, q, x, "");
    }
  }

  lemma AddEffect(db: Db, c: Contact, p: string)
    requires p == EMAIL || p == PHONE || p == CONTACT
    ensures var db' := Apply(db, AddBatch(c));
            View(db', p) == if p == EMAIL then View(db, p)[EmailKey(c) := c.id]
                            else if p == PHONE then View(db, p)[PhoneKey(c) := c.id]
                            else View(db, p)[c.id := ContactLine(c)]
  {
    var w := AddBatch(c);
    ApplyPut(db, [], p, CONTACT, c.id, ContactLine(c));
    ApplyPut(db, [w[0]], p, EMAIL, EmailKey(c), c.id);
    ApplyPut(db, [w[0], w[1]], p, PHONE, PhoneKey(c), c.id);
    Batch3(w);
  }

  /** The keys under which a contact is put. */
  lemma AddKeys(db: Db, c: Contact)
    ensures var db' := Apply(db, AddBatch(c));
            && "contact:" + c.id in db' && db'["contact:" + c.id] == ContactLine(c)
            && "email:" + ToLower(c.email) in db' && db'["email:" + ToLower(c.email)] == c.id
            && "phone:" + NormalizePhone(c.phone) in db' && db'["phone:" + NormalizePhone(c.phone)] == c.id
  {
    AddEffect(db, c, CONTACT);
    AddEffect(db, c, EMAIL);
    AddEffect(db, c, PHONE);
    var db' := Apply(db, AddBatch(c));
    InView(db', CONTACT, c.id);
    InView(db', EMAIL, EmailKey(c));
    InView(db', PHONE, PhoneKey(c));
  }

  lemma InView(db: Db, p: string, x: string)
    ensures x in View(db, p) <==> p + x in db
    ensures x in View(db, p) ==> View(db, p)[x] == db[p + x]
  {
  }

  lemma Batch3(w: seq<Write>)
    requires |w| == 3
    ensures [] + [w[0]] == [w[0]] && [w[0]] + [w[1]] == [w[0], w[1]] && [w[0], w[1]] + [w[2]] == w
  {
  }

  lemma Batch5(w: seq<Write>)
    requires |w| == 5
    ensures [] + [w[0]] == [w[0]] && [w[0]] + [w[1]] == [w[0], w[1]] && [w[0], w[1]] + [w[2]] == [w[0], w[1], w[2]]
    ensures [w[0], w[1], w[2]] + [w[3]] == [w[0], w[1], w[2], w[3]] && [w[0], w[1], w[2], w[3]] + [w[4]] == w
  {
  }

  lemma EditEffect(db: Db, id: string, was: Contact, c: Contact, p: string)
    requires p == EMAIL || p == PHONE || p == CONTACT
    ensures var db' := Apply(db, EditBatch(id, was, c));
            View(db', p) == if p == EMAIL then (View(db, p) - {EmailKey(was)})[EmailKey(c) := id]
                            else if p == PHONE then (View(db, p) - {PhoneKey(was)})[PhoneKey(c) := id]
                            else View(db, p)[id := ContactLine(c)]
  {
    var w := EditBatch(id, was, c);
    ApplyPut(db, [], p, CONTACT, id, ContactLine(c));
    ApplyDelete(db, [w[0]], p, EMAIL, EmailKey(was));
    ApplyDelete(db, [w[0], w[1]], p, PHONE, PhoneKey(was));
    ApplyPut(db, [w[0], w[1], w[2]], p, EMAIL, EmailKey(c), id);
    ApplyPut(db, [w[0], w[1], w[2], w[3]], p, PHONE, PhoneKey(c), id);
    Batch5(w);
  }

  lemma RemoveEffect(db: Db, id: string, c: Contact, p: string)
    requires p == EMAIL || p == PHONE || p == CONTACT
    ensures var db' := Apply(db, RemoveBatch(id, c));
            View(db', p) == View(db, p) - {if p == EMAIL then EmailKey(c) else if p == PHONE then PhoneKey(c) else id}
  {
    var w := RemoveBatch(id, c);
    ApplyDelete(db, [], p, CONTACT, id);
    ApplyDelete(db, [w[0]], p, EMAIL, EmailKey(c));
    ApplyDelete(db, [w[0], w[1]], p, PHONE, PhoneKey(c));
    Batch3(w);
  }

  // ---------- what a database represents ----------

  /** The contacts are exactly what the records read back as, under their ids. */
  ghost predicate RecordsOk(m: map<string, string>, rs: map<string, Contact>) {
    m.Keys == rs.Keys && forall id :: id in rs ==> ReadContact(m[id]) == Some(rs[id])
  }

  /** The key of each contact. */
  function KeysBy(f: Contact -> string, rs: map<string, Contact>): map<string, string> {
    map id | id in rs :: f(rs[id])
  }

  /** A map from keys to ids that is exactly `key of a contact -> its id`. */
  ghost predicate IndexOk(m: map<string, string>, keys: map<string, string>) {
    && (forall id :: id in keys ==> keys[id] in m && m[keys[id]] == id)
    && (forall k :: k in m ==> m[k] in keys && keys[m[k]] == k)
  }

  /** Adding an entry for a key not in the index keeps it exact just when the id is new and the key is the
      contact's. */
  lemma IndexAdd(m: map<string, string>, keys: map<string, string>, id: string, k: string, key: string)
    requires IndexOk(m, keys) && k !in m
    ensures IndexOk(m[k := id], keys[id := key]) <==> id !in keys && k == key
  {
    var m', keys' := m[k := id], keys[id := key];
    assert k in m' && m'[k] == id && keys'[id] == key;
    if id in keys && k == key {
      assert keys[id] in m' && m'[keys[id]] == id && keys'[id] != keys[id];
    }
  }

  /** Deleting the old key and then putting the new one keeps the index exact just when nobody else has the new
      one and it is the contact's. */
  lemma IndexEdit(m: map<string, string>, keys: map<string, string>, id: string, k: string, key: string)
    requires IndexOk(m, keys) && id in keys
    ensures IndexOk((m - {keys[id]})[k := id], keys[id := key]) <==> (k in m ==> m[k] == id) && k == key
  {
    var m', keys' := (m - {keys[id]})[k := id], keys[id := key];
    assert k in m' && m'[k] == id && keys'[id] == key;
    if k in m && m[k] != id {
      assert keys'[m[k]] == k && m'[k] == id;
    }
  }

  /** Putting first and deleting afterwards would lose the entry of a contact whose key is unchanged. */
  lemma PutThenDelete(m: map<string, string>, keys: map<string, string>, id: string)
    requires IndexOk(m, keys) && id in keys
    ensures !IndexOk(m[keys[id] := id] - {keys[id]}, keys)
  {
  }

  lemma IndexRemove(m: map<string, string>, keys: map<string, string>, id: string)
    requires IndexOk(m, keys) && id in keys
    ensures IndexOk(m - {keys[id]}, keys - {id})
  {
  }

  /** The database holds exactly these contacts, and its secondary keys are exactly theirs. */
  ghost predicate Represents(db: Db, rs: map<string, Contact>) {
    && RecordsOk(View(db, CONTACT), rs)
    && IndexOk(View(db, EMAIL), KeysBy(EmailKey, rs))
    && IndexOk(View(db, PHONE), KeysBy(PhoneKey, rs))
  }

  lemma KeysUpdate(f: Contact -> string, rs: map<string, Contact>, id: string, c: Contact)
    ensures KeysBy(f, rs[id := c]) == KeysBy(f, rs)[id := f(c)]
    ensures KeysBy(f, rs - {id}) == KeysBy(f, rs) - {id}
  {
  }

  lemma RecordPut(m: map<string, string>, rs: map<string, Contact>, id: string, c: Contact)
    requires RecordsOk(m, rs)
    ensures RecordsOk(m[id := ContactLine(c)], rs[id := Stripped(c)])
  {
    ReadStripped(c);
  }

  /** The number of the contact as it reads back has the key under which the contact is indexed. */
  predicate KeyReadsBack(c: Contact) {
    NormalizePhone(StripStr(c.phone)) == NormalizePhone(c.phone)
  }

  /** A valid address reads back as it is, so its key does. */
  lemma EmailReadsBack(c: Contact)
    requires IsValidEmail(c.email)
    ensures EmailKey(Stripped(c)) == EmailKey(c)
  {
    forall i | 0 <= i < |c.email| ensures !Lossy(c.email[i]) {
      ValidEmailChars(c.email, c.email[i]);
    }
    StripStrSame(c.email);
  }

  lemma AddIndex(m: map<string, string>, rs: map<string, Contact>, c: Contact, f: Contact -> string)
    requires IndexOk(m, KeysBy(f, rs)) && f(c) !in m
    ensures IndexOk(m[f(c) := c.id], KeysBy(f, rs[c.id := Stripped(c)])) <==> c.id !in rs && f(c) == f(Stripped(c))
  {
    KeysUpdate(f, rs, c.id, Stripped(c));
    IndexAdd(m, KeysBy(f, rs), c.id, f(c), f(Stripped(c)));
  }

  /** An accepted add keeps the correspondence exactly when its id is new and its number reads back with the
      same key: a repeated id leaves the old contact's keys behind. */
  lemma AddKeeps(db: Db, rs: map<string, Contact>, c: Contact)
    requires Represents(db, rs) && IsValidEmail(c.email)
    requires EMAIL + EmailKey(c) !in db && PHONE + PhoneKey(c) !in db
    ensures Represents(Apply(db, AddBatch(c)), rs[c.id := Stripped(c)]) <==> c.id !in rs && KeyReadsBack(c)
  {
    var db', rs' := Apply(db, AddBatch(c)), rs[c.id := Stripped(c)];
    EmailReadsBack(c);
    assert IndexOk(View(db', EMAIL), KeysBy(EmailKey, rs')) <==> c.id !in rs by {
      AddEffect(db, c, EMAIL);
      AddIndex(View(db, EMAIL), rs, c, EmailKey);
    }
    assert IndexOk(View(db', PHONE), KeysBy(PhoneKey, rs')) <==> c.id !in rs && KeyReadsBack(c) by {
      AddEffect(db, c, PHONE);
      AddIndex(View(db, PHONE), rs, c, PhoneKey);
    }
    assert RecordsOk(View(db', CONTACT), rs') by {
      AddEffect(db, c, CONTACT);
      RecordPut(View(db, CONTACT), rs, c.id, c);
    }
  }

  /** Neither key of the contact belongs to a contact with another id. */
  predicate Free(db: Db, id: string, c: Contact) {
    && (EMAIL + EmailKey(c) in db ==> db[EMAIL + EmailKey(c)] == id)
    && (PHONE + PhoneKey(c) in db ==> db[PHONE + PhoneKey(c)] == id)
  }

  /** An edit keeps the correspondence exactly when neither new key belongs to another contact and the number
      reads back with the same key. */
  lemma EditKeeps(db: Db, rs: map<string, Contact>, id: string, c: Contact)
    requires Represents(db, rs) && id in rs && IsValidEmail(c.email)
    ensures Represents(Apply(db, EditBatch(id, rs[id], c)), rs[id := Stripped(c)]) <==> Free(db, id, c) && KeyReadsBack(c)
  {
    var db', rs' := Apply(db, EditBatch(id, rs[id], c)), rs[id := Stripped(c)];
    EmailReadsBack(c);
    EditEmails(db, rs, id, c);
    EditPhones(db, rs, id, c);
    assert RecordsOk(View(db', CONTACT), rs') by {
      EditEffect(db, id, rs[id], c, CONTACT);
      RecordPut(View(db, CONTACT), rs, id, c);
    }
  }

  lemma EditIndex(m: map<string, string>, rs: map<string, Contact>, id: string, c: Contact, f: Contact -> string)
    requires IndexOk(m, KeysBy(f, rs)) && id in rs
    ensures IndexOk((m - {f(rs[id])})[f(c) := id], KeysBy(f, rs[id := Stripped(c)])) <==>
              (f(c) in m ==> m[f(c)] == id) && f(c) == f(Stripped(c))
  {
    KeysUpdate(f, rs, id, Stripped(c));
    IndexEdit(m, KeysBy(f, rs), id, f(c), f(Stripped(c)));
  }

  lemma EditEmails(db: Db, rs: map<string, Contact>, id: string, c: Contact)
    requires IndexOk(View(db, EMAIL), KeysBy(EmailKey, rs)) && id in rs && EmailKey(Stripped(c)) == EmailKey(c)
    ensures IndexOk(View(Apply(db, EditBatch(id, rs[id], c)), EMAIL), KeysBy(EmailKey, rs[id := Stripped(c)])) <==>
              (EMAIL + EmailKey(c) in db ==> db[EMAIL + EmailKey(c)] == id)
  {
    EditEffect(db, id, rs[id], c, EMAIL);
    EditIndex(View(db, EMAIL), rs, id, c, EmailKey);
  }

  lemma EditPhones(db: Db, rs: map<string, Contact>, id: string, c: Contact)
    requires IndexOk(View(db, PHONE), KeysBy(PhoneKey, rs)) && id in rs
    ensures IndexOk(View(Apply(db, EditBatch(id, rs[id], c)), PHONE), KeysBy(PhoneKey, rs[id := Stripped(c)])) <==>
              (PHONE + PhoneKey(c) in db ==> db[PHONE + PhoneKey(c)] == id) && KeyReadsBack(c)
  {
    EditEffect(db, id, rs[id], c, PHONE);
    EditIndex(View(db, PHONE), rs, id, c, PhoneKey);
  }

  lemma RemoveKeeps(db: Db, rs: map<string, Contact>, id: string)
    requires Represents(db, rs) && id in rs
    ensures Represents(Apply(db, RemoveBatch(id, rs[id])), rs - {id})
  {
    var db', rs' := Apply(db, RemoveBatch(id, rs[id])), rs - {id};
    assert IndexOk(View(db', EMAIL), KeysBy(EmailKey, rs')) by {
      RemoveEffect(db, id, rs[id], EMAIL);
      KeysUpdate(EmailKey, rs, id, rs[id]);
      IndexRemove(View(db, EMAIL), KeysBy(EmailKey, rs), id);
    }
    assert IndexOk(View(db', PHONE), KeysBy(PhoneKey, rs')) by {
      RemoveEffect(db, id, rs[id], PHONE);
      KeysUpdate(PhoneKey, rs, id, rs[id]);
      IndexRemove(View(db, PHONE), KeysBy(PhoneKey, rs), id);
    }
    assert RecordsOk(View(db', CONTACT), rs') by {
      RemoveEffect(db, id, rs[id], CONTACT);
    }
  }

  lemma CodeLength(country: string)
    ensures |CallingCode(country)| >= 2
  {
  }

  /** A number without a sign and of ten digits or more gets a calling code in front of them. */
  lemma CodeInFront(phone: string, code: string)
    requires phone != [] && phone[0] != '+' && |Digits(phone)| >= 10 && code == CallingCode(DEFAULT_COUNTRY)
    ensures NormalizePhone(phone) == code + Digits(phone)
  {
  }

  lemma SignInFront(phone: string)
    requires phone != [] && phone[0] == '+' && Digits(phone) != []
    ensures NormalizePhone(phone) == "+" + Digits(phone)
  {
  }

  /** A control character in front of a number with a sign is lost in the record; without it the sign stands
      first, and no calling code is put before the digits. */
  lemma LossyNumber(x: char, s: string)
    requires Lossy(x) && !IsDigit(x) && s != [] && s[0] == '+' && CleanStr(s) && |Digits(s)| >= 10
    ensures var phone := [x] + s; IsValidPhone(phone) && NormalizePhone(StripStr(phone)) != NormalizePhone(phone)
  {
    var phone, code := [x] + s, CallingCode(DEFAULT_COUNTRY);
    CodeLength(DEFAULT_COUNTRY);
    assert phone[1..] == s && [] + s == s && [] + Digits(s) == Digits(s);
    StripStrSame(s);
    CodeInFront(phone, code);
    SignInFront(s);
  }

  lemma SignedDigits(d: string)
    requires forall c :: c in d ==> IsDigit(c)
    ensures CleanStr(['+'] + d) && Digits(['+'] + d) == d
  {
    DigitsOfDigits(d);
    assert (['+'] + d)[1..] == d && [] + d == d;
    forall i | 0 <= i < |d| ensures IsDigit(d[i]) {
      assert d[i] in d;
    }
  }

  /** Valid numbers that do not read back with their key. */
  lemma NumberChangesKey(d: string)
    requires |d| >= 10 && forall c :: c in d ==> IsDigit(c)
    ensures var phone := [1 as char] + (['+'] + d);
            IsValidPhone(phone) && NormalizePhone(StripStr(phone)) != NormalizePhone(phone)
  {
    SignedDigits(d);
    LossyNumber(1 as char, ['+'] + d);
  }
}
