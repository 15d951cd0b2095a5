/** What every operation on the book keeps, over every run. */
module BookInvariant {
  import opened Text
  import opened Model
  import opened Validation
  import opened Book

  // ---------- one map ----------

  lemma {:induction false} ReindexSound(m: map<string, nat>, keys: seq<string>, k: nat)
    requires k <= |keys|
    requires forall x :: x in m ==> (m[x] < |keys| && keys[m[x]] == x) || x in keys[k..]
    ensures SoundMap(Reindex(m, keys, k), keys)
    decreases |keys| - k
  {
    if k < |keys| {
      var m' := m[keys[k] := k];
      assert keys[k..] == [keys[k]] + keys[k + 1..];
      ReindexSound(m', keys, k + 1);
    }
  }

  lemma {:induction false} ReindexExact(m: map<string, nat>, keys: seq<string>, k: nat)
    requires k <= |keys|
    requires forall i, j :: 0 <= i < j < |keys| ==> keys[i] != keys[j]
    requires forall x :: x in m ==> (m[x] < |keys| && keys[m[x]] == x) || x in keys[k..]
    requires forall i :: 0 <= i < k ==> keys[i] in m && m[keys[i]] == i
    ensures ExactMap(Reindex(m, keys, k), keys)
    decreases |keys| - k
  {
    if k < |keys| {
      var m' := m[keys[k] := k];
      assert keys[k..] == [keys[k]] + keys[k + 1..];
      ReindexExact(m', keys, k + 1);
    }
  }

  function Without<T>(s: seq<T>, i: nat): seq<T>
    requires i < |s|
  {
    s[..i] + s[i + 1..]
  }

  lemma WithoutKeys(m: map<string, nat>, keys: seq<string>, i: nat)
    requires i < |keys| && SoundMap(m, keys)
    ensures var m' := m - {keys[i]}; var ks := Without(keys, i);
            forall x :: x in m' ==> (m'[x] < |ks| && ks[m'[x]] == x) || x in ks[i..]
  {
    var m' := m - {keys[i]};
    var ks := Without(keys, i);
    forall x | x in m' ensures (m'[x] < |ks| && ks[m'[x]] == x) || x in ks[i..] {
      if m[x] > i {
        assert ks[i..][m[x] - 1 - i] == x;
      }
    }
  }

  lemma RemoveKeySound(m: map<string, nat>, keys: seq<string>, i: nat)
    requires i < |keys| && SoundMap(m, keys)
    ensures SoundMap(Reindex(m - {keys[i]}, Without(keys, i), i), Without(keys, i))
  {
    WithoutKeys(m, keys, i);
    ReindexSound(m - {keys[i]}, Without(keys, i), i);
  }

  lemma DistinctWithout(keys: seq<string>, i: nat)
    requires i < |keys| && forall a, b :: 0 <= a < b < |keys| ==> keys[a] != keys[b]
    ensures var ks := Without(keys, i); forall a, b :: 0 <= a < b < |ks| ==> ks[a] != ks[b]
  {
    var ks := Without(keys, i);
    forall a, b | 0 <= a < b < |ks| ensures ks[a] != ks[b] {
      var a', b' := if a < i then a else a + 1, if b < i then b else b + 1;
      assert ks[a] == keys[a'] && ks[b] == keys[b'];
    }
  }

  lemma ExactDistinct(m: map<string, nat>, keys: seq<string>)
    requires ExactMap(m, keys)
    ensures forall a, b :: 0 <= a < b < |keys| ==> keys[a] != keys[b]
  {
  }

  lemma BelowWithout(m: map<string, nat>, keys: seq<string>, i: nat)
    requires i < |keys| && ExactMap(m, keys)
    ensures forall a :: 0 <= a < i ==> Without(keys, i)[a] in m - {keys[i]} && (m - {keys[i]})[Without(keys, i)[a]] == a
  {
    forall a | 0 <= a < i
      ensures Without(keys, i)[a] in m - {keys[i]} && (m - {keys[i]})[Without(keys, i)[a]] == a
    {
      assert Without(keys, i)[a] == keys[a] && keys[a] != keys[i];
    }
  }

  lemma RemoveKeyExact(m: map<string, nat>, keys: seq<string>, i: nat)
    requires i < |keys| && ExactMap(m, keys)
    ensures ExactMap(Reindex(m - {keys[i]}, Without(keys, i), i), Without(keys, i))
  {
    ExactDistinct(m, keys);
    DistinctWithout(keys, i);
    BelowWithout(m, keys, i);
    WithoutKeys(m, keys, i);
    ReindexExact(m - {keys[i]}, Without(keys, i), i);
  }

  /** Appending a key keeps exactness exactly when the key is new. */
  lemma AppendKey(m: map<string, nat>, keys: seq<string>, k: string)
    requires ExactMap(m, keys)
    ensures ExactMap(m[k := |keys|], keys + [k]) <==> k !in m
  {
    var m', ks := m[k := |keys|], keys + [k];
    if k !in m {
      forall i | 0 <= i < |ks| ensures ks[i] in m' && m'[ks[i]] == i {
        if i < |keys| {
          assert ks[i] == keys[i];
        }
      }
    } else {
      assert ks[m[k]] == k;
    }
  }

  /** Re-keying a position keeps exactness exactly when no other position has the key. */
  lemma ChangeKey(m: map<string, nat>, keys: seq<string>, i: nat, k: string)
    requires i < |keys| && ExactMap(m, keys)
    ensures ExactMap((m - {keys[i]})[k := i], keys[i := k]) <==> (k in m ==> m[k] == i)
  {
    var m', ks := (m - {keys[i]})[k := i], keys[i := k];
    if k in m && m[k] != i {
      assert ks[m[k]] == k && ks[i] == k;
    } else {
      forall j | 0 <= j < |ks| ensures ks[j] in m' && m'[ks[j]] == j {
        if j != i {
          assert ks[j] == keys[j] && keys[j] != keys[i];
        }
      }
    }
  }

  /** An exact map has one entry a position, so no two positions share a key. */
  lemma {:induction false} ExactMapCount(m: map<string, nat>, keys: seq<string>)
    requires ExactMap(m, keys)
    ensures |m| == |keys|
    ensures forall i, j :: 0 <= i < j < |keys| ==> keys[i] != keys[j]
  {
    if keys == [] {
      assert m.Keys == {};
    } else {
      var n := |keys| - 1;
      var m' := m - {keys[n]};
      assert keys[..n] == Without(keys, n);
      forall i | 0 <= i < n ensures keys[..n][i] in m' && m'[keys[..n][i]] == i {
        assert keys[i] != keys[n];
      }
      ExactMapCount(m', keys[..n]);
      assert m.Keys == m'.Keys + {keys[n]};
    }
  }

  // ---------- one operation ----------

  lemma AppendIndexed(b: Book, c: Contact)
    requires Agree(b)
    ensures Agree(Append(b, c)) <==> EmailKey(c) !in b.emailToI && PhoneKey(c) !in b.phoneToI
  {
    AppendKey(b.emailToI, EmailKeys(b.contacts), EmailKey(c));
    AppendKey(b.phoneToI, PhoneKeys(b.contacts), PhoneKey(c));
    assert EmailKeys(b.contacts + [c]) == EmailKeys(b.contacts) + [EmailKey(c)];
    assert PhoneKeys(b.contacts + [c]) == PhoneKeys(b.contacts) + [PhoneKey(c)];
  }

  lemma SetEmailIndexed(b: Book, i: nat, email: string)
    requires i < |b.contacts| && Agree(b)
    ensures Agree(SetEmail(b, i, email)) <==> (ToLower(email) in b.emailToI ==> b.emailToI[ToLower(email)] == i)
  {
    ToLowerIdempotent(email);
    ChangeKey(b.emailToI, EmailKeys(b.contacts), i, ToLower(email));
    var b' := SetEmail(b, i, email);
    assert EmailKeys(b'.contacts) == EmailKeys(b.contacts)[i := ToLower(email)];
    assert PhoneKeys(b'.contacts) == PhoneKeys(b.contacts);
  }

  lemma SetPhoneIndexed(b: Book, i: nat, phone: string)
    requires i < |b.contacts| && Agree(b)
    ensures Agree(SetPhone(b, i, phone)) <==> (NormalizePhone(phone) in b.phoneToI ==> b.phoneToI[NormalizePhone(phone)] == i)
  {
    NormalizePhoneIdempotent(phone);
    ChangeKey(b.phoneToI, PhoneKeys(b.contacts), i, NormalizePhone(phone));
    var b' := SetPhone(b, i, phone);
    assert PhoneKeys(b'.contacts) == PhoneKeys(b.contacts)[i := NormalizePhone(phone)];
    assert EmailKeys(b'.contacts) == EmailKeys(b.contacts);
  }

  lemma SetPhoneSound(b: Book, i: nat, phone: string)
    requires i < |b.contacts| && Sound(b)
    ensures Sound(SetPhone(b, i, phone))
  {
    NormalizePhoneIdempotent(phone);
    assert EmailKeys(SetPhone(b, i, phone).contacts) == EmailKeys(b.contacts);
  }

  lemma KeysWithout(cs: seq<Contact>, i: nat)
    requires i < |cs|
    ensures EmailKeys(Without(cs, i)) == Without(EmailKeys(cs), i)
    ensures PhoneKeys(Without(cs, i)) == Without(PhoneKeys(cs), i)
  {
  }

  lemma RemoveParts(b: Book, i: nat)
    requires i < |b.contacts|
    ensures var r := Remove(b, i);
            && r.contacts == Without(b.contacts, i)
            && EmailKeys(r.contacts) == Without(EmailKeys(b.contacts), i)
            && PhoneKeys(r.contacts) == Without(PhoneKeys(b.contacts), i)
            && r.emailToI == Reindex(b.emailToI - {EmailKeys(b.contacts)[i]}, Without(EmailKeys(b.contacts), i), i)
            && r.phoneToI == Reindex(b.phoneToI - {PhoneKeys(b.contacts)[i]}, Without(PhoneKeys(b.contacts), i), i)
  {
    KeysWithout(b.contacts, i);
  }

  lemma RemoveIndexed(b: Book, i: nat)
    requires i < |b.contacts| && Sound(b)
    ensures Sound(Remove(b, i))
    ensures Agree(b) ==> Agree(Remove(b, i))
  {
    RemoveParts(b, i);
    RemoveKeySound(b.emailToI, EmailKeys(b.contacts), i);
    RemoveKeySound(b.phoneToI, PhoneKeys(b.contacts), i);
    if Agree(b) {
      RemoveKeyExact(b.emailToI, EmailKeys(b.contacts), i);
      RemoveKeyExact(b.phoneToI, PhoneKeys(b.contacts), i);
    }
  }

  /** In a consistent book the index answers as a scan of the contacts would. */
  lemma LookupExact(b: Book, email: string, phone: string, skip: string)
    requires Agree(b)
    ensures EmailExists(b, email, skip) <==>
            exists i :: 0 <= i < |b.contacts| && EmailKey(b.contacts[i]) == ToLower(email) && b.contacts[i].id != skip
    ensures PhoneExists(b, phone, skip) <==>
            exists i :: 0 <= i < |b.contacts| && PhoneKey(b.contacts[i]) == NormalizePhone(phone) && b.contacts[i].id != skip
  {
    if ToLower(email) in b.emailToI {
      var i := b.emailToI[ToLower(email)];
      assert EmailKeys(b.contacts)[i] == EmailKey(b.contacts[i]);
    }
    if NormalizePhone(phone) in b.phoneToI {
      var i := b.phoneToI[NormalizePhone(phone)];
      assert PhoneKeys(b.contacts)[i] == PhoneKey(b.contacts[i]);
    }
    forall i | 0 <= i < |b.contacts|
      ensures EmailKey(b.contacts[i]) in b.emailToI && b.emailToI[EmailKey(b.contacts[i])] == i
      ensures PhoneKey(b.contacts[i]) in b.phoneToI && b.phoneToI[PhoneKey(b.contacts[i])] == i
    {
      assert EmailKeys(b.contacts)[i] == EmailKey(b.contacts[i]);
      assert PhoneKeys(b.contacts)[i] == PhoneKey(b.contacts[i]);
    }
  }

  lemma AddIs(b: Book, f: Fields, user: string, id: string, now: string, limit: nat, p: Persist)
    requires Sound(b)
    ensures Add(b, f, user, id, now, limit, p).book ==
            if Fault(b, f, limit) == NoError then Append(b, NewContact(f, user, id, now)) else b
  {
  }

  /** In a consistent book the checks of an accepted add mean that its keys are new. */
  lemma FreeKeys(b: Book, f: Fields, limit: nat)
    requires Consistent(b) && Fault(b, f, limit) == NoError
    ensures ToLower(ToLower(f.email)) !in b.emailToI && NormalizePhone(NormalizePhone(f.phone)) !in b.phoneToI
  {
    ToLowerIdempotent(f.email);
    NormalizePhoneIdempotent(f.phone);
  }

  lemma AppendConsistent(b: Book, c: Contact)
    requires Consistent(b) && EmailKey(c) !in b.emailToI && PhoneKey(c) !in b.phoneToI && c.id != "" && c.id !in Ids(b.contacts)
    ensures Consistent(Append(b, c))
  {
    AppendIndexed(b, c);
    IdsAppend(b.contacts, c);
  }

  lemma AddKeeps(b: Book, f: Fields, user: string, id: string, now: string, limit: nat, p: Persist)
    requires Sound(b)
    ensures Sound(Add(b, f, user, id, now, limit, p).book)
    ensures Consistent(b) && id != "" && id !in Ids(b.contacts) ==> Consistent(Add(b, f, user, id, now, limit, p).book)
  {
    var c := NewContact(f, user, id, now);
    AddIs(b, f, user, id, now, limit, p);
    AppendSound(b, c);
    if Fault(b, f, limit) == NoError && Consistent(b) && id != "" && id !in Ids(b.contacts) {
      FreeKeys(b, f, limit);
      AppendConsistent(b, c);
    }
  }

  ghost function Ids(cs: seq<Contact>): set<string> {
    set i | 0 <= i < |cs| :: cs[i].id
  }

  lemma IdsAppend(cs: seq<Contact>, c: Contact)
    requires IdsDistinct(cs)
    ensures IdsDistinct(cs + [c]) <==> c.id != "" && c.id !in Ids(cs)
  {
    var cs' := cs + [c];
    assert cs'[|cs|] == c;
    assert forall i :: 0 <= i < |cs| ==> cs'[i] == cs[i];
    if c.id in Ids(cs) {
      var i :| 0 <= i < |cs| && cs[i].id == c.id;
      assert cs'[i].id == cs'[|cs|].id;
    }
  }

  lemma SameIds(cs: seq<Contact>, cs': seq<Contact>)
    requires |cs| == |cs'| && forall i :: 0 <= i < |cs| ==> cs[i].id == cs'[i].id
    ensures Ids(cs) == Ids(cs')
    ensures IdsDistinct(cs) <==> IdsDistinct(cs')
  {
    forall x | x in Ids(cs) ensures x in Ids(cs') {
      var i :| 0 <= i < |cs| && cs[i].id == x;
      assert cs'[i].id == x;
    }
    forall x | x in Ids(cs') ensures x in Ids(cs) {
      var i :| 0 <= i < |cs| && cs'[i].id == x;
      assert cs[i].id == x;
    }
  }

  /** What an edit leaves alone: the order, the ids, and every contact but the one named. */
  ghost predicate SameBut(cs: seq<Contact>, cs': seq<Contact>, i: nat) {
    |cs| == |cs'| && (forall k :: 0 <= k < |cs| && k != i ==> cs'[k] == cs[k]) &&
    (i < |cs| ==> cs'[i].id == cs[i].id && cs'[i].createdAt == cs[i].createdAt)
  }

  /** What every stage of an edit keeps. */
  ghost predicate Kept(b: Book, b': Book, i: nat) {
    Sound(b') && SameBut(b.contacts, b'.contacts, i) && (Consistent(b) ==> Consistent(b'))
  }

  lemma KeptWhen(b: Book, b': Book, i: nat)
    requires i < |b.contacts| && Sound(b') && SameBut(b.contacts, b'.contacts, i)
    requires Consistent(b) ==> Agree(b')
    ensures Kept(b, b', i)
  {
    SameIds(b.contacts, b'.contacts);
  }

  lemma NameKept(b: Book, i: nat, name: string)
    requires Sound(b) && i < |b.contacts|
    ensures Kept(b, EditName(b, i, name).book, i)
  {
    NameStageSound(b, i, name);
    KeptWhen(b, EditName(b, i, name).book, i);
  }

  lemma EmailKept(b: Book, i: nat, id: string, email: string)
    requires Sound(b) && i < |b.contacts| && b.contacts[i].id == id
    ensures Kept(b, EditEmail(b, i, id, email).book, i)
  {
    SetEmailSound(b, i, email);
    if Consistent(b) {
      SetEmailIndexed(b, i, email);
    }
    KeptWhen(b, EditEmail(b, i, id, email).book, i);
  }

  lemma PhoneKept(b: Book, i: nat, id: string, phone: string)
    requires Sound(b) && i < |b.contacts| && b.contacts[i].id == id
    ensures Kept(b, EditPhone(b, i, id, phone).book, i)
  {
    SetPhoneSound(b, i, phone);
    if Consistent(b) {
      SetPhoneIndexed(b, i, phone);
    }
    KeptWhen(b, EditPhone(b, i, id, phone).book, i);
  }

  lemma CloseKept(b: Book, i: nat, note: string, user: string, now: string)
    requires Sound(b) && i < |b.contacts|
    ensures Kept(b, Close(b, i, note, user, now), i)
  {
    var b' := Close(b, i, note, user, now);
    assert EmailKeys(b'.contacts) == EmailKeys(b.contacts);
    assert PhoneKeys(b'.contacts) == PhoneKeys(b.contacts);
    KeptWhen(b, b', i);
  }

  lemma FieldsKept(b: Book, i: nat, id: string, f: Fields)
    requires Sound(b) && i < |b.contacts| && b.contacts[i].id == id
    ensures Kept(b, EditFields(b, i, id, f).book, i)
  {
    NameKept(b, i, f.name);
    var s1 := EditName(b, i, f.name);
    if s1.Go? {
      EmailKept(s1.book, i, id, f.email);
      var s2 := EditEmail(s1.book, i, id, f.email);
      if s2.Go? {
        PhoneKept(s2.book, i, id, f.phone);
      }
    }
  }

  lemma EditKeeps(b: Book, id: string, f: Fields, user: string, now: string, p: Persist)
    requires Sound(b)
    ensures Kept(b, Edit(b, id, f, user, now, p).book, Position(b.contacts, id))
  {
    var i := Position(b.contacts, id);
    if i < |b.contacts| {
      FieldsKept(b, i, id, f);
      CloseKept(EditFields(b, i, id, f).book, i, f.note, user, now);
    }
  }

  lemma DeleteKeeps(b: Book, id: string, p: Persist)
    requires Sound(b)
    ensures var b' := Delete(b, id, p).book; Sound(b') && (Consistent(b) ==> Consistent(b'))
  {
    var i := Position(b.contacts, id);
    if i < |b.contacts| {
      RemoveParts(b, i);
      RemoveIndexed(b, i);
      if IdsDistinct(b.contacts) {
        IdsWithout(b.contacts, i);
      }
    }
  }

  lemma IdsWithout(cs: seq<Contact>, i: nat)
    requires i < |cs| && IdsDistinct(cs)
    ensures IdsDistinct(Without(cs, i)) && Ids(Without(cs, i)) == Ids(cs) - {cs[i].id}
  {
    var cs' := Without(cs, i);
    assert forall k :: 0 <= k < |cs'| ==> cs'[k] == cs[if k < i then k else k + 1];
    forall x | x in Ids(cs) && x != cs[i].id ensures x in Ids(cs') {
      var k :| 0 <= k < |cs| && cs[k].id == x;
      assert cs'[if k < i then k else k - 1].id == x;
    }
  }

  /** Importing a row keeps the indexes exact exactly when the row's keys are new or the row is skipped.
      It fails for a row whose key belongs to a contact with an empty id, which the check takes for free. */
  lemma ImportRowExact(b: Book, c: Contact)
    requires Agree(b)
    ensures Agree(ImportRow(b, c)) <==>
            (EmailKey(c) in b.emailToI || PhoneKey(c) in b.phoneToI ==>
               EmailExists(b, c.email, "") || PhoneExists(b, c.phone, ""))
  {
    AppendIndexed(b, c);
  }

  /** Two rows with the same keys and empty ids are both imported, and the first is no longer indexed. */
  lemma EmptyIdsBreakIndex(c: Contact)
    requires c.id == ""
    ensures Agree(ImportRows(EMPTY, [c])) && !Agree(ImportRows(EMPTY, [c, c]))
    ensures |ImportRows(EMPTY, [c, c]).contacts| == 2
  {
    var b1 := ImportRow(EMPTY, c);
    assert b1 == Append(EMPTY, c);
    AppendSound(EMPTY, c);
    assert ImportRows(EMPTY, [c]) == ImportRows(b1, []);
    assert [c, c][1..] == [c];
    ImportRowExact(EMPTY, c);
    var b2 := ImportRow(b1, c);
    AppendSound(b1, c);
    assert ImportRows(b1, [c]) == ImportRows(b2, []);
    ImportRowExact(b1, c);
  }

  /** Every row is either skipped or brings an id of its own. */
  ghost predicate RowsFresh(b: Book, rows: seq<Contact>)
    requires Sound(b)
    decreases rows
  {
    rows == [] ||
    (var c := rows[0];
     AppendSound(b, c);
     (EmailExists(b, c.email, "") || PhoneExists(b, c.phone, "") || (c.id != "" && c.id !in Ids(b.contacts))) &&
     RowsFresh(ImportRow(b, c), rows[1..]))
  }

  lemma {:induction false} ImportKeeps(b: Book, rows: seq<Contact>)
    requires Sound(b)
    ensures Sound(ImportRows(b, rows))
    ensures Consistent(b) && RowsFresh(b, rows) ==> Consistent(ImportRows(b, rows))
    decreases rows
  {
    if rows != [] {
      var c := rows[0];
      AppendSound(b, c);
      if Consistent(b) && RowsFresh(b, rows) {
        NoEmptyOwner(b, c);
        ImportRowExact(b, c);
        IdsAppend(b.contacts, c);
      }
      ImportKeeps(ImportRow(b, c), rows[1..]);
    }
  }

  lemma NoEmptyOwner(b: Book, c: Contact)
    requires Consistent(b)
    ensures EmailExists(b, c.email, "") <==> EmailKey(c) in b.emailToI
    ensures PhoneExists(b, c.phone, "") <==> PhoneKey(c) in b.phoneToI
  {
  }

  // ---------- every run ----------

  datatype Op =
    | OpAdd(fields: Fields, user: string, id: string, now: string, limit: nat, persist: Persist)
    | OpEdit(id: string, fields: Fields, user: string, now: string, persist: Persist)
    | OpDelete(id: string, persist: Persist)
    | OpImport(rows: seq<Contact>)

  function Apply(b: Book, op: Op): Book
    requires Sound(b)
  {
    match op
    case OpAdd(f, user, id, now, limit, p) => Add(b, f, user, id, now, limit, p).book
    case OpEdit(id, f, user, now, p) => Edit(b, id, f, user, now, p).book
    case OpDelete(id, p) => Delete(b, id, p).book
    case OpImport(rows) => ImportRows(b, rows)
  }

  /** The ids an operation brings are new: what the uuid generator promises, and what imports rely on. */
  ghost predicate Fresh(b: Book, op: Op)
    requires Sound(b)
  {
    match op
    case OpAdd(_, _, id, _, _, _) => id != "" && id !in Ids(b.contacts)
    case OpImport(rows) => RowsFresh(b, rows)
    case _ => true
  }

  lemma ApplyKeeps(b: Book, op: Op)
    requires Sound(b)
    ensures Sound(Apply(b, op))
    ensures Consistent(b) && Fresh(b, op) ==> Consistent(Apply(b, op))
  {
    match op
    case OpAdd(f, user, id, now, limit, p) => AddKeeps(b, f, user, id, now, limit, p);
    case OpEdit(id, f, user, now, p) => EditKeeps(b, id, f, user, now, p);
    case OpDelete(id, p) => DeleteKeeps(b, id, p);
    case OpImport(rows) => ImportKeeps(b, rows);
  }

  function Run(b: Book, ops: seq<Op>): Book
    requires Sound(b)
    decreases ops
  {
    if ops == [] then b
    else
      ApplyKeeps(b, ops[0]);
      Run(Apply(b, ops[0]), ops[1..])
  }

  ghost predicate FreshRun(b: Book, ops: seq<Op>)
    requires Sound(b)
    decreases ops
  {
    ops == [] || (ApplyKeeps(b, ops[0]); Fresh(b, ops[0]) && FreshRun(Apply(b, ops[0]), ops[1..]))
  }

  /** Whatever the ids, no run ever leaves an index entry that points at a wrong contact or at none. */
  lemma {:induction false} RunSound(b: Book, ops: seq<Op>)
    requires Sound(b)
    ensures Sound(Run(b, ops))
    decreases ops
  {
    if ops != [] {
      ApplyKeeps(b, ops[0]);
      RunSound(Apply(b, ops[0]), ops[1..]);
    }
  }

  /** With fresh ids, after every run, rejected calls included: the indexes are exact, each has as many
      entries as there are contacts, and no two contacts share a normalized address or number. */
  lemma {:induction false} RunConsistent(b: Book, ops: seq<Op>)
    requires Consistent(b) && FreshRun(b, ops)
    ensures var r := Run(b, ops);
            && Consistent(r) && |r.emailToI| == |r.contacts| == |r.phoneToI|
            && forall i, j :: 0 <= i < j < |r.contacts| ==>
                 EmailKey(r.contacts[i]) != EmailKey(r.contacts[j]) && PhoneKey(r.contacts[i]) != PhoneKey(r.contacts[j])
    decreases ops
  {
    if ops == [] {
      var es, ps := EmailKeys(b.contacts), PhoneKeys(b.contacts);
      ExactMapCount(b.emailToI, es);
      ExactMapCount(b.phoneToI, ps);
      forall i, j | 0 <= i < j < |b.contacts|
        ensures EmailKey(b.contacts[i]) != EmailKey(b.contacts[j]) && PhoneKey(b.contacts[i]) != PhoneKey(b.contacts[j])
      {
        assert es[i] != es[j] && ps[i] != ps[j];
      }
    } else {
      ApplyKeeps(b, ops[0]);
      RunConsistent(Apply(b, ops[0]), ops[1..]);
    }
  }

  // ---------- what calls do and undo ----------

  lemma RemoveLast(b: Book, c: Contact)
    requires EmailKey(c) !in b.emailToI && PhoneKey(c) !in b.phoneToI
    ensures Remove(Append(b, c), |b.contacts|) == b
  {
    var n := |b.contacts|;
    var b' := Append(b, c);
    assert b'.contacts[..n] + b'.contacts[n + 1..] == b.contacts;
    assert b'.emailToI - {EmailKey(c)} == b.emailToI;
    assert b'.phoneToI - {PhoneKey(c)} == b.phoneToI;
  }

  lemma PositionLast(cs: seq<Contact>, c: Contact)
    requires c.id !in Ids(cs)
    ensures Position(cs + [c], c.id) == |cs|
  {
    var cs' := cs + [c];
    assert cs'[|cs|] == c;
    forall k | 0 <= k < |cs| ensures cs'[k].id != c.id {
      assert cs[k].id in Ids(cs);
    }
  }

  /** Deleting a contact just added gives the book back, indexes included. */
  lemma AddThenDelete(b: Book, f: Fields, user: string, id: string, now: string, limit: nat, p: Persist, q: Persist)
    requires Consistent(b) && id !in Ids(b.contacts)
    requires Fault(b, f, limit) == NoError
    ensures Delete(Add(b, f, user, id, now, limit, p).book, id, q).book == b
  {
    var c := NewContact(f, user, id, now);
    ToLowerIdempotent(f.email);
    NormalizePhoneIdempotent(f.phone);
    NoEmptyOwner(b, c);
    PositionLast(b.contacts, c);
    RemoveLast(b, c);
  }

  /** A successful edit changes the first contact with the id, and nothing else. */
  lemma EditEffect(b: Book, id: string, f: Fields, user: string, now: string, p: Persist)
    requires Sound(b)
    ensures var r := Edit(b, id, f, user, now, p);
            var i := Position(b.contacts, id);
            r.ok ==> i < |b.contacts| && r.book.contacts == b.contacts[i := Edited(b.contacts[i], f, user, now)]
  {
    var i := Position(b.contacts, id);
    if i < |b.contacts| && EditFields(b, i, id, f).Go? {
      FieldsEffect(b, i, id, f);
    }
  }

  /** A contact with the validated fields replaced where they are not empty, and the keys normalized. */
  function Changed(c: Contact, f: Fields): Contact {
    c.(name := if f.name == "" then c.name else f.name,
       email := if f.email == "" then c.email else ToLower(f.email),
       phone := if f.phone == "" then c.phone else NormalizePhone(f.phone))
  }

  /** The contact after a successful edit: also its note, and one more history entry. */
  function Edited(c: Contact, f: Fields, user: string, now: string): Contact {
    Changed(c, f).(note := if f.note == "" then c.note else f.note,
                   history := c.history + [HistoryEntry(now, user, "edited")])
  }

  lemma FieldsEffect(b: Book, i: nat, id: string, f: Fields)
    requires i < |b.contacts| && Sound(b) && EditFields(b, i, id, f).Go?
    ensures EditFields(b, i, id, f).book.contacts == b.contacts[i := Changed(b.contacts[i], f)]
  {
    var b1 := EditName(b, i, f.name).book;
    NameStageSound(b, i, f.name);
    var b2 := EditEmail(b1, i, id, f.email).book;
    EmailStageSound(b1, i, id, f.email);
    StageEffects(b, i, id, f);
    StageEffects(b1, i, id, f);
    StageEffects(b2, i, id, f);
  }

  lemma StageEffects(b: Book, i: nat, id: string, f: Fields)
    requires i < |b.contacts| && Sound(b)
    ensures var c := b.contacts[i]; var s := EditName(b, i, f.name);
            s.Go? ==> s.book.contacts == b.contacts[i := c.(name := if f.name == "" then c.name else f.name)]
    ensures var c := b.contacts[i]; var s := EditEmail(b, i, id, f.email);
            s.Go? ==> s.book.contacts == b.contacts[i := c.(email := if f.email == "" then c.email else ToLower(f.email))]
    ensures var c := b.contacts[i]; var s := EditPhone(b, i, id, f.phone);
            s.Go? ==> s.book.contacts == b.contacts[i := c.(phone := if f.phone == "" then c.phone else NormalizePhone(f.phone))]
  {
  }

  /** A deletion succeeds or fails with the book's own search, and takes out that one contact. */
  lemma DeleteEffect(b: Book, id: string, p: Persist)
    requires Sound(b) && IdsDistinct(b.contacts)
    ensures var r := Delete(b, id, p);
            && (r.err == NotFound <==> id !in Ids(b.contacts))
            && Ids(r.book.contacts) == Ids(b.contacts) - {id}
            && |r.book.contacts| == |b.contacts| - (if id in Ids(b.contacts) then 1 else 0)
            && forall c :: c in r.book.contacts <==> c in b.contacts && c.id != id
  {
    var i := Position(b.contacts, id);
    if i < |b.contacts| {
      RemoveParts(b, i);
      IdsWithout(b.contacts, i);
      ContactsWithout(b.contacts, i);
    } else {
      forall k | 0 <= k < |b.contacts| ensures b.contacts[k].id != id {
      }
    }
  }

  lemma ContactsWithout(cs: seq<Contact>, i: nat)
    requires i < |cs| && IdsDistinct(cs)
    ensures forall c :: c in Without(cs, i) <==> c in cs && c.id != cs[i].id
  {
    var cs' := Without(cs, i);
    forall c ensures c in cs' <==> c in cs && c.id != cs[i].id {
      if c in cs && c.id != cs[i].id {
        var k :| 0 <= k < |cs| && cs[k] == c;
        assert cs'[if k < i then k else k - 1] == c;
      }
      if c in cs' {
        var k :| 0 <= k < |cs'| && cs'[k] == c;
        assert cs[if k < i then k else k + 1] == c;
      }
    }
  }
}
