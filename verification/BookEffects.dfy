/** What each call does, said of the contacts alone: when it is accepted, and what it leaves. */
module BookEffects {
  import opened Text
  import opened Model
  import opened Validation
  import opened Book
  import opened BookInvariant

  // ---------- the duplicate checks ----------

  /** Some contact with another id has the address, in whatever case it is written. */
  ghost predicate AddressTaken(cs: seq<Contact>, email: string, skip: string) {
    exists c :: c in cs && c.id != skip && SameUpToCase(c.email, email)
  }

  ghost predicate NumberTaken(cs: seq<Contact>, phone: string, skip: string) {
    exists c :: c in cs && c.id != skip && NormalizePhone(c.phone) == NormalizePhone(phone)
  }

  /** In an exactly indexed book the duplicate checks find exactly the contacts of the same address, up to case, and
      of the same number in its normal form. */
  lemma ExistsIs(b: Book, email: string, phone: string, skip: string)
    requires Agree(b)
    ensures EmailExists(b, email, skip) <==> AddressTaken(b.contacts, email, skip)
    ensures PhoneExists(b, phone, skip) <==> NumberTaken(b.contacts, phone, skip)
  {
    LookupExact(b, email, phone, skip);
    forall c | c in b.contacts ensures EmailKey(c) == ToLower(email) <==> SameUpToCase(c.email, email) {
      SameLower(c.email, email);
    }
    assert forall i :: 0 <= i < |b.contacts| ==> b.contacts[i] in b.contacts;
  }

  ghost predicate AddressKnown(cs: seq<Contact>, email: string) {
    exists c :: c in cs && SameUpToCase(c.email, email)
  }

  ghost predicate NumberKnown(cs: seq<Contact>, phone: string) {
    exists c :: c in cs && NormalizePhone(c.phone) == NormalizePhone(phone)
  }

  lemma AddressIndexed(b: Book, email: string)
    requires Agree(b)
    ensures ToLower(email) in b.emailToI <==> AddressKnown(b.contacts, email)
  {
    if ToLower(email) in b.emailToI {
      var c := b.contacts[b.emailToI[ToLower(email)]];
      assert EmailKeys(b.contacts)[b.emailToI[ToLower(email)]] == EmailKey(c);
      SameLower(c.email, email);
    }
    if c :| c in b.contacts && SameUpToCase(c.email, email) {
      SameLower(c.email, email);
      var i :| 0 <= i < |b.contacts| && b.contacts[i] == c;
      assert EmailKeys(b.contacts)[i] == ToLower(email);
    }
  }

  lemma NumberIndexed(b: Book, phone: string)
    requires Agree(b)
    ensures NormalizePhone(phone) in b.phoneToI <==> NumberKnown(b.contacts, phone)
  {
    if NormalizePhone(phone) in b.phoneToI {
      var c := b.contacts[b.phoneToI[NormalizePhone(phone)]];
      assert PhoneKeys(b.contacts)[b.phoneToI[NormalizePhone(phone)]] == PhoneKey(c);
    }
    if c :| c in b.contacts && NormalizePhone(c.phone) == NormalizePhone(phone) {
      var i :| 0 <= i < |b.contacts| && b.contacts[i] == c;
      assert PhoneKeys(b.contacts)[i] == NormalizePhone(phone);
    }
  }

  /** The index maps have the addresses and numbers of the contacts. */
  lemma KnownIs(b: Book, email: string, phone: string)
    requires Agree(b)
    ensures ToLower(email) in b.emailToI <==> AddressKnown(b.contacts, email)
    ensures NormalizePhone(phone) in b.phoneToI <==> NumberKnown(b.contacts, phone)
  {
    AddressIndexed(b, email);
    NumberIndexed(b, phone);
  }

  // ---------- adding ----------

  /** The first check that fails, in the order in which they are made. */
  ghost function AddError(cs: seq<Contact>, f: Fields, limit: nat): Error {
    if |cs| >= limit then MaxContacts
    else if !IsValidName(f.name) then InvalidName
    else if !IsValidEmail(f.email) then InvalidEmail
    else if !IsValidPhone(f.phone) then InvalidPhone
    else if AddressTaken(cs, f.email, "") then EmailTaken
    else if NumberTaken(cs, f.phone, "") then PhoneTaken
    else NoError
  }

  /** The contact that an add makes of what it is given. */
  ghost predicate Made(c: Contact, f: Fields, user: string, id: string, now: string) {
    && c.id == id && c.name == f.name && c.note == f.note && c.createdAt == now
    && SameUpToCase(c.email, f.email) && (forall i :: 0 <= i < |c.email| ==> !('A' <= c.email[i] <= 'Z'))
    && c.phone == NormalizePhone(f.phone)
    && |c.history| == 1 && c.history[0].timestamp == now && c.history[0].user == user && c.history[0].action == "created"
  }

  lemma NewMade(f: Fields, user: string, id: string, now: string)
    ensures Made(NewContact(f, user, id, now), f, user, id, now)
  {
    LowerIs(f.email);
    assert forall i :: 0 <= i < |f.email| ==>
      (f.email[i] == ToLower(f.email)[i] || Cases(f.email[i], ToLower(f.email)[i]) || Cases(ToLower(f.email)[i], f.email[i]));
  }

  lemma FaultIs(b: Book, f: Fields, limit: nat)
    requires Agree(b)
    ensures Fault(b, f, limit) == AddError(b.contacts, f, limit)
  {
    ExistsIs(b, f.email, f.phone, "");
  }

  lemma Appended(b: Book, c: Contact)
    ensures var cs := Append(b, c).contacts;
            |cs| == |b.contacts| + 1 && cs[..|b.contacts|] == b.contacts && cs[|b.contacts|] == c
  {
  }

  /** An add to an exactly indexed book: rejected with the first error that applies, it changes nothing; accepted,
      it appends one contact, as given. The write-out decides whether it reports success, and the id is reported
      when the contact has been written. */
  lemma AddEffect(b: Book, f: Fields, user: string, id: string, now: string, limit: nat, p: Persist)
    requires Agree(b)
    ensures var r := Add(b, f, user, id, now, limit, p);
            var e := AddError(b.contacts, f, limit);
            && (e != NoError ==> r == Result(b, false, e, None))
            && (e == NoError ==>
                  && |r.book.contacts| == |b.contacts| + 1 && r.book.contacts[..|b.contacts|] == b.contacts
                  && Made(r.book.contacts[|b.contacts|], f, user, id, now)
                  && r.ok == (p != Failed) && r.err == (if p == Failed then SaveFailed else NoError)
                  && r.outId == if p == Saved then Some(id) else None)
  {
    FaultIs(b, f, limit);
    NewMade(f, user, id, now);
    Appended(b, NewContact(f, user, id, now));
  }

  // ---------- editing ----------

  /** The first check that fails: a field left empty is not checked. */
  function FieldError(f: Fields, emailTaken: bool, phoneTaken: bool): Error {
    if f.name != "" && !IsValidName(f.name) then InvalidName
    else if f.email != "" && !IsValidEmail(f.email) then InvalidEmail
    else if f.email != "" && emailTaken then EmailTaken
    else if f.phone != "" && !IsValidPhone(f.phone) then InvalidPhone
    else if f.phone != "" && phoneTaken then PhoneTaken
    else NoError
  }

  ghost function EditError(cs: seq<Contact>, id: string, f: Fields): Error {
    FieldError(f, AddressTaken(cs, f.email, id), NumberTaken(cs, f.phone, id))
  }

  /** The contact that an edit makes of another: what is given replaces what was there. */
  ghost predicate Remade(c: Contact, was: Contact, f: Fields, user: string, now: string) {
    && c.id == was.id && c.createdAt == was.createdAt
    && c.name == (if f.name != "" then f.name else was.name)
    && (if f.email != "" then SameUpToCase(c.email, f.email) && forall i :: 0 <= i < |c.email| ==> !('A' <= c.email[i] <= 'Z')
        else c.email == was.email)
    && c.phone == (if f.phone != "" then NormalizePhone(f.phone) else was.phone)
    && c.note == (if f.note != "" then f.note else was.note)
    && |c.history| == |was.history| + 1 && c.history[..|was.history|] == was.history
    && c.history[|was.history|].timestamp == now && c.history[|was.history|].user == user
    && c.history[|was.history|].action == "edited"
  }

  lemma EditedRemade(c: Contact, f: Fields, user: string, now: string)
    ensures Remade(Edited(c, f, user, now), c, f, user, now)
  {
    LowerIs(f.email);
    assert forall i :: 0 <= i < |f.email| ==>
      (f.email[i] == ToLower(f.email)[i] || Cases(f.email[i], ToLower(f.email)[i]) || Cases(ToLower(f.email)[i], f.email[i]));
  }

  /** Setting the name does not change what the duplicate checks find, nor does setting the address change what the
      check of the number finds. */
  lemma NameStageSees(b: Book, i: nat, name: string, email: string, phone: string, skip: string)
    requires Sound(b) && i < |b.contacts|
    ensures Sound(EditName(b, i, name).book) && |EditName(b, i, name).book.contacts| == |b.contacts|
    ensures EmailExists(EditName(b, i, name).book, email, skip) == EmailExists(b, email, skip)
    ensures PhoneExists(EditName(b, i, name).book, phone, skip) == PhoneExists(b, phone, skip)
  {
    NameStageSound(b, i, name);
  }

  lemma EmailStageSees(b: Book, i: nat, id: string, email: string, phone: string, skip: string)
    requires Sound(b) && i < |b.contacts|
    ensures Sound(EditEmail(b, i, id, email).book) && |EditEmail(b, i, id, email).book.contacts| == |b.contacts|
    ensures PhoneExists(EditEmail(b, i, id, email).book, phone, skip) == PhoneExists(b, phone, skip)
  {
    EmailStageSound(b, i, id, email);
  }

  lemma FieldsChecked(b: Book, i: nat, id: string, f: Fields)
    requires Sound(b) && i < |b.contacts|
    ensures var s, e := EditFields(b, i, id, f), FieldError(f, EmailExists(b, f.email, id), PhoneExists(b, f.phone, id));
            if e == NoError then s.Go? else s.Stop? && s.err == e
  {
    NameStageSees(b, i, f.name, f.email, f.phone, id);
    var b1 := EditName(b, i, f.name).book;
    EmailStageSees(b1, i, id, f.email, f.phone, id);
  }

  lemma EditErrorIs(b: Book, id: string, f: Fields)
    requires Agree(b)
    ensures EditError(b.contacts, id, f) == FieldError(f, EmailExists(b, f.email, id), PhoneExists(b, f.phone, id))
  {
    ExistsIs(b, f.email, f.phone, id);
  }

  lemma EditDone(b: Book, i: nat, id: string, f: Fields, user: string, now: string)
    requires Sound(b) && i < |b.contacts| && EditFields(b, i, id, f).Go?
    ensures var cs := Close(EditFields(b, i, id, f).book, i, f.note, user, now).contacts;
            |cs| == |b.contacts| && cs == b.contacts[i := cs[i]] && Remade(cs[i], b.contacts[i], f, user, now)
  {
    FieldsEffect(b, i, id, f);
    EditedRemade(b.contacts[i], f, user, now);
    assert Close(EditFields(b, i, id, f).book, i, f.note, user, now).contacts == b.contacts[i := Edited(b.contacts[i], f, user, now)];
  }

  /** An edit of an exactly indexed book: it fails when no contact has the id, else with the first error that
      applies; and without one the first contact with the id gets what is given, and no other is changed. */
  lemma EditEffect(b: Book, id: string, f: Fields, user: string, now: string, p: Persist)
    requires Agree(b)
    ensures var r, i, e := Edit(b, id, f, user, now, p), Position(b.contacts, id), EditError(b.contacts, id, f);
            && (i == |b.contacts| ==> r == Result(b, false, NotFound, None))
            && (i < |b.contacts| && e != NoError ==> !r.ok && r.err == e)
            && (i < |b.contacts| && e == NoError ==>
                  && |r.book.contacts| == |b.contacts| && r.book.contacts == b.contacts[i := r.book.contacts[i]]
                  && Remade(r.book.contacts[i], b.contacts[i], f, user, now)
                  && r.ok == (p != Failed) && r.err == if p == Failed then SaveFailed else NoError)
  {
    var i := Position(b.contacts, id);
    EditErrorIs(b, id, f);
    if i < |b.contacts| {
      FieldsChecked(b, i, id, f);
      if EditError(b.contacts, id, f) == NoError {
        EditDone(b, i, id, f, user, now);
      }
    }
  }

  // ---------- deleting ----------

  lemma PositionOfNone(cs: seq<Contact>, id: string)
    ensures Position(cs, id) == |cs| <==> forall c :: c in cs ==> c.id != id
  {
    assert forall i :: 0 <= i < |cs| ==> cs[i] in cs;
  }

  lemma Removed(b: Book, i: nat)
    requires i < |b.contacts|
    ensures Remove(b, i).contacts == b.contacts[..i] + b.contacts[i + 1..]
  {
  }

  /** A deletion fails when no contact has the id; else it takes out the first that has it, and no other. */
  lemma DeleteFirst(b: Book, id: string, p: Persist, i: nat, r: Result)
    requires r == Delete(b, id, p) && i == Position(b.contacts, id)
    ensures i == |b.contacts| <==> forall c :: c in b.contacts ==> c.id != id
    ensures i == |b.contacts| ==> r == Result(b, false, NotFound, None)
    ensures i < |b.contacts| ==>
              && r.book.contacts == b.contacts[..i] + b.contacts[i + 1..]
              && r.ok == (p != Failed) && r.err == if p == Failed then SaveFailed else NoError
  {
    PositionOfNone(b.contacts, id);
    if i < |b.contacts| {
      Removed(b, i);
    }
  }

  // ---------- importing ----------

  /** A row of an import is appended as it is, unless its address or its number is taken. */
  lemma RowEffect(b: Book, c: Contact)
    requires Agree(b)
    ensures ImportRow(b, c).contacts ==
            if AddressTaken(b.contacts, c.email, "") || NumberTaken(b.contacts, c.phone, "") then b.contacts else b.contacts + [c]
  {
    ExistsIs(b, c.email, c.phone, "");
  }
}
