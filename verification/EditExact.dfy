/** Exactly when an edit keeps the indexes exact, in a book that may hold an id more than once. */
module EditExact {
  import opened Text
  import opened Model
  import opened Validation
  import opened Book
  import opened BookInvariant
  import opened Samples

  /** The edit gets as far as setting the address. */
  predicate EmailTakes(b: Book, id: string, f: Fields)
    requires Sound(b)
  {
    (f.name == "" || IsValidName(f.name)) && f.email != "" && IsValidEmail(f.email) && !EmailExists(b, f.email, id)
  }

  /** It gets past the address. */
  predicate GetsToPhone(b: Book, id: string, f: Fields)
    requires Sound(b)
  {
    (f.name == "" || IsValidName(f.name)) && (f.email == "" || (IsValidEmail(f.email) && !EmailExists(b, f.email, id)))
  }

  /** It gets as far as setting the number. */
  predicate PhoneTakes(b: Book, id: string, f: Fields)
    requires Sound(b)
  {
    GetsToPhone(b, id, f) && f.phone != "" && IsValidPhone(f.phone) && !PhoneExists(b, f.phone, id)
  }

  /** The keys of an edit belong to no contact but the one at the position. */
  predicate EmailFree(b: Book, i: nat, email: string) {
    ToLower(email) in b.emailToI ==> b.emailToI[ToLower(email)] == i
  }

  predicate PhoneFree(b: Book, i: nat, phone: string) {
    NormalizePhone(phone) in b.phoneToI ==> b.phoneToI[NormalizePhone(phone)] == i
  }

  // ---------- what the stages do to the two indexes ----------

  /** The two maps with the keys they should hold. */
  ghost predicate SameEmails(b: Book, b': Book) {
    b'.emailToI == b.emailToI && EmailKeys(b'.contacts) == EmailKeys(b.contacts)
  }

  ghost predicate SamePhones(b: Book, b': Book) {
    b'.phoneToI == b.phoneToI && PhoneKeys(b'.contacts) == PhoneKeys(b.contacts)
  }

  ghost predicate SameIdsAt(b: Book, b': Book) {
    |b'.contacts| == |b.contacts| && forall k :: 0 <= k < |b.contacts| ==> b'.contacts[k].id == b.contacts[k].id
  }

  lemma NameStage(b: Book, i: nat, name: string)
    requires Sound(b) && i < |b.contacts|
    ensures var b' := EditName(b, i, name).book; SameEmails(b, b') && SamePhones(b, b') && SameIdsAt(b, b')
  {
    NameStageSound(b, i, name);
  }

  lemma EmailStage(b: Book, i: nat, id: string, email: string)
    requires Sound(b) && i < |b.contacts|
    ensures var b' := EditEmail(b, i, id, email).book;
            && SamePhones(b, b') && SameIdsAt(b, b')
            && (email == "" || !IsValidEmail(email) || EmailExists(b, email, id) ==> b' == b)
            && (email != "" && IsValidEmail(email) && !EmailExists(b, email, id) ==> b' == SetEmail(b, i, email))
  {
    assert PhoneKeys(SetEmail(b, i, email).contacts) == PhoneKeys(b.contacts);
  }

  lemma PhoneStage(b: Book, i: nat, id: string, phone: string)
    requires Sound(b) && i < |b.contacts|
    ensures var b' := EditPhone(b, i, id, phone).book;
            && SameEmails(b, b') && SameIdsAt(b, b')
            && (phone == "" || !IsValidPhone(phone) || PhoneExists(b, phone, id) ==> b' == b)
            && (phone != "" && IsValidPhone(phone) && !PhoneExists(b, phone, id) ==> b' == SetPhone(b, i, phone))
  {
    assert EmailKeys(SetPhone(b, i, phone).contacts) == EmailKeys(b.contacts);
  }

  /** Setting an address depends on the map and the keys alone. */
  lemma EmailIndex(b: Book, i: nat, email: string)
    requires i < |b.contacts| && ExactMap(b.emailToI, EmailKeys(b.contacts))
    ensures var b' := SetEmail(b, i, email);
            ExactMap(b'.emailToI, EmailKeys(b'.contacts)) <==> EmailFree(b, i, email)
  {
    ToLowerIdempotent(email);
    ChangeKey(b.emailToI, EmailKeys(b.contacts), i, ToLower(email));
    assert EmailKeys(SetEmail(b, i, email).contacts) == EmailKeys(b.contacts)[i := ToLower(email)];
  }

  lemma PhoneIndex(b: Book, i: nat, phone: string)
    requires i < |b.contacts| && ExactMap(b.phoneToI, PhoneKeys(b.contacts))
    ensures var b' := SetPhone(b, i, phone);
            ExactMap(b'.phoneToI, PhoneKeys(b'.contacts)) <==> PhoneFree(b, i, phone)
  {
    NormalizePhoneIdempotent(phone);
    ChangeKey(b.phoneToI, PhoneKeys(b.contacts), i, NormalizePhone(phone));
    assert PhoneKeys(SetPhone(b, i, phone).contacts) == PhoneKeys(b.contacts)[i := NormalizePhone(phone)];
  }

  // ---------- the edit ----------

  /** What the stages up to the address leave, for the stage of the number. */
  ghost predicate UpToEmail(b: Book, s: Book, i: nat, id: string, f: Fields)
    requires Sound(b)
  {
    && Sound(s) && SamePhones(b, s) && SameIdsAt(b, s)
    && (ExactMap(s.emailToI, EmailKeys(s.contacts)) <==> (EmailTakes(b, id, f) ==> EmailFree(b, i, f.email)))
  }

  lemma SameEmailCheck(b: Book, s: Book, email: string, phone: string, id: string)
    requires Sound(b) && Sound(s) && SameIdsAt(b, s)
    ensures SameEmails(b, s) ==> EmailExists(s, email, id) == EmailExists(b, email, id)
    ensures SamePhones(b, s) ==> PhoneExists(s, phone, id) == PhoneExists(b, phone, id)
  {
  }

  /** The first two stages, for a name that is accepted. */
  lemma EmailSet(b: Book, i: nat, id: string, f: Fields)
    requires Agree(b) && i < |b.contacts| && (f.name == "" || IsValidName(f.name))
    ensures Sound(EditName(b, i, f.name).book)
    ensures UpToEmail(b, EditEmail(EditName(b, i, f.name).book, i, id, f.email).book, i, id, f)
  {
    var b1 := EditName(b, i, f.name).book;
    NameStage(b, i, f.name);
    NameStageSound(b, i, f.name);
    SameEmailCheck(b, b1, f.email, f.phone, id);
    EmailStage(b1, i, id, f.email);
    EmailStageSound(b1, i, id, f.email);
    EmailIndex(b1, i, f.email);
  }

  /** The third stage on what the first two leave. */
  lemma PhoneSet(b: Book, s: Book, i: nat, id: string, f: Fields)
    requires Agree(b) && i < |b.contacts| && UpToEmail(b, s, i, id, f)
    ensures var s' := EditPhone(s, i, id, f.phone).book;
            && SameEmails(s, s')
            && (ExactMap(s'.phoneToI, PhoneKeys(s'.contacts)) <==>
                  (f.phone != "" && IsValidPhone(f.phone) && !PhoneExists(b, f.phone, id) ==> PhoneFree(b, i, f.phone)))
  {
    SameEmailCheck(b, s, f.email, f.phone, id);
    PhoneStage(s, i, id, f.phone);
    PhoneIndex(s, i, f.phone);
  }

  lemma EmailGoes(b: Book, i: nat, id: string, f: Fields)
    requires Agree(b) && i < |b.contacts| && (f.name == "" || IsValidName(f.name))
    ensures Sound(EditName(b, i, f.name).book)
    ensures EditEmail(EditName(b, i, f.name).book, i, id, f.email).Go? <==> GetsToPhone(b, id, f)
  {
    NameStage(b, i, f.name);
    NameStageSound(b, i, f.name);
    SameEmailCheck(b, EditName(b, i, f.name).book, f.email, f.phone, id);
  }

  /** The book after the first two stages, or after all three. */
  lemma LastStage(b: Book, s: Stage, i: nat, id: string, f: Fields)
    requires Agree(b) && i < |b.contacts| && (f.name == "" || IsValidName(f.name))
    requires UpToEmail(b, s.book, i, id, f) && (s.Go? <==> GetsToPhone(b, id, f))
    ensures var r := if s.Go? then EditPhone(s.book, i, id, f.phone).book else s.book;
            Agree(r) <==> (EmailTakes(b, id, f) ==> EmailFree(b, i, f.email)) && (PhoneTakes(b, id, f) ==> PhoneFree(b, i, f.phone))
  {
    if s.Go? {
      PhoneSet(b, s.book, i, id, f);
    }
  }

  lemma StagesExact(b: Book, i: nat, id: string, f: Fields)
    requires Agree(b) && i < |b.contacts|
    ensures var s := EditFields(b, i, id, f).book;
            Agree(s) <==> (EmailTakes(b, id, f) ==> EmailFree(b, i, f.email)) && (PhoneTakes(b, id, f) ==> PhoneFree(b, i, f.phone))
  {
    if f.name == "" || IsValidName(f.name) {
      EmailSet(b, i, id, f);
      EmailGoes(b, i, id, f);
      LastStage(b, EditEmail(EditName(b, i, f.name).book, i, id, f.email), i, id, f);
    }
  }

  lemma CloseSame(b: Book, i: nat, note: string, user: string, now: string)
    requires i < |b.contacts|
    ensures SameEmails(b, Close(b, i, note, user, now)) && SamePhones(b, Close(b, i, note, user, now))
  {
    var b' := Close(b, i, note, user, now);
    assert EmailKeys(b'.contacts) == EmailKeys(b.contacts);
    assert PhoneKeys(b'.contacts) == PhoneKeys(b.contacts);
  }

  /** Whatever the ids, an edit of an exactly indexed book, accepted, rejected or stopped half-way, keeps the
      indexes exact exactly when each key that it sets belongs to no contact but the edited one. The check of the
      edit itself compares ids, so this can fail where another contact has the same id. */
  lemma EditKeepsExact(b: Book, id: string, f: Fields, user: string, now: string, p: Persist)
    requires Agree(b)
    ensures var i := Position(b.contacts, id);
            Agree(Edit(b, id, f, user, now, p).book) <==>
              i == |b.contacts| ||
              ((EmailTakes(b, id, f) ==> EmailFree(b, i, f.email)) && (PhoneTakes(b, id, f) ==> PhoneFree(b, i, f.phone)))
  {
    var i := Position(b.contacts, id);
    if i < |b.contacts| {
      var s := EditFields(b, i, id, f);
      StagesExact(b, i, id, f);
      CloseSame(s.book, i, f.note, user, now);
    }
  }

  lemma FirstOnly(x: Contact)
    ensures var b := Append(EMPTY, x);
            Agree(b) && ImportRow(EMPTY, x) == b && b.emailToI.Keys == {EmailKey(x)} && b.phoneToI.Keys == {PhoneKey(x)}
  {
    AppendSound(EMPTY, x);
    AppendIndexed(EMPTY, x);
  }

  lemma TwoOfOneId(x: Contact, y: Contact)
    requires x.id == y.id != "" && EmailKey(x) != EmailKey(y) && PhoneKey(x) != PhoneKey(y)
    ensures var b := ImportRows(EMPTY, [x, y]); b == Append(Append(EMPTY, x), y) && Agree(b)
  {
    var b1 := Append(EMPTY, x);
    FirstOnly(x);
    AppendSound(b1, y);
    AppendIndexed(b1, y);
    assert [x, y][1..] == [y];
    assert ImportRows(b1, [y]) == ImportRows(Append(b1, y), []);
  }

  /** Two contacts of one id, as a JSONL import admits: giving the first the address of the second is accepted,
      and the maps are no longer exact. */
  lemma RepeatedIdEdit(x: Contact, y: Contact, user: string, now: string, p: Persist)
    requires x.id == y.id != "" && EmailKey(x) != EmailKey(y) && PhoneKey(x) != PhoneKey(y) && IsValidEmail(y.email)
    ensures var b := ImportRows(EMPTY, [x, y]);
            Agree(b) && !Agree(Edit(b, x.id, Fields("", y.email, "", ""), user, now, p).book)
  {
    TwoOfOneId(x, y);
    var b := ImportRows(EMPTY, [x, y]);
    assert b.contacts == [x, y] && b.emailToI[EmailKey(y)] == 1;
    EditKeepsExact(b, x.id, Fields("", y.email, "", ""), user, now, p);
    TakenByNamesake(b, x, y);
  }

  lemma TakenByNamesake(b: Book, x: Contact, y: Contact)
    requires Sound(b) && b.contacts == [x, y] && x.id == y.id && IsValidEmail(y.email)
    requires EmailKey(y) in b.emailToI && b.emailToI[EmailKey(y)] == 1
    ensures Position(b.contacts, x.id) == 0
    ensures EmailTakes(b, x.id, Fields("", y.email, "", "")) && !EmailFree(b, 0, y.email)
  {
    assert b.contacts[0] == x && b.contacts[1] == y;
    ToLowerIdempotent(y.email);
    ShortAddress(y.email);
  }

  lemma ShortAddress(email: string)
    requires IsValidEmail(email)
    ensures email != ""
  {
  }

  lemma RepeatedIdBreaks(digits: Digits, user: string, now: string, p: Persist)
    ensures var x, y := Sample("1", 'a', digits, "t"), Sample("1", 'b', Other(digits), "t");
            var b := ImportRows(EMPTY, [x, y]);
            Agree(b) && !Agree(Edit(b, x.id, Fields("", y.email, "", ""), user, now, p).book)
  {
    SampleValid("1", 'b', Other(digits), "t");
    SamplesDiffer("1", 'a', digits, "t", "1", 'b', Other(digits), "t");
    RepeatedIdEdit(Sample("1", 'a', digits, "t"), Sample("1", 'b', Other(digits), "t"), user, now, p);
  }
}
