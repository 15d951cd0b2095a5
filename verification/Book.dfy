/** The contact book and its two lookup indexes, as values: what each operation does to them. */
module Book {
  import opened Text
  import opened Model
  import opened Validation

  /** `ContactBook`: the contacts in order, and normalized key -> position. */
  datatype Book = Book(contacts: seq<Contact>, emailToI: map<string, nat>, phoneToI: map<string, nat>)

  const EMPTY: Book := Book([], map[], map[])

  function EmailKey(c: Contact): string {
    ToLower(c.email)
  }

  function PhoneKey(c: Contact): string {
    NormalizePhone(c.phone)
  }

  // ---------- index agreement ----------

  ghost predicate SoundMap(m: map<string, nat>, keys: seq<string>) {
    forall k :: k in m ==> m[k] < |keys| && keys[m[k]] == k
  }

  /** The map is exactly `keys[i] -> i`. */
  ghost predicate ExactMap(m: map<string, nat>, keys: seq<string>) {
    SoundMap(m, keys) && forall i :: 0 <= i < |keys| ==> keys[i] in m && m[keys[i]] == i
  }

  function EmailKeys(cs: seq<Contact>): (r: seq<string>)
    ensures |r| == |cs| && forall i :: 0 <= i < |cs| ==> r[i] == EmailKey(cs[i])
  {
    seq(|cs|, i requires 0 <= i < |cs| => EmailKey(cs[i]))
  }

  function PhoneKeys(cs: seq<Contact>): (r: seq<string>)
    ensures |r| == |cs| && forall i :: 0 <= i < |cs| ==> r[i] == PhoneKey(cs[i])
  {
    seq(|cs|, i requires 0 <= i < |cs| => PhoneKey(cs[i]))
  }

  /** Every index entry points at a contact that has its key. */
  ghost predicate Sound(b: Book) {
    SoundMap(b.emailToI, EmailKeys(b.contacts)) && SoundMap(b.phoneToI, PhoneKeys(b.contacts))
  }

  /** The indexes are exactly normalized key -> position. */
  ghost predicate Agree(b: Book) {
    ExactMap(b.emailToI, EmailKeys(b.contacts)) && ExactMap(b.phoneToI, PhoneKeys(b.contacts))
  }

  /** Every contact has an id of its own, and none is empty. */
  ghost predicate IdsDistinct(cs: seq<Contact>) {
    (forall i :: 0 <= i < |cs| ==> cs[i].id != "") &&
    forall i, j :: 0 <= i < j < |cs| ==> cs[i].id != cs[j].id
  }

  ghost predicate Consistent(b: Book) {
    Agree(b) && IdsDistinct(b.contacts)
  }

  // ---------- lookups ----------

  /** `email_exists`: some contact other than `skip` is indexed under the address. */
  predicate EmailExists(b: Book, email: string, skip: string)
    requires Sound(b)
  {
    var k := ToLower(email);
    k in b.emailToI && b.contacts[b.emailToI[k]].id != skip
  }

  predicate PhoneExists(b: Book, phone: string, skip: string)
    requires Sound(b)
  {
    var k := NormalizePhone(phone);
    k in b.phoneToI && b.contacts[b.phoneToI[k]].id != skip
  }

  // ---------- operations ----------

  datatype Error =
    | NoError
    | MaxContacts
    | InvalidName
    | InvalidEmail
    | InvalidPhone
    | EmailTaken
    | PhoneTaken
    | SaveFailed
    | NotFound

  /** How the write-out after a change ends. A dry run returns before it, and before the id is reported. */
  datatype Persist = DryRun | Saved | Failed

  /** What the program supplies to one add of a batch: a new id, the clock, the outcome of the write-out. */
  datatype Draw = Draw(id: string, now: string, persist: Persist)

  datatype Result = Result(book: Book, ok: bool, err: Error, outId: Option<string>)

  function Finish(b: Book, p: Persist, outId: Option<string>): Result {
    match p
    case DryRun => Result(b, true, NoError, None)
    case Saved => Result(b, true, NoError, outId)
    case Failed => Result(b, false, SaveFailed, None)
  }

  /** Appends a contact and indexes it under its two keys. */
  function Append(b: Book, c: Contact): Book {
    Book(b.contacts + [c], b.emailToI[EmailKey(c) := |b.contacts|], b.phoneToI[PhoneKey(c) := |b.contacts|])
  }

  datatype Fields = Fields(name: string, email: string, phone: string, note: string)

  function Fault(b: Book, f: Fields, limit: nat): Error
    requires Sound(b)
  {
    if |b.contacts| >= limit then MaxContacts
    else if !IsValidName(f.name) then InvalidName
    else if !IsValidEmail(f.email) then InvalidEmail
    else if !IsValidPhone(f.phone) then InvalidPhone
    else if EmailExists(b, f.email, "") then EmailTaken
    else if PhoneExists(b, f.phone, "") then PhoneTaken
    else NoError
  }

  function NewContact(f: Fields, user: string, id: string, now: string): Contact {
    Contact(id, f.name, ToLower(f.email), NormalizePhone(f.phone), f.note, now, [HistoryEntry(now, user, "created")])
  }

  /** `add_contact`; `id` and `now` are what the generator and the clock gave. */
  function Add(b: Book, f: Fields, user: string, id: string, now: string, limit: nat, p: Persist): Result
    requires Sound(b)
  {
    var fault := Fault(b, f, limit);
    if fault != NoError then Result(b, false, fault, None)
    else Finish(Append(b, NewContact(f, user, id, now)), p, Some(id))
  }

  /** The position of the first contact with the id, or the number of contacts. */
  function Position(cs: seq<Contact>, id: string): (i: nat)
    ensures i <= |cs| && (i < |cs| ==> cs[i].id == id)
    ensures forall k :: 0 <= k < i ==> cs[k].id != id
  {
    if cs == [] || cs[0].id == id then 0
    else
      var i := Position(cs[1..], id);
      assert forall k :: 1 <= k < i + 1 ==> cs[k] == cs[1..][k - 1];
      i + 1
  }

  function SetEmail(b: Book, i: nat, email: string): Book
    requires i < |b.contacts|
  {
    var c := b.contacts[i];
    var e := ToLower(email);
    Book(b.contacts[i := c.(email := e)], (b.emailToI - {EmailKey(c)})[e := i], b.phoneToI)
  }

  function SetPhone(b: Book, i: nat, phone: string): Book
    requires i < |b.contacts|
  {
    var c := b.contacts[i];
    var p := NormalizePhone(phone);
    Book(b.contacts[i := c.(phone := p)], b.emailToI, (b.phoneToI - {PhoneKey(c)})[p := i])
  }

  function SetName(b: Book, i: nat, name: string): Book
    requires i < |b.contacts|
  {
    b.(contacts := b.contacts[i := b.contacts[i].(name := name)])
  }

  function Close(b: Book, i: nat, note: string, user: string, now: string): Book
    requires i < |b.contacts|
  {
    var c := b.contacts[i];
    var n := if note == "" then c.note else note;
    b.(contacts := b.contacts[i := c.(note := n, history := c.history + [HistoryEntry(now, user, "edited")])])
  }

  datatype Stage = Go(book: Book) | Stop(book: Book, err: Error)

  function EditName(b: Book, i: nat, name: string): Stage
    requires i < |b.contacts|
  {
    if name == "" then Go(b)
    else if !IsValidName(name) then Stop(b, InvalidName)
    else Go(SetName(b, i, name))
  }

  function EditEmail(b: Book, i: nat, id: string, email: string): Stage
    requires i < |b.contacts| && Sound(b)
  {
    if email == "" then Go(b)
    else if !IsValidEmail(email) then Stop(b, InvalidEmail)
    else if EmailExists(b, email, id) then Stop(b, EmailTaken)
    else Go(SetEmail(b, i, email))
  }

  function EditPhone(b: Book, i: nat, id: string, phone: string): Stage
    requires i < |b.contacts| && Sound(b)
  {
    if phone == "" then Go(b)
    else if !IsValidPhone(phone) then Stop(b, InvalidPhone)
    else if PhoneExists(b, phone, id) then Stop(b, PhoneTaken)
    else Go(SetPhone(b, i, phone))
  }

  /** The three validated fields of an edit, in turn. */
  function EditFields(b: Book, i: nat, id: string, f: Fields): (s: Stage)
    requires i < |b.contacts| && Sound(b)
    ensures |s.book.contacts| == |b.contacts|
  {
    var s1 := EditName(b, i, f.name);
    if s1.Stop? then s1
    else
      NameStageSound(b, i, f.name);
      var s2 := EditEmail(s1.book, i, id, f.email);
      if s2.Stop? then s2
      else
        EmailStageSound(s1.book, i, id, f.email);
        EditPhone(s2.book, i, id, f.phone)
  }

  /** `edit_contact`: a rejected edit keeps the changes of the fields before the rejected one. */
  function Edit(b: Book, id: string, f: Fields, user: string, now: string, p: Persist): Result
    requires Sound(b)
  {
    var i := Position(b.contacts, id);
    if i == |b.contacts| then Result(b, false, NotFound, None)
    else
      var s := EditFields(b, i, id, f);
      if s.Stop? then Result(s.book, false, s.err, None)
      else Finish(Close(s.book, i, f.note, user, now), p, None)
  }

  /** Re-indexing from a position on: every key from there is bound to its position. */
  function Reindex(m: map<string, nat>, keys: seq<string>, k: nat): map<string, nat>
    requires k <= |keys|
    decreases |keys| - k
  {
    if k == |keys| then m else Reindex(m[keys[k] := k], keys, k + 1)
  }

  function Remove(b: Book, i: nat): Book
    requires i < |b.contacts|
  {
    var c := b.contacts[i];
    var cs := b.contacts[..i] + b.contacts[i + 1..];
    Book(cs, Reindex(b.emailToI - {EmailKey(c)}, EmailKeys(cs), i), Reindex(b.phoneToI - {PhoneKey(c)}, PhoneKeys(cs), i))
  }

  /** `delete_contact`. */
  function Delete(b: Book, id: string, p: Persist): Result {
    var i := Position(b.contacts, id);
    if i == |b.contacts| then Result(b, false, NotFound, None)
    else Finish(Remove(b, i), p, None)
  }

  /** One row of the JSONL import: skipped when either key is taken. */
  function ImportRow(b: Book, c: Contact): Book
    requires Sound(b)
  {
    if EmailExists(b, c.email, "") || PhoneExists(b, c.phone, "") then b else Append(b, c)
  }

  function ImportRows(b: Book, rows: seq<Contact>): Book
    requires Sound(b)
    decreases rows
  {
    if rows == [] then b
    else
      AppendSound(b, rows[0]);
      ImportRows(ImportRow(b, rows[0]), rows[1..])
  }

  // ---------- soundness, which every operation keeps unconditionally ----------

  lemma AppendSound(b: Book, c: Contact)
    requires Sound(b)
    ensures Sound(Append(b, c))
  {
  }

  lemma NameStageSound(b: Book, i: nat, name: string)
    requires i < |b.contacts| && Sound(b)
    ensures Sound(SetName(b, i, name))
    ensures EmailKeys(SetName(b, i, name).contacts) == EmailKeys(b.contacts)
    ensures PhoneKeys(SetName(b, i, name).contacts) == PhoneKeys(b.contacts)
  {
  }

  lemma SetEmailSound(b: Book, i: nat, email: string)
    requires i < |b.contacts| && Sound(b)
    ensures Sound(SetEmail(b, i, email))
  {
    ToLowerIdempotent(email);
    assert PhoneKeys(SetEmail(b, i, email).contacts) == PhoneKeys(b.contacts);
  }

  lemma EmailStageSound(b: Book, i: nat, id: string, email: string)
    requires i < |b.contacts| && Sound(b)
    ensures Sound(EditEmail(b, i, id, email).book)
    ensures |EditEmail(b, i, id, email).book.contacts| == |b.contacts|
  {
    SetEmailSound(b, i, email);
  }
}
