/** The contact book in memory: its vector and its two maps, updated in place. */
module ContactBooks {
  import opened Text
  import opened Json
  import opened Jsonl
  import opened Model
  import opened Validation
  import opened Book
  import opened BookInvariant

  /** The rows an import reaches before the first value that is not a contact, and whether there is none. */
  function ReadRows(js: seq<J>): (r: (seq<Contact>, bool)) {
    if js == [] then ([], true)
    else if FromJson(js[0]).None? then ([], false)
    else ([FromJson(js[0]).value] + ReadRows(js[1..]).0, ReadRows(js[1..]).1)
  }

  /** Those rows are the values in turn; the first value after them, if there is one, is no contact. */
  lemma {:induction false} RowsAre(js: seq<J>)
    ensures var (rows, all) := ReadRows(js);
            && |rows| <= |js| && (forall i :: 0 <= i < |rows| ==> FromJson(js[i]) == Some(rows[i]))
            && (all <==> |rows| == |js|) && (|rows| < |js| ==> FromJson(js[|rows|]).None?)
  {
    if js != [] && FromJson(js[0]).Some? {
      RowsAre(js[1..]);
    }
  }

  /** What the text of a JSONL file does to a book: nothing when a line is no JSON, else its rows in turn, up
      to the first value that is no contact. */
  function ImportText(b: Book, data: string): Book
    requires Sound(b)
  {
    match ParseJsonl(data)
    case None => b
    case Some(js) => ImportRows(b, ReadRows(js).0)
  }

  class ContactBook {
    var contacts: seq<Contact>
    var emailToI: map<string, nat>
    var phoneToI: map<string, nat>

    ghost function View(): Book
      reads this
    {
      Book(contacts, emailToI, phoneToI)
    }

    constructor ()
      ensures View() == EMPTY
    {
      contacts, emailToI, phoneToI := [], map[], map[];
    }

    method HasEmail(email: string, skip: string) returns (r: bool)
      requires Sound(View())
      ensures r == EmailExists(View(), email, skip)
    {
      var e := ToLower(email);
      if e in emailToI {
        var c := contacts[emailToI[e]];
        if c.id != skip {
          return true;
        }
      }
      return false;
    }

    method HasPhone(phone: string, skip: string) returns (r: bool)
      requires Sound(View())
      ensures r == PhoneExists(View(), phone, skip)
    {
      var p := NormalizePhoneE164(phone);
      if p in phoneToI {
        var c := contacts[phoneToI[p]];
        if c.id != skip {
          return true;
        }
      }
      return false;
    }

    method Push(c: Contact)
      modifies this
      ensures View() == Append(old(View()), c)
    {
      contacts := contacts + [c];
      var idx := |contacts| - 1;
      emailToI := emailToI[ToLower(c.email) := idx];
      phoneToI := phoneToI[NormalizePhone(c.phone) := idx];
    }

    method AddContact(f: Fields, user: string, id: string, now: string, limit: nat, p: Persist)
      returns (ok: bool, err: Error, outId: Option<string>)
      requires Sound(View())
      modifies this
      ensures Result(View(), ok, err, outId) == Add(old(View()), f, user, id, now, limit, p)
      ensures Sound(View())
    {
      AddKeeps(View(), f, user, id, now, limit, p);
      if |contacts| >= limit {
        return false, MaxContacts, None;
      }
      var valid := CheckName(f.name);
      if !valid {
        return false, InvalidName, None;
      }
      if !IsValidEmail(f.email) {
        return false, InvalidEmail, None;
      }
      if !IsValidPhone(f.phone) {
        return false, InvalidPhone, None;
      }
      var taken := HasEmail(f.email, "");
      if taken {
        return false, EmailTaken, None;
      }
      taken := HasPhone(f.phone, "");
      if taken {
        return false, PhoneTaken, None;
      }
      var c := Contact(id, f.name, ToLower(f.email), NormalizePhone(f.phone), f.note, now,
                       [HistoryEntry(now, user, "created")]);
      Push(c);
      match p {
        case DryRun => return true, NoError, None;
        case Failed => return false, SaveFailed, None;
        case Saved => return true, NoError, Some(id);
      }
    }

    method Locate(id: string) returns (i: nat)
      ensures i == Position(contacts, id)
    {
      i := 0;
      while i < |contacts| && contacts[i].id != id
        invariant i <= |contacts|
        invariant forall k :: 0 <= k < i ==> contacts[k].id != id
      {
        i := i + 1;
      }
    }

    method ChangeName(i: nat, name: string) returns (err: Error)
      requires i < |contacts|
      modifies this
      ensures EditName(old(View()), i, name) == if err == NoError then Go(View()) else Stop(View(), err)
    {
      if name != "" {
        var valid := CheckName(name);
        if !valid {
          return InvalidName;
        }
        contacts := contacts[i := contacts[i].(name := name)];
      }
      return NoError;
    }

    method ChangeEmail(i: nat, id: string, email: string) returns (err: Error)
      requires i < |contacts| && Sound(View())
      modifies this
      ensures EditEmail(old(View()), i, id, email) == if err == NoError then Go(View()) else Stop(View(), err)
    {
      if email != "" {
        if !IsValidEmail(email) {
          return InvalidEmail;
        }
        var taken := HasEmail(email, id);
        if taken {
          return EmailTaken;
        }
        emailToI := emailToI - {ToLower(contacts[i].email)};
        contacts := contacts[i := contacts[i].(email := ToLower(email))];
        emailToI := emailToI[contacts[i].email := i];
      }
      return NoError;
    }

    method ChangePhone(i: nat, id: string, phone: string) returns (err: Error)
      requires i < |contacts| && Sound(View())
      modifies this
      ensures EditPhone(old(View()), i, id, phone) == if err == NoError then Go(View()) else Stop(View(), err)
    {
      if phone != "" {
        if !IsValidPhone(phone) {
          return InvalidPhone;
        }
        var taken := HasPhone(phone, id);
        if taken {
          return PhoneTaken;
        }
        phoneToI := phoneToI - {NormalizePhone(contacts[i].phone)};
        contacts := contacts[i := contacts[i].(phone := NormalizePhone(phone))];
        phoneToI := phoneToI[contacts[i].phone := i];
      }
      return NoError;
    }

    method ChangeFields(i: nat, id: string, f: Fields) returns (err: Error)
      requires i < |contacts| && Sound(View())
      modifies this
      ensures EditFields(old(View()), i, id, f) == if err == NoError then Go(View()) else Stop(View(), err)
    {
      NameStageSound(View(), i, f.name);
      err := ChangeName(i, f.name);
      if err != NoError {
        return;
      }
      EmailStageSound(View(), i, id, f.email);
      err := ChangeEmail(i, id, f.email);
      if err != NoError {
        return;
      }
      err := ChangePhone(i, id, f.phone);
    }

    method CloseEdit(i: nat, note: string, user: string, now: string)
      requires i < |contacts|
      modifies this
      ensures View() == Close(old(View()), i, note, user, now)
    {
      if note != "" {
        contacts := contacts[i := contacts[i].(note := note)];
      }
      contacts := contacts[i := contacts[i].(history := contacts[i].history + [HistoryEntry(now, user, "edited")])];
    }

    method EditContact(id: string, f: Fields, user: string, now: string, p: Persist)
      returns (ok: bool, err: Error)
      requires Sound(View())
      modifies this
      ensures Result(View(), ok, err, None) == Edit(old(View()), id, f, user, now, p)
      ensures Sound(View())
    {
      EditKeeps(View(), id, f, user, now, p);
      var i := Locate(id);
      if i == |contacts| {
        return false, NotFound;
      }
      err := ChangeFields(i, id, f);
      if err != NoError {
        return false, err;
      }
      CloseEdit(i, f.note, user, now);
      ok := p != Failed;
      err := if ok then NoError else SaveFailed;
    }

    /** Re-indexes the tail after an erasure. */
    method ReindexFrom(i: nat)
      requires i <= |contacts|
      modifies this`emailToI, this`phoneToI
      ensures emailToI == Reindex(old(emailToI), EmailKeys(contacts), i)
      ensures phoneToI == Reindex(old(phoneToI), PhoneKeys(contacts), i)
    {
      var k := i;
      while k < |contacts|
        invariant i <= k <= |contacts|
        invariant Reindex(emailToI, EmailKeys(contacts), k) == Reindex(old(emailToI), EmailKeys(contacts), i)
        invariant Reindex(phoneToI, PhoneKeys(contacts), k) == Reindex(old(phoneToI), PhoneKeys(contacts), i)
      {
        emailToI := emailToI[ToLower(contacts[k].email) := k];
        phoneToI := phoneToI[NormalizePhone(contacts[k].phone) := k];
        k := k + 1;
      }
    }

    method DeleteContact(id: string, p: Persist) returns (ok: bool, err: Error)
      requires Sound(View())
      modifies this
      ensures Result(View(), ok, err, None) == Delete(old(View()), id, p)
      ensures Sound(View())
    {
      DeleteKeeps(View(), id, p);
      var i := Locate(id);
      if i == |contacts| {
        return false, NotFound;
      }
      emailToI := emailToI - {ToLower(contacts[i].email)};
      phoneToI := phoneToI - {NormalizePhone(contacts[i].phone)};
      contacts := contacts[..i] + contacts[i + 1..];
      ReindexFrom(i);
      assert View() == Remove(old(View()), i);
      match p {
        case DryRun => return true, NoError;
        case Failed => return false, SaveFailed;
        case Saved => return true, NoError;
      }
    }

    /** The JSONL branch of `import_data`. An exception in a line that is no JSON comes before any change,
        one in a value that is no contact after the rows before it are in. */
    method ImportJsonl(data: string) returns (threw: bool)
      requires Sound(View())
      modifies this
      ensures View() == ImportText(old(View()), data)
      ensures threw == (ParseJsonl(data).None? || !ReadRows(ParseJsonl(data).value).1)
      ensures Sound(View())
    {
      var rows := ReadJsonl(data);
      if rows.None? {
        return true;
      }
      var rest := rows.value;
      ImportKeeps(View(), ReadRows(rest).0);
      while rest != []
        invariant Sound(View())
        invariant ImportRows(View(), ReadRows(rest).0) == ImportRows(old(View()), ReadRows(rows.value).0)
        invariant ReadRows(rest).1 == ReadRows(rows.value).1
        decreases |rest|
      {
        var c := FromJson(rest[0]);
        if c.None? {
          return true;
        }
        ghost var b := View();
        AppendSound(b, c.value);
        ReadRowsCons(rest);
        var dup := HasEmail(c.value.email, "");
        if !dup {
          dup := HasPhone(c.value.phone, "");
        }
        if !dup {
          Push(c.value);
        }
        assert View() == ImportRow(b, c.value);
        rest := rest[1..];
      }
      return false;
    }
  }

  lemma ReadRowsCons(js: seq<J>)
    requires js != [] && FromJson(js[0]).Some?
    ensures ReadRows(js).0 != [] && ReadRows(js).0[0] == FromJson(js[0]).value
    ensures ReadRows(js).0[1..] == ReadRows(js[1..]).0 && ReadRows(js).1 == ReadRows(js[1..]).1
  {
  }
}
