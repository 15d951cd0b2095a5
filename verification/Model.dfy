/** Contacts and their JSON form. */
module Model {
  import opened Text
  import opened Json
  import opened JsonGrammar
  import opened JsonParser
  import opened JsonRoundTrip
  import JsonStandard

  datatype HistoryEntry = HistoryEntry(timestamp: string, user: string, action: string)

  datatype Contact = Contact(id: string, name: string, email: string, phone: string, note: string,
                             createdAt: string, history: seq<HistoryEntry>)

  function EntryToJson(h: HistoryEntry): J {
    Obj([Member("action", Str(h.action)), Member("timestamp", Str(h.timestamp)), Member("user", Str(h.user))])
  }

  /** `std::get<std::string>(o.at(key).v)`; `None` stands for the exceptions. */
  function GetString(ms: seq<Member>, key: string): Option<string> {
    var v :- Find(ms, key);
    if v.Str? then Some(v.s) else None
  }

  function EntryFromJson(j: J): Option<HistoryEntry> {
    if !j.Obj? then None
    else
      var timestamp :- GetString(j.members, "timestamp");
      var user :- GetString(j.members, "user");
      var action :- GetString(j.members, "action");
      Some(HistoryEntry(timestamp, user, action))
  }

  function EntriesToJson(h: seq<HistoryEntry>): (a: seq<J>)
    ensures |a| == |h| && forall i :: 0 <= i < |h| ==> a[i] == EntryToJson(h[i])
  {
    if h == [] then [] else [EntryToJson(h[0])] + EntriesToJson(h[1..])
  }

  function EntriesFromJson(a: seq<J>): Option<seq<HistoryEntry>> {
    if a == [] then Some([])
    else
      var h :- EntryFromJson(a[0]);
      var t :- EntriesFromJson(a[1..]);
      Some([h] + t)
  }

  function ToJson(c: Contact): J {
    Obj([Member("created_at", Str(c.createdAt)), Member("email", Str(c.email)),
         Member("history", Arr(EntriesToJson(c.history))), Member("id", Str(c.id)),
         Member("name", Str(c.name)), Member("note", Str(c.note)), Member("phone", Str(c.phone))])
  }

  function FromJson(j: J): Option<Contact> {
    if !j.Obj? then None
    else
      var ms := j.members;
      var id :- GetString(ms, "id");
      var name :- GetString(ms, "name");
      var email :- GetString(ms, "email");
      var phone :- GetString(ms, "phone");
      var note :- GetString(ms, "note");
      var createdAt :- GetString(ms, "created_at");
      var hist :- Find(ms, "history");
      if !hist.Arr? then None
      else
        var history :- EntriesFromJson(hist.elems);
        Some(Contact(id, name, email, phone, note, createdAt, history))
  }

  /** A record without an id or a time gets one from the generator or the clock. */
  function Fill(c: Contact, id: string, now: string): Contact {
    c.(id := if c.id == "" then id else c.id, createdAt := if c.createdAt == "" then now else c.createdAt)
  }

  // ---------- the vectors are built in loops ----------

  method HistoryToJson(h: seq<HistoryEntry>) returns (a: seq<J>)
    ensures a == EntriesToJson(h)
  {
    a := [];
    ghost var whole := EntriesToJson(h);
    for i := 0 to |h|
      invariant a == whole[..i]
    {
      assert whole[..i + 1] == whole[..i] + [whole[i]];
      a := a + [EntryToJson(h[i])];
    }
    assert whole[..|h|] == whole;
  }

  method HistoryFromJson(a: seq<J>) returns (r: Option<seq<HistoryEntry>>)
    ensures r == EntriesFromJson(a)
  {
    var out: seq<HistoryEntry> := [];
    var rest := a;
    assert forall t: Option<seq<HistoryEntry>> :: t.Some? ==> [] + t.value == t.value;
    while rest != []
      invariant EntriesFromJson(a) ==
                if EntriesFromJson(rest).None? then None else Some(out + EntriesFromJson(rest).value)
      decreases |rest|
    {
      var h := EntryFromJson(rest[0]);
      if h.None? {
        return None;
      }
      if EntriesFromJson(rest[1..]).Some? {
        assert out + ([h.value] + EntriesFromJson(rest[1..]).value) == out + [h.value] + EntriesFromJson(rest[1..]).value;
      }
      out := out + [h.value];
      rest := rest[1..];
    }
    assert out + [] == out;
    return Some(out);
  }

  // ---------- the JSON form is faithful ----------

  lemma EntryRoundTrip(h: HistoryEntry)
    ensures EntryFromJson(EntryToJson(h)) == Some(h)
  {
    var ms := EntryToJson(h).members;
    FindAt(ms, 0);
    FindAt(ms, 1);
    FindAt(ms, 2);
  }

  lemma {:induction false} EntriesRoundTrip(h: seq<HistoryEntry>)
    ensures EntriesFromJson(EntriesToJson(h)) == Some(h)
  {
    if h != [] {
      EntryRoundTrip(h[0]);
      EntriesRoundTrip(h[1..]);
      assert EntriesToJson(h)[1..] == EntriesToJson(h[1..]);
      assert [h[0]] + h[1..] == h;
    }
  }

  lemma FindAt(ms: seq<Member>, i: nat)
    requires i < |ms| && forall k :: 0 <= k < i ==> ms[k].key != ms[i].key
    ensures Find(ms, ms[i].key) == Some(ms[i].value)
  {
    if i > 0 {
      FindAt(ms[1..], i - 1);
    }
  }

  /** Seven distinct members, whatever their values. */
  lemma FindFields(ms: seq<Member>)
    requires |ms| == 7
    requires ms[0].key == "created_at" && ms[1].key == "email" && ms[2].key == "history" && ms[3].key == "id"
    requires ms[4].key == "name" && ms[5].key == "note" && ms[6].key == "phone"
    ensures Find(ms, "created_at") == Some(ms[0].value) && Find(ms, "email") == Some(ms[1].value)
    ensures Find(ms, "history") == Some(ms[2].value) && Find(ms, "id") == Some(ms[3].value)
    ensures Find(ms, "name") == Some(ms[4].value) && Find(ms, "note") == Some(ms[5].value)
    ensures Find(ms, "phone") == Some(ms[6].value)
  {
    assert "name"[1] != "note"[1];
    FindAt(ms, 0);
    FindAt(ms, 1);
    FindAt(ms, 2);
    FindAt(ms, 3);
    FindAt(ms, 4);
    FindAt(ms, 5);
    FindAt(ms, 6);
  }

  /** The members under which the fields of a contact stand. */
  lemma Members(c: Contact, ms: seq<Member>)
    requires ms == ToJson(c).members
    ensures Find(ms, "id") == Some(Str(c.id)) && Find(ms, "name") == Some(Str(c.name))
    ensures Find(ms, "email") == Some(Str(c.email)) && Find(ms, "phone") == Some(Str(c.phone))
    ensures Find(ms, "note") == Some(Str(c.note)) && Find(ms, "created_at") == Some(Str(c.createdAt))
    ensures Find(ms, "history") == Some(Arr(EntriesToJson(c.history)))
  {
    FindFields(ms);
  }

  /** The same for an entry of its history. */
  lemma EntryMembers(h: HistoryEntry, ms: seq<Member>)
    requires ms == EntryToJson(h).members
    ensures Find(ms, "timestamp") == Some(Str(h.timestamp)) && Find(ms, "user") == Some(Str(h.user))
    ensures Find(ms, "action") == Some(Str(h.action))
  {
    FindAt(ms, 0);
    FindAt(ms, 1);
    FindAt(ms, 2);
  }

  lemma {:induction false} EntriesAre(a: seq<J>, h: seq<HistoryEntry>)
    ensures EntriesFromJson(a) == Some(h) <==> |a| == |h| && forall i :: 0 <= i < |a| ==> EntryFromJson(a[i]) == Some(h[i])
  {
    if a != [] && h != [] {
      EntriesAre(a[1..], h[1..]);
      assert h == [h[0]] + h[1..];
      assert forall i :: 0 < i < |a| ==> a[i] == a[1..][i - 1];
      assert forall i :: 0 < i < |h| ==> h[i] == h[1..][i - 1];
    }
  }

  /** A value is taken for an entry exactly when it is an object with its three members as texts, whatever others it
      has; and for a contact exactly when it is an object with the six texts and the list of entries. */
  lemma EntryIs(j: J, h: HistoryEntry)
    ensures EntryFromJson(j) == Some(h) <==>
            && j.Obj? && Find(j.members, "timestamp") == Some(Str(h.timestamp))
            && Find(j.members, "user") == Some(Str(h.user)) && Find(j.members, "action") == Some(Str(h.action))
  {
  }

  lemma ContactIs(j: J, c: Contact)
    ensures FromJson(j) == Some(c) <==>
            && j.Obj?
            && Find(j.members, "id") == Some(Str(c.id)) && Find(j.members, "name") == Some(Str(c.name))
            && Find(j.members, "email") == Some(Str(c.email)) && Find(j.members, "phone") == Some(Str(c.phone))
            && Find(j.members, "note") == Some(Str(c.note)) && Find(j.members, "created_at") == Some(Str(c.createdAt))
            && exists a :: Find(j.members, "history") == Some(Arr(a)) && |a| == |c.history|
                 && forall i :: 0 <= i < |a| ==> EntryFromJson(a[i]) == Some(c.history[i])
  {
    if j.Obj? {
      var x := Find(j.members, "history");
      if x.Some? && x.value.Arr? {
        EntriesAre(x.value.elems, c.history);
      }
    }
  }

  /** `from_json(to_json(c)) == c`, for every contact. */
  lemma ContactRoundTrip(c: Contact)
    ensures FromJson(ToJson(c)) == Some(c)
  {
    FindFields(ToJson(c).members);
    EntriesRoundTrip(c.history);
  }

  // ---------- contacts as printable values ----------

  predicate CleanEntry(h: HistoryEntry) {
    CleanStr(h.timestamp) && CleanStr(h.user) && CleanStr(h.action)
  }

  /** No text field holds a control character other than line feed, carriage return and tab. */
  predicate CleanContact(c: Contact) {
    && CleanStr(c.id) && CleanStr(c.name) && CleanStr(c.email) && CleanStr(c.phone) && CleanStr(c.note)
    && CleanStr(c.createdAt) && forall h :: h in c.history ==> CleanEntry(h)
  }

  lemma EntryJson(h: HistoryEntry)
    ensures NoNum(EntryToJson(h)) && Ordered(EntryToJson(h))
    ensures Clean(EntryToJson(h)) <==> CleanEntry(h)
  {
    var ms := EntryToJson(h).members;
    assert Less("action", "timestamp") && Less("action", "user") && Less("timestamp", "user");
    assert CleanStr("action") && CleanStr("timestamp") && CleanStr("user");
    assert ms[0] in ms && ms[1] in ms && ms[2] in ms;
  }

  lemma FieldOrder(ms: seq<Member>)
    requires |ms| == 7
    requires ms[0].key == "created_at" && ms[1].key == "email" && ms[2].key == "history" && ms[3].key == "id"
    requires ms[4].key == "name" && ms[5].key == "note" && ms[6].key == "phone"
    ensures SortedKeys(ms)
    ensures forall i :: 0 <= i < 7 ==> CleanStr(ms[i].key)
  {
    NameBeforeNote();
    PlainKeys();
  }

  lemma NameBeforeNote()
    ensures Less("name", "note")
  {
    assert "name"[1..][0] < "note"[1..][0];
  }

  lemma PlainKeys()
    ensures CleanStr("created_at") && CleanStr("email") && CleanStr("history") && CleanStr("id")
    ensures CleanStr("name") && CleanStr("note") && CleanStr("phone")
  {
  }

  /** The three properties of an object, member by member. */
  lemma ObjectOf(ms: seq<Member>)
    requires SortedKeys(ms)
    requires forall i :: 0 <= i < |ms| ==> CleanStr(ms[i].key) && NoNum(ms[i].value) && Ordered(ms[i].value)
    ensures NoNum(Obj(ms)) && Ordered(Obj(ms))
    ensures Clean(Obj(ms)) <==> forall i :: 0 <= i < |ms| ==> Clean(ms[i].value)
  {
  }

  lemma FieldsClean(ms: seq<Member>, c: Contact)
    requires |ms| == 7
    requires ms[0].value == Str(c.createdAt) && ms[1].value == Str(c.email) && ms[3].value == Str(c.id)
    requires ms[4].value == Str(c.name) && ms[5].value == Str(c.note) && ms[6].value == Str(c.phone)
    requires Clean(ms[2].value) <==> forall h :: h in c.history ==> CleanEntry(h)
    ensures (forall i :: 0 <= i < |ms| ==> Clean(ms[i].value)) <==> CleanContact(c)
  {
    if forall i :: 0 <= i < |ms| ==> Clean(ms[i].value) {
      assert Clean(ms[0].value) && Clean(ms[1].value) && Clean(ms[2].value) && Clean(ms[3].value);
      assert Clean(ms[4].value) && Clean(ms[5].value) && Clean(ms[6].value);
    }
  }

  lemma FieldsPlain(ms: seq<Member>)
    requires |ms| == 7
    requires ms[0].value.Str? && ms[1].value.Str? && ms[3].value.Str? && ms[4].value.Str?
    requires ms[5].value.Str? && ms[6].value.Str?
    requires NoNum(ms[2].value) && Ordered(ms[2].value)
    ensures forall i :: 0 <= i < |ms| ==> NoNum(ms[i].value) && Ordered(ms[i].value)
  {
  }

  lemma ContactJson(c: Contact)
    ensures NoNum(ToJson(c)) && Ordered(ToJson(c))
    ensures Clean(ToJson(c)) <==> CleanContact(c)
  {
    var ms := ToJson(c).members;
    FieldOrder(ms);
    HistoryJson(c.history);
    FieldsPlain(ms);
    FieldsClean(ms, c);
    ObjectOf(ms);
  }

  lemma {:induction false} HistoryJson(h: seq<HistoryEntry>)
    ensures NoNum(Arr(EntriesToJson(h))) && Ordered(Arr(EntriesToJson(h)))
    ensures Clean(Arr(EntriesToJson(h))) <==> forall x :: x in h ==> CleanEntry(x)
  {
    if h != [] {
      EntryJson(h[0]);
      HistoryJson(h[1..]);
      ListOf(EntryToJson(h[0]), EntriesToJson(h[1..]));
      assert h == [h[0]] + h[1..];
    }
  }

  /** The three properties of a list, element by element. */
  lemma ListOf(e: J, a: seq<J>)
    ensures NoNum(Arr([e] + a)) <==> NoNum(e) && NoNum(Arr(a))
    ensures Ordered(Arr([e] + a)) <==> Ordered(e) && Ordered(Arr(a))
    ensures Clean(Arr([e] + a)) <==> Clean(e) && Clean(Arr(a))
  {
    var l := [e] + a;
    assert l[0] == e && forall i :: 0 <= i < |a| ==> l[i + 1] == a[i];
    assert forall x :: x in l <==> x == e || x in a;
  }

  /** A contact's line, as `save` writes it, and what reading it gives. */
  function ContactLine(c: Contact): string {
    Dump(ToJson(c), 0, 0)
  }

  function ReadContact(line: string): Option<Contact> {
    var (j, _) :- ParseValue(line);
    FromJson(j)
  }

  method ReadLine(line: string) returns (c: Option<Contact>)
    ensures c == ReadContact(line)
  {
    var j, _ := ReadValue(line);
    c := if j.Some? then FromJson(j.value) else None;
  }

  lemma LineIsOne(c: Contact)
    ensures '\n' !in ContactLine(c) && ContactLine(c) != []
  {
    ContactJson(c);
    DumpOneLine(ToJson(c), 0);
    DumpHead(ToJson(c), 0, 0);
  }

  lemma LineParses(c: Contact)
    ensures ParseValue(ContactLine(c)) == Some((Strip(ToJson(c)), ""))
  {
    ContactJson(c);
    assert ContactLine(c) + "" == ContactLine(c);
    ParseDump(ToJson(c), 0, 0, "");
  }

  // ---------- what a line gives back ----------

  function StrippedEntry(h: HistoryEntry): HistoryEntry {
    HistoryEntry(StripStr(h.timestamp), StripStr(h.user), StripStr(h.action))
  }

  function StrippedHistory(h: seq<HistoryEntry>): (r: seq<HistoryEntry>)
    ensures |r| == |h| && forall i :: 0 <= i < |h| ==> r[i] == StrippedEntry(h[i])
  {
    if h == [] then [] else [StrippedEntry(h[0])] + StrippedHistory(h[1..])
  }

  /** The contact without the control characters that the parser drops. */
  function Stripped(c: Contact): Contact {
    Contact(StripStr(c.id), StripStr(c.name), StripStr(c.email), StripStr(c.phone), StripStr(c.note),
            StripStr(c.createdAt), StrippedHistory(c.history))
  }

  lemma StripPlainMembers(ms: seq<Member>, r: seq<Member>)
    requires |r| == |ms|
    requires forall i :: 0 <= i < |ms| ==> CleanStr(ms[i].key) && r[i] == Member(ms[i].key, Strip(ms[i].value))
    ensures StripMembers(ms) == r
  {
    forall i | 0 <= i < |ms| ensures StripStr(ms[i].key) == ms[i].key {
      StripStrClean(ms[i].key);
    }
  }

  lemma InsertedInOrder(r: seq<Member>)
    requires SortedKeys(r)
    ensures InsertAll([], r) == r
  {
    assert [] + r == r;
    InsertAllSorted([], r);
  }

  /** An object with plain keys in order is stripped member by member. */
  lemma StripObject(ms: seq<Member>, r: seq<Member>)
    requires SortedKeys(ms) && |r| == |ms|
    requires forall i :: 0 <= i < |ms| ==> CleanStr(ms[i].key) && r[i] == Member(ms[i].key, Strip(ms[i].value))
    ensures Strip(Obj(ms)) == Obj(r)
  {
    StripPlainMembers(ms, r);
    InsertedInOrder(r);
  }

  lemma StripEntry(h: HistoryEntry)
    ensures Strip(EntryToJson(h)) == EntryToJson(StrippedEntry(h))
  {
    assert Less("action", "timestamp") && Less("action", "user") && Less("timestamp", "user");
    assert CleanStr("action") && CleanStr("timestamp") && CleanStr("user");
    StripObject(EntryToJson(h).members, EntryToJson(StrippedEntry(h)).members);
  }

  lemma StripHistory(h: seq<HistoryEntry>)
    ensures Strip(Arr(EntriesToJson(h))) == Arr(EntriesToJson(StrippedHistory(h)))
  {
    forall i | 0 <= i < |h| ensures StripElems(EntriesToJson(h))[i] == EntriesToJson(StrippedHistory(h))[i] {
      StripEntry(h[i]);
    }
    assert StripElems(EntriesToJson(h)) == EntriesToJson(StrippedHistory(h));
  }

  lemma StripContact(c: Contact)
    ensures Strip(ToJson(c)) == ToJson(Stripped(c))
  {
    var ms, r := ToJson(c).members, ToJson(Stripped(c)).members;
    FieldOrder(ms);
    StripHistory(c.history);
    StripObject(ms, r);
  }

  /** Reading a contact's line gives the contact without its lossy control characters. */
  lemma ReadStripped(c: Contact)
    ensures ReadContact(ContactLine(c)) == Some(Stripped(c))
  {
    LineParses(c);
    StripContact(c);
    ContactRoundTrip(Stripped(c));
  }

  lemma StripStrSame(s: string)
    ensures StripStr(s) == s <==> CleanStr(s)
  {
    StripStrClean(s);
  }

  lemma StrippedHistorySame(h: seq<HistoryEntry>)
    ensures StrippedHistory(h) == h <==> forall x :: x in h ==> CleanEntry(x)
  {
    forall i | 0 <= i < |h| ensures StrippedHistory(h)[i] == h[i] <==> CleanEntry(h[i]) {
      StripStrSame(h[i].timestamp);
      StripStrSame(h[i].user);
      StripStrSame(h[i].action);
    }
    if StrippedHistory(h) != h {
      assert exists i :: 0 <= i < |h| && StrippedHistory(h)[i] != h[i];
    }
  }

  /** The contacts that come back as they are. */
  lemma StrippedSame(c: Contact)
    ensures Stripped(c) == c <==> CleanContact(c)
  {
    StripStrSame(c.id);
    StripStrSame(c.name);
    StripStrSame(c.email);
    StripStrSame(c.phone);
    StripStrSame(c.note);
    StripStrSame(c.createdAt);
    StrippedHistorySame(c.history);
  }

  /** A contact survives its line exactly when it is clean, and its line holds no line feed. */
  lemma LineRoundTrip(c: Contact)
    ensures '\n' !in ContactLine(c) && ContactLine(c) != []
    ensures ReadContact(ContactLine(c)) == Some(c) <==> CleanContact(c)
  {
    LineIsOne(c);
    ReadStripped(c);
    StrippedSame(c);
  }

  /** However the record of a contact is written in JSON, with any white space, any order of its members and any
      escapes but those by number, it is read as the contact. */
  lemma ReadsAnyRecord(w: string, t: Tree, c: Contact, rest: string)
    requires JsonStandard.Space(w) && JsonStandard.NoNumbered(t) && JsonStandard.Derives(t, ToJson(c))
    ensures ReadContact(w + Spell(t, rest)) == Some(c)
  {
    JsonStandard.ReadsAnyText(w, t, ToJson(c), rest);
    ContactRoundTrip(c);
  }
}
