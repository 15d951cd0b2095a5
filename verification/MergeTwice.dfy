/** Merging into a book that a merge has left: when the second merge changes nothing. */
module MergeTwice {
  import opened Text
  import opened Model
  import opened Validation
  import opened Book
  import opened BookInvariant
  import opened Merge
  import opened Samples

  /** How an edit can end: with its fields set, refused with nothing changed, or refused half-way. */
  predicate Refused(b: Book, id: string, f: Fields)
    requires Sound(b)
  {
    var i := Position(b.contacts, id);
    i == |b.contacts| || (EditFields(b, i, id, f).Stop? && EditFields(b, i, id, f).book == b)
  }

  predicate HalfRefused(b: Book, id: string, f: Fields)
    requires Sound(b)
  {
    var i := Position(b.contacts, id);
    i < |b.contacts| && EditFields(b, i, id, f).Stop? && EditFields(b, i, id, f).book != b
  }

  /** The incoming contact has nothing to do: it is met by none and would not be added, or by one that the strategy
      leaves alone, or its edit is refused with nothing changed. */
  predicate Quiet(b: Book, c: Contact, q: Policy)
    requires Sound(b)
  {
    var t := Target(b, c);
    if t.None? then Fault(b, FieldsOf(c), q.limit) != NoError
    else
      var x := b.contacts[t.value];
      match q.strategy
      case Skip => true
      case PreferExisting => x.note != "" || c.note == ""
      case PreferNewer => Less(x.createdAt, c.createdAt) ==> Refused(b, x.id, FieldsOf(c))
  }

  /** Under PreferNewer an edit can be refused after it has set a field. */
  predicate HalfDone(b: Book, c: Contact, q: Policy)
    requires Sound(b)
  {
    var t := Target(b, c);
    && q.strategy == PreferNewer && t.Some? && Less(b.contacts[t.value].createdAt, c.createdAt)
    && HalfRefused(b, b.contacts[t.value].id, FieldsOf(c))
  }

  // ---------- what an operation can only add ----------

  function Entries(cs: seq<Contact>): nat {
    if cs == [] then 0 else |cs[0].history| + Entries(cs[1..])
  }

  lemma {:induction false} EntriesUpdate(cs: seq<Contact>, i: nat, c: Contact)
    requires i < |cs|
    ensures Entries(cs[i := c]) == Entries(cs) - |cs[i].history| + |c.history|
  {
    if i == 0 {
      assert cs[0 := c][1..] == cs[1..];
    } else {
      assert cs[i := c][1..] == cs[1..][i - 1 := c];
      EntriesUpdate(cs[1..], i - 1, c);
    }
  }

  lemma {:induction false} EntriesAppend(cs: seq<Contact>, c: Contact)
    ensures Entries(cs + [c]) == Entries(cs) + |c.history|
  {
    if cs == [] {
      assert ([] + [c])[1..] == [];
    } else {
      assert (cs + [c])[1..] == cs[1..] + [c];
      EntriesAppend(cs[1..], c);
    }
  }

  lemma StageEntries(b: Book, i: nat, id: string, f: Fields)
    requires Sound(b) && i < |b.contacts|
    ensures Entries(EditName(b, i, f.name).book.contacts) == Entries(b.contacts)
    ensures Entries(EditEmail(b, i, id, f.email).book.contacts) == Entries(b.contacts)
    ensures Entries(EditPhone(b, i, id, f.phone).book.contacts) == Entries(b.contacts)
  {
    var c := b.contacts[i];
    EntriesUpdate(b.contacts, i, c.(name := f.name));
    EntriesUpdate(b.contacts, i, c.(email := ToLower(f.email)));
    EntriesUpdate(b.contacts, i, c.(phone := NormalizePhone(f.phone)));
  }

  lemma FieldsEntries(b: Book, i: nat, id: string, f: Fields)
    requires Sound(b) && i < |b.contacts|
    ensures Entries(EditFields(b, i, id, f).book.contacts) == Entries(b.contacts)
  {
    var b1 := EditName(b, i, f.name).book;
    NameStageSound(b, i, f.name);
    var b2 := EditEmail(b1, i, id, f.email).book;
    EmailStageSound(b1, i, id, f.email);
    StageEntries(b, i, id, f);
    StageEntries(b1, i, id, f);
    StageEntries(b2, i, id, f);
  }

  lemma EditEntries(b: Book, id: string, f: Fields, user: string, now: string, p: Persist)
    requires Sound(b)
    ensures var b' := Edit(b, id, f, user, now, p).book;
            if Refused(b, id, f) then b' == b
            else if HalfRefused(b, id, f) then Entries(b'.contacts) == Entries(b.contacts)
            else Entries(b'.contacts) == Entries(b.contacts) + 1
  {
    var i := Position(b.contacts, id);
    if i < |b.contacts| {
      var s := EditFields(b, i, id, f).book;
      FieldsEntries(b, i, id, f);
      var c := s.contacts[i];
      var n := if f.note == "" then c.note else f.note;
      EntriesUpdate(s.contacts, i, c.(note := n, history := c.history + [HistoryEntry(now, user, "edited")]));
    }
  }

  lemma NoteNeverRefused(b: Book, i: nat, note: string)
    requires Sound(b) && i < |b.contacts| && note != ""
    ensures var id, f := b.contacts[i].id, Fields("", "", "", note); !Refused(b, id, f) && !HalfRefused(b, id, f)
  {
    var id := b.contacts[i].id;
    assert EditFields(b, Position(b.contacts, id), id, Fields("", "", "", note)).Go?;
  }

  lemma AddEntry(b: Book, c: Contact, d: Draw, q: Policy)
    requires Sound(b) && Target(b, c).None?
    ensures if Quiet(b, c, q) then MergeOne(b, c, d, q) == b else Entries(b.contacts) < Entries(MergeOne(b, c, d, q).contacts)
  {
    EntriesAppend(b.contacts, NewContact(FieldsOf(c), q.user, d.id, d.now));
  }

  lemma FillEntry(b: Book, c: Contact, d: Draw, q: Policy)
    requires Sound(b) && Target(b, c).Some? && q.strategy == PreferExisting
    ensures if Quiet(b, c, q) then MergeOne(b, c, d, q) == b else Entries(b.contacts) < Entries(MergeOne(b, c, d, q).contacts)
  {
    var i := Target(b, c).value;
    if !Quiet(b, c, q) {
      NoteNeverRefused(b, i, c.note);
      EditEntries(b, b.contacts[i].id, Fields("", "", "", c.note), q.user, d.now, d.persist);
    }
  }

  lemma UpdateEntry(b: Book, c: Contact, d: Draw, q: Policy)
    requires Sound(b) && Target(b, c).Some? && q.strategy == PreferNewer
    ensures var b' := MergeOne(b, c, d, q);
            if Quiet(b, c, q) then b' == b
            else if HalfDone(b, c, q) then Entries(b.contacts) <= Entries(b'.contacts)
            else Entries(b.contacts) < Entries(b'.contacts)
  {
    EditEntries(b, b.contacts[Target(b, c).value].id, FieldsOf(c), q.user, d.now, d.persist);
  }

  /** A merged contact leaves the book alone when it is quiet, and else adds an entry, unless it stops half-way. */
  lemma OneEntry(b: Book, c: Contact, d: Draw, q: Policy)
    requires Sound(b)
    ensures var b' := MergeOne(b, c, d, q);
            && Entries(b.contacts) <= Entries(b'.contacts)
            && (Quiet(b, c, q) ==> b' == b)
            && (!Quiet(b, c, q) && !HalfDone(b, c, q) ==> Entries(b.contacts) < Entries(b'.contacts))
  {
    if Target(b, c).None? {
      AddEntry(b, c, d, q);
    } else if q.strategy == PreferExisting {
      FillEntry(b, c, d, q);
    } else if q.strategy == PreferNewer {
      UpdateEntry(b, c, d, q);
    }
  }

  lemma {:induction false} EntriesGrow(b: Book, cs: seq<Contact>, ds: seq<Draw>, q: Policy)
    requires Sound(b) && |ds| == |cs|
    ensures Entries(b.contacts) <= Entries(MergeAll(b, cs, ds, q).contacts)
    decreases cs
  {
    if cs != [] {
      MergeOneKeeps(b, cs[0], ds[0], q);
      OneEntry(b, cs[0], ds[0], q);
      EntriesGrow(MergeOne(b, cs[0], ds[0], q), cs[1..], ds[1..], q);
    }
  }

  // ---------- when a merge changes nothing ----------

  /** A merge changes nothing when each incoming contact is quiet; and only then, unless an edit is refused
      half-way, whose effect a later contact may take back. */
  lemma {:induction false} MergeSame(b: Book, cs: seq<Contact>, ds: seq<Draw>, q: Policy)
    requires Sound(b) && |ds| == |cs|
    ensures (forall c :: c in cs ==> Quiet(b, c, q)) ==> MergeAll(b, cs, ds, q) == b
    ensures MergeAll(b, cs, ds, q) == b ==> (forall c :: c in cs ==> Quiet(b, c, q)) || exists c :: c in cs && HalfDone(b, c, q)
    decreases cs
  {
    if cs != [] {
      assert cs == [cs[0]] + cs[1..];
      MergeOneKeeps(b, cs[0], ds[0], q);
      OneEntry(b, cs[0], ds[0], q);
      if Quiet(b, cs[0], q) {
        MergeSame(b, cs[1..], ds[1..], q);
      } else {
        EntriesGrow(MergeOne(b, cs[0], ds[0], q), cs[1..], ds[1..], q);
        assert cs[0] in cs;
      }
    }
  }

  /** Under Skip and PreferExisting no edit is refused half-way: merging a file twice is merging it once exactly
      when the first merge has left each of its contacts quiet. */
  lemma TwiceIsOnce(b: Book, cs: seq<Contact>, ds: seq<Draw>, es: seq<Draw>, q: Policy)
    requires Sound(b) && |ds| == |es| == |cs| && q.strategy != PreferNewer
    ensures var r := MergeAll(b, cs, ds, q);
            Sound(r) && (MergeAll(r, cs, es, q) == r <==> forall c :: c in cs ==> Quiet(r, c, q))
  {
    MergeKeeps(b, cs, ds, q);
    MergeSame(MergeAll(b, cs, ds, q), cs, es, q);
  }

  /** Under PreferNewer the same, as long as no contact of the file would be refused half-way. */
  lemma NewerTwiceIsOnce(b: Book, cs: seq<Contact>, ds: seq<Draw>, es: seq<Draw>, q: Policy)
    requires Sound(b) && |ds| == |es| == |cs| && q.strategy == PreferNewer
    ensures var r := MergeAll(b, cs, ds, q);
            Sound(r) && ((forall c :: c in cs ==> !HalfDone(r, c, q)) ==>
              (MergeAll(r, cs, es, q) == r <==> forall c :: c in cs ==> Quiet(r, c, q)))
  {
    MergeKeeps(b, cs, ds, q);
    MergeSame(MergeAll(b, cs, ds, q), cs, es, q);
  }

  // ---------- PreferNewer: an update is made again ----------

  /** The incoming contact is a newer version of the one at the position. */
  ghost predicate Updates(b: Book, c: Contact, i: nat) {
    && Consistent(b) && i < |b.contacts|
    && EmailKey(c) == EmailKey(b.contacts[i]) && PhoneKey(c) == PhoneKey(b.contacts[i])
    && Less(b.contacts[i].createdAt, c.createdAt)
    && IsValidName(c.name) && IsValidEmail(c.email) && IsValidPhone(c.phone)
  }

  lemma OwnKeys(b: Book, i: nat)
    requires Agree(b) && i < |b.contacts|
    ensures EmailKey(b.contacts[i]) in b.emailToI && b.emailToI[EmailKey(b.contacts[i])] == i
    ensures PhoneKey(b.contacts[i]) in b.phoneToI && b.phoneToI[PhoneKey(b.contacts[i])] == i
  {
    assert EmailKeys(b.contacts)[i] == EmailKey(b.contacts[i]) && PhoneKeys(b.contacts)[i] == PhoneKey(b.contacts[i]);
  }

  lemma AcceptedFields(b: Book, c: Contact, i: nat)
    requires Updates(b, c, i)
    ensures Target(b, c) == Some(i) && Position(b.contacts, b.contacts[i].id) == i
    ensures EditFields(b, i, b.contacts[i].id, FieldsOf(c)).Go?
  {
    OwnKeys(b, i);
    PositionOf(b, i);
    var b1 := EditName(b, i, c.name).book;
    NameStageSound(b, i, c.name);
    EmailStageSound(b1, i, b.contacts[i].id, c.email);
  }

  lemma UpdateEdits(b: Book, c: Contact, i: nat, user: string, now: string, p: Persist)
    requires Updates(b, c, i)
    ensures var r := Edit(b, b.contacts[i].id, FieldsOf(c), user, now, p).book;
            Consistent(r) && r.contacts == b.contacts[i := Edited(b.contacts[i], FieldsOf(c), user, now)]
  {
    AcceptedFields(b, c, i);
    EditKeeps(b, b.contacts[i].id, FieldsOf(c), user, now, p);
    FieldsEffect(b, i, b.contacts[i].id, FieldsOf(c));
  }

  lemma EditedUpdates(x: Contact, c: Contact, user: string, now: string)
    ensures var y := Edited(x, FieldsOf(c), user, now);
            && y.createdAt == x.createdAt && (EmailKey(c) == EmailKey(x) ==> EmailKey(c) == EmailKey(y))
            && (PhoneKey(c) == PhoneKey(x) ==> PhoneKey(c) == PhoneKey(y))
  {
    ToLowerIdempotent(c.email);
    NormalizePhoneIdempotent(c.phone);
  }

  /** An update is accepted and leaves an update: the time of creation stays, and the keys. */
  lemma UpdateAgain(b: Book, c: Contact, i: nat, d: Draw, q: Policy)
    requires Updates(b, c, i) && q.strategy == PreferNewer
    ensures Updates(MergeOne(b, c, d, q), c, i)
  {
    UpdateEdits(b, c, i, q.user, d.now, d.persist);
    EditedUpdates(b.contacts[i], c, q.user, d.now);
    OwnKeys(b, i);
  }

  lemma UpdateEnters(b: Book, c: Contact, i: nat, d: Draw, q: Policy)
    requires Updates(b, c, i) && q.strategy == PreferNewer
    ensures Entries(b.contacts) < Entries(MergeOne(b, c, d, q).contacts)
  {
    AcceptedFields(b, c, i);
    EditEntries(b, b.contacts[i].id, FieldsOf(c), q.user, d.now, d.persist);
  }

  /** The time of creation is never updated, so a newer version is merged again each time, and the history grows. */
  lemma NewerNeverSettles(b: Book, c: Contact, i: nat, d: Draw, e: Draw, q: Policy)
    requires Updates(b, c, i) && q.strategy == PreferNewer
    ensures Sound(MergeOne(b, c, d, q)) && MergeOne(MergeOne(b, c, d, q), c, e, q) != MergeOne(b, c, d, q)
  {
    UpdateAgain(b, c, i, d, q);
    UpdateEnters(MergeOne(b, c, d, q), c, i, e, q);
  }

  lemma NewerSample(digits: Digits, d: Draw, e: Draw, q: Policy)
    requires q.strategy == PreferNewer
    ensures var b, c := ImportRows(EMPTY, [Sample("1", 'a', digits, "s")]), Sample("2", 'a', digits, "t");
            Consistent(b) && Sound(MergeOne(b, c, d, q)) && MergeOne(MergeOne(b, c, d, q), c, e, q) != MergeOne(b, c, d, q)
  {
    var x, c := Sample("1", 'a', digits, "s"), Sample("2", 'a', digits, "t");
    SampleValid("1", 'a', digits, "s");
    SampleValid("2", 'a', digits, "t");
    OneContact(x);
    assert Less("s", "t");
    NewerNeverSettles(ImportRows(EMPTY, [x]), c, 0, d, e, q);
  }

  lemma OneContact(x: Contact)
    requires x.id != ""
    ensures ImportRows(EMPTY, [x]) == Append(EMPTY, x) && Consistent(Append(EMPTY, x)) && Append(EMPTY, x).contacts == [x]
  {
    AppendSound(EMPTY, x);
    AppendIndexed(EMPTY, x);
    assert ImportRows(EMPTY, [x]) == ImportRows(Append(EMPTY, x), []);
  }

  // ---------- PreferExisting: a later contact of the file can take the address ----------

  /** The first incoming contact has the number of `x` and an address that the second one has, too. */
  ghost predicate TakesOver(x: Contact, c: Contact, c': Contact) {
    && x.id != "" && x.note == "" && c.note != "" && c'.note == ""
    && PhoneKey(c) == PhoneKey(x) != PhoneKey(c') && EmailKey(c) == EmailKey(c') != EmailKey(x)
    && IsValidName(c'.name) && IsValidEmail(c'.email) && IsValidPhone(c'.phone)
  }

  lemma FirstFills(x: Contact, c: Contact, c': Contact, d: Draw, q: Policy)
    requires TakesOver(x, c, c') && q.strategy == PreferExisting
    ensures var b := Append(EMPTY, x);
            var b1 := MergeOne(b, c, d, q);
            Consistent(b) && Sound(b1) && |b1.contacts| == 1 && b1.emailToI == b.emailToI && b1.phoneToI == b.phoneToI
  {
    var b := Append(EMPTY, x);
    OneContact(x);
    MergeOneKeeps(b, c, d, q);
    assert b.contacts[0] == x && b.phoneToI[PhoneKey(x)] == 0;
    NoteSet(b, x, c.note, q.user, d.now, d.persist);
  }

  lemma NoteSet(b: Book, x: Contact, note: string, user: string, now: string, p: Persist)
    requires Sound(b) && b.contacts == [x]
    ensures var b' := Edit(b, x.id, Fields("", "", "", note), user, now, p).book;
            |b'.contacts| == 1 && b'.emailToI == b.emailToI && b'.phoneToI == b.phoneToI
  {
    assert Position(b.contacts, x.id) == 0;
    assert EditFields(b, 0, x.id, Fields("", "", "", note)) == Go(b);
  }

  lemma SecondAdded(b: Book, c: Contact, c': Contact, d: Draw, q: Policy)
    requires Sound(b) && |b.contacts| == 1 < q.limit && q.strategy == PreferExisting
    requires EmailKey(c') !in b.emailToI && PhoneKey(c') !in b.phoneToI && EmailKey(c) == EmailKey(c')
    requires c.note != "" && c'.note == "" && IsValidName(c'.name) && IsValidEmail(c'.email) && IsValidPhone(c'.phone)
    ensures var r := MergeOne(b, c', d, q); Sound(r) && !Quiet(r, c, q)
  {
    var y := NewContact(FieldsOf(c'), q.user, d.id, d.now);
    MergeOneKeeps(b, c', d, q);
    ToLowerIdempotent(c'.email);
    assert MergeOne(b, c', d, q) == Append(b, y);
    assert Append(b, y).contacts[1] == y;
  }

  /** The first fills the note of `x`, which it meets by its number. Then the second is added and has the address,
      so at the second merge the first meets that one, and fills its note, too. */
  lemma ExistingTakesOver(x: Contact, c: Contact, c': Contact, ds: seq<Draw>, es: seq<Draw>, q: Policy)
    requires TakesOver(x, c, c') && |ds| == |es| == 2 && q.strategy == PreferExisting && q.limit > 1
    ensures var b := ImportRows(EMPTY, [x]);
            Consistent(b) && Sound(MergeAll(b, [c, c'], ds, q)) &&
            MergeAll(MergeAll(b, [c, c'], ds, q), [c, c'], es, q) != MergeAll(b, [c, c'], ds, q)
  {
    var b := Append(EMPTY, x);
    OneContact(x);
    FirstFills(x, c, c', ds[0], q);
    var b1 := MergeOne(b, c, ds[0], q);
    SecondAdded(b1, c, c', ds[1], q);
    assert [c, c'][1..] == [c'] && ds[1..] == [ds[1]] && [c'][1..] == [] && [ds[1]][1..] == [];
    assert MergeAll(b, [c, c'], ds, q) == MergeAll(b1, [c'], [ds[1]], q);
    assert MergeAll(b1, [c'], [ds[1]], q) == MergeAll(MergeOne(b1, c', ds[1], q), [], [], q);
    assert c in [c, c'];
    TwiceIsOnce(b, [c, c'], ds, es, q);
  }

  /** Such contacts exist. */
  lemma TakeoverSample(d: Digits)
    ensures TakesOver(Sample("1", 'a', d, "t"), Sample("2", 'b', d, "t").(note := "n"), Sample("3", 'b', Other(d), "t"))
  {
    SampleValid("3", 'b', Other(d), "t");
    SamplesDiffer("2", 'b', d, "t", "1", 'a', d, "t");
    SamplesDiffer("2", 'b', d, "t", "3", 'b', Other(d), "t");
    SamplesDiffer("3", 'b', Other(d), "t", "1", 'a', d, "t");
  }

  // ---------- PreferNewer: what a refused edit leaves can be taken back ----------

  /** The incoming contact is newer than the one at `i`, has its address and the number of another one. */
  ghost predicate Collides(b: Book, c: Contact, i: nat, j: nat) {
    && Consistent(b) && i < |b.contacts| && j < |b.contacts| && i != j
    && EmailKey(c) == EmailKey(b.contacts[i]) && PhoneKey(c) == PhoneKey(b.contacts[j])
    && Less(b.contacts[i].createdAt, c.createdAt)
    && IsValidName(c.name) && IsValidEmail(c.email) && IsValidPhone(c.phone)
  }

  /** What the refused edit has set by then: the name and the address. */
  function HalfEdited(b: Book, c: Contact, i: nat): Book
    requires i < |b.contacts|
  {
    b.(contacts := b.contacts[i := b.contacts[i].(name := c.name, email := EmailKey(c))])
  }

  lemma SameKeySet(b: Book, i: nat, email: string)
    requires Agree(b) && i < |b.contacts| && ToLower(email) == EmailKey(b.contacts[i])
    ensures SetEmail(b, i, email) == b.(contacts := b.contacts[i := b.contacts[i].(email := ToLower(email))])
  {
    OwnKeys(b, i);
    assert (b.emailToI - {EmailKey(b.contacts[i])})[ToLower(email) := i] == b.emailToI;
  }

  lemma AddressPasses(b: Book, c: Contact, i: nat, id: string)
    requires Sound(b) && i < |b.contacts| && b.contacts[i].id == id && IsValidEmail(c.email)
    requires EmailKey(c) in b.emailToI && b.emailToI[EmailKey(c)] == i
    ensures EditEmail(b, i, id, c.email) == Go(SetEmail(b, i, c.email))
  {
    assert c.email != "";
  }

  lemma NumberStops(b: Book, c: Contact, i: nat, j: nat, id: string)
    requires Sound(b) && i < |b.contacts| && j < |b.contacts| && b.contacts[j].id != id && IsValidPhone(c.phone)
    requires PhoneKey(c) in b.phoneToI && b.phoneToI[PhoneKey(c)] == j
    ensures EditPhone(b, i, id, c.phone) == Stop(b, PhoneTaken)
  {
    assert c.phone != "";
  }

  lemma CollidingFields(b: Book, c: Contact, i: nat, j: nat)
    requires Collides(b, c, i, j)
    ensures EditFields(b, i, b.contacts[i].id, FieldsOf(c)) == Stop(HalfEdited(b, c, i), PhoneTaken)
  {
    var b1, id := SetName(b, i, c.name), b.contacts[i].id;
    NameStageSound(b, i, c.name);
    OwnKeys(b, i);
    SameKeySet(b1, i, c.email);
    EmailStageSound(b1, i, id, c.email);
    AddressPasses(b1, c, i, id);
    assert SetEmail(b1, i, c.email) == HalfEdited(b, c, i);
    OwnKeys(b, j);
    NumberStops(HalfEdited(b, c, i), c, i, j, id);
  }

  lemma CollidingMerge(b: Book, c: Contact, i: nat, j: nat, d: Draw, q: Policy)
    requires Collides(b, c, i, j) && q.strategy == PreferNewer
    ensures MergeOne(b, c, d, q) == HalfEdited(b, c, i)
    ensures Quiet(b, c, q) <==> HalfEdited(b, c, i) == b
  {
    OwnKeys(b, i);
    PositionOf(b, i);
    CollidingFields(b, c, i, j);
  }

  lemma StillCollides(b: Book, c: Contact, c': Contact, i: nat, j: nat)
    requires Collides(b, c, i, j) && Collides(b, c', i, j)
    ensures Collides(HalfEdited(b, c, i), c', i, j)
  {
    ToLowerIdempotent(c.email);
    FieldsKept(b, i, b.contacts[i].id, FieldsOf(c));
    CollidingFields(b, c, i, j);
  }

  /** Two such contacts with different names: the second takes back what the first has set, at every merge alike,
      so a second merge changes nothing in the end, although the first contact is not quiet. */
  lemma HalfTakenBack(b: Book, c: Contact, c': Contact, i: nat, j: nat, ds: seq<Draw>, es: seq<Draw>, q: Policy)
    requires Collides(b, c, i, j) && Collides(b, c', i, j) && c.name != c'.name
    requires q.strategy == PreferNewer && |ds| == |es| == 2
    ensures var r := MergeAll(b, [c, c'], ds, q);
            Sound(r) && !Quiet(r, c, q) && MergeAll(r, [c, c'], es, q) == r
  {
    var r := HalfEdited(b, c', i);
    BothMerged(b, c, c', i, j, ds, q);
    StillCollides(b, c', c, i, j);
    StillCollides(b, c', c', i, j);
    BothMerged(r, c, c', i, j, es, q);
    HalfTwice(b, c', c', i);
    CollidingMerge(r, c, i, j, ds[0], q);
    assert HalfEdited(r, c, i).contacts[i].name == c.name && r.contacts[i].name == c'.name;
  }

  lemma HalfTwice(b: Book, c: Contact, c': Contact, i: nat)
    requires i < |b.contacts|
    ensures HalfEdited(HalfEdited(b, c, i), c', i) == HalfEdited(b, c', i)
  {
    var cs := b.contacts[i := b.contacts[i].(name := c.name, email := EmailKey(c))];
    assert cs[i := cs[i].(name := c'.name, email := EmailKey(c'))] == b.contacts[i := b.contacts[i].(name := c'.name, email := EmailKey(c'))];
  }

  lemma BothMerged(b: Book, c: Contact, c': Contact, i: nat, j: nat, ds: seq<Draw>, q: Policy)
    requires Collides(b, c, i, j) && Collides(b, c', i, j) && q.strategy == PreferNewer && |ds| == 2
    ensures MergeAll(b, [c, c'], ds, q) == HalfEdited(b, c', i)
  {
    CollidingMerge(b, c, i, j, ds[0], q);
    StillCollides(b, c, c', i, j);
    CollidingMerge(HalfEdited(b, c, i), c', i, j, ds[1], q);
    HalfTwice(b, c, c', i);
    MergeTwo(b, c, c', ds, q);
  }

  lemma MergeTwo(b: Book, c: Contact, c': Contact, ds: seq<Draw>, q: Policy)
    requires Sound(b) && |ds| == 2
    ensures Sound(MergeOne(b, c, ds[0], q)) && MergeAll(b, [c, c'], ds, q) == MergeOne(MergeOne(b, c, ds[0], q), c', ds[1], q)
  {
    var b1 := MergeOne(b, c, ds[0], q);
    MergeOneKeeps(b, c, ds[0], q);
    MergeOneKeeps(b1, c', ds[1], q);
    assert [c, c'][1..] == [c'] && ds[1..] == [ds[1]] && [c'][1..] == [] && [ds[1]][1..] == [];
    assert MergeAll(b1, [c'], [ds[1]], q) == MergeAll(MergeOne(b1, c', ds[1], q), [], [], q);
  }
}
