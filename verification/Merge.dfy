/** Merging a file of contacts into the book, under three strategies. */
module Merge {
  import opened Text
  import opened Json
  import opened Model
  import opened Validation
  import opened Book
  import opened BookInvariant
  import BookEffects
  import opened ContactBooks

  datatype Strategy = Skip | PreferNewer | PreferExisting

  datatype Policy = Policy(strategy: Strategy, user: string, limit: nat)

  /** The lines of a text that are not empty. */
  function Lines(all: string): seq<string>
    decreases |all|
  {
    if all == [] then []
    else
      var (line, rest) := CutLine(all);
      (if line == [] then [] else [line]) + Lines(rest)
  }

  /** The contacts among the lines, in order: a line that is no contact is skipped. */
  function ContactsOf(lines: seq<string>): seq<Contact> {
    if lines == [] then []
    else
      var c := ReadContact(lines[0]);
      (if c.Some? then [c.value] else []) + ContactsOf(lines[1..])
  }

  /** What the next line of the text adds to its contacts. */
  lemma LinesNext(all: string, line: string, rest: string)
    requires all != [] && CutLine(all) == (line, rest)
    ensures ContactsOf(Lines(all)) ==
            if line != [] && ReadContact(line).Some? then [ReadContact(line).value] + ContactsOf(Lines(rest)) else ContactsOf(Lines(rest))
  {
    var more := Lines(rest);
    if line == [] {
      assert [] + more == more;
    } else {
      ContactsNext(line, more);
    }
  }

  lemma ContactsNext(line: string, more: seq<string>)
    ensures ContactsOf([line] + more) ==
            if ReadContact(line).Some? then [ReadContact(line).value] + ContactsOf(more) else ContactsOf(more)
  {
    assert ([line] + more)[1..] == more && [] + ContactsOf(more) == ContactsOf(more);
  }

  /** The JSONL branch of `parse_contacts`. */
  method ReadContacts(all: string) returns (out: seq<Contact>)
    ensures out == ContactsOf(Lines(all))
  {
    out := [];
    var pos := all;
    ghost var whole := ContactsOf(Lines(all));
    while pos != []
      invariant out + ContactsOf(Lines(pos)) == whole
      decreases |pos|
    {
      var (line, rest) := CutLine(pos);
      LinesNext(pos, line, rest);
      if line != [] {
        var c := ReadLine(line);
        if c.Some? {
          Assoc(out, [c.value], ContactsOf(Lines(rest)));
          out := out + [c.value];
        }
      }
      pos := rest;
    }
  }

  function FieldsOf(c: Contact): Fields {
    Fields(c.name, c.email, c.phone, c.note)
  }

  /** The position of the contact an incoming one meets, by address first, else by number. */
  function Target(b: Book, c: Contact): Option<nat> {
    if EmailKey(c) in b.emailToI then Some(b.emailToI[EmailKey(c)])
    else if PhoneKey(c) in b.phoneToI then Some(b.phoneToI[PhoneKey(c)])
    else None
  }

  /** What merging one contact does to the book, if anything. */
  function Decide(b: Book, c: Contact, d: Draw, q: Policy): Option<Op>
    requires Sound(b)
  {
    var t := Target(b, c);
    if t.None? then Some(OpAdd(FieldsOf(c), q.user, d.id, d.now, q.limit, d.persist))
    else
      var x := b.contacts[t.value];
      match q.strategy
      case PreferNewer =>
        if Less(x.createdAt, c.createdAt) then Some(OpEdit(x.id, FieldsOf(c), q.user, d.now, d.persist)) else None
      case PreferExisting =>
        if x.note == "" && c.note != "" then Some(OpEdit(x.id, Fields("", "", "", c.note), q.user, d.now, d.persist))
        else None
      case Skip => None
  }

  function MergeOne(b: Book, c: Contact, d: Draw, q: Policy): Book
    requires Sound(b)
  {
    var op := Decide(b, c, d, q);
    if op.None? then b else Apply(b, op.value)
  }

  /** The contact at the position has the address of the other, up to case, or, if no contact has it, its number. */
  ghost predicate Met(cs: seq<Contact>, c: Contact, i: nat) {
    i < |cs| &&
    if BookEffects.AddressKnown(cs, c.email) then SameUpToCase(cs[i].email, c.email)
    else NormalizePhone(cs[i].phone) == NormalizePhone(c.phone)
  }

  lemma TargetIs(b: Book, c: Contact)
    requires Agree(b)
    ensures Target(b, c).None? ==> !BookEffects.AddressKnown(b.contacts, c.email) && !BookEffects.NumberKnown(b.contacts, c.phone)
    ensures Target(b, c).Some? ==> Met(b.contacts, c, Target(b, c).value)
  {
    BookEffects.KnownIs(b, c.email, c.phone);
    if EmailKey(c) in b.emailToI {
      SameLower(b.contacts[b.emailToI[EmailKey(c)]].email, c.email);
      assert EmailKeys(b.contacts)[b.emailToI[EmailKey(c)]] == EmailKey(c);
    } else if PhoneKey(c) in b.phoneToI {
      assert PhoneKeys(b.contacts)[b.phoneToI[PhoneKey(c)]] == PhoneKey(c);
    }
  }

  /** What merging one contact is: an add when nobody has its address or its number; else an edit of the contact
      that has, of all fields when the strategy prefers the newer and it is newer, of an empty note when it prefers
      the existing, and nothing otherwise. */
  lemma MergeOneIs(b: Book, c: Contact, d: Draw, q: Policy) returns (i: nat)
    requires Agree(b)
    ensures var known := BookEffects.AddressKnown(b.contacts, c.email) || BookEffects.NumberKnown(b.contacts, c.phone);
            if !known then
              MergeOne(b, c, d, q) == Add(b, Fields(c.name, c.email, c.phone, c.note), q.user, d.id, d.now, q.limit, d.persist).book
            else
              Met(b.contacts, c, i) &&
              var x := b.contacts[i];
              if q.strategy == PreferNewer && Less(x.createdAt, c.createdAt) then
                MergeOne(b, c, d, q) == Edit(b, x.id, Fields(c.name, c.email, c.phone, c.note), q.user, d.now, d.persist).book
              else if q.strategy == PreferExisting && x.note == "" && c.note != "" then
                MergeOne(b, c, d, q) == Edit(b, x.id, Fields("", "", "", c.note), q.user, d.now, d.persist).book
              else MergeOne(b, c, d, q) == b
  {
    TargetIs(b, c);
    i := if Target(b, c).Some? then Target(b, c).value else 0;
  }

  lemma DecideFresh(b: Book, c: Contact, d: Draw, q: Policy)
    requires Sound(b) && Decide(b, c, d, q).Some? && d.id != "" && d.id !in Ids(b.contacts)
    ensures Fresh(b, Decide(b, c, d, q).value)
  {
  }

  lemma MergeOneKeeps(b: Book, c: Contact, d: Draw, q: Policy)
    requires Sound(b)
    ensures Sound(MergeOne(b, c, d, q))
    ensures Consistent(b) && d.id != "" && d.id !in Ids(b.contacts) ==> Consistent(MergeOne(b, c, d, q))
  {
    var op := Decide(b, c, d, q);
    if op.Some? {
      ApplyKeeps(b, op.value);
      if d.id != "" && d.id !in Ids(b.contacts) {
        DecideFresh(b, c, d, q);
      }
    }
  }

  /** The loop of `merge_from_file`. */
  function MergeAll(b: Book, cs: seq<Contact>, ds: seq<Draw>, q: Policy): Book
    requires Sound(b) && |ds| == |cs|
    decreases cs
  {
    if cs == [] then b
    else
      MergeOneKeeps(b, cs[0], ds[0], q);
      MergeAll(MergeOne(b, cs[0], ds[0], q), cs[1..], ds[1..], q)
  }

  method MergeInto(book: ContactBook, cs: seq<Contact>, ds: seq<Draw>, q: Policy)
    requires Sound(book.View()) && |ds| == |cs|
    modifies book
    ensures book.View() == MergeAll(old(book.View()), cs, ds, q)
  {
    var k := 0;
    while k < |cs|
      invariant k <= |cs| && Sound(book.View())
      invariant MergeAll(book.View(), cs[k..], ds[k..], q) == MergeAll(old(book.View()), cs, ds, q)
    {
      MergeOneKeeps(book.View(), cs[k], ds[k], q);
      assert cs[k..][1..] == cs[k + 1..] && ds[k..][1..] == ds[k + 1..];
      MergeContact(book, cs[k], ds[k], q);
      k := k + 1;
    }
  }

  method FindTarget(book: ContactBook, c: Contact) returns (t: Option<nat>)
    ensures t == Target(book.View(), c)
  {
    var e, p := ToLower(c.email), NormalizePhone(c.phone);
    if e in book.emailToI {
      return Some(book.emailToI[e]);
    } else if p in book.phoneToI {
      return Some(book.phoneToI[p]);
    }
    return None;
  }

  method MergeContact(book: ContactBook, c: Contact, d: Draw, q: Policy)
    requires Sound(book.View())
    modifies book
    ensures book.View() == MergeOne(old(book.View()), c, d, q)
  {
    var t := FindTarget(book, c);
    if t.None? {
      var ok, err, id := book.AddContact(FieldsOf(c), q.user, d.id, d.now, q.limit, d.persist);
      return;
    }
    var x := book.contacts[t.value];
    if q.strategy == PreferNewer {
      if Less(x.createdAt, c.createdAt) {
        var ok, err := book.EditContact(x.id, FieldsOf(c), q.user, d.now, d.persist);
      }
    } else if q.strategy == PreferExisting {
      if x.note == "" && c.note != "" {
        var ok, err := book.EditContact(x.id, Fields("", "", "", c.note), q.user, d.now, d.persist);
      }
    }
  }

  // ---------- the index invariant, and contacts are never lost ----------

  /** Every id drawn is new when it is drawn. */
  ghost predicate FreshDraws(b: Book, cs: seq<Contact>, ds: seq<Draw>, q: Policy)
    requires Sound(b) && |ds| == |cs|
    decreases cs
  {
    cs == [] ||
    (MergeOneKeeps(b, cs[0], ds[0], q);
     ds[0].id != "" && ds[0].id !in Ids(b.contacts) &&
     FreshDraws(MergeOne(b, cs[0], ds[0], q), cs[1..], ds[1..], q))
  }

  /** The same ids in the same places, perhaps with more contacts after them. */
  ghost predicate KeepsIds(b: Book, b': Book) {
    |b.contacts| <= |b'.contacts| && forall i :: 0 <= i < |b.contacts| ==> b'.contacts[i].id == b.contacts[i].id
  }

  lemma MergeOneKeepsIds(b: Book, c: Contact, d: Draw, q: Policy)
    requires Sound(b)
    ensures KeepsIds(b, MergeOne(b, c, d, q))
  {
    var op := Decide(b, c, d, q);
    if op.Some? {
      OpKeepsIds(b, op.value);
    }
  }

  lemma OpKeepsIds(b: Book, op: Op)
    requires Sound(b) && (op.OpAdd? || op.OpEdit?)
    ensures KeepsIds(b, Apply(b, op))
  {
    match op
    case OpAdd(f, user, id, now, limit, p) => AddGrows(b, f, user, id, now, limit, p);
    case OpEdit(id, f, user, now, p) => EditKeeps(b, id, f, user, now, p);
  }

  lemma AddGrows(b: Book, f: Fields, user: string, id: string, now: string, limit: nat, p: Persist)
    requires Sound(b)
    ensures var b' := Add(b, f, user, id, now, limit, p).book;
            b.contacts <= b'.contacts && KeepsIds(b, b')
  {
  }

  /** Merging any file under any strategy keeps the indexes, and no contact loses its place or its id. */
  lemma {:induction false} MergeKeeps(b: Book, cs: seq<Contact>, ds: seq<Draw>, q: Policy)
    requires Sound(b) && |ds| == |cs|
    ensures Sound(MergeAll(b, cs, ds, q)) && KeepsIds(b, MergeAll(b, cs, ds, q))
    ensures Consistent(b) && FreshDraws(b, cs, ds, q) ==> Consistent(MergeAll(b, cs, ds, q))
    decreases cs
  {
    if cs != [] {
      MergeOneKeeps(b, cs[0], ds[0], q);
      MergeOneKeepsIds(b, cs[0], ds[0], q);
      MergeKeeps(MergeOne(b, cs[0], ds[0], q), cs[1..], ds[1..], q);
    }
  }

  // ---------- Skip ----------

  /** Merging the contact under Skip would change nothing. */
  predicate Settled(b: Book, c: Contact, limit: nat) {
    EmailKey(c) in b.emailToI || PhoneKey(c) in b.phoneToI || |b.contacts| >= limit ||
    !IsValidName(c.name) || !IsValidEmail(c.email) || !IsValidPhone(c.phone)
  }

  /** The later book only has more contacts and more keys. */
  ghost predicate Grown(b: Book, b': Book) {
    b.contacts <= b'.contacts && b.emailToI.Keys <= b'.emailToI.Keys && b.phoneToI.Keys <= b'.phoneToI.Keys
  }

  lemma AddSettles(b: Book, c: Contact, user: string, id: string, now: string, limit: nat, p: Persist)
    requires Sound(b)
    ensures var b' := Add(b, FieldsOf(c), user, id, now, limit, p).book;
            Grown(b, b') && (EmailKey(c) !in b.emailToI && PhoneKey(c) !in b.phoneToI ==> Settled(b', c, limit))
    ensures Settled(b, c, limit) && EmailKey(c) !in b.emailToI && PhoneKey(c) !in b.phoneToI ==>
            Add(b, FieldsOf(c), user, id, now, limit, p).book == b
  {
    ToLowerIdempotent(c.email);
    NormalizePhoneIdempotent(c.phone);
  }

  lemma SkipOne(b: Book, c: Contact, d: Draw, q: Policy)
    requires Sound(b) && q.strategy == Skip
    ensures var b' := MergeOne(b, c, d, q); Grown(b, b') && Settled(b', c, q.limit)
    ensures Settled(b, c, q.limit) ==> MergeOne(b, c, d, q) == b
  {
    if Target(b, c).None? {
      AddSettles(b, c, q.user, d.id, d.now, q.limit, d.persist);
    }
  }

  /** Under Skip the contacts there were stay as they are, and every incoming one is settled. */
  lemma {:induction false} SkipGrows(b: Book, cs: seq<Contact>, ds: seq<Draw>, q: Policy)
    requires Sound(b) && |ds| == |cs| && q.strategy == Skip
    ensures var r := MergeAll(b, cs, ds, q); Grown(b, r) && forall c :: c in cs ==> Settled(r, c, q.limit)
    decreases cs
  {
    if cs != [] {
      MergeOneKeeps(b, cs[0], ds[0], q);
      SkipOne(b, cs[0], ds[0], q);
      SkipGrows(MergeOne(b, cs[0], ds[0], q), cs[1..], ds[1..], q);
    }
  }

  lemma {:induction false} SettledMerge(b: Book, cs: seq<Contact>, ds: seq<Draw>, q: Policy)
    requires Sound(b) && |ds| == |cs| && q.strategy == Skip
    requires forall c :: c in cs ==> Settled(b, c, q.limit)
    ensures MergeAll(b, cs, ds, q) == b
    decreases cs
  {
    if cs != [] {
      assert cs[0] in cs;
      SkipOne(b, cs[0], ds[0], q);
      SettledMerge(b, cs[1..], ds[1..], q);
    }
  }

  /** Merging the same file twice under Skip equals merging it once, whatever ids and times are drawn. */
  lemma SkipTwice(b: Book, cs: seq<Contact>, ds: seq<Draw>, es: seq<Draw>, q: Policy)
    requires Sound(b) && |ds| == |es| == |cs| && q.strategy == Skip
    ensures Sound(MergeAll(b, cs, ds, q))
    ensures MergeAll(MergeAll(b, cs, ds, q), cs, es, q) == MergeAll(b, cs, ds, q)
  {
    MergeKeeps(b, cs, ds, q);
    SkipGrows(b, cs, ds, q);
    SettledMerge(MergeAll(b, cs, ds, q), cs, es, q);
  }

  // ---------- PreferExisting and PreferNewer ----------

  /** The contact itself, or the contact with an empty note filled and one history entry more. */
  ghost predicate Enriched(c: Contact, c': Contact) {
    c' == c ||
    (c.note == "" && c'.note != "" && |c'.history| == |c.history| + 1 && c.history <= c'.history &&
     c' == c.(note := c'.note, history := c'.history))
  }

  /** With distinct ids, an id names its own position. */
  lemma PositionOf(b: Book, i: nat)
    requires IdsDistinct(b.contacts) && i < |b.contacts|
    ensures Position(b.contacts, b.contacts[i].id) == i
  {
  }

  ghost predicate AllEnriched(b: Book, b': Book) {
    |b.contacts| <= |b'.contacts| && forall i :: 0 <= i < |b.contacts| ==> Enriched(b.contacts[i], b'.contacts[i])
  }

  lemma PreferExistingOne(b: Book, c: Contact, d: Draw, q: Policy)
    requires Consistent(b) && q.strategy == PreferExisting
    ensures AllEnriched(b, MergeOne(b, c, d, q))
  {
    var op := Decide(b, c, d, q);
    if op.Some? {
      match op.value
      case OpAdd(f, user, id, now, limit, p) => AddGrows(b, f, user, id, now, limit, p);
      case OpEdit(id, f, user, now, p) =>
        PositionOf(b, Target(b, c).value);
        NoteEnriches(b, Target(b, c).value, c.note, user, now, p);
    }
  }

  lemma NoteEnriches(b: Book, i: nat, note: string, user: string, now: string, p: Persist)
    requires Sound(b) && i < |b.contacts| && Position(b.contacts, b.contacts[i].id) == i
    requires b.contacts[i].note == "" && note != ""
    ensures AllEnriched(b, Edit(b, b.contacts[i].id, Fields("", "", "", note), user, now, p).book)
  {
    NoteEdit(b, b.contacts[i].id, note, user, now, p);
  }

  /** An edit of the note alone is never rejected. */
  lemma NoteEdit(b: Book, id: string, note: string, user: string, now: string, p: Persist)
    requires Sound(b) && Position(b.contacts, id) < |b.contacts| && note != ""
    ensures var i := Position(b.contacts, id); var c := b.contacts[i];
            Edit(b, id, Fields("", "", "", note), user, now, p).book.contacts ==
            b.contacts[i := c.(note := note, history := c.history + [HistoryEntry(now, user, "edited")])]
  {
    var i := Position(b.contacts, id);
    assert EditFields(b, i, id, Fields("", "", "", note)) == Go(b);
  }

  /** PreferExisting changes an existing contact only by filling an empty note, and at most once. */
  lemma {:induction false} PreferExistingEnriches(b: Book, cs: seq<Contact>, ds: seq<Draw>, q: Policy)
    requires Consistent(b) && |ds| == |cs| && q.strategy == PreferExisting && FreshDraws(b, cs, ds, q)
    ensures AllEnriched(b, MergeAll(b, cs, ds, q))
    decreases cs
  {
    if cs != [] {
      MergeOneKeeps(b, cs[0], ds[0], q);
      PreferExistingOne(b, cs[0], ds[0], q);
      var b' := MergeOne(b, cs[0], ds[0], q);
      PreferExistingEnriches(b', cs[1..], ds[1..], q);
      var r := MergeAll(b', cs[1..], ds[1..], q);
      forall i | 0 <= i < |b.contacts| ensures Enriched(b.contacts[i], r.contacts[i]) {
        assert Enriched(b.contacts[i], b'.contacts[i]) && Enriched(b'.contacts[i], r.contacts[i]);
      }
    }
  }

  lemma PreferNewerOne(b: Book, c: Contact, d: Draw, q: Policy, i: nat)
    requires Consistent(b) && q.strategy == PreferNewer && i < |b.contacts|
    ensures var b' := MergeOne(b, c, d, q);
            i < |b'.contacts| && b'.contacts[i].createdAt == b.contacts[i].createdAt &&
            (b'.contacts[i] == b.contacts[i] || Less(b.contacts[i].createdAt, c.createdAt))
  {
    var op := Decide(b, c, d, q);
    if op.Some? {
      match op.value
      case OpAdd(f, user, id, now, limit, p) => AddGrows(b, f, user, id, now, limit, p);
      case OpEdit(id, f, user, now, p) =>
        PositionOf(b, Target(b, c).value);
        EditTouches(b, Target(b, c).value, f, user, now, p);
    }
  }

  lemma EditTouches(b: Book, i: nat, f: Fields, user: string, now: string, p: Persist)
    requires Sound(b) && i < |b.contacts| && Position(b.contacts, b.contacts[i].id) == i
    ensures SameBut(b.contacts, Edit(b, b.contacts[i].id, f, user, now, p).book.contacts, i)
  {
    EditKeeps(b, b.contacts[i].id, f, user, now, p);
  }

  /** PreferNewer changes an existing contact only when the file holds a contact created after it. */
  lemma {:induction false} PreferNewerChanges(b: Book, cs: seq<Contact>, ds: seq<Draw>, q: Policy, i: nat)
    requires Consistent(b) && |ds| == |cs| && q.strategy == PreferNewer && FreshDraws(b, cs, ds, q)
    requires i < |b.contacts|
    ensures var r := MergeAll(b, cs, ds, q);
            i < |r.contacts| && r.contacts[i].createdAt == b.contacts[i].createdAt &&
            (r.contacts[i] == b.contacts[i] || exists c :: c in cs && Less(b.contacts[i].createdAt, c.createdAt))
    decreases cs
  {
    if cs != [] {
      MergeOneKeeps(b, cs[0], ds[0], q);
      PreferNewerOne(b, cs[0], ds[0], q, i);
      assert cs[0] in cs;
      PreferNewerChanges(MergeOne(b, cs[0], ds[0], q), cs[1..], ds[1..], q, i);
    }
  }
}
