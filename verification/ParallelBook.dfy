/** The parallel import on a contact book: what the book holds afterwards, and what its index maps miss. */
module ParallelBook {
  import opened Text
  import opened Widths
  import opened Json
  import opened Model
  import opened Book
  import opened BookInvariant
  import opened Validation
  import opened WorkQueue
  import opened ParallelImport
  import opened ParallelTiming
  import opened Samples
  import opened Store
  import TextIndex

  // ---------- the keys of the starting book ----------

  function Keys(ks: seq<string>): set<string> {
    set k | k in ks
  }

  /** The run starts with the keys of the book. */
  function ConfigOf(b: Book, csv: bool, maxRecord: nat): Config {
    Config(csv, maxRecord, Keys(EmailKeys(b.contacts)), Keys(PhoneKeys(b.contacts)))
  }

  /** The keys are collected from the contacts in the order of their ids, whatever the sort does to equal ones. */
  method SeenKeys(b: Book, csv: bool, maxRecord: nat, sorted: seq<Contact>) returns (cfg: Config)
    requires multiset(sorted) == multiset(b.contacts)
    ensures cfg == ConfigOf(b, csv, maxRecord)
  {
    var emails, phones: set<string> := {}, {};
    for i := 0 to |sorted|
      invariant forall k :: k in emails <==> exists j :: 0 <= j < i && EmailKey(sorted[j]) == k
      invariant forall k :: k in phones <==> exists j :: 0 <= j < i && PhoneKey(sorted[j]) == k
    {
      emails := emails + {EmailKey(sorted[i])};
      phones := phones + {PhoneKey(sorted[i])};
    }
    cfg := Config(csv, maxRecord, emails, phones);
    forall k ensures k in emails <==> k in EmailKeys(b.contacts) {
      EmailKeyIn(b.contacts, k);
      HasAll(sorted, b.contacts);
    }
    forall k ensures k in phones <==> k in PhoneKeys(b.contacts) {
      PhoneKeyIn(b.contacts, k);
      HasAll(sorted, b.contacts);
    }
  }

  lemma HasAll(a: seq<Contact>, b: seq<Contact>)
    requires multiset(a) == multiset(b)
    ensures forall i :: 0 <= i < |a| ==> a[i] in b
    ensures forall i :: 0 <= i < |b| ==> b[i] in a
  {
    forall i | 0 <= i < |a| ensures a[i] in b {
      SameElements(a, b, a[i]);
    }
    forall i | 0 <= i < |b| ensures b[i] in a {
      SameElements(a, b, b[i]);
    }
  }

  lemma EmailKeyIn(cs: seq<Contact>, k: string)
    ensures k in EmailKeys(cs) <==> exists c :: c in cs && EmailKey(c) == k
  {
    if c :| c in cs && EmailKey(c) == k {
      var i :| 0 <= i < |cs| && cs[i] == c;
      assert EmailKeys(cs)[i] == k;
    }
  }

  lemma PhoneKeyIn(cs: seq<Contact>, k: string)
    ensures k in PhoneKeys(cs) <==> exists c :: c in cs && PhoneKey(c) == k
  {
    if c :| c in cs && PhoneKey(c) == k {
      var i :| 0 <= i < |cs| && cs[i] == c;
      assert PhoneKeys(cs)[i] == k;
    }
  }

  // ---------- the book afterwards ----------

  /** No two contacts share an address or a number. */
  ghost predicate KeysDistinct(cs: seq<Contact>) {
    forall i, j :: 0 <= i < j < |cs| ==> EmailKey(cs[i]) != EmailKey(cs[j]) && PhoneKey(cs[i]) != PhoneKey(cs[j])
  }

  function Imported(b: Book, v: seq<(nat, Contact)>): Book {
    b.(contacts := b.contacts + Contacts(v))
  }

  /** A schedule of the import of a file into a book, to its end. */
  ghost predicate Imports(b: Book, csv: bool, maxRecord: nat, limit: nat, lines: seq<string>, n: nat,
                          labels: seq<Label<Stamp>>, s: IState, v: seq<(nat, Contact)>)
  {
    n > 0 && Outcome(ConfigOf(b, csv, maxRecord), TaskLines(lines, csv, limit), n, labels, s, v)
  }

  /** The appended contacts share no key with each other or with a contact of the book. */
  lemma AppendedApart(b: Book, csv: bool, maxRecord: nat, limit: nat, lines: seq<string>, n: nat,
                      labels: seq<Label<Stamp>>, s: IState, v: seq<(nat, Contact)>)
    requires Imports(b, csv, maxRecord, limit, lines, n, labels, s, v)
    ensures KeysDistinct(Contacts(v))
    ensures forall k :: 0 <= k < |v| ==> EmailKey(v[k].1) !in EmailKeys(b.contacts) && PhoneKey(v[k].1) !in PhoneKeys(b.contacts)
  {
    var cfg, input := ConfigOf(b, csv, maxRecord), TaskLines(lines, csv, limit);
    EverySchedule(cfg, input, n, labels, s, v);
    AppendedAreNew(cfg, input, s.shared.chosen, v);
  }

  lemma Together(cs: seq<Contact>, ds: seq<Contact>)
    requires KeysDistinct(ds)
    requires forall k :: 0 <= k < |ds| ==> EmailKey(ds[k]) !in EmailKeys(cs) && PhoneKey(ds[k]) !in PhoneKeys(cs)
    ensures KeysDistinct(cs + ds) <==> KeysDistinct(cs)
  {
    var all := cs + ds;
    forall i, j | 0 <= i < |cs| && |cs| <= j < |all|
      ensures EmailKey(all[i]) != EmailKey(all[j]) && PhoneKey(all[i]) != PhoneKey(all[j])
    {
      assert EmailKeys(cs)[i] in EmailKeys(cs) && PhoneKeys(cs)[i] in PhoneKeys(cs);
      assert all[j] == ds[j - |cs|];
    }
    assert forall i :: 0 <= i < |cs| ==> all[i] == cs[i];
    assert forall j :: |cs| <= j < |all| ==> all[j] == ds[j - |cs|];
  }

  /** Under every schedule the import leaves a book without two contacts of one address or number, if it was
      one before. */
  lemma ImportKeepsDistinct(b: Book, csv: bool, maxRecord: nat, limit: nat, lines: seq<string>, n: nat,
                            labels: seq<Label<Stamp>>, s: IState, v: seq<(nat, Contact)>)
    requires Imports(b, csv, maxRecord, limit, lines, n, labels, s, v)
    ensures KeysDistinct(Imported(b, v).contacts) <==> KeysDistinct(b.contacts)
  {
    AppendedApart(b, csv, maxRecord, limit, lines, n, labels, s, v);
    Together(b.contacts, Contacts(v));
  }

  /** The line at a position of the file is imported, and gives the contact, which is valid. */
  ghost predicate Holds(lines: seq<string>, csv: bool, maxRecord: nat, limit: nat, p: nat, c: Contact) {
    Taken(lines, csv, limit, p) && |lines[p]| <= maxRecord && Gives(csv, lines[p], c) && ValidContact(c)
  }

  function TaskOf(csv: bool, p: nat): nat
    requires csv ==> p >= 1
  {
    if csv then p - 1 else p
  }

  lemma HoldsTask(cfg: Config, lines: seq<string>, limit: nat, p: nat, c: Contact)
    requires Holds(lines, cfg.csv, cfg.maxRecord, limit, p, c)
    ensures var input, i := TaskLines(lines, cfg.csv, limit), TaskOf(cfg.csv, p);
            Valid(cfg, input, i) && Candidate(cfg, input[i]) == Some(c)
  {
    TasksAre(lines, cfg.csv, limit, TaskOf(cfg.csv, p));
    CandidateIs(cfg, lines[p], c);
  }

  lemma TaskHolds(cfg: Config, lines: seq<string>, limit: nat, i: nat)
    requires Valid(cfg, TaskLines(lines, cfg.csv, limit), i)
    ensures var p := if cfg.csv then i + 1 else i;
            Holds(lines, cfg.csv, cfg.maxRecord, limit, p, Candidate(cfg, TaskLines(lines, cfg.csv, limit)[i]).value)
  {
    TasksAre(lines, cfg.csv, limit, i);
    CandidateIs(cfg, lines[if cfg.csv then i + 1 else i], Candidate(cfg, TaskLines(lines, cfg.csv, limit)[i]).value);
  }

  ghost predicate Meets(cs: seq<Contact>, c: Contact) {
    exists x :: x in cs && (EmailKey(x) == EmailKey(c) || PhoneKey(x) == PhoneKey(c))
  }

  lemma MeetsKeys(cs: seq<Contact>, c: Contact)
    ensures Meets(cs, c) <==> EmailKey(c) in EmailKeys(cs) || PhoneKey(c) in PhoneKeys(cs)
  {
    EmailKeyIn(cs, EmailKey(c));
    PhoneKeyIn(cs, PhoneKey(c));
  }

  /** And no contact that the file gives is lost: the book then has one with its address or its number. */
  lemma NoneLost(b: Book, csv: bool, maxRecord: nat, limit: nat, lines: seq<string>, n: nat,
                 labels: seq<Label<Stamp>>, s: IState, v: seq<(nat, Contact)>, p: nat, c: Contact)
    requires Imports(b, csv, maxRecord, limit, lines, n, labels, s, v)
    requires Holds(lines, csv, maxRecord, limit, p, c)
    ensures Meets(Imported(b, v).contacts, c)
  {
    var cfg, input, i := ConfigOf(b, csv, maxRecord), TaskLines(lines, csv, limit), TaskOf(csv, p);
    HoldsTask(cfg, lines, limit, p, c);
    EverySchedule(cfg, input, n, labels, s, v);
    if EKey(cfg, input, i) in cfg.emails || PKey(cfg, input, i) in cfg.phones {
      MeetsKeys(b.contacts, c);
      var x :| x in b.contacts && (EmailKey(x) == EmailKey(c) || PhoneKey(x) == PhoneKey(c));
      assert x in Imported(b, v).contacts;
    } else {
      var j := Keeper(cfg, input, s.shared.chosen, i);
      var k :| 0 <= k < |v| && v[k].0 == j;
      assert Stands(cfg, input, j, v[k].1);
      assert Contacts(v)[k] == v[k].1;
      assert v[k].1 in Imported(b, v).contacts;
    }
  }

  /** Every appended contact is one that the file gives, at a position of its own, with a new id or time only
      where the file has none. */
  lemma AppendedGiven(b: Book, csv: bool, maxRecord: nat, limit: nat, lines: seq<string>, n: nat,
                      labels: seq<Label<Stamp>>, s: IState, v: seq<(nat, Contact)>, k: nat)
    returns (p: nat, c: Contact, t: Stamp)
    requires Imports(b, csv, maxRecord, limit, lines, n, labels, s, v) && k < |v|
    ensures p == (if csv then v[k].0 + 1 else v[k].0) && Holds(lines, csv, maxRecord, limit, p, c)
    ensures v[k].1.id == if c.id == "" then t.id else c.id
    ensures v[k].1.createdAt == if c.createdAt == "" then t.now else c.createdAt
    ensures v[k].1.name == c.name && v[k].1.email == c.email && v[k].1.phone == c.phone && v[k].1.note == c.note
    ensures v[k].1.history == c.history && forall j :: 0 <= j < k ==> v[j].0 < v[k].0
  {
    var cfg, input := ConfigOf(b, csv, maxRecord), TaskLines(lines, csv, limit);
    EverySchedule(cfg, input, n, labels, s, v);
    assert Stands(cfg, input, v[k].0, v[k].1);
    p, c := if csv then v[k].0 + 1 else v[k].0, Candidate(cfg, input[v[k].0]).value;
    TaskHolds(cfg, lines, limit, v[k].0);
    t :| v[k].1 == Fill(c, t.id, t.now);
  }

  /** The line that is taken for an eligible one: itself, or one that clashes with it. */
  lemma Keeper(cfg: Config, input: seq<string>, chosen: set<nat>, i: nat) returns (j: nat)
    requires SafeAndMaximal(cfg, input, chosen) && Eligible(cfg, input, i)
    ensures j in chosen && Valid(cfg, input, j) && Clash(cfg, input, j, i)
  {
    if i in chosen {
      j := i;
    } else {
      j := DroppedClashes(cfg, input, chosen, i);
    }
  }

  // ---------- the maps afterwards ----------

  lemma AgreeDistinct(b: Book)
    requires Agree(b)
    ensures KeysDistinct(b.contacts)
  {
    ExactDistinct(b.emailToI, EmailKeys(b.contacts));
    ExactDistinct(b.phoneToI, PhoneKeys(b.contacts));
    forall i, j | 0 <= i < j < |b.contacts|
      ensures EmailKey(b.contacts[i]) != EmailKey(b.contacts[j]) && PhoneKey(b.contacts[i]) != PhoneKey(b.contacts[j])
    {
      assert EmailKeys(b.contacts)[i] != EmailKeys(b.contacts)[j];
      assert PhoneKeys(b.contacts)[i] != PhoneKeys(b.contacts)[j];
    }
  }

  lemma ImportedSound(b: Book, v: seq<(nat, Contact)>)
    requires Sound(b)
    ensures Sound(Imported(b, v))
  {
    var b' := Imported(b, v);
    assert forall i :: 0 <= i < |b.contacts| ==> EmailKeys(b'.contacts)[i] == EmailKeys(b.contacts)[i];
    assert forall i :: 0 <= i < |b.contacts| ==> PhoneKeys(b'.contacts)[i] == PhoneKeys(b.contacts)[i];
  }

  /** The file gives a contact that shares no key with the book. */
  ghost predicate New(b: Book, csv: bool, maxRecord: nat, limit: nat, lines: seq<string>, p: nat, c: Contact) {
    Holds(lines, csv, maxRecord, limit, p, c) && !Meets(b.contacts, c)
  }

  /** Something is appended exactly when the file gives a contact that is new to the book. */
  lemma AppendsEligible(b: Book, csv: bool, maxRecord: nat, limit: nat, lines: seq<string>, n: nat,
                        labels: seq<Label<Stamp>>, s: IState, v: seq<(nat, Contact)>)
    requires Imports(b, csv, maxRecord, limit, lines, n, labels, s, v)
    ensures v == [] <==> forall p, c :: !New(b, csv, maxRecord, limit, lines, p, c)
  {
    if v != [] {
      var p, c := FirstNew(b, csv, maxRecord, limit, lines, n, labels, s, v);
    }
    if p, c :| New(b, csv, maxRecord, limit, lines, p, c) {
      NewAppended(b, csv, maxRecord, limit, lines, n, labels, s, v, p, c);
    }
  }

  lemma FirstNew(b: Book, csv: bool, maxRecord: nat, limit: nat, lines: seq<string>, n: nat,
                 labels: seq<Label<Stamp>>, s: IState, v: seq<(nat, Contact)>) returns (p: nat, c: Contact)
    requires Imports(b, csv, maxRecord, limit, lines, n, labels, s, v) && v != []
    ensures New(b, csv, maxRecord, limit, lines, p, c)
  {
    var cfg, input := ConfigOf(b, csv, maxRecord), TaskLines(lines, csv, limit);
    EverySchedule(cfg, input, n, labels, s, v);
    TaskHolds(cfg, lines, limit, v[0].0);
    p, c := if csv then v[0].0 + 1 else v[0].0, Candidate(cfg, input[v[0].0]).value;
    MeetsKeys(b.contacts, c);
  }

  lemma NewAppended(b: Book, csv: bool, maxRecord: nat, limit: nat, lines: seq<string>, n: nat,
                    labels: seq<Label<Stamp>>, s: IState, v: seq<(nat, Contact)>, p: nat, c: Contact)
    requires Imports(b, csv, maxRecord, limit, lines, n, labels, s, v) && New(b, csv, maxRecord, limit, lines, p, c)
    ensures v != []
  {
    NothingImported(b);
    NoneLost(b, csv, maxRecord, limit, lines, n, labels, s, v, p, c);
  }

  lemma NothingImported(b: Book)
    ensures Imported(b, []).contacts == b.contacts
  {
  }

  /** An import into an exactly indexed book leaves distinct keys, but maps that are exact just when the file gives
      nothing new: the duplicate checks find no appended contact, neither by its address nor by its number. */
  lemma ImportHidden(b: Book, csv: bool, maxRecord: nat, limit: nat, lines: seq<string>, n: nat,
                     labels: seq<Label<Stamp>>, s: IState, v: seq<(nat, Contact)>)
    requires Agree(b) && Imports(b, csv, maxRecord, limit, lines, n, labels, s, v)
    ensures KeysDistinct(Imported(b, v).contacts) && Sound(Imported(b, v))
    ensures Agree(Imported(b, v)) <==> forall p, c :: !New(b, csv, maxRecord, limit, lines, p, c)
    ensures forall k, skip :: 0 <= k < |v| ==>
              !EmailExists(Imported(b, v), v[k].1.email, skip) && !PhoneExists(Imported(b, v), v[k].1.phone, skip)
  {
    AgreeDistinct(b);
    ImportKeepsDistinct(b, csv, maxRecord, limit, lines, n, labels, s, v);
    ImportedSound(b, v);
    IndexNotExtended(b, Contacts(v));
    AppendsEligible(b, csv, maxRecord, limit, lines, n, labels, s, v);
    AppendedApart(b, csv, maxRecord, limit, lines, n, labels, s, v);
  }

  lemma {:induction false} RisingLast(v: seq<(nat, Contact)>)
    requires v != [] && forall j, k :: 0 <= j < k < |v| ==> v[j].0 < v[k].0
    ensures v[|v| - 1].0 >= |v| - 1
  {
    if |v| > 1 {
      RisingLast(v[..|v| - 1]);
      assert v[|v| - 2].0 < v[|v| - 1].0;
    }
  }

  lemma OneAppended(cfg: Config, lines: seq<string>, n: nat, labels: seq<Label<Stamp>>, s: IState, v: seq<(nat, Contact)>, c: Contact)
    requires n > 0 && Outcome(cfg, lines, n, labels, s, v) && 0 in Positions(v)
    requires |lines| == 1 && Candidate(cfg, lines[0]) == Some(c) && c.id != "" && c.createdAt != ""
    ensures |v| == 1 && v[0].1 == c
  {
    EverySchedule(cfg, lines, n, labels, s, v);
    RisingLast(v);
    assert Valid(cfg, lines, v[|v| - 1].0);
    assert Stands(cfg, lines, 0, v[0].1);
    StandsExactly(cfg, lines, 0, v[0].1);
  }

  lemma NoKeys(csv: bool, maxRecord: nat)
    ensures ConfigOf(EMPTY, csv, maxRecord) == Config(csv, maxRecord, {}, {})
  {
    assert EmailKeys([]) == [] && PhoneKeys([]) == [];
  }

  lemma LineImported(cfg: Config, line: string, c: Contact, n: nat)
    returns (labels: seq<Label<Stamp>>, s: IState, v: seq<(nat, Contact)>)
    requires n > 0 && cfg.emails == {} && cfg.phones == {}
    requires Candidate(cfg, line) == Some(c) && c.id != "" && c.createdAt != ""
    ensures Outcome(cfg, [line], n, labels, s, v) && |v| == 1 && v[0].1 == c
  {
    KeptFirst(cfg, [line]);
    labels, s, v := SomeSchedule(cfg, [line], n, [], 0);
    OneAppended(cfg, [line], n, labels, s, v, c);
  }

  lemma KeptFirst(cfg: Config, lines: seq<string>)
    requires Eligible(cfg, lines, 0)
    ensures ParallelImport.Kept(cfg, lines, [], 0)
  {
  }

  /** Such imports exist: the printed line of any clean and valid contact with an id and a time, imported into an
      empty book by any number of workers, is appended, and the maps stay empty. */
  lemma HiddenLine(c: Contact, n: nat, maxRecord: nat)
    returns (labels: seq<Label<Stamp>>, s: IState, v: seq<(nat, Contact)>)
    requires n > 0 && CleanContact(c) && |ContactLine(c)| <= maxRecord && c.id != "" && c.createdAt != ""
    requires IsValidName(c.name) && IsValidEmail(c.email) && IsValidPhone(c.phone)
    ensures Imports(EMPTY, false, maxRecord, 0, [ContactLine(c)], n, labels, s, v)
    ensures |v| == 1 && v[0].1 == c && !Agree(Imported(EMPTY, v))
  {
    var cfg := ConfigOf(EMPTY, false, maxRecord);
    NoKeys(false, maxRecord);
    PrintedCandidate(cfg, c);
    assert TaskLines([ContactLine(c)], false, 0) == [ContactLine(c)];
    labels, s, v := LineImported(cfg, ContactLine(c), c, n);
    IndexNotExtended(EMPTY, Contacts(v));
  }

  /** The same for a CSV file: under any header, the six fields of a valid contact, none with a comma, are imported
      as that contact. */
  lemma HiddenRow(header: string, c: Contact, more: seq<string>, n: nat, maxRecord: nat)
    returns (labels: seq<Label<Stamp>>, s: IState, v: seq<(nat, Contact)>)
    requires n > 0 && ValidContact(c) && c.id != "" && c.createdAt != "" && c.history == []
    requires NoComma(c, more) && |Row(c, more)| <= maxRecord
    ensures Imports(EMPTY, true, maxRecord, 0, [header, Row(c, more)], n, labels, s, v)
    ensures |v| == 1 && v[0].1 == c && !Agree(Imported(EMPTY, v))
  {
    var cfg := ConfigOf(EMPTY, true, maxRecord);
    NoKeys(true, maxRecord);
    CandidateIs(cfg, Row(c, more), c);
    assert TaskLines([header, Row(c, more)], true, 0) == [Row(c, more)];
    labels, s, v := LineImported(cfg, Row(c, more), c, n);
    IndexNotExtended(EMPTY, Contacts(v));
  }

  /** And such contacts exist. */
  lemma HiddenSample(id: string, d: Digits, t: string, c: Contact) returns (labels: seq<Label<Stamp>>, s: IState, v: seq<(nat, Contact)>)
    requires id != "" && t != "" && CleanStr(id) && CleanStr(t) && c == Sample(id, 'a', d, t)
    ensures Imports(EMPTY, false, |ContactLine(c)|, 0, [ContactLine(c)], 1, labels, s, v) && !Agree(Imported(EMPTY, v))
  {
    SampleValid(id, 'a', d, t);
    labels, s, v := HiddenLine(c, 1, |ContactLine(c)|);
  }

  /** Saving and loading does not repair this: the digest of the index matches the data, so the same maps come
      back, exactly when texts and keys can be stored, and they are not those of the contacts. */
  lemma StaysHidden(h: Digest, fs: Files, b: Book, v: seq<(nat, Contact)>, o: Orders)
    requires OneLine(h) && Agree(b) && v != [] && |Imported(b, v).contacts| < TWO_64 && Possible(Imported(b, v), o)
    ensures Load(h, Exec(fs, SaveSteps(h, Imported(b, v), o)), EMPTY) == Ok(Imported(b, v), false)
            <==> AllClean(Imported(b, v).contacts) && TextIndex.CleanKeys(b.emailToI) && TextIndex.CleanKeys(b.phoneToI)
    ensures !Agree(Imported(b, v))
  {
    ImportedSound(b, v);
    IndexNotExtended(b, Contacts(v));
    SaveThenLoadExactly(h, fs, Imported(b, v), o);
  }
}
