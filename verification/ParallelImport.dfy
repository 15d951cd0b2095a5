/** The parallel import: a producer, workers that validate and deduplicate, and a final sort. */
module ParallelImport {
  import opened Text
  import opened Json
  import opened Model
  import opened Validation
  import opened Book
  import opened WorkQueue

  // ---------- one line ----------

  /** `split`: the parts between separators. */
  function Split(s: string, d: char, cur: string): seq<string>
    decreases |s|
  {
    if s == [] then [cur]
    else if s[0] == d then [cur] + Split(s[1..], d, "")
    else Split(s[1..], d, cur + [s[0]])
  }

  method SplitLine(s: string, d: char) returns (out: seq<string>)
    ensures out == Split(s, d, "")
  {
    out := [];
    var cur, rest := "", s;
    assert [] + Split(s, d, "") == Split(s, d, "");
    while rest != []
      invariant out + Split(rest, d, cur) == Split(s, d, "")
      decreases |rest|
    {
      if rest[0] == d {
        assert out + ([cur] + Split(rest[1..], d, "")) == out + [cur] + Split(rest[1..], d, "");
        out := out + [cur];
        cur := "";
      } else {
        cur := cur + [rest[0]];
      }
      rest := rest[1..];
    }
    out := out + [cur];
  }

  function Join(parts: seq<string>, d: char): string {
    if parts == [] then "" else if |parts| == 1 then parts[0] else parts[0] + ([d] + Join(parts[1..], d))
  }

  lemma {:induction false} SplitParts(s: string, d: char, cur: string)
    requires d !in cur
    ensures var parts := Split(s, d, cur); parts != [] && forall p :: p in parts ==> d !in p
    decreases |s|
  {
    if s != [] {
      if s[0] == d {
        SplitParts(s[1..], d, "");
      } else {
        SplitParts(s[1..], d, cur + [s[0]]);
      }
    }
  }

  lemma JoinCons(p: string, parts: seq<string>, d: char)
    requires parts != []
    ensures Join([p] + parts, d) == p + ([d] + Join(parts, d))
  {
    assert ([p] + parts)[1..] == parts;
  }

  /** Splitting loses nothing, and no part holds the separator. */
  lemma {:induction false} SplitJoin(s: string, d: char, cur: string)
    requires d !in cur
    ensures var parts := Split(s, d, cur);
            parts != [] && Join(parts, d) == cur + s && forall p :: p in parts ==> d !in p
    decreases |s|
  {
    SplitParts(s, d, cur);
    if s == [] {
      assert cur + s == cur;
    } else if s[0] == d {
      SplitJoin(s[1..], d, "");
      SplitParts(s[1..], d, "");
      JoinCons(cur, Split(s[1..], d, ""), d);
      assert "" + s[1..] == s[1..] && [d] + s[1..] == s;
    } else {
      SplitJoin(s[1..], d, cur + [s[0]]);
      assert cur + [s[0]] + s[1..] == cur + s;
    }
  }

  lemma {:induction false} SplitOver(p: string, rest: string, d: char, cur: string)
    requires d !in p
    ensures Split(p + rest, d, cur) == Split(rest, d, cur + p)
    decreases |p|
  {
    if p == [] {
      assert p + rest == rest && cur + p == cur;
    } else {
      assert (p + rest)[1..] == p[1..] + rest && p[0] in p;
      SplitOver(p[1..], rest, d, cur + [p[0]]);
      assert cur + [p[0]] + p[1..] == cur + p;
    }
  }

  /** Parts that do not hold the separator come back from their join. */
  lemma {:induction false} SplitBack(parts: seq<string>, d: char)
    requires parts != [] && forall p :: p in parts ==> d !in p
    ensures Split(Join(parts, d), d, "") == parts
    decreases |parts|
  {
    var p := parts[0];
    assert p in parts && "" + p == p;
    if |parts| == 1 {
      SplitOver(p, "", d, "");
      assert p + "" == p;
    } else {
      var rest := Join(parts[1..], d);
      SplitOver(p, [d] + rest, d, "");
      assert ([d] + rest)[1..] == rest;
      SplitBack(parts[1..], d);
      assert parts == [p] + parts[1..];
    }
  }

  /** What the environment fixes for a run: the format, the record limit, the keys of the starting book. */
  datatype Config = Config(csv: bool, maxRecord: nat, emails: set<string>, phones: set<string>)

  /** The lines that become tasks: without the header of a CSV file, and at most as many as the limit, if any. */
  function TaskLines(lines: seq<string>, csv: bool, limit: nat): seq<string> {
    var body := if csv && lines != [] then lines[1..] else lines;
    if 0 < limit < |body| then body[..limit] else body
  }

  /** The lines of the file that are imported, by their positions: from the second line on in a CSV file, from
      the first in any other, and no more of them than the limit, if there is one. */
  predicate Taken(lines: seq<string>, csv: bool, limit: nat, p: nat) {
    p < |lines| && (csv ==> p >= 1) && (limit > 0 ==> p < if csv then limit + 1 else limit)
  }

  lemma TasksAre(lines: seq<string>, csv: bool, limit: nat, i: nat)
    ensures i < |TaskLines(lines, csv, limit)| <==> Taken(lines, csv, limit, if csv then i + 1 else i)
    ensures i < |TaskLines(lines, csv, limit)| ==> TaskLines(lines, csv, limit)[i] == lines[if csv then i + 1 else i]
  {
  }

  method Produce(lines: seq<string>, csv: bool, limit: nat) returns (tasks: seq<string>)
    ensures tasks == TaskLines(lines, csv, limit)
  {
    var body := lines;
    if csv && body != [] {
      body := body[1..];
    }
    tasks := [];
    var i, count := 0, 0;
    while i < |body|
      invariant i <= |body| && tasks == body[..i] && (limit > 0 ==> count == i <= limit)
    {
      if limit > 0 {
        count := count + 1;
        if count > limit {
          return;
        }
      }
      tasks := tasks + [body[i]];
      i := i + 1;
    }
  }

  /** A uuid and a time, for a record without them. */
  datatype Stamp = Stamp(id: string, now: string)

  function FromCsvLine(line: string): Option<Contact> {
    var f := Split(line, ',', "");
    if |f| < 6 then None else Some(Contact(f[0], f[1], f[2], f[3], f[4], f[5], []))
  }

  /** The contact of a line as read, if the line is short enough, well-formed and valid. */
  function Candidate(cfg: Config, line: string): Option<Contact> {
    if |line| > cfg.maxRecord then None
    else
      var c :- if cfg.csv then FromCsvLine(line) else ReadContact(line);
      if IsValidName(c.name) && IsValidEmail(c.email) && IsValidPhone(c.phone) then Some(c) else None
  }

  /** The line gives the contact: its six fields between commas, and perhaps more after them; or its JSON form. */
  ghost predicate Gives(csv: bool, line: string, c: Contact) {
    if csv then c.history == [] && exists more :: line == Row(c, more) && NoComma(c, more) else ReadContact(line) == Some(c)
  }

  function Row(c: Contact, more: seq<string>): string {
    Join([c.id, c.name, c.email, c.phone, c.note, c.createdAt] + more, ',')
  }

  predicate NoComma(c: Contact, more: seq<string>) {
    && ',' !in c.id && ',' !in c.name && ',' !in c.email && ',' !in c.phone && ',' !in c.note && ',' !in c.createdAt
    && forall p :: p in more ==> ',' !in p
  }

  lemma RowBack(c: Contact, more: seq<string>)
    requires NoComma(c, more) && c.history == []
    ensures FromCsvLine(Row(c, more)) == Some(c)
  {
    SplitBack([c.id, c.name, c.email, c.phone, c.note, c.createdAt] + more, ',');
  }

  lemma RowGiven(line: string, c: Contact) returns (more: seq<string>)
    requires FromCsvLine(line) == Some(c)
    ensures line == Row(c, more) && NoComma(c, more) && c.history == []
  {
    var f := Split(line, ',', "");
    SplitJoin(line, ',', "");
    assert "" + line == line;
    more := f[6..];
    assert f == [c.id, c.name, c.email, c.phone, c.note, c.createdAt] + more;
    assert f[0] in f && f[1] in f && f[2] in f && f[3] in f && f[4] in f && f[5] in f;
  }

  predicate ValidContact(c: Contact) {
    IsValidName(c.name) && IsValidEmail(c.email) && IsValidPhone(c.phone)
  }

  /** The line is taken for the contact exactly when it gives it, is no longer than the limit, and the contact is
      valid. */
  lemma CandidateIs(cfg: Config, line: string, c: Contact)
    ensures Candidate(cfg, line) == Some(c) <==> |line| <= cfg.maxRecord && Gives(cfg.csv, line, c) && ValidContact(c)
  {
    if cfg.csv {
      if FromCsvLine(line) == Some(c) {
        var more := RowGiven(line, c);
      }
      if more :| line == Row(c, more) && NoComma(c, more) && c.history == [] {
        RowBack(c, more);
      }
    }
  }

  // ---------- the workers ----------

  /** A worker has the line, or a contact that passed the check for duplicates and is not yet handed in. */
  datatype Local = Line(line: string) | Chosen(contact: Contact)

  /** The keys seen and the contacts handed in with their positions; for reference, the positions chosen. */
  datatype Shared = Shared(emails: set<string>, phones: set<string>, out: seq<(nat, Contact)>, chosen: set<nat>)

  function Handle(cfg: Config, t: Shared, i: nat, l: Local, stamp: Stamp): (Shared, Option<Local>) {
    match l
    case Line(line) =>
      var c := Candidate(cfg, line);
      if c.None? || EmailKey(c.value) in t.emails || PhoneKey(c.value) in t.phones then (t, None)
      else
        (t.(emails := t.emails + {EmailKey(c.value)}, phones := t.phones + {PhoneKey(c.value)}, chosen := t.chosen + {i}),
         Some(Chosen(Fill(c.value, stamp.id, stamp.now))))
    case Chosen(c) => (t.(out := t.out + [(i, c)]), None)
  }

  function Importing(cfg: Config): Program<string, Local, Shared, Stamp> {
    Program(line => Line(line), (t, i, l, stamp) => Handle(cfg, t, i, l, stamp), (l: Local) => if l.Line? then 1 else 0)
  }

  lemma ImportRanked(cfg: Config)
    ensures Ranked(Importing(cfg), 1)
  {
  }

  type IState = State<string, Local, Shared>

  function Fresh(cfg: Config, n: nat): IState {
    Init(n, Shared(cfg.emails, cfg.phones, [], {}))
  }

  // ---------- what every schedule keeps ----------

  predicate Valid(cfg: Config, input: seq<string>, i: nat) {
    i < |input| && Candidate(cfg, input[i]).Some?
  }

  function EKey(cfg: Config, input: seq<string>, i: nat): string
    requires Valid(cfg, input, i)
  {
    EmailKey(Candidate(cfg, input[i]).value)
  }

  function PKey(cfg: Config, input: seq<string>, i: nat): string
    requires Valid(cfg, input, i)
  {
    PhoneKey(Candidate(cfg, input[i]).value)
  }

  /** The contact stands for the line at the position: what the line says, with a missing id and time filled in. */
  ghost predicate Stands(cfg: Config, input: seq<string>, i: nat, c: Contact) {
    Valid(cfg, input, i) && exists t: Stamp :: c == Fill(Candidate(cfg, input[i]).value, t.id, t.now)
  }

  /** The chosen lines: valid, with keys that clash with nothing; their keys are exactly those added. */
  ghost predicate ChosenOk(cfg: Config, input: seq<string>, t: Shared) {
    && (forall i :: i in t.chosen ==> Valid(cfg, input, i))
    && (forall i :: i in t.chosen ==> EKey(cfg, input, i) !in cfg.emails && PKey(cfg, input, i) !in cfg.phones)
    && (forall i, j :: i in t.chosen && j in t.chosen && i != j ==>
          EKey(cfg, input, i) != EKey(cfg, input, j) && PKey(cfg, input, i) != PKey(cfg, input, j))
    && (forall k :: k in t.emails <==> k in cfg.emails || exists i :: i in t.chosen && EKey(cfg, input, i) == k)
    && (forall k :: k in t.phones <==> k in cfg.phones || exists i :: i in t.chosen && PKey(cfg, input, i) == k)
  }

  /** What has been handed in: one contact for each of some chosen lines. */
  ghost predicate OutOk(cfg: Config, input: seq<string>, t: Shared) {
    && (forall k :: 0 <= k < |t.out| ==> t.out[k].0 in t.chosen && Stands(cfg, input, t.out[k].0, t.out[k].1))
    && (forall j, k :: 0 <= j < k < |t.out| ==> t.out[j].0 != t.out[k].0)
  }

  ghost predicate HandedIn(t: Shared, i: nat) {
    exists k :: 0 <= k < |t.out| && t.out[k].0 == i
  }

  ghost predicate HasLine(s: IState, i: nat) {
    exists w :: 0 <= w < |s.workers| && s.workers[w].Busy? && s.workers[w].task == i && s.workers[w].local.Line?
  }

  ghost predicate HasContact(s: IState, i: nat) {
    exists w :: 0 <= w < |s.workers| && s.workers[w].Busy? && s.workers[w].task == i && s.workers[w].local.Chosen?
  }

  ghost predicate WorkerOk(cfg: Config, input: seq<string>, t: Shared, w: Worker<Local>)
    requires w.Busy?
  {
    && w.task < |input|
    && (w.local.Line? ==> w.local.line == input[w.task] && w.task !in t.chosen)
    && (w.local.Chosen? ==> w.task in t.chosen && !HandedIn(t, w.task) && Stands(cfg, input, w.task, w.local.contact))
  }

  /** No chosen line is lost, and no valid line is dropped unless one of its keys has been seen. */
  ghost predicate Accounted(cfg: Config, input: seq<string>, s: IState) {
    && (forall i :: i in s.shared.chosen ==> i < Head(s) && (HandedIn(s.shared, i) || HasContact(s, i)))
    && (forall i: nat :: i < Head(s) && Valid(cfg, input, i) && !HasLine(s, i) ==>
          EKey(cfg, input, i) in s.shared.emails || PKey(cfg, input, i) in s.shared.phones)
  }

  ghost predicate IInv(cfg: Config, input: seq<string>, s: IState) {
    && ChosenOk(cfg, input, s.shared) && OutOk(cfg, input, s.shared) && Accounted(cfg, input, s)
    && forall w :: 0 <= w < |s.workers| && s.workers[w].Busy? ==> WorkerOk(cfg, input, s.shared, s.workers[w])
  }

  lemma FreshStart(cfg: Config, input: seq<string>, n: nat, s: IState)
    requires s == Fresh(cfg, n)
    ensures IInv(cfg, input, s)
  {
    assert Head(s) == 0 && s.shared.chosen == {} && s.shared.out == [];
    assert forall i :: 0 <= i < n ==> s.workers[i] == Ready;
  }

  /** Lines and contacts with workers other than `w` stay with them. */
  lemma KeepHeld(s: IState, s': IState, w: nat)
    requires |s'.workers| == |s.workers|
    requires forall k :: 0 <= k < |s.workers| && k != w ==>
               (s.workers[k].Busy? <==> s'.workers[k].Busy?) && (s.workers[k].Busy? ==> s'.workers[k] == s.workers[k])
    ensures forall i :: HasContact(s, i) && !(w < |s.workers| && s.workers[w].Busy? && s.workers[w].task == i) ==> HasContact(s', i)
    ensures forall i :: HasLine(s', i) && !(w < |s.workers| && s'.workers[w].Busy? && s'.workers[w].task == i) ==> HasLine(s, i)
    ensures forall i :: HasLine(s, i) && !(w < |s.workers| && s.workers[w].Busy? && s.workers[w].task == i) ==> HasLine(s', i)
  {
    forall i | HasContact(s, i) && !(w < |s.workers| && s.workers[w].Busy? && s.workers[w].task == i) ensures HasContact(s', i) {
      var k :| 0 <= k < |s.workers| && s.workers[k].Busy? && s.workers[k].task == i && s.workers[k].local.Chosen?;
      assert s'.workers[k] == s.workers[k];
    }
    forall i | HasLine(s', i) && !(w < |s.workers| && s'.workers[w].Busy? && s'.workers[w].task == i) ensures HasLine(s, i) {
      var k :| 0 <= k < |s.workers| && s'.workers[k].Busy? && s'.workers[k].task == i && s'.workers[k].local.Line?;
      assert s'.workers[k] == s.workers[k];
    }
    forall i | HasLine(s, i) && !(w < |s.workers| && s.workers[w].Busy? && s.workers[w].task == i) ensures HasLine(s', i) {
      var k :| 0 <= k < |s.workers| && s.workers[k].Busy? && s.workers[k].task == i && s.workers[k].local.Line?;
      assert s'.workers[k] == s.workers[k];
    }
  }

  lemma OtherStep(cfg: Config, input: seq<string>, s: IState, a: Label<Stamp>)
    requires Inv(input, s) && IInv(cfg, input, s) && Enabled(input, s, a) && !Touches(s, a)
    ensures IInv(cfg, input, Step(Importing(cfg), input, s, a))
  {
    OthersFrame(Importing(cfg), input, s, a);
    KeepHeld(s, Step(Importing(cfg), input, s, a), |s.workers|);
  }

  lemma TakeStep(cfg: Config, input: seq<string>, s: IState, w: nat)
    requires Inv(input, s) && IInv(cfg, input, s) && Enabled(input, s, Label<Stamp>.Check(w)) && s.queue != []
    ensures IInv(cfg, input, Step(Importing(cfg), input, s, Check(w)))
  {
    TakeFrame(Importing(cfg), input, s, w);
    var s' := Step(Importing(cfg), input, s, Check(w));
    var i := Head(s);
    assert s'.workers[w] == Busy(i, Line(input[i]));
    KeepHeld(s, s', w);
    assert HasLine(s', i);
    assert i !in s.shared.chosen;
  }

  lemma DropStep(cfg: Config, input: seq<string>, s: IState, w: nat, stamp: Stamp)
    requires Inv(input, s) && IInv(cfg, input, s) && Enabled(input, s, Work(w, stamp)) && s.workers[w].local.Line?
    requires Handle(cfg, s.shared, s.workers[w].task, s.workers[w].local, stamp).1.None?
    ensures IInv(cfg, input, Step(Importing(cfg), input, s, Work(w, stamp)))
  {
    var s' := Step(Importing(cfg), input, s, Work(w, stamp));
    assert s'.shared == s.shared;
    KeepHeld(s, s', w);
  }

  /** The shared state with a line chosen. */
  function Choose(cfg: Config, input: seq<string>, t: Shared, i: nat): Shared
    requires Valid(cfg, input, i)
  {
    t.(emails := t.emails + {EKey(cfg, input, i)}, phones := t.phones + {PKey(cfg, input, i)}, chosen := t.chosen + {i})
  }

  /** What a step that chooses a line does. */
  lemma ChooseShape(cfg: Config, input: seq<string>, s: IState, w: nat, stamp: Stamp)
    requires Enabled(input, s, Work(w, stamp)) && WorkerOk(cfg, input, s.shared, s.workers[w]) && s.workers[w].local.Line?
    requires Handle(cfg, s.shared, s.workers[w].task, s.workers[w].local, stamp).1.Some?
    ensures var s', i := Step(Importing(cfg), input, s, Work(w, stamp)), s.workers[w].task;
            && Valid(cfg, input, i) && EKey(cfg, input, i) !in s.shared.emails && PKey(cfg, input, i) !in s.shared.phones
            && s' == s.(shared := Choose(cfg, input, s.shared, i),
                        workers := s.workers[w := Busy(i, Chosen(Fill(Candidate(cfg, input[i]).value, stamp.id, stamp.now)))])
  {
  }

  lemma ChooseInv(cfg: Config, input: seq<string>, s: IState, s': IState, w: nat, i: nat, stamp: Stamp)
    requires Inv(input, s) && IInv(cfg, input, s) && w < |s.workers| && s.workers[w].Busy? && s.workers[w].task == i
    requires s.workers[w].local.Line? && Valid(cfg, input, i)
    requires EKey(cfg, input, i) !in s.shared.emails && PKey(cfg, input, i) !in s.shared.phones
    requires s' == s.(shared := Choose(cfg, input, s.shared, i),
                      workers := s.workers[w := Busy(i, Chosen(Fill(Candidate(cfg, input[i]).value, stamp.id, stamp.now)))])
    ensures IInv(cfg, input, s')
  {
    ChoosingOk(cfg, input, s.shared, i);
    ChosenWorker(cfg, input, s, s', w, i, stamp);
    ChoosingWorkers(cfg, input, s, s', w);
    KeepHeld(s, s', w);
    assert HasContact(s', i);
    ChoosingAccounted(cfg, input, s, s', w);
  }

  lemma ChosenWorker(cfg: Config, input: seq<string>, s: IState, s': IState, w: nat, i: nat, stamp: Stamp)
    requires IInv(cfg, input, s) && w < |s.workers| && s.workers[w].Busy? && s.workers[w].task == i
    requires s.workers[w].local.Line? && Valid(cfg, input, i)
    requires s'.shared == Choose(cfg, input, s.shared, i) && |s'.workers| == |s.workers|
    requires s'.workers[w] == Busy(i, Chosen(Fill(Candidate(cfg, input[i]).value, stamp.id, stamp.now)))
    ensures WorkerOk(cfg, input, s'.shared, s'.workers[w])
  {
    assert WorkerOk(cfg, input, s.shared, s.workers[w]);
    HandedChosen(cfg, input, s.shared, i);
  }

  lemma HandedChosen(cfg: Config, input: seq<string>, t: Shared, i: nat)
    requires OutOk(cfg, input, t)
    ensures HandedIn(t, i) ==> i in t.chosen
  {
  }

  lemma ChooseStep(cfg: Config, input: seq<string>, s: IState, w: nat, stamp: Stamp)
    requires Inv(input, s) && IInv(cfg, input, s) && Enabled(input, s, Work(w, stamp)) && s.workers[w].local.Line?
    requires Handle(cfg, s.shared, s.workers[w].task, s.workers[w].local, stamp).1.Some?
    ensures IInv(cfg, input, Step(Importing(cfg), input, s, Work(w, stamp)))
  {
    ChooseShape(cfg, input, s, w, stamp);
    ChooseInv(cfg, input, s, Step(Importing(cfg), input, s, Work(w, stamp)), w, s.workers[w].task, stamp);
  }

  lemma ChoosingAccounted(cfg: Config, input: seq<string>, s: IState, s': IState, w: nat)
    requires Inv(input, s) && Accounted(cfg, input, s) && w < |s.workers| && s.workers[w].Busy? && Head(s') == Head(s)
    requires var i := s.workers[w].task;
             && Valid(cfg, input, i) && HasContact(s', i)
             && s'.shared == s.shared.(emails := s.shared.emails + {EKey(cfg, input, i)},
                                       phones := s.shared.phones + {PKey(cfg, input, i)}, chosen := s.shared.chosen + {i})
             && (forall j :: HasContact(s, j) && j != i ==> HasContact(s', j))
             && (forall j :: HasLine(s, j) && j != i ==> HasLine(s', j))
    ensures Accounted(cfg, input, s')
  {
    forall j | j in s'.shared.chosen ensures j < Head(s') && (HandedIn(s'.shared, j) || HasContact(s', j)) {
      if j != s.workers[w].task {
        assert j in s.shared.chosen;
        assert HandedIn(s.shared, j) ==> HandedIn(s'.shared, j);
      }
    }
  }

  lemma ChoosingOk(cfg: Config, input: seq<string>, t: Shared, i: nat)
    requires ChosenOk(cfg, input, t) && OutOk(cfg, input, t) && Valid(cfg, input, i)
    requires EKey(cfg, input, i) !in t.emails && PKey(cfg, input, i) !in t.phones
    ensures var t' := t.(emails := t.emails + {EKey(cfg, input, i)}, phones := t.phones + {PKey(cfg, input, i)}, chosen := t.chosen + {i});
            ChosenOk(cfg, input, t') && OutOk(cfg, input, t')
  {
    var t' := t.(emails := t.emails + {EKey(cfg, input, i)}, phones := t.phones + {PKey(cfg, input, i)}, chosen := t.chosen + {i});
    assert i in t'.chosen;
    assert forall j :: j in t'.chosen <==> j == i || j in t.chosen;
  }

  lemma ChoosingWorkers(cfg: Config, input: seq<string>, s: IState, s': IState, w: nat)
    requires Inv(input, s) && w < |s.workers| && s.workers[w].Busy? && |s'.workers| == |s.workers|
    requires forall k :: 0 <= k < |s.workers| && s.workers[k].Busy? ==> WorkerOk(cfg, input, s.shared, s.workers[k])
    requires s'.shared.chosen == s.shared.chosen + {s.workers[w].task} && s'.shared.out == s.shared.out
    requires forall k :: 0 <= k < |s.workers| && k != w ==> s'.workers[k] == s.workers[k]
    requires s'.workers[w].Busy? && WorkerOk(cfg, input, s'.shared, s'.workers[w])
    ensures forall k :: 0 <= k < |s'.workers| && s'.workers[k].Busy? ==> WorkerOk(cfg, input, s'.shared, s'.workers[k])
  {
    forall k | 0 <= k < |s'.workers| && s'.workers[k].Busy? ensures WorkerOk(cfg, input, s'.shared, s'.workers[k]) {
      if k != w {
        assert s'.workers[k] == s.workers[k] && WorkerOk(cfg, input, s.shared, s.workers[k]);
        assert s.workers[k].task != s.workers[w].task;
      }
    }
  }

  lemma HandStep(cfg: Config, input: seq<string>, s: IState, w: nat, stamp: Stamp)
    requires Inv(input, s) && IInv(cfg, input, s) && Enabled(input, s, Work(w, stamp)) && s.workers[w].local.Chosen?
    ensures IInv(cfg, input, Step(Importing(cfg), input, s, Work(w, stamp)))
  {
    var s' := Step(Importing(cfg), input, s, Work(w, stamp));
    var i, c := s.workers[w].task, s.workers[w].local.contact;
    var t, t' := s.shared, s'.shared;
    KeepHeld(s, s', w);
    HandingOk(cfg, input, t, i, c);
    forall k | 0 <= k < |s'.workers| && s'.workers[k].Busy? ensures WorkerOk(cfg, input, t', s'.workers[k]) {
      assert s'.workers[k] == s.workers[k] && s.workers[k].task != i;
      HandedOther(t, i, c, s.workers[k].task);
    }
    forall j | HandedIn(t, j) ensures HandedIn(t', j) {
      HandedGrows(t, i, c, j);
    }
    assert t'.out[|t.out|] == (i, c);
    assert HandedIn(t', i);
  }

  lemma HandingOk(cfg: Config, input: seq<string>, t: Shared, i: nat, c: Contact)
    requires ChosenOk(cfg, input, t) && OutOk(cfg, input, t) && i in t.chosen && !HandedIn(t, i) && Stands(cfg, input, i, c)
    ensures var t' := t.(out := t.out + [(i, c)]); ChosenOk(cfg, input, t') && OutOk(cfg, input, t')
  {
    HandedOut(cfg, input, t, i, c);
    SameChosen(cfg, input, t, t.(out := t.out + [(i, c)]));
  }

  lemma SameChosen(cfg: Config, input: seq<string>, t: Shared, t': Shared)
    requires ChosenOk(cfg, input, t) && t'.emails == t.emails && t'.phones == t.phones && t'.chosen == t.chosen
    ensures ChosenOk(cfg, input, t')
  {
  }

  lemma HandedOut(cfg: Config, input: seq<string>, t: Shared, i: nat, c: Contact)
    requires OutOk(cfg, input, t) && i in t.chosen && !HandedIn(t, i) && Stands(cfg, input, i, c)
    ensures OutOk(cfg, input, t.(out := t.out + [(i, c)]))
  {
  }

  lemma HandedOther(t: Shared, i: nat, c: Contact, j: nat)
    requires i != j
    ensures HandedIn(t.(out := t.out + [(i, c)]), j) <==> HandedIn(t, j)
  {
    var t' := t.(out := t.out + [(i, c)]);
    if k :| 0 <= k < |t'.out| && t'.out[k].0 == j {
      assert t.out[k].0 == j;
    }
    if HandedIn(t, j) {
      HandedGrows(t, i, c, j);
    }
  }

  lemma HandedGrows(t: Shared, i: nat, c: Contact, j: nat)
    requires HandedIn(t, j)
    ensures HandedIn(t.(out := t.out + [(i, c)]), j)
  {
    var k :| 0 <= k < |t.out| && t.out[k].0 == j;
    assert (t.out + [(i, c)])[k].0 == j;
  }

  lemma StepImport(cfg: Config, input: seq<string>, s: IState, a: Label<Stamp>)
    requires Inv(input, s) && IInv(cfg, input, s) && Enabled(input, s, a)
    ensures IInv(cfg, input, Step(Importing(cfg), input, s, a))
  {
    if a.Work? {
      if s.workers[a.w].local.Chosen? {
        HandStep(cfg, input, s, a.w, a.choice);
      } else if Handle(cfg, s.shared, s.workers[a.w].task, s.workers[a.w].local, a.choice).1.None? {
        DropStep(cfg, input, s, a.w, a.choice);
      } else {
        ChooseStep(cfg, input, s, a.w, a.choice);
      }
    } else if Touches(s, a) {
      TakeStep(cfg, input, s, a.w);
    } else {
      OtherStep(cfg, input, s, a);
    }
  }

  lemma {:induction false} RunImport(cfg: Config, input: seq<string>, s: IState, labels: seq<Label<Stamp>>)
    requires Inv(input, s) && IInv(cfg, input, s) && Runs(Importing(cfg), input, s, labels)
    ensures IInv(cfg, input, After(Importing(cfg), input, s, labels))
    decreases labels
  {
    if labels != [] {
      StepImport(cfg, input, s, labels[0]);
      StepInv(Importing(cfg), input, s, labels[0]);
      RunImport(cfg, input, Step(Importing(cfg), input, s, labels[0]), labels[1..]);
    }
  }

  /** Whatever a schedule reaches from the start has the invariants. */
  lemma Reached(cfg: Config, input: seq<string>, n: nat, start: IState, labels: seq<Label<Stamp>>, s: IState)
    requires start == Fresh(cfg, n) && Runs(Importing(cfg), input, start, labels) && s == After(Importing(cfg), input, start, labels)
    ensures Inv(input, s) && IInv(cfg, input, s) && |s.workers| == n
  {
    InitInv<string, Local, Shared>(input, n, Shared(cfg.emails, cfg.phones, [], {}));
    FreshStart(cfg, input, n, start);
    RunInv(Importing(cfg), input, start, labels);
    RunImport(cfg, input, start, labels);
    WorkersKept(Importing(cfg), input, start, labels);
  }

  // ---------- the end of a run ----------

  /** What the final sort leaves: the pairs handed in, by increasing position. */
  ghost predicate SortedOut(v: seq<(nat, Contact)>, out: seq<(nat, Contact)>) {
    multiset(v) == multiset(out) && forall j, k :: 0 <= j < k < |v| ==> v[j].0 < v[k].0
  }

  function Contacts(v: seq<(nat, Contact)>): (cs: seq<Contact>)
    ensures |cs| == |v| && forall k :: 0 <= k < |v| ==> cs[k] == v[k].1
  {
    seq(|v|, k requires 0 <= k < |v| => v[k].1)
  }

  function Positions(v: seq<(nat, Contact)>): (ps: seq<nat>)
    ensures |ps| == |v| && forall k :: 0 <= k < |v| ==> ps[k] == v[k].0
  {
    seq(|v|, k requires 0 <= k < |v| => v[k].0)
  }

  /** The result of a run is its chosen lines in order. */
  ghost predicate Result(cfg: Config, input: seq<string>, chosen: set<nat>, v: seq<(nat, Contact)>) {
    && (forall j, k :: 0 <= j < k < |v| ==> v[j].0 < v[k].0)
    && (forall k :: 0 <= k < |v| ==> v[k].0 in chosen && Stands(cfg, input, v[k].0, v[k].1))
    && (forall i :: i in chosen ==> exists k :: 0 <= k < |v| && v[k].0 == i)
  }

  /** Nothing is taken twice or against the starting book, and nothing valid is left out without a clash. */
  ghost predicate SafeAndMaximal(cfg: Config, input: seq<string>, chosen: set<nat>) {
    && (forall i :: i in chosen ==> Valid(cfg, input, i) && EKey(cfg, input, i) !in cfg.emails && PKey(cfg, input, i) !in cfg.phones)
    && (forall i, j :: i in chosen && j in chosen && i != j ==>
          EKey(cfg, input, i) != EKey(cfg, input, j) && PKey(cfg, input, i) != PKey(cfg, input, j))
    && (forall i: nat :: Valid(cfg, input, i) && i !in chosen ==>
          || EKey(cfg, input, i) in cfg.emails || PKey(cfg, input, i) in cfg.phones
          || exists j :: j in chosen && (EKey(cfg, input, j) == EKey(cfg, input, i) || PKey(cfg, input, j) == PKey(cfg, input, i)))
  }

  lemma FinalStands(cfg: Config, input: seq<string>, t: Shared, v: seq<(nat, Contact)>, k: nat)
    requires OutOk(cfg, input, t) && multiset(v) == multiset(t.out) && k < |v|
    ensures v[k].0 in t.chosen && Stands(cfg, input, v[k].0, v[k].1)
  {
    SameElements(v, t.out, v[k]);
    var j :| 0 <= j < |t.out| && t.out[j] == v[k];
  }

  lemma FinalAll(t: Shared, v: seq<(nat, Contact)>, i: nat)
    requires multiset(v) == multiset(t.out) && HandedIn(t, i)
    ensures exists k :: 0 <= k < |v| && v[k].0 == i
  {
    var j :| 0 <= j < |t.out| && t.out[j].0 == i;
    SameElements(v, t.out, t.out[j]);
    var k :| 0 <= k < |v| && v[k] == t.out[j];
  }

  /** Once the queue is drained and no worker is busy, everything chosen has been handed in. */
  lemma FinalHanded(cfg: Config, input: seq<string>, s: IState, i: nat)
    requires Accounted(cfg, input, s) && i in s.shared.chosen
    requires forall i :: 0 <= i < |s.workers| ==> !s.workers[i].Busy?
    ensures HandedIn(s.shared, i)
  {
  }

  lemma FinalResult(cfg: Config, input: seq<string>, s: IState, v: seq<(nat, Contact)>)
    requires OutOk(cfg, input, s.shared) && Accounted(cfg, input, s) && SortedOut(v, s.shared.out)
    requires forall i :: 0 <= i < |s.workers| ==> !s.workers[i].Busy?
    ensures Result(cfg, input, s.shared.chosen, v)
  {
    forall k | 0 <= k < |v| ensures v[k].0 in s.shared.chosen && Stands(cfg, input, v[k].0, v[k].1) {
      FinalStands(cfg, input, s.shared, v, k);
    }
    forall i | i in s.shared.chosen ensures exists k :: 0 <= k < |v| && v[k].0 == i {
      FinalHanded(cfg, input, s, i);
      FinalAll(s.shared, v, i);
    }
  }

  lemma FinalSafe(cfg: Config, input: seq<string>, s: IState)
    requires IInv(cfg, input, s) && Head(s) == |input|
    requires forall i :: 0 <= i < |s.workers| ==> !s.workers[i].Busy?
    ensures SafeAndMaximal(cfg, input, s.shared.chosen)
  {
    forall i: nat | Valid(cfg, input, i) && i !in s.shared.chosen
      ensures || EKey(cfg, input, i) in cfg.emails || PKey(cfg, input, i) in cfg.phones
              || exists j :: j in s.shared.chosen && (EKey(cfg, input, j) == EKey(cfg, input, i) || PKey(cfg, input, j) == PKey(cfg, input, i))
    {
      assert !HasLine(s, i);
      assert EKey(cfg, input, i) in s.shared.emails || PKey(cfg, input, i) in s.shared.phones;
    }
  }

  /** A schedule to its end, the state it ends in, and what the final sort leaves. */
  ghost predicate Outcome(cfg: Config, input: seq<string>, n: nat, labels: seq<Label<Stamp>>, s: IState, v: seq<(nat, Contact)>) {
    && Runs(Importing(cfg), input, Fresh(cfg, n), labels) && s == After(Importing(cfg), input, Fresh(cfg, n), labels)
    && Terminal(s) && SortedOut(v, s.shared.out)
  }

  /** Under every schedule, and with any number of workers but none: the appended contacts stand for distinct
      valid lines in increasing order, share no key with each other or with the starting book, and every valid
      line left out shares a key with the starting book or with an appended one. */
  lemma EverySchedule(cfg: Config, input: seq<string>, n: nat, labels: seq<Label<Stamp>>, s: IState, v: seq<(nat, Contact)>)
    requires n > 0 && Outcome(cfg, input, n, labels, s, v)
    ensures Result(cfg, input, s.shared.chosen, v) && SafeAndMaximal(cfg, input, s.shared.chosen)
  {
    Reached(cfg, input, n, Fresh(cfg, n), labels, s);
    TerminalDrained(input, s);
    FinalResult(cfg, input, s, v);
    FinalSafe(cfg, input, s);
  }

  /** The same for the contacts: pairwise distinct keys, none of them in the starting book. */
  lemma AppendedAreNew(cfg: Config, input: seq<string>, chosen: set<nat>, v: seq<(nat, Contact)>)
    requires Result(cfg, input, chosen, v) && SafeAndMaximal(cfg, input, chosen)
    ensures forall k :: 0 <= k < |v| ==> EmailKey(v[k].1) !in cfg.emails && PhoneKey(v[k].1) !in cfg.phones
    ensures forall j, k :: 0 <= j < k < |v| ==> EmailKey(v[j].1) != EmailKey(v[k].1) && PhoneKey(v[j].1) != PhoneKey(v[k].1)
  {
    forall k | 0 <= k < |v|
      ensures Valid(cfg, input, v[k].0)
      ensures EmailKey(v[k].1) == EKey(cfg, input, v[k].0) && PhoneKey(v[k].1) == PKey(cfg, input, v[k].0)
    {
      assert Stands(cfg, input, v[k].0, v[k].1);
    }
  }

  // ---------- the sequential pass ----------

  /** The lines that clash with nothing in the starting book. */
  ghost predicate Eligible(cfg: Config, input: seq<string>, i: nat) {
    Valid(cfg, input, i) && EKey(cfg, input, i) !in cfg.emails && PKey(cfg, input, i) !in cfg.phones
  }

  ghost predicate Clash(cfg: Config, input: seq<string>, i: nat, j: nat)
    requires Valid(cfg, input, i) && Valid(cfg, input, j)
  {
    EKey(cfg, input, i) == EKey(cfg, input, j) || PKey(cfg, input, i) == PKey(cfg, input, j)
  }

  ghost predicate EligibleDistinct(cfg: Config, input: seq<string>) {
    forall i: nat, j: nat :: Eligible(cfg, input, i) && Eligible(cfg, input, j) && i != j ==> !Clash(cfg, input, i, j)
  }

  /** The lines kept by a pass that leaves out those in `skip`: eligible, and clashing with none kept before. */
  ghost predicate Kept(cfg: Config, input: seq<string>, skip: seq<nat>, i: nat)
    ensures Kept(cfg, input, skip, i) ==> Eligible(cfg, input, i)
    decreases i
  {
    && Eligible(cfg, input, i) && i !in skip
    && forall j: nat :: j < i && Kept(cfg, input, skip, j) ==> !Clash(cfg, input, j, i)
  }

  lemma {:induction false} EligibleKept(cfg: Config, input: seq<string>, i: nat)
    requires EligibleDistinct(cfg, input)
    ensures Kept(cfg, input, [], i) <==> Eligible(cfg, input, i)
  {
  }

  /** The lines a sequential pass keeps, from a position on, with the keys seen so far. */
  function Sequential(cfg: Config, input: seq<string>, i: nat, emails: set<string>, phones: set<string>): seq<nat>
    requires i <= |input|
    decreases |input| - i
  {
    if i == |input| then []
    else if !Valid(cfg, input, i) || EKey(cfg, input, i) in emails || PKey(cfg, input, i) in phones then
      Sequential(cfg, input, i + 1, emails, phones)
    else
      [i] + Sequential(cfg, input, i + 1, emails + {EKey(cfg, input, i)}, phones + {PKey(cfg, input, i)})
  }

  /** The keys seen are those of the starting book and of the lines kept before the position. */
  ghost predicate SeenBefore(cfg: Config, input: seq<string>, i: nat, emails: set<string>, phones: set<string>) {
    && (forall k :: k in emails <==> k in cfg.emails || exists j: nat :: j < i && Kept(cfg, input, [], j) && EKey(cfg, input, j) == k)
    && (forall k :: k in phones <==> k in cfg.phones || exists j: nat :: j < i && Kept(cfg, input, [], j) && PKey(cfg, input, j) == k)
  }

  predicate Increasing(a: seq<nat>) {
    forall j, k :: 0 <= j < k < |a| ==> a[j] < a[k]
  }

  /** The sequential pass goes by the keys seen, which tell whether a kept line clashes. */
  lemma SeenTells(cfg: Config, input: seq<string>, i: nat, emails: set<string>, phones: set<string>)
    requires SeenBefore(cfg, input, i, emails, phones)
    ensures Kept(cfg, input, [], i) <==> Valid(cfg, input, i) && EKey(cfg, input, i) !in emails && PKey(cfg, input, i) !in phones
  {
  }

  lemma SeenSkip(cfg: Config, input: seq<string>, i: nat, emails: set<string>, phones: set<string>)
    requires SeenBefore(cfg, input, i, emails, phones) && !Kept(cfg, input, [], i)
    ensures SeenBefore(cfg, input, i + 1, emails, phones)
  {
  }

  lemma SeenAdd(cfg: Config, input: seq<string>, i: nat, emails: set<string>, phones: set<string>)
    requires SeenBefore(cfg, input, i, emails, phones) && Kept(cfg, input, [], i)
    ensures SeenBefore(cfg, input, i + 1, emails + {EKey(cfg, input, i)}, phones + {PKey(cfg, input, i)})
  {
    var emails', phones' := emails + {EKey(cfg, input, i)}, phones + {PKey(cfg, input, i)};
    forall k ensures k in emails' <==> k in cfg.emails || exists j: nat :: j < i + 1 && Kept(cfg, input, [], j) && EKey(cfg, input, j) == k {
      assert k in emails' <==> k in emails || k == EKey(cfg, input, i);
    }
    forall k ensures k in phones' <==> k in cfg.phones || exists j: nat :: j < i + 1 && Kept(cfg, input, [], j) && PKey(cfg, input, j) == k {
      assert k in phones' <==> k in phones || k == PKey(cfg, input, i);
    }
  }

  /** The positions are the lines kept from `i` on, in order. */
  ghost predicate KeptFrom(cfg: Config, input: seq<string>, i: nat, r: seq<nat>) {
    Increasing(r) && forall k: nat :: k in r <==> i <= k && Kept(cfg, input, [], k)
  }

  lemma FirstAdded(cfg: Config, input: seq<string>, i: nat, rest: seq<nat>)
    requires Kept(cfg, input, [], i) && KeptFrom(cfg, input, i + 1, rest)
    ensures KeptFrom(cfg, input, i, [i] + rest)
  {
    forall k: nat ensures k in [i] + rest <==> i <= k && Kept(cfg, input, [], k) {
      assert k in [i] + rest <==> k == i || k in rest;
    }
    assert forall k :: 0 <= k < |rest| ==> rest[k] in rest;
  }

  /** The pass over the lines with the keys seen keeps exactly the kept lines. */
  lemma {:induction false} SequentialIsKept(cfg: Config, input: seq<string>, i: nat, emails: set<string>, phones: set<string>)
    requires i <= |input| && SeenBefore(cfg, input, i, emails, phones)
    ensures KeptFrom(cfg, input, i, Sequential(cfg, input, i, emails, phones))
    decreases |input| - i
  {
    if i < |input| {
      SeenTells(cfg, input, i, emails, phones);
      if !Kept(cfg, input, [], i) {
        SeenSkip(cfg, input, i, emails, phones);
        SequentialIsKept(cfg, input, i + 1, emails, phones);
      } else {
        var emails', phones' := emails + {EKey(cfg, input, i)}, phones + {PKey(cfg, input, i)};
        SeenAdd(cfg, input, i, emails, phones);
        SequentialIsKept(cfg, input, i + 1, emails', phones');
        FirstAdded(cfg, input, i, Sequential(cfg, input, i + 1, emails', phones'));
      }
    }
  }

  /** A result whose lines are the kept ones is that of the sequential pass. */
  lemma KeptResult(cfg: Config, input: seq<string>, chosen: set<nat>, v: seq<(nat, Contact)>)
    requires Result(cfg, input, chosen, v) && forall i: nat :: i in chosen <==> Kept(cfg, input, [], i)
    ensures Positions(v) == Sequential(cfg, input, 0, cfg.emails, cfg.phones)
  {
    SequentialIsKept(cfg, input, 0, cfg.emails, cfg.phones);
    PositionsAre(cfg, input, chosen, v);
    var ps, kept := Positions(v), Sequential(cfg, input, 0, cfg.emails, cfg.phones);
    forall x: nat ensures x in ps <==> x in kept {
      assert x in kept <==> 0 <= x && Kept(cfg, input, [], x);
    }
    IncreasingUnique(ps, kept);
  }

  /** With distinct keys among the eligible lines, the sequential pass keeps exactly those. */
  lemma SequentialIsEligible(cfg: Config, input: seq<string>, i: nat)
    requires EligibleDistinct(cfg, input)
    ensures i in Sequential(cfg, input, 0, cfg.emails, cfg.phones) <==> Eligible(cfg, input, i)
  {
    SequentialIsKept(cfg, input, 0, cfg.emails, cfg.phones);
    EligibleKept(cfg, input, i);
  }

  /** The least element of an increasing list comes first, and only there. */
  lemma FirstOnly(a: seq<nat>)
    requires a != [] && Increasing(a)
    ensures Increasing(a[1..]) && forall x :: x in a[1..] <==> x in a && x != a[0]
  {
    assert a == [a[0]] + a[1..];
    forall x | x in a[1..] ensures x in a && a[0] < x {
      var k :| 0 <= k < |a[1..]| && a[1..][k] == x;
      assert a[k + 1] == x;
    }
  }

  lemma FirstSame(a: seq<nat>, b: seq<nat>)
    requires Increasing(a) && Increasing(b)
    requires a != [] && forall x :: x in a <==> x in b
    ensures b != [] && a[0] == b[0]
  {
    assert a[0] in b;
    assert b[0] in a;
    var j :| 0 <= j < |b| && b[j] == a[0];
    var k :| 0 <= k < |a| && a[k] == b[0];
  }

  lemma SomeIn(b: seq<nat>)
    ensures b == [] || exists x :: x in b
  {
    if b != [] {
      assert b[0] in b;
    }
  }

  /** Two increasing lists of the same positions are the same list. */
  lemma {:induction false} IncreasingUnique(a: seq<nat>, b: seq<nat>)
    requires Increasing(a) && Increasing(b)
    requires forall x :: x in a <==> x in b
    ensures a == b
    decreases |a|
  {
    if a == [] {
      SomeIn(b);
    } else {
      FirstSame(a, b);
      FirstOnly(a);
      FirstOnly(b);
      IncreasingUnique(a[1..], b[1..]);
      assert a == [a[0]] + a[1..] && b == [b[0]] + b[1..];
    }
  }

  /** With distinct keys among the eligible lines, every schedule appends what the sequential pass keeps, in
      the same order: thread timing cannot be seen. */
  lemma ScheduleUnobservable(cfg: Config, input: seq<string>, n: nat, labels: seq<Label<Stamp>>, s: IState, v: seq<(nat, Contact)>)
    requires n > 0 && Outcome(cfg, input, n, labels, s, v) && EligibleDistinct(cfg, input)
    ensures Positions(v) == Sequential(cfg, input, 0, cfg.emails, cfg.phones)
    ensures forall k :: 0 <= k < |v| ==> Stands(cfg, input, v[k].0, v[k].1)
  {
    EverySchedule(cfg, input, n, labels, s, v);
    ChosenIsEligible(cfg, input, s.shared.chosen);
    forall i: nat ensures i in s.shared.chosen <==> Kept(cfg, input, [], i) {
      EligibleKept(cfg, input, i);
    }
    KeptResult(cfg, input, s.shared.chosen, v);
  }

  lemma PositionsAre(cfg: Config, input: seq<string>, chosen: set<nat>, v: seq<(nat, Contact)>)
    requires Result(cfg, input, chosen, v)
    ensures forall x :: x in Positions(v) <==> x in chosen
    ensures Increasing(Positions(v))
  {
    forall x | x in chosen ensures x in Positions(v) {
      var k :| 0 <= k < |v| && v[k].0 == x;
      assert Positions(v)[k] == x;
    }
  }

  lemma DroppedClashes(cfg: Config, input: seq<string>, chosen: set<nat>, i: nat) returns (j: nat)
    requires SafeAndMaximal(cfg, input, chosen) && Eligible(cfg, input, i) && i !in chosen
    ensures j in chosen && Valid(cfg, input, j) && Clash(cfg, input, j, i)
  {
    j :| j in chosen && (EKey(cfg, input, j) == EKey(cfg, input, i) || PKey(cfg, input, j) == PKey(cfg, input, i));
  }

  lemma ChosenIsEligible(cfg: Config, input: seq<string>, chosen: set<nat>)
    requires SafeAndMaximal(cfg, input, chosen) && EligibleDistinct(cfg, input)
    ensures forall i :: i in chosen <==> Eligible(cfg, input, i)
  {
    forall i | i in chosen ensures Eligible(cfg, input, i) {
    }
    forall i: nat | Eligible(cfg, input, i) ensures i in chosen {
      if i !in chosen {
        var j := DroppedClashes(cfg, input, chosen, i);
      }
    }
  }

  /** The printed line of a clean and valid contact, if it is short enough, is a candidate for that contact. */
  lemma PrintedCandidate(cfg: Config, c: Contact)
    requires !cfg.csv && CleanContact(c) && |ContactLine(c)| <= cfg.maxRecord
    requires IsValidName(c.name) && IsValidEmail(c.email) && IsValidPhone(c.phone)
    ensures Candidate(cfg, ContactLine(c)) == Some(c)
  {
    LineRoundTrip(c);
  }

  /** Every schedule of an import ends: six steps for a line and two for a worker, spurious wake-ups aside. */
  lemma ImportBounded(cfg: Config, input: seq<string>, n: nat, labels: seq<Label<Stamp>>)
    requires Runs(Importing(cfg), input, Fresh(cfg, n), labels)
    ensures |labels| <= |input| * 6 + 2 * n + 3 + 2 * SpuriousCount(labels)
  {
    ImportRanked(cfg);
    ScheduleBounded(Importing(cfg), input, 1, n, Fresh(cfg, n), labels);
  }

  /** When the file gives every id and time, the contacts themselves are those of the lines. */
  lemma StandsExactly(cfg: Config, input: seq<string>, i: nat, c: Contact)
    requires Stands(cfg, input, i, c)
    requires Candidate(cfg, input[i]).value.id != "" && Candidate(cfg, input[i]).value.createdAt != ""
    ensures c == Candidate(cfg, input[i]).value
  {
  }

  // ---------- the index maps ----------

  /** A map exact for a list of keys is not exact for a longer one. */
  lemma ExactNoLonger(m: map<string, nat>, keys: seq<string>, more: seq<string>)
    requires ExactMap(m, keys) && |keys| < |more| && keys <= more
    ensures !ExactMap(m, more)
  {
    var n := |keys|;
    if more[n] in m {
      assert m[more[n]] < n;
    }
  }

  /** The parallel import appends to the contacts and leaves the index maps as they were: the indexes stay
      exact only when nothing is appended. */
  lemma IndexNotExtended(b: Book, cs: seq<Contact>)
    requires Agree(b)
    ensures Agree(b.(contacts := b.contacts + cs)) <==> cs == []
  {
    var b' := b.(contacts := b.contacts + cs);
    if cs == [] {
      assert b' == b;
    } else {
      ExactNoLonger(b.emailToI, EmailKeys(b.contacts), EmailKeys(b'.contacts));
    }
  }
}
