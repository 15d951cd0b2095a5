/** Saves, crashes and loads in any order: what the next load finds. */
module CrashSafety {
  import opened Text
  import opened Model
  import opened Book
  import opened Store
  import TextIndex

  /** A book on its way to disk, with what is free in its save. */
  datatype Gen = Gen(book: Book, orders: Orders)

  ghost predicate GoodGen(g: Gen) {
    Storable(g.book) && TextIndex.Lists(g.orders.emails, g.book.emailToI) && TextIndex.Lists(g.orders.phones, g.book.phoneToI)
  }

  datatype Kind = Idle | Saving | Caching

  /** The files; the write-out under way and how many of its steps are done; for reference, the book whose
      data is in place, and the one the index file was written for. */
  datatype Sys = Sys(files: Files, kind: Kind, work: Gen, at: nat, current: Book, indexed: Gen)

  const START: Sys := Sys(map[], Idle, NOTHING, 0, EMPTY, NOTHING)
  const NOTHING: Gen := Gen(EMPTY, Orders([], [], [], []))

  /** The write-out under way, step by step. A load that finds no valid index writes one. */
  ghost function Plan(h: Digest, s: Sys): seq<Step>
    requires GoodGen(s.work)
  {
    match s.kind
    case Idle => []
    case Saving => SaveSteps(h, s.work.book, s.work.orders)
    case Caching => Atomic(Index, IndexContent(h, s.work.book, s.work.orders))
  }

  datatype Action =
    | BeginSave(gen: Gen)
    | BeginLoad(orders: Orders)
    | Tick
    | Crash

  ghost predicate Enabled(h: Digest, s: Sys, a: Action) {
    match a
    case BeginSave(g) => s.kind == Idle && GoodGen(g)
    case BeginLoad(o) =>
      var r := Load(h, s.files, EMPTY);
      s.kind == Idle && r.Ok? && r.rebuilt && GoodGen(Gen(r.book, o))
    case Tick => s.kind != Idle && GoodGen(s.work) && s.at < |Plan(h, s)|
    case Crash => s.kind != Idle
  }

  ghost function Next(h: Digest, s: Sys, a: Action): Sys
    requires Enabled(h, s, a)
  {
    match a
    case BeginSave(g) => s.(kind := Saving, work := g, at := 0)
    case BeginLoad(o) => s.(kind := Caching, work := Gen(Load(h, s.files, EMPTY).book, o), at := 0)
    case Crash => s.(kind := Idle)
    case Tick => TickOn(s, Plan(h, s))
  }

  /** The next step of a plan is done; with the last one the work is over. */
  function TickOn(s: Sys, plan: seq<Step>): Sys
    requires s.at < |plan|
  {
    var step := plan[s.at];
    s.(files := Do(s.files, step), at := s.at + 1, kind := if s.at + 1 == |plan| then Idle else s.kind,
       current := if step == Rename(Tmp(Data), Data) then s.work.book else s.current,
       indexed := if step == Rename(Tmp(Index), Index) then s.work else s.indexed)
  }

  /** The data file holds the current book, the index file a text written for some storable book. */
  ghost predicate FilesOk(h: Digest, s: Sys)
    requires GoodGen(s.indexed)
  {
    && Read(s.files, Data) == DataText(s.current.contacts)
    && (Index in s.files ==> s.files[Index] == IndexContent(h, s.indexed.book, s.indexed.orders))
  }

  /** The last write of the work under way is in its file. */
  ghost predicate WorkOk(s: Sys, plan: seq<Step>) {
    s.kind != Idle ==> s.at < |plan| && (s.at > 0 ==> Landed(s.files, plan[s.at - 1]))
  }

  ghost predicate Inv(h: Digest, s: Sys) {
    && GoodGen(s.work) && GoodGen(s.indexed) && Storable(s.current)
    && FilesOk(h, s) && WorkOk(s, Plan(h, s))
    && (s.kind == Caching ==> s.work.book == s.current)
  }

  ghost predicate Landed(fs: Files, step: Step) {
    step.Write? ==> step.path in fs && fs[step.path] == step.content
  }

  // ---------- the shape of a write-out ----------

  lemma AtomicShape(p: Path, content: string, k: nat)
    requires k < |Atomic(p, content)|
    ensures |Atomic(p, content)| == |content| + 2
    ensures Atomic(p, content)[k].Rename? <==> k == |content| + 1
    ensures var step := Atomic(p, content)[k];
            if step.Rename? then step == Rename(Tmp(p), p) && k > 0 && Atomic(p, content)[k - 1] == Write(Tmp(p), content)
            else step.path == Tmp(p)
  {
    var g := Growing(Tmp(p), content);
    if k == |content| + 1 {
      assert Atomic(p, content)[k - 1] == g[|content|];
      assert content[..|content|] == content;
    } else {
      assert Atomic(p, content)[k] == g[k];
    }
  }

  /** In a save a rename publishes the data, the index or the meta text, fully written just before; and
      nothing else touches the data and the index file. */
  ghost predicate Publishes(plan: seq<Step>, k: nat, d: string, i: string)
    requires k < |plan|
  {
    match plan[k]
    case Write(p, _) => p != Data && p != Index
    case Rename(from, to) =>
      from == Tmp(to) && k > 0 &&
      match to
      case Data => plan[k - 1] == Write(Tmp(Data), d)
      case Index => plan[k - 1] == Write(Tmp(Index), i)
      case Meta => true
      case _ => false
  }

  lemma SaveShape(d: string, i: string, m: string, n: string, k: nat)
    requires k < |Atomic(Data, d) + Atomic(Index, i) + Atomic(Meta, m) + Growing(Bin, n)|
    ensures var plan := Atomic(Data, d) + Atomic(Index, i) + Atomic(Meta, m) + Growing(Bin, n);
            Publishes(plan, k, d, i) && (plan[k] == Rename(Tmp(Data), Data) <==> k == |d| + 1)
  {
    var s1, s2, s3, s4 := Atomic(Data, d), Atomic(Index, i), Atomic(Meta, m), Growing(Bin, n);
    var plan := s1 + s2 + s3 + s4;
    var l1, l2, l3 := |s1|, |s1| + |s2|, |s1| + |s2| + |s3|;
    AtomicShape(Data, d, 0);
    if k < l1 {
      AtomicShape(Data, d, k);
      assert plan[k] == s1[k] && (k > 0 ==> plan[k - 1] == s1[k - 1]);
    } else if k < l2 {
      AtomicShape(Index, i, k - l1);
      assert plan[k] == s2[k - l1] && (k > l1 ==> plan[k - 1] == s2[k - 1 - l1]);
    } else if k < l3 {
      AtomicShape(Meta, m, k - l2);
      assert plan[k] == s3[k - l2];
    } else {
      assert plan[k] == s4[k - l3];
    }
  }

  lemma SavePlanShape(h: Digest, g: Gen, k: nat)
    requires GoodGen(g) && k < |SaveSteps(h, g.book, g.orders)|
    ensures var plan := SaveSteps(h, g.book, g.orders);
            Publishes(plan, k, DataText(g.book.contacts), IndexContent(h, g.book, g.orders)) &&
            (plan[k] == Rename(Tmp(Data), Data) <==> k == |Atomic(Data, DataText(g.book.contacts))| - 1)
  {
    SaveShape(DataText(g.book.contacts), IndexContent(h, g.book, g.orders), MetaContent(h, g.book), BinContent(g.orders), k);
    AtomicShape(Data, DataText(g.book.contacts), 0);
  }

  lemma CachePlanShape(h: Digest, g: Gen, k: nat)
    requires GoodGen(g) && k < |Atomic(Index, IndexContent(h, g.book, g.orders))|
    ensures Publishes(Atomic(Index, IndexContent(h, g.book, g.orders)), k, DataText(g.book.contacts), IndexContent(h, g.book, g.orders))
  {
    AtomicShape(Index, IndexContent(h, g.book, g.orders), k);
  }

  lemma PlanShape(h: Digest, s: Sys)
    requires GoodGen(s.work) && s.kind != Idle && s.at < |Plan(h, s)|
    ensures Publishes(Plan(h, s), s.at, DataText(s.work.book.contacts), IndexContent(h, s.work.book, s.work.orders))
  {
    if s.kind == Saving {
      SavePlanShape(h, s.work, s.at);
    } else {
      CachePlanShape(h, s.work, s.at);
    }
  }

  // ---------- the invariant ----------

  lemma StartInv(h: Digest)
    ensures Inv(h, START)
  {
  }

  /** What the steps do to the data and the index file. */
  lemma WriteEffect(fs: Files, p: Path, content: string)
    requires p != Data && p != Index
    ensures var fs' := Do(fs, Write(p, content));
            && Landed(fs', Write(p, content)) && Read(fs', Data) == Read(fs, Data)
            && (Index in fs' <==> Index in fs) && (Index in fs ==> fs'[Index] == fs[Index])
  {
  }

  lemma RenameEffect(fs: Files, p: Path, content: string)
    requires (p == Data || p == Index || p == Meta) && Tmp(p) in fs && (p == Meta || fs[Tmp(p)] == content)
    ensures var fs' := Do(fs, Rename(Tmp(p), p));
            && Read(fs', Data) == (if p == Data then content else Read(fs, Data))
            && (p == Index ==> Index in fs' && fs'[Index] == content)
            && (p != Index ==> (Index in fs' <==> Index in fs) && (Index in fs ==> fs'[Index] == fs[Index]))
  {
  }

  lemma MissingEffect(fs: Files)
    requires Tmp(Meta) !in fs
    ensures var fs' := Do(fs, Rename(Tmp(Meta), Meta));
            && Read(fs', Data) == Read(fs, Data)
            && (Index in fs' <==> Index in fs) && (Index in fs ==> fs'[Index] == fs[Index])
  {
  }

  /** A write touches neither file. */
  lemma WriteKeeps(h: Digest, s: Sys, plan: seq<Step>)
    requires GoodGen(s.indexed) && FilesOk(h, s) && s.at < |plan|
    requires plan[s.at].Write? && plan[s.at].path != Data && plan[s.at].path != Index
    ensures FilesOk(h, TickOn(s, plan)) && Landed(TickOn(s, plan).files, plan[s.at])
  {
    WriteEffect(s.files, plan[s.at].path, plan[s.at].content);
  }

  /** A rename puts the text written just before in place. */
  lemma RenameKeeps(h: Digest, s: Sys, plan: seq<Step>, p: Path, content: string)
    requires GoodGen(s.work) && GoodGen(s.indexed) && FilesOk(h, s) && s.at < |plan|
    requires plan[s.at] == Rename(Tmp(p), p) && (p == Data || p == Index || p == Meta)
    requires p != Meta ==> Tmp(p) in s.files && s.files[Tmp(p)] == content
    requires p == Data ==> content == DataText(s.work.book.contacts)
    requires p == Index ==> content == IndexContent(h, s.work.book, s.work.orders)
    ensures FilesOk(h, TickOn(s, plan)) && Landed(TickOn(s, plan).files, plan[s.at])
  {
    if Tmp(p) in s.files {
      RenameEffect(s.files, p, content);
    } else {
      MissingEffect(s.files);
    }
  }

  lemma TickOnKeeps(h: Digest, s: Sys, plan: seq<Step>)
    requires GoodGen(s.work) && GoodGen(s.indexed) && FilesOk(h, s) && WorkOk(s, plan) && s.kind != Idle
    requires Publishes(plan, s.at, DataText(s.work.book.contacts), IndexContent(h, s.work.book, s.work.orders))
    ensures FilesOk(h, TickOn(s, plan)) && WorkOk(TickOn(s, plan), plan)
  {
    match plan[s.at]
    case Write(_, _) => WriteKeeps(h, s, plan);
    case Rename(_, to) =>
      match to
      case Data => RenameKeeps(h, s, plan, Data, DataText(s.work.book.contacts));
      case Index => RenameKeeps(h, s, plan, Index, IndexContent(h, s.work.book, s.work.orders));
      case Meta => RenameKeeps(h, s, plan, Meta, "");
      case _ => assert false;
  }

  /** A process that is not through keeps its plan. */
  lemma PlanKept(h: Digest, s: Sys, plan: seq<Step>)
    requires GoodGen(s.work) && plan == Plan(h, s) && s.at < |plan| && TickOn(s, plan).kind != Idle
    ensures Plan(h, TickOn(s, plan)) == plan
  {
  }

  lemma TickKeeps(h: Digest, s: Sys)
    requires Inv(h, s) && Enabled(h, s, Tick)
    ensures Inv(h, Next(h, s, Tick))
  {
    var plan := Plan(h, s);
    PlanShape(h, s);
    TickOnKeeps(h, s, plan);
    if TickOn(s, plan).kind != Idle {
      PlanKept(h, s, plan);
    }
  }

  /** A book in the current place that needs its index rebuilt. */
  lemma LoadedIsCurrent(h: Digest, s: Sys)
    requires OneLine(h) && Inv(h, s) && NoClash(h, s)
    ensures Load(h, s.files, EMPTY).Ok? && Load(h, s.files, EMPTY).book == s.current
  {
    LoadGenerations(h, s.files, s.current, s.indexed.book, s.indexed.orders);
  }

  /** The two texts in play do not collide under the digest. */
  ghost predicate NoClash(h: Digest, s: Sys) {
    var a, b := DataText(s.current.contacts), DataText(s.indexed.book.contacts);
    h(a) == h(b) ==> a == b
  }

  lemma NextKeeps(h: Digest, s: Sys, a: Action)
    requires OneLine(h) && Inv(h, s) && Enabled(h, s, a) && NoClash(h, s)
    ensures Inv(h, Next(h, s, a))
  {
    match a
    case BeginSave(g) =>
    case BeginLoad(o) => LoadedIsCurrent(h, s);
    case Tick => TickKeeps(h, s);
    case Crash =>
  }

  // ---------- runs ----------

  /** The actions can happen one after the other from the state, without a collision on the way. */
  ghost predicate Runs(h: Digest, s: Sys, actions: seq<Action>)
    decreases actions
  {
    NoClash(h, s) &&
    (actions == [] || (Enabled(h, s, actions[0]) && Runs(h, Next(h, s, actions[0]), actions[1..])))
  }

  ghost function After(h: Digest, s: Sys, actions: seq<Action>): Sys
    requires Runs(h, s, actions)
    decreases actions
  {
    if actions == [] then s else After(h, Next(h, s, actions[0]), actions[1..])
  }

  lemma {:induction false} RunKeeps(h: Digest, s: Sys, actions: seq<Action>)
    requires OneLine(h) && Inv(h, s) && Runs(h, s, actions)
    ensures Inv(h, After(h, s, actions)) && NoClash(h, After(h, s, actions))
    decreases actions
  {
    if actions != [] {
      NextKeeps(h, s, actions[0]);
      RunKeeps(h, Next(h, s, actions[0]), actions[1..]);
    }
  }

  /** After any run of saves, index rebuilds and crashes between any two writes, a load succeeds and gives
      the book whose data was last put in place, with indexes that agree with its contacts. */
  lemma LoadAfterAnyRun(h: Digest, actions: seq<Action>)
    requires OneLine(h) && Runs(h, START, actions)
    ensures var s := After(h, START, actions);
            Load(h, s.files, EMPTY).Ok? && Load(h, s.files, EMPTY).book == s.current && Agree(s.current)
  {
    StartInv(h);
    RunKeeps(h, START, actions);
    LoadedIsCurrent(h, After(h, START, actions));
  }

  // ---------- one save, stopped anywhere ----------

  /** Where a save that begins in a state has come after some of its steps, short of the last. */
  ghost predicate Progress(h: Digest, s: Sys, begun: Sys, g: Gen, k: nat) {
    && Inv(h, s) && s.kind == Saving && s.work == g && s.at == k
    && s.current == (if k < |Atomic(Data, DataText(g.book.contacts))| then begun.current else g.book)
    && (s.indexed == begun.indexed || s.indexed == g)
  }

  lemma TickProgress(h: Digest, s: Sys, begun: Sys, g: Gen, k: nat)
    requires GoodGen(g) && Progress(h, s, begun, g, k) && k + 1 < |SaveSteps(h, g.book, g.orders)|
    ensures Enabled(h, s, Tick) && Progress(h, Next(h, s, Tick), begun, g, k + 1)
    ensures Next(h, s, Tick).files == Do(s.files, SaveSteps(h, g.book, g.orders)[k])
  {
    SavePlanShape(h, g, k);
    TickKeeps(h, s);
  }

  lemma BeginProgress(h: Digest, begun: Sys, g: Gen)
    requires Inv(h, begun) && begun.kind == Idle && GoodGen(g)
    requires 0 < |SaveSteps(h, g.book, g.orders)|
    ensures Progress(h, Next(h, begun, BeginSave(g)), begun, g, 0)
  {
  }

  lemma ExecNone(fs: Files, plan: seq<Step>)
    ensures Exec(fs, plan[..0]) == fs
  {
  }

  ghost predicate At(h: Digest, s: Sys, begun: Sys, g: Gen, k: nat)
    requires GoodGen(g) && k <= |SaveSteps(h, g.book, g.orders)|
  {
    Progress(h, s, begun, g, k) && s.files == Exec(begun.files, SaveSteps(h, g.book, g.orders)[..k])
  }

  lemma NextAt(h: Digest, s: Sys, begun: Sys, g: Gen, k: nat)
    requires GoodGen(g) && k + 1 < |SaveSteps(h, g.book, g.orders)| && At(h, s, begun, g, k)
    ensures Enabled(h, s, Tick) && At(h, Next(h, s, Tick), begun, g, k + 1)
  {
    TickProgress(h, s, begun, g, k);
    ExecTake(begun.files, SaveSteps(h, g.book, g.orders), k);
  }

  /** The state a save has reached after `k` of its steps. */
  lemma {:induction false} Reaches(h: Digest, begun: Sys, g: Gen, k: nat) returns (s: Sys)
    requires Inv(h, begun) && begun.kind == Idle && GoodGen(g) && k < |SaveSteps(h, g.book, g.orders)|
    ensures At(h, s, begun, g, k)
    decreases k
  {
    if k == 0 {
      BeginProgress(h, begun, g);
      ExecNone(begun.files, SaveSteps(h, g.book, g.orders));
      s := Next(h, begun, BeginSave(g));
    } else {
      var s0 := Reaches(h, begun, g, k - 1);
      NextAt(h, s0, begun, g, k - 1);
      s := Next(h, s0, Tick);
    }
  }

  lemma ExecTake(fs: Files, plan: seq<Step>, k: nat)
    requires k < |plan|
    ensures Exec(fs, plan[..k + 1]) == Do(Exec(fs, plan[..k]), plan[k])
  {
    assert plan[..k + 1] == plan[..k] + [plan[k]];
    ExecConcat(fs, plan[..k], [plan[k]]);
    ExecOne(Exec(fs, plan[..k]), plan[k]);
  }

  ghost predicate Collides(h: Digest, a: Book, b: Book) {
    DataText(a.contacts) != DataText(b.contacts) && h(DataText(a.contacts)) == h(DataText(b.contacts))
  }

  /** A save stopped between any two of its writes: the next load gives the old book until the data file is
      renamed into place, the new one from then on, and always with indexes that agree. */
  lemma StoppedSave(h: Digest, begun: Sys, g: Gen, k: nat)
    requires OneLine(h) && Inv(h, begun) && begun.kind == Idle
    requires GoodGen(g) && k < |SaveSteps(h, g.book, g.orders)|
    requires !Collides(h, begun.current, begun.indexed.book) && !Collides(h, g.book, begun.indexed.book)
    requires !Collides(h, begun.current, g.book)
    ensures var r := Load(h, Exec(begun.files, SaveSteps(h, g.book, g.orders)[..k]), EMPTY);
            && r.Ok? && Agree(r.book)
            && r.book == if k < |Atomic(Data, DataText(g.book.contacts))| then begun.current else g.book
  {
    var s := Reaches(h, begun, g, k);
    LoadedIsCurrent(h, s);
  }
}
