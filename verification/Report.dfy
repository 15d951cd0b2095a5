/** The report over a file of lines, sequential and threaded. */
module Report {
  import opened Text
  import opened Json
  import opened JsonParser
  import opened WorkQueue

  /** The address a line contributes: its "email" member, when the line is an object that has it as a string. */
  function EmailOf(line: string): Option<string> {
    var (j, _) :- ParseValue(line);
    if !j.Obj? then None
    else
      var v :- Find(j.members, "email");
      if v.Str? then Some(v.s) else None
  }

  // ---------- sequential ----------

  function Count(lines: seq<string>): nat {
    if lines == [] then 0 else (if lines[0] == "" then 0 else 1) + Count(lines[1..])
  }

  function Emails(lines: seq<string>): set<string> {
    if lines == [] then {}
    else (if lines[0] != "" && EmailOf(lines[0]).Some? then {EmailOf(lines[0]).value} else {}) + Emails(lines[1..])
  }

  method ReadEmail(line: string) returns (e: Option<string>)
    ensures e == EmailOf(line)
  {
    var j, _ := ReadValue(line);
    if j.Some? && j.value.Obj? {
      var v := Find(j.value.members, "email");
      if v.Some? && v.value.Str? {
        return Some(v.value.s);
      }
    }
    return None;
  }

  /** `acx_report_cmd`. */
  method Sequential(lines: seq<string>) returns (count: nat, emails: set<string>)
    ensures count == Count(lines) && emails == Emails(lines)
  {
    count, emails := 0, {};
    var rest := lines;
    while rest != []
      invariant count + Count(rest) == Count(lines)
      invariant emails + Emails(rest) == Emails(lines)
      decreases |rest|
    {
      var line := rest[0];
      if line != "" {
        count := count + 1;
        var e := ReadEmail(line);
        if e.Some? {
          emails := emails + {e.value};
        }
      }
      rest := rest[1..];
    }
  }

  // ---------- threaded ----------

  /** A worker has the line, or has counted it and not yet looked for its address. */
  datatype Local = Got(line: string) | Counted(line: string)

  /** The shared counter and set; for reference, the positions of the lines that were counted. */
  datatype Totals = Totals(count: nat, counted: set<nat>, emails: set<string>)

  function Handle(t: Totals, i: nat, l: Local, c: ()): (Totals, Option<Local>) {
    match l
    case Got(line) =>
      if line == "" then (t, None)
      else (t.(count := t.count + 1, counted := t.counted + {i}), Some(Counted(line)))
    case Counted(line) =>
      (if EmailOf(line).Some? then t.(emails := t.emails + {EmailOf(line).value}) else t, None)
  }

  function Reporting(): Program<string, Local, Totals, ()> {
    Program(line => Got(line), Handle, (l: Local) => if l.Got? then 1 else 0)
  }

  type RState = State<string, Local, Totals>

  ghost predicate HeldAt(s: RState, i: nat, l: Local) {
    exists w :: 0 <= w < |s.workers| && s.workers[w] == Busy(i, l)
  }

  /** Where the counts stand: a line taken is counted, or still with the worker that will count it; an
      address of a counted line is in the set, or still with the worker that will insert it. */
  ghost predicate RInv(input: seq<string>, s: RState) {
    var t := s.shared;
    && t.count == |t.counted|
    && (forall i :: i in t.counted ==> i < Head(s) && i < |input| && input[i] != "")
    && (forall i: nat :: i < Head(s) && i < |input| && input[i] != "" && i !in t.counted ==> HeldAt(s, i, Got(input[i])))
    && (forall w :: 0 <= w < |s.workers| && s.workers[w].Busy? ==> WorkerInv(input, t, s.workers[w]))
    && (forall i :: i in t.counted && EmailOf(input[i]).Some? ==>
          EmailOf(input[i]).value in t.emails || HeldAt(s, i, Counted(input[i])))
    && (forall e :: e in t.emails ==> exists i :: i in t.counted && EmailOf(input[i]) == Some(e))
  }

  predicate WorkerInv(input: seq<string>, t: Totals, w: Worker<Local>)
    requires w.Busy?
  {
    w.task < |input| && w.local.line == input[w.task] && (w.local.Counted? <==> w.task in t.counted)
  }

  lemma HeldFrame(s: RState, s': RState, i: nat, l: Local)
    requires HeldAt(s, i, l) && |s'.workers| == |s.workers|
    requires forall w :: 0 <= w < |s.workers| && s.workers[w] == Busy(i, l) ==> s'.workers[w] == s.workers[w]
    ensures HeldAt(s', i, l)
  {
    var w :| 0 <= w < |s.workers| && s.workers[w] == Busy(i, l);
    assert s'.workers[w] == Busy(i, l);
  }

  lemma OtherStep(input: seq<string>, s: RState, a: Label<()>)
    requires Inv(input, s) && RInv(input, s) && Enabled(input, s, a) && !Touches(s, a)
    ensures RInv(input, Step(Reporting(), input, s, a))
  {
    OthersFrame(Reporting(), input, s, a);
    var s' := Step(Reporting(), input, s, a);
    KeepHeld(input, s, s', |s.workers|);
  }

  /** Lines held by workers other than `w` are still held. */
  lemma KeepHeld(input: seq<string>, s: RState, s': RState, w: nat)
    requires |s'.workers| == |s.workers|
    requires forall k :: 0 <= k < |s.workers| && k != w && s.workers[k].Busy? ==> s'.workers[k] == s.workers[k]
    ensures forall i, l :: HeldAt(s, i, l) && (w < |s.workers| ==> s.workers[w] != Busy(i, l)) ==> HeldAt(s', i, l)
  {
    forall i, l | HeldAt(s, i, l) && (w < |s.workers| ==> s.workers[w] != Busy(i, l)) ensures HeldAt(s', i, l) {
      HeldFrame(s, s', i, l);
    }
  }

  lemma TakeStep(input: seq<string>, s: RState, w: nat)
    requires Inv(input, s) && RInv(input, s) && Enabled(input, s, Label<()>.Check(w)) && s.queue != []
    ensures RInv(input, Step(Reporting(), input, s, Check(w)))
  {
    TakeFrame(Reporting(), input, s, w);
    var s' := Step(Reporting(), input, s, Check(w));
    var i := Head(s);
    assert s'.workers[w] == Busy(i, Got(input[i]));
    assert HeldAt(s', i, Got(input[i]));
    KeepHeld(input, s, s', w);
    assert i !in s.shared.counted;
  }

  lemma PassStep(input: seq<string>, s: RState, w: nat)
    requires Inv(input, s) && RInv(input, s) && Enabled(input, s, Work(w, ()))
    requires s.workers[w].local == Got("")
    ensures RInv(input, Step(Reporting(), input, s, Work(w, ())))
  {
    var s' := Step(Reporting(), input, s, Work(w, ()));
    KeepHeld(input, s, s', w);
  }

  lemma CountStep(input: seq<string>, s: RState, w: nat)
    requires Inv(input, s) && RInv(input, s) && Enabled(input, s, Work(w, ()))
    requires s.workers[w].local.Got? && s.workers[w].local.line != ""
    ensures RInv(input, Step(Reporting(), input, s, Work(w, ())))
  {
    var s' := Step(Reporting(), input, s, Work(w, ()));
    var i := s.workers[w].task;
    KeepHeld(input, s, s', w);
    assert s'.workers[w] == Busy(i, Counted(input[i]));
    assert HeldAt(s', i, Counted(input[i]));
    OthersKeepInv(input, s, s', w);
  }

  lemma OthersKeepInv(input: seq<string>, s: RState, s': RState, w: nat)
    requires Inv(input, s) && w < |s.workers| && s.workers[w].Busy? && |s'.workers| == |s.workers|
    requires forall k :: 0 <= k < |s.workers| && s.workers[k].Busy? ==> WorkerInv(input, s.shared, s.workers[k])
    requires s'.shared.counted == s.shared.counted + {s.workers[w].task}
    requires forall k :: 0 <= k < |s.workers| && k != w ==> s'.workers[k] == s.workers[k]
    requires s'.workers[w].Busy? ==> WorkerInv(input, s'.shared, s'.workers[w])
    ensures forall k :: 0 <= k < |s'.workers| && s'.workers[k].Busy? ==> WorkerInv(input, s'.shared, s'.workers[k])
  {
  }

  lemma InsertStep(input: seq<string>, s: RState, w: nat)
    requires Inv(input, s) && RInv(input, s) && Enabled(input, s, Work(w, ())) && s.workers[w].local.Counted?
    ensures RInv(input, Step(Reporting(), input, s, Work(w, ())))
  {
    var s' := Step(Reporting(), input, s, Work(w, ()));
    KeepHeld(input, s, s', w);
    assert s.workers[w].task in s.shared.counted;
  }

  lemma StepReport(input: seq<string>, s: RState, a: Label<()>)
    requires Inv(input, s) && RInv(input, s) && Enabled(input, s, a)
    ensures RInv(input, Step(Reporting(), input, s, a))
  {
    if a.Work? {
      assert a.choice == ();
      if s.workers[a.w].local == Got("") {
        PassStep(input, s, a.w);
      } else if s.workers[a.w].local.Got? {
        CountStep(input, s, a.w);
      } else {
        InsertStep(input, s, a.w);
      }
    } else if Touches(s, a) {
      TakeStep(input, s, a.w);
    } else {
      OtherStep(input, s, a);
    }
  }

  lemma {:induction false} RunReport(input: seq<string>, s: RState, labels: seq<Label<()>>)
    requires Inv(input, s) && RInv(input, s) && Runs(Reporting(), input, s, labels)
    ensures RInv(input, After(Reporting(), input, s, labels))
    decreases labels
  {
    if labels != [] {
      StepReport(input, s, labels[0]);
      StepInv(Reporting(), input, s, labels[0]);
      RunReport(input, Step(Reporting(), input, s, labels[0]), labels[1..]);
    }
  }

  // ---------- the threaded report is the sequential one ----------

  ghost function NonEmpty(lines: seq<string>): set<nat> {
    set i | 0 <= i < |lines| && lines[i] != ""
  }

  lemma {:induction false} CountIsCard(lines: seq<string>)
    ensures Count(lines) == |NonEmpty(lines)|
    decreases |lines|
  {
    if lines != [] {
      var n := |lines| - 1;
      CountIsCard(lines[..n]);
      CountAppend(lines[..n], lines[n]);
      assert lines == lines[..n] + [lines[n]];
      var last: set<nat> := if lines[n] == "" then {} else {n};
      assert NonEmpty(lines) == NonEmpty(lines[..n]) + last;
    }
  }

  lemma {:induction false} CountAppend(lines: seq<string>, line: string)
    ensures Count(lines + [line]) == Count(lines) + (if line == "" then 0 else 1)
  {
    if lines == [] {
      assert ([] + [line])[1..] == [];
    } else {
      assert (lines + [line])[1..] == lines[1..] + [line];
      CountAppend(lines[1..], line);
    }
  }

  lemma {:induction false} EmailsAre(lines: seq<string>, e: string)
    ensures e in Emails(lines) <==> exists i :: 0 <= i < |lines| && lines[i] != "" && EmailOf(lines[i]) == Some(e)
  {
    if lines != [] {
      EmailsAre(lines[1..], e);
      if e in Emails(lines[1..]) {
        var i :| 0 <= i < |lines[1..]| && lines[1..][i] != "" && EmailOf(lines[1..][i]) == Some(e);
        assert lines[i + 1] == lines[1..][i];
      }
      if i :| 0 <= i < |lines| && lines[i] != "" && EmailOf(lines[i]) == Some(e) {
        if i > 0 {
          assert lines[1..][i - 1] == lines[i];
        }
      }
    }
  }

  function Fresh(n: nat): RState {
    Init(n, Totals(0, {}, {}))
  }

  lemma FreshInv(input: seq<string>, n: nat)
    ensures Inv(input, Fresh(n)) && RInv(input, Fresh(n)) && |Fresh(n).workers| == n
  {
    InitInv<string, Local, Totals>(input, n, Totals(0, {}, {}));
    assert Head(Fresh(n)) == 0;
    assert forall i :: 0 <= i < n ==> Fresh(n).workers[i] == Ready;
  }

  lemma Reached(input: seq<string>, n: nat, labels: seq<Label<()>>)
    requires Runs(Reporting(), input, Fresh(n), labels)
    ensures var s := After(Reporting(), input, Fresh(n), labels); Inv(input, s) && RInv(input, s) && |s.workers| == n
  {
    FreshInv(input, n);
    RunInv(Reporting(), input, Fresh(n), labels);
    RunReport(input, Fresh(n), labels);
    WorkersKept(Reporting(), input, Fresh(n), labels);
  }

  /** With at least one worker, every schedule that ends leaves the totals of the sequential loop, with each
      line that is not empty counted once. */
  lemma ThreadedIsSequential(input: seq<string>, n: nat, labels: seq<Label<()>>)
    requires n > 0 && Runs(Reporting(), input, Fresh(n), labels)
    requires Terminal(After(Reporting(), input, Fresh(n), labels))
    ensures var t := After(Reporting(), input, Fresh(n), labels).shared;
            && t.count == Count(input) && t.emails == Emails(input)
            && t.counted == NonEmpty(input)
  {
    var s := After(Reporting(), input, Fresh(n), labels);
    Reached(input, n, labels);
    TerminalDrained(input, s);
    FinalTotals(input, s);
  }

  lemma FinalTotals(input: seq<string>, s: RState)
    requires RInv(input, s) && Head(s) == |input|
    requires forall i :: 0 <= i < |s.workers| ==> !s.workers[i].Busy?
    ensures s.shared.counted == NonEmpty(input) && s.shared.count == Count(input) && s.shared.emails == Emails(input)
  {
    var t := s.shared;
    CountIsCard(input);
    FinalCounted(input, s);
    forall e ensures e in t.emails <==> e in Emails(input) {
      FinalEmail(input, s, e);
    }
  }

  lemma FinalCounted(input: seq<string>, s: RState)
    requires RInv(input, s) && Head(s) == |input|
    requires forall i :: 0 <= i < |s.workers| ==> !s.workers[i].Busy?
    ensures s.shared.counted == NonEmpty(input)
  {
  }

  lemma FinalEmail(input: seq<string>, s: RState, e: string)
    requires RInv(input, s) && Head(s) == |input| && s.shared.counted == NonEmpty(input)
    requires forall i :: 0 <= i < |s.workers| ==> !s.workers[i].Busy?
    ensures e in s.shared.emails <==> e in Emails(input)
  {
    EmailsAre(input, e);
    if e in Emails(input) {
      var i :| 0 <= i < |input| && input[i] != "" && EmailOf(input[i]) == Some(e);
      assert i in s.shared.counted;
    }
  }

  lemma ReportRanked()
    ensures Ranked(Reporting(), 1)
  {
  }

  /** Every schedule of a report ends: six steps for a line and two for a worker, spurious wake-ups aside. */
  lemma ReportBounded(input: seq<string>, n: nat, labels: seq<Label<()>>)
    requires Runs(Reporting(), input, Fresh(n), labels)
    ensures |labels| <= |input| * 6 + 2 * n + 3 + 2 * SpuriousCount(labels)
  {
    ReportRanked();
    ScheduleBounded(Reporting(), input, 1, n, Fresh(n), labels);
  }
}
