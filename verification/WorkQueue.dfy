/** One producer, a queue under a lock with a condition variable, and workers: every schedule of the
    steps between lock operations. What a worker does with a task is a program given by the client. */
module WorkQueue {
  import opened Text

  /** What a worker does: how it starts on a task, and its next step on the shared state; a step that
      leaves no local state ends the task. `C` is what the environment supplies to a step. */
  datatype Program<!T, !L, !S, !C> = Program(start: T -> L, step: (S, nat, L, C) -> (S, Option<L>), rank: L -> nat)

  /** Where the producer is: reading, between a push and its notification, between setting the flag and
      notifying all, or through. Notifying inside the lock is the same with nothing in between. */
  datatype Phase = Producing | Notifying | Closing | Finished

  /** A worker that will take the lock, is asleep on the condition variable, works on a task, or left. */
  datatype Worker<L> = Ready | Waiting | Busy(task: nat, local: L) | Exited

  datatype State<T, L, S> = State(next: nat, queue: seq<T>, done: bool, phase: Phase, workers: seq<Worker<L>>, shared: S)

  datatype Label<C> =
    | Push
    | NotifyOne(woken: Option<nat>)
    | SetDone
    | NotifyAll
    | Check(w: nat)
    | Spurious(w: nat)
    | Work(w: nat, choice: C)

  function Init<T, L, S>(n: nat, shared: S): State<T, L, S> {
    State(0, [], false, Producing, seq(n, _ => Ready), shared)
  }

  /** The number of tasks taken so far; tasks are taken in input order. */
  function Head<T, L, S>(s: State<T, L, S>): int {
    s.next - |s.queue|
  }

  predicate Enabled<T, L, S, C>(input: seq<T>, s: State<T, L, S>, a: Label<C>) {
    match a
    case Push => s.phase == Producing && s.next < |input|
    case NotifyOne(w) =>
      s.phase == Notifying &&
      (match w
       case Some(i) => i < |s.workers| && s.workers[i].Waiting?
       case None => forall i :: 0 <= i < |s.workers| ==> !s.workers[i].Waiting?)
    case SetDone => s.phase == Producing && s.next >= |input|
    case NotifyAll => s.phase == Closing
    case Check(w) => w < |s.workers| && s.workers[w].Ready?
    case Spurious(w) => w < |s.workers| && s.workers[w].Waiting?
    case Work(w, _) => w < |s.workers| && s.workers[w].Busy?
  }

  function Wake<L>(ws: seq<Worker<L>>): (r: seq<Worker<L>>)
    ensures |r| == |ws| && forall i :: 0 <= i < |ws| ==> r[i] == if ws[i].Waiting? then Ready else ws[i]
  {
    seq(|ws|, i requires 0 <= i < |ws| => if ws[i].Waiting? then Ready else ws[i])
  }

  /** A worker with the lock: it takes the front task, or leaves when all is done, or goes to sleep. */
  function CheckStep<T, L, S, C>(p: Program<T, L, S, C>, s: State<T, L, S>, w: nat): State<T, L, S>
    requires w < |s.workers|
  {
    if s.queue != [] then
      s.(queue := s.queue[1..], workers := s.workers[w := Busy(if Head(s) >= 0 then Head(s) else 0, p.start(s.queue[0]))])
    else if s.done then s.(workers := s.workers[w := Exited])
    else s.(workers := s.workers[w := Waiting])
  }

  function WorkStep<T, L, S, C>(p: Program<T, L, S, C>, s: State<T, L, S>, w: nat, c: C): State<T, L, S>
    requires w < |s.workers| && s.workers[w].Busy?
  {
    var (shared, local) := p.step(s.shared, s.workers[w].task, s.workers[w].local, c);
    s.(shared := shared,
       workers := s.workers[w := if local.Some? then Busy(s.workers[w].task, local.value) else Ready])
  }

  function Step<T, L, S, C>(p: Program<T, L, S, C>, input: seq<T>, s: State<T, L, S>, a: Label<C>): State<T, L, S>
    requires Enabled(input, s, a)
  {
    match a
    case Push => s.(queue := s.queue + [input[s.next]], next := s.next + 1, phase := Notifying)
    case NotifyOne(w) => s.(phase := Producing, workers := if w.Some? then s.workers[w.value := Ready] else s.workers)
    case SetDone => s.(done := true, phase := Closing)
    case NotifyAll => s.(phase := Finished, workers := Wake(s.workers))
    case Check(w) => CheckStep(p, s, w)
    case Spurious(w) => s.(workers := s.workers[w := Ready])
    case Work(w, c) => WorkStep(p, s, w, c)
  }

  // ---------- the queue's own invariant ----------

  /** The queue is what has been pushed and not taken; the flag says that the input is exhausted. */
  ghost predicate QueueInv<T, L, S>(input: seq<T>, s: State<T, L, S>) {
    && |s.queue| <= s.next <= |input| && s.queue == input[s.next - |s.queue|..s.next]
    && (s.done <==> s.phase == Closing || s.phase == Finished) && (s.done ==> s.next == |input|)
  }

  /** Nobody sleeps through the end or leaves before it, and no task is with two workers. */
  ghost predicate WorkersInv<T, L, S>(s: State<T, L, S>) {
    && (s.phase == Finished ==> forall i :: 0 <= i < |s.workers| ==> !s.workers[i].Waiting?)
    && (forall i :: 0 <= i < |s.workers| && s.workers[i].Exited? ==> s.done && s.queue == [])
    && (forall i :: 0 <= i < |s.workers| && s.workers[i].Busy? ==> s.workers[i].task < Head(s))
    && (forall i, j :: 0 <= i < j < |s.workers| && s.workers[i].Busy? && s.workers[j].Busy? ==>
          s.workers[i].task != s.workers[j].task)
  }

  ghost predicate Inv<T, L, S>(input: seq<T>, s: State<T, L, S>) {
    QueueInv(input, s) && WorkersInv(s)
  }

  lemma InitInv<T, L, S>(input: seq<T>, n: nat, shared: S)
    ensures Inv(input, Init<T, L, S>(n, shared))
  {
    var s := Init<T, L, S>(n, shared);
    assert forall i :: 0 <= i < n ==> s.workers[i] == Ready;
  }

  lemma PushInv<T, L, S, C>(p: Program<T, L, S, C>, input: seq<T>, s: State<T, L, S>)
    requires Inv(input, s) && Enabled(input, s, Label<C>.Push)
    ensures Inv(input, Step(p, input, s, Push))
  {
    var q := s.queue + [input[s.next]];
    assert q == input[s.next + 1 - |q|..s.next + 1];
  }

  lemma CheckInv<T, L, S, C>(p: Program<T, L, S, C>, input: seq<T>, s: State<T, L, S>, w: nat)
    requires Inv(input, s) && Enabled(input, s, Label<C>.Check(w))
    ensures Inv(input, Step(p, input, s, Check(w)))
  {
    var s' := Step(p, input, s, Check(w));
    assert forall i :: 0 <= i < |s.workers| && i != w ==> s'.workers[i] == s.workers[i];
  }

  lemma WorkInv<T, L, S, C>(p: Program<T, L, S, C>, input: seq<T>, s: State<T, L, S>, w: nat, c: C)
    requires Inv(input, s) && Enabled(input, s, Work(w, c))
    ensures Inv(input, Step(p, input, s, Work(w, c)))
  {
    var s' := Step(p, input, s, Work(w, c));
    assert forall i :: 0 <= i < |s.workers| && i != w ==> s'.workers[i] == s.workers[i];
  }

  lemma WakeInv<T, L, S, C>(p: Program<T, L, S, C>, input: seq<T>, s: State<T, L, S>, a: Label<C>)
    requires Inv(input, s) && Enabled(input, s, a) && (a.NotifyOne? || a.NotifyAll? || a.SetDone? || a.Spurious?)
    ensures Inv(input, Step(p, input, s, a))
  {
    var s' := Step(p, input, s, a);
    assert forall i :: 0 <= i < |s.workers| ==> s'.workers[i] == s.workers[i] || (s.workers[i].Waiting? && s'.workers[i].Ready?);
  }

  lemma StepInv<T, L, S, C>(p: Program<T, L, S, C>, input: seq<T>, s: State<T, L, S>, a: Label<C>)
    requires Inv(input, s) && Enabled(input, s, a)
    ensures Inv(input, Step(p, input, s, a))
  {
    match a
    case Push => PushInv(p, input, s);
    case Check(w) => CheckInv(p, input, s, w);
    case Work(w, c) => WorkInv(p, input, s, w, c);
    case _ => WakeInv(p, input, s, a);
  }

  /** The steps that take a task or work on one; the others leave tasks and shared state alone. */
  predicate Touches<T, L, S, C>(s: State<T, L, S>, a: Label<C>) {
    a.Work? || (a.Check? && s.queue != [])
  }

  lemma OthersFrame<T, L, S, C>(p: Program<T, L, S, C>, input: seq<T>, s: State<T, L, S>, a: Label<C>)
    requires Inv(input, s) && Enabled(input, s, a) && !Touches(s, a)
    ensures var s' := Step(p, input, s, a);
            && s'.shared == s.shared && Head(s') == Head(s) && |s'.workers| == |s.workers|
            && forall i :: 0 <= i < |s.workers| ==>
                 (s'.workers[i].Busy? <==> s.workers[i].Busy?) && (s.workers[i].Busy? ==> s'.workers[i] == s.workers[i])
  {
  }

  /** Taking a task: the worker gets the next one in input order. */
  lemma TakeFrame<T, L, S, C>(p: Program<T, L, S, C>, input: seq<T>, s: State<T, L, S>, w: nat)
    requires Inv(input, s) && Enabled(input, s, Label<C>.Check(w)) && s.queue != []
    ensures var s' := Step(p, input, s, Check(w)); var i := Head(s);
            && 0 <= i < |input| && Head(s') == i + 1 && s'.shared == s.shared
            && s'.workers == s.workers[w := Busy(i, p.start(input[i]))]
  {
  }

  // ---------- no deadlock ----------

  predicate Terminal<T, L, S>(s: State<T, L, S>) {
    s.phase == Finished && forall i :: 0 <= i < |s.workers| ==> s.workers[i].Exited?
  }

  /** Whenever some thread is not through, a thread can take a step of its own: no wake-up is lost. */
  lemma NoDeadlock<T, L, S, C>(input: seq<T>, s: State<T, L, S>, choice: C) returns (a: Label<C>)
    requires Inv(input, s) && !Terminal(s)
    ensures Enabled(input, s, a) && !a.Spurious?
  {
    match s.phase
    case Producing => a := if s.next < |input| then Push else SetDone;
    case Notifying =>
      if w :| 0 <= w < |s.workers| && s.workers[w].Waiting? {
        a := NotifyOne(Some(w));
      } else {
        a := NotifyOne(None);
      }
    case Closing => a := NotifyAll;
    case Finished =>
      var w :| 0 <= w < |s.workers| && !s.workers[w].Exited?;
      a := if s.workers[w].Busy? then Work(w, choice) else Check(w);
  }

  /** When every thread is through and there is a worker, every task has been taken and finished. */
  lemma TerminalDrained<T, L, S>(input: seq<T>, s: State<T, L, S>)
    requires Inv(input, s) && Terminal(s)
    ensures |s.workers| > 0 ==> Head(s) == |input|
    ensures forall i :: 0 <= i < |s.workers| ==> !s.workers[i].Busy?
  {
    if |s.workers| > 0 {
      assert s.workers[0].Exited?;
    }
  }

  /** Without a worker the run ends with every task still in the queue. */
  lemma NoWorkers<T, L, S>(input: seq<T>, s: State<T, L, S>)
    requires Inv(input, s) && Terminal(s) && |s.workers| == 0
    ensures s.queue == input[Head(s)..]
  {
  }

  // ---------- termination ----------

  /** A program whose local rank falls with every step, from at most `top`. */
  ghost predicate Ranked<T(!new), L(!new), S(!new), C(!new)>(p: Program<T, L, S, C>, top: nat) {
    && (forall t :: p.rank(p.start(t)) <= top)
    && (forall s, i, l, c :: p.step(s, i, l, c).1.Some? ==> p.rank(p.step(s, i, l, c).1.value) < p.rank(l))
  }

  /** What is left for a worker: to look at the queue, or to finish its task and look again. */
  function WorkerLeft<T, L, S, C>(p: Program<T, L, S, C>, w: Worker<L>): nat {
    match w
    case Ready => 1
    case Busy(_, l) => p.rank(l) + 2
    case _ => 0
  }

  function WorkersLeft<T, L, S, C>(p: Program<T, L, S, C>, ws: seq<Worker<L>>): nat {
    if ws == [] then 0 else WorkerLeft(p, ws[0]) + WorkersLeft(p, ws[1..])
  }

  /** What the producer may still cause, for a given number of workers. */
  function PhaseLeft(ph: Phase, n: nat): nat {
    match ph
    case Producing => n + 3
    case Notifying => n + 5
    case Closing => n + 2
    case Finished => 0
  }

  /** `n` times `cost`. */
  function Times(n: nat, cost: nat): nat {
    if n == 0 then 0 else cost + Times(n - 1, cost)
  }

  /** A bound on the steps left, spurious wake-ups aside. */
  function Left<T, L, S, C>(p: Program<T, L, S, C>, input: seq<T>, top: nat, s: State<T, L, S>): nat
    requires s.next <= |input|
  {
    Times(|s.queue|, top + 2) + WorkersLeft(p, s.workers) + Times(|input| - s.next, top + 5) + PhaseLeft(s.phase, |s.workers|)
  }

  lemma {:induction false} WorkersLeftUpdate<T, L, S, C>(p: Program<T, L, S, C>, ws: seq<Worker<L>>, w: nat, x: Worker<L>)
    requires w < |ws|
    ensures WorkersLeft(p, ws[w := x]) == WorkersLeft(p, ws) - WorkerLeft(p, ws[w]) + WorkerLeft(p, x)
  {
    if w == 0 {
      assert ws[0 := x][1..] == ws[1..];
    } else {
      assert ws[w := x][1..] == ws[1..][w - 1 := x];
      WorkersLeftUpdate(p, ws[1..], w - 1, x);
    }
  }

  lemma {:induction false} WakeLeft<T, L, S, C>(p: Program<T, L, S, C>, ws: seq<Worker<L>>)
    ensures WorkersLeft(p, Wake(ws)) <= WorkersLeft(p, ws) + |ws|
  {
    if ws != [] {
      assert Wake(ws)[1..] == Wake(ws[1..]);
      WakeLeft(p, ws[1..]);
    }
  }

  /** Every step but a spurious wake-up brings the run closer to its end. */
  lemma StepProgress<T(!new), L(!new), S(!new), C(!new)>(p: Program<T, L, S, C>, input: seq<T>, top: nat, s: State<T, L, S>, a: Label<C>)
    requires Inv(input, s) && Enabled(input, s, a) && Ranked(p, top)
    ensures Step(p, input, s, a).next <= |input|
    ensures Left(p, input, top, Step(p, input, s, a)) <= Left(p, input, top, s) + (if a.Spurious? then 1 else -1)
  {
    match a
    case Check(w) => CheckProgress(p, input, top, s, w);
    case Work(w, c) => WorkProgress(p, input, top, s, w, c);
    case NotifyAll => WakeLeft(p, s.workers);
    case NotifyOne(w) =>
      if w.Some? {
        WorkersLeftUpdate(p, s.workers, w.value, Ready);
      }
    case Spurious(w) => WorkersLeftUpdate(p, s.workers, w, Ready);
    case _ =>
  }

  lemma WorkProgress<T(!new), L(!new), S(!new), C(!new)>(p: Program<T, L, S, C>, input: seq<T>, top: nat, s: State<T, L, S>, w: nat, c: C)
    requires Inv(input, s) && Enabled(input, s, Work(w, c)) && Ranked(p, top)
    ensures Left(p, input, top, WorkStep(p, s, w, c)) <= Left(p, input, top, s) - 1
  {
    var local := p.step(s.shared, s.workers[w].task, s.workers[w].local, c).1;
    WorkersLeftUpdate(p, s.workers, w, if local.Some? then Busy(s.workers[w].task, local.value) else Ready);
  }

  lemma CheckProgress<T(!new), L(!new), S(!new), C(!new)>(p: Program<T, L, S, C>, input: seq<T>, top: nat, s: State<T, L, S>, w: nat)
    requires Inv(input, s) && Enabled(input, s, Label<C>.Check(w)) && Ranked(p, top)
    ensures Left(p, input, top, CheckStep(p, s, w)) <= Left(p, input, top, s) - 1
  {
    WorkersLeftUpdate(p, s.workers, w, CheckStep(p, s, w).workers[w]);
  }

  // ---------- runs ----------

  predicate Runs<T, L, S, C>(p: Program<T, L, S, C>, input: seq<T>, s: State<T, L, S>, labels: seq<Label<C>>)
    decreases labels
  {
    labels == [] || (Enabled(input, s, labels[0]) && Runs(p, input, Step(p, input, s, labels[0]), labels[1..]))
  }

  function After<T, L, S, C>(p: Program<T, L, S, C>, input: seq<T>, s: State<T, L, S>, labels: seq<Label<C>>): State<T, L, S>
    requires Runs(p, input, s, labels)
    decreases labels
  {
    if labels == [] then s else After(p, input, Step(p, input, s, labels[0]), labels[1..])
  }

  lemma {:induction false} RunInv<T, L, S, C>(p: Program<T, L, S, C>, input: seq<T>, s: State<T, L, S>, labels: seq<Label<C>>)
    requires Inv(input, s) && Runs(p, input, s, labels)
    ensures Inv(input, After(p, input, s, labels))
    decreases labels
  {
    if labels != [] {
      StepInv(p, input, s, labels[0]);
      RunInv(p, input, Step(p, input, s, labels[0]), labels[1..]);
    }
  }

  lemma {:induction false} WorkersKept<T, L, S, C>(p: Program<T, L, S, C>, input: seq<T>, s: State<T, L, S>, labels: seq<Label<C>>)
    requires Runs(p, input, s, labels)
    ensures |After(p, input, s, labels).workers| == |s.workers|
    decreases labels
  {
    if labels != [] {
      WorkersKept(p, input, Step(p, input, s, labels[0]), labels[1..]);
    }
  }

  function SpuriousCount<C>(labels: seq<Label<C>>): nat {
    if labels == [] then 0 else (if labels[0].Spurious? then 1 else 0) + SpuriousCount(labels[1..])
  }

  /** No schedule goes on for ever: its length is bounded by the work there is and its spurious wake-ups.
      With NoDeadlock, every schedule that cannot be extended has all threads through. */
  lemma {:induction false} RunBounded<T(!new), L(!new), S(!new), C(!new)>(
      p: Program<T, L, S, C>, input: seq<T>, top: nat, s: State<T, L, S>, labels: seq<Label<C>>)
    requires Inv(input, s) && Runs(p, input, s, labels) && Ranked(p, top)
    ensures |labels| <= Left(p, input, top, s) + 2 * SpuriousCount(labels)
    decreases labels
  {
    if labels != [] {
      StepProgress(p, input, top, s, labels[0]);
      StepInv(p, input, s, labels[0]);
      RunBounded(p, input, top, Step(p, input, s, labels[0]), labels[1..]);
    }
  }

  lemma {:induction false} ReadyLeft<T, L, S, C>(p: Program<T, L, S, C>, ws: seq<Worker<L>>)
    requires forall i :: 0 <= i < |ws| ==> ws[i].Ready?
    ensures WorkersLeft(p, ws) == |ws|
  {
    if ws != [] {
      ReadyLeft(p, ws[1..]);
    }
  }

  lemma {:induction false} TimesIs(n: nat, cost: nat)
    ensures Times(n, cost) == n * cost
  {
    if n > 0 {
      TimesIs(n - 1, cost);
    }
  }

  lemma InitLeft<T, L, S, C>(p: Program<T, L, S, C>, input: seq<T>, top: nat, n: nat, s: State<T, L, S>)
    requires s == Init(n, s.shared)
    ensures Left(p, input, top, s) == |input| * (top + 5) + 2 * n + 3
  {
    ReadyLeft(p, s.workers);
    TimesIs(|input|, top + 5);
  }

  /** From the start: so many steps for each line and each worker, and two for each spurious wake-up. */
  lemma ScheduleBounded<T(!new), L(!new), S(!new), C(!new)>(
      p: Program<T, L, S, C>, input: seq<T>, top: nat, n: nat, s: State<T, L, S>, labels: seq<Label<C>>)
    requires s == Init(n, s.shared) && Runs(p, input, s, labels) && Ranked(p, top)
    ensures |labels| <= |input| * (top + 5) + 2 * n + 3 + 2 * SpuriousCount(labels)
  {
    InitLeft(p, input, top, n, s);
    InitInv<T, L, S>(input, n, s.shared);
    RunBounded(p, input, top, s, labels);
  }
}
