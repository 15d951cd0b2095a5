/** When thread timing can be seen in a parallel import: never with one worker, with two when a line held back
    lets in another that shares a key with it, with three or more when two eligible lines share a key. */
module ParallelTiming {
  import opened Text
  import opened Json
  import opened Model
  import opened WorkQueue
  import opened ParallelImport
  import opened Samples
  import opened Book

  // ---------- runs of the queue, put together ----------

  ghost predicate Reaches<T, L, S, C>(p: Program<T, L, S, C>, input: seq<T>, s: State<T, L, S>, labels: seq<Label<C>>, s': State<T, L, S>) {
    Runs(p, input, s, labels) && After(p, input, s, labels) == s'
  }

  lemma ReachStep<T, L, S, C>(p: Program<T, L, S, C>, input: seq<T>, s: State<T, L, S>, a: Label<C>,
                              labels: seq<Label<C>>, s': State<T, L, S>)
    requires Enabled(input, s, a) && Reaches(p, input, Step(p, input, s, a), labels, s')
    ensures Reaches(p, input, s, [a] + labels, s')
  {
    assert ([a] + labels)[1..] == labels;
  }

  lemma {:induction false} ReachConcat<T, L, S, C>(p: Program<T, L, S, C>, input: seq<T>, s: State<T, L, S>, a: seq<Label<C>>,
                                                   t: State<T, L, S>, b: seq<Label<C>>, u: State<T, L, S>)
    requires Reaches(p, input, s, a, t) && Reaches(p, input, t, b, u)
    ensures Reaches(p, input, s, a + b, u)
    decreases a
  {
    if a == [] {
      assert a + b == b;
    } else {
      ReachConcat(p, input, Step(p, input, s, a[0]), a[1..], t, b, u);
      ReachStep(p, input, s, a[0], a[1..] + b, u);
      assert [a[0]] + (a[1..] + b) == a + b;
    }
  }

  /** Any run can be carried on to its end. */
  lemma {:induction false} Complete<T(!new), L(!new), S(!new), C(!new)>(
      p: Program<T, L, S, C>, input: seq<T>, top: nat, s: State<T, L, S>, choice: C)
    returns (labels: seq<Label<C>>, s': State<T, L, S>)
    requires Inv(input, s) && Ranked(p, top)
    ensures Reaches(p, input, s, labels, s') && Terminal(s')
    decreases Left(p, input, top, s)
  {
    if Terminal(s) {
      labels, s' := [], s;
    } else {
      var a := NoDeadlock(input, s, choice);
      StepProgress(p, input, top, s, a);
      StepInv(p, input, s, a);
      var rest;
      rest, s' := Complete(p, input, top, Step(p, input, s, a), choice);
      ReachStep(p, input, s, a, rest, s');
      labels := [a] + rest;
    }
  }

  /** A worker that is ready takes the line just pushed. */
  lemma Take<T, L, S, C>(p: Program<T, L, S, C>, input: seq<T>, s: State<T, L, S>, w: nat) returns (labels: seq<Label<C>>)
    requires s.phase == Producing && s.queue == [] && s.next < |input| && w < |s.workers| && s.workers[w].Ready?
    requires forall i :: 0 <= i < |s.workers| ==> !s.workers[i].Waiting?
    ensures Reaches(p, input, s, labels, s.(next := s.next + 1, workers := s.workers[w := Busy(s.next, p.start(input[s.next]))]))
  {
    var s1 := Step(p, input, s, Label<C>.Push);
    assert s1.queue == [input[s.next]] && Enabled(input, s1, Label<C>.NotifyOne(None));
    var s2 := Step(p, input, s1, Label<C>.NotifyOne(None));
    assert Enabled(input, s2, Label<C>.Check(w)) && Head(s2) == s.next;
    var s3 := Step(p, input, s2, Label<C>.Check(w));
    ReachStep(p, input, s2, Label<C>.Check(w), [], s3);
    ReachStep(p, input, s1, Label<C>.NotifyOne(None), [Label<C>.Check(w)] + [], s3);
    labels := [Label<C>.Push] + ([Label<C>.NotifyOne(None)] + ([Label<C>.Check(w)] + []));
    ReachStep(p, input, s, Label<C>.Push, [Label<C>.NotifyOne(None)] + ([Label<C>.Check(w)] + []), s3);
  }

  // ---------- outcomes of an import ----------

  /** The lines appended do not depend on the schedule. */
  ghost predicate Determined(cfg: Config, input: seq<string>, n: nat) {
    forall a, s, v, b, t, w :: Outcome(cfg, input, n, a, s, v) && Outcome(cfg, input, n, b, t, w) ==> Positions(v) == Positions(w)
  }

  lemma StepChosen(cfg: Config, input: seq<string>, s: IState, a: Label<Stamp>)
    requires Enabled(input, s, a)
    ensures s.shared.chosen <= Step(Importing(cfg), input, s, a).shared.chosen
  {
  }

  lemma {:induction false} RunChosen(cfg: Config, input: seq<string>, s: IState, labels: seq<Label<Stamp>>)
    requires Runs(Importing(cfg), input, s, labels)
    ensures s.shared.chosen <= After(Importing(cfg), input, s, labels).shared.chosen
    decreases labels
  {
    if labels != [] {
      StepChosen(cfg, input, s, labels[0]);
      RunChosen(cfg, input, Step(Importing(cfg), input, s, labels[0]), labels[1..]);
    }
  }

  // ---------- the final sort ----------

  function Place(v: seq<(nat, Contact)>, x: (nat, Contact)): seq<(nat, Contact)> {
    if v == [] || x.0 < v[0].0 then [x] + v else [v[0]] + Place(v[1..], x)
  }

  ghost predicate Rising(v: seq<(nat, Contact)>) {
    forall j, k :: 0 <= j < k < |v| ==> v[j].0 < v[k].0
  }

  lemma {:induction false} PlaceSame(v: seq<(nat, Contact)>, x: (nat, Contact))
    ensures multiset(Place(v, x)) == multiset(v) + multiset{x}
  {
    if v != [] && v[0].0 <= x.0 {
      PlaceSame(v[1..], x);
      assert v == [v[0]] + v[1..];
    }
  }

  lemma PlaceMember(v: seq<(nat, Contact)>, x: (nat, Contact), y: (nat, Contact))
    ensures y in Place(v, x) <==> y == x || y in v
  {
    PlaceSame(v, x);
    assert y in Place(v, x) <==> y in multiset(Place(v, x));
    assert y in v <==> y in multiset(v);
  }

  lemma RisingCons(x: (nat, Contact), v: seq<(nat, Contact)>)
    requires Rising(v) && forall y :: y in v ==> x.0 < y.0
    ensures Rising([x] + v)
  {
    assert forall k :: 0 <= k < |v| ==> v[k] in v;
  }

  lemma {:induction false} PlaceRises(v: seq<(nat, Contact)>, x: (nat, Contact))
    requires Rising(v) && forall y :: y in v ==> y.0 != x.0
    ensures Rising(Place(v, x))
  {
    if v != [] && v[0].0 <= x.0 {
      assert v[0] in v;
      PlaceRises(v[1..], x);
      forall y | y in Place(v[1..], x) ensures v[0].0 < y.0 {
        PlaceMember(v[1..], x, y);
      }
      RisingCons(v[0], Place(v[1..], x));
    }
  }

  lemma {:induction false} Sort(out: seq<(nat, Contact)>) returns (v: seq<(nat, Contact)>)
    requires forall j, k :: 0 <= j < k < |out| ==> out[j].0 != out[k].0
    ensures SortedOut(v, out)
    decreases |out|
  {
    if out == [] {
      v := [];
    } else {
      var n := |out| - 1;
      var w := Sort(out[..n]);
      forall y | y in w ensures y.0 != out[n].0 {
        SameElements(w, out[..n], y);
      }
      PlaceRises(w, out[n]);
      PlaceSame(w, out[n]);
      v := Place(w, out[n]);
      assert out == out[..n] + [out[n]];
    }
  }

  lemma Ending(cfg: Config, input: seq<string>, n: nat, labels: seq<Label<Stamp>>, s: IState, j: nat)
    returns (v: seq<(nat, Contact)>)
    requires n > 0 && Reaches(Importing(cfg), input, Fresh(cfg, n), labels, s) && Terminal(s) && j in s.shared.chosen
    ensures Outcome(cfg, input, n, labels, s, v) && j in Positions(v)
  {
    Reached(cfg, input, n, Fresh(cfg, n), labels, s);
    v := Sort(s.shared.out);
    EverySchedule(cfg, input, n, labels, s, v);
    PositionsAre(cfg, input, s.shared.chosen, v);
  }

  /** Two appended lines share no key. */
  lemma NotBoth(cfg: Config, input: seq<string>, n: nat, labels: seq<Label<Stamp>>, s: IState, v: seq<(nat, Contact)>, i: nat, j: nat)
    requires n > 0 && Outcome(cfg, input, n, labels, s, v) && i in Positions(v) && j in Positions(v) && i != j
    ensures Valid(cfg, input, i) && Valid(cfg, input, j) && !Clash(cfg, input, i, j)
  {
    EverySchedule(cfg, input, n, labels, s, v);
    PositionsAre(cfg, input, s.shared.chosen, v);
  }

  // ---------- schedules that hold lines back ----------

  predicate Distinct(a: seq<nat>) {
    forall i, j :: 0 <= i < j < |a| ==> a[i] != a[j]
  }

  /** What worker `w` does while the lines in `held` are held back and the first `k` lines are taken: worker 0
      works the other lines off, and each of the next workers sits on a line held. */
  function Holder(input: seq<string>, held: seq<nat>, k: nat, w: nat): Worker<Local>
    requires k <= |input|
  {
    if 0 < w <= |held| && held[w - 1] < k then Busy(held[w - 1], Line(input[held[w - 1]])) else Ready
  }

  /** The first `k` lines are taken, those in `held` are not worked on yet, and the others are done with. */
  ghost predicate Poised(cfg: Config, input: seq<string>, n: nat, held: seq<nat>, k: nat, s: IState) {
    && k <= |input| && Inv(input, s) && IInv(cfg, input, s)
    && s.phase == Producing && s.next == k && s.queue == [] && |s.workers| == n
    && (forall w :: 0 <= w < n ==> s.workers[w] == Holder(input, held, k, w))
    && (forall i: nat :: i in s.shared.chosen <==> i < k && Kept(cfg, input, held, i))
  }

  lemma StartPoised(cfg: Config, input: seq<string>, n: nat, held: seq<nat>)
    ensures Poised(cfg, input, n, held, 0, Fresh(cfg, n))
  {
    assert Runs(Importing(cfg), input, Fresh(cfg, n), []);
    Reached(cfg, input, n, Fresh(cfg, n), [], Fresh(cfg, n));
  }

  lemma {:induction false} ReachesInv(cfg: Config, input: seq<string>, s: IState, labels: seq<Label<Stamp>>, s': IState)
    requires Reaches(Importing(cfg), input, s, labels, s') && Inv(input, s) && IInv(cfg, input, s)
    ensures Inv(input, s') && IInv(cfg, input, s')
  {
    RunInv(Importing(cfg), input, s, labels);
    RunImport(cfg, input, s, labels);
  }

  /** The keys seen tell whether a line held back by nobody is kept. */
  lemma KeysTell(cfg: Config, input: seq<string>, t: Shared, held: seq<nat>, k: nat)
    requires ChosenOk(cfg, input, t) && k !in held
    requires forall i: nat :: i in t.chosen <==> i < k && Kept(cfg, input, held, i)
    ensures Kept(cfg, input, held, k) <==> Valid(cfg, input, k) && EKey(cfg, input, k) !in t.emails && PKey(cfg, input, k) !in t.phones
  {
    if Valid(cfg, input, k) && EKey(cfg, input, k) !in t.emails && PKey(cfg, input, k) !in t.phones {
      forall j: nat | j < k && Kept(cfg, input, held, j) ensures !Clash(cfg, input, j, k) {
        assert j in t.chosen;
      }
    }
  }

  /** A worker with a line works it off: it is chosen exactly when its keys have not been seen. */
  lemma WorkOff(cfg: Config, input: seq<string>, s: IState, w: nat, k: nat)
    returns (labels: seq<Label<Stamp>>, s': IState)
    requires w < |s.workers| && k < |input| && s.workers[w] == Busy(k, Line(input[k]))
    ensures Reaches(Importing(cfg), input, s, labels, s') && s' == s.(workers := s.workers[w := Ready], shared := s'.shared)
    ensures s'.shared.chosen ==
            if Valid(cfg, input, k) && EKey(cfg, input, k) !in s.shared.emails && PKey(cfg, input, k) !in s.shared.phones
            then s.shared.chosen + {k} else s.shared.chosen
  {
    var p, a: Label<Stamp> := Importing(cfg), Work(w, Stamp("", ""));
    var t := Step(p, input, s, a);
    if t.workers[w].Ready? {
      ReachStep(p, input, s, a, [], t);
      labels, s' := [a] + [], t;
    } else {
      s' := Step(p, input, t, a);
      assert s'.workers == s.workers[w := Ready];
      ReachStep(p, input, t, a, [], s');
      ReachStep(p, input, s, a, [a] + [], s');
      labels := [a] + ([a] + []);
    }
  }

  lemma HolderTakes(input: seq<string>, held: seq<nat>, k: nat, n: nat, h: nat, ws: seq<Worker<Local>>, ws': seq<Worker<Local>>)
    requires k < |input| && |ws| == n && Distinct(held) && |held| < n && h < |held| && held[h] == k
    requires forall w :: 0 <= w < n ==> ws[w] == Holder(input, held, k, w)
    requires ws' == ws[h + 1 := Busy(k, Line(input[k]))]
    ensures forall w :: 0 <= w < n ==> ws'[w] == Holder(input, held, k + 1, w)
  {
    forall w | 0 <= w < n ensures ws'[w] == Holder(input, held, k + 1, w) {
      assert 0 < w <= |held| && w != h + 1 ==> held[w - 1] != k;
    }
  }

  /** The next line is taken: by the worker that is to hold it. */
  lemma HoldNext(cfg: Config, input: seq<string>, n: nat, held: seq<nat>, k: nat, s: IState, h: nat)
    returns (labels: seq<Label<Stamp>>, s': IState)
    requires Poised(cfg, input, n, held, k, s) && k < |input| && Distinct(held) && |held| < n && h < |held| && held[h] == k
    ensures Reaches(Importing(cfg), input, s, labels, s') && Poised(cfg, input, n, held, k + 1, s')
  {
    labels := Take(Importing(cfg), input, s, h + 1);
    s' := s.(next := k + 1, workers := s.workers[h + 1 := Busy(k, Line(input[k]))]);
    ReachesInv(cfg, input, s, labels, s');
    HolderTakes(input, held, k, n, h, s.workers, s'.workers);
  }

  lemma WorkNext(cfg: Config, input: seq<string>, n: nat, held: seq<nat>, k: nat, s: IState)
    returns (labels: seq<Label<Stamp>>, s': IState)
    requires Poised(cfg, input, n, held, k, s) && k < |input| && |held| < n && k !in held
    ensures Reaches(Importing(cfg), input, s, labels, s') && Poised(cfg, input, n, held, k + 1, s')
  {
    var a := Take(Importing(cfg), input, s, 0);
    var t := s.(next := k + 1, workers := s.workers[0 := Busy(k, Line(input[k]))]);
    var b;
    b, s' := WorkOff(cfg, input, t, 0, k);
    labels := a + b;
    ReachConcat(Importing(cfg), input, s, a, t, b, s');
    ReachesInv(cfg, input, s, labels, s');
    WorkedOff(cfg, input, n, held, k, s, s');
  }

  lemma WorkedOff(cfg: Config, input: seq<string>, n: nat, held: seq<nat>, k: nat, s: IState, s': IState)
    requires Poised(cfg, input, n, held, k, s) && k < |input| && |held| < n && k !in held
    requires Inv(input, s') && IInv(cfg, input, s')
    requires s' == s.(next := k + 1, workers := s.workers[0 := Ready], shared := s'.shared)
    requires s'.shared.chosen ==
             if Valid(cfg, input, k) && EKey(cfg, input, k) !in s.shared.emails && PKey(cfg, input, k) !in s.shared.phones
             then s.shared.chosen + {k} else s.shared.chosen
    ensures Poised(cfg, input, n, held, k + 1, s')
  {
    ChosenNext(cfg, input, held, k, s.shared, s'.shared);
    HoldersNext(input, held, k, n, s.workers);
    assert s'.workers == s.workers;
  }

  lemma ChosenNext(cfg: Config, input: seq<string>, held: seq<nat>, k: nat, t: Shared, t': Shared)
    requires ChosenOk(cfg, input, t) && k !in held
    requires forall i: nat :: i in t.chosen <==> i < k && Kept(cfg, input, held, i)
    requires t'.chosen ==
             if Valid(cfg, input, k) && EKey(cfg, input, k) !in t.emails && PKey(cfg, input, k) !in t.phones
             then t.chosen + {k} else t.chosen
    ensures forall i: nat :: i in t'.chosen <==> i < k + 1 && Kept(cfg, input, held, i)
  {
    KeysTell(cfg, input, t, held, k);
  }

  lemma HoldersNext(input: seq<string>, held: seq<nat>, k: nat, n: nat, ws: seq<Worker<Local>>)
    requires k < |input| && |ws| == n && |held| < n && k !in held
    requires forall w :: 0 <= w < n ==> ws[w] == Holder(input, held, k, w)
    ensures ws[0] == Ready && forall w :: 0 <= w < n ==> ws[w] == Holder(input, held, k + 1, w)
  {
    forall w | 0 <= w < n ensures ws[w] == Holder(input, held, k + 1, w) {
      assert 0 < w <= |held| ==> held[w - 1] in held;
    }
  }

  lemma TakeNext(cfg: Config, input: seq<string>, n: nat, held: seq<nat>, k: nat, s: IState)
    returns (labels: seq<Label<Stamp>>, s': IState)
    requires Poised(cfg, input, n, held, k, s) && k < |input| && Distinct(held) && |held| < n
    ensures Reaches(Importing(cfg), input, s, labels, s') && Poised(cfg, input, n, held, k + 1, s')
  {
    if k in held {
      var h :| 0 <= h < |held| && held[h] == k;
      labels, s' := HoldNext(cfg, input, n, held, k, s, h);
    } else {
      labels, s' := WorkNext(cfg, input, n, held, k, s);
    }
  }

  lemma {:induction false} Advance(cfg: Config, input: seq<string>, n: nat, held: seq<nat>, start: IState, k: nat)
    returns (labels: seq<Label<Stamp>>, s: IState)
    requires k <= |input| && Distinct(held) && |held| < n && Poised(cfg, input, n, held, 0, start)
    ensures Reaches(Importing(cfg), input, start, labels, s) && Poised(cfg, input, n, held, k, s)
    decreases k
  {
    if k == 0 {
      labels, s := [], start;
    } else {
      var front, t := Advance(cfg, input, n, held, start, k - 1);
      labels, s := OneMore(cfg, input, n, held, start, front, t, k - 1);
    }
  }

  lemma OneMore(cfg: Config, input: seq<string>, n: nat, held: seq<nat>, start: IState, front: seq<Label<Stamp>>, t: IState, k: nat)
    returns (labels: seq<Label<Stamp>>, s: IState)
    requires k < |input| && Distinct(held) && |held| < n
    requires Reaches(Importing(cfg), input, start, front, t) && Poised(cfg, input, n, held, k, t)
    ensures Reaches(Importing(cfg), input, start, labels, s) && Poised(cfg, input, n, held, k + 1, s)
  {
    var more;
    more, s := TakeNext(cfg, input, n, held, k, t);
    labels := front + more;
    ReachConcat(Importing(cfg), input, start, front, t, more, s);
  }

  /** A line kept by a pass without the lines in `held` is appended under some schedule, if there is a worker
      for each of those and one more. */
  lemma SomeSchedule(cfg: Config, input: seq<string>, n: nat, held: seq<nat>, j: nat)
    returns (labels: seq<Label<Stamp>>, end: IState, v: seq<(nat, Contact)>)
    requires Distinct(held) && |held| < n && Kept(cfg, input, held, j)
    ensures Outcome(cfg, input, n, labels, end, v) && j in Positions(v)
  {
    StartPoised(cfg, input, n, held);
    var front, s := Advance(cfg, input, n, held, Fresh(cfg, n), j + 1);
    ImportRanked(cfg);
    var rest;
    rest, end := Complete(Importing(cfg), input, 1, s, Stamp("", ""));
    RunChosen(cfg, input, s, rest);
    ReachConcat(Importing(cfg), input, Fresh(cfg, n), front, s, rest, end);
    labels := front + rest;
    v := Ending(cfg, input, n, labels, end, j);
  }

  /** Two lines that clash, each kept by a pass without fewer lines than there are workers: timing shows. */
  lemma NotDetermined(cfg: Config, input: seq<string>, n: nat, a: seq<nat>, i: nat, b: seq<nat>, j: nat)
    requires Distinct(a) && |a| < n && Kept(cfg, input, a, i) && Distinct(b) && |b| < n && Kept(cfg, input, b, j)
    requires i != j && Clash(cfg, input, i, j)
    ensures !Determined(cfg, input, n)
  {
    var labels, s, v := SomeSchedule(cfg, input, n, a, i);
    var labels', s', v' := SomeSchedule(cfg, input, n, b, j);
    if Positions(v) == Positions(v') {
      NotBoth(cfg, input, n, labels, s, v, i, j);
    }
  }

  // ---------- three workers or more ----------

  /** No two eligible lines before `j` clash. */
  ghost predicate ClearBefore(cfg: Config, input: seq<string>, j: nat) {
    forall i: nat, k: nat :: Eligible(cfg, input, i) && Eligible(cfg, input, k) && i < k < j ==> !Clash(cfg, input, i, k)
  }

  lemma NotTwo(cfg: Config, input: seq<string>, j: nat, i: nat, k: nat)
    requires ClearBefore(cfg, input, j) && i < j && k < j && Eligible(cfg, input, i) && Eligible(cfg, input, k)
    requires i != k
    ensures !Clash(cfg, input, i, k)
  {
    if i < k {
      InOrder(cfg, input, j, i, k);
    } else {
      InOrder(cfg, input, j, k, i);
    }
  }

  lemma InOrder(cfg: Config, input: seq<string>, j: nat, i: nat, k: nat)
    requires ClearBefore(cfg, input, j) && i < k < j && Eligible(cfg, input, i) && Eligible(cfg, input, k)
    ensures !Clash(cfg, input, i, k)
  {
  }

  /** The one line before `j` with its address, and the one with its number, if there are such. */
  lemma EmailBlocker(cfg: Config, input: seq<string>, j: nat) returns (held: seq<nat>)
    requires Eligible(cfg, input, j) && ClearBefore(cfg, input, j)
    ensures |held| <= 1 && j !in held
    ensures forall i: nat :: i < j && Eligible(cfg, input, i) && EKey(cfg, input, i) == EKey(cfg, input, j) ==> i in held
  {
    held := [];
    if e: nat :| e < j && Eligible(cfg, input, e) && EKey(cfg, input, e) == EKey(cfg, input, j) {
      held := [e];
      forall i: nat | i < j && Eligible(cfg, input, i) && EKey(cfg, input, i) == EKey(cfg, input, j) ensures i == e {
        if i != e {
          NotTwo(cfg, input, j, i, e);
        }
      }
    }
  }

  lemma PhoneBlocker(cfg: Config, input: seq<string>, j: nat) returns (held: seq<nat>)
    requires Eligible(cfg, input, j) && ClearBefore(cfg, input, j)
    ensures |held| <= 1 && j !in held
    ensures forall i: nat :: i < j && Eligible(cfg, input, i) && PKey(cfg, input, i) == PKey(cfg, input, j) ==> i in held
  {
    held := [];
    if e: nat :| e < j && Eligible(cfg, input, e) && PKey(cfg, input, e) == PKey(cfg, input, j) {
      held := [e];
      forall i: nat | i < j && Eligible(cfg, input, i) && PKey(cfg, input, i) == PKey(cfg, input, j) ensures i == e {
        if i != e {
          NotTwo(cfg, input, j, i, e);
        }
      }
    }
  }

  lemma Joined(a: seq<nat>, b: seq<nat>) returns (c: seq<nat>)
    requires |a| <= 1 && |b| <= 1
    ensures Distinct(c) && |c| <= 2 && forall x :: x in c <==> x in a || x in b
  {
    c := if a == b then a else a + b;
  }

  /** The lines before `j` that clash with it: at most two, if those lines clash with none of each other. */
  lemma Blockers(cfg: Config, input: seq<string>, j: nat) returns (held: seq<nat>)
    requires Eligible(cfg, input, j) && ClearBefore(cfg, input, j)
    ensures Distinct(held) && |held| <= 2 && Past(cfg, input, held, j)
  {
    var e := EmailBlocker(cfg, input, j);
    var p := PhoneBlocker(cfg, input, j);
    held := Joined(e, p);
  }

  /** The lines before `j` that clash with it are held back. */
  ghost predicate Past(cfg: Config, input: seq<string>, held: seq<nat>, j: nat)
    requires Eligible(cfg, input, j)
  {
    j !in held && forall i: nat :: i < j && Eligible(cfg, input, i) && Clash(cfg, input, i, j) ==> i in held
  }

  /** A line is kept once the earlier ones that clash with it are held back. */
  lemma KeptPast(cfg: Config, input: seq<string>, held: seq<nat>, j: nat)
    requires Eligible(cfg, input, j) && Past(cfg, input, held, j)
    ensures Kept(cfg, input, held, j)
  {
  }

  /** With three workers, lines that clash show: so up to the first that clashes with an earlier one. */
  lemma {:induction false} NoneClash(cfg: Config, input: seq<string>, n: nat, j: nat)
    requires n >= 3 && Determined(cfg, input, n)
    ensures ClearBefore(cfg, input, j)
    decreases j
  {
    if j > 0 {
      NoneClash(cfg, input, n, j - 1);
      NextClear(cfg, input, n, j - 1);
    }
  }

  lemma NextClear(cfg: Config, input: seq<string>, n: nat, j: nat)
    requires n >= 3 && Determined(cfg, input, n) && ClearBefore(cfg, input, j)
    ensures ClearBefore(cfg, input, j + 1)
  {
    forall i: nat, k: nat | Eligible(cfg, input, i) && Eligible(cfg, input, k) && i < k < j + 1 ensures !Clash(cfg, input, i, k) {
      if k < j {
        InOrder(cfg, input, j, i, k);
      } else if Clash(cfg, input, i, k) {
        ShowsAt(cfg, input, n, i, k);
      }
    }
  }

  lemma ShowsAt(cfg: Config, input: seq<string>, n: nat, i: nat, j: nat)
    requires n >= 3 && ClearBefore(cfg, input, j)
    requires i < j && Eligible(cfg, input, i) && Eligible(cfg, input, j) && Clash(cfg, input, i, j)
    ensures !Determined(cfg, input, n)
  {
    var held := Blockers(cfg, input, j);
    KeptPast(cfg, input, held, j);
    KeptPast(cfg, input, [], i);
    NotDetermined(cfg, input, n, [], i, held, j);
  }

  /** With three workers or more, the lines appended are independent of the schedule exactly when no two
      eligible lines share a key. */
  lemma ThreeWorkers(cfg: Config, input: seq<string>, n: nat)
    requires n >= 3
    ensures Determined(cfg, input, n) <==> EligibleDistinct(cfg, input)
  {
    if EligibleDistinct(cfg, input) {
      forall a, s, v, b, t, w | Outcome(cfg, input, n, a, s, v) && Outcome(cfg, input, n, b, t, w)
        ensures Positions(v) == Positions(w)
      {
        ScheduleUnobservable(cfg, input, n, a, s, v);
        ScheduleUnobservable(cfg, input, n, b, t, w);
      }
    }
    if Determined(cfg, input, n) {
      NoneClash(cfg, input, n, |input|);
      forall i: nat, j: nat | Eligible(cfg, input, i) && Eligible(cfg, input, j) && i != j ensures !Clash(cfg, input, i, j) {
        assert i < j ==> !Clash(cfg, input, i, j);
        assert j < i ==> !Clash(cfg, input, j, i);
      }
    }
  }

  // ---------- one worker, and two ----------

  /** No kept line, when held back, lets in another that shares a key with it. */
  ghost predicate HoldingSafe(cfg: Config, input: seq<string>) {
    forall h: nat, j: nat :: Kept(cfg, input, [], h) && Kept(cfg, input, [h], j) ==> !Clash(cfg, input, h, j)
  }

  /** Then holding a kept line back changes nothing for the others. */
  lemma {:induction false} SameWithout(cfg: Config, input: seq<string>, h: nat, i: nat)
    requires HoldingSafe(cfg, input) && Kept(cfg, input, [], h) && i != h
    ensures Kept(cfg, input, [h], i) <==> Kept(cfg, input, [], i)
    decreases i
  {
    forall j: nat | j < i && j != h ensures Kept(cfg, input, [h], j) <==> Kept(cfg, input, [], j) {
      SameWithout(cfg, input, h, j);
    }
    if Kept(cfg, input, [h], i) {
      forall j: nat | j < i && Kept(cfg, input, [], j) ensures !Clash(cfg, input, j, i) {
        assert j != h ==> Kept(cfg, input, [h], j);
      }
    }
  }

  /** So a line that clashes with a kept one that is held back clashes with another kept before. */
  lemma AnotherBlocks(cfg: Config, input: seq<string>, h: nat, i: nat) returns (j: nat)
    requires HoldingSafe(cfg, input) && Kept(cfg, input, [], h) && Eligible(cfg, input, i) && i != h && Clash(cfg, input, h, i)
    ensures j < i && j != h && Kept(cfg, input, [], j) && Clash(cfg, input, j, i)
  {
    assert !Kept(cfg, input, [h], i);
    j :| j < i && Kept(cfg, input, [h], j) && Clash(cfg, input, j, i);
    SameWithout(cfg, input, h, j);
  }

  /** Few enough workers that what one holds cannot show. */
  ghost predicate Calm(cfg: Config, input: seq<string>, n: nat) {
    n <= 1 || (n == 2 && HoldingSafe(cfg, input))
  }

  /** The lines decided on so far are chosen as the sequential pass would. */
  ghost predicate Settled(cfg: Config, input: seq<string>, s: IState) {
    forall i: nat :: i in s.shared.chosen <==> i < Head(s) && !HasLine(s, i) && Kept(cfg, input, [], i)
  }

  /** A line kept is not with a worker, unless with the one other worker there is. */
  lemma TwoHold(cfg: Config, input: seq<string>, s: IState, w: nat, i: nat, j: nat)
    requires Inv(input, s) && w < |s.workers| <= 2 && s.workers[w].Busy? && s.workers[w].task == i
    requires HasLine(s, j) && j != i
    ensures |s.workers| == 2 && forall k :: HasLine(s, k) ==> k == i || k == j
  {
  }

  lemma KeysSettle(cfg: Config, input: seq<string>, s: IState, w: nat, i: nat)
    requires Inv(input, s) && IInv(cfg, input, s) && Settled(cfg, input, s) && Calm(cfg, input, |s.workers|)
    requires i < |input| && w < |s.workers| && s.workers[w] == Busy(i, Line(input[i]))
    ensures Kept(cfg, input, [], i) <==>
            Valid(cfg, input, i) && EKey(cfg, input, i) !in s.shared.emails && PKey(cfg, input, i) !in s.shared.phones
  {
    assert i !in s.shared.chosen;
    if Eligible(cfg, input, i) && !Kept(cfg, input, [], i) {
      var j: nat :| j < i && Kept(cfg, input, [], j) && Clash(cfg, input, j, i);
      if HasLine(s, j) {
        TwoHold(cfg, input, s, w, i, j);
        var k := AnotherBlocks(cfg, input, j, i);
        assert k in s.shared.chosen;
      } else {
        assert j in s.shared.chosen;
      }
    }
    if Kept(cfg, input, [], i) {
      forall j | j in s.shared.chosen ensures !Clash(cfg, input, j, i) {
        assert Kept(cfg, input, [], j) && j != i;
      }
    }
  }

  /** A worker that has worked on a line holds it no longer; the other lines stay where they are. */
  lemma LinesAfter(input: seq<string>, s: IState, s': IState, w: nat)
    requires Inv(input, s) && w < |s.workers| && s.workers[w].Busy? && |s'.workers| == |s.workers|
    requires forall k :: 0 <= k < |s.workers| && k != w ==> s'.workers[k] == s.workers[k]
    requires s'.workers[w].Busy? ==> s'.workers[w].local.Chosen?
    ensures forall k :: HasLine(s', k) <==> HasLine(s, k) && k != s.workers[w].task
    ensures HasLine(s, s.workers[w].task) <==> s.workers[w].local.Line?
  {
    KeepHeld(s, s', w);
  }

  lemma SettledWork(cfg: Config, input: seq<string>, s: IState, w: nat, stamp: Stamp)
    requires Inv(input, s) && IInv(cfg, input, s) && Settled(cfg, input, s) && Calm(cfg, input, |s.workers|)
    requires Enabled(input, s, Work(w, stamp))
    ensures Settled(cfg, input, Step(Importing(cfg), input, s, Work(w, stamp)))
  {
    var s' := Step(Importing(cfg), input, s, Work(w, stamp));
    LinesAfter(input, s, s', w);
    assert WorkerOk(cfg, input, s.shared, s.workers[w]);
    if s.workers[w].local.Line? {
      KeysSettle(cfg, input, s, w, s.workers[w].task);
    }
  }

  lemma SettledStep(cfg: Config, input: seq<string>, s: IState, a: Label<Stamp>)
    requires Inv(input, s) && IInv(cfg, input, s) && Settled(cfg, input, s) && Calm(cfg, input, |s.workers|)
    requires Enabled(input, s, a)
    ensures Settled(cfg, input, Step(Importing(cfg), input, s, a))
  {
    var s' := Step(Importing(cfg), input, s, a);
    if a.Work? {
      SettledWork(cfg, input, s, a.w, a.choice);
    } else if Touches(s, a) {
      TakeFrame(Importing(cfg), input, s, a.w);
      KeepHeld(s, s', a.w);
      assert s'.workers[a.w] == Busy(Head(s), Line(input[Head(s)]));
      assert HasLine(s', Head(s));
    } else {
      OthersFrame(Importing(cfg), input, s, a);
      KeepHeld(s, s', |s.workers|);
    }
  }

  lemma {:induction false} SettledRun(cfg: Config, input: seq<string>, s: IState, labels: seq<Label<Stamp>>)
    requires Inv(input, s) && IInv(cfg, input, s) && Settled(cfg, input, s) && Calm(cfg, input, |s.workers|)
    requires Runs(Importing(cfg), input, s, labels)
    ensures Settled(cfg, input, After(Importing(cfg), input, s, labels))
    decreases labels
  {
    if labels != [] {
      var s' := Step(Importing(cfg), input, s, labels[0]);
      SettledStep(cfg, input, s, labels[0]);
      StepImport(cfg, input, s, labels[0]);
      StepInv(Importing(cfg), input, s, labels[0]);
      WorkersKept(Importing(cfg), input, s, [labels[0]]);
      SettledRun(cfg, input, s', labels[1..]);
    }
  }

  /** With one worker, and with two where holding is safe, every schedule appends what the sequential pass keeps. */
  lemma CalmIsSequential(cfg: Config, input: seq<string>, n: nat, labels: seq<Label<Stamp>>, s: IState, v: seq<(nat, Contact)>)
    requires n > 0 && Calm(cfg, input, n) && Outcome(cfg, input, n, labels, s, v)
    ensures Positions(v) == Sequential(cfg, input, 0, cfg.emails, cfg.phones)
  {
    EverySchedule(cfg, input, n, labels, s, v);
    StartPoised(cfg, input, n, []);
    SettledRun(cfg, input, Fresh(cfg, n), labels);
    Reached(cfg, input, n, Fresh(cfg, n), labels, s);
    TerminalDrained(input, s);
    KeptResult(cfg, input, s.shared.chosen, v);
  }

  /** With one worker, every schedule appends what the sequential pass keeps, in the same order. */
  lemma OneWorker(cfg: Config, input: seq<string>, labels: seq<Label<Stamp>>, s: IState, v: seq<(nat, Contact)>)
    requires Outcome(cfg, input, 1, labels, s, v)
    ensures Positions(v) == Sequential(cfg, input, 0, cfg.emails, cfg.phones)
  {
    CalmIsSequential(cfg, input, 1, labels, s, v);
  }

  /** With two workers, the lines appended are independent of the schedule exactly when no kept line, held back,
      lets in another that shares a key with it; they are then those of the sequential pass. */
  lemma TwoWorkers(cfg: Config, input: seq<string>)
    ensures Determined(cfg, input, 2) <==> HoldingSafe(cfg, input)
  {
    if HoldingSafe(cfg, input) {
      forall a, s, v, b, t, w | Outcome(cfg, input, 2, a, s, v) && Outcome(cfg, input, 2, b, t, w)
        ensures Positions(v) == Positions(w)
      {
        CalmIsSequential(cfg, input, 2, a, s, v);
        CalmIsSequential(cfg, input, 2, b, t, w);
      }
    }
    if Determined(cfg, input, 2) {
      forall h: nat, j: nat | Kept(cfg, input, [], h) && Kept(cfg, input, [h], j) ensures !Clash(cfg, input, h, j) {
        if Clash(cfg, input, h, j) {
          NotDetermined(cfg, input, 2, [], h, [h], j);
        }
      }
    }
  }

  lemma ThirdDropped(cfg: Config, input: seq<string>, a: nat, b: nat, c: nat)
    requires a == 0 && b == 1 && c == 2 && |input| == 3
    requires Eligible(cfg, input, a) && Eligible(cfg, input, b) && Eligible(cfg, input, c)
    requires !Clash(cfg, input, a, b) && Clash(cfg, input, a, c) && Clash(cfg, input, b, c)
    ensures HoldingSafe(cfg, input)
  {
    KeptPast(cfg, input, [], a);
    KeptPast(cfg, input, [b], a);
    KeptPast(cfg, input, [], b);
    KeptPast(cfg, input, [a], b);
    forall h: nat, j: nat | Kept(cfg, input, [], h) && Kept(cfg, input, [h], j) ensures !Clash(cfg, input, h, j) {
      assert h != c && j != c;
    }
  }

  /** Two workers do not show all that three do: a line that shares its address with one line and its number
      with another is dropped while either of them is held back, but not while both are. */
  lemma ThirdWorkerShows(cfg: Config, input: seq<string>)
    requires |input| == 3 && Eligible(cfg, input, 0) && Eligible(cfg, input, 1) && Eligible(cfg, input, 2)
    requires !Clash(cfg, input, 0, 1)
    requires EKey(cfg, input, 2) == EKey(cfg, input, 0) && PKey(cfg, input, 2) == PKey(cfg, input, 1)
    ensures Determined(cfg, input, 2) && !Determined(cfg, input, 3)
  {
    assert !EligibleDistinct(cfg, input) by {
      assert Clash(cfg, input, 0, 2);
    }
    ThirdDropped(cfg, input, 0, 1, 2);
    TwoWorkers(cfg, input);
    ThreeWorkers(cfg, input, 3);
  }

  // ---------- a file on which the third worker shows ----------

  /** The lines of three contacts: the third has the address of the first and the number of the second. */
  function Clashing(a: Contact, b: Contact, c: Contact): seq<string> {
    [ContactLine(a), ContactLine(b), ContactLine(c)]
  }

  lemma PrintedEligible(cfg: Config, input: seq<string>, i: nat, c: Contact)
    requires i < |input| && input[i] == ContactLine(c) && Candidate(cfg, ContactLine(c)) == Some(c)
    requires cfg.emails == {} && cfg.phones == {}
    ensures Eligible(cfg, input, i) && EKey(cfg, input, i) == EmailKey(c) && PKey(cfg, input, i) == PhoneKey(c)
  {
  }

  lemma ClashingShows(cfg: Config, a: Contact, b: Contact, c: Contact)
    requires cfg.emails == {} && cfg.phones == {}
    requires forall x :: x in [a, b, c] ==> Candidate(cfg, ContactLine(x)) == Some(x)
    requires EmailKey(c) == EmailKey(a) != EmailKey(b) && PhoneKey(c) == PhoneKey(b) != PhoneKey(a)
    ensures Determined(cfg, Clashing(a, b, c), 2) && !Determined(cfg, Clashing(a, b, c), 3)
  {
    var input := Clashing(a, b, c);
    PrintedEligible(cfg, input, 0, a);
    PrintedEligible(cfg, input, 1, b);
    PrintedEligible(cfg, input, 2, c);
    ThirdWorkerShows(cfg, input);
  }

  lemma SampleCandidate(cfg: Config, id: string, letter: Letter, d: Digits, time: string, c: Contact)
    requires CleanStr(id) && CleanStr(time) && c == Sample(id, letter, d, time)
    requires !cfg.csv && |ContactLine(c)| <= cfg.maxRecord
    ensures Candidate(cfg, ContactLine(c)) == Some(c)
  {
    SampleValid(id, letter, d, time);
    PrintedCandidate(cfg, c);
  }

  /** Such a file, for any ids, digits and time: with an empty book and a large enough limit on the length of a line,
      two workers always append the same lines of it, and three do not. */
  lemma ThirdWorkerFile(cfg: Config, id: string, d: Digits, time: string, a: Contact, b: Contact, c: Contact)
    requires CleanStr(id) && CleanStr(time)
    requires a == Sample(id, 'a', d, time) && b == Sample(id, 'b', Other(d), time) && c == Sample(id, 'a', Other(d), time)
    requires cfg == Config(false, |ContactLine(a)| + |ContactLine(b)| + |ContactLine(c)|, {}, {})
    ensures Determined(cfg, Clashing(a, b, c), 2) && !Determined(cfg, Clashing(a, b, c), 3)
  {
    SampleCandidate(cfg, id, 'a', d, time, a);
    SampleCandidate(cfg, id, 'b', Other(d), time, b);
    SampleCandidate(cfg, id, 'a', Other(d), time, c);
    SamplesDiffer(id, 'a', Other(d), time, id, 'a', d, time);
    SamplesDiffer(id, 'b', Other(d), time, id, 'a', d, time);
    SamplesDiffer(id, 'a', Other(d), time, id, 'b', Other(d), time);
    ClashingShows(cfg, a, b, c);
  }
}
