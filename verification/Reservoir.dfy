/** Reservoir sampling of lines: the loop, and an exact count over all the draws it can make. */
module Reservoir {

  // ---------- the loop ----------

  /** `draws[k]` is the number drawn for the line at position `n + k`: one of `0..n + k`. */
  predicate Drawn(n: nat, draws: seq<nat>) {
    forall k :: 0 <= k < |draws| ==> draws[k] <= n + k
  }

  /** The positions in the reservoir after `n + |draws|` lines, slot by slot. */
  function Kept(n: nat, draws: seq<nat>): (r: seq<nat>)
    ensures |r| == n
    decreases |draws|
  {
    if draws == [] then seq(n, i => i)
    else
      var k := |draws| - 1;
      var before := Kept(n, draws[..k]);
      if draws[k] < n then before[draws[k] := n + k] else before
  }

  function NonEmpty(lines: seq<string>): seq<string> {
    if lines == [] then []
    else if lines[0] == "" then NonEmpty(lines[1..]) else [lines[0]] + NonEmpty(lines[1..])
  }

  function Pick(lines: seq<string>, at: seq<nat>): (r: seq<string>)
    requires forall i :: 0 <= i < |at| ==> at[i] < |lines|
    ensures |r| == |at| && forall i :: 0 <= i < |at| ==> r[i] == lines[at[i]]
  {
    seq(|at|, i requires 0 <= i < |at| => lines[at[i]])
  }

  /** The positions kept when `m` lines have been read: all of them until the reservoir is full. */
  function KeptOf(n: nat, m: nat, draws: seq<nat>): (r: seq<nat>)
    requires m <= n + |draws|
  {
    if m < n then seq(m, i => i) else Kept(n, draws[..m - n])
  }

  lemma {:induction false} KeptBounded(n: nat, draws: seq<nat>)
    ensures forall i :: 0 <= i < n ==> Kept(n, draws)[i] < n + |draws|
    decreases |draws|
  {
    if draws != [] {
      KeptBounded(n, draws[..|draws| - 1]);
    }
  }

  lemma KeptOfBounded(n: nat, m: nat, draws: seq<nat>)
    requires m <= n + |draws|
    ensures forall i :: 0 <= i < |KeptOf(n, m, draws)| ==> KeptOf(n, m, draws)[i] < m
  {
    if m >= n {
      KeptBounded(n, draws[..m - n]);
    }
  }

  /** The lines kept of those read. */
  function Reservoir(n: nat, ls: seq<string>, draws: seq<nat>): seq<string>
    requires |ls| <= n + |draws|
  {
    KeptOfBounded(n, |ls|, draws);
    Pick(ls, KeptOf(n, |ls|, draws))
  }

  lemma {:induction false} NonEmptyAppend(a: seq<string>, line: string)
    ensures NonEmpty(a + [line]) == NonEmpty(a) + if line == "" then [] else [line]
  {
    if a == [] {
      assert (a + [line])[1..] == [];
    } else {
      assert (a + [line])[1..] == a[1..] + [line];
      NonEmptyAppend(a[1..], line);
    }
  }

  lemma {:induction false} NonEmptyFewer(a: seq<string>, b: seq<string>)
    ensures |NonEmpty(a)| <= |NonEmpty(a + b)|
    decreases |b|
  {
    if b == [] {
      assert a + b == a;
    } else {
      NonEmptyAppend(a, b[0]);
      NonEmptyFewer(a + [b[0]], b[1..]);
      assert a + [b[0]] + b[1..] == a + b;
    }
  }

  /** A line more in a reservoir that is not full. */
  lemma FillSlot(n: nat, ls: seq<string>, line: string, draws: seq<nat>)
    requires |ls| < n
    ensures Reservoir(n, ls + [line], draws) == Reservoir(n, ls, draws) + [line]
  {
    KeptOfBounded(n, |ls| + 1, draws);
    assert draws[..0] == [];
    assert KeptOf(n, |ls| + 1, draws) == seq(|ls| + 1, i => i);
  }

  lemma KeptOfNext(n: nat, m: nat, draws: seq<nat>)
    requires n <= m < n + |draws|
    ensures |KeptOf(n, m, draws)| == n
    ensures var j, r := draws[m - n], KeptOf(n, m, draws);
            KeptOf(n, m + 1, draws) == if j < n then r[j := m] else r
  {
    var k := m - n;
    assert draws[..k + 1][..k] == draws[..k];
    assert Kept(n, draws[..k + 1]) == if draws[k] < n then Kept(n, draws[..k])[draws[k] := n + k] else Kept(n, draws[..k]);
  }

  lemma PickMore(ls: seq<string>, line: string, r: seq<nat>)
    requires forall i :: 0 <= i < |r| ==> r[i] < |ls|
    ensures Pick(ls + [line], r) == Pick(ls, r)
  {
  }

  lemma PickReplaced(ls: seq<string>, line: string, r: seq<nat>, j: nat)
    requires j < |r| && forall i :: 0 <= i < |r| ==> r[i] < |ls|
    ensures Pick(ls + [line], r[j := |ls|]) == Pick(ls, r)[j := line]
  {
    var a, b := Pick(ls + [line], r[j := |ls|]), Pick(ls, r)[j := line];
    forall i | 0 <= i < |r| ensures a[i] == b[i] {
    }
  }

  lemma PickNext(n: nat, ls: seq<string>, line: string, j: nat, r: seq<nat>, r': seq<nat>)
    requires |r| == n && (forall i :: 0 <= i < |r| ==> r[i] < |ls|) && r' == if j < n then r[j := |ls|] else r
    ensures forall i :: 0 <= i < |r'| ==> r'[i] < |ls + [line]|
    ensures Pick(ls + [line], r') == if j < n then Pick(ls, r)[j := line] else Pick(ls, r)
  {
    if j < n {
      PickReplaced(ls, line, r, j);
    } else {
      PickMore(ls, line, r);
    }
  }

  /** A line more in a full reservoir: it replaces the drawn slot, if there is such a slot. */
  lemma ReplaceSlot(n: nat, ls: seq<string>, line: string, draws: seq<nat>)
    requires n <= |ls| < n + |draws|
    ensures |Reservoir(n, ls, draws)| == n
    ensures var j := draws[|ls| - n];
            Reservoir(n, ls + [line], draws) == if j < n then Reservoir(n, ls, draws)[j := line] else Reservoir(n, ls, draws)
  {
    KeptOfBounded(n, |ls|, draws);
    KeptOfBounded(n, |ls| + 1, draws);
    KeptOfNext(n, |ls|, draws);
    PickNext(n, ls, line, draws[|ls| - n], KeptOf(n, |ls|, draws), KeptOf(n, |ls| + 1, draws));
  }

  lemma NextLine(n: nat, lines: seq<string>, i: nat, draws: seq<nat>)
    requires i < |lines| && |NonEmpty(lines)| <= n + |draws|
    ensures var ls, ls' := NonEmpty(lines[..i]), NonEmpty(lines[..i + 1]);
            ls' == (if lines[i] == "" then ls else ls + [lines[i]]) && |ls'| <= n + |draws|
  {
    assert lines[..i + 1] == lines[..i] + [lines[i]];
    NonEmptyAppend(lines[..i], lines[i]);
    NonEmptyFewer(lines[..i + 1], lines[i + 1..]);
    assert lines[..i + 1] + lines[i + 1..] == lines;
  }

  method Sample(lines: seq<string>, n: nat, draws: seq<nat>) returns (res: seq<string>, count: nat)
    requires |NonEmpty(lines)| <= n + |draws| && Drawn(n, draws)
    ensures count == |NonEmpty(lines)|
    ensures res == Reservoir(n, NonEmpty(lines), draws)
  {
    res, count := [], 0;
    ghost var ls: seq<string> := [];
    for i := 0 to |lines|
      invariant ls == NonEmpty(lines[..i]) && count == |ls| <= n + |draws|
      invariant res == Reservoir(n, ls, draws)
    {
      NextLine(n, lines, i, draws);
      if lines[i] != "" {
        if count < n {
          FillSlot(n, ls, lines[i], draws);
          res := res + [lines[i]];
        } else {
          ReplaceSlot(n, ls, lines[i], draws);
          var j := draws[count - n];
          if j < n {
            res := res[j := lines[i]];
          }
        }
        count := count + 1;
        ls := ls + [lines[i]];
      }
    }
    assert lines[..|lines|] == lines;
  }

  // ---------- the positions kept ----------

  lemma {:induction false} KeptDistinct(n: nat, draws: seq<nat>)
    ensures forall i, j :: 0 <= i < j < n ==> Kept(n, draws)[i] != Kept(n, draws)[j]
    decreases |draws|
  {
    if draws != [] {
      KeptDistinct(n, draws[..|draws| - 1]);
      KeptBounded(n, draws[..|draws| - 1]);
    }
  }

  /** Whatever is drawn, the sample holds `min(n, N)` lines, from as many different positions. */
  lemma SampleIsDistinct(n: nat, m: nat, draws: seq<nat>)
    requires m <= n + |draws|
    ensures var r := KeptOf(n, m, draws);
            && |r| == (if m < n then m else n)
            && (forall i :: 0 <= i < |r| ==> r[i] < m)
            && (forall i, j :: 0 <= i < j < |r| ==> r[i] != r[j])
  {
    KeptOfBounded(n, m, draws);
    if m >= n {
      KeptDistinct(n, draws[..m - n]);
    }
  }

  // ---------- counting ----------

  /** All the draws for `m` lines beyond the first `n`. */
  ghost function Choices(n: nat, m: nat): set<seq<nat>> {
    if m == 0 then {[]} else Extend(Choices(n, m - 1), n + m)
  }

  /** Every sequence of the set with every number below `k` after it. */
  ghost function Extend(a: set<seq<nat>>, k: nat): set<seq<nat>> {
    set c, j | c in a && j in Below(k) :: c + [j]
  }

  function Below(k: nat): (r: set<nat>)
    ensures forall j: nat :: j in r <==> j < k
  {
    if k == 0 then {} else Below(k - 1) + {k - 1}
  }

  /** Every sequence of the set with the number `j` after it. */
  ghost function Ending(a: set<seq<nat>>, j: nat): set<seq<nat>> {
    set c | c in a :: c + [j]
  }

  /** Two finite sets in one-to-one correspondence have the same size. */
  lemma {:induction false} SameSize<A, B>(a: set<A>, b: set<B>, f: A -> B)
    requires forall x :: x in a ==> f(x) in b
    requires forall x, y :: x in a && y in a && f(x) == f(y) ==> x == y
    requires forall z :: z in b ==> exists x :: x in a && f(x) == z
    ensures |a| == |b|
    decreases a
  {
    if a == {} {
      assert forall z :: z !in b;
      assert b == {};
    } else {
      var x :| x in a;
      SameSize(a - {x}, b - {f(x)}, f);
    }
  }

  lemma SameFront(x: seq<nat>, i: nat, y: seq<nat>, j: nat)
    requires x + [i] == y + [j]
    ensures x == y
  {
    assert (x + [i])[..|x|] == x && (y + [j])[..|y|] == y;
    assert |x + [i]| == |x| + 1 && |y + [j]| == |y| + 1;
  }

  lemma EndingSize(a: set<seq<nat>>, j: nat)
    ensures |Ending(a, j)| == |a|
  {
    var g := (c: seq<nat>) => c + [j];
    forall x, y | x in a && y in a && g(x) == g(y) ensures x == y {
      SameFront(x, j, y, j);
    }
    SameSize(a, Ending(a, j), g);
  }

  lemma EndingMember(a: set<seq<nat>>, j: nat, x: seq<nat>)
    ensures x in Ending(a, j) <==> x != [] && x[..|x| - 1] in a && x[|x| - 1] == j
  {
    if x in Ending(a, j) {
      var c :| c in a && x == c + [j];
      assert x[..|x| - 1] == c;
    }
    if x != [] && x[..|x| - 1] in a && x[|x| - 1] == j {
      assert x == x[..|x| - 1] + [x[|x| - 1]];
    }
  }

  lemma ExtendMember(a: set<seq<nat>>, k: nat, x: seq<nat>)
    ensures x in Extend(a, k) <==> x != [] && x[..|x| - 1] in a && x[|x| - 1] < k
  {
    if x in Extend(a, k) {
      var c, j :| c in a && j in Below(k) && x == c + [j];
      assert x[..|x| - 1] == c;
    }
    if x != [] && x[..|x| - 1] in a && x[|x| - 1] < k {
      assert x[|x| - 1] in Below(k);
      assert x == x[..|x| - 1] + [x[|x| - 1]];
    }
  }

  lemma {:induction false} ChoicesAre(n: nat, m: nat, c: seq<nat>)
    ensures c in Choices(n, m) <==> |c| == m && Drawn(n, c)
    decreases m
  {
    if m > 0 {
      ExtendMember(Choices(n, m - 1), n + m, c);
      if c != [] {
        ChoicesAre(n, m - 1, c[..|c| - 1]);
      }
    }
  }

  lemma ExtendNext(a: set<seq<nat>>, k: nat, x: seq<nat>)
    ensures x in Extend(a, k + 1) <==> x in Extend(a, k) || x in Ending(a, k)
    ensures !(x in Extend(a, k) && x in Ending(a, k))
  {
    ExtendMember(a, k + 1, x);
    ExtendMember(a, k, x);
    EndingMember(a, k, x);
  }

  lemma DisjointUnion<T>(a: set<T>, b: set<T>, c: set<T>)
    requires forall x :: x in c <==> x in a || x in b
    requires forall x :: !(x in a && x in b)
    ensures |c| == |a| + |b|
  {
    assert c == a + b && a !! b;
  }

  lemma ExtendGrows(a: set<seq<nat>>, k: nat)
    ensures |Extend(a, k + 1)| == |Extend(a, k)| + |a|
  {
    forall x: seq<nat> {
      ExtendNext(a, k, x);
    }
    DisjointUnion(Extend(a, k), Ending(a, k), Extend(a, k + 1));
    EndingSize(a, k);
  }

  /** Multiplication as repeated addition. */
  function Times(x: nat, k: nat): nat {
    if k == 0 then 0 else Times(x, k - 1) + x
  }

  lemma {:induction false} TimesIs(x: nat, k: nat)
    ensures Times(x, k) == x * k
  {
    if k > 0 {
      TimesIs(x, k - 1);
    }
  }

  lemma {:induction false} ExtendTimes(a: set<seq<nat>>, k: nat)
    ensures |Extend(a, k)| == Times(|a|, k)
    decreases k
  {
    if k == 0 {
      assert Extend(a, 0) == {};
    } else {
      ExtendTimes(a, k - 1);
      ExtendGrows(a, k - 1);
    }
  }

  lemma ExtendSize(a: set<seq<nat>>, k: nat)
    ensures |Extend(a, k)| == |a| * k
  {
    ExtendTimes(a, k);
    TimesIs(|a|, k);
  }

  // ---------- every line has the same chance ----------

  /** The draws that keep the line at position `p`. */
  ghost function Keeping(n: nat, m: nat, p: nat): set<seq<nat>> {
    set c | c in Choices(n, m) && p in Kept(n, c)
  }

  function Index(s: seq<nat>, p: nat): (i: nat)
    ensures p in s ==> i < |s| && s[i] == p
    ensures p !in s ==> i == |s|
  {
    if s == [] || s[0] == p then 0 else 1 + Index(s[1..], p)
  }

  lemma KeptNext(n: nat, x: seq<nat>)
    requires x != []
    ensures var c, j := x[..|x| - 1], x[|x| - 1];
            Kept(n, x) == if j < n then Kept(n, c)[j := n + |c|] else Kept(n, c)
  {
  }

  /** The newest line is kept exactly when a slot of the reservoir is drawn. */
  lemma NewestKept(n: nat, x: seq<nat>)
    requires x != []
    ensures n + |x| - 1 in Kept(n, x) <==> x[|x| - 1] < n
  {
    var c, j := x[..|x| - 1], x[|x| - 1];
    KeptNext(n, x);
    KeptBounded(n, c);
    if j < n {
      assert Kept(n, x)[j] == n + |c|;
    }
  }

  /** An older line is kept exactly when it was there and its slot is not drawn. */
  lemma OlderKept(n: nat, x: seq<nat>, p: nat)
    requires x != [] && p < n + |x| - 1
    ensures var c, j := x[..|x| - 1], x[|x| - 1];
            p in Kept(n, x) <==> p in Kept(n, c) && j != Index(Kept(n, c), p)
  {
    var c, j := x[..|x| - 1], x[|x| - 1];
    var r, i := Kept(n, c), Index(Kept(n, c), p);
    KeptNext(n, x);
    KeptDistinct(n, c);
    if p in r && j != i {
      assert Kept(n, x)[i] == p;
    }
  }

  lemma ChoicesStep(n: nat, m: nat, x: seq<nat>)
    requires m > 0
    ensures x in Choices(n, m) <==> x != [] && x[..|x| - 1] in Choices(n, m - 1) && x[|x| - 1] < n + m
    ensures x in Choices(n, m) ==> |x| == m
  {
    ExtendMember(Choices(n, m - 1), n + m, x);
    ChoicesAre(n, m, x);
  }

  lemma NewestMember(n: nat, m: nat, x: seq<nat>)
    requires m > 0
    ensures x in Keeping(n, m, n + m - 1) <==> x in Extend(Choices(n, m - 1), n)
  {
    ChoicesStep(n, m, x);
    ExtendMember(Choices(n, m - 1), n, x);
    if x != [] && x[..|x| - 1] in Choices(n, m - 1) {
      ChoicesAre(n, m - 1, x[..|x| - 1]);
      NewestKept(n, x);
    }
  }

  lemma SameSet<T>(a: set<T>, b: set<T>)
    requires forall x :: x in a <==> x in b
    ensures |a| == |b|
  {
    assert a == b;
  }

  lemma KeepingNewest(n: nat, m: nat)
    requires m > 0
    ensures |Keeping(n, m, n + m - 1)| == |Choices(n, m - 1)| * n
  {
    var kept, drawn := Keeping(n, m, n + m - 1), Extend(Choices(n, m - 1), n);
    forall x: seq<nat> ensures x in kept <==> x in drawn {
      NewestMember(n, m, x);
    }
    SameSet(kept, drawn);
    ExtendSize(Choices(n, m - 1), n);
  }

  /** The draws that throw the line at position `p` out at the last step. */
  ghost function Losing(n: nat, m: nat, p: nat): set<seq<nat>> {
    set c | c in Keeping(n, m, p) :: c + [Index(Kept(n, c), p)]
  }

  lemma LosingSize(n: nat, m: nat, p: nat)
    ensures |Losing(n, m, p)| == |Keeping(n, m, p)|
  {
    var g := (c: seq<nat>) => c + [Index(Kept(n, c), p)];
    forall x, y | g(x) == g(y) ensures x == y {
      SameFront(x, Index(Kept(n, x), p), y, Index(Kept(n, y), p));
    }
    SameSize(Keeping(n, m, p), Losing(n, m, p), g);
  }

  lemma LosingMember(n: nat, m: nat, p: nat, x: seq<nat>)
    ensures x in Losing(n, m, p) <==>
              x != [] && x[..|x| - 1] in Keeping(n, m, p) && x[|x| - 1] == Index(Kept(n, x[..|x| - 1]), p)
  {
    if x in Losing(n, m, p) {
      var c :| c in Keeping(n, m, p) && x == c + [Index(Kept(n, c), p)];
      assert x[..|x| - 1] == c;
    }
    if x != [] && x[..|x| - 1] in Keeping(n, m, p) && x[|x| - 1] == Index(Kept(n, x[..|x| - 1]), p) {
      assert x == x[..|x| - 1] + [x[|x| - 1]];
    }
  }

  lemma OlderSplit(n: nat, m: nat, p: nat, x: seq<nat>)
    requires m > 0 && p < n + m - 1
    ensures x in Extend(Keeping(n, m - 1, p), n + m) <==> x in Keeping(n, m, p) || x in Losing(n, m - 1, p)
    ensures !(x in Keeping(n, m, p) && x in Losing(n, m - 1, p))
  {
    ExtendMember(Keeping(n, m - 1, p), n + m, x);
    LosingMember(n, m - 1, p, x);
    ChoicesStep(n, m, x);
    if x != [] && x[..|x| - 1] in Choices(n, m - 1) {
      ChoicesAre(n, m - 1, x[..|x| - 1]);
      OlderKept(n, x, p);
    }
  }

  lemma OlderSizes(n: nat, m: nat, p: nat)
    requires m > 0 && p < n + m - 1
    ensures |Extend(Keeping(n, m - 1, p), n + m)| == |Keeping(n, m, p)| + |Losing(n, m - 1, p)|
  {
    forall x: seq<nat> {
      OlderSplit(n, m, p, x);
    }
    DisjointUnion(Keeping(n, m, p), Losing(n, m - 1, p), Extend(Keeping(n, m - 1, p), n + m));
  }

  lemma OlderSum(n: nat, m: nat, p: nat, s: nat)
    requires m > 0 && p < n + m - 1 && s == n + m
    ensures |Extend(Keeping(n, m - 1, p), s)| == |Keeping(n, m, p)| + |Keeping(n, m - 1, p)|
  {
    OlderSizes(n, m, p);
    LosingSize(n, m - 1, p);
  }

  lemma OlderTimes(n: nat, m: nat, p: nat, s: nat, t: nat)
    requires m > 0 && p < t && s == n + m && s == t + 1
    ensures |Keeping(n, m, p)| == |Keeping(n, m - 1, p)| * t
  {
    OlderSum(n, m, p, s);
    ExtendSize(Keeping(n, m - 1, p), s);
    LessOne(|Keeping(n, m, p)|, |Keeping(n, m - 1, p)|, s, t);
  }

  lemma KeepingOlder(n: nat, m: nat, p: nat)
    requires m > 0 && p < n + m - 1
    ensures |Keeping(n, m, p)| == |Keeping(n, m - 1, p)| * (n + m - 1)
  {
    OlderTimes(n, m, p, n + m, n + m - 1);
  }

  lemma LessOne(k: nat, a: nat, s: nat, t: nat)
    requires s == t + 1 && a * s == k + a
    ensures k == a * t
  {
    assert a * s == a * t + a;
  }

  lemma ChoicesSize(n: nat, m: nat)
    requires m > 0
    ensures |Choices(n, m)| == |Choices(n, m - 1)| * (n + m)
  {
    ExtendSize(Choices(n, m - 1), n + m);
  }

  lemma Proportion(k: nat, a: nat, c: nat, c': nat, n: nat, t: nat)
    requires k == a * t && a * t == n * c' && c == c' * (t + 1)
    ensures k * (t + 1) == n * c
  {
    assert n * c == n * (c' * (t + 1)) == (n * c') * (t + 1);
  }

  lemma ProportionNewest(k: nat, c: nat, c': nat, n: nat, t: nat)
    requires k == c' * n && c == c' * (t + 1)
    ensures k * (t + 1) == n * c
  {
    assert n * c == n * (c' * (t + 1)) == (n * c') * (t + 1);
  }

  lemma NothingDrawn(n: nat, p: nat)
    requires p < n
    ensures |Keeping(n, 0, p)| == 1 && |Choices(n, 0)| == 1
  {
    assert Kept(n, [])[p] == p;
    assert Keeping(n, 0, p) == {[]};
  }

  lemma NewestChance(n: nat, m: nat)
    requires m > 0
    ensures |Keeping(n, m, n + m - 1)| * (n + m) == n * |Choices(n, m)|
  {
    ChoicesSize(n, m);
    KeepingNewest(n, m);
    ProportionNewest(|Keeping(n, m, n + m - 1)|, |Choices(n, m)|, |Choices(n, m - 1)|, n, n + m - 1);
  }

  lemma OlderChance(n: nat, m: nat, p: nat)
    requires m > 0 && p < n + m - 1 && |Keeping(n, m - 1, p)| * (n + m - 1) == n * |Choices(n, m - 1)|
    ensures |Keeping(n, m, p)| * (n + m) == n * |Choices(n, m)|
  {
    ChoicesSize(n, m);
    KeepingOlder(n, m, p);
    Proportion(|Keeping(n, m, p)|, |Keeping(n, m - 1, p)|, |Choices(n, m)|, |Choices(n, m - 1)|, n, n + m - 1);
  }

  /** Sampling is exactly uniform: of all the draws for `N = n + m` lines, those that keep the line at any one
      position are `n` in `N`. */
  lemma {:induction false} EqualChance(n: nat, m: nat, p: nat)
    requires p < n + m
    ensures |Keeping(n, m, p)| * (n + m) == n * |Choices(n, m)|
    decreases m
  {
    if m == 0 {
      NothingDrawn(n, p);
    } else if p == n + m - 1 {
      NewestChance(n, m);
    } else {
      EqualChance(n, m - 1, p);
      OlderChance(n, m, p);
    }
  }

  // ---------- every sample has the same chance ----------

  function Factorial(k: nat): nat {
    if k == 0 then 1 else Factorial(k - 1) * k
  }

  function Elements(s: seq<nat>): set<nat> {
    set i | i in s
  }

  /** The draws after which the reservoir holds exactly the given positions. */
  ghost function Yielding(n: nat, m: nat, sample: set<nat>): set<seq<nat>> {
    set c | c in Choices(n, m) && Elements(Kept(n, c)) == sample
  }

  /** Replacing an element of a list without repetition. */
  lemma ReplaceElement(r: seq<nat>, j: nat, t: nat)
    requires j < |r| && forall i, k :: 0 <= i < k < |r| ==> r[i] != r[k]
    ensures Elements(r[j := t]) == Elements(r) - {r[j]} + {t}
  {
    assert r[j := t][j] == t;
    forall x ensures x in r[j := t] <==> (x in r && x != r[j]) || x == t {
      if x in r && x != r[j] {
        var i :| 0 <= i < |r| && r[i] == x;
        assert r[j := t][i] == x;
      }
    }
  }

  lemma KeptElements(n: nat, x: seq<nat>)
    requires x != []
    ensures var r, j := Kept(n, x[..|x| - 1]), x[|x| - 1];
            Elements(Kept(n, x)) == if j < n then Elements(r) - {r[j]} + {n + |x| - 1} else Elements(r)
    ensures n + |x| - 1 !in Elements(Kept(n, x[..|x| - 1]))
  {
    var c, j := x[..|x| - 1], x[|x| - 1];
    KeptNext(n, x);
    KeptDistinct(n, c);
    KeptBounded(n, c);
    if j < n {
      ReplaceElement(Kept(n, c), j, n + |c|);
    }
  }

  // ----- a sample without the newest line

  lemma SameSample(n: nat, m: nat, sample: set<nat>, x: seq<nat>)
    requires m > 0 && n + m - 1 !in sample
    ensures x in Yielding(n, m, sample) <==>
              x != [] && x[..|x| - 1] in Yielding(n, m - 1, sample) && n <= x[|x| - 1] < n + m
  {
    ChoicesStep(n, m, x);
    if x != [] && x[..|x| - 1] in Choices(n, m - 1) {
      ChoicesAre(n, m - 1, x[..|x| - 1]);
      KeptElements(n, x);
    }
  }

  lemma WithoutNewest(n: nat, m: nat, sample: set<nat>, x: seq<nat>)
    requires m > 0 && n + m - 1 !in sample
    ensures x in Extend(Yielding(n, m - 1, sample), n + m) <==>
              x in Extend(Yielding(n, m - 1, sample), n) || x in Yielding(n, m, sample)
    ensures !(x in Extend(Yielding(n, m - 1, sample), n) && x in Yielding(n, m, sample))
  {
    ExtendMember(Yielding(n, m - 1, sample), n + m, x);
    ExtendMember(Yielding(n, m - 1, sample), n, x);
    SameSample(n, m, sample, x);
  }

  lemma WithoutNewestSizes(n: nat, m: nat, sample: set<nat>)
    requires m > 0 && n + m - 1 !in sample
    ensures |Extend(Yielding(n, m - 1, sample), n + m)| == |Extend(Yielding(n, m - 1, sample), n)| + |Yielding(n, m, sample)|
  {
    var y := Yielding(n, m - 1, sample);
    forall x: seq<nat> {
      WithoutNewest(n, m, sample, x);
    }
    DisjointUnion(Extend(y, n), Yielding(n, m, sample), Extend(y, n + m));
  }

  lemma WithoutNewestSize(n: nat, m: nat, sample: set<nat>)
    requires m > 0 && n + m - 1 !in sample
    ensures |Yielding(n, m, sample)| == |Yielding(n, m - 1, sample)| * m
  {
    var y := Yielding(n, m - 1, sample);
    WithoutNewestSizes(n, m, sample);
    ExtendSize(y, n + m);
    ExtendSize(y, n);
    LessMany(|Yielding(n, m, sample)|, |y|, n, m);
  }

  lemma LessMany(k: nat, a: nat, n: nat, m: nat)
    requires a * (n + m) == a * n + k
    ensures k == a * m
  {
  }

  // ----- a sample with the newest line

  /** The draws before the last that leave the older lines of the sample and one line `q` more. */
  ghost function Before(n: nat, m: nat, older: set<nat>): nat -> set<seq<nat>> {
    q => Yielding(n, m, older + {q})
  }

  ghost function Union(qs: set<nat>, f: nat -> set<seq<nat>>): set<seq<nat>> {
    set q, c | q in qs && c in f(q) :: c
  }

  lemma UnionSplit(qs: set<nat>, q: nat, f: nat -> set<seq<nat>>)
    requires q in qs
    requires forall p, r, c :: p in qs && r in qs && c in f(p) && c in f(r) ==> p == r
    ensures |Union(qs, f)| == |Union(qs - {q}, f)| + |f(q)|
  {
    DisjointUnion(Union(qs - {q}, f), f(q), Union(qs, f));
  }

  lemma {:induction false} UnionSize(qs: set<nat>, f: nat -> set<seq<nat>>, size: nat)
    requires forall q :: q in qs ==> |f(q)| == size
    requires forall p, q, c :: p in qs && q in qs && c in f(p) && c in f(q) ==> p == q
    ensures |Union(qs, f)| == Times(size, |qs|)
    decreases qs
  {
    if qs == {} {
      assert Union(qs, f) == {};
    } else {
      var q :| q in qs;
      UnionSize(qs - {q}, f, size);
      UnionSplit(qs, q, f);
    }
  }

  /** The lines that may be the one replaced. */
  ghost function Replaceable(n: nat, m: nat, older: set<nat>): set<nat>
    requires m > 0
  {
    Below(n + m - 1) - older
  }

  lemma OneAdded(a: set<nat>, x: nat)
    requires x !in a
    ensures |a + {x}| == |a| + 1
  {
  }

  lemma {:induction false} BelowSize(k: nat)
    ensures |Below(k)| == k
  {
    if k > 0 {
      BelowSize(k - 1);
      OneAdded(Below(k - 1), k - 1);
    }
  }

  lemma Without(a: set<nat>, b: set<nat>)
    requires b <= a
    ensures |a - b| == |a| - |b|
  {
  }

  lemma ReplaceableSize(n: nat, m: nat, older: set<nat>)
    requires m > 0 && n == |older| + 1 && forall x :: x in older ==> x < n + m - 1
    ensures |Replaceable(n, m, older)| == m
  {
    BelowSize(n + m - 1);
    Without(Below(n + m - 1), older);
  }

  /** The last draw replaces the one line that is not in the sample. */
  lemma WithNewest(n: nat, m: nat, older: set<nat>, x: seq<nat>)
    requires m > 0 && x in Yielding(n, m, older + {n + m - 1}) && n + m - 1 !in older
    ensures x != [] && x[|x| - 1] < n
    ensures var r, j := Kept(n, x[..|x| - 1]), x[|x| - 1];
            r[j] in Replaceable(n, m, older) && x[..|x| - 1] in Yielding(n, m - 1, older + {r[j]})
  {
    ChoicesStep(n, m, x);
    KeptElements(n, x);
    var r, j, t := Kept(n, x[..|x| - 1]), x[|x| - 1], n + m - 1;
    assert t in Elements(Kept(n, x));
    assert j < n;
    assert Elements(r) - {r[j]} + {t} == older + {t};
    OneApart(Elements(r), r[j], t, older);
    KeptBounded(n, x[..|x| - 1]);
    ChoicesAre(n, m - 1, x[..|x| - 1]);
  }

  lemma OneApart(e: set<nat>, q: nat, t: nat, older: set<nat>)
    requires q in e && t !in e && t !in older && e - {q} + {t} == older + {t}
    ensures q !in older && e == older + {q}
  {
    forall x ensures x in e <==> x in older || x == q {
      assert x in e - {q} + {t} <==> x in older + {t};
    }
    assert q in e - {q} + {t} <==> q in older + {t};
  }

  /** The same draws before the last and the same sample: the last draw is the same too. */
  lemma LastDrawKnown(n: nat, m: nat, older: set<nat>, x: seq<nat>, y: seq<nat>)
    requires m > 0 && n + m - 1 !in older
    requires x in Yielding(n, m, older + {n + m - 1}) && y in Yielding(n, m, older + {n + m - 1})
    requires x != [] && y != [] && x[..|x| - 1] == y[..|y| - 1]
    ensures x == y
  {
    WithNewest(n, m, older, x);
    WithNewest(n, m, older, y);
    var c := x[..|x| - 1];
    var r := Kept(n, c);
    var i, j := x[|x| - 1], y[|y| - 1];
    assert older + {r[i]} == older + {r[j]};
    assert r[i] in older + {r[j]};
    KeptDistinct(n, c);
    assert x == c + [i] && y == c + [j];
  }

  lemma Swap(e: set<nat>, older: set<nat>, q: nat, t: nat)
    requires e == older + {q} && q !in older
    ensures e - {q} + {t} == older + {t}
  {
  }

  /** Every draw of `q`'s slot gives the sample. */
  lemma DrawSlot(n: nat, m: nat, older: set<nat>, q: nat, c: seq<nat>)
    requires m > 0 && q in Replaceable(n, m, older) && c in Yielding(n, m - 1, older + {q})
    ensures c + [Index(Kept(n, c), q)] in Yielding(n, m, older + {n + m - 1})
  {
    ChoicesAre(n, m - 1, c);
    SlotOf(n, c, older, q);
    SlotDrawn(n, m, c, Index(Kept(n, c), q));
    SlotReplaced(n, m, older, q, c, Index(Kept(n, c), q));
  }

  lemma SlotDrawn(n: nat, m: nat, c: seq<nat>, j: nat)
    requires m > 0 && j < n && c in Choices(n, m - 1)
    ensures c + [j] in Choices(n, m)
  {
    var x := c + [j];
    assert x[..|x| - 1] == c && x[|x| - 1] == j;
    ChoicesStep(n, m, x);
  }

  lemma SlotReplaced(n: nat, m: nat, older: set<nat>, q: nat, c: seq<nat>, j: nat)
    requires m > 0 && |c| == m - 1 && j < n && Kept(n, c)[j] == q && q !in older && Elements(Kept(n, c)) == older + {q}
    ensures Elements(Kept(n, c + [j])) == older + {n + m - 1}
  {
    var x := c + [j];
    assert x[..|x| - 1] == c && x[|x| - 1] == j;
    KeptElements(n, x);
    Swap(Elements(Kept(n, c)), older, q, n + m - 1);
  }

  lemma SlotOf(n: nat, c: seq<nat>, older: set<nat>, q: nat)
    requires Elements(Kept(n, c)) == older + {q}
    ensures Index(Kept(n, c), q) < n && Kept(n, c)[Index(Kept(n, c), q)] == q
  {
    assert q in Elements(Kept(n, c));
  }

  function Front(x: seq<nat>): seq<nat> {
    if x == [] then [] else x[..|x| - 1]
  }

  lemma WithNewestIsUnion(n: nat, m: nat, older: set<nat>)
    requires m > 0 && n + m - 1 !in older
    ensures |Yielding(n, m, older + {n + m - 1})| == |Union(Replaceable(n, m, older), Before(n, m - 1, older))|
  {
    var y, u := Yielding(n, m, older + {n + m - 1}), Union(Replaceable(n, m, older), Before(n, m - 1, older));
    forall x | x in y ensures x != [] && Front(x) in u {
      WithNewest(n, m, older, x);
      var q := Kept(n, Front(x))[x[|x| - 1]];
      assert Front(x) in Before(n, m - 1, older)(q);
    }
    forall x, x' | x in y && x' in y && Front(x) == Front(x') ensures x == x' {
      LastDrawKnown(n, m, older, x, x');
    }
    forall c | c in u ensures exists x :: x in y && Front(x) == c {
      var q :| q in Replaceable(n, m, older) && c in Before(n, m - 1, older)(q);
      DrawSlot(n, m, older, q, c);
      assert Front(c + [Index(Kept(n, c), q)]) == c;
    }
    SameSize(y, u, Front);
  }

  lemma WithNewestSize(n: nat, m: nat, older: set<nat>, size: nat)
    requires m > 0 && n == |older| + 1 && forall x :: x in older ==> x < n + m - 1
    requires forall q :: q in Replaceable(n, m, older) ==> |Yielding(n, m - 1, older + {q})| == size
    ensures |Yielding(n, m, older + {n + m - 1})| == size * m
  {
    var f, qs := Before(n, m - 1, older), Replaceable(n, m, older);
    WithNewestIsUnion(n, m, older);
    ReplaceableSize(n, m, older);
    forall p, q, c | p in qs && q in qs && c in f(p) && c in f(q) ensures p == q {
      assert older + {p} == older + {q};
      assert p in older + {q};
    }
    UnionSize(qs, f, size);
    TimesIs(size, m);
  }

  lemma OneLess(sample: set<nat>, t: nat)
    requires t in sample
    ensures |sample - {t}| + 1 == |sample| && sample == sample - {t} + {t}
  {
  }

  lemma OneMore(n: nat, m: nat, older: set<nat>, q: nat)
    requires m > 0 && n == |older| + 1 && (forall x :: x in older ==> x < n + m - 1) && q in Replaceable(n, m, older)
    ensures |older + {q}| == n && forall x :: x in older + {q} ==> x < n + (m - 1)
  {
  }

  ghost predicate SampleOf(n: nat, m: nat, sample: set<nat>) {
    |sample| == n && forall x :: x in sample ==> x < n + m
  }

  ghost predicate Uniform(n: nat, m: nat) {
    forall sample :: SampleOf(n, m, sample) ==> |Yielding(n, m, sample)| == Factorial(m)
  }

  /** A sample with the newest line has as many draws as the samples of fewer lines with another line in its place
      have together. */
  lemma WithNewestUniform(n: nat, m: nat, older: set<nat>)
    requires m > 0 && Uniform(n, m - 1) && n == |older| + 1 && forall x :: x in older ==> x < n + m - 1
    ensures |Yielding(n, m, older + {n + m - 1})| == Factorial(m)
  {
    forall q | q in Replaceable(n, m, older) ensures |Yielding(n, m - 1, older + {q})| == Factorial(m - 1) {
      OneMore(n, m, older, q);
      assert SampleOf(n, m - 1, older + {q});
    }
    WithNewestSize(n, m, older, Factorial(m - 1));
  }

  lemma OlderSample(n: nat, m: nat, sample: set<nat>, older: set<nat>)
    requires m > 0 && SampleOf(n, m, sample) && n + m - 1 in sample && older == sample - {n + m - 1}
    ensures n == |older| + 1 && sample == older + {n + m - 1} && forall x :: x in older ==> x < n + m - 1
  {
    OneLess(sample, n + m - 1);
  }

  lemma SampleUniform(n: nat, m: nat, sample: set<nat>)
    requires m > 0 && Uniform(n, m - 1) && SampleOf(n, m, sample)
    ensures |Yielding(n, m, sample)| == Factorial(m)
  {
    if n + m - 1 in sample {
      OlderSample(n, m, sample, sample - {n + m - 1});
      WithNewestUniform(n, m, sample - {n + m - 1});
    } else {
      assert SampleOf(n, m - 1, sample);
      WithoutNewestSize(n, m, sample);
    }
  }

  lemma {:induction false} AllUniform(n: nat, m: nat)
    ensures Uniform(n, m)
    decreases m
  {
    if m == 0 {
      forall sample | SampleOf(n, 0, sample) ensures |Yielding(n, 0, sample)| == Factorial(0) {
        OnlySample(n, sample);
      }
    } else {
      AllUniform(n, m - 1);
      forall sample | SampleOf(n, m, sample) ensures |Yielding(n, m, sample)| == Factorial(m) {
        SampleUniform(n, m, sample);
      }
    }
  }

  /** Every set of `n` positions is the sample for the same number of draws: the joint distribution is uniform. */
  lemma EverySample(n: nat, m: nat, sample: set<nat>)
    requires |sample| == n && forall x :: x in sample ==> x < n + m
    ensures |Yielding(n, m, sample)| == Factorial(m)
  {
    AllUniform(n, m);
    assert SampleOf(n, m, sample);
  }

  lemma OnlySample(n: nat, sample: set<nat>)
    requires |sample| == n && forall x :: x in sample ==> x < n
    ensures |Yielding(n, 0, sample)| == 1
  {
    BelowSize(n);
    SubsetEqual(sample, Below(n));
    forall i: nat ensures i in Elements(Kept(n, [])) <==> i < n {
      assert i < n ==> Kept(n, [])[i] == i;
    }
    assert Elements(Kept(n, [])) == Below(n);
    assert Yielding(n, 0, sample) == {[]};
  }

  lemma SubsetEqual(a: set<nat>, b: set<nat>)
    requires a <= b && |a| == |b|
    ensures a == b
  {
    assert |b - a| == 0;
  }

  /** The number of draws in all. */
  lemma {:induction false} ChoicesCount(n: nat, m: nat)
    ensures |Choices(n, m)| * Factorial(n) == Factorial(n + m)
    decreases m
  {
    if m > 0 {
      ChoicesCount(n, m - 1);
      ChoicesSize(n, m);
      Reorder(|Choices(n, m - 1)|, n + m, Factorial(n));
    }
  }

  lemma Reorder(a: nat, b: nat, c: nat)
    ensures a * b * c == a * c * b
  {
  }
}
