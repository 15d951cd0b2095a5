/** The line tools that drop repeated records: `dedupe` over one file, `merge` over several. */
module LineFilter {
  import opened Text
  import opened Json
  import opened JsonParser
  import opened Report

  // ---------- lines and text ----------

  /** The lines that `getline` reads from a text. */
  function LinesOf(all: string): (ls: seq<string>)
    ensures forall l :: l in ls ==> '\n' !in l
    decreases |all|
  {
    if all == [] then []
    else
      var (line, rest) := CutLine(all);
      [line] + LinesOf(rest)
  }

  function TextOf(ls: seq<string>): string {
    if ls == [] then "" else ls[0] + "\n" + TextOf(ls[1..])
  }

  /** Lines written out one by one are read back. */
  lemma {:induction false} LinesBack(ls: seq<string>)
    requires forall l :: l in ls ==> '\n' !in l
    ensures LinesOf(TextOf(ls)) == ls
  {
    if ls != [] {
      assert ls[0] in ls;
      assert ls == [ls[0]] + ls[1..];
      LinesBack(ls[1..]);
      CutLineAt(ls[0], TextOf(ls[1..]));
    }
  }

  lemma {:induction false} TextAppend(ls: seq<string>, line: string)
    ensures TextOf(ls + [line]) == TextOf(ls) + line + "\n"
  {
    if ls == [] {
      assert ([] + [line])[1..] == [];
    } else {
      assert (ls + [line])[1..] == ls[1..] + [line];
      TextAppend(ls[1..], line);
      assert ls[0] + "\n" + (TextOf(ls[1..]) + line + "\n") == ls[0] + "\n" + TextOf(ls[1..]) + line + "\n";
    }
  }

  lemma AppendLine(acc: string, ls: seq<string>, line: string)
    ensures acc + TextOf(ls + [line]) == acc + TextOf(ls) + line + "\n"
  {
    TextAppend(ls, line);
  }

  // ---------- the filter ----------

  /** How a tool tells records apart; a line without a key is always kept. */
  type KeyOf = string -> Option<string>

  predicate Dropped(key: KeyOf, seen: set<string>, line: string) {
    line == "" || (key(line).Some? && key(line).value in seen)
  }

  function See(key: KeyOf, seen: set<string>, line: string): set<string> {
    if line != "" && key(line).Some? then seen + {key(line).value} else seen
  }

  /** The lines whose keys have not been seen before. */
  function Fresh(key: KeyOf, seen: set<string>, ls: seq<string>): (r: seq<string>)
    ensures forall l :: l in r ==> l in ls
    decreases ls
  {
    if ls == [] then []
    else (if Dropped(key, seen, ls[0]) then [] else [ls[0]]) + Fresh(key, See(key, seen, ls[0]), ls[1..])
  }

  /** All the keys seen after some lines. */
  function Seen(key: KeyOf, seen: set<string>, ls: seq<string>): set<string>
    decreases ls
  {
    if ls == [] then seen else Seen(key, See(key, seen, ls[0]), ls[1..])
  }

  /** `acx_dedupe_cmd`: the address, or the whole line; a line that does not parse has no key. */
  function DedupeKey(line: string): Option<string> {
    if ParseValue(line).None? then None
    else if EmailOf(line).Some? then EmailOf(line) else Some(line)
  }

  /** `acx_merge_cmd`: an empty address does not count. */
  function MergeKey(line: string): Option<string> {
    if ParseValue(line).None? then None
    else if EmailOf(line).Some? && EmailOf(line).value != "" then EmailOf(line) else Some(line)
  }

  method ReadDedupeKey(line: string) returns (k: Option<string>)
    ensures k == DedupeKey(line)
  {
    var j, _ := ReadValue(line);
    if j.None? {
      return None;
    }
    var e := ReadEmail(line);
    k := if e.Some? then e else Some(line);
  }

  method ReadMergeKey(line: string) returns (k: Option<string>)
    ensures k == MergeKey(line)
  {
    var j, _ := ReadValue(line);
    if j.None? {
      return None;
    }
    var e := ReadEmail(line);
    k := if e.Some? && e.value != "" then e else Some(line);
  }

  /** One line more: what has been kept so far, and what remains to be filtered. */
  lemma NextLine(key: KeyOf, seen: set<string>, done: seq<string>, rest: seq<string>)
    requires rest != []
    ensures var l := rest[0];
            done + Fresh(key, seen, rest) ==
            (if Dropped(key, seen, l) then done else done + [l]) + Fresh(key, See(key, seen, l), rest[1..])
    ensures Seen(key, seen, rest) == Seen(key, See(key, seen, rest[0]), rest[1..])
  {
    var l := rest[0];
    var more := Fresh(key, See(key, seen, l), rest[1..]);
    assert done + ([l] + more) == done + [l] + more;
    assert [] + more == more;
  }

  method Dedupe(ls: seq<string>) returns (out: string, kept: nat, dropped: nat)
    ensures out == TextOf(Fresh(DedupeKey, {}, ls))
    ensures kept == |Fresh(DedupeKey, {}, ls)| && kept + dropped == Count(ls)
  {
    var seen: set<string> := {};
    ghost var done: seq<string> := [];
    out, kept, dropped := "", 0, 0;
    var rest := ls;
    while rest != []
      invariant done + Fresh(DedupeKey, seen, rest) == Fresh(DedupeKey, {}, ls)
      invariant out == TextOf(done) && kept == |done| && kept + dropped + Count(rest) == Count(ls)
      decreases |rest|
    {
      var line := rest[0];
      NextLine(DedupeKey, seen, done, rest);
      if line != "" {
        var k := ReadDedupeKey(line);
        if k.Some? && k.value in seen {
          dropped := dropped + 1;
        } else {
          TextAppend(done, line);
          out := out + line + "\n";
          kept := kept + 1;
          done := done + [line];
        }
        if k.Some? {
          seen := seen + {k.value};
        }
      }
      rest := rest[1..];
    }
    assert done + [] == done;
  }

  function Concat(files: seq<seq<string>>): seq<string> {
    if files == [] then [] else files[0] + Concat(files[1..])
  }

  /** One file of a merge: what it adds to the output and to the keys. */
  method MergeFile(ls: seq<string>, acc: string, seen: set<string>) returns (out: string, seen': set<string>)
    ensures out == acc + TextOf(Fresh(MergeKey, seen, ls))
    ensures seen' == Seen(MergeKey, seen, ls)
  {
    ghost var done: seq<string> := [];
    out, seen' := acc, seen;
    var rest := ls;
    while rest != []
      invariant done + Fresh(MergeKey, seen', rest) == Fresh(MergeKey, seen, ls)
      invariant Seen(MergeKey, seen', rest) == Seen(MergeKey, seen, ls)
      invariant out == acc + TextOf(done)
      decreases |rest|
    {
      var line := rest[0];
      NextLine(MergeKey, seen', done, rest);
      if line != "" {
        var k := ReadMergeKey(line);
        if k.None? || k.value !in seen' {
          AppendLine(acc, done, line);
          out := out + line + "\n";
          done := done + [line];
        }
        if k.Some? {
          seen' := seen' + {k.value};
        }
      }
      rest := rest[1..];
    }
    assert done + [] == done;
  }

  lemma {:induction false} FreshConcat(key: KeyOf, seen: set<string>, a: seq<string>, b: seq<string>)
    ensures Fresh(key, seen, a + b) == Fresh(key, seen, a) + Fresh(key, Seen(key, seen, a), b)
    ensures Seen(key, seen, a + b) == Seen(key, Seen(key, seen, a), b)
    decreases a
  {
    if a == [] {
      assert a + b == b;
    } else {
      assert (a + b)[1..] == a[1..] + b;
      FreshConcat(key, See(key, seen, a[0]), a[1..], b);
    }
  }

  lemma {:induction false} TextConcat(a: seq<string>, b: seq<string>)
    ensures TextOf(a + b) == TextOf(a) + TextOf(b)
  {
    if a == [] {
      assert a + b == b;
    } else {
      assert (a + b)[1..] == a[1..] + b;
      TextConcat(a[1..], b);
      assert a[0] + "\n" + (TextOf(a[1..]) + TextOf(b)) == a[0] + "\n" + TextOf(a[1..]) + TextOf(b);
    }
  }

  lemma {:induction false} ConcatAppend(files: seq<seq<string>>, f: seq<string>)
    ensures Concat(files + [f]) == Concat(files) + f
  {
    if files == [] {
      assert (files + [f])[1..] == [];
    } else {
      assert (files + [f])[1..] == files[1..] + [f];
      ConcatAppend(files[1..], f);
      assert files[0] + (Concat(files[1..]) + f) == files[0] + Concat(files[1..]) + f;
    }
  }

  lemma OneFileMore(files: seq<seq<string>>, i: nat)
    requires i < |files|
    ensures var before, after := Concat(files[..i]), Concat(files[..i + 1]);
            && TextOf(Fresh(MergeKey, {}, after)) ==
               TextOf(Fresh(MergeKey, {}, before)) + TextOf(Fresh(MergeKey, Seen(MergeKey, {}, before), files[i]))
            && Seen(MergeKey, {}, after) == Seen(MergeKey, Seen(MergeKey, {}, before), files[i])
  {
    var before := Concat(files[..i]);
    ConcatAppend(files[..i], files[i]);
    assert files[..i + 1] == files[..i] + [files[i]];
    FreshConcat(MergeKey, {}, before, files[i]);
    TextConcat(Fresh(MergeKey, {}, before), Fresh(MergeKey, Seen(MergeKey, {}, before), files[i]));
  }

  /** Merging files is filtering the lines of their concatenation. */
  method MergeFiles(files: seq<seq<string>>) returns (out: string)
    ensures out == TextOf(Fresh(MergeKey, {}, Concat(files)))
  {
    var seen: set<string> := {};
    out := "";
    for i := 0 to |files|
      invariant out == TextOf(Fresh(MergeKey, {}, Concat(files[..i])))
      invariant seen == Seen(MergeKey, {}, Concat(files[..i]))
    {
      OneFileMore(files, i);
      out, seen := MergeFile(files[i], out, seen);
    }
    assert files[..|files|] == files;
  }

  // ---------- algebra ----------

  /** Filtering what is already filtered against fewer keys changes nothing. */
  lemma {:induction false} FreshFresh(key: KeyOf, t: set<string>, s: set<string>, ls: seq<string>)
    requires t <= s
    ensures Fresh(key, s, Fresh(key, t, ls)) == Fresh(key, s, ls)
    decreases ls
  {
    if ls != [] {
      var l, rest := ls[0], ls[1..];
      if Dropped(key, t, l) {
        assert Fresh(key, t, ls) == Fresh(key, See(key, t, l), rest);
        SeeDropped(key, t, l);
        SeeDropped(key, s, l);
        FreshFresh(key, t, s, rest);
      } else {
        var kept := Fresh(key, See(key, t, l), rest);
        assert Fresh(key, t, ls) == [l] + kept;
        assert ([l] + kept)[1..] == kept;
        FreshFresh(key, See(key, t, l), See(key, s, l), rest);
      }
    }
  }

  lemma SeeDropped(key: KeyOf, s: set<string>, l: string)
    requires Dropped(key, s, l)
    ensures See(key, s, l) == s
  {
  }

  /** Filtering loses no key. */
  lemma {:induction false} FreshSeen(key: KeyOf, s: set<string>, ls: seq<string>)
    ensures Seen(key, s, Fresh(key, s, ls)) == Seen(key, s, ls)
    decreases ls
  {
    if ls != [] {
      var l, rest := ls[0], ls[1..];
      FreshSeen(key, See(key, s, l), rest);
      if Dropped(key, s, l) {
        SeeDropped(key, s, l);
        assert Fresh(key, s, ls) == Fresh(key, s, rest);
      } else {
        var kept := Fresh(key, See(key, s, l), rest);
        assert Fresh(key, s, ls) == [l] + kept;
        assert ([l] + kept)[1..] == kept;
      }
    }
  }

  /** Deduplicating twice is deduplicating once, as files. */
  lemma DedupeTwice(file: string)
    ensures var once := TextOf(Fresh(DedupeKey, {}, LinesOf(file)));
            TextOf(Fresh(DedupeKey, {}, LinesOf(once))) == once
  {
    var kept := Fresh(DedupeKey, {}, LinesOf(file));
    LinesBack(kept);
    FreshFresh(DedupeKey, {}, {}, LinesOf(file));
  }

  /** The merge of two files, as a file. */
  function MergeTexts(a: string, b: string): string {
    TextOf(Fresh(MergeKey, {}, LinesOf(a) + LinesOf(b)))
  }

  lemma MergeLeft(a: string, b: string, c: string)
    ensures MergeTexts(MergeTexts(a, b), c) == TextOf(Fresh(MergeKey, {}, LinesOf(a) + LinesOf(b) + LinesOf(c)))
  {
    var x, y, z := LinesOf(a), LinesOf(b), LinesOf(c);
    LinesBack(Fresh(MergeKey, {}, x + y));
    FilterLeft(MergeKey, x + y, z);
  }

  lemma MergeRight(a: string, b: string, c: string)
    ensures MergeTexts(a, MergeTexts(b, c)) == TextOf(Fresh(MergeKey, {}, LinesOf(a) + (LinesOf(b) + LinesOf(c))))
  {
    var x, y, z := LinesOf(a), LinesOf(b), LinesOf(c);
    LinesBack(Fresh(MergeKey, {}, y + z));
    FilterRight(MergeKey, x, y + z);
  }

  lemma Grouping(x: seq<string>, y: seq<string>, z: seq<string>)
    ensures x + (y + z) == x + y + z && Concat([x, y, z]) == x + y + z
  {
    assert [x, y, z][1..] == [y, z] && [y, z][1..] == [z] && [z][1..] == [];
    assert Concat([z]) == z + [] == z;
    assert Concat([y, z]) == y + z;
  }

  /** Merging in steps, in either grouping, is merging all the files at once. */
  lemma MergeAssociative(a: string, b: string, c: string)
    ensures MergeTexts(MergeTexts(a, b), c) == MergeTexts(a, MergeTexts(b, c))
    ensures MergeTexts(MergeTexts(a, b), c) == TextOf(Fresh(MergeKey, {}, Concat([LinesOf(a), LinesOf(b), LinesOf(c)])))
  {
    MergeLeft(a, b, c);
    MergeRight(a, b, c);
    Grouping(LinesOf(a), LinesOf(b), LinesOf(c));
  }

  lemma FilterLeft(key: KeyOf, a: seq<string>, b: seq<string>)
    ensures Fresh(key, {}, Fresh(key, {}, a) + b) == Fresh(key, {}, a + b)
  {
    FreshConcat(key, {}, Fresh(key, {}, a), b);
    FreshConcat(key, {}, a, b);
    FreshFresh(key, {}, {}, a);
    FreshSeen(key, {}, a);
  }

  lemma FilterRight(key: KeyOf, a: seq<string>, b: seq<string>)
    ensures Fresh(key, {}, a + Fresh(key, {}, b)) == Fresh(key, {}, a + b)
  {
    FreshConcat(key, {}, a, Fresh(key, {}, b));
    FreshConcat(key, {}, a, b);
    FreshFresh(key, {}, Seen(key, {}, a), b);
  }

  /** The line at `i` is the first with its key. */
  predicate First(key: KeyOf, ls: seq<string>, i: nat)
    requires i < |ls|
  {
    ls[i] != "" && (key(ls[i]).Some? ==> forall j :: 0 <= j < i && ls[j] != "" ==> key(ls[j]) != key(ls[i]))
  }

  /** The lines at which the predicate holds, in order. */
  function FirstLines(key: KeyOf, ls: seq<string>, n: nat): seq<string>
    requires n <= |ls|
  {
    if n == 0 then [] else FirstLines(key, ls, n - 1) + if First(key, ls, n - 1) then [ls[n - 1]] else []
  }

  lemma {:induction false} SeenAre(key: KeyOf, ls: seq<string>, n: nat, k: string)
    requires n <= |ls|
    ensures k in Seen(key, {}, ls[..n]) <==> exists j :: 0 <= j < n && ls[j] != "" && key(ls[j]) == Some(k)
    decreases n
  {
    if n > 0 {
      SeenAre(key, ls, n - 1, k);
      assert ls[..n] == ls[..n - 1] + [ls[n - 1]];
      FreshConcat(key, {}, ls[..n - 1], [ls[n - 1]]);
    }
  }

  /** What is kept are the first lines of each key, and all lines without one, in order. */
  lemma {:induction false} KeepsFirst(key: KeyOf, ls: seq<string>, n: nat)
    requires n <= |ls|
    ensures Fresh(key, {}, ls[..n]) == FirstLines(key, ls, n)
    decreases n
  {
    if n > 0 {
      var l := ls[n - 1];
      KeepsFirst(key, ls, n - 1);
      assert ls[..n] == ls[..n - 1] + [l];
      FreshConcat(key, {}, ls[..n - 1], [l]);
      if key(l).Some? {
        SeenAre(key, ls, n - 1, key(l).value);
      }
      var seen := Seen(key, {}, ls[..n - 1]);
      assert Fresh(key, seen, [l]) == if Dropped(key, seen, l) then [] else [l];
      assert Dropped(key, seen, l) <==> !First(key, ls, n - 1);
    }
  }

  /** Of the first `n` elements those that are marked, in order. */
  function Picked<T>(xs: seq<T>, keep: seq<bool>, n: nat): seq<T>
    requires |keep| == |xs| && n <= |xs|
  {
    if n == 0 then [] else Picked(xs, keep, n - 1) + if keep[n - 1] then [xs[n - 1]] else []
  }

  lemma {:induction false} FirstLinesPicked(key: KeyOf, ls: seq<string>, keep: seq<bool>, n: nat)
    requires |keep| == |ls| && n <= |ls| && forall i :: 0 <= i < n ==> keep[i] == First(key, ls, i)
    ensures FirstLines(key, ls, n) == Picked(ls, keep, n)
    decreases n
  {
    if n > 0 {
      assert keep[n - 1] == First(key, ls, n - 1);
      FirstLinesPicked(key, ls, keep, n - 1);
    }
  }

  /** The same for all the lines. */
  lemma KeepsFirstAll(key: KeyOf, ls: seq<string>)
    ensures Fresh(key, {}, ls) == FirstLines(key, ls, |ls|)
  {
    KeepsFirst(key, ls, |ls|);
    assert ls[..|ls|] == ls;
  }

  /** A line that parses but gives no address is kept unless the same line came before, or an address that reads
      like it; a line that does not parse is always kept. */
  lemma OtherLines(ls: seq<string>, i: nat)
    requires i < |ls| && ls[i] != ""
    ensures ParseValue(ls[i]).None? ==> First(DedupeKey, ls, i) && First(MergeKey, ls, i)
    ensures ParseValue(ls[i]).Some? && EmailOf(ls[i]).None? ==>
              (First(DedupeKey, ls, i) <==> forall j :: 0 <= j < i ==> ls[j] != ls[i] && EmailOf(ls[j]) != Some(ls[i]))
  {
  }
}
