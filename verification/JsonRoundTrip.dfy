/** Printing then parsing: the exact result for every double-free value, and when it is the value itself. */
module JsonRoundTrip {
  import opened Text
  import opened Json
  import opened JsonGrammar
  import opened JsonStandard

  /** A printed value starts with a character that neither is blank nor closes a list. */
  lemma DumpHead(v: J, indent: nat, level: nat)
    requires NoNum(v)
    ensures var d := Dump(v, indent, level); d != [] && !IsSpace(d[0]) && d[0] != ']'
  {
  }

  /** The main fact: any double-free value, printed at any indent and level in front of any text,
      is parsed into its stripped form, and exactly its own text is consumed. */
  lemma ParseDump(v: J, indent: nat, level: nat, rest: string)
    requires NoNum(v)
    ensures ParseValue(Dump(v, indent, level) + rest) == Some((Strip(v), rest))
  {
    TreeOfOk(v, indent, level);
    Prints(v, indent, level, rest);
    ReadsTree(TreeOf(v, indent, level), rest);
  }

  // ---------- when the round trip is the identity ----------

  lemma {:induction false} StripStrClean(s: string)
    ensures CleanStr(StripStr(s))
    ensures CleanStr(s) ==> StripStr(s) == s
  {
    if s != [] {
      StripStrClean(s[1..]);
      if CleanStr(s) {
        assert !Lossy(s[0]);
        assert CleanStr(s[1..]);
        assert [s[0]] + s[1..] == s;
      }
    }
  }

  lemma {:induction false} InsertAllFrom(acc: seq<Member>, ms: seq<Member>)
    ensures forall x :: x in InsertAll(acc, ms) ==> x in acc || x in ms
    decreases ms
  {
    if ms != [] {
      InsertAllFrom(Insert(acc, ms[0].key, ms[0].value), ms[1..]);
      InsertFrom(acc, ms[0].key, ms[0].value);
      assert ms[0] == Member(ms[0].key, ms[0].value);
    }
  }

  /** What the parser gives back never holds a lossy character. */
  lemma {:induction false} StripIsClean(v: J)
    ensures Clean(Strip(v))
    decreases v, 0
  {
    match v
    case Str(s) => StripStrClean(s);
    case Arr(a) =>
      forall e | e in StripElems(a) ensures Clean(e) {
        var i :| 0 <= i < |a| && StripElems(a)[i] == e;
        StripIsClean(a[i]);
      }
    case Obj(m) =>
      InsertAllFrom([], StripMembers(m));
      forall x | x in InsertAll([], StripMembers(m)) ensures CleanStr(x.key) && Clean(x.value) {
        var i :| 0 <= i < |m| && StripMembers(m)[i] == x;
        StripStrClean(m[i].key);
        StripIsClean(m[i].value);
      }
    case _ =>
  }

  lemma {:induction false} StripOfClean(v: J)
    requires Clean(v) && Ordered(v)
    ensures Strip(v) == v
    decreases v, 0
  {
    match v
    case Str(s) => StripStrClean(s);
    case Arr(a) =>
      forall i | 0 <= i < |a| ensures StripElems(a)[i] == a[i] {
        assert a[i] in a;
        StripOfClean(a[i]);
      }
      assert StripElems(a) == a;
    case Obj(m) =>
      forall i | 0 <= i < |m| ensures StripMembers(m)[i] == m[i] {
        assert m[i] in m;
        StripStrClean(m[i].key);
        StripOfClean(m[i].value);
      }
      assert StripMembers(m) == m && [] + m == m;
      InsertAllSorted([], m);
    case _ =>
  }

  /** Parsing undoes printing, at every indent, exactly for the values free of lossy characters. */
  lemma RoundTrip(v: J, indent: nat)
    requires NoNum(v) && Ordered(v)
    ensures ParseValue(Dump(v, indent, 0)) == Some((v, "")) <==> Clean(v)
  {
    assert Dump(v, indent, 0) + "" == Dump(v, indent, 0);
    ParseDump(v, indent, 0, "");
    StripIsClean(v);
    if Clean(v) {
      StripOfClean(v);
    }
  }

  /** A control character is printed as a `u` escape, which the parser drops. */
  lemma RoundTripLoses()
    ensures Lossy(1 as char)
    ensures ParseValue(Dump(Str([1 as char]), 0, 0)) == Some((Str(""), ""))
  {
    var v := Str([1 as char]);
    assert Dump(v, 0, 0) + "" == Dump(v, 0, 0);
    ParseDump(v, 0, 0, "");
    assert StripStr([1 as char]) == "";
  }

  /** Every object the parser builds is ordered as a `std::map` is. */
  lemma {:induction false} ParseOrdered(s: string)
    ensures ParseValue(s).Some? ==> Ordered(ParseValue(s).value.0)
    decreases |s|, 1
  {
    var t := SkipWs(s);
    if t != [] && t[0] == '{' {
      var u := SkipWs(t[1..]);
      ParseMembersOrdered(u, []);
    } else if t != [] && t[0] == '[' {
      var u := SkipWs(t[1..]);
      ParseElemsOrdered(u, []);
    }
  }

  lemma {:induction false} ParseElemsOrdered(s: string, acc: seq<J>)
    requires forall e :: e in acc ==> Ordered(e)
    ensures ParseElems(s, acc).Some? ==> forall e :: e in ParseElems(s, acc).value.0 ==> Ordered(e)
    decreases |s|, 2
  {
    ParseOrdered(SkipWs(s));
    var r := ParseValue(SkipWs(s));
    if r.Some? {
      var t := SkipWs(r.value.1);
      if t != [] && t[0] == ',' {
        ParseElemsOrdered(t[1..], acc + [r.value.0]);
      }
    }
  }

  lemma {:induction false} ParseMembersOrdered(s: string, acc: seq<Member>)
    requires Ordered(Obj(acc))
    ensures ParseMembers(s, acc).Some? ==> Ordered(Obj(ParseMembers(s, acc).value.0))
    decreases |s|, 2
  {
    var k := ParseString(SkipWs(s));
    if k.Some? {
      var t := SkipWs(k.value.1);
      if t != [] && t[0] == ':' {
        ParseOrdered(SkipWs(t[1..]));
        var r := ParseValue(SkipWs(t[1..]));
        if r.Some? {
          InsertOrdered(acc, k.value.0, r.value.0);
          var x := SkipWs(r.value.1);
          if x != [] && x[0] == ',' {
            ParseMembersOrdered(x[1..], Insert(acc, k.value.0, r.value.0));
          }
        }
      }
    }
  }

  lemma InsertOrdered(acc: seq<Member>, key: string, v: J)
    requires Ordered(Obj(acc)) && Ordered(v)
    ensures Ordered(Obj(Insert(acc, key, v)))
  {
    InsertSorted(acc, key, v);
    InsertFrom(acc, key, v);
  }

  // ---------- one value, one line ----------

  lemma {:induction false} EscapeOneLine(s: string)
    ensures '\n' !in Escape(s)
  {
    if s != [] {
      EscapeOneLine(s[1..]);
      assert '\n' !in EscapeChar(s[0]);
    }
  }

  /** A value printed without indentation holds no line feed. */
  lemma {:induction false} DumpOneLine(v: J, level: nat)
    requires NoNum(v)
    ensures '\n' !in Dump(v, 0, level)
    decreases v, 0
  {
    match v
    case Str(s) => EscapeOneLine(s);
    case Arr(a) => ElemsOneLine(a, level);
    case Obj(m) => MembersOneLine(m, level);
    case _ =>
  }

  lemma {:induction false} ElemsOneLine(a: seq<J>, level: nat)
    requires forall e :: e in a ==> NoNum(e)
    ensures '\n' !in DumpElems(a, 0, level)
    decreases a, 1
  {
    if a != [] {
      DumpOneLine(a[0], level + 1);
      ElemsOneLine(a[1..], level);
    }
  }

  lemma {:induction false} MembersOneLine(m: seq<Member>, level: nat)
    requires forall x :: x in m ==> NoNum(x.value)
    ensures '\n' !in DumpMembers(m, 0, level)
    decreases m, 1
  {
    if m != [] {
      EscapeOneLine(m[0].key);
      DumpOneLine(m[0].value, level + 1);
      MembersOneLine(m[1..], level);
    }
  }
}
