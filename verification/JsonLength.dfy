/** How long a value prints on one line: reading a printed value back never makes it longer, and makes it
    shorter if it loses a character. */
module JsonLength {
  import opened Text
  import opened Json
  import opened JsonRoundTrip

  /** The number of characters a value is printed with on one line. */
  function Size(v: J): nat
    decreases v, 0
  {
    match v
    case Null => 4
    case Bool(b) => if b then 4 else 5
    case Num(lexeme) => |lexeme|
    case Str(s) => |Escape(s)| + 2
    case Arr(a) => if a == [] then 2 else 1 + ElemsSize(a)
    case Obj(m) => if m == [] then 2 else 1 + MembersSize(m)
  }

  /** Each element with the comma or bracket after it. */
  function ElemsSize(a: seq<J>): nat
    decreases a, 1
  {
    if a == [] then 0 else Size(a[0]) + 1 + ElemsSize(a[1..])
  }

  function MembersSize(m: seq<Member>): (n: nat)
    ensures m != [] ==> n > 1
    decreases m, 1
  {
    if m == [] then 0 else |Escape(m[0].key)| + Size(m[0].value) + 4 + MembersSize(m[1..])
  }

  // ---------- the printer ----------

  lemma NoPad(level: nat)
    ensures Pad(0, level) == ""
  {
    assert level * 0 == 0;
  }

  lemma {:induction false} DumpSize(v: J, level: nat)
    ensures |Dump(v, 0, level)| == Size(v)
    decreases v, 0
  {
    NoPad(level);
    match v
    case Arr(a) => DumpElemsSize(a, level);
    case Obj(m) => DumpMembersSize(m, level);
    case _ =>
  }

  lemma {:induction false} DumpElemsSize(a: seq<J>, level: nat)
    ensures |DumpElems(a, 0, level)| == if a == [] then 0 else ElemsSize(a) - 1
    decreases a, 1
  {
    if a != [] {
      NoPad(level + 1);
      DumpSize(a[0], level + 1);
      DumpElemsSize(a[1..], level);
    }
  }

  lemma {:induction false} DumpMembersSize(m: seq<Member>, level: nat)
    ensures |DumpMembers(m, 0, level)| == if m == [] then 0 else MembersSize(m) - 1
    decreases m, 1
  {
    if m != [] {
      NoPad(level + 1);
      DumpSize(m[0].value, level + 1);
      DumpMembersSize(m[1..], level);
    }
  }

  // ---------- what the parser gives back ----------

  lemma {:induction false} StripStrSize(s: string)
    ensures |Escape(StripStr(s))| <= |Escape(s)|
    ensures !CleanStr(s) ==> |Escape(StripStr(s))| < |Escape(s)|
  {
    if s != [] {
      StripStrSize(s[1..]);
      var t := StripStr(s[1..]);
      if Lossy(s[0]) {
        assert [] + t == t;
      } else {
        assert ([s[0]] + t)[1..] == t;
        assert CleanStr(s[1..]) ==> CleanStr(s);
      }
    }
  }

  lemma MembersSizeCons(x: Member, m: seq<Member>)
    ensures MembersSize([x] + m) == |Escape(x.key)| + Size(x.value) + 4 + MembersSize(m)
  {
    assert ([x] + m)[1..] == m;
  }

  /** An assignment costs at most its member. */
  lemma {:induction false} InsertSize(m: seq<Member>, key: string, v: J)
    ensures MembersSize(Insert(m, key, v)) <= MembersSize(m) + |Escape(key)| + Size(v) + 4
  {
    if m == [] {
      MembersSizeCons(Member(key, v), []);
      assert [Member(key, v)] + [] == [Member(key, v)];
    } else if m[0].key == key {
      MembersSizeCons(Member(key, v), m[1..]);
    } else if Less(key, m[0].key) {
      MembersSizeCons(Member(key, v), m);
    } else {
      InsertSize(m[1..], key, v);
      MembersSizeCons(m[0], Insert(m[1..], key, v));
    }
  }

  lemma {:induction false} InsertAllSize(acc: seq<Member>, m: seq<Member>)
    ensures MembersSize(InsertAll(acc, m)) <= MembersSize(acc) + MembersSize(m)
    decreases m
  {
    if m != [] {
      InsertSize(acc, m[0].key, m[0].value);
      InsertAllSize(Insert(acc, m[0].key, m[0].value), m[1..]);
    }
  }

  /** A value read back prints no longer than before, and shorter if it was not clean. */
  lemma {:induction false} StripSize(v: J)
    ensures Size(Strip(v)) <= Size(v)
    ensures !Clean(v) ==> Size(Strip(v)) < Size(v)
    decreases v, 0
  {
    match v
    case Str(s) => StripStrSize(s);
    case Arr(a) => StripElemsSize(a);
    case Obj(m) =>
      StripMembersSize(m);
      InsertAllSize([], StripMembers(m));
    case _ =>
  }

  lemma UncleanElems(a: seq<J>)
    requires a != []
    ensures Clean(a[0]) && Clean(Arr(a[1..])) ==> Clean(Arr(a))
  {
    assert a == [a[0]] + a[1..];
  }

  lemma {:induction false} StripElemsSize(a: seq<J>)
    ensures ElemsSize(StripElems(a)) <= ElemsSize(a)
    ensures !Clean(Arr(a)) ==> ElemsSize(StripElems(a)) < ElemsSize(a)
    decreases a, 1
  {
    if a != [] {
      StripSize(a[0]);
      StripElemsSize(a[1..]);
      assert StripElems(a)[1..] == StripElems(a[1..]);
      UncleanElems(a);
    }
  }

  lemma UncleanMembers(m: seq<Member>)
    requires m != []
    ensures CleanStr(m[0].key) && Clean(m[0].value) && Clean(Obj(m[1..])) ==> Clean(Obj(m))
  {
    assert m == [m[0]] + m[1..];
  }

  lemma {:induction false} StripMembersSize(m: seq<Member>)
    ensures MembersSize(StripMembers(m)) <= MembersSize(m)
    ensures !Clean(Obj(m)) ==> MembersSize(StripMembers(m)) < MembersSize(m)
    decreases m, 1
  {
    if m != [] {
      StripStrSize(m[0].key);
      StripSize(m[0].value);
      StripMembersSize(m[1..]);
      assert StripMembers(m) == [Member(StripStr(m[0].key), Strip(m[0].value))] + StripMembers(m[1..]);
      MembersSizeCons(Member(StripStr(m[0].key), Strip(m[0].value)), StripMembers(m[1..]));
      UncleanMembers(m);
    }
  }

  // ---------- parts of a string ----------

  lemma {:induction false} EscapeAppend(a: string, b: string)
    ensures |Escape(a + b)| == |Escape(a)| + |Escape(b)|
  {
    if a == [] {
      assert a + b == b;
    } else {
      assert (a + b)[1..] == a[1..] + b;
      EscapeAppend(a[1..], b);
    }
  }

  lemma {:induction false} EscapeLower(s: string)
    ensures |Escape(ToLower(s))| == |Escape(s)|
  {
    if s != [] {
      assert ToLower(s)[1..] == ToLower(s[1..]);
      EscapeLower(s[1..]);
    }
  }

  lemma {:induction false} EscapeGrows(s: string)
    ensures |s| <= |Escape(s)|
  {
    if s != [] {
      EscapeGrows(s[1..]);
    }
  }

  lemma {:induction false} EscapePlain(s: string)
    requires forall i :: 0 <= i < |s| ==> EscapeChar(s[i]) == [s[i]]
    ensures Escape(s) == s
  {
    if s != [] {
      EscapePlain(s[1..]);
      assert [s[0]] + s[1..] == s;
    }
  }
}
