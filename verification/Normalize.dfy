/** `normalize`: each record of a file with its name, address and phone in normal form. */
module Normalize {
  import opened Text
  import opened Json
  import opened JsonGrammar
  import opened JsonParser
  import opened JsonLength
  import opened JsonRoundTrip
  import opened LineFilter
  import opened Validation

  // ---------- string helpers ----------

  function Rtrim(s: string): (t: string)
    ensures t <= s && (t == [] || !IsSpace(t[|t| - 1]))
  {
    if s != [] && IsSpace(s[|s| - 1]) then Rtrim(s[..|s| - 1]) else s
  }

  function Trim(s: string): string {
    Rtrim(SkipWs(s))
  }

  function PhoneDigits(s: string, out: string): string
    decreases |s|
  {
    if s == [] then out
    else if IsDigit(s[0]) || (s[0] == '+' && out == []) then PhoneDigits(s[1..], out + [s[0]])
    else PhoneDigits(s[1..], out)
  }

  method ReadPhoneDigits(s: string) returns (o: string)
    ensures o == PhoneDigits(s, "")
  {
    o := "";
    var rest := s;
    while rest != []
      invariant PhoneDigits(rest, o) == PhoneDigits(s, "")
      decreases |rest|
    {
      var c := rest[0];
      if IsDigit(c) || (c == '+' && o == []) {
        o := o + [c];
      }
      rest := rest[1..];
    }
  }

  /** `trim`: the cursor of each end moves past the blanks. */
  method TrimText(s: string) returns (t: string)
    ensures t == Trim(s)
  {
    t := s;
    while t != [] && IsSpace(t[0])
      invariant SkipWs(t) == SkipWs(s)
      decreases |t|
    {
      t := t[1..];
    }
    ghost var u := t;
    while t != [] && IsSpace(t[|t| - 1])
      invariant Rtrim(t) == Rtrim(u)
      decreases |t|
    {
      t := t[..|t| - 1];
    }
  }

  lemma TrimTwice(s: string)
    ensures Trim(Trim(s)) == Trim(s)
  {
    var t := SkipWs(s);
    assert Rtrim(t) == [] || Rtrim(t)[0] == t[0];
  }

  lemma LowerSpace(c: char)
    ensures IsSpace(LowerChar(c)) == IsSpace(c)
  {
  }

  /** An address in normal form is in normal form. */
  lemma LowerTrimTwice(s: string)
    ensures ToLower(Trim(ToLower(Trim(s)))) == ToLower(Trim(s))
  {
    var t := Trim(s);
    var l := ToLower(t);
    TrimTwice(s);
    if t != [] {
      Ends(s);
      LowerSpace(t[0]);
      LowerSpace(t[|t| - 1]);
      assert SkipWs(l) == l && Rtrim(l) == l;
    }
    ToLowerIdempotent(t);
  }

  lemma Ends(s: string)
    ensures Trim(s) != [] ==> !IsSpace(Trim(s)[0]) && !IsSpace(Trim(s)[|Trim(s)| - 1])
  {
    var t := SkipWs(s);
    assert Rtrim(t) == [] || Rtrim(t)[0] == t[0];
  }

  lemma {:induction false} BackBlank(s: string) returns (b: string)
    ensures Blank(b) && s == Rtrim(s) + b
  {
    if s != [] && IsSpace(s[|s| - 1]) {
      var b' := BackBlank(s[..|s| - 1]);
      b := b' + [s[|s| - 1]];
      assert s == s[..|s| - 1] + [s[|s| - 1]];
    } else {
      b := "";
    }
  }

  /** Trimming takes away blanks at both ends, all of them, and nothing else. */
  lemma TrimIs(s: string) returns (a: string, b: string)
    ensures s == a + Trim(s) + b && Blank(a) && Blank(b)
    ensures Trim(s) != [] ==> !IsSpace(Trim(s)[0]) && !IsSpace(Trim(s)[|Trim(s)| - 1])
  {
    a := FrontBlank(s);
    b := BackBlank(SkipWs(s));
    Ends(s);
    assert a + (Rtrim(SkipWs(s)) + b) == a + Rtrim(SkipWs(s)) + b;
  }

  /** A plus sign stands before the first digit. */
  predicate Signed(s: string) {
    s != [] && (s[0] == '+' || (!IsDigit(s[0]) && Signed(s[1..])))
  }

  lemma DigitsNext(s: string)
    requires s != []
    ensures IsDigit(s[0]) ==> Digits(s) == [s[0]] + Digits(s[1..])
    ensures !IsDigit(s[0]) ==> Digits(s) == Digits(s[1..])
  {
  }

  lemma {:induction false} PhoneDigitsRest(s: string, out: string)
    requires out != []
    ensures PhoneDigits(s, out) == out + Digits(s)
    decreases |s|
  {
    if s != [] {
      DigitsNext(s);
      if IsDigit(s[0]) {
        PhoneDigitsRest(s[1..], out + [s[0]]);
        assert out + [s[0]] + Digits(s[1..]) == out + ([s[0]] + Digits(s[1..]));
      } else {
        PhoneDigitsRest(s[1..], out);
      }
    }
  }

  lemma FirstKept(s: string)
    requires s != [] && (IsDigit(s[0]) || s[0] == '+')
    ensures PhoneDigits(s, "") == if s[0] == '+' then "+" + Digits(s) else Digits(s)
  {
    assert "" + [s[0]] == [s[0]];
    PhoneDigitsRest(s[1..], [s[0]]);
    DigitsNext(s);
  }

  /** The normal form of a number: its digits in order, after a plus sign if one stands before them. */
  lemma {:induction false} PhoneDigitsAre(s: string)
    ensures PhoneDigits(s, "") == if Signed(s) then "+" + Digits(s) else Digits(s)
  {
    if s == [] {
    } else if IsDigit(s[0]) || s[0] == '+' {
      FirstKept(s);
    } else {
      PhoneDigitsAre(s[1..]);
      DigitsNext(s);
    }
  }

  predicate DigitsFrom(s: string, i: nat) {
    forall k :: i <= k < |s| ==> IsDigit(s[k])
  }

  /** A sign at most, and only in front. */
  predicate PhoneForm(s: string) {
    DigitsFrom(s, 1) && (s == [] || IsDigit(s[0]) || s[0] == '+')
  }

  lemma {:induction false} PhoneDigitsForm(s: string, out: string)
    requires PhoneForm(out)
    ensures PhoneForm(PhoneDigits(s, out))
    decreases |s|
  {
    if s != [] {
      PhoneDigitsForm(s[1..], if IsDigit(s[0]) || (s[0] == '+' && out == []) then out + [s[0]] else out);
    }
  }

  lemma {:induction false} PhoneDigitsKeep(s: string, out: string)
    requires (out == [] && PhoneForm(s)) || (out != [] && DigitsFrom(s, 0))
    ensures PhoneDigits(s, out) == out + s
    decreases |s|
  {
    if s != [] {
      PhoneDigitsKeep(s[1..], out + [s[0]]);
      assert out + [s[0]] + s[1..] == out + s;
    } else {
      assert out + s == out;
    }
  }

  lemma PhoneDigitsTwice(s: string)
    ensures PhoneDigits(PhoneDigits(s, ""), "") == PhoneDigits(s, "")
  {
    PhoneDigitsForm(s, "");
    PhoneDigitsKeep(PhoneDigits(s, ""), "");
    assert "" + PhoneDigits(s, "") == PhoneDigits(s, "");
  }

  // ---------- one record ----------

  /** The normal form of a member, by its key. */
  function NormalString(key: string, s: string): string {
    if key == "name" then Trim(s)
    else if key == "email" then ToLower(Trim(s))
    else if key == "phone" then PhoneDigits(s, "")
    else s
  }

  /** By the key: a name is trimmed, an address is trimmed and put in lower case, of a number the digits are kept, with
      a plus sign if one stands before them, and any other member is left alone. */
  lemma NormalStringIs(key: string, s: string) returns (a: string, b: string)
    ensures Blank(a) && Blank(b)
    ensures key == "name" ==> s == a + NormalString(key, s) + b
    ensures key == "email" ==> exists t :: s == a + t + b && SameUpToCase(t, NormalString(key, s))
    ensures key == "email" ==> forall i :: 0 <= i < |NormalString(key, s)| ==> !('A' <= NormalString(key, s)[i] <= 'Z')
    ensures key in {"name", "email"} && NormalString(key, s) != [] ==>
              !IsSpace(NormalString(key, s)[0]) && !IsSpace(NormalString(key, s)[|NormalString(key, s)| - 1])
    ensures key == "phone" ==> NormalString(key, s) == if Signed(s) then "+" + Digits(s) else Digits(s)
    ensures key !in {"name", "email", "phone"} ==> NormalString(key, s) == s
  {
    a, b := TrimIs(s);
    LowerIs(Trim(s));
    PhoneDigitsAre(s);
    if Trim(s) != [] {
      LowerSpace(Trim(s)[0]);
      LowerSpace(Trim(s)[|Trim(s)| - 1]);
    }
  }

  function NormalMember(x: Member): Member {
    if x.value.Str? then Member(x.key, Str(NormalString(x.key, x.value.s))) else x
  }

  function NormalMembers(ms: seq<Member>): (r: seq<Member>)
    ensures |r| == |ms| && forall i :: 0 <= i < |ms| ==> r[i] == NormalMember(ms[i])
  {
    seq(|ms|, i requires 0 <= i < |ms| => NormalMember(ms[i]))
  }

  function NormalLine(line: string): string {
    var p := if line == "" then None else ParseValue(line);
    if p.Some? && p.value.0.Obj? then Dump(Obj(NormalMembers(p.value.0.members)), 0, 0) else line
  }

  /** The members keep their keys and their order, and only texts are changed; a line that is no record stays as it
      is. */
  lemma NormalLineIs(line: string)
    ensures line == "" || ParseValue(line).None? || !ParseValue(line).value.0.Obj? ==> NormalLine(line) == line
    ensures line != "" && ParseValue(line).Some? && ParseValue(line).value.0.Obj? ==>
              exists r: seq<Member> ::
                && NormalLine(line) == Dump(Obj(r), 0, 0) && |r| == |ParseValue(line).value.0.members|
                && forall i :: 0 <= i < |r| ==>
                     var x := ParseValue(line).value.0.members[i];
                     r[i].key == x.key && r[i].value == if x.value.Str? then Str(NormalString(x.key, x.value.s)) else x.value
  {
    if line != "" && ParseValue(line).Some? && ParseValue(line).value.0.Obj? {
      var r := NormalMembers(ParseValue(line).value.0.members);
      assert NormalLine(line) == Dump(Obj(r), 0, 0);
    }
  }

  function NormalLines(ls: seq<string>): (r: seq<string>)
    ensures |r| == |ls| && forall i :: 0 <= i < |ls| ==> r[i] == NormalLine(ls[i])
  {
    seq(|ls|, i requires 0 <= i < |ls| => NormalLine(ls[i]))
  }

  lemma NormalStringTwice(key: string, s: string)
    ensures NormalString(key, NormalString(key, s)) == NormalString(key, s)
  {
    TrimTwice(s);
    LowerTrimTwice(s);
    PhoneDigitsTwice(s);
  }

  lemma NormalMembersTwice(ms: seq<Member>)
    ensures NormalMembers(NormalMembers(ms)) == NormalMembers(ms)
  {
    forall i | 0 <= i < |ms| ensures NormalMembers(NormalMembers(ms))[i] == NormalMembers(ms)[i] {
      if ms[i].value.Str? {
        NormalStringTwice(ms[i].key, ms[i].value.s);
      }
    }
  }

  /** What the normal form is of, if the line is a record. */
  function RecordOf(line: string): Option<seq<Member>> {
    var p := if line == "" then None else ParseValue(line);
    if p.Some? && p.value.0.Obj? then Some(p.value.0.members) else None
  }

  predicate NoDoubles(line: string) {
    RecordOf(line).Some? ==> NoNum(Obj(RecordOf(line).value))
  }

  /** The line is no record, or its normal form has no lossy control character. */
  predicate CleanNormal(line: string) {
    RecordOf(line).Some? ==> Clean(Obj(NormalMembers(RecordOf(line).value)))
  }

  // ---------- a normal form is no longer ----------

  lemma TrimShorter(s: string)
    ensures |Escape(Trim(s))| <= |Escape(s)| && |Escape(ToLower(Trim(s)))| <= |Escape(s)|
  {
    var a, b := TrimIs(s);
    EscapeAppend(a + Trim(s), b);
    EscapeAppend(a, Trim(s));
    EscapeLower(Trim(s));
  }

  lemma {:induction false} PhoneDigitsLength(s: string, out: string)
    ensures |PhoneDigits(s, out)| <= |out| + |s|
    decreases |s|
  {
    if s != [] {
      PhoneDigitsLength(s[1..], if IsDigit(s[0]) || (s[0] == '+' && out == []) then out + [s[0]] else out);
    }
  }

  lemma PhoneShorter(s: string)
    ensures |Escape(PhoneDigits(s, ""))| <= |Escape(s)|
  {
    PhoneDigitsForm(s, "");
    EscapePlain(PhoneDigits(s, ""));
    PhoneDigitsLength(s, "");
    EscapeGrows(s);
  }

  lemma NormalMemberSize(x: Member)
    ensures Size(NormalMember(x).value) <= Size(x.value)
  {
    if x.value.Str? {
      TrimShorter(x.value.s);
      PhoneShorter(x.value.s);
    }
  }

  lemma {:induction false} NormalMembersSize(ms: seq<Member>)
    ensures MembersSize(NormalMembers(ms)) <= MembersSize(ms)
  {
    if ms != [] {
      NormalMemberSize(ms[0]);
      NormalMembersSize(ms[1..]);
      assert NormalMembers(ms)[1..] == NormalMembers(ms[1..]);
    }
  }

  // ---------- normalizing twice ----------

  /** The normal form of a record is a record of the same kind. */
  lemma NormalMembersKind(ms: seq<Member>)
    requires NoNum(Obj(ms)) && Ordered(Obj(ms))
    ensures var w := Obj(NormalMembers(ms)); NoNum(w) && Ordered(w)
  {
    var r := NormalMembers(ms);
    forall i | 0 <= i < |ms| ensures NoNum(r[i].value) && Ordered(r[i].value) {
      assert ms[i] in ms;
    }
    assert SortedKeys(r);
  }

  lemma RecordPrinted(w: seq<Member>)
    requires NoNum(Obj(w))
    ensures Strip(Obj(w)).Obj? && RecordOf(Dump(Obj(w), 0, 0)) == Some(Strip(Obj(w)).members)
  {
    assert Dump(Obj(w), 0, 0) + "" == Dump(Obj(w), 0, 0);
    ParseDump(Obj(w), 0, 0, "");
    DumpHead(Obj(w), 0, 0);
  }

  /** A second pass prints a clean normal form again, and any other one shorter. */
  lemma SecondPass(ms: seq<Member>)
    requires NoNum(Obj(ms)) && Ordered(Obj(ms))
    ensures var w := NormalMembers(ms); var d := Dump(Obj(w), 0, 0);
            if Clean(Obj(w)) then NormalLine(d) == d else |NormalLine(d)| < |d|
  {
    var w := NormalMembers(ms);
    NormalMembersKind(ms);
    RecordPrinted(w);
    if Clean(Obj(w)) {
      StripOfClean(Obj(w));
      NormalMembersTwice(ms);
    } else {
      var u := Strip(Obj(w)).members;
      StripSize(Obj(w));
      NormalMembersSize(u);
      DumpSize(Obj(w), 0);
      DumpSize(Obj(NormalMembers(u)), 0);
    }
  }

  /** Normalizing a line twice is normalizing it once exactly when its normal form is clean; a second pass
      over any other normal form makes it shorter. */
  lemma NormalLineTwice(line: string)
    requires NoDoubles(line)
    ensures NormalLine(NormalLine(line)) == NormalLine(line) <==> CleanNormal(line)
    ensures |NormalLine(NormalLine(line))| <= |NormalLine(line)|
    ensures !CleanNormal(line) ==> |NormalLine(NormalLine(line))| < |NormalLine(line)|
  {
    if RecordOf(line).Some? {
      ParseOrdered(line);
      SecondPass(RecordOf(line).value);
    }
  }

  lemma NormalLineIsOne(line: string)
    requires NoDoubles(line) && '\n' !in line
    ensures '\n' !in NormalLine(line)
  {
    if RecordOf(line).Some? {
      ParseOrdered(line);
      NormalMembersKind(RecordOf(line).value);
      DumpOneLine(Obj(NormalMembers(RecordOf(line).value)), 0);
    }
  }

  // ---------- the file ----------

  function NormalText(file: string): string {
    TextOf(NormalLines(LinesOf(file)))
  }

  lemma {:induction false} TextShorter(a: seq<string>, b: seq<string>)
    requires |a| == |b| && forall i :: 0 <= i < |a| ==> |a[i]| <= |b[i]|
    ensures |TextOf(a)| <= |TextOf(b)|
    ensures (exists i :: 0 <= i < |a| && |a[i]| < |b[i]|) ==> |TextOf(a)| < |TextOf(b)|
  {
    if a != [] {
      TextShorter(a[1..], b[1..]);
      if i :| 0 <= i < |a| && |a[i]| < |b[i]| {
        assert i > 0 ==> |a[1..][i - 1]| < |b[1..][i - 1]|;
      }
    }
  }

  /** Normalizing a file twice is normalizing it once exactly when the normal form of every record is clean. */
  lemma NormalizeTwice(file: string)
    requires forall l :: l in LinesOf(file) ==> NoDoubles(l)
    ensures NormalText(NormalText(file)) == NormalText(file) <==> forall l :: l in LinesOf(file) ==> CleanNormal(l)
  {
    var ls := LinesOf(file);
    var r := NormalLines(ls);
    forall l | l in r ensures '\n' !in l {
      var i :| 0 <= i < |r| && r[i] == l;
      assert ls[i] in ls;
      NormalLineIsOne(ls[i]);
    }
    LinesBack(r);
    forall i | 0 <= i < |ls|
      ensures if CleanNormal(ls[i]) then NormalLines(r)[i] == r[i] else |NormalLines(r)[i]| < |r[i]|
    {
      assert ls[i] in ls;
      NormalLineTwice(ls[i]);
    }
    TextShorter(NormalLines(r), r);
    if forall l :: l in ls ==> CleanNormal(l) {
      forall i | 0 <= i < |ls| ensures NormalLines(r)[i] == r[i] {
        assert ls[i] in ls;
      }
      assert NormalLines(r) == r;
    }
  }

  /** A record with a raw control character in its id: the first pass prints it as a `u` escape, the second
      loses it. */
  lemma SecondPassLoses()
    ensures var line := "{\"id\":\"" + [1 as char] + "\"}";
            NoDoubles(line) && !CleanNormal(line) && NormalLine(NormalLine(line)) != NormalLine(line)
  {
    var s := "\"id\":\"" + [1 as char] + "\"}";
    var line := "{\"id\":\"" + [1 as char] + "\"}";
    var v := [Member("id", Str([1 as char]))];
    assert line == "{" + s;
    ReadsControl(s);
    MembersStop(s, [], "id", Str([1 as char]), "}", "");
    ObjectBody(s, v, "");
    assert RecordOf(line) == Some(v);
    var w := NormalMembers(v);
    assert w[0] in w && Lossy(w[0].value.s[0]);
    assert !Clean(w[0].value);
    NormalLineTwice(line);
  }

  lemma ReadsControl(s: string)
    requires s == "\"id\":\"" + [1 as char] + "\"}"
    ensures ReadsMember(s, "id", Str([1 as char]), "}")
  {
    var u := ":\"" + [1 as char] + "\"}";
    var t := "\"" + [1 as char] + "\"}";
    assert s[1..] == "id" + "\"" + u;
    RawBody("id", u);
    assert ParseString(SkipWs(s)) == Some(("id", u));
    assert SkipWs(u) == ":" + t;
    assert t[1..] == [1 as char] + "\"" + "}";
    RawBody([1 as char], "}");
    assert ParseValue(SkipWs(t)) == Some((Str([1 as char]), "}"));
  }

  /** The parser keeps raw bytes up to the closing quote. */
  lemma {:induction false} RawBody(s: string, rest: string)
    requires forall i :: 0 <= i < |s| ==> s[i] != '"' && s[i] != '\\'
    ensures ParseBody(s + "\"" + rest) == (s, rest)
  {
    var text := s + "\"" + rest;
    if s == [] {
      assert text[1..] == rest;
    } else {
      assert text[1..] == s[1..] + "\"" + rest;
      RawBody(s[1..], rest);
      assert [s[0]] + s[1..] == s;
    }
  }

  // ---------- the loop ----------

  method ReadNormal(key: string, s: string) returns (t: string)
    ensures t == NormalString(key, s)
  {
    if key == "name" {
      t := TrimText(s);
    } else if key == "email" {
      t := TrimText(s);
      t := ToLower(t);
    } else if key == "phone" {
      t := ReadPhoneDigits(s);
    } else {
      t := s;
    }
  }

  /** Finds a member and puts its value into normal form in place. */
  method NormalizeMember(ms: seq<Member>, key: string) returns (r: seq<Member>)
    requires forall i, j :: 0 <= i < j < |ms| ==> ms[i].key != ms[j].key
    ensures |r| == |ms|
    ensures forall i :: 0 <= i < |ms| ==> r[i] == if ms[i].key == key then NormalMember(ms[i]) else ms[i]
  {
    r := ms;
    var i := 0;
    while i < |ms| && ms[i].key != key
      invariant i <= |ms| && forall k :: 0 <= k < i ==> ms[k].key != key
    {
      i := i + 1;
    }
    if i < |ms| && ms[i].value.Str? {
      var t := ReadNormal(key, ms[i].value.s);
      r := r[i := Member(key, Str(t))];
    }
  }

  lemma DistinctKeys(ms: seq<Member>)
    requires SortedKeys(ms)
    ensures forall i, j :: 0 <= i < j < |ms| ==> ms[i].key != ms[j].key
  {
    forall i, j | 0 <= i < j < |ms| ensures ms[i].key != ms[j].key {
      LessIrreflexive(ms[i].key);
    }
  }

  method NormalizeRecord(ms: seq<Member>) returns (r: seq<Member>)
    requires SortedKeys(ms)
    ensures r == NormalMembers(ms)
  {
    DistinctKeys(ms);
    r := NormalizeMember(ms, "name");
    var r' := NormalizeMember(r, "email");
    r := NormalizeMember(r', "phone");
    OtherKeys(ms);
  }

  lemma OtherKeys(ms: seq<Member>)
    ensures forall i :: 0 <= i < |ms| && ms[i].key != "name" && ms[i].key != "email" && ms[i].key != "phone" ==>
              NormalMember(ms[i]) == ms[i]
  {
  }

  method NormalizeLine(line: string) returns (r: string)
    ensures r == NormalLine(line)
  {
    if line == "" {
      return line;
    }
    var j, _ := ReadValue(line);
    ParseOrdered(line);
    if j.Some? && j.value.Obj? {
      var ms := NormalizeRecord(j.value.members);
      return Dump(Obj(ms), 0, 0);
    }
    return line;
  }

  lemma NormalNext(ls: seq<string>, i: nat, r: string)
    requires i < |ls| && r == NormalLine(ls[i])
    ensures TextOf(NormalLines(ls[..i + 1])) == TextOf(NormalLines(ls[..i])) + r + "\n"
  {
    assert NormalLines(ls[..i + 1]) == NormalLines(ls[..i]) + [r];
    TextAppend(NormalLines(ls[..i]), r);
  }

  method NormalizeFile(ls: seq<string>) returns (acc: string)
    ensures acc == TextOf(NormalLines(ls))
  {
    acc := "";
    for i := 0 to |ls|
      invariant acc == TextOf(NormalLines(ls[..i]))
    {
      var r := NormalizeLine(ls[i]);
      NormalNext(ls, i, r);
      acc := acc + r + "\n";
    }
    assert ls[..|ls|] == ls;
  }
}
