/** JSON texts by their derivations: the grammar that the parser accepts, and what each text is read as. */
module JsonGrammar {
  import opened Text
  import opened Json

  // ---------- strings, section 7 ----------

  /** A character of a string as it is written: by itself, as a letter after a backslash, or by its number. */
  datatype Piece = Plain(c: char) | Short(e: char) | Unicode(digits: string)

  /** What the two-character escapes stand for; a letter that has no meaning stands for itself. */
  function Escaped(e: char): char {
    if e == 'b' then 8 as char
    else if e == 'f' then 12 as char
    else if e == 'n' then 10 as char
    else if e == 'r' then 13 as char
    else if e == 't' then 9 as char
    else e
  }

  predicate IsPiece(p: Piece) {
    match p
    case Plain(c) => c != '"' && c != '\\'
    case Short(e) => e != 'u'
    case Unicode(d) => |d| == 4
  }

  predicate Pieces(ps: seq<Piece>) {
    forall i :: 0 <= i < |ps| ==> IsPiece(ps[i])
  }

  function PieceText(p: Piece): string {
    match p
    case Plain(c) => [c]
    case Short(e) => ['\\', e]
    case Unicode(d) => ['\\', 'u'] + d
  }

  function Written(ps: seq<Piece>): string {
    if ps == [] then "" else PieceText(ps[0]) + Written(ps[1..])
  }

  /** What the parser makes of a piece: it passes over a `u` escape. */
  function PieceRead(p: Piece): string {
    match p
    case Plain(c) => [c]
    case Short(e) => [Escaped(e)]
    case Unicode(_) => ""
  }

  function StringRead(ps: seq<Piece>): string {
    if ps == [] then "" else PieceRead(ps[0]) + StringRead(ps[1..])
  }

  lemma ReadsPiece(p: Piece, tail: string)
    requires IsPiece(p)
    ensures ParseBody(PieceText(p) + tail) == (PieceRead(p) + ParseBody(tail).0, ParseBody(tail).1)
  {
    var s := PieceText(p) + tail;
    match p
    case Plain(c) => assert s[1..] == tail;
    case Short(e) => assert s[2..] == tail;
    case Unicode(d) =>
      assert Drop(s[2..], 4) == tail;
      assert "" + ParseBody(tail).0 == ParseBody(tail).0;
  }

  /** The parser reads a string up to its closing quote and no further, however it is written. */
  lemma {:induction false} ReadsString(ps: seq<Piece>, rest: string)
    requires Pieces(ps)
    ensures ParseBody(Written(ps) + ("\"" + rest)) == (StringRead(ps), rest)
  {
    if ps == [] {
      assert "" + ("\"" + rest) == "\"" + rest;
      assert ("\"" + rest)[1..] == rest;
    } else {
      ReadsPiece(ps[0], Written(ps[1..]) + ("\"" + rest));
      Assoc(PieceText(ps[0]), Written(ps[1..]), "\"" + rest);
      ReadsString(ps[1..], rest);
    }
  }

  // ---------- values ----------

  /** A text with the white space between its tokens. */
  datatype Tree =
    | NullT
    | BoolT(b: bool)
    | NumT(lexeme: string)
    | StrT(ps: seq<Piece>)
    | ArrT(items: seq<Item>, inner: string)
    | ObjT(fields: seq<Field>, inner: string)

  datatype Item = Item(before: string, value: Tree, after: string)

  datatype Field = Field(before: string, key: seq<Piece>, colon: string, gap: string, value: Tree, after: string)

  /** A text that does not carry on a number. */
  predicate Ends(rest: string) {
    rest == [] || !NumberChar(rest[0])
  }

  predicate IsNumber(s: string) {
    && s != [] && (s[0] == '-' || s[0] == '+' || IsDigit(s[0]))
    && (forall i :: 0 <= i < |s| ==> NumberChar(s[i])) && Convertible(s)
  }

  /** A derivation of the grammar that the parser accepts. */
  predicate IsTree(t: Tree)
    decreases t, 0
  {
    match t
    case NullT => true
    case BoolT(_) => true
    case NumT(n) => IsNumber(n)
    case StrT(ps) => Pieces(ps)
    case ArrT(items, inner) => Blank(inner) && Items(items)
    case ObjT(fields, inner) => Blank(inner) && Fields(fields)
  }

  predicate Items(items: seq<Item>)
    decreases items, 1
  {
    items != [] ==>
      Blank(items[0].before) && IsTree(items[0].value) && Blank(items[0].after) && Items(items[1..])
  }

  predicate Fields(fields: seq<Field>)
    decreases fields, 1
  {
    fields != [] ==>
      var x := fields[0];
      && Blank(x.before) && Pieces(x.key) && Blank(x.colon) && Blank(x.gap) && IsTree(x.value) && Blank(x.after)
      && Fields(fields[1..])
  }

  /** The text of a derivation, with any text after it. */
  function Spell(t: Tree, rest: string): string
    decreases t, 0
  {
    match t
    case NullT => "null" + rest
    case BoolT(b) => (if b then "true" else "false") + rest
    case NumT(n) => n + rest
    case StrT(ps) => "\"" + (Written(ps) + ("\"" + rest))
    case ArrT(items, inner) => "[" + (if items == [] then inner + ("]" + rest) else SpellItems(items, rest))
    case ObjT(fields, inner) => "{" + (if fields == [] then inner + ("}" + rest) else SpellFields(fields, rest))
  }

  function SpellItems(items: seq<Item>, rest: string): string
    requires items != []
    decreases items, 1
  {
    var x := items[0];
    x.before + Spell(x.value, x.after + (if |items| == 1 then "]" + rest else "," + SpellItems(items[1..], rest)))
  }

  function SpellFields(fields: seq<Field>, rest: string): string
    requires fields != []
    decreases fields, 1
  {
    var x := fields[0];
    x.before + ("\"" + (Written(x.key) + ("\"" + (x.colon + (":" + (x.gap + Spell(x.value, x.after +
      (if |fields| == 1 then "}" + rest else "," + SpellFields(fields[1..], rest)))))))))
  }

  /** What the parser makes of a derivation: of several members with one key the last counts. */
  function Reading(t: Tree): J
    decreases t, 0
  {
    match t
    case NullT => Null
    case BoolT(b) => Bool(b)
    case NumT(n) => Num(n)
    case StrT(ps) => Str(StringRead(ps))
    case ArrT(items, _) => Arr(ItemsRead(items))
    case ObjT(fields, _) => Obj(InsertAll([], FieldsRead(fields)))
  }

  function ItemsRead(items: seq<Item>): seq<J>
    decreases items, 1
  {
    if items == [] then [] else [Reading(items[0].value)] + ItemsRead(items[1..])
  }

  function FieldsRead(fields: seq<Field>): seq<Member>
    decreases fields, 1
  {
    if fields == [] then []
    else [Member(StringRead(fields[0].key), Reading(fields[0].value))] + FieldsRead(fields[1..])
  }

  // ---------- white space ----------

  lemma {:induction false} SkipSpace(w: string, s: string)
    requires Blank(w)
    ensures SkipWs(w + s) == SkipWs(s)
  {
    if w == [] {
      assert w + s == s;
    } else {
      assert (w + s)[1..] == w[1..] + s;
      SkipSpace(w[1..], s);
    }
  }

  lemma SkipTo(w: string, s: string)
    requires Blank(w) && s != [] && !IsSpace(s[0])
    ensures SkipWs(w + s) == s
  {
    SkipSpace(w, s);
  }

  // ---------- numbers ----------

  lemma {:induction false} RunOver(s: string, rest: string)
    requires (forall i :: 0 <= i < |s| ==> NumberChar(s[i])) && Ends(rest)
    ensures NumberRun(s + rest) == |s|
  {
    if s == [] {
      assert s + rest == rest;
    } else {
      assert (s + rest)[1..] == s[1..] + rest;
      RunOver(s[1..], rest);
    }
  }

  lemma ReadsNumber(n: string, rest: string)
    requires IsNumber(n) && Ends(rest)
    ensures ParseValue(n + rest) == Some((Num(n), rest))
  {
    var s := n + rest;
    RunOver(n, rest);
    assert s[..|n|] == n && s[|n|..] == rest;
    assert SkipWs(s) == s;
  }

  // ---------- the parser reads every derivation ----------

  lemma ReadsNull(rest: string)
    ensures ParseValue("null" + rest) == Some((Null, rest))
  {
    var s := "null" + rest;
    assert SkipWs(s) == s && s[4..] == rest;
  }

  lemma ReadsBool(b: bool, rest: string)
    ensures ParseValue((if b then "true" else "false") + rest) == Some((Bool(b), rest))
  {
    var s := (if b then "true" else "false") + rest;
    assert SkipWs(s) == s;
    if b {
      assert s[4..] == rest;
    } else {
      assert s[5..] == rest;
    }
  }

  lemma ReadsQuoted(ps: seq<Piece>, rest: string)
    requires Pieces(ps)
    ensures var s := "\"" + (Written(ps) + ("\"" + rest));
            ParseString(s) == Some((StringRead(ps), rest)) && ParseValue(s) == Some((Str(StringRead(ps)), rest))
  {
    var s := "\"" + (Written(ps) + ("\"" + rest));
    assert s[1..] == Written(ps) + ("\"" + rest);
    ReadsString(ps, rest);
    assert SkipWs(s) == s;
  }

  /** The parser starts by passing over white space. */
  lemma ValueSkips(s: string, x: string)
    requires SkipWs(s) == SkipWs(x)
    ensures ParseValue(s) == ParseValue(x)
  {
  }

  /** And so do its loops. */
  lemma LoopSkips(s: string, x: string, a: seq<J>, m: seq<Member>)
    requires SkipWs(s) == SkipWs(x)
    ensures ParseElems(s, a) == ParseElems(x, a)
    ensures ParseMembers(s, m) == ParseMembers(x, m)
  {
  }

  lemma ElemsStep(s: string, acc: seq<J>, v: J, u: string, x: string)
    requires ParseValue(SkipWs(s)) == Some((v, u)) && SkipWs(u) == "," + x
    ensures ParseElems(s, acc) == ParseElems(x, acc + [v])
  {
    assert ("," + x)[1..] == x;
  }

  lemma ElemsStop(s: string, acc: seq<J>, v: J, u: string, x: string)
    requires ParseValue(SkipWs(s)) == Some((v, u)) && SkipWs(u) == "]" + x
    ensures ParseElems(s, acc) == Some((acc + [v], x))
  {
    assert ("]" + x)[1..] == x;
  }

  /** What the loop of `parse_object` reads up to the value of a member. */
  ghost predicate ReadsMember(s: string, key: string, v: J, w: string) {
    exists u, t :: ParseString(SkipWs(s)) == Some((key, u)) && SkipWs(u) == ":" + t && ParseValue(SkipWs(t)) == Some((v, w))
  }

  lemma MembersStep(s: string, acc: seq<Member>, key: string, v: J, w: string, x: string)
    requires ReadsMember(s, key, v, w) && SkipWs(w) == "," + x
    ensures ParseMembers(s, acc) == ParseMembers(x, Insert(acc, key, v))
  {
    var u, t :| ParseString(SkipWs(s)) == Some((key, u)) && SkipWs(u) == ":" + t && ParseValue(SkipWs(t)) == Some((v, w));
    assert (":" + t)[1..] == t && ("," + x)[1..] == x;
  }

  lemma MembersStop(s: string, acc: seq<Member>, key: string, v: J, w: string, x: string)
    requires ReadsMember(s, key, v, w) && SkipWs(w) == "}" + x
    ensures ParseMembers(s, acc) == Some((Insert(acc, key, v), x))
  {
    var u, t :| ParseString(SkipWs(s)) == Some((key, u)) && SkipWs(u) == ":" + t && ParseValue(SkipWs(t)) == Some((v, w));
    assert (":" + t)[1..] == t && ("}" + x)[1..] == x;
  }

  lemma ArrayBody(s: string, a: seq<J>, rest: string)
    requires SkipWs(s) != [] && SkipWs(s)[0] != ']'
    requires ParseElems(s, []) == Some((a, rest))
    ensures ParseValue("[" + s) == Some((Arr(a), rest))
  {
    assert ("[" + s)[1..] == s;
    assert SkipWs(SkipWs(s)) == SkipWs(s);
    LoopSkips(s, SkipWs(s), [], []);
    assert SkipWs("[" + s) == "[" + s;
  }

  lemma ObjectBody(s: string, m: seq<Member>, rest: string)
    requires SkipWs(s) != [] && SkipWs(s)[0] != '}'
    requires ParseMembers(s, []) == Some((m, rest))
    ensures ParseValue("{" + s) == Some((Obj(m), rest))
  {
    assert ("{" + s)[1..] == s;
    assert SkipWs(SkipWs(s)) == SkipWs(s);
    LoopSkips(s, SkipWs(s), [], []);
    assert SkipWs("{" + s) == "{" + s;
  }

  lemma EmptyList(inner: string, rest: string)
    requires Blank(inner)
    ensures ParseValue("[" + (inner + ("]" + rest))) == Some((Arr([]), rest))
    ensures ParseValue("{" + (inner + ("}" + rest))) == Some((Obj([]), rest))
  {
    SkipTo(inner, "]" + rest);
    SkipTo(inner, "}" + rest);
    var a, o := "[" + (inner + ("]" + rest)), "{" + (inner + ("}" + rest));
    assert a[1..] == inner + ("]" + rest) && o[1..] == inner + ("}" + rest);
    assert ("]" + rest)[1..] == rest && ("}" + rest)[1..] == rest;
    assert SkipWs(a) == a && SkipWs(o) == o;
  }

  /** A value starts with a character that neither is blank nor closes a list. */
  lemma SpellHead(t: Tree, rest: string)
    requires IsTree(t)
    ensures var s := Spell(t, rest); s != [] && !IsSpace(s[0]) && s[0] != ']'
  {
  }

  /** What may follow a value does not carry on a number. */
  lemma AfterEnds(after: string, rest: string)
    requires Blank(after) && rest != [] && !NumberChar(rest[0])
    ensures Ends(after + rest)
  {
    if after == [] {
      assert after + rest == rest;
    } else {
      assert (after + rest)[0] == after[0];
    }
  }

  lemma SpaceThenValue(w: string, t: Tree, rest: string)
    requires Blank(w) && IsTree(t)
    ensures SkipWs(w + Spell(t, rest)) == Spell(t, rest)
  {
    SpellHead(t, rest);
    SkipTo(w, Spell(t, rest));
  }

  /** The main fact: whatever the derivation, its text is read up to its end and no further, and gives what its
      parts give. After a number the text must not carry it on. */
  lemma {:induction false} ReadsTree(t: Tree, rest: string)
    requires IsTree(t) && (t.NumT? ==> Ends(rest))
    ensures ParseValue(Spell(t, rest)) == Some((Reading(t), rest))
    decreases t, 0
  {
    match t
    case NullT => ReadsNull(rest);
    case BoolT(b) => ReadsBool(b, rest);
    case NumT(n) => ReadsNumber(n, rest);
    case StrT(ps) => ReadsQuoted(ps, rest);
    case ArrT(items, inner) =>
      if items == [] {
        EmptyList(inner, rest);
      } else {
        ReadsItems(items, [], rest);
        ItemsHead(items, rest);
        assert [] + ItemsRead(items) == ItemsRead(items);
        ArrayBody(SpellItems(items, rest), ItemsRead(items), rest);
      }
    case ObjT(fields, inner) =>
      if fields == [] {
        EmptyList(inner, rest);
      } else {
        ReadsFields(fields, [], rest);
        FieldsHead(fields, rest);
        ObjectBody(SpellFields(fields, rest), InsertAll([], FieldsRead(fields)), rest);
      }
  }

  lemma ItemsHead(items: seq<Item>, rest: string)
    requires items != [] && Items(items)
    ensures var s := SkipWs(SpellItems(items, rest)); s != [] && s[0] != ']'
  {
    var x := items[0];
    var u := x.after + (if |items| == 1 then "]" + rest else "," + SpellItems(items[1..], rest));
    SpellHead(x.value, u);
    SpaceThenValue(x.before, x.value, u);
  }

  lemma FieldsHead(fields: seq<Field>, rest: string)
    requires fields != [] && Fields(fields)
    ensures var s := SkipWs(SpellFields(fields, rest)); s != [] && s[0] != '}'
  {
    var x := fields[0];
    var u := Written(x.key) + ("\"" + (x.colon + (":" + (x.gap + Spell(x.value, x.after +
      (if |fields| == 1 then "}" + rest else "," + SpellFields(fields[1..], rest)))))));
    SkipTo(x.before, "\"" + u);
  }

  lemma ItemRead(x: Item, more: string)
    requires Blank(x.before) && Blank(x.after) && IsTree(x.value) && more != [] && (more[0] == ',' || more[0] == ']')
    requires ParseValue(Spell(x.value, x.after + more)) == Some((Reading(x.value), x.after + more))
    ensures ParseValue(SkipWs(x.before + Spell(x.value, x.after + more))) == Some((Reading(x.value), x.after + more))
    ensures SkipWs(x.after + more) == more
  {
    SpaceThenValue(x.before, x.value, x.after + more);
    SkipTo(x.after, more);
  }

  lemma {:induction false} ReadsItems(items: seq<Item>, acc: seq<J>, rest: string)
    requires items != [] && Items(items)
    ensures ParseElems(SpellItems(items, rest), acc) == Some((acc + ItemsRead(items), rest))
    decreases items, 1
  {
    var x := items[0];
    var more := if |items| == 1 then "]" + rest else "," + SpellItems(items[1..], rest);
    var v := Reading(x.value);
    AfterEnds(x.after, more);
    ReadsTree(x.value, x.after + more);
    ItemRead(x, more);
    if |items| == 1 {
      assert ItemsRead(items) == [v];
      ElemsStop(SpellItems(items, rest), acc, v, x.after + more, rest);
    } else {
      ElemsStep(SpellItems(items, rest), acc, v, x.after + more, SpellItems(items[1..], rest));
      ReadsItems(items[1..], acc + [v], rest);
      Assoc(acc, [v], ItemsRead(items[1..]));
    }
  }

  lemma FieldRead(x: Field, more: string, s: string)
    requires Blank(x.before) && Pieces(x.key) && Blank(x.colon) && Blank(x.gap) && IsTree(x.value) && Blank(x.after)
    requires more != [] && (more[0] == ',' || more[0] == '}')
    requires ParseValue(Spell(x.value, x.after + more)) == Some((Reading(x.value), x.after + more))
    requires s == x.before + ("\"" + (Written(x.key) + ("\"" + (x.colon + (":" + (x.gap + Spell(x.value, x.after + more)))))))
    ensures ReadsMember(s, StringRead(x.key), Reading(x.value), x.after + more)
    ensures SkipWs(x.after + more) == more
  {
    var t := x.gap + Spell(x.value, x.after + more);
    var u := x.colon + (":" + t);
    SkipTo(x.before, "\"" + (Written(x.key) + ("\"" + u)));
    ReadsQuoted(x.key, u);
    SkipTo(x.colon, ":" + t);
    SpaceThenValue(x.gap, x.value, x.after + more);
    SkipTo(x.after, more);
  }

  lemma {:induction false} ReadsFields(fields: seq<Field>, acc: seq<Member>, rest: string)
    requires fields != [] && Fields(fields)
    ensures ParseMembers(SpellFields(fields, rest), acc) == Some((InsertAll(acc, FieldsRead(fields)), rest))
    decreases fields, 1
  {
    var x := fields[0];
    var more := if |fields| == 1 then "}" + rest else "," + SpellFields(fields[1..], rest);
    var key, v := StringRead(x.key), Reading(x.value);
    AfterEnds(x.after, more);
    ReadsTree(x.value, x.after + more);
    FieldRead(x, more, SpellFields(fields, rest));
    InsertNext(acc, Member(key, v), FieldsRead(fields[1..]));
    if |fields| == 1 {
      MembersStop(SpellFields(fields, rest), acc, key, v, x.after + more, rest);
    } else {
      MembersStep(SpellFields(fields, rest), acc, key, v, x.after + more, SpellFields(fields[1..], rest));
      ReadsFields(fields[1..], Insert(acc, key, v), rest);
    }
  }

  lemma InsertNext(acc: seq<Member>, x: Member, ms: seq<Member>)
    ensures InsertAll(acc, [x] + ms) == InsertAll(Insert(acc, x.key, x.value), ms)
    ensures ms == [] ==> InsertAll(acc, [x] + ms) == Insert(acc, x.key, x.value)
  {
    assert ([x] + ms)[1..] == ms;
  }

  /** With white space in front as well. */
  lemma ReadsText(w: string, t: Tree, rest: string)
    requires Blank(w) && IsTree(t) && (t.NumT? ==> Ends(rest))
    ensures ParseValue(w + Spell(t, rest)) == Some((Reading(t), rest))
  {
    SkipSpace(w, Spell(t, rest));
    ValueSkips(w + Spell(t, rest), Spell(t, rest));
    ReadsTree(t, rest);
  }

  /** The value of the last member with the key. */
  function Last(ms: seq<Member>, key: string): Option<J> {
    if ms == [] then None
    else if Last(ms[1..], key).Some? then Last(ms[1..], key)
    else if ms[0].key == key then Some(ms[0].value)
    else None
  }

  /** Of several members with one key the last one written counts. */
  lemma {:induction false} FindLast(acc: seq<Member>, ms: seq<Member>, key: string)
    ensures Find(InsertAll(acc, ms), key) == if Last(ms, key).Some? then Last(ms, key) else Find(acc, key)
    decreases ms
  {
    if ms != [] {
      FindLast(Insert(acc, ms[0].key, ms[0].value), ms[1..], key);
      FindInsert(acc, ms[0].key, ms[0].value, key);
    }
  }

  // ---------- and nothing else ----------

  /** The closing quote of the string is missing. */
  predicate OpenEnd(s: string)
    decreases |s|
  {
    if s == [] then true
    else if s[0] == '"' then false
    else if s[0] == '\\' then |s| == 1 || OpenEnd(if s[1] == 'u' then Drop(s[2..], 4) else s[2..])
    else OpenEnd(s[1..])
  }

  /** The text is a string that goes on to its end, which the parser accepts as well. */
  predicate Unclosed(s: string) {
    var t := SkipWs(s);
    t != [] && t[0] == '"' && OpenEnd(t[1..])
  }

  lemma {:induction false} OpenRunsOut(s: string)
    requires OpenEnd(s)
    ensures ParseBody(s).1 == []
    decreases |s|
  {
    if s == [] {
    } else if s[0] == '\\' {
      if |s| > 1 {
        OpenRunsOut(if s[1] == 'u' then Drop(s[2..], 4) else s[2..]);
      }
    } else {
      OpenRunsOut(s[1..]);
    }
  }

  /** A `u` escape in a string that is closed has its four characters. */
  lemma NumberedPiece(s: string)
    requires |s| > 1 && s[0] == '\\' && s[1] == 'u' && !OpenEnd(Drop(s[2..], 4))
    ensures |s| > 6 && Drop(s[2..], 4) == s[6..] && s == PieceText(Unicode(s[2..6])) + s[6..]
  {
    assert Drop(s[2..], 4) != [];
    assert s[2..][4..] == s[6..];
  }

  /** The first piece of a string that is closed, and what follows it. */
  lemma FirstPiece(s: string) returns (p: Piece, tail: string)
    requires s != [] && s[0] != '"' && !OpenEnd(s)
    ensures IsPiece(p) && s == PieceText(p) + tail && !OpenEnd(tail) && |tail| < |s|
  {
    if s[0] != '\\' {
      p, tail := Plain(s[0]), s[1..];
    } else if s[1] != 'u' {
      p, tail := Short(s[1]), s[2..];
    } else {
      NumberedPiece(s);
      p, tail := Unicode(s[2..6]), s[6..];
    }
  }

  lemma {:induction false} StringSplits(s: string) returns (ps: seq<Piece>)
    requires !OpenEnd(s)
    ensures Pieces(ps) && s == Written(ps) + ("\"" + ParseBody(s).1)
    decreases |s|
  {
    if s[0] == '"' {
      ps := [];
      assert s == "" + ("\"" + s[1..]);
    } else {
      var p, tail := FirstPiece(s);
      var more := StringSplits(tail);
      ps := [p] + more;
      ReadsPiece(p, tail);
      Assoc(PieceText(p), Written(more), "\"" + ParseBody(tail).1);
      assert ps[1..] == more;
    }
  }

  /** What the parser takes for a string, if its quote is closed, is a derivation. */
  lemma StringAccepted(s: string, key: string, rest: string) returns (ps: seq<Piece>)
    requires ParseString(s) == Some((key, rest)) && !OpenEnd(s[1..])
    ensures Pieces(ps) && s == "\"" + (Written(ps) + ("\"" + rest)) && StringRead(ps) == key
  {
    ps := StringSplits(s[1..]);
    ReadsString(ps, rest);
    assert s == "\"" + s[1..];
  }

  lemma {:induction false} RunStops(s: string)
    ensures forall i :: 0 <= i < NumberRun(s) ==> NumberChar(s[i])
    ensures Ends(s[NumberRun(s)..])
  {
    if s != [] && NumberChar(s[0]) {
      RunStops(s[1..]);
      assert s[NumberRun(s)..] == s[1..][NumberRun(s[1..])..];
    }
  }

  lemma NumberAccepted(s: string, v: J, rest: string)
    requires s != [] && (s[0] == '-' || s[0] == '+' || IsDigit(s[0])) && ParseNumber(s) == Some((v, rest))
    ensures v.Num? && IsNumber(v.lexeme) && s == v.lexeme + rest && Ends(rest)
  {
    RunStops(s);
  }

  lemma ValueAccepted(s: string, v: J, rest: string) returns (t: Tree)
    requires s != [] && !IsSpace(s[0]) && s[0] != '{' && s[0] != '['
    requires ParseValue(s) == Some((v, rest)) && !Unclosed(s)
    ensures IsTree(t) && s == Spell(t, rest) && Reading(t) == v && (t.NumT? ==> Ends(rest))
  {
    assert SkipWs(s) == s;
    if s[0] == '"' {
      var ps := StringAccepted(s, v.s, rest);
      t := StrT(ps);
    } else if "true" <= s {
      t := BoolT(true);
      assert s == "true" + s[4..];
    } else if "false" <= s {
      t := BoolT(false);
      assert s == "false" + s[5..];
    } else if "null" <= s {
      t := NullT;
      assert s == "null" + s[4..];
    } else {
      NumberAccepted(s, v, rest);
      t := NumT(v.lexeme);
    }
  }

  /** Whatever the parser accepts, but for a string that goes on to the end of the text, is white space and a
      derivation in front of what it leaves. */
  lemma {:induction false} Accepted(s: string, v: J, rest: string) returns (w: string, t: Tree)
    requires ParseValue(s) == Some((v, rest)) && !Unclosed(s)
    ensures Blank(w) && IsTree(t) && s == w + Spell(t, rest) && Reading(t) == v && (t.NumT? ==> Ends(rest))
    decreases |s|, 1
  {
    w := FrontBlank(s);
    var x := SkipWs(s);
    assert SkipWs(x) == x;
    ValueSkips(s, x);
    if x[0] == '[' {
      t := ArrayAccepted(x, v, rest);
    } else if x[0] == '{' {
      t := ObjectAccepted(x, v, rest);
    } else {
      t := ValueAccepted(x, v, rest);
    }
  }

  lemma {:induction false} ArrayAccepted(s: string, v: J, rest: string) returns (t: Tree)
    requires s != [] && s[0] == '[' && ParseArray(s) == Some((v, rest))
    ensures t.ArrT? && IsTree(t) && s == Spell(t, rest) && Reading(t) == v
    decreases |s|, 0
  {
    var x := SkipWs(s[1..]);
    assert s == "[" + s[1..];
    if x != [] && x[0] == ']' {
      var inner := FrontBlank(s[1..]);
      assert x == "]" + rest;
      t := ArrT([], inner);
    } else {
      assert SkipWs(x) == x;
      LoopSkips(s[1..], x, [], []);
      var items := ItemsAccepted(s[1..], [], v.elems, rest);
      assert [] + ItemsRead(items) == ItemsRead(items);
      t := ArrT(items, "");
    }
  }

  lemma {:induction false} ObjectAccepted(s: string, v: J, rest: string) returns (t: Tree)
    requires s != [] && s[0] == '{' && ParseObject(s) == Some((v, rest))
    ensures t.ObjT? && IsTree(t) && s == Spell(t, rest) && Reading(t) == v
    decreases |s|, 0
  {
    var x := SkipWs(s[1..]);
    assert s == "{" + s[1..];
    if x != [] && x[0] == '}' {
      var inner := FrontBlank(s[1..]);
      assert x == "}" + rest;
      t := ObjT([], inner);
    } else {
      assert SkipWs(x) == x;
      LoopSkips(s[1..], x, [], []);
      var fields := FieldsAccepted(s[1..], [], v.members, rest);
      t := ObjT(fields, "");
    }
  }

  /** A string that goes on to the end leaves nothing to close the list with. */
  lemma ClosedInList(s: string, v: J, u: string)
    requires ParseValue(s) == Some((v, u)) && u != []
    ensures !Unclosed(s)
  {
    var t := SkipWs(s);
    if t != [] && t[0] == '"' && OpenEnd(t[1..]) {
      OpenRunsOut(t[1..]);
    }
  }

  /** One turn of the loop of `parse_array`. */
  lemma ElemsTurn(s: string, acc: seq<J>, a: seq<J>, rest: string) returns (v: J, u: string, x: string)
    requires ParseElems(s, acc) == Some((a, rest))
    ensures ParseValue(SkipWs(s)) == Some((v, u)) && u != []
    ensures || (SkipWs(u) == "," + x && |x| < |s| && ParseElems(x, acc + [v]) == Some((a, rest)))
            || (SkipWs(u) == "]" + rest && a == acc + [v])
  {
    v, u := ParseValue(SkipWs(s)).value.0, ParseValue(SkipWs(s)).value.1;
    x := SkipWs(u)[1..];
  }

  lemma {:induction false} ItemsAccepted(s: string, acc: seq<J>, a: seq<J>, rest: string) returns (items: seq<Item>)
    requires ParseElems(s, acc) == Some((a, rest))
    ensures items != [] && Items(items) && s == SpellItems(items, rest) && a == acc + ItemsRead(items)
    decreases |s|, 2
  {
    var v, u, x := ElemsTurn(s, acc, a, rest);
    ClosedInList(SkipWs(s), v, u);
    var before := FrontBlank(s);
    var w, t := Accepted(SkipWs(s), v, u);
    var after := FrontBlank(u);
    Assoc(before, w, Spell(t, u));
    if SkipWs(u)[0] == ',' {
      var more := ItemsAccepted(x, acc + [v], a, rest);
      items := ItemThen(Item(before + w, t, after), more, acc, rest);
    } else {
      items := [Item(before + w, t, after)];
      assert ItemsRead(items) == [v];
    }
  }

  lemma ItemThen(x: Item, more: seq<Item>, acc: seq<J>, rest: string) returns (items: seq<Item>)
    requires Blank(x.before) && IsTree(x.value) && Blank(x.after) && more != [] && Items(more)
    ensures items != [] && Items(items) && acc + ItemsRead(items) == acc + [Reading(x.value)] + ItemsRead(more)
    ensures SpellItems(items, rest) == x.before + Spell(x.value, x.after + ("," + SpellItems(more, rest)))
  {
    items := [x] + more;
    assert items[1..] == more;
    Assoc(acc, [Reading(x.value)], ItemsRead(more));
  }

  /** The text of a member up to its value. */
  lemma FieldFront(s: string, key: string, u: string, t: string) returns (before: string, ps: seq<Piece>, colon: string)
    requires ParseString(SkipWs(s)) == Some((key, u)) && u != [] && SkipWs(u) == ":" + t
    ensures Blank(before) && Pieces(ps) && Blank(colon) && StringRead(ps) == key
    ensures s == before + ("\"" + (Written(ps) + ("\"" + (colon + (":" + t)))))
  {
    if OpenEnd(SkipWs(s)[1..]) {
      OpenRunsOut(SkipWs(s)[1..]);
    }
    before := FrontBlank(s);
    ps := StringAccepted(SkipWs(s), key, u);
    colon := FrontBlank(u);
  }

  /** The parts that a turn of the loop of `parse_object` reads. */
  lemma MemberKey(s: string, acc: seq<Member>) returns (key: string, u: string, t: string)
    requires ParseMembers(s, acc).Some?
    ensures ParseString(SkipWs(s)) == Some((key, u)) && u != [] && SkipWs(u) == ":" + t && |t| < |s|
    ensures ParseValue(SkipWs(t)).Some?
  {
    key, u := ParseString(SkipWs(s)).value.0, ParseString(SkipWs(s)).value.1;
    t := SkipWs(u)[1..];
  }

  lemma MemberEnd(s: string, acc: seq<Member>, key: string, u: string, t: string, v: J, w: string)
    requires ParseMembers(s, acc).Some?
    requires ParseString(SkipWs(s)) == Some((key, u)) && SkipWs(u) == ":" + t && ParseValue(SkipWs(t)) == Some((v, w))
    ensures SkipWs(w) != [] && (SkipWs(w)[0] == ',' || SkipWs(w)[0] == '}') && ReadsMember(s, key, v, w)
  {
    assert (":" + t)[1..] == t;
  }

  /** A member in front of others, or of the end of the object. */
  lemma {:induction false} FieldsFrom(s: string, acc: seq<Member>, m: seq<Member>, rest: string,
                                      x: Field, key: string, v: J, w: string) returns (fields: seq<Field>)
    requires ParseMembers(s, acc) == Some((m, rest)) && ReadsMember(s, key, v, w) && |w| <= |s|
    requires SkipWs(w) != [] && (SkipWs(w)[0] == ',' || SkipWs(w)[0] == '}')
    requires IsField(x) && StringRead(x.key) == key && Reading(x.value) == v && s == FieldText(x, SkipWs(w))
    ensures fields != [] && Fields(fields) && s == SpellFields(fields, rest) && m == InsertAll(acc, FieldsRead(fields))
    decreases |s|, 2
  {
    var y := SkipWs(w)[1..];
    if SkipWs(w)[0] == ',' {
      assert SkipWs(w) == "," + y;
      MembersStep(s, acc, key, v, w, y);
      var more := FieldsAccepted(y, Insert(acc, key, v), m, rest);
      fields := FieldThen(x, more, acc, rest);
    } else {
      assert SkipWs(w) == "}" + y;
      MembersStop(s, acc, key, v, w, y);
      fields := FieldLast(x, acc, rest);
    }
  }

  lemma {:induction false} FieldsAccepted(s: string, acc: seq<Member>, m: seq<Member>, rest: string) returns (fields: seq<Field>)
    requires ParseMembers(s, acc) == Some((m, rest))
    ensures fields != [] && Fields(fields) && s == SpellFields(fields, rest) && m == InsertAll(acc, FieldsRead(fields))
    decreases |s|, 3
  {
    var key, u, t := MemberKey(s, acc);
    var v, w := ParseValue(SkipWs(t)).value.0, ParseValue(SkipWs(t)).value.1;
    MemberEnd(s, acc, key, u, t, v, w);
    ClosedInList(SkipWs(t), v, w);
    var g, tree := Accepted(SkipWs(t), v, w);
    var x := FieldWhole(s, key, u, t, v, w, g, tree);
    fields := FieldsFrom(s, acc, m, rest, x, key, v, w);
  }

  predicate IsField(x: Field) {
    Blank(x.before) && Pieces(x.key) && Blank(x.colon) && Blank(x.gap) && IsTree(x.value) && Blank(x.after)
  }

  /** A member and the rest of the object, from the comma or the brace on. */
  function FieldText(x: Field, more: string): string {
    x.before + ("\"" + (Written(x.key) + ("\"" + (x.colon + (":" + (x.gap + Spell(x.value, x.after + more)))))))
  }

  lemma FieldThen(x: Field, more: seq<Field>, acc: seq<Member>, rest: string) returns (fields: seq<Field>)
    requires IsField(x) && more != [] && Fields(more)
    ensures fields != [] && Fields(fields) && SpellFields(fields, rest) == FieldText(x, "," + SpellFields(more, rest))
    ensures InsertAll(acc, FieldsRead(fields)) == InsertAll(Insert(acc, StringRead(x.key), Reading(x.value)), FieldsRead(more))
  {
    fields := [x] + more;
    assert fields[1..] == more;
    InsertNext(acc, Member(StringRead(x.key), Reading(x.value)), FieldsRead(more));
  }

  lemma FieldLast(x: Field, acc: seq<Member>, rest: string) returns (fields: seq<Field>)
    requires IsField(x)
    ensures fields != [] && Fields(fields) && SpellFields(fields, rest) == FieldText(x, "}" + rest)
    ensures InsertAll(acc, FieldsRead(fields)) == Insert(acc, StringRead(x.key), Reading(x.value))
  {
    fields := [x];
    InsertNext(acc, Member(StringRead(x.key), Reading(x.value)), []);
    assert FieldsRead(fields) == [Member(StringRead(x.key), Reading(x.value))] + [];
  }

  /** A member with the white space around its parts. */
  lemma FieldWhole(s: string, key: string, u: string, t: string, v: J, w: string, g: string, tree: Tree) returns (x: Field)
    requires ParseString(SkipWs(s)) == Some((key, u)) && u != [] && SkipWs(u) == ":" + t
    requires Blank(g) && IsTree(tree) && SkipWs(t) == g + Spell(tree, w) && Reading(tree) == v
    ensures IsField(x) && StringRead(x.key) == key && Reading(x.value) == v && s == FieldText(x, SkipWs(w))
  {
    var before, ps, colon := FieldFront(s, key, u, t);
    var gap := FrontBlank(t);
    var after := FrontBlank(w);
    Assoc(gap, g, Spell(tree, w));
    x := Field(before, ps, colon, gap + g, tree, after);
  }

  /** What the text derives, with what it leaves. */
  ghost predicate Parses(s: string, w: string, t: Tree, v: J, rest: string) {
    Blank(w) && IsTree(t) && (t.NumT? ==> Ends(rest)) && s == w + Spell(t, rest) && Reading(t) == v
  }

  /** The parser is exactly the grammar: it reads a value and leaves a rest if and only if the text is white space
      and a derivation of the value in front of the rest. A string that goes on to the end of the text is read
      to the end. */
  lemma ParserIsGrammar(s: string, v: J, rest: string)
    ensures !Unclosed(s) ==> (ParseValue(s) == Some((v, rest)) <==> exists w, t :: Parses(s, w, t, v, rest))
    ensures Unclosed(s) ==> ParseValue(s).Some? && ParseValue(s).value.0.Str? && ParseValue(s).value.1 == ""
  {
    if Unclosed(s) {
      OpenRunsOut(SkipWs(s)[1..]);
    } else if ParseValue(s) == Some((v, rest)) {
      var w, t := Accepted(s, v, rest);
      assert Parses(s, w, t, v, rest);
    } else if w, t :| Parses(s, w, t, v, rest) {
      ReadsText(w, t, rest);
    }
  }
}
