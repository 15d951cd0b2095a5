/** JSON as RFC 8259 defines it: every value is printed as a text of the standard, and every text of the standard is
    read as the value it stands for, but for the characters that it gives by number. */
module JsonStandard {
  import opened Text
  import opened Json
  import opened JsonGrammar

  // ---------- strings, section 7 ----------

  predicate IsHex(c: char) {
    IsDigit(c) || 'a' <= c <= 'f' || 'A' <= c <= 'F'
  }

  function HexValue(c: char): nat
    requires IsHex(c)
  {
    if IsDigit(c) then c as int - '0' as int
    else if 'a' <= c <= 'f' then c as int - 'a' as int + 10
    else c as int - 'A' as int + 10
  }

  /** The number that four hexadecimal digits give. */
  function Code(d: string): nat
    requires |d| == 4 && IsHex(d[0]) && IsHex(d[1]) && IsHex(d[2]) && IsHex(d[3])
  {
    16 * (16 * (16 * HexValue(d[0]) + HexValue(d[1])) + HexValue(d[2])) + HexValue(d[3])
  }

  /** The eight two-character escapes and what they stand for. */
  predicate Names(e: char, c: char) {
    || (e == '"' && c == '"') || (e == '\\' && c == '\\') || (e == '/' && c == '/')
    || (e == 'b' && c == 8 as char) || (e == 'f' && c == 12 as char) || (e == 'n' && c == 10 as char)
    || (e == 'r' && c == 13 as char) || (e == 't' && c == 9 as char)
  }

  /** The piece stands for the character, which is one byte; no control character stands for itself. */
  predicate Spells(p: Piece, c: char) {
    match p
    case Plain(x) => x == c && ' ' <= c && c != '"' && c != '\\'
    case Short(e) => Names(e, c)
    case Unicode(d) => |d| == 4 && IsHex(d[0]) && IsHex(d[1]) && IsHex(d[2]) && IsHex(d[3]) && Code(d) == c as int < 128
  }

  ghost predicate SpellsAll(ps: seq<Piece>, s: string) {
    |ps| == |s| && forall i :: 0 <= i < |s| ==> Spells(ps[i], s[i])
  }

  predicate Literal(ps: seq<Piece>) {
    forall i :: 0 <= i < |ps| ==> !ps[i].Unicode?
  }

  lemma SpellingPieces(ps: seq<Piece>, s: string)
    requires SpellsAll(ps, s)
    ensures Pieces(ps)
  {
  }

  lemma {:induction false} SpellingRead(ps: seq<Piece>, s: string)
    requires SpellsAll(ps, s) && Literal(ps)
    ensures StringRead(ps) == s
  {
    if s != [] {
      assert Spells(ps[0], s[0]);
      SpellingRead(ps[1..], s[1..]);
      assert [s[0]] + s[1..] == s;
    }
  }

  /** Whichever way a string is spelled without numbers, the parser reads the string, and leaves what follows its
      closing quote. */
  lemma ReadsSpelling(ps: seq<Piece>, s: string, rest: string)
    requires SpellsAll(ps, s) && Literal(ps)
    ensures ParseBody(Written(ps) + ("\"" + rest)) == (s, rest)
  {
    SpellingPieces(ps, s);
    SpellingRead(ps, s);
    ReadsString(ps, rest);
  }

  // ---------- values, sections 2 to 6 ----------

  predicate Space(w: string) {
    forall i :: 0 <= i < |w| ==> w[i] == ' ' || w[i] == '\n' || w[i] == '\r' || w[i] == '\t'
  }

  predicate AllDigits(s: string) {
    s != [] && forall i :: 0 <= i < |s| ==> '0' <= s[i] <= '9'
  }

  /** An integer without a leading zero, perhaps with a minus sign. */
  predicate IsWhole(s: string) {
    var d := if s != [] && s[0] == '-' then s[1..] else s;
    AllDigits(d) && (|d| > 1 ==> d[0] != '0')
  }

  predicate IsFrac(s: string) {
    s == "" || (s[0] == '.' && AllDigits(s[1..]))
  }

  predicate IsExp(s: string) {
    s == "" || ((s[0] == 'e' || s[0] == 'E') &&
                AllDigits(if |s| > 1 && (s[1] == '+' || s[1] == '-') then s[2..] else s[1..]))
  }

  /** A number as section 6 writes it: an integer part, a fraction and an exponent. */
  ghost predicate StandardNumber(n: string) {
    exists w, f, e :: IsWhole(w) && IsFrac(f) && IsExp(e) && n == w + f + e
  }

  /** The text stands for the value: every part of it for its part of the value. The members of an object may stand
      in any order, and of several with one key the last counts; numbers are those that a double can represent. */
  ghost predicate Derives(t: Tree, v: J)
    decreases t, 0
  {
    match t
    case NullT => v == Null
    case BoolT(b) => v == Bool(b)
    case NumT(n) => v == Num(n) && StandardNumber(n) && IN_RANGE(n)
    case StrT(ps) => v.Str? && SpellsAll(ps, v.s)
    case ArrT(items, inner) => v.Arr? && Space(inner) && DerivesItems(items, v.elems)
    case ObjT(fields, inner) =>
      v.Obj? && Space(inner) && exists ms :: DerivesFields(fields, ms) && v.members == InsertAll([], ms)
  }

  ghost predicate DerivesItems(items: seq<Item>, a: seq<J>)
    decreases items, 1
  {
    |items| == |a| &&
    (a != [] ==>
       && Space(items[0].before) && Derives(items[0].value, a[0]) && Space(items[0].after)
       && DerivesItems(items[1..], a[1..]))
  }

  ghost predicate DerivesFields(fields: seq<Field>, m: seq<Member>)
    decreases fields, 1
  {
    |fields| == |m| &&
    (m != [] ==>
       var x := fields[0];
       && Space(x.before) && SpellsAll(x.key, m[0].key) && Space(x.colon)
       && Space(x.gap) && Derives(x.value, m[0].value) && Space(x.after)
       && DerivesFields(fields[1..], m[1..]))
  }

  // ---------- a text of the standard is one of the parser's grammar ----------

  lemma SpaceBlank(w: string)
    requires Space(w)
    ensures Blank(w)
  {
  }

  lemma DigitChars(s: string, i: nat)
    requires i <= |s| && AllDigits(s[i..])
    ensures forall k :: i <= k < |s| ==> IsDigit(s[k])
  {
    forall k | i <= k < |s| ensures IsDigit(s[k]) {
      assert s[i..][k - i] == s[k];
    }
  }

  predicate NumberChars(s: string) {
    forall i :: 0 <= i < |s| ==> NumberChar(s[i])
  }

  lemma WholeChars(w: string)
    requires IsWhole(w)
    ensures NumberChars(w) && w != [] && (w[0] == '-' || IsDigit(w[0])) && (w[0] == '-' ==> |w| > 1 && IsDigit(w[1]))
  {
    DigitChars(w, if w[0] == '-' then 1 else 0);
  }

  lemma FracChars(f: string)
    requires IsFrac(f)
    ensures NumberChars(f)
  {
    if f != "" {
      DigitChars(f, 1);
    }
  }

  lemma ExpChars(e: string)
    requires IsExp(e)
    ensures NumberChars(e)
  {
    if e != "" {
      DigitChars(e, if |e| > 1 && (e[1] == '+' || e[1] == '-') then 2 else 1);
    }
  }

  lemma NumberAccepted(n: string)
    requires StandardNumber(n) && IN_RANGE(n)
    ensures IsNumber(n)
  {
    var w, f, e :| IsWhole(w) && IsFrac(f) && IsExp(e) && n == w + f + e;
    WholeChars(w);
    FracChars(f);
    ExpChars(e);
    assert n[0] == w[0] && (n[0] == '-' ==> n[1] == w[1]);
    assert n[0] == '-' ==> n[1..] != [] && n[1..][0] == n[1];
  }

  lemma {:induction false} DerivesTree(t: Tree, v: J)
    requires Derives(t, v)
    ensures IsTree(t)
    decreases t, 0
  {
    match t
    case NumT(n) => NumberAccepted(n);
    case StrT(ps) => SpellingPieces(ps, v.s);
    case ArrT(items, inner) =>
      SpaceBlank(inner);
      DerivesItemsTree(items, v.elems);
    case ObjT(fields, inner) =>
      SpaceBlank(inner);
      var ms :| DerivesFields(fields, ms) && v.members == InsertAll([], ms);
      DerivesFieldsTree(fields, ms);
    case _ =>
  }

  lemma {:induction false} DerivesItemsTree(items: seq<Item>, a: seq<J>)
    requires DerivesItems(items, a)
    ensures Items(items)
    decreases items, 1
  {
    if a != [] {
      SpaceBlank(items[0].before);
      SpaceBlank(items[0].after);
      DerivesTree(items[0].value, a[0]);
      DerivesItemsTree(items[1..], a[1..]);
    }
  }

  lemma {:induction false} DerivesFieldsTree(fields: seq<Field>, m: seq<Member>)
    requires DerivesFields(fields, m)
    ensures Fields(fields)
    decreases fields, 1
  {
    if m != [] {
      var x := fields[0];
      SpaceBlank(x.before);
      SpaceBlank(x.colon);
      SpaceBlank(x.gap);
      SpaceBlank(x.after);
      SpellingPieces(x.key, m[0].key);
      DerivesTree(x.value, m[0].value);
      DerivesFieldsTree(fields[1..], m[1..]);
    }
  }

  // ---------- what is read of it ----------

  /** No string in the text has a `u` escape. */
  predicate NoNumbered(t: Tree)
    decreases t, 0
  {
    match t
    case StrT(ps) => Literal(ps)
    case ArrT(items, _) => ItemsLiteral(items)
    case ObjT(fields, _) => FieldsLiteral(fields)
    case _ => true
  }

  predicate ItemsLiteral(items: seq<Item>)
    decreases items, 1
  {
    items != [] ==> NoNumbered(items[0].value) && ItemsLiteral(items[1..])
  }

  predicate FieldsLiteral(fields: seq<Field>)
    decreases fields, 1
  {
    fields != [] ==> Literal(fields[0].key) && NoNumbered(fields[0].value) && FieldsLiteral(fields[1..])
  }

  lemma {:induction false} ReadingIs(t: Tree, v: J)
    requires NoNumbered(t) && Derives(t, v)
    ensures Reading(t) == v
    decreases t, 0
  {
    match t
    case StrT(ps) => SpellingRead(ps, v.s);
    case ArrT(items, _) => ItemsReadingIs(items, v.elems);
    case ObjT(fields, _) =>
      var ms :| DerivesFields(fields, ms) && v.members == InsertAll([], ms);
      FieldsReadingIs(fields, ms);
    case _ =>
  }

  lemma {:induction false} ItemsReadingIs(items: seq<Item>, a: seq<J>)
    requires ItemsLiteral(items) && DerivesItems(items, a)
    ensures ItemsRead(items) == a
    decreases items, 1
  {
    if a != [] {
      ReadingIs(items[0].value, a[0]);
      ItemsReadingIs(items[1..], a[1..]);
      assert [a[0]] + a[1..] == a;
    }
  }

  lemma {:induction false} FieldsReadingIs(fields: seq<Field>, m: seq<Member>)
    requires FieldsLiteral(fields) && DerivesFields(fields, m)
    ensures FieldsRead(fields) == m
    decreases fields, 1
  {
    if m != [] {
      SpellingRead(fields[0].key, m[0].key);
      ReadingIs(fields[0].value, m[0].value);
      FieldsReadingIs(fields[1..], m[1..]);
      assert [Member(m[0].key, m[0].value)] + m[1..] == m;
    }
  }

  /** Whatever text of the standard stands for a value, with any escapes but those by number, any white space
      and any text after it, the parser reads that value and leaves what follows. */
  lemma ReadsAnyText(w: string, t: Tree, v: J, rest: string)
    requires Space(w) && NoNumbered(t) && Derives(t, v) && (t.NumT? ==> Ends(rest))
    ensures ParseValue(w + Spell(t, rest)) == Some((v, rest))
  {
    SpaceBlank(w);
    DerivesTree(t, v);
    ReadsText(w, t, rest);
    ReadingIs(t, v);
  }

  // ---------- what the printer writes ----------

  /** How the printer writes a character. */
  function PieceOf(c: char): Piece {
    if c == '"' || c == '\\' then Short(c)
    else if c == '\n' then Short('n')
    else if c == '\r' then Short('r')
    else if c == '\t' then Short('t')
    else if c < ' ' then Unicode(['0', '0', HexDigit(c as int / 16), HexDigit(c as int % 16)])
    else Plain(c)
  }

  function PiecesOf(s: string): (ps: seq<Piece>)
    ensures |ps| == |s| && forall i :: 0 <= i < |s| ==> ps[i] == PieceOf(s[i])
  {
    if s == [] then [] else [PieceOf(s[0])] + PiecesOf(s[1..])
  }

  lemma HexDigitValue(n: nat)
    requires n < 16
    ensures IsHex(HexDigit(n)) && HexValue(HexDigit(n)) == n
  {
  }

  lemma PiecePrinted(c: char)
    ensures Spells(PieceOf(c), c) && PieceText(PieceOf(c)) == EscapeChar(c)
    ensures PieceRead(PieceOf(c)) == if Lossy(c) then [] else [c]
  {
    if Lossy(c) {
      HexDigitValue(c as int / 16);
      HexDigitValue(c as int % 16);
      assert "\\u" + ['0', '0', HexDigit(c as int / 16), HexDigit(c as int % 16)] ==
             "\\u00" + [HexDigit(c as int / 16), HexDigit(c as int % 16)];
    }
  }

  /** The printer writes a spelling of the string; what the parser loses of it are the control characters that are
      written by number. */
  lemma {:induction false} PrintsString(s: string)
    ensures Escape(s) == Written(PiecesOf(s)) && SpellsAll(PiecesOf(s), s)
    ensures StringRead(PiecesOf(s)) == StripStr(s)
  {
    forall i | 0 <= i < |s| ensures Spells(PiecesOf(s)[i], s[i]) {
      PiecePrinted(s[i]);
    }
    if s != [] {
      PiecePrinted(s[0]);
      PrintsString(s[1..]);
    }
  }

  /** The white space in front of what stands on a line of its own. */
  function NewLine(indent: nat, level: nat): string {
    Break(indent) + Pad(indent, level)
  }

  /** Without indentation nothing, and else a line feed and so many blanks for each level. */
  lemma NewLineSpace(indent: nat, level: nat)
    ensures Space(NewLine(indent, level))
    ensures indent == 0 ==> NewLine(indent, level) == ""
    ensures indent > 0 ==>
              && |NewLine(indent, level)| == 1 + level * indent && NewLine(indent, level)[0] == '\n'
              && forall i :: 0 < i < |NewLine(indent, level)| ==> NewLine(indent, level)[i] == ' '
  {
  }

  /** The derivation that the printer follows. */
  function TreeOf(v: J, indent: nat, level: nat): Tree
    requires NoNum(v)
    decreases v, 0
  {
    match v
    case Null => NullT
    case Bool(b) => BoolT(b)
    case Str(s) => StrT(PiecesOf(s))
    case Arr(a) => ArrT(ItemsOf(a, indent, level), "")
    case Obj(m) => ObjT(FieldsOf(m, indent, level), "")
  }

  function ItemsOf(a: seq<J>, indent: nat, level: nat): (items: seq<Item>)
    requires forall e :: e in a ==> NoNum(e)
    ensures |items| == |a|
    decreases a, 1
  {
    if a == [] then []
    else
      [Item(NewLine(indent, level + 1), TreeOf(a[0], indent, level + 1), if |a| == 1 then NewLine(indent, level) else "")]
      + ItemsOf(a[1..], indent, level)
  }

  function FieldsOf(m: seq<Member>, indent: nat, level: nat): (fields: seq<Field>)
    requires forall x :: x in m ==> NoNum(x.value)
    ensures |fields| == |m|
    decreases m, 1
  {
    if m == [] then []
    else
      [Field(NewLine(indent, level + 1), PiecesOf(m[0].key), "", if indent > 0 then " " else "",
             TreeOf(m[0].value, indent, level + 1), if |m| == 1 then NewLine(indent, level) else "")]
      + FieldsOf(m[1..], indent, level)
  }

  lemma {:induction false} TreeOfOk(v: J, indent: nat, level: nat)
    requires NoNum(v)
    ensures IsTree(TreeOf(v, indent, level)) && Reading(TreeOf(v, indent, level)) == Strip(v)
    ensures Ordered(v) ==> Derives(TreeOf(v, indent, level), v)
    decreases v, 0
  {
    match v
    case Str(s) =>
      PrintsString(s);
      SpellingPieces(PiecesOf(s), s);
    case Arr(a) => ItemsOfOk(a, indent, level);
    case Obj(m) =>
      FieldsOfOk(m, indent, level);
      assert [] + m == m;
      if Ordered(v) {
        InsertAllSorted([], m);
      }
    case _ =>
  }

  lemma {:induction false} ItemsOfOk(a: seq<J>, indent: nat, level: nat)
    requires forall e :: e in a ==> NoNum(e)
    ensures Items(ItemsOf(a, indent, level))
    ensures (forall e :: e in a ==> Ordered(e)) ==> DerivesItems(ItemsOf(a, indent, level), a)
    ensures ItemsRead(ItemsOf(a, indent, level)) == StripElems(a)
    decreases a, 1
  {
    if a != [] {
      NewLineSpace(indent, level);
      NewLineSpace(indent, level + 1);
      SpaceBlank(NewLine(indent, level));
      SpaceBlank(NewLine(indent, level + 1));
      TreeOfOk(a[0], indent, level + 1);
      ItemsOfOk(a[1..], indent, level);
    }
  }

  lemma {:induction false} FieldsOfOk(m: seq<Member>, indent: nat, level: nat)
    requires forall x :: x in m ==> NoNum(x.value)
    ensures Fields(FieldsOf(m, indent, level))
    ensures (forall x :: x in m ==> Ordered(x.value)) ==> DerivesFields(FieldsOf(m, indent, level), m)
    ensures FieldsRead(FieldsOf(m, indent, level)) == StripMembers(m)
    decreases m, 1
  {
    if m != [] {
      NewLineSpace(indent, level);
      NewLineSpace(indent, level + 1);
      SpaceBlank(NewLine(indent, level));
      SpaceBlank(NewLine(indent, level + 1));
      PrintsString(m[0].key);
      SpellingPieces(PiecesOf(m[0].key), m[0].key);
      TreeOfOk(m[0].value, indent, level + 1);
      FieldsOfOk(m[1..], indent, level);
    }
  }

  lemma Regroup5(p: string, d: string, sep: string, br: string, more: string, close: string)
    ensures p + d + sep + br + more + close == p + (d + (sep + (br + (more + close))))
  {
  }

  /** What is printed is the text of that derivation. */
  lemma {:induction false} Prints(v: J, indent: nat, level: nat, rest: string)
    requires NoNum(v)
    ensures Spell(TreeOf(v, indent, level), rest) == Dump(v, indent, level) + rest
    decreases v, 0
  {
    match v
    case Null =>
    case Bool(b) =>
    case Str(s) =>
      PrintsString(s);
      assert "\"" + Escape(s) + "\"" + rest == "\"" + (Escape(s) + ("\"" + rest));
    case Arr(a) =>
      if a == [] {
        assert "[" + ("" + ("]" + rest)) == "[]" + rest;
      } else {
        PrintsItems(a, indent, level, rest);
        Regroup5("[", Break(indent), DumpElems(a, indent, level), Pad(indent, level), "]", rest);
        assert "]" + rest == "" + ("]" + rest);
      }
    case Obj(m) =>
      if m == [] {
        assert "{" + ("" + ("}" + rest)) == "{}" + rest;
      } else {
        PrintsFields(m, indent, level, rest);
        Regroup5("{", Break(indent), DumpMembers(m, indent, level), Pad(indent, level), "}", rest);
        assert "}" + rest == "" + ("}" + rest);
      }
  }

  lemma NewLineThen(indent: nat, level: nat, s: string)
    ensures NewLine(indent, level) + s == Break(indent) + (Pad(indent, level) + s)
  {
  }

  lemma {:induction false} PrintsItems(a: seq<J>, indent: nat, level: nat, rest: string)
    requires a != [] && forall e :: e in a ==> NoNum(e)
    ensures SpellItems(ItemsOf(a, indent, level), rest) ==
            Break(indent) + (DumpElems(a, indent, level) + (Pad(indent, level) + ("]" + rest)))
    decreases a, 1
  {
    var close := Pad(indent, level) + ("]" + rest);
    var sep := if |a| > 1 then "," else "";
    var more := sep + (Break(indent) + (DumpElems(a[1..], indent, level) + close));
    Regroup5(Pad(indent, level + 1), Dump(a[0], indent, level + 1), sep, Break(indent), DumpElems(a[1..], indent, level), close);
    Prints(a[0], indent, level + 1, more);
    NewLineThen(indent, level + 1, Dump(a[0], indent, level + 1) + more);
    if |a| == 1 {
      NewLineThen(indent, level, "]" + rest);
      assert "" + close == close && "" + (Break(indent) + close) == Break(indent) + close;
    } else {
      PrintsItems(a[1..], indent, level, rest);
      assert "" + more == more;
    }
  }

  lemma Regroup8(p: string, q: string, e: string, col: string, bl: string, d: string, sep: string, br: string, more: string, close: string)
    ensures p + (q + e + q) + col + bl + d + sep + br + more + close ==
            p + (q + (e + (q + (col + (bl + (d + (sep + (br + (more + close)))))))))
  {
    Regroup5(p + (q + e + q) + col + bl, d, sep, br, more, close);
    var t := d + (sep + (br + (more + close)));
    assert p + (q + e + q) + col + bl + t == p + (q + (e + (q + (col + (bl + t)))));
  }

  lemma FieldShape(m: seq<Member>, indent: nat, level: nat, blank: string, more: string, close: string)
    requires m != [] && blank == (if indent > 0 then " " else "")
    requires more == (if |m| > 1 then "," else "") + (Break(indent) + (DumpMembers(m[1..], indent, level) + close))
    ensures DumpMembers(m, indent, level) + close ==
            Pad(indent, level + 1) + ("\"" + (Escape(m[0].key) + ("\"" + (":" + (blank + (Dump(m[0].value, indent, level + 1) + more))))))
  {
    Regroup8(Pad(indent, level + 1), "\"", Escape(m[0].key), ":", blank, Dump(m[0].value, indent, level + 1),
             if |m| > 1 then "," else "", Break(indent), DumpMembers(m[1..], indent, level), close);
  }

  lemma FieldSpelt(m: seq<Member>, indent: nat, level: nat, rest: string, more: string)
    requires m != [] && forall x :: x in m ==> NoNum(x.value)
    requires more == (if |m| == 1 then NewLine(indent, level) + ("}" + rest)
                      else "" + ("," + SpellFields(FieldsOf(m[1..], indent, level), rest)))
    ensures SpellFields(FieldsOf(m, indent, level), rest) ==
            NewLine(indent, level + 1) + ("\"" + (Written(PiecesOf(m[0].key)) + ("\"" + ("" + (":" +
              ((if indent > 0 then " " else "") + Spell(TreeOf(m[0].value, indent, level + 1), more)))))))
  {
  }

  /** What stands after the value of a member. */
  lemma FieldTail(m: seq<Member>, indent: nat, level: nat, rest: string, more: string, close: string)
    requires m != [] && (forall x :: x in m ==> NoNum(x.value)) && close == Pad(indent, level) + ("}" + rest)
    requires more == (if |m| > 1 then "," else "") + (Break(indent) + (DumpMembers(m[1..], indent, level) + close))
    requires |m| > 1 ==> SpellFields(FieldsOf(m[1..], indent, level), rest) ==
                         Break(indent) + (DumpMembers(m[1..], indent, level) + close)
    ensures more == (if |m| == 1 then NewLine(indent, level) + ("}" + rest)
                     else "" + ("," + SpellFields(FieldsOf(m[1..], indent, level), rest)))
  {
    if |m| == 1 {
      NewLineThen(indent, level, "}" + rest);
      assert "" + close == close && "" + (Break(indent) + close) == Break(indent) + close;
    } else {
      assert "" + more == more;
    }
  }

  lemma {:induction false} PrintsFields(m: seq<Member>, indent: nat, level: nat, rest: string)
    requires m != [] && forall x :: x in m ==> NoNum(x.value)
    ensures SpellFields(FieldsOf(m, indent, level), rest) ==
            Break(indent) + (DumpMembers(m, indent, level) + (Pad(indent, level) + ("}" + rest)))
    decreases m, 1
  {
    var close := Pad(indent, level) + ("}" + rest);
    var more := (if |m| > 1 then "," else "") + (Break(indent) + (DumpMembers(m[1..], indent, level) + close));
    var blank := if indent > 0 then " " else "";
    if |m| > 1 {
      PrintsFields(m[1..], indent, level, rest);
    }
    FieldTail(m, indent, level, rest, more, close);
    FieldSpelt(m, indent, level, rest, more);
    Prints(m[0].value, indent, level + 1, more);
    PrintsString(m[0].key);
    FieldShape(m, indent, level, blank, more, close);
    var t := ":" + (blank + (Dump(m[0].value, indent, level + 1) + more));
    assert "" + t == t;
    NewLineThen(indent, level + 1, "\"" + (Escape(m[0].key) + ("\"" + t)));
  }

  /** Every printed value is a text of the standard for that value. */
  lemma PrintsJson(v: J, indent: nat, level: nat) returns (t: Tree)
    requires NoNum(v) && Ordered(v)
    ensures Derives(t, v) && Dump(v, indent, level) == Spell(t, "")
  {
    t := TreeOf(v, indent, level);
    TreeOfOk(v, indent, level);
    Prints(v, indent, level, "");
    assert Dump(v, indent, level) + "" == Dump(v, indent, level);
  }

}
