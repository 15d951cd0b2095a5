/** Strings as the program sees them: one `char` stands for one byte of a C++ string.
    Character classes are those of the C locale. */
module Text {
  import opened Widths

  datatype Option<+T> = None | Some(value: T) {
    predicate IsFailure() {
      None?
    }
    function PropagateFailure<U>(): Option<U>
      requires None?
    {
      None
    }
    function Extract(): T
      requires Some?
    {
      value
    }
  }

  predicate IsSpace(c: char) {
    c == ' ' || '\t' <= c <= '\r'
  }

  predicate IsDigit(c: char) {
    '0' <= c <= '9'
  }

  predicate IsAlpha(c: char) {
    'a' <= c <= 'z' || 'A' <= c <= 'Z'
  }

  function LowerChar(c: char): char {
    if 'A' <= c <= 'Z' then (c as int + 32) as char else c
  }

  function ToLower(s: string): (t: string) {
    seq(|s|, i requires 0 <= i < |s| => LowerChar(s[i]))
  }

  /** The classes by the codes of the characters. */
  lemma Classes(c: char)
    ensures IsSpace(c) <==> c as int in {9, 10, 11, 12, 13, 32}
    ensures IsDigit(c) <==> 48 <= c as int < 58
    ensures IsAlpha(c) <==> 65 <= c as int < 91 || 97 <= c as int < 123
  {
  }

  /** A capital and a small letter that stand at the same place of the alphabet. */
  predicate Cases(x: char, y: char) {
    'A' <= x <= 'Z' && 'a' <= y <= 'z' && x as int - 'A' as int == y as int - 'a' as int
  }

  /** The texts differ in nothing but the case of letters. */
  predicate SameUpToCase(a: string, b: string) {
    |a| == |b| && forall i :: 0 <= i < |a| ==> a[i] == b[i] || Cases(a[i], b[i]) || Cases(b[i], a[i])
  }

  lemma CharUpToCase(x: char, y: char)
    ensures LowerChar(x) == LowerChar(y) <==> x == y || Cases(x, y) || Cases(y, x)
    ensures LowerChar(x) == x || Cases(x, LowerChar(x))
    ensures !('A' <= LowerChar(x) <= 'Z')
  {
  }

  /** Texts are the same in lower case exactly when they are the same up to case. */
  lemma SameLower(a: string, b: string)
    ensures ToLower(a) == ToLower(b) <==> SameUpToCase(a, b)
  {
    if |a| == |b| {
      forall i | 0 <= i < |a| ensures ToLower(a)[i] == ToLower(b)[i] <==> a[i] == b[i] || Cases(a[i], b[i]) || Cases(b[i], a[i]) {
        CharUpToCase(a[i], b[i]);
      }
    } else {
      assert |ToLower(a)| != |ToLower(b)|;
    }
  }

  /** A text in lower case is the text up to case, and has no capital letter. */
  lemma LowerIs(s: string)
    ensures SameUpToCase(s, ToLower(s)) && forall i :: 0 <= i < |s| ==> !('A' <= ToLower(s)[i] <= 'Z')
  {
    forall i | 0 <= i < |s|
      ensures s[i] == ToLower(s)[i] || Cases(s[i], ToLower(s)[i])
      ensures !('A' <= ToLower(s)[i] <= 'Z')
    {
      CharUpToCase(s[i], s[i]);
    }
  }

  lemma ToLowerIdempotent(s: string)
    ensures ToLower(ToLower(s)) == ToLower(s)
  {
  }

  /** Lower-casing neither creates nor removes a character that is not a letter. */
  lemma ToLowerKeeps(s: string, c: char)
    requires !IsAlpha(c)
    ensures c in ToLower(s) <==> c in s
  {
    if c in s {
      var i :| 0 <= i < |s| && s[i] == c;
      assert ToLower(s)[i] == c;
    }
  }

  /** `std::string::operator<`: byte-wise lexicographic order. */
  predicate Less(a: string, b: string) {
    b != [] && (a == [] || a[0] < b[0] || (a[0] == b[0] && Less(a[1..], b[1..])))
  }

  /** The order: a text that is cut short comes first, and else the first difference decides. */
  lemma {:induction false} LessAt(a: string, b: string)
    ensures Less(a, b) <==> (a < b || exists i :: 0 <= i < |a| && i < |b| && a[..i] == b[..i] && a[i] < b[i])
  {
    if a != [] && b != [] && a[0] == b[0] {
      var x, y := a[1..], b[1..];
      LessAt(x, y);
      assert a == [a[0]] + x && b == [a[0]] + y;
      assert x < y <==> a < b;
      if i :| 0 <= i < |x| && i < |y| && x[..i] == y[..i] && x[i] < y[i] {
        assert a[..i + 1] == [a[0]] + x[..i] && b[..i + 1] == [a[0]] + y[..i];
        assert a[i + 1] < b[i + 1];
      }
      if i :| 0 <= i < |a| && i < |b| && a[..i] == b[..i] && a[i] < b[i] {
        assert x[..i - 1] == a[..i][1..] && y[..i - 1] == b[..i][1..];
        assert x[i - 1] < y[i - 1];
      }
    } else if a != [] && b != [] {
      assert a[..0] == b[..0];
      if i :| 0 <= i < |a| && i < |b| && a[..i] == b[..i] && a[i] < b[i] {
        assert i > 0 ==> a[..i][0] == b[..i][0];
      }
    }
  }

  lemma {:induction false} LessIrreflexive(a: string)
    ensures !Less(a, a)
  {
    if a != [] {
      LessIrreflexive(a[1..]);
    }
  }

  lemma {:induction false} LessTransitive(a: string, b: string, c: string)
    requires Less(a, b) && Less(b, c)
    ensures Less(a, c)
  {
    if a != [] && a[0] == b[0] == c[0] {
      LessTransitive(a[1..], b[1..], c[1..]);
    }
  }

  lemma {:induction false} LessTotal(a: string, b: string)
    ensures Less(a, b) || a == b || Less(b, a)
  {
    if a != [] && b != [] && a[0] == b[0] {
      LessTotal(a[1..], b[1..]);
      assert a == [a[0]] + a[1..] && b == [b[0]] + b[1..];
    }
  }

  /** Skips leading white space. */
  function SkipWs(s: string): (t: string)
    ensures |t| <= |s|
    ensures t == [] || !IsSpace(t[0])
  {
    if s != [] && IsSpace(s[0]) then SkipWs(s[1..]) else s
  }

  predicate Blank(s: string) {
    forall i :: 0 <= i < |s| ==> IsSpace(s[i])
  }

  /** Nothing but white space is skipped. */
  lemma {:induction false} FrontBlank(s: string) returns (a: string)
    ensures Blank(a) && s == a + SkipWs(s)
  {
    if s != [] && IsSpace(s[0]) {
      var a' := FrontBlank(s[1..]);
      a := [s[0]] + a';
      assert s == [s[0]] + s[1..];
    } else {
      a := "";
    }
  }

  /** `n` blanks, as the pretty printer indents. */
  function Blanks(n: nat): (s: string)
    ensures |s| == n && forall i :: 0 <= i < n ==> s[i] == ' '
  {
    seq(n, _ => ' ')
  }

  lemma {:induction false} SkipBlanks(n: nat, s: string)
    ensures SkipWs(Blanks(n) + s) == SkipWs(s)
    decreases n
  {
    if n == 0 {
      assert Blanks(0) + s == s;
    } else {
      assert (Blanks(n) + s)[1..] == Blanks(n - 1) + s;
      SkipBlanks(n - 1, s);
    }
  }

  /** Cuts a text at its first line feed: the line without it, and what follows it. */
  function CutLine(s: string): (r: (string, string))
    ensures '\n' !in r.0
    ensures |r.0| + |r.1| <= |s|
    ensures s != [] ==> |r.1| < |s|
    ensures (s == r.0 && r.1 == []) || s == r.0 + "\n" + r.1
  {
    if s == [] then ([], [])
    else if s[0] == '\n' then ([], s[1..])
    else var (line, rest) := CutLine(s[1..]); ([s[0]] + line, rest)
  }

  lemma {:induction false} CutLineAt(line: string, rest: string)
    requires '\n' !in line
    ensures CutLine(line + "\n" + rest) == (line, rest)
  {
    var s := line + "\n" + rest;
    if line != [] {
      assert s[0] == line[0] && line[0] in line;
      assert s[1..] == line[1..] + "\n" + rest;
      CutLineAt(line[1..], rest);
      assert [line[0]] + line[1..] == line;
    } else {
      assert s[1..] == rest;
    }
  }

  lemma {:induction false} CutLineLast(line: string)
    requires '\n' !in line
    ensures CutLine(line) == (line, [])
  {
    if line != [] {
      CutLineLast(line[1..]);
    }
  }

  /** Decimal digits of a number, as an output stream prints a `size_t`. */
  function Decimal(n: nat): (s: string)
    ensures s != [] && forall c :: c in s ==> IsDigit(c)
  {
    var d := [('0' as int + n % 10) as char];
    if n < 10 then d else Decimal(n / 10) + d
  }

  function DigitValue(c: char): nat
    requires IsDigit(c)
  {
    c as int - '0' as int
  }

  /** Reads the longest run of digits, starting from the value already read. */
  function ReadDigits(s: string, acc: nat): nat {
    if s == [] || !IsDigit(s[0]) then acc else ReadDigits(s[1..], 10 * acc + DigitValue(s[0]))
  }

  /** `std::stoull`: leading white space, an optional sign, digits, and anything after them;
      `None` stands for the exception. A minus sign negates modulo 2^64. */
  function Stoull(s: string): Option<nat> {
    var t := SkipWs(s);
    var minus := t != [] && t[0] == '-';
    var u := if t != [] && (t[0] == '-' || t[0] == '+') then t[1..] else t;
    if u == [] || !IsDigit(u[0]) then None
    else
      var v := ReadDigits(u, 0);
      if v >= TWO_64 then None else Some(if minus then (TWO_64 - v) % TWO_64 else v)
  }

  lemma {:induction false} ReadDigitsAppend(s: string, d: char, acc: nat)
    requires forall c :: c in s ==> IsDigit(c)
    requires IsDigit(d)
    ensures ReadDigits(s + [d], acc) == 10 * ReadDigits(s, acc) + DigitValue(d)
  {
    if s == [] {
      assert (s + [d])[1..] == [];
    } else {
      assert (s + [d])[1..] == s[1..] + [d];
      assert s[0] in s;
      ReadDigitsAppend(s[1..], d, 10 * acc + DigitValue(s[0]));
    }
  }

  lemma {:induction false} ReadDecimal(n: nat)
    ensures ReadDigits(Decimal(n), 0) == n
  {
    var d := ('0' as int + n % 10) as char;
    if n < 10 {
      assert Decimal(n)[1..] == [];
    } else {
      ReadDecimal(n / 10);
      ReadDigitsAppend(Decimal(n / 10), d, 0);
    }
  }

  /** The digits are those of base 10, the last one the units. */
  lemma DecimalIs(n: nat, d: nat)
    requires d < 10
    ensures Decimal(d) == [['0', '1', '2', '3', '4', '5', '6', '7', '8', '9'][d]]
    ensures n > 0 ==> Decimal(10 * n + d) == Decimal(n) + [['0', '1', '2', '3', '4', '5', '6', '7', '8', '9'][d]]
  {
  }

  /** A number in a text: white space and a sign may stand before its digits, and anything after them; a minus sign
      counts from 2^64 down, and a number of 2^64 or more is an exception. */
  lemma StoullIs(w: string, sign: string, d: string, rest: string)
    requires Blank(w) && sign in {"", "+", "-"}
    requires d != [] && (forall c :: c in d ==> IsDigit(c)) && (rest == [] || !IsDigit(rest[0]))
    ensures var v := ReadDigits(d, 0);
            Stoull(w + (sign + (d + rest))) ==
              if v >= TWO_64 then None else if sign == "-" && v > 0 then Some(TWO_64 - v) else Some(v)
  {
    var s := sign + (d + rest);
    assert s != [] && (sign == "" ==> s == d + rest) && (sign != "" ==> s[0] == sign[0] && s[1..] == d + rest);
    assert d[0] in d;
    BlankSkipped(w, s);
    DigitsStop(d, rest, 0);
  }

  lemma {:induction false} BlankSkipped(w: string, s: string)
    requires Blank(w) && s != [] && !IsSpace(s[0])
    ensures SkipWs(w + s) == s
  {
    if w == [] {
      assert w + s == s;
    } else {
      assert (w + s)[1..] == w[1..] + s;
      BlankSkipped(w[1..], s);
    }
  }

  lemma {:induction false} DigitsStop(d: string, rest: string, acc: nat)
    requires (forall c :: c in d ==> IsDigit(c)) && (rest == [] || !IsDigit(rest[0]))
    ensures ReadDigits(d + rest, acc) == ReadDigits(d, acc)
    decreases d
  {
    if d == [] {
      assert d + rest == rest;
    } else {
      assert d[0] in d && (d + rest)[1..] == d[1..] + rest;
      DigitsStop(d[1..], rest, 10 * acc + DigitValue(d[0]));
    }
  }

  lemma StoullDigits(s: string)
    requires s != [] && forall c :: c in s ==> IsDigit(c)
    requires ReadDigits(s, 0) < TWO_64
    ensures Stoull(s) == Some(ReadDigits(s, 0))
  {
    assert s[0] in s;
    assert SkipWs(s) == s;
  }

  /** A printed position reads back as itself. */
  lemma StoullDecimal(n: nat)
    requires n < TWO_64
    ensures Stoull(Decimal(n)) == Some(n)
  {
    ReadDecimal(n);
    StoullDigits(Decimal(n));
  }

  /** Two lists of the same elements have the same members. */
  lemma SameElements<T>(v: seq<T>, w: seq<T>, x: T)
    requires multiset(v) == multiset(w)
    ensures x in v <==> x in w
  {
    assert x in multiset(v) <==> x in v;
    assert x in multiset(w) <==> x in w;
  }

  /** A digit as the program prints it in base 16. */
  function HexDigit(n: nat): char
    requires n < 16
  {
    if n < 10 then ('0' as int + n) as char else ('a' as int + n - 10) as char
  }

  lemma Assoc<T>(a: seq<T>, b: seq<T>, c: seq<T>)
    ensures a + (b + c) == a + b + c
  {
  }
}
