/** The JSON values of the store: what the printer writes, what the parser reads. */
module Json {
  import opened Text

  /** `J`. An object is a `std::map`, so its members stand in increasing key order.
      A double is represented by the lexeme it was read from. */
  datatype J =
    | Null
    | Bool(b: bool)
    | Num(lexeme: string)
    | Str(s: string)
    | Arr(elems: seq<J>)
    | Obj(members: seq<Member>)

  datatype Member = Member(key: string, value: J)

  // ---------- std::map<std::string, J> ----------

  ghost predicate SortedKeys(ms: seq<Member>) {
    forall i, j :: 0 <= i < j < |ms| ==> Less(ms[i].key, ms[j].key)
  }

  /** `m.find(key)`. */
  function Find(ms: seq<Member>, key: string): Option<J> {
    if ms == [] then None
    else if ms[0].key == key then Some(ms[0].value)
    else Find(ms[1..], key)
  }

  /** `m[key] = value`. */
  function Insert(ms: seq<Member>, key: string, value: J): (r: seq<Member>)
    ensures |ms| <= |r| <= |ms| + 1
  {
    if ms == [] then [Member(key, value)]
    else if ms[0].key == key then [Member(key, value)] + ms[1..]
    else if Less(key, ms[0].key) then [Member(key, value)] + ms
    else [ms[0]] + Insert(ms[1..], key, value)
  }

  /** Assigning members one after the other. */
  function InsertAll(acc: seq<Member>, ms: seq<Member>): seq<Member>
    decreases ms
  {
    if ms == [] then acc else InsertAll(Insert(acc, ms[0].key, ms[0].value), ms[1..])
  }

  lemma {:induction false} InsertFrom(ms: seq<Member>, key: string, value: J)
    ensures forall x :: x in Insert(ms, key, value) ==> x == Member(key, value) || x in ms
  {
    if ms != [] {
      InsertFrom(ms[1..], key, value);
    }
  }

  lemma {:induction false} InsertElements(ms: seq<Member>, key: string, value: J)
    requires SortedKeys(ms)
    ensures forall x :: x in Insert(ms, key, value) ==> x == Member(key, value) || (x in ms && x.key != key)
  {
    if ms != [] {
      if ms[0].key == key {
        LessIrreflexive(key);
      } else if Less(key, ms[0].key) {
        forall j | 0 <= j < |ms| ensures ms[j].key != key {
          if j > 0 {
            LessTransitive(key, ms[0].key, ms[j].key);
          }
          LessIrreflexive(key);
        }
      } else {
        InsertElements(ms[1..], key, value);
      }
    }
  }

  /** An assignment keeps the map ordered. */
  lemma {:induction false} InsertSorted(ms: seq<Member>, key: string, value: J)
    requires SortedKeys(ms)
    ensures SortedKeys(Insert(ms, key, value))
  {
    if ms != [] && ms[0].key != key {
      if Less(key, ms[0].key) {
        forall j | 0 < j < |ms| ensures Less(key, ms[j].key) {
          LessTransitive(key, ms[0].key, ms[j].key);
        }
      } else {
        var t := Insert(ms[1..], key, value);
        InsertSorted(ms[1..], key, value);
        InsertElements(ms[1..], key, value);
        LessTotal(key, ms[0].key);
        forall j | 0 <= j < |t| ensures Less(ms[0].key, t[j].key) {
          assert t[j] in t;
        }
      }
    }
  }

  /** An assignment binds its key and no other. */
  lemma {:induction false} FindInsert(ms: seq<Member>, key: string, value: J, k: string)
    ensures Find(Insert(ms, key, value), k) == if k == key then Some(value) else Find(ms, k)
  {
    if ms == [] {
    } else if ms[0].key == key {
      assert ([Member(key, value)] + ms[1..])[1..] == ms[1..];
    } else if Less(key, ms[0].key) {
      assert ([Member(key, value)] + ms)[1..] == ms;
    } else {
      FindInsert(ms[1..], key, value, k);
      assert ([ms[0]] + Insert(ms[1..], key, value))[1..] == Insert(ms[1..], key, value);
    }
  }

  /** Assigning a key above all others appends. */
  lemma {:induction false} InsertLast(ms: seq<Member>, key: string, value: J)
    requires forall i :: 0 <= i < |ms| ==> Less(ms[i].key, key)
    ensures Insert(ms, key, value) == ms + [Member(key, value)]
  {
    if ms != [] {
      InsertLast(ms[1..], key, value);
      if Less(key, ms[0].key) || key == ms[0].key {
        if key != ms[0].key {
          LessTransitive(key, ms[0].key, key);
        }
        LessIrreflexive(key);
      }
    }
  }

  lemma {:induction false} InsertAllSorted(acc: seq<Member>, ms: seq<Member>)
    requires SortedKeys(acc + ms)
    ensures InsertAll(acc, ms) == acc + ms
    decreases ms
  {
    if ms == [] {
      assert acc + ms == acc;
    } else {
      forall i | 0 <= i < |acc| ensures Less(acc[i].key, ms[0].key) {
        assert (acc + ms)[i] == acc[i] && (acc + ms)[|acc|] == ms[0];
      }
      InsertLast(acc, ms[0].key, ms[0].value);
      assert Member(ms[0].key, ms[0].value) == ms[0];
      assert acc + [ms[0]] + ms[1..] == acc + ms;
      InsertAllSorted(acc + [ms[0]], ms[1..]);
    }
  }

  // ---------- printing ----------

  /** Control characters other than line feed, carriage return and tab. */
  predicate Lossy(c: char) {
    c < ' ' && c != '\n' && c != '\r' && c != '\t'
  }

  function EscapeChar(c: char): string {
    if c == '"' then "\\\""
    else if c == '\\' then "\\\\"
    else if c == '\n' then "\\n"
    else if c == '\r' then "\\r"
    else if c == '\t' then "\\t"
    else if c < ' ' then "\\u00" + [HexDigit(c as int / 16), HexDigit(c as int % 16)]
    else [c]
  }

  function Escape(s: string): string {
    if s == [] then [] else EscapeChar(s[0]) + Escape(s[1..])
  }

  function Quote(s: string): string {
    "\"" + Escape(s) + "\""
  }

  function Break(indent: nat): string {
    if indent > 0 then "\n" else ""
  }

  function Pad(indent: nat, level: nat): string {
    Blanks(level * indent)
  }

  /** `dump_impl`. */
  function Dump(j: J, indent: nat, level: nat): string
    decreases j, 0
  {
    match j
    case Null => "null"
    case Bool(b) => if b then "true" else "false"
    case Num(lexeme) => lexeme
    case Str(s) => Quote(s)
    case Arr(a) =>
      if a == [] then "[]"
      else "[" + Break(indent) + DumpElems(a, indent, level) + Pad(indent, level) + "]"
    case Obj(m) =>
      if m == [] then "{}"
      else "{" + Break(indent) + DumpMembers(m, indent, level) + Pad(indent, level) + "}"
  }

  function DumpElems(a: seq<J>, indent: nat, level: nat): string
    decreases a, 1
  {
    if a == [] then ""
    else Pad(indent, level + 1) + Dump(a[0], indent, level + 1)
         + (if |a| > 1 then "," else "") + Break(indent)
         + DumpElems(a[1..], indent, level)
  }

  function DumpMembers(m: seq<Member>, indent: nat, level: nat): string
    decreases m, 1
  {
    if m == [] then ""
    else Pad(indent, level + 1) + Quote(m[0].key) + ":" + (if indent > 0 then " " else "")
         + Dump(m[0].value, indent, level + 1)
         + (if |m| > 1 then "," else "") + Break(indent)
         + DumpMembers(m[1..], indent, level)
  }

  // ---------- parsing: what remains of the text is returned with the value ----------

  function Drop(s: string, n: nat): (t: string)
    ensures |t| <= |s|
  {
    if |s| < n then [] else s[n..]
  }

  function Unescape(e: char): char {
    match e
    case 'b' => 8 as char
    case 'f' => 12 as char
    case 'n' => '\n'
    case 'r' => '\r'
    case 't' => '\t'
    case _ => e
  }

  /** The body of a string literal, after its opening quote. A missing closing quote is accepted,
      and a `u` escape is dropped together with the four characters after it. */
  function ParseBody(s: string): (r: (string, string))
    ensures |r.1| <= |s|
    decreases |s|
  {
    if s == [] then ([], [])
    else if s[0] == '"' then ([], s[1..])
    else if s[0] == '\\' then
      if |s| == 1 then ([], [])
      else if s[1] == 'u' then ParseBody(Drop(s[2..], 4))
      else var (o, rest) := ParseBody(s[2..]); ([Unescape(s[1])] + o, rest)
    else var (o, rest) := ParseBody(s[1..]); ([s[0]] + o, rest)
  }

  function ParseString(s: string): (r: Option<(string, string)>)
    ensures r.Some? ==> |r.value.1| < |s|
  {
    if s == [] || s[0] != '"' then None else Some(ParseBody(s[1..]))
  }

  predicate NumberChar(c: char) {
    IsDigit(c) || c == '-' || c == '+' || c == '.' || c == 'e' || c == 'E'
  }

  function NumberRun(s: string): (n: nat)
    ensures n <= |s|
  {
    if s == [] || !NumberChar(s[0]) then 0 else 1 + NumberRun(s[1..])
  }

  /** The numbers that the C library can represent as a double: what they are is its choice, and arbitrary here. */
  const IN_RANGE: string -> bool

  /** Whether `std::stod` finds a number at the start of the lexeme, and one in its range. */
  predicate Convertible(s: string) {
    var t := if s != [] && (s[0] == '-' || s[0] == '+') then s[1..] else s;
    t != [] && (IsDigit(t[0]) || (t[0] == '.' && |t| > 1 && IsDigit(t[1]))) && IN_RANGE(s)
  }

  function ParseNumber(s: string): (r: Option<(J, string)>)
    requires s != [] && NumberChar(s[0])
    ensures r.Some? ==> |r.value.1| < |s|
  {
    var n := NumberRun(s);
    if Convertible(s[..n]) then Some((Num(s[..n]), s[n..])) else None
  }

  /** `parse_value`; `None` stands for the exceptions. */
  function ParseValue(s: string): (r: Option<(J, string)>)
    ensures r.Some? ==> |r.value.1| < |s|
    decreases |s|, 1
  {
    var t := SkipWs(s);
    if t == [] then None
    else if t[0] == '"' then
      var (o, rest) := ParseBody(t[1..]);
      Some((Str(o), rest))
    else if t[0] == '{' then ParseObject(t)
    else if t[0] == '[' then ParseArray(t)
    else if "true" <= t then Some((Bool(true), t[4..]))
    else if "false" <= t then Some((Bool(false), t[5..]))
    else if "null" <= t then Some((Null, t[4..]))
    else if t[0] == '-' || t[0] == '+' || IsDigit(t[0]) then ParseNumber(t)
    else None
  }

  function ParseArray(s: string): (r: Option<(J, string)>)
    requires s != [] && s[0] == '['
    ensures r.Some? ==> |r.value.1| < |s|
    decreases |s|, 0
  {
    var t := SkipWs(s[1..]);
    if t != [] && t[0] == ']' then Some((Arr([]), t[1..]))
    else
      var (a, rest) :- ParseElems(t, []);
      Some((Arr(a), rest))
  }

  /** The loop of `parse_array`, with the elements read so far. */
  function ParseElems(s: string, acc: seq<J>): (r: Option<(seq<J>, string)>)
    ensures r.Some? ==> |r.value.1| < |s|
    decreases |s|, 2
  {
    var (v, u) :- ParseValue(SkipWs(s));
    var t := SkipWs(u);
    if t != [] && t[0] == ',' then ParseElems(t[1..], acc + [v])
    else if t != [] && t[0] == ']' then Some((acc + [v], t[1..]))
    else None
  }

  function ParseObject(s: string): (r: Option<(J, string)>)
    requires s != [] && s[0] == '{'
    ensures r.Some? ==> |r.value.1| < |s|
    decreases |s|, 0
  {
    var t := SkipWs(s[1..]);
    if t != [] && t[0] == '}' then Some((Obj([]), t[1..]))
    else
      var (m, rest) :- ParseMembers(t, []);
      Some((Obj(m), rest))
  }

  /** The loop of `parse_object`, with the members assigned so far. */
  function ParseMembers(s: string, acc: seq<Member>): (r: Option<(seq<Member>, string)>)
    ensures r.Some? ==> |r.value.1| < |s|
    decreases |s|, 2
  {
    var (key, u) :- ParseString(SkipWs(s));
    var t := SkipWs(u);
    if t == [] || t[0] != ':' then None
    else
      var (v, w) :- ParseValue(SkipWs(t[1..]));
      var x := SkipWs(w);
      if x != [] && x[0] == ',' then ParseMembers(x[1..], Insert(acc, key, v))
      else if x != [] && x[0] == '}' then Some((Insert(acc, key, v), x[1..]))
      else None
  }

  // ---------- what a value becomes when it is printed and read back ----------

  function StripStr(s: string): string {
    if s == [] then [] else (if Lossy(s[0]) then [] else [s[0]]) + StripStr(s[1..])
  }

  /** The value without the control characters the parser drops. */
  function Strip(j: J): J
    decreases j, 0
  {
    match j
    case Str(s) => Str(StripStr(s))
    case Arr(a) => Arr(StripElems(a))
    case Obj(m) => Obj(InsertAll([], StripMembers(m)))
    case _ => j
  }

  function StripElems(a: seq<J>): (r: seq<J>)
    ensures |r| == |a| && forall i :: 0 <= i < |a| ==> r[i] == Strip(a[i])
    decreases a, 1
  {
    if a == [] then [] else [Strip(a[0])] + StripElems(a[1..])
  }

  function StripMembers(m: seq<Member>): (r: seq<Member>)
    ensures |r| == |m|
    ensures forall i :: 0 <= i < |m| ==> r[i] == Member(StripStr(m[i].key), Strip(m[i].value))
    decreases m, 1
  {
    if m == [] then [] else [Member(StripStr(m[0].key), Strip(m[0].value))] + StripMembers(m[1..])
  }

  predicate CleanStr(s: string) {
    forall i :: 0 <= i < |s| ==> !Lossy(s[i])
  }

  /** No double anywhere in the value. */
  predicate NoNum(j: J) {
    match j
    case Num(_) => false
    case Arr(a) => forall e :: e in a ==> NoNum(e)
    case Obj(m) => forall x :: x in m ==> NoNum(x.value)
    case _ => true
  }

  /** Every string of the value, member keys included, is free of lossy control characters. */
  predicate Clean(j: J) {
    match j
    case Str(s) => CleanStr(s)
    case Arr(a) => forall e :: e in a ==> Clean(e)
    case Obj(m) => forall x :: x in m ==> CleanStr(x.key) && Clean(x.value)
    case _ => true
  }

  /** Every object of the value is ordered as a `std::map` is. */
  ghost predicate Ordered(j: J) {
    match j
    case Arr(a) => forall e :: e in a ==> Ordered(e)
    case Obj(m) => SortedKeys(m) && forall x :: x in m ==> Ordered(x.value)
    case _ => true
  }
}
