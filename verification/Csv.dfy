/** The RFC 4180 parser as a state machine, and the exporter's quoting. */
module Csv {
  import opened Text

  // ---------- the parser ----------

  datatype State = State(out: seq<seq<string>>, row: seq<string>, field: string, inQuotes: bool)

  const START: State := State([], [], "", false)

  function PushChar(st: State, c: char): State {
    st.(field := st.field + [c])
  }

  function PushField(st: State): State {
    st.(row := st.row + [st.field], field := "")
  }

  function PushRow(st: State): State {
    st.(out := st.out + [st.row + [st.field]], row := [], field := "")
  }

  /** One turn of the loop of `csv_parse_rfc4180`: the state after it and the text that remains. */
  function Turn(st: State, s: string): (r: (State, string))
    requires s != []
    ensures |r.1| < |s|
  {
    if st.inQuotes then
      if s[0] == '"' then
        if |s| > 1 && s[1] == '"' then (PushChar(st, '"'), s[2..]) else (st.(inQuotes := false), s[1..])
      else (PushChar(st, s[0]), s[1..])
    else if s[0] == '"' then (st.(inQuotes := true), s[1..])
    else if s[0] == ',' then (PushField(st), s[1..])
    else if s[0] == '\r' then (PushRow(st), if |s| > 1 && s[1] == '\n' then s[2..] else s[1..])
    else if s[0] == '\n' then (PushRow(st), s[1..])
    else (PushChar(st, s[0]), s[1..])
  }

  /** The whole loop, from a state over the rest of the text. */
  function Run(st: State, s: string): State
    decreases |s|
  {
    if s == [] then st else var (st', s') := Turn(st, s); Run(st', s')
  }

  /** The rows read: the last one is always pushed, even when nothing follows the last line break. */
  function Rows(s: string): (rows: seq<seq<string>>)
    ensures rows != []
  {
    PushRow(Run(START, s)).out
  }

  predicate SameWidth(rows: seq<seq<string>>) {
    forall r :: r in rows ==> |r| == |rows[0]|
  }

  /** `csv_parse_rfc4180`; `None` stands for "Inconsistent column count". */
  function ParseCsv(s: string): Option<seq<seq<string>>> {
    if SameWidth(Rows(s)) then Some(Rows(s)) else None
  }

  method ParseRfc4180(input: string) returns (ok: bool, out: seq<seq<string>>)
    ensures out == Rows(input)
    ensures ok <==> ParseCsv(input) == Some(out)
  {
    var st := START;
    var rest := input;
    while rest != []
      invariant Run(st, rest) == Run(START, input)
      decreases |rest|
    {
      var c := rest[0];
      var next := if |rest| > 1 then rest[1] else ' ';
      if st.inQuotes {
        if c == '"' {
          if next == '"' {
            st, rest := PushChar(st, '"'), rest[2..];
          } else {
            st, rest := st.(inQuotes := false), rest[1..];
          }
        } else {
          st, rest := PushChar(st, c), rest[1..];
        }
      } else if c == '"' {
        st, rest := st.(inQuotes := true), rest[1..];
      } else if c == ',' {
        st, rest := PushField(st), rest[1..];
      } else if c == '\r' {
        st, rest := PushRow(st), if next == '\n' then rest[2..] else rest[1..];
      } else if c == '\n' {
        st, rest := PushRow(st), rest[1..];
      } else {
        st, rest := PushChar(st, c), rest[1..];
      }
    }
    out := st.out + [st.row + [st.field]];
    ok := true;
    for k := 0 to |out|
      invariant ok ==> forall j :: 0 <= j < k ==> |out[j]| == |out[0]|
      invariant !ok ==> exists j :: 0 <= j < |out| && |out[j]| != |out[0]|
    {
      if |out[k]| != |out[0]| {
        ok := false;
      }
    }
  }

  // ---------- the exporter's quoting ----------

  predicate Special(c: char) {
    c == ',' || c == '"' || c == '\n'
  }

  predicate NeedsQuotes(s: string) {
    exists i :: 0 <= i < |s| && Special(s[i])
  }

  function DoubleQuotes(s: string): string {
    if s == [] then [] else (if s[0] == '"' then "\"\"" else [s[0]]) + DoubleQuotes(s[1..])
  }

  /** `csv_escape`: a carriage return alone does not make it quote. */
  function CsvEscape(s: string): string {
    if NeedsQuotes(s) then "\"" + DoubleQuotes(s) + "\"" else s
  }

  /** A field the exporter leaves unquoted although the parser breaks the row in it. */
  predicate BareCr(s: string) {
    !NeedsQuotes(s) && '\r' in s
  }

  method Escape(s: string) returns (r: string)
    ensures r == CsvEscape(s)
  {
    if !(exists i :: 0 <= i < |s| && Special(s[i])) {
      return s;
    }
    var t := DoubleInPlace(s);
    return "\"" + t + "\"";
  }

  /** The insertion loop of `csv_escape`. */
  method DoubleInPlace(s: string) returns (t: string)
    ensures t == DoubleQuotes(s)
  {
    t := s;
    var pos := 0;
    ghost var k := 0;
    while pos < |t|
      invariant Doubled(s, k, t, pos)
      decreases |s| - k
    {
      var p := FindQuote(t, pos);
      DoubleUpTo(s, k, t, pos, p);
      k := k + (p - pos);
      if p < |t| {
        DoubleOne(s, k, t, p);
        t, pos, k := t[..p] + "\"" + t[p..], p + 2, k + 1;
      } else {
        pos := p;
      }
    }
    assert s[..k] == s && t == t[..pos];
  }

  /** The first `k` characters of `s` are doubled in `t`, up to `pos`; the rest is as it was. */
  ghost predicate Doubled(s: string, k: nat, t: string, pos: nat) {
    k <= |s| && pos <= |t| && t[..pos] == DoubleQuotes(s[..k]) && t[pos..] == s[k..]
  }

  lemma DoubleUpTo(s: string, k: nat, t: string, pos: nat, p: nat)
    requires Doubled(s, k, t, pos)
    requires pos <= p <= |t| && '"' !in t[pos..p]
    ensures Doubled(s, k + (p - pos), t, p)
  {
    var k' := k + (p - pos);
    assert t[pos..p] == s[k..][..p - pos] == s[k..k'];
    DoublePlain(s[..k], s[k..k']);
    assert s[..k'] == s[..k] + s[k..k'];
    assert t[..p] == t[..pos] + t[pos..p];
    assert t[p..] == t[pos..][p - pos..] && s[k'..] == s[k..][p - pos..];
  }

  lemma DoubleOne(s: string, k: nat, t: string, p: nat)
    requires Doubled(s, k, t, p) && p < |t| && t[p] == '"'
    ensures Doubled(s, k + 1, t[..p] + "\"" + t[p..], p + 2)
  {
    assert t[p..][0] == s[k..][0] == s[k];
    DoubleAppend(s[..k], s[k]);
    assert s[..k + 1] == s[..k] + [s[k]];
    var t' := t[..p] + "\"" + t[p..];
    assert t'[..p + 2] == t[..p] + "\"\"";
    assert t'[p + 2..] == t[p..][1..] && s[k + 1..] == s[k..][1..];
  }

  /** `t.find('"', pos)`, or the length when there is none. */
  method FindQuote(t: string, pos: nat) returns (p: nat)
    requires pos <= |t|
    ensures pos <= p <= |t| && '"' !in t[pos..p] && (p < |t| ==> t[p] == '"')
  {
    p := pos;
    while p < |t| && t[p] != '"'
      invariant pos <= p <= |t| && '"' !in t[pos..p]
    {
      assert t[pos..p + 1] == t[pos..p] + [t[p]];
      p := p + 1;
    }
  }

  lemma {:induction false} DoubleAppend(s: string, c: char)
    ensures DoubleQuotes(s + [c]) == DoubleQuotes(s) + (if c == '"' then "\"\"" else [c])
  {
    if s == [] {
      assert (s + [c])[1..] == [];
    } else {
      assert (s + [c])[1..] == s[1..] + [c];
      DoubleAppend(s[1..], c);
    }
  }

  lemma {:induction false} DoublePlain(head: string, plain: string)
    requires '"' !in plain
    ensures DoubleQuotes(head + plain) == DoubleQuotes(head) + plain
  {
    if plain == [] {
      assert head + plain == head;
    } else {
      var n := |plain| - 1;
      DoublePlain(head, plain[..n]);
      DoubleAppend(head + plain[..n], plain[n]);
      assert head + plain == head + plain[..n] + [plain[n]];
      assert plain[n] in plain;
    }
  }

  function RowText(r: seq<string>): string {
    if r == [] then ""
    else if |r| == 1 then CsvEscape(r[0])
    else CsvEscape(r[0]) + ("," + RowText(r[1..]))
  }

  /** Rows joined by a line break, without a final one. */
  function TableText(t: seq<seq<string>>, eol: string): string {
    if t == [] then ""
    else if |t| == 1 then RowText(t[0])
    else RowText(t[0]) + (eol + TableText(t[1..], eol))
  }

  predicate Eol(eol: string) {
    eol == "\n" || eol == "\r\n"
  }

  /** Every row has at least one field. */
  predicate Table(t: seq<seq<string>>) {
    t != [] && forall i :: 0 <= i < |t| ==> t[i] != []
  }

  predicate NoBareCr(t: seq<seq<string>>) {
    forall r, f :: r in t && f in r ==> !BareCr(f)
  }
}
