/** Quoting then parsing CSV: when the table comes back, and what a final line break does. */
module CsvRoundTrip {
  import opened Text
  import opened Model
  import opened Csv

  // ---------- rows once pushed stay ----------

  lemma {:induction false} RunAppends(st: State, s: string)
    ensures st.out <= Run(st, s).out
    decreases |s|
  {
    if s != [] {
      var (st', s') := Turn(st, s);
      RunAppends(st', s');
    }
  }

  // ---------- one field ----------

  /** What may stand after a field. */
  predicate Follows(rest: string) {
    rest == [] || rest[0] == ',' || rest[0] == '\n' || rest[0] == '\r'
  }

  lemma {:induction false} RunPlain(st: State, f: string, rest: string)
    requires !st.inQuotes && !NeedsQuotes(f) && '\r' !in f
    ensures Run(st, f + rest) == Run(st.(field := st.field + f), rest)
    decreases |f|
  {
    if f == [] {
      assert f + rest == rest && st.field + f == st.field;
    } else {
      assert !Special(f[0]) && f[0] in f;
      assert (f + rest)[1..] == f[1..] + rest;
      RunPlain(PushChar(st, f[0]), f[1..], rest);
      assert st.field + [f[0]] + f[1..] == st.field + f;
    }
  }

  lemma RunDoubled(st: State, more: string)
    requires st.inQuotes
    ensures Run(st, ['"', '"'] + more) == Run(PushChar(st, '"'), more)
  {
    var s := ['"', '"'] + more;
    assert s[0] == '"' && s[1] == '"' && s[2..] == more;
  }

  lemma RunInside(st: State, c: char, more: string)
    requires st.inQuotes && c != '"'
    ensures Run(st, [c] + more) == Run(PushChar(st, c), more)
  {
    var s := [c] + more;
    assert s[0] == c && s[1..] == more;
  }

  lemma RunQuotedChar(st: State, f: string, rest: string)
    requires st.inQuotes && f != []
    ensures Run(st, DoubleQuotes(f) + "\"" + rest) == Run(PushChar(st, f[0]), DoubleQuotes(f[1..]) + "\"" + rest)
  {
    var more := DoubleQuotes(f[1..]) + "\"" + rest;
    if f[0] == '"' {
      assert DoubleQuotes(f) + "\"" + rest == ['"', '"'] + more;
      RunDoubled(st, more);
    } else {
      assert DoubleQuotes(f) + "\"" + rest == [f[0]] + more;
      RunInside(st, f[0], more);
    }
  }

  lemma {:induction false} RunQuoted(st: State, f: string, rest: string)
    requires st.inQuotes && (rest == [] || rest[0] != '"')
    ensures Run(st, DoubleQuotes(f) + "\"" + rest) == Run(st.(field := st.field + f, inQuotes := false), rest)
    decreases |f|
  {
    if f == [] {
      assert (DoubleQuotes(f) + "\"" + rest)[1..] == rest && st.field + f == st.field;
    } else {
      RunQuotedChar(st, f, rest);
      RunQuoted(PushChar(st, f[0]), f[1..], rest);
      assert st.field + [f[0]] + f[1..] == st.field + f;
    }
  }

  lemma RunField(st: State, f: string, rest: string)
    requires !st.inQuotes && st.field == "" && Follows(rest) && !BareCr(f)
    ensures Run(st, CsvEscape(f) + rest) == Run(st.(field := f), rest)
  {
    assert "" + f == f;
    if NeedsQuotes(f) {
      assert (CsvEscape(f) + rest)[1..] == DoubleQuotes(f) + "\"" + rest;
      RunQuoted(st.(inQuotes := true), f, rest);
    } else {
      RunPlain(st, f, rest);
    }
  }

  // ---------- one row, one table ----------

  lemma Shift<T>(p: seq<T>, r: seq<T>)
    requires |r| > 1
    ensures p + [r[0]] + r[1..][..|r| - 2] == p + r[..|r| - 1] && r[1..][|r| - 2] == r[|r| - 1]
    ensures p + [r[0]] + r[1..] == p + r
  {
  }

  lemma Regroup(a: string, b: string, c: string, d: string)
    ensures a + (b + c) + d == a + (b + (c + d))
  {
  }

  /** The state in which the fields of a row leave the parser: the last one is not pushed yet. */
  function AfterRow(st: State, r: seq<string>): State
    requires r != []
  {
    st.(row := st.row + r[..|r| - 1], field := r[|r| - 1])
  }

  lemma RowState(st: State, r: seq<string>)
    requires |r| > 1 && st.field == ""
    ensures AfterRow(PushField(st.(field := r[0])), r[1..]) == AfterRow(st, r)
  {
    Shift(st.row, r);
  }

  lemma {:induction false} RunRow(st: State, r: seq<string>, rest: string)
    requires !st.inQuotes && st.field == "" && r != [] && Follows(rest)
    requires forall f :: f in r ==> !BareCr(f)
    ensures Run(st, RowText(r) + rest) == Run(AfterRow(st, r), rest)
    decreases |r|
  {
    assert r[0] in r;
    if |r| == 1 {
      RunField(st, r[0], rest);
      assert st.row + r[..0] == st.row;
    } else {
      RunNextField(st, r, rest);
      RunRow(PushField(st.(field := r[0])), r[1..], rest);
      RowState(st, r);
    }
  }

  lemma RunNextField(st: State, r: seq<string>, rest: string)
    requires !st.inQuotes && st.field == "" && |r| > 1 && !BareCr(r[0])
    ensures Run(st, RowText(r) + rest) == Run(PushField(st.(field := r[0])), RowText(r[1..]) + rest)
  {
    var tail := RowText(r[1..]) + rest;
    Regroup(CsvEscape(r[0]), ",", RowText(r[1..]), rest);
    RunField(st, r[0], "," + tail);
    RunComma(st.(field := r[0]), tail);
  }

  lemma RunComma(st: State, rest: string)
    requires !st.inQuotes
    ensures Run(st, "," + rest) == Run(PushField(st), rest)
  {
    assert ("," + rest)[1..] == rest;
  }

  lemma RunEol(st: State, eol: string, rest: string)
    requires !st.inQuotes && Eol(eol)
    ensures Run(st, eol + rest) == Run(PushRow(st), rest)
  {
    if eol == "\n" {
      assert (eol + rest)[1..] == rest;
    } else {
      assert (eol + rest)[2..] == rest;
    }
  }

  lemma RunLine(st: State, r: seq<string>, eol: string, rest: string)
    requires !st.inQuotes && st.field == "" && st.row == [] && r != [] && Eol(eol)
    requires forall f :: f in r ==> !BareCr(f)
    ensures Run(st, RowText(r) + (eol + rest)) == Run(st.(out := st.out + [r]), rest)
  {
    var n := |r| - 1;
    RunRow(st, r, eol + rest);
    RunEol(st.(row := st.row + r[..n], field := r[n]), eol, rest);
    Whole(st.row, r);
  }

  lemma Whole<T>(p: seq<T>, r: seq<T>)
    requires r != []
    ensures p + r[..|r| - 1] + [r[|r| - 1]] == p + r
    ensures p == [] ==> p + r == r
  {
  }

  /** The state in which the last field of a table has just been read. */
  function AtEnd(out: seq<seq<string>>, t: seq<seq<string>>): State
    requires Table(t)
  {
    var r := t[|t| - 1];
    State(out + t[..|t| - 1], r[..|r| - 1], r[|r| - 1], false)
  }

  lemma TextCons(t: seq<seq<string>>, eol: string, rest: string)
    requires Table(t) && |t| > 1
    ensures TableText(t, eol) + rest == RowText(t[0]) + (eol + (TableText(t[1..], eol) + rest))
  {
    Regroup(RowText(t[0]), eol, TableText(t[1..], eol), rest);
  }

  lemma AtEndCons(out: seq<seq<string>>, t: seq<seq<string>>)
    requires Table(t) && |t| > 1
    ensures Table(t[1..]) && AtEnd(out + [t[0]], t[1..]) == AtEnd(out, t)
  {
    Shift(out, t);
  }

  lemma RunTableOne(out: seq<seq<string>>, r: seq<string>, rest: string)
    requires r != [] && (forall f :: f in r ==> !BareCr(f)) && Follows(rest)
    ensures Run(State(out, [], "", false), RowText(r) + rest) == Run(State(out, r[..|r| - 1], r[|r| - 1], false), rest)
  {
    NothingBefore(r[..|r| - 1]);
    RunRow(State(out, [], "", false), r, rest);
  }

  lemma NothingBefore<T>(r: seq<T>)
    ensures [] + r == r
  {
  }

  lemma {:induction false} RunTable(out: seq<seq<string>>, t: seq<seq<string>>, eol: string, rest: string)
    requires Table(t) && NoBareCr(t) && Eol(eol) && Follows(rest)
    ensures Run(State(out, [], "", false), TableText(t, eol) + rest) == Run(AtEnd(out, t), rest)
    decreases |t|
  {
    if |t| == 1 {
      TableOne(t);
      RunTableOne(out, t[0], rest);
      assert out + t[..0] == out;
    } else {
      TableTail(t);
      TextCons(t, eol, rest);
      AtEndCons(out, t);
      RunLine(State(out, [], "", false), t[0], eol, TableText(t[1..], eol) + rest);
      RunTable(out + [t[0]], t[1..], eol, rest);
    }
  }

  /** Without a final break the parser gives the table back. */
  lemma RowsOfTable(t: seq<seq<string>>, eol: string)
    requires Table(t) && NoBareCr(t) && Eol(eol)
    ensures Rows(TableText(t, eol)) == t
  {
    assert TableText(t, eol) + "" == TableText(t, eol);
    RunTable([], t, eol, "");
    Whole([], t[|t| - 1]);
    Whole([], t);
  }

  // ---------- a bare carriage return ----------

  lemma {:induction false} CutAtCr(f: string) returns (a: string, b: string)
    requires '\r' in f
    ensures f == a + "\r" + b && '\r' !in a
  {
    if f[0] == '\r' {
      a, b := "", f[1..];
    } else {
      a, b := CutAtCr(f[1..]);
      a := [f[0]] + a;
    }
  }

  /** The row is pushed in the middle of the field, with the part before the carriage return. */
  lemma RunBareCr(st: State, f: string, rest: string) returns (cut: string)
    requires !st.inQuotes && st.field == "" && BareCr(f)
    ensures cut != f
    ensures st.out + [st.row + [cut]] <= Run(st, CsvEscape(f) + rest).out
  {
    var a, b := CutAtCr(f);
    cut := a;
    assert |f| > |a|;
    assert !NeedsQuotes(a) by {
      assert forall i :: 0 <= i < |a| ==> a[i] == f[i];
    }
    assert f + rest == a + ("\r" + b + rest);
    RunPlain(st, a, "\r" + b + rest);
    assert "" + a == a;
    var s := "\r" + b + rest;
    var st' := PushRow(st.(field := a));
    RunAppends(st', if |s| > 1 && s[1] == '\n' then s[2..] else s[1..]);
  }

  /** The row that gets pushed is not the row that was written. */
  ghost predicate RowLost(out: seq<seq<string>>, row: seq<string>, end: State) {
    |end.out| > |out| && out <= end.out && end.out[|out|] != row
  }

  lemma FirstFieldCut(st: State, r: seq<string>, rest: string)
    requires !st.inQuotes && st.field == "" && r != [] && BareCr(r[0])
    ensures RowLost(st.out, st.row + r, Run(st, CsvEscape(r[0]) + rest))
  {
    var cut := RunBareCr(st, r[0], rest);
    var o := Run(st, CsvEscape(r[0]) + rest).out;
    assert o[|st.out|] == (st.out + [st.row + [cut]])[|st.out|] == st.row + [cut];
    assert (st.row + r)[|st.row|] == r[0] && (st.row + [cut])[|st.row|] == cut;
  }

  lemma {:induction false} RowWithBareCr(st: State, r: seq<string>, rest: string)
    requires !st.inQuotes && st.field == "" && r != [] && Follows(rest)
    requires exists f :: f in r && BareCr(f)
    ensures RowLost(st.out, st.row + r, Run(st, RowText(r) + rest))
    decreases |r|
  {
    if BareCr(r[0]) {
      var more := if |r| == 1 then rest else "," + (RowText(r[1..]) + rest);
      if |r| > 1 {
        Regroup(CsvEscape(r[0]), ",", RowText(r[1..]), rest);
      }
      FirstFieldCut(st, r, more);
    } else {
      var f :| f in r && BareCr(f);
      assert |r| > 1 && f in r[1..];
      RunNextField(st, r, rest);
      RowWithBareCr(PushField(st.(field := r[0])), r[1..], rest);
      assert st.row + [r[0]] + r[1..] == st.row + r;
    }
  }

  lemma TableTail(t: seq<seq<string>>)
    requires Table(t) && |t| > 1
    ensures Table(t[1..])
    ensures NoBareCr(t) <==> (forall f :: f in t[0] ==> !BareCr(f)) && NoBareCr(t[1..])
  {
    assert t == [t[0]] + t[1..];
  }

  lemma TableOne(t: seq<seq<string>>)
    requires |t| == 1
    ensures NoBareCr(t) <==> forall f :: f in t[0] ==> !BareCr(f)
  {
    assert t == [t[0]];
  }

  /** Even the row pushed at the end of the text is not the row that was written. */
  lemma {:induction false} TableWithBareCr(st: State, t: seq<seq<string>>, eol: string)
    requires !st.inQuotes && st.field == "" && st.row == [] && Table(t) && !NoBareCr(t) && Eol(eol)
    ensures PushRow(Run(st, TableText(t, eol))).out != st.out + t
    decreases |t|
  {
    var more := if |t| == 1 then "" else eol + TableText(t[1..], eol);
    assert TableText(t, eol) == RowText(t[0]) + more;
    if |t| == 1 {
      TableOne(t);
    } else {
      TableTail(t);
    }
    if exists f :: f in t[0] && BareCr(f) {
      RowWithBareCr(st, t[0], more);
      FirstRowLost(st, t, Run(st, TableText(t, eol)));
    } else {
      RunLine(st, t[0], eol, TableText(t[1..], eol));
      TableWithBareCr(st.(out := st.out + [t[0]]), t[1..], eol);
      Shift(st.out, t);
    }
  }

  lemma FirstRowLost(st: State, t: seq<seq<string>>, end: State)
    requires t != [] && RowLost(st.out, [] + t[0], end)
    ensures PushRow(end).out != st.out + t
  {
    assert [] + t[0] == t[0];
    assert (st.out + t)[|st.out|] == t[0];
    assert PushRow(end).out[|st.out|] == end.out[|st.out|];
  }

  /** Exactly the tables without a bare carriage return come back. */
  lemma TableRoundTrip(t: seq<seq<string>>, eol: string)
    requires Table(t) && Eol(eol)
    ensures Rows(TableText(t, eol)) == t <==> NoBareCr(t)
    ensures ParseCsv(TableText(t, eol)) == Some(t) <==> NoBareCr(t) && SameWidth(t)
  {
    if NoBareCr(t) {
      RowsOfTable(t, eol);
    } else {
      TableWithBareCr(START, t, eol);
      assert [] + t == t;
    }
  }

  // ---------- a final line break ----------

  function QuoteCount(s: string): nat {
    if s == [] then 0 else (if s[0] == '"' then 1 else 0) + QuoteCount(s[1..])
  }

  lemma {:induction false} QuoteCountConcat(a: string, b: string)
    ensures QuoteCount(a + b) == QuoteCount(a) + QuoteCount(b)
  {
    if a == [] {
      assert a + b == b;
    } else {
      assert (a + b)[1..] == a[1..] + b;
      QuoteCountConcat(a[1..], b);
    }
  }

  /** A text that closes its quotes and ends in a line feed leaves the parser at the start of a row. */
  lemma {:induction false} EndsFresh(st: State, s: string)
    requires s != [] && s[|s| - 1] == '\n' && Closes(st, s)
    ensures var e := Run(st, s); e.row == [] && e.field == "" && !e.inQuotes && e.out != []
    decreases |s|
  {
    var (st', s') := Turn(st, s);
    TurnCloses(st, s);
    if s' != [] {
      EndsFresh(st', s');
    }
  }

  /** The quotes open in the state are closed by the text. */
  predicate Closes(st: State, s: string) {
    (QuoteCount(s) + (if st.inQuotes then 1 else 0)) % 2 == 0
  }

  lemma TurnCloses(st: State, s: string)
    requires s != [] && s[|s| - 1] == '\n' && Closes(st, s)
    ensures var (st', s') := Turn(st, s);
            Closes(st', s') &&
            (s' != [] ==> s'[|s'| - 1] == '\n') &&
            (s' == [] ==> st'.row == [] && st'.field == "" && !st'.inQuotes && st'.out != [])
  {
    if |s| > 1 {
      assert s[1..][0] == s[1] && s[1..][1..] == s[2..];
      assert QuoteCount(s) == (if s[0] == '"' then 1 else 0) + (if s[1] == '"' then 1 else 0) + QuoteCount(s[2..]);
    }
  }

  /** A text that closes its quotes and ends in a line feed yields one more row, of one empty field:
      it is accepted exactly when every row has a single field. */
  lemma FinalBreak(s: string)
    requires s != [] && s[|s| - 1] == '\n' && QuoteCount(s) % 2 == 0
    ensures var rows := Rows(s);
            rows[|rows| - 1] == [""] && (ParseCsv(s).Some? <==> forall r :: r in rows ==> |r| == 1)
  {
    assert Closes(START, s);
    EndsFresh(START, s);
    var rows := Rows(s);
    var n := |rows| - 1;
    assert rows[n] == [] + [""] == [""];
    assert rows[n] in rows && rows[0] in rows;
    assert |rows[n]| == 1;
    if SameWidth(rows) {
      assert |rows[0]| == 1;
    }
  }

  /** A table written with a final line break is read back with one empty row more. */
  lemma TableWithFinalBreak(t: seq<seq<string>>, eol: string)
    requires Table(t) && NoBareCr(t) && Eol(eol)
    ensures Rows(TableText(t, eol) + eol) == t + [[""]]
    ensures ParseCsv(TableText(t, eol) + eol).Some? <==> forall r :: r in t ==> |r| == 1
  {
    RunTable([], t, eol, eol);
    assert eol + "" == eol;
    RunEol(AtEnd([], t), eol, "");
    Whole([], t[|t| - 1]);
    Whole([], t);
    assert [] + [""] == [""];
    EmptyRowWidth(t);
  }

  lemma EmptyRowWidth(t: seq<seq<string>>)
    requires t != []
    ensures SameWidth(t + [[""]]) <==> forall r :: r in t ==> |r| == 1
  {
    var rows := t + [[""]];
    assert rows[|t|] == [""] && rows[|t|] in rows && rows[0] == t[0] && t[0] in t;
    assert forall r :: r in t ==> r in rows;
  }

  // ---------- the exported file ----------

  const HEADER: seq<string> := ["id", "name", "email", "phone", "note", "created_at"]

  function ContactRow(c: Contact): seq<string> {
    [c.id, c.name, c.email, c.phone, c.note, c.createdAt]
  }

  /** The fields of a row stand in the columns that the header names. */
  lemma Columns(c: Contact, k: nat)
    requires k < 6
    ensures |HEADER| == |ContactRow(c)| == 6
    ensures HEADER[k] == "id" ==> ContactRow(c)[k] == c.id
    ensures HEADER[k] == "name" ==> ContactRow(c)[k] == c.name
    ensures HEADER[k] == "email" ==> ContactRow(c)[k] == c.email
    ensures HEADER[k] == "phone" ==> ContactRow(c)[k] == c.phone
    ensures HEADER[k] == "note" ==> ContactRow(c)[k] == c.note
    ensures HEADER[k] == "created_at" ==> ContactRow(c)[k] == c.createdAt
  {
    assert "name"[1] != "note"[1];
  }

  function Body(cs: seq<Contact>): string {
    if cs == [] then "" else RowText(ContactRow(cs[0])) + ("\n" + Body(cs[1..]))
  }

  /** The CSV branch of `export_data`, for the contacts in whatever order the sort left them. */
  function ExportText(cs: seq<Contact>): string {
    RowText(HEADER) + ("\n" + Body(cs))
  }

  method ExportCsv(cs: seq<Contact>) returns (o: string)
    ensures o == ExportText(cs)
  {
    o := RowText(HEADER) + "\n";
    var rest := cs;
    assert o + Body(cs) == ExportText(cs);
    while rest != []
      invariant o + Body(rest) == ExportText(cs)
      decreases |rest|
    {
      var line := ExportLine(rest[0]);
      Regroup3(o, line, "\n", Body(rest[1..]));
      o := o + line + "\n";
      rest := rest[1..];
    }
    assert o + "" == o;
  }

  lemma Regroup3(o: string, a: string, b: string, c: string)
    ensures o + (a + (b + c)) == o + a + b + c
  {
  }

  method ExportLine(c: Contact) returns (line: string)
    ensures line == RowText(ContactRow(c))
  {
    SixFields(ContactRow(c));
    line := CsvEscape(c.id) + ("," + (CsvEscape(c.name) + ("," + (CsvEscape(c.email) + ("," +
            (CsvEscape(c.phone) + ("," + (CsvEscape(c.note) + ("," + CsvEscape(c.createdAt))))))))));
  }

  lemma SixFields(r: seq<string>)
    requires |r| == 6
    ensures RowText(r) == CsvEscape(r[0]) + ("," + (CsvEscape(r[1]) + ("," + (CsvEscape(r[2]) + ("," +
                          (CsvEscape(r[3]) + ("," + (CsvEscape(r[4]) + ("," + CsvEscape(r[5]))))))))))
  {
    assert r[1..][1..] == r[2..] && r[2..][1..] == r[3..] && r[3..][1..] == r[4..] && r[4..][1..] == r[5..];
    assert RowText(r[5..]) == CsvEscape(r[5]);
    assert RowText(r[4..]) == CsvEscape(r[4]) + ("," + RowText(r[5..]));
    assert RowText(r[3..]) == CsvEscape(r[3]) + ("," + RowText(r[4..]));
    assert RowText(r[2..]) == CsvEscape(r[2]) + ("," + RowText(r[3..]));
    assert RowText(r[1..]) == CsvEscape(r[1]) + ("," + RowText(r[2..]));
  }

  lemma {:induction false} DoublesCount(s: string)
    ensures QuoteCount(DoubleQuotes(s)) == 2 * QuoteCount(s)
  {
    if s != [] {
      DoublesCount(s[1..]);
      var head := if s[0] == '"' then ['"', '"'] else [s[0]];
      QuoteCountConcat(head, DoubleQuotes(s[1..]));
      assert DoubleQuotes(s) == head + DoubleQuotes(s[1..]);
      assert head[1..] == [] || head[1..][1..] == [];
    }
  }

  lemma Wrapped(t: string)
    ensures QuoteCount("\"" + t + "\"") == QuoteCount(t) + 2
  {
    QuoteCountConcat("\"" + t, "\"");
    QuoteCountConcat("\"", t);
    assert "\""[1..] == [];
  }

  lemma TwiceEven(n: nat, k: nat)
    requires n == 2 * k
    ensures n % 2 == 0
  {
  }

  lemma QuotedEven(s: string)
    ensures QuoteCount(CsvEscape(s)) % 2 == 0
  {
    if NeedsQuotes(s) {
      DoublesCount(s);
      Wrapped(DoubleQuotes(s));
      TwiceEven(QuoteCount(CsvEscape(s)), QuoteCount(s) + 1);
    } else {
      NoQuotes(s);
    }
  }

  lemma {:induction false} NoQuotes(s: string)
    requires !NeedsQuotes(s)
    ensures QuoteCount(s) == 0
  {
    if s != [] {
      assert !Special(s[0]);
      assert forall i :: 0 <= i < |s[1..]| ==> s[1..][i] == s[i + 1];
      NoQuotes(s[1..]);
    }
  }

  lemma {:induction false} RowEven(r: seq<string>)
    ensures QuoteCount(RowText(r)) % 2 == 0
  {
    if |r| == 1 {
      QuotedEven(r[0]);
    } else if r != [] {
      QuotedEven(r[0]);
      RowEven(r[1..]);
      QuoteCountConcat(CsvEscape(r[0]), "," + RowText(r[1..]));
      assert ("," + RowText(r[1..]))[1..] == RowText(r[1..]);
    }
  }

  lemma LineCount(line: string, rest: string)
    ensures QuoteCount(line + ("\n" + rest)) == QuoteCount(line) + QuoteCount(rest)
    ensures rest == "" || rest[|rest| - 1] == '\n' ==>
            (line + ("\n" + rest))[|line + ("\n" + rest)| - 1] == '\n'
  {
    QuoteCountConcat(line, "\n" + rest);
    assert ("\n" + rest)[1..] == rest;
  }

  lemma LineEven(line: string, rest: string)
    requires QuoteCount(line) % 2 == 0 && QuoteCount(rest) % 2 == 0 && (rest == "" || rest[|rest| - 1] == '\n')
    ensures var s := line + ("\n" + rest); s != "" && s[|s| - 1] == '\n' && QuoteCount(s) % 2 == 0
  {
    LineCount(line, rest);
  }

  lemma {:induction false} BodyEven(cs: seq<Contact>)
    ensures QuoteCount(Body(cs)) % 2 == 0
    ensures Body(cs) == "" || Body(cs)[|Body(cs)| - 1] == '\n'
  {
    if cs != [] {
      BodyEven(cs[1..]);
      RowEven(ContactRow(cs[0]));
      LineEven(RowText(ContactRow(cs[0])), Body(cs[1..]));
    }
  }

  lemma PlainHeader()
    ensures forall f :: f in HEADER ==> !BareCr(f)
  {
  }

  lemma FirstRow(header: seq<string>, rest: string)
    requires header != [] && forall f :: f in header ==> !BareCr(f)
    ensures Rows(RowText(header) + ("\n" + rest))[0] == header
  {
    RunLine(START, header, "\n", rest);
    assert [] + [header] == [header];
    RunAppends(START.(out := [header]), rest);
  }

  lemma ExportEnds(header: seq<string>, cs: seq<Contact>)
    ensures var s := RowText(header) + ("\n" + Body(cs)); s != [] && s[|s| - 1] == '\n' && QuoteCount(s) % 2 == 0
  {
    BodyEven(cs);
    RowEven(header);
    LineEven(RowText(header), Body(cs));
  }

  /** The exporter ends its file with a line break, so its own parser rejects every file it writes. */
  lemma ExportNeverReimports(cs: seq<Contact>)
    ensures ParseCsv(ExportText(cs)).None?
  {
    var s := ExportText(cs);
    ExportEnds(HEADER, cs);
    FinalBreak(s);
    PlainHeader();
    FirstRow(HEADER, Body(cs));
    assert Rows(s)[0] in Rows(s);
  }
}
