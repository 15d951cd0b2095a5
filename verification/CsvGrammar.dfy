/** CSV after section 2 of RFC 4180, and as the parser takes it: every text of a table is read as the table, however
    its fields are quoted and its lines are broken. */
module CsvGrammar {
  import opened Text
  import opened Csv
  import opened CsvRoundTrip

  /** A part of a field as it is written: by itself, or between quotes with every quote in it doubled. */
  datatype Part = Bare(f: string) | Quoted(f: string)

  /** A line, each field of it in parts, and the line break after it. The standard has one part to a field. */
  datatype Line = Line(cells: seq<seq<Part>>, eol: string)

  predicate IsPart(p: Part) {
    p.Bare? ==> p.f != "" && forall i :: 0 <= i < |p.f| ==> p.f[i] != ',' && p.f[i] != '"' && p.f[i] != '\n' && p.f[i] != '\r'
  }

  /** Between quoted parts there is one without quotes: two quotes in a row stand for one. */
  predicate IsCell(c: seq<Part>) {
    (forall i :: 0 <= i < |c| ==> IsPart(c[i])) && forall i :: 0 < i < |c| ==> c[i - 1].Bare? || c[i].Bare?
  }

  predicate IsLine(l: Line) {
    l.cells != [] && (forall i :: 0 <= i < |l.cells| ==> IsCell(l.cells[i]))
  }

  function PartText(p: Part): string {
    if p.Bare? then p.f else "\"" + (DoubleQuotes(p.f) + "\"")
  }

  function CellText(c: seq<Part>): string {
    if c == [] then "" else PartText(c[0]) + CellText(c[1..])
  }

  function CellsText(cells: seq<seq<Part>>): string {
    if cells == [] then ""
    else if |cells| == 1 then CellText(cells[0])
    else CellText(cells[0]) + ("," + CellsText(cells[1..]))
  }

  /** The lines one after the other; nothing follows the last. */
  function LinesText(ls: seq<Line>): string {
    if ls == [] then ""
    else if |ls| == 1 then CellsText(ls[0].cells)
    else CellsText(ls[0].cells) + (ls[0].eol + LinesText(ls[1..]))
  }

  /** A line ends with a line feed, after a carriage return or not, or with a carriage return that no line feed
      follows. */
  predicate Broken(eol: string, rest: string) {
    eol == "\n" || eol == "\r\n" || (eol == "\r" && (rest == [] || rest[0] != '\n'))
  }

  predicate Lines(ls: seq<Line>)
    decreases ls
  {
    ls != [] && IsLine(ls[0]) && (|ls| > 1 ==> Broken(ls[0].eol, LinesText(ls[1..])) && Lines(ls[1..]))
  }

  function CellValue(c: seq<Part>): string {
    if c == [] then "" else c[0].f + CellValue(c[1..])
  }

  function Values(cells: seq<seq<Part>>): (r: seq<string>)
    ensures |r| == |cells| && forall i :: 0 <= i < |cells| ==> r[i] == CellValue(cells[i])
  {
    seq(|cells|, i requires 0 <= i < |cells| => CellValue(cells[i]))
  }

  function TableOf(ls: seq<Line>): (t: seq<seq<string>>)
    ensures |t| == |ls| && forall i :: 0 <= i < |ls| ==> t[i] == Values(ls[i].cells)
  {
    seq(|ls|, i requires 0 <= i < |ls| => Values(ls[i].cells))
  }

  // ---------- the parser on such a text ----------

  lemma RunOpen(st: State, s: string)
    requires !st.inQuotes
    ensures Run(st, "\"" + s) == Run(st.(inQuotes := true), s)
  {
    assert ("\"" + s)[1..] == s;
  }

  lemma {:induction false} RunBare(st: State, f: string, rest: string)
    requires !st.inQuotes && forall i :: 0 <= i < |f| ==> f[i] != ',' && f[i] != '"' && f[i] != '\n' && f[i] != '\r'
    ensures Run(st, f + rest) == Run(st.(field := st.field + f), rest)
    decreases |f|
  {
    if f == [] {
      assert f + rest == rest && st.field + f == st.field;
    } else {
      assert (f + rest)[1..] == f[1..] + rest;
      RunBare(PushChar(st, f[0]), f[1..], rest);
      assert st.field + [f[0]] + f[1..] == st.field + f;
    }
  }

  lemma RunPart(st: State, p: Part, rest: string)
    requires !st.inQuotes && IsPart(p) && (p.Quoted? ==> rest == [] || rest[0] != '"')
    ensures Run(st, PartText(p) + rest) == Run(st.(field := st.field + p.f), rest)
  {
    match p
    case Bare(f) => RunBare(st, f, rest);
    case Quoted(f) =>
      var s := DoubleQuotes(f) + "\"" + rest;
      assert "\"" + (DoubleQuotes(f) + "\"") + rest == "\"" + s;
      RunOpen(st, s);
      RunQuoted(st.(inQuotes := true), f, rest);
  }

  lemma PartFollows(c: seq<Part>, rest: string)
    requires IsCell(c) && c != [] && c[0].Quoted? && Follows(rest)
    ensures var more := CellText(c[1..]) + rest; more == [] || more[0] != '"'
  {
    if |c| > 1 {
      assert c[1].Bare? && IsPart(c[1]);
      assert CellText(c[1..])[0] == c[1].f[0];
    } else {
      assert CellText([]) + rest == rest;
    }
  }

  lemma {:induction false} RunCell(st: State, c: seq<Part>, rest: string)
    requires !st.inQuotes && Follows(rest) && IsCell(c)
    ensures Run(st, CellText(c) + rest) == Run(st.(field := st.field + CellValue(c)), rest)
    decreases |c|
  {
    if c == [] {
      assert "" + rest == rest && st.field + "" == st.field;
    } else {
      assert IsPart(c[0]);
      if c[0].Quoted? {
        PartFollows(c, rest);
      }
      Assoc(PartText(c[0]), CellText(c[1..]), rest);
      RunPart(st, c[0], CellText(c[1..]) + rest);
      RunCell(st.(field := st.field + c[0].f), c[1..], rest);
      Assoc(st.field, c[0].f, CellValue(c[1..]));
    }
  }

  lemma RunNextCell(st: State, cells: seq<seq<Part>>, rest: string)
    requires !st.inQuotes && st.field == "" && |cells| > 1 && IsCell(cells[0])
    ensures Run(st, CellsText(cells) + rest) == Run(PushField(st.(field := CellValue(cells[0]))), CellsText(cells[1..]) + rest)
  {
    var tail := CellsText(cells[1..]) + rest;
    Regroup(CellText(cells[0]), ",", CellsText(cells[1..]), rest);
    RunCell(st, cells[0], "," + tail);
    assert "" + CellValue(cells[0]) == CellValue(cells[0]);
    RunComma(st.(field := CellValue(cells[0])), tail);
  }

  lemma {:induction false} RunCells(st: State, cells: seq<seq<Part>>, r: seq<string>, rest: string)
    requires !st.inQuotes && st.field == "" && cells != [] && Follows(rest) && r == Values(cells)
    requires forall i :: 0 <= i < |cells| ==> IsCell(cells[i])
    ensures Run(st, CellsText(cells) + rest) == Run(AfterRow(st, r), rest)
    decreases |cells|
  {
    if |cells| == 1 {
      RunCell(st, cells[0], rest);
      assert "" + r[0] == r[0] && st.row + r[..0] == st.row;
    } else {
      RunNextCell(st, cells, rest);
      assert Values(cells[1..]) == r[1..];
      RunCells(PushField(st.(field := r[0])), cells[1..], r[1..], rest);
      RowState(st, r);
    }
  }

  lemma RunBreak(st: State, eol: string, rest: string)
    requires !st.inQuotes && Broken(eol, rest)
    ensures Run(st, eol + rest) == Run(PushRow(st), rest)
  {
    if eol == "\r\n" {
      assert (eol + rest)[2..] == rest;
    } else {
      assert (eol + rest)[1..] == rest;
    }
  }

  lemma RunBrokenLine(st: State, l: Line, rest: string)
    requires !st.inQuotes && st.field == "" && st.row == [] && IsLine(l) && Broken(l.eol, rest)
    ensures Run(st, CellsText(l.cells) + (l.eol + rest)) == Run(st.(out := st.out + [Values(l.cells)]), rest)
  {
    var r := Values(l.cells);
    var n := |r| - 1;
    RunCells(st, l.cells, r, l.eol + rest);
    RunBreak(st.(row := st.row + r[..n], field := r[n]), l.eol, rest);
    Whole(st.row, r);
  }

  lemma LastLine(out: seq<seq<string>>, l: Line)
    requires IsLine(l)
    ensures PushRow(Run(State(out, [], "", false), CellsText(l.cells))).out == out + [Values(l.cells)]
  {
    var r := Values(l.cells);
    assert CellsText(l.cells) + "" == CellsText(l.cells);
    RunCells(State(out, [], "", false), l.cells, r, "");
    Whole([], r);
  }

  lemma TableCons(out: seq<seq<string>>, ls: seq<Line>)
    requires ls != []
    ensures out + TableOf(ls) == out + [Values(ls[0].cells)] + TableOf(ls[1..])
  {
    assert TableOf(ls) == [Values(ls[0].cells)] + TableOf(ls[1..]);
    Assoc(out, [Values(ls[0].cells)], TableOf(ls[1..]));
  }

  lemma {:induction false} RunLines(out: seq<seq<string>>, ls: seq<Line>)
    requires Lines(ls)
    ensures PushRow(Run(State(out, [], "", false), LinesText(ls))).out == out + TableOf(ls)
    decreases |ls|
  {
    if |ls| == 1 {
      LastLine(out, ls[0]);
      assert TableOf(ls) == [Values(ls[0].cells)];
    } else {
      RunBrokenLine(State(out, [], "", false), ls[0], LinesText(ls[1..]));
      RunLines(out + [Values(ls[0].cells)], ls[1..]);
      TableCons(out, ls);
    }
  }

  /** Whatever parts of a field are quoted, whether they need it or not, and whichever break ends each line: the rows
      read are those of the table, and it is accepted exactly when they have one width. */
  lemma ReadsTable(ls: seq<Line>)
    requires Lines(ls)
    ensures Rows(LinesText(ls)) == TableOf(ls)
    ensures ParseCsv(LinesText(ls)) == Some(TableOf(ls)) <==> forall i :: 0 <= i < |ls| ==> |ls[i].cells| == |ls[0].cells|
  {
    RunLines([], ls);
    assert [] + TableOf(ls) == TableOf(ls);
    forall i | 0 <= i < |ls| ensures TableOf(ls)[i] in TableOf(ls) {
    }
  }

  /** The exporter quotes a field exactly when it has a comma, a quote or a line feed, and then all of it. */
  lemma ExportsBare(f: string)
    ensures CsvEscape(f) == (if ',' in f || '"' in f || '\n' in f then CellText([Quoted(f)]) else f)
  {
    assert "\"" + (DoubleQuotes(f) + "\"") + "" == "\"" + DoubleQuotes(f) + "\"";
  }
}
