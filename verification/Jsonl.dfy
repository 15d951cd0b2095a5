/** JSON Lines: one value a line. */
module Jsonl {
  import opened Text
  import opened Json
  import opened JsonRoundTrip
  import opened JsonParser

  /** `parse_jsonl`: empty lines are passed over; `None` stands for the exception of a bad line. */
  function ParseJsonl(data: string): Option<seq<J>>
    decreases |data|
  {
    if data == [] then Some([])
    else
      var (line, rest) := CutLine(data);
      if line == [] then ParseJsonl(rest)
      else
        var (j, _) :- ParseValue(line);
        var js :- ParseJsonl(rest);
        Some([j] + js)
  }

  /** Line by line: an empty line is passed over, a line that does not parse is an exception, and any other gives
      its value in front of those of the lines after it. */
  lemma LineByLine(line: string, rest: string)
    requires '\n' !in line
    ensures line == "" ==> ParseJsonl(line + "\n" + rest) == ParseJsonl(rest)
    ensures line != "" && ParseValue(line).None? ==> ParseJsonl(line + "\n" + rest) == None
    ensures line != "" && ParseValue(line).Some? ==>
              ParseJsonl(line + "\n" + rest) ==
                if ParseJsonl(rest).None? then None else Some([ParseValue(line).value.0] + ParseJsonl(rest).value)
  {
    CutLineAt(line, rest);
  }

  function DumpJsonl(js: seq<J>): string {
    if js == [] then "" else Dump(js[0], 0, 0) + "\n" + DumpJsonl(js[1..])
  }

  method ReadJsonl(data: string) returns (r: Option<seq<J>>)
    ensures r == ParseJsonl(data)
  {
    var out: seq<J> := [];
    var pos := data;
    ghost var whole := ParseJsonl(data);
    assert whole.Some? ==> [] + whole.value == whole.value;
    while pos != []
      invariant whole == if ParseJsonl(pos).None? then None else Some(out + ParseJsonl(pos).value)
      decreases |pos|
    {
      var (line, rest) := CutLine(pos);
      if line != [] {
        var j, t := ReadValue(line);
        if j.None? {
          return None;
        }
        if ParseJsonl(rest).Some? {
          assert out + ([j.value] + ParseJsonl(rest).value) == out + [j.value] + ParseJsonl(rest).value;
        }
        out := out + [j.value];
      }
      pos := rest;
    }
    assert out + [] == out;
    return Some(out);
  }

  method WriteJsonl(js: seq<J>) returns (o: string)
    ensures o == DumpJsonl(js)
  {
    o := "";
    var rest := js;
    while rest != []
      invariant o + DumpJsonl(rest) == DumpJsonl(js)
      decreases |rest|
    {
      var line := Dump(rest[0], 0, 0) + "\n";
      Assoc(o, line, DumpJsonl(rest[1..]));
      o := o + line;
      rest := rest[1..];
    }
    assert o + "" == o;
  }

  /** Reading back written lines gives every value stripped of its lossy characters, in order. */
  lemma {:induction false} ReadBack(js: seq<J>)
    requires forall j :: j in js ==> NoNum(j)
    ensures ParseJsonl(DumpJsonl(js)) == Some(StripElems(js))
  {
    if js != [] {
      var line := Dump(js[0], 0, 0);
      DumpOneLine(js[0], 0);
      DumpHead(js[0], 0, 0);
      CutLineAt(line, DumpJsonl(js[1..]));
      ParseDump(js[0], 0, 0, "");
      assert line + "" == line;
      ReadBack(js[1..]);
    }
  }

  /** The JSONL form of a list of ordered, double-free values round-trips exactly when they are clean. */
  lemma ReadBackExactly(js: seq<J>)
    requires forall j :: j in js ==> NoNum(j) && Ordered(j)
    ensures ParseJsonl(DumpJsonl(js)) == Some(js) <==> forall j :: j in js ==> Clean(j)
  {
    ReadBack(js);
    var ss := StripElems(js);
    if ss == js {
      forall j | j in js ensures Clean(j) {
        var i :| 0 <= i < |js| && js[i] == j;
        assert ss[i] == Strip(js[i]);
        StripIsClean(js[i]);
      }
    }
    if forall j :: j in js ==> Clean(j) {
      forall i | 0 <= i < |js| ensures ss[i] == js[i] {
        assert js[i] in js;
        StripOfClean(js[i]);
      }
    }
  }
}
