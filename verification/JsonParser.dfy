/** The parser as it runs: loops that advance a cursor by reference and fill a string, a vector or a
    map. The cursor is represented by the text that remains after it. Each method is proved to compute
    the parse function of the text at its cursor. */
module JsonParser {
  import opened Text
  import opened Json

  method SkipSpace(s: string) returns (t: string)
    ensures t == SkipWs(s)
  {
    t := s;
    while t != [] && IsSpace(t[0])
      invariant SkipWs(t) == SkipWs(s)
      decreases |t|
    {
      t := t[1..];
    }
  }

  method ReadString(s: string) returns (r: Option<string>, t: string)
    ensures ParseString(s) == if r.Some? then Some((r.value, t)) else None
  {
    t := s;
    if t == [] || t[0] != '"' {
      return None, t;
    }
    t := t[1..];
    var o := [];
    ghost var whole := ParseBody(t);
    assert [] + whole.0 == whole.0;
    while t != []
      invariant whole == (o + ParseBody(t).0, ParseBody(t).1)
      decreases |t|
    {
      var c, before := t[0], t;
      t := t[1..];
      if c == '"' {
        break;
      }
      if c == '\\' {
        if t == [] {
          break;
        }
        var e := t[0];
        t := t[1..];
        assert before[2..] == t;
        if e == 'u' {
          t := SkipFour(t);
        } else {
          Assoc(o, [Unescape(e)], ParseBody(t).0);
          o := o + [Unescape(e)];
        }
      } else {
        Assoc(o, [c], ParseBody(t).0);
        o := o + [c];
      }
    }
    assert o + [] == o;
    return Some(o), t;
  }

  method SkipFour(s: string) returns (t: string)
    ensures t == Drop(s, 4)
  {
    t := s;
    var k := 0;
    while k < 4 && t != []
      invariant 0 <= k <= 4 && |t| == (if |s| < k then 0 else |s| - k) && t == s[|s| - |t|..]
    {
      t := t[1..];
      k := k + 1;
    }
  }

  method ReadNumber(s: string) returns (r: Option<J>, t: string)
    requires s != [] && NumberChar(s[0])
    ensures ParseNumber(s) == if r.Some? then Some((r.value, t)) else None
  {
    var j := 0;
    while j < |s| && NumberChar(s[j])
      invariant 0 <= j <= |s| && NumberRun(s) == j + NumberRun(s[j..])
    {
      assert s[j..][1..] == s[j + 1..];
      j := j + 1;
    }
    t := s[j..];
    r := if Convertible(s[..j]) then Some(Num(s[..j])) else None;
  }

  method ReadValue(s: string) returns (r: Option<J>, t: string)
    ensures ParseValue(s) == if r.Some? then Some((r.value, t)) else None
    decreases |s|, 1
  {
    t := SkipSpace(s);
    if t == [] {
      return None, t;
    }
    var c := t[0];
    if c == '"' {
      var o;
      o, t := ReadString(t);
      r := Some(Str(o.value));
    } else if c == '{' {
      r, t := ReadObject(t);
    } else if c == '[' {
      r, t := ReadArray(t);
    } else if "true" <= t {
      r, t := Some(Bool(true)), t[4..];
    } else if "false" <= t {
      r, t := Some(Bool(false)), t[5..];
    } else if "null" <= t {
      r, t := Some(Null), t[4..];
    } else if c == '-' || c == '+' || IsDigit(c) {
      r, t := ReadNumber(t);
    } else {
      r := None;
    }
  }

  method ReadArray(s: string) returns (r: Option<J>, t: string)
    requires s != [] && s[0] == '['
    ensures ParseArray(s) == if r.Some? then Some((r.value, t)) else None
    decreases |s|, 0
  {
    t := SkipSpace(s[1..]);
    if t != [] && t[0] == ']' {
      return Some(Arr([])), t[1..];
    }
    var a: seq<J> := [];
    ghost var whole := ParseElems(t, []);
    while true
      invariant |t| < |s| && ParseElems(t, a) == whole
      decreases |t|
    {
      t := SkipSpace(t);
      var v;
      v, t := ReadValue(t);
      if v.None? {
        return None, t;
      }
      t := SkipSpace(t);
      a := a + [v.value];
      if t != [] && t[0] == ',' {
        t := t[1..];
      } else if t != [] && t[0] == ']' {
        return Some(Arr(a)), t[1..];
      } else {
        return None, t;
      }
    }
  }

  method ReadObject(s: string) returns (r: Option<J>, t: string)
    requires s != [] && s[0] == '{'
    ensures ParseObject(s) == if r.Some? then Some((r.value, t)) else None
    decreases |s|, 0
  {
    t := SkipSpace(s[1..]);
    if t != [] && t[0] == '}' {
      return Some(Obj([])), t[1..];
    }
    var m: seq<Member> := [];
    ghost var whole := ParseMembers(t, []);
    while true
      invariant |t| < |s| && ParseMembers(t, m) == whole
      decreases |t|
    {
      t := SkipSpace(t);
      var key, v;
      key, t := ReadString(t);
      if key.None? {
        return None, t;
      }
      t := SkipSpace(t);
      if t == [] || t[0] != ':' {
        return None, t;
      }
      t := SkipSpace(t[1..]);
      v, t := ReadValue(t);
      if v.None? {
        return None, t;
      }
      t := SkipSpace(t);
      m := Insert(m, key.value, v.value);
      if t != [] && t[0] == ',' {
        t := t[1..];
      } else if t != [] && t[0] == '}' {
        return Some(Obj(m)), t[1..];
      } else {
        return None, t;
      }
    }
  }
}
