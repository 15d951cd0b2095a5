/** The text index: the hash of the data, then one line for every key of the two maps. */
module TextIndex {
  import opened Text
  import opened Widths

  type Index = map<string, nat>

  // ---------- writing ----------

  /** An order in which an unordered map may list its keys. */
  ghost predicate Lists(order: seq<string>, m: Index) {
    (forall k :: k in order <==> k in m) && forall i, j :: 0 <= i < j < |order| ==> order[i] != order[j]
  }

  function Line(tag: string, key: string, pos: nat): string {
    tag + (key + ("=" + Decimal(pos)))
  }

  function MapText(tag: string, m: Index, order: seq<string>): string
    requires forall k :: k in order ==> k in m
  {
    if order == [] then ""
    else Line(tag, order[0], m[order[0]]) + ("\n" + MapText(tag, m, order[1..]))
  }

  /** What `PersistentIndex::save` writes for data with the digest. */
  function IndexText(digest: string, emails: Index, phones: Index, eo: seq<string>, po: seq<string>): string
    requires (forall k :: k in eo ==> k in emails) && forall k :: k in po ==> k in phones
  {
    "hash=" + digest + ("\n" + (MapText("email:", emails, eo) + MapText("phone:", phones, po)))
  }

  method WriteMap(tag: string, m: Index, order: seq<string>) returns (o: string)
    requires forall k :: k in order ==> k in m
    ensures o == MapText(tag, m, order)
  {
    o := "";
    var rest := order;
    while rest != []
      invariant forall k :: k in rest ==> k in m
      invariant o + MapText(tag, m, rest) == MapText(tag, m, order)
      decreases |rest|
    {
      var line := Line(tag, rest[0], m[rest[0]]);
      LineAssoc(o, line, MapText(tag, m, rest[1..]));
      o := o + line + "\n";
      rest := rest[1..];
    }
    assert o + "" == o;
  }

  lemma LineAssoc(o: string, line: string, rest: string)
    ensures o + (line + ("\n" + rest)) == o + line + "\n" + rest
  {
  }

  // ---------- reading ----------

  datatype Loaded = Miss | Threw | Hit(emails: Index, phones: Index)

  /** The text before and after the first equals sign. */
  function SplitEq(s: string): Option<(string, string)> {
    if s == [] then None
    else if s[0] == '=' then Some(([], s[1..]))
    else
      var (k, v) :- SplitEq(s[1..]);
      Some(([s[0]] + k, v))
  }

  datatype Parsed = Nothing | Bad | Binding(key: string, pos: nat)

  /** A line with the tag: nothing without an equals sign, an exception without a number after it. */
  function ParseLine(tag: string, line: string): Parsed
    requires tag <= line
  {
    var kv := SplitEq(line[|tag|..]);
    if kv.None? then Nothing
    else
      var pos := Stoull(kv.value.1);
      if pos.None? then Bad else Binding(kv.value.0, pos.value)
  }

  function LoadLines(s: string, emails: Index, phones: Index): Loaded
    decreases |s|
  {
    if s == [] then Hit(emails, phones)
    else
      var (line, rest) := CutLine(s);
      if "email:" <= line then
        match ParseLine("email:", line)
        case Nothing => LoadLines(rest, emails, phones)
        case Bad => Threw
        case Binding(k, pos) => LoadLines(rest, emails[k := pos], phones)
      else if "phone:" <= line then
        match ParseLine("phone:", line)
        case Nothing => LoadLines(rest, emails, phones)
        case Bad => Threw
        case Binding(k, pos) => LoadLines(rest, emails, phones[k := pos])
      else LoadLines(rest, emails, phones)
  }

  /** Line by line: a line under a tag binds the text up to its first equals sign to the number after it, in the map
      of the tag; without an equals sign it is passed over, and so is a line under no tag; an equals sign with no
      number after it is an exception. */
  lemma LineByLine(line: string, rest: string, key: string, v: string, emails: Index, phones: Index)
    requires '\n' !in line && '=' !in key
    ensures line == "email:" + (key + ("=" + v)) ==>
              LoadLines(line + "\n" + rest, emails, phones) ==
                if Stoull(v).None? then Threw else LoadLines(rest, emails[key := Stoull(v).value], phones)
    ensures line == "phone:" + (key + ("=" + v)) ==>
              LoadLines(line + "\n" + rest, emails, phones) ==
                if Stoull(v).None? then Threw else LoadLines(rest, emails, phones[key := Stoull(v).value])
    ensures (!("email:" <= line) && !("phone:" <= line)) || '=' !in line ==>
              LoadLines(line + "\n" + rest, emails, phones) == LoadLines(rest, emails, phones)
  {
    CutLineAt(line, rest);
    SplitEqAt(key, v);
    if '=' !in line {
      if "email:" <= line || "phone:" <= line {
        NoEq(line[6..]);
      }
    }
    assert line == "email:" + (key + ("=" + v)) ==> line[6..] == key + ("=" + v);
    assert line == "phone:" + (key + ("=" + v)) ==> line[6..] == key + ("=" + v) && line[0] == 'p';
  }

  lemma {:induction false} NoEq(s: string)
    requires '=' !in s
    ensures SplitEq(s).None?
  {
    if s != [] {
      NoEq(s[1..]);
    }
  }

  /** The cache part of `load_or_build`: used only when its first line carries the digest of the data. */
  function LoadIndex(text: string, digest: string): Loaded {
    if text == [] then Miss
    else
      var (head, rest) := CutLine(text);
      if "hash=" <= head && head[5..] == digest then LoadLines(rest, map[], map[]) else Miss
  }

  method ReadIndex(text: string, digest: string) returns (r: Loaded)
    ensures r == LoadIndex(text, digest)
  {
    if text == [] {
      return Miss;
    }
    var (head, rest) := CutLine(text);
    if !("hash=" <= head && head[5..] == digest) {
      return Miss;
    }
    var emails: Index, phones: Index := map[], map[];
    while rest != []
      invariant LoadLines(rest, emails, phones) == LoadIndex(text, digest)
      decreases |rest|
    {
      var (line, next) := CutLine(rest);
      if "email:" <= line {
        match ParseLine("email:", line) {
          case Nothing =>
          case Bad => return Threw;
          case Binding(k, pos) => emails := emails[k := pos];
        }
      } else if "phone:" <= line {
        match ParseLine("phone:", line) {
          case Nothing =>
          case Bad => return Threw;
          case Binding(k, pos) => phones := phones[k := pos];
        }
      }
      rest := next;
    }
    return Hit(emails, phones);
  }

  // ---------- the text round-trips exactly for keys without an equals sign or a line feed ----------

  predicate CleanKey(k: string) {
    '=' !in k && '\n' !in k
  }

  ghost predicate CleanKeys(m: Index) {
    forall k :: k in m ==> CleanKey(k)
  }

  ghost predicate Small(m: Index) {
    forall k :: k in m ==> m[k] < TWO_64
  }

  lemma {:induction false} SplitEqAt(key: string, v: string)
    requires '=' !in key
    ensures SplitEq(key + ("=" + v)) == Some((key, v))
  {
    var s := key + ("=" + v);
    if key == [] {
      assert s[1..] == v;
    } else {
      assert s[0] == key[0] && key[0] in key;
      assert s[1..] == key[1..] + ("=" + v);
      SplitEqAt(key[1..], v);
      assert [key[0]] + key[1..] == key;
    }
  }

  lemma ParseLineBack(tag: string, key: string, pos: nat)
    requires CleanKey(key) && pos < TWO_64 && '\n' !in tag
    ensures tag <= Line(tag, key, pos) && ParseLine(tag, Line(tag, key, pos)) == Binding(key, pos)
    ensures '\n' !in Line(tag, key, pos)
  {
    assert Line(tag, key, pos)[|tag|..] == key + ("=" + Decimal(pos));
    SplitEqAt(key, Decimal(pos));
    StoullDecimal(pos);
    assert forall c :: c in Decimal(pos) ==> IsDigit(c);
  }

  /** Adding bindings one after the other. */
  function Bind(acc: Index, m: Index, order: seq<string>): Index
    requires forall k :: k in order ==> k in m
    decreases order
  {
    if order == [] then acc else Bind(acc[order[0] := m[order[0]]], m, order[1..])
  }

  lemma {:induction false} BindAll(acc: Index, m: Index, order: seq<string>)
    requires forall k :: k in order ==> k in m
    ensures forall k :: k in Bind(acc, m, order) <==> k in acc || k in order
    ensures forall k :: k in Bind(acc, m, order) ==> Bind(acc, m, order)[k] == if k in order then m[k] else acc[k]
    decreases order
  {
    if order != [] {
      assert order == [order[0]] + order[1..];
      BindAll(acc[order[0] := m[order[0]]], m, order[1..]);
    }
  }

  lemma BindListed(m: Index, order: seq<string>)
    requires Lists(order, m)
    ensures Bind(map[], m, order) == m
  {
    BindAll(map[], m, order);
  }

  lemma {:induction false} LoadEmails(m: Index, order: seq<string>, rest: string, emails: Index, phones: Index)
    requires forall k :: k in order ==> k in m && CleanKey(k) && m[k] < TWO_64
    ensures LoadLines(MapText("email:", m, order) + rest, emails, phones) == LoadLines(rest, Bind(emails, m, order), phones)
    decreases order
  {
    if order == [] {
      assert "" + rest == rest;
    } else {
      var more := MapText("email:", m, order[1..]) + rest;
      var line := Line("email:", order[0], m[order[0]]);
      ParseLineBack("email:", order[0], m[order[0]]);
      LineThen(line, MapText("email:", m, order[1..]), rest);
      CutLineAt(line, more);
      LoadEmails(m, order[1..], rest, emails[order[0] := m[order[0]]], phones);
    }
  }

  lemma {:induction false} LoadPhones(m: Index, order: seq<string>, rest: string, emails: Index, phones: Index)
    requires forall k :: k in order ==> k in m && CleanKey(k) && m[k] < TWO_64
    ensures LoadLines(MapText("phone:", m, order) + rest, emails, phones) == LoadLines(rest, emails, Bind(phones, m, order))
    decreases order
  {
    if order == [] {
      assert "" + rest == rest;
    } else {
      var more := MapText("phone:", m, order[1..]) + rest;
      var line := Line("phone:", order[0], m[order[0]]);
      ParseLineBack("phone:", order[0], m[order[0]]);
      LineThen(line, MapText("phone:", m, order[1..]), rest);
      CutLineAt(line, more);
      assert line[0] == 'p';
      LoadPhones(m, order[1..], rest, emails, phones[order[0] := m[order[0]]]);
    }
  }

  lemma LineThen(line: string, map_: string, rest: string)
    ensures line + ("\n" + map_) + rest == line + "\n" + (map_ + rest)
  {
  }

  lemma LoadBack(digest: string, emails: Index, phones: Index, eo: seq<string>, po: seq<string>)
    requires Lists(eo, emails) && Lists(po, phones) && '\n' !in digest
    requires CleanKeys(emails) && CleanKeys(phones) && Small(emails) && Small(phones)
    ensures LoadIndex(IndexText(digest, emails, phones, eo, po), digest) == Hit(emails, phones)
  {
    HeadRead(digest, MapText("email:", emails, eo) + MapText("phone:", phones, po));
    LoadEmails(emails, eo, MapText("phone:", phones, po), map[], map[]);
    LoadPhones(phones, po, "", Bind(map[], emails, eo), map[]);
    assert MapText("phone:", phones, po) + "" == MapText("phone:", phones, po);
    BindListed(emails, eo);
    BindListed(phones, po);
  }

  lemma HeadRead(digest: string, rest: string)
    requires '\n' !in digest
    ensures CutLine("hash=" + digest + ("\n" + rest)) == ("hash=" + digest, rest)
    ensures ("hash=" + digest)[5..] == digest
  {
    CutLineAt("hash=" + digest, rest);
    assert "hash=" + digest + ("\n" + rest) == "hash=" + digest + "\n" + rest;
  }

  lemma {:induction false} SplitEqKey(s: string)
    ensures SplitEq(s).Some? ==> '=' !in SplitEq(s).value.0
    ensures SplitEq(s).Some? && '\n' !in s ==> '\n' !in SplitEq(s).value.0
  {
    if s != [] && s[0] != '=' {
      SplitEqKey(s[1..]);
    }
  }

  lemma ParsedKeyClean(tag: string, line: string)
    requires tag <= line && '\n' !in line
    ensures ParseLine(tag, line).Binding? ==> CleanKey(ParseLine(tag, line).key)
  {
    SplitEqKey(line[|tag|..]);
  }

  /** Whatever the text, a loaded key has neither an equals sign nor a line feed. */
  lemma {:induction false} LoadedKeysClean(s: string, emails: Index, phones: Index)
    requires CleanKeys(emails) && CleanKeys(phones)
    ensures var r := LoadLines(s, emails, phones); r.Hit? ==> CleanKeys(r.emails) && CleanKeys(r.phones)
    decreases |s|
  {
    if s != [] {
      var (line, rest) := CutLine(s);
      if "email:" <= line {
        ParsedKeyClean("email:", line);
        match ParseLine("email:", line)
        case Nothing => LoadedKeysClean(rest, emails, phones);
        case Bad =>
        case Binding(k, pos) => LoadedKeysClean(rest, emails[k := pos], phones);
      } else if "phone:" <= line {
        ParsedKeyClean("phone:", line);
        match ParseLine("phone:", line)
        case Nothing => LoadedKeysClean(rest, emails, phones);
        case Bad =>
        case Binding(k, pos) => LoadedKeysClean(rest, emails, phones[k := pos]);
      } else {
        LoadedKeysClean(rest, emails, phones);
      }
    }
  }

  /** The saved index loads back as the same two maps exactly when no key has an equals sign or a line
      feed, in whatever order the maps were listed. */
  lemma IndexRoundTrip(digest: string, emails: Index, phones: Index, eo: seq<string>, po: seq<string>)
    requires Lists(eo, emails) && Lists(po, phones) && '\n' !in digest && Small(emails) && Small(phones)
    ensures LoadIndex(IndexText(digest, emails, phones, eo, po), digest) == Hit(emails, phones)
            <==> CleanKeys(emails) && CleanKeys(phones)
  {
    if CleanKeys(emails) && CleanKeys(phones) {
      LoadBack(digest, emails, phones, eo, po);
    } else {
      var rest := MapText("email:", emails, eo) + MapText("phone:", phones, po);
      HeadRead(digest, rest);
      LoadedKeysClean(rest, map[], map[]);
    }
  }

  /** A cache written for other data is not used. */
  lemma StaleMisses(digest: string, other: string, emails: Index, phones: Index, eo: seq<string>, po: seq<string>)
    requires Lists(eo, emails) && Lists(po, phones) && '\n' !in digest && digest != other
    ensures LoadIndex(IndexText(digest, emails, phones, eo, po), other) == Miss
  {
    HeadRead(digest, MapText("email:", emails, eo) + MapText("phone:", phones, po));
  }
}
