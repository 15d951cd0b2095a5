/** The binary index file: layout, loading, and binary search. */
module DiskIndex {
  import opened Text
  import opened Widths

  datatype Entry = Entry(key: string, offset: nat)

  // ---------- little-endian numbers ----------

  function Le(v: nat, n: nat): (s: string)
    ensures |s| == n
  {
    if n == 0 then [] else [(v % 256) as char] + Le(v / 256, n - 1)
  }

  function FromLe(s: string): nat {
    if s == [] then 0 else s[0] as int + 256 * FromLe(s[1..])
  }

  function Pow256(n: nat): (p: nat)
    ensures p >= 1
  {
    if n == 0 then 1 else 256 * Pow256(n - 1)
  }

  lemma {:induction false} FromLeLe(v: nat, n: nat)
    requires v < Pow256(n)
    ensures FromLe(Le(v, n)) == v
  {
    if n > 0 {
      assert v / 256 < Pow256(n - 1);
      FromLeLe(v / 256, n - 1);
    }
  }

  /** The bytes are the digits of the number in base 256, the lowest first: the one at `i` counts `Pow256(i)`. */
  lemma {:induction false} LeDigit(high: nat, d: nat, low: nat, n: nat, i: nat)
    requires i < n && d < 256 && low < Pow256(i)
    ensures Le(high * Pow256(i + 1) + d * Pow256(i) + low, n)[i] == d as char
    decreases i
  {
    var v := high * Pow256(i + 1) + d * Pow256(i) + low;
    if i == 0 {
      assert Pow256(1) == 256;
      assert v == 256 * high + d;
    } else {
      var x := high * Pow256(i) + d * Pow256(i - 1);
      Shifted(high, Pow256(i));
      Shifted(d, Pow256(i - 1));
      assert v == 256 * x + low;
      LeDigit(high, d, low / 256, n - 1, i - 1);
    }
  }

  lemma Shifted(x: nat, p: nat)
    ensures x * (256 * p) == 256 * (x * p)
  {
  }

  lemma PowValues()
    ensures Pow256(2) == 65536 && Pow256(4) == TWO_32 && Pow256(8) == TWO_64
  {
    assert Pow256(3) == 16777216;
    assert Pow256(5) == 0x100_0000_0000;
    assert Pow256(6) == 0x1_0000_0000_0000;
    assert Pow256(7) == 0x100_0000_0000_0000;
  }

  // ---------- writing ----------

  /** What is kept of a key: at most as many characters as two length bytes can count (EntryReadsBack). */
  function Trunc(key: string): string {
    if |key| <= 65535 then key else key[..65535]
  }

  function EntryBytes(e: Entry): string {
    Le(|Trunc(e.key)|, 2) + (Trunc(e.key) + Le(e.offset, 8))
  }

  function Block(v: seq<Entry>): string {
    if v == [] then "" else EntryBytes(v[0]) + Block(v[1..])
  }

  const MAGIC: string := "ACXIDX2" + [0 as char]

  function FileBytes(emails: seq<Entry>, phones: seq<Entry>): string {
    MAGIC + (Le(1, 4) + (Le(|emails| % TWO_32, 4) + (Le(|phones| % TWO_32, 4) + (Block(emails) + Block(phones)))))
  }

  /** What `std::sort` by key may leave: the same entries, no key below an earlier one, ties in any order. */
  ghost predicate SortOf(v: seq<Entry>, kv: seq<Entry>) {
    multiset(v) == multiset(kv) && KeysSorted(v)
  }

  ghost predicate KeysSorted(v: seq<Entry>) {
    forall i, j :: 0 <= i < j < |v| ==> !Less(v[j].key, v[i].key)
  }

  /** The file `DiskIndex::build` leaves, for entry lists in the order the sort gave them. */
  method BuildFile(emails: seq<Entry>, phones: seq<Entry>) returns (o: string)
    ensures o == FileBytes(emails, phones)
  {
    var b1 := WriteBlock(emails);
    var b2 := WriteBlock(phones);
    o := MAGIC + (Le(1, 4) + (Le(|emails| % TWO_32, 4) + (Le(|phones| % TWO_32, 4) + (b1 + b2))));
  }

  method WriteBlock(v: seq<Entry>) returns (o: string)
    ensures o == Block(v)
  {
    o := "";
    var rest := v;
    while rest != []
      invariant o + Block(rest) == Block(v)
      decreases |rest|
    {
      var klen := if |rest[0].key| < 65535 then |rest[0].key| else 65535;
      assert Trunc(rest[0].key) == rest[0].key[..klen];
      var bytes := Le(klen, 2) + (rest[0].key[..klen] + Le(rest[0].offset, 8));
      assert bytes == EntryBytes(rest[0]);
      BytesAssoc(o, bytes, Block(rest[1..]));
      o := o + bytes;
      rest := rest[1..];
    }
    assert o + "" == o;
  }

  lemma BytesAssoc(a: string, b: string, c: string)
    ensures a + (b + c) == a + b + c
  {
  }

  // ---------- loading; `None` stands for a short read or a wrong magic ----------

  function ReadLe(s: string, n: nat): (r: Option<(nat, string)>)
    ensures r.Some? ==> |r.value.1| + n == |s|
  {
    if |s| < n then None else Some((FromLe(s[..n]), s[n..]))
  }

  function ReadEntry(s: string): Option<(Entry, string)> {
    var (klen, t) :- ReadLe(s, 2);
    if |t| < klen then None
    else
      var (offset, u) :- ReadLe(t[klen..], 8);
      Some((Entry(t[..klen], offset), u))
  }

  function LoadBlock(s: string, count: nat): Option<(seq<Entry>, string)>
    decreases count
  {
    if count == 0 then Some(([], s))
    else
      var (e, t) :- ReadEntry(s);
      var (v, u) :- LoadBlock(t, count - 1);
      Some(([e] + v, u))
  }

  function Load(s: string): Option<(seq<Entry>, seq<Entry>)> {
    if |s| < 8 || s[..7] != "ACXIDX2" then None
    else
      var (_, s1) :- ReadLe(s[8..], 4);
      var (ec, s2) :- ReadLe(s1, 4);
      var (pc, s3) :- ReadLe(s2, 4);
      var (emails, s4) :- LoadBlock(s3, ec);
      var (phones, _) :- LoadBlock(s4, pc);
      Some((emails, phones))
  }

  /** A block read after some entries. */
  function Onto(out: seq<Entry>, w: Option<(seq<Entry>, string)>): Option<(seq<Entry>, string)> {
    if w.None? then None else Some((out + w.value.0, w.value.1))
  }

  lemma BlockNext(s: string, count: nat, out: seq<Entry>)
    requires count > 0 && ReadEntry(s).Some?
    ensures Onto(out, LoadBlock(s, count)) ==
            Onto(out + [ReadEntry(s).value.0], LoadBlock(ReadEntry(s).value.1, count - 1))
  {
    var (e, t) := ReadEntry(s).value;
    var w := LoadBlock(t, count - 1);
    if w.Some? {
      Assoc(out, [e], w.value.0);
    }
  }

  method ReadBlock(s: string, count: nat) returns (r: Option<(seq<Entry>, string)>)
    ensures r == LoadBlock(s, count)
  {
    var out: seq<Entry> := [];
    var rest, left := s, count;
    ghost var whole := LoadBlock(s, count);
    assert whole.Some? ==> [] + whole.value.0 == whole.value.0;
    while left > 0
      invariant whole == Onto(out, LoadBlock(rest, left))
    {
      var e := ReadEntry(rest);
      if e.None? {
        return None;
      }
      BlockNext(rest, left, out);
      out := out + [e.value.0];
      rest := e.value.1;
      left := left - 1;
    }
    assert out + [] == out;
    return Some((out, rest));
  }

  method LoadFile(s: string) returns (r: Option<(seq<Entry>, seq<Entry>)>)
    ensures r == Load(s)
  {
    if |s| < 8 || s[..7] != "ACXIDX2" {
      return None;
    }
    var ver := ReadLe(s[8..], 4);
    if ver.None? {
      return None;
    }
    var ec := ReadLe(ver.value.1, 4);
    if ec.None? {
      return None;
    }
    var pc := ReadLe(ec.value.1, 4);
    if pc.None? {
      return None;
    }
    var emails := ReadBlock(pc.value.1, ec.value.0);
    if emails.None? {
      return None;
    }
    var phones := ReadBlock(emails.value.1, pc.value.0);
    if phones.None? {
      return None;
    }
    return Some((emails.value.0, phones.value.0));
  }

  // ---------- the layout round-trips ----------

  function TruncEntry(e: Entry): Entry {
    Entry(Trunc(e.key), e.offset)
  }

  function TruncAll(v: seq<Entry>): (r: seq<Entry>)
    ensures |r| == |v| && forall i :: 0 <= i < |v| ==> r[i] == TruncEntry(v[i])
  {
    seq(|v|, i requires 0 <= i < |v| => TruncEntry(v[i]))
  }

  lemma ReadLeBack(v: nat, n: nat, rest: string)
    requires v < Pow256(n)
    ensures ReadLe(Le(v, n) + rest, n) == Some((v, rest))
  {
    var s := Le(v, n) + rest;
    assert s[..n] == Le(v, n) && s[n..] == rest;
    FromLeLe(v, n);
  }

  lemma ReadEntryBack(e: Entry, rest: string)
    requires e.offset < TWO_64
    ensures ReadEntry(EntryBytes(e) + rest) == Some((TruncEntry(e), rest))
  {
    PowValues();
    var key := Trunc(e.key);
    var tail := Le(e.offset, 8) + rest;
    assert EntryBytes(e) + rest == Le(|key|, 2) + (key + tail);
    ReadLeBack(|key|, 2, key + tail);
    assert (key + tail)[..|key|] == key && (key + tail)[|key|..] == tail;
    ReadLeBack(e.offset, 8, rest);
  }

  /** An entry reads back as it was written if its key is shorter than the range of the two length bytes; of a
      longer key as many characters come back as they can count. */
  lemma EntryReadsBack(e: Entry, rest: string)
    requires e.offset < Pow256(8)
    ensures |e.key| < Pow256(2) ==> ReadEntry(EntryBytes(e) + rest) == Some((e, rest))
    ensures |e.key| >= Pow256(2) ==> ReadEntry(EntryBytes(e) + rest) == Some((Entry(e.key[..Pow256(2) - 1], e.offset), rest))
  {
    PowValues();
    ReadEntryBack(e, rest);
  }

  lemma {:induction false} LoadBlockBack(v: seq<Entry>, rest: string)
    requires forall i :: 0 <= i < |v| ==> v[i].offset < TWO_64
    ensures LoadBlock(Block(v) + rest, |v|) == Some((TruncAll(v), rest))
  {
    if v == [] {
      assert Block(v) + rest == rest;
    } else {
      Assoc(EntryBytes(v[0]), Block(v[1..]), rest);
      ReadEntryBack(v[0], Block(v[1..]) + rest);
      LoadBlockBack(v[1..], rest);
      TruncCons(v);
    }
  }

  lemma TruncCons(v: seq<Entry>)
    requires v != []
    ensures [TruncEntry(v[0])] + TruncAll(v[1..]) == TruncAll(v)
  {
  }

  ghost predicate Fits(v: seq<Entry>) {
    |v| < TWO_32 && forall i :: 0 <= i < |v| ==> v[i].offset < TWO_64
  }

  /** Loading a built file gives both lists back, with their keys cut at 65535 bytes. */
  lemma LoadBack(emails: seq<Entry>, phones: seq<Entry>)
    requires Fits(emails) && Fits(phones)
    ensures Load(FileBytes(emails, phones)) == Some((TruncAll(emails), TruncAll(phones)))
  {
    var blocks := Block(emails) + Block(phones);
    var s2 := Le(|phones|, 4) + blocks;
    var s1 := Le(|emails|, 4) + s2;
    assert |emails| % TWO_32 == |emails| && |phones| % TWO_32 == |phones|;
    HeaderRead(Le(1, 4) + s1);
    CountRead(1, s1);
    CountRead(|emails|, s2);
    CountRead(|phones|, blocks);
    BlocksRead(emails, phones);
  }

  /** Lists whose keys have at most 65535 bytes come back as they were. */
  lemma LoadsWhole(emails: seq<Entry>, phones: seq<Entry>)
    requires Fits(emails) && Fits(phones) && forall e :: e in emails + phones ==> |e.key| < Pow256(2)
    ensures Load(FileBytes(emails, phones)) == Some((emails, phones))
  {
    PowValues();
    LoadBack(emails, phones);
    forall i | 0 <= i < |emails| ensures TruncAll(emails)[i] == emails[i] {
      assert emails[i] in emails + phones;
    }
    forall i | 0 <= i < |phones| ensures TruncAll(phones)[i] == phones[i] {
      assert phones[i] in emails + phones;
    }
    assert TruncAll(emails) == emails && TruncAll(phones) == phones;
  }

  lemma {:induction false} BlockCount(s: string, n: nat)
    ensures LoadBlock(s, n).Some? ==> |LoadBlock(s, n).value.0| == n
    decreases n
  {
    if n > 0 && ReadEntry(s).Some? {
      BlockCount(ReadEntry(s).value.1, n - 1);
    }
  }

  /** Whatever loads has the name, and the entries that its counts say; the version and the byte after the name are
      not looked at. */
  lemma LoadedIs(s: string)
    requires Load(s).Some?
    ensures |s| >= 20 && s[..7] == "ACXIDX2"
    ensures |Load(s).value.0| == FromLe(s[12..16]) && |Load(s).value.1| == FromLe(s[16..20])
  {
    var s1 := s[8..][4..];
    var s2 := s1[4..];
    var s3 := s2[4..];
    assert s1[..4] == s[12..16] && s2[..4] == s[16..20];
    BlockCount(s3, FromLe(s[12..16]));
    BlockCount(LoadBlock(s3, FromLe(s[12..16])).value.1, FromLe(s[16..20]));
  }

  /** Where the parts of a file stand: name, version and counts in twenty bytes, then the two blocks. */
  lemma Layout(emails: seq<Entry>, phones: seq<Entry>)
    ensures var f := FileBytes(emails, phones);
            && |f| == 20 + |Block(emails)| + |Block(phones)|
            && f[..8] == ['A', 'C', 'X', 'I', 'D', 'X', '2', 0 as char] && f[8..12] == [1 as char, 0 as char, 0 as char, 0 as char]
            && f[12..16] == Le(|emails| % TWO_32, 4) && f[16..20] == Le(|phones| % TWO_32, 4)
            && f[20..20 + |Block(emails)|] == Block(emails) && f[20 + |Block(emails)|..] == Block(phones)
  {
    VersionBytes();
    Parts(MAGIC, Le(1, 4), Le(|emails| % TWO_32, 4), Le(|phones| % TWO_32, 4), Block(emails), Block(phones));
  }

  lemma VersionBytes()
    ensures Le(1, 4) == [1 as char, 0 as char, 0 as char, 0 as char]
  {
    assert Le(0, 0) == [] && Le(0, 1) == [0 as char] && Le(0, 2) == [0 as char, 0 as char];
    assert Le(0, 3) == [0 as char, 0 as char, 0 as char];
  }

  lemma Parts(m: string, v: string, ec: string, pc: string, a: string, b: string)
    requires |m| == 8 && |v| == |ec| == |pc| == 4
    ensures var f := m + (v + (ec + (pc + (a + b))));
            && |f| == 20 + |a| + |b| && f[..8] == m && f[8..12] == v && f[12..16] == ec && f[16..20] == pc
            && f[20..20 + |a|] == a && f[20 + |a|..] == b
  {
  }

  lemma CountRead(n: nat, rest: string)
    requires n < TWO_32
    ensures ReadLe(Le(n, 4) + rest, 4) == Some((n, rest))
  {
    PowValues();
    ReadLeBack(n, 4, rest);
  }

  lemma BlocksRead(emails: seq<Entry>, phones: seq<Entry>)
    requires Fits(emails) && Fits(phones)
    ensures LoadBlock(Block(emails) + Block(phones), |emails|) == Some((TruncAll(emails), Block(phones)))
    ensures LoadBlock(Block(phones), |phones|) == Some((TruncAll(phones), ""))
  {
    LoadBlockBack(emails, Block(phones));
    assert Block(phones) + "" == Block(phones);
    LoadBlockBack(phones, "");
  }

  lemma HeaderRead(rest: string)
    ensures |MAGIC + rest| >= 8 && (MAGIC + rest)[..7] == "ACXIDX2" && (MAGIC + rest)[8..] == rest
  {
  }

  // ---------- binary search ----------

  /** `bsearch_key` between two bounds. */
  function Bsearch(v: seq<Entry>, key: string, lo: nat, hi: nat): Option<nat>
    requires lo <= hi <= |v|
    decreases hi - lo
  {
    if lo == hi then None
    else
      var mid := (lo + hi) / 2;
      if v[mid].key == key then Some(v[mid].offset)
      else if Less(v[mid].key, key) then Bsearch(v, key, mid + 1, hi)
      else Bsearch(v, key, lo, mid)
  }

  method BsearchKey(v: seq<Entry>, key: string) returns (r: Option<nat>)
    ensures r == Bsearch(v, key, 0, |v|)
  {
    var lo, hi := 0, |v|;
    while lo < hi
      invariant lo <= hi <= |v|
      invariant Bsearch(v, key, lo, hi) == Bsearch(v, key, 0, |v|)
    {
      var mid := (lo + hi) / 2;
      if v[mid].key == key {
        return Some(v[mid].offset);
      }
      if Less(v[mid].key, key) {
        lo := mid + 1;
      } else {
        hi := mid;
      }
    }
    return None;
  }

  /** On a sorted list the search finds an entry with the key exactly when there is one. */
  lemma {:induction false} BsearchFinds(v: seq<Entry>, key: string, lo: nat, hi: nat)
    requires KeysSorted(v) && lo <= hi <= |v|
    requires forall i :: 0 <= i < |v| && v[i].key == key ==> lo <= i < hi
    ensures match Bsearch(v, key, lo, hi)
            case Some(off) => Entry(key, off) in v
            case None => forall i :: 0 <= i < |v| ==> v[i].key != key
    decreases hi - lo
  {
    if lo < hi {
      var mid := (lo + hi) / 2;
      if v[mid].key == key {
        assert v[mid] == Entry(key, v[mid].offset);
      } else if Less(v[mid].key, key) {
        forall i | 0 <= i < mid ensures v[i].key != key {
          assert !Less(v[mid].key, v[i].key);
        }
        BsearchFinds(v, key, mid + 1, hi);
      } else {
        LessTotal(v[mid].key, key);
        forall i | mid < i < |v| ensures v[i].key != key {
          assert !Less(v[i].key, v[mid].key);
        }
        BsearchFinds(v, key, lo, mid);
      }
    }
  }

  // ---------- looking up ----------

  /** Cutting keys keeps their order, so the loaded lists are still sorted. */
  lemma {:induction false} PrefixOrder(a: string, b: string, n: nat)
    requires !Less(b, a)
    ensures !Less(if |b| <= n then b else b[..n], if |a| <= n then a else a[..n])
    decreases n
  {
    var a', b' := if |a| <= n then a else a[..n], if |b| <= n then b else b[..n];
    if n > 0 && a != [] && b != [] && a[0] == b[0] {
      PrefixOrder(a[1..], b[1..], n - 1);
      assert a'[1..] == if |a[1..]| <= n - 1 then a[1..] else a[1..][..n - 1];
      assert b'[1..] == if |b[1..]| <= n - 1 then b[1..] else b[1..][..n - 1];
    }
  }

  lemma TruncSorted(v: seq<Entry>)
    requires KeysSorted(v)
    ensures KeysSorted(TruncAll(v))
  {
    forall i, j | 0 <= i < j < |v| ensures !Less(TruncAll(v)[j].key, TruncAll(v)[i].key) {
      PrefixOrder(v[i].key, v[j].key, 65535);
    }
  }

  /** A search for `key` in the index made from `kv` answers as a scan of `kv` with cut keys would. */
  ghost predicate Answers(r: Option<nat>, kv: seq<Entry>, key: string) {
    match r
    case Some(off) => exists i :: 0 <= i < |kv| && Trunc(kv[i].key) == key && kv[i].offset == off
    case None => forall i :: 0 <= i < |kv| ==> Trunc(kv[i].key) != key
  }

  lemma SearchAnswers(v: seq<Entry>, kv: seq<Entry>, key: string)
    requires SortOf(v, kv)
    ensures Answers(Bsearch(TruncAll(v), key, 0, |v|), kv, key)
  {
    TruncSorted(v);
    BsearchFinds(TruncAll(v), key, 0, |v|);
    var r := Bsearch(TruncAll(v), key, 0, |v|);
    if r.Some? {
      var j :| 0 <= j < |v| && TruncAll(v)[j] == Entry(key, r.value);
      SameElements(v, kv, v[j]);
      var i :| 0 <= i < |kv| && kv[i] == v[j];
    } else {
      forall i | 0 <= i < |kv| ensures Trunc(kv[i].key) != key {
        SameElements(v, kv, kv[i]);
        var j :| 0 <= j < |v| && v[j] == kv[i];
        assert TruncAll(v)[j].key == Trunc(kv[i].key);
      }
    }
  }

  /** `lookup_email` on the contents of the file. */
  function LookupEmail(file: string, key: string): Option<nat> {
    var (emails, _) :- Load(file);
    Bsearch(emails, key, 0, |emails|)
  }

  function LookupPhone(file: string, key: string): Option<nat> {
    var (_, phones) :- Load(file);
    Bsearch(phones, key, 0, |phones|)
  }

  /** Looking a key up in the built file equals scanning the entries the file was built from,
      their keys cut at 65535 bytes. */
  lemma LookupAnswers(emails: seq<Entry>, phones: seq<Entry>, ekv: seq<Entry>, pkv: seq<Entry>, key: string)
    requires SortOf(emails, ekv) && SortOf(phones, pkv) && Fits(emails) && Fits(phones)
    ensures Answers(LookupEmail(FileBytes(emails, phones), key), ekv, key)
    ensures Answers(LookupPhone(FileBytes(emails, phones), key), pkv, key)
  {
    LoadBack(emails, phones);
    SearchAnswers(emails, ekv, key);
    SearchAnswers(phones, pkv, key);
  }
}
