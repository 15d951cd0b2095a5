/** Saving and loading the book, and the fast search on the saved files. */
module Store {
  import opened Text
  import opened Widths
  import opened Json
  import opened JsonRoundTrip
  import opened Jsonl
  import opened Model
  import opened Validation
  import opened Book
  import opened BookInvariant
  import TextIndex
  import DiskIndex

  /** A digest of file contents, printed on one line. */
  type Digest = string -> string

  ghost predicate OneLine(h: Digest) {
    forall s :: '\n' !in h(s)
  }

  // ---------- files ----------

  datatype Path = Data | Index | Meta | Bin | Tmp(of: Path)

  type Files = map<Path, string>

  /** `read_file`: a missing file reads as empty. */
  function Read(fs: Files, p: Path): string {
    if p in fs then fs[p] else ""
  }

  /** What reaches the disk one after the other: a file gets its content so far, or takes another's place. */
  datatype Step = Write(path: Path, content: string) | Rename(from: Path, to: Path)

  function Do(fs: Files, step: Step): Files {
    match step
    case Write(p, content) => fs[p := content]
    case Rename(from, to) => if from in fs then (fs - {from})[to := fs[from]] else fs
  }

  function Exec(fs: Files, steps: seq<Step>): Files
    decreases steps
  {
    if steps == [] then fs else Exec(Do(fs, steps[0]), steps[1..])
  }

  /** A plain write: the file is truncated, then grows byte by byte. */
  function Growing(p: Path, content: string): (steps: seq<Step>)
    ensures |steps| == |content| + 1
    ensures forall k :: 0 <= k <= |content| ==> steps[k] == Write(p, content[..k])
  {
    seq(|content| + 1, k requires 0 <= k <= |content| => Write(p, content[..k]))
  }

  /** `write_file_atomic`: the temporary grows, then is renamed. */
  function Atomic(p: Path, content: string): seq<Step> {
    Growing(Tmp(p), content) + [Rename(Tmp(p), p)]
  }

  // ---------- save ----------

  function DataText(cs: seq<Contact>): string {
    if cs == [] then "" else ContactLine(cs[0]) + ("\n" + DataText(cs[1..]))
  }

  /** The position at which a contact's line starts. */
  function Offset(cs: seq<Contact>, i: nat): nat
    requires i <= |cs|
  {
    |DataText(cs[..i])|
  }

  /** The key-offset pairs of the first `n` contacts. */
  function EmailPairs(cs: seq<Contact>, n: nat): (kv: seq<DiskIndex.Entry>)
    requires n <= |cs|
    ensures |kv| == n && forall i :: 0 <= i < n ==> kv[i] == DiskIndex.Entry(EmailKey(cs[i]), Offset(cs, i))
  {
    if n == 0 then [] else EmailPairs(cs, n - 1) + [DiskIndex.Entry(EmailKey(cs[n - 1]), Offset(cs, n - 1))]
  }

  function PhonePairs(cs: seq<Contact>, n: nat): (kv: seq<DiskIndex.Entry>)
    requires n <= |cs|
    ensures |kv| == n && forall i :: 0 <= i < n ==> kv[i] == DiskIndex.Entry(PhoneKey(cs[i]), Offset(cs, i))
  {
    if n == 0 then [] else PhonePairs(cs, n - 1) + [DiskIndex.Entry(PhoneKey(cs[n - 1]), Offset(cs, n - 1))]
  }

  function EmailEntries(cs: seq<Contact>): seq<DiskIndex.Entry> {
    EmailPairs(cs, |cs|)
  }

  function PhoneEntries(cs: seq<Contact>): seq<DiskIndex.Entry> {
    PhonePairs(cs, |cs|)
  }

  lemma {:induction false} DataTextAppend(cs: seq<Contact>, c: Contact)
    ensures DataText(cs + [c]) == DataText(cs) + (ContactLine(c) + "\n")
  {
    if cs == [] {
      assert (cs + [c])[1..] == [];
      assert ContactLine(c) + ("\n" + "") == ContactLine(c) + "\n";
    } else {
      assert (cs + [c])[1..] == cs[1..] + [c];
      DataTextAppend(cs[1..], c);
      Regroup3(ContactLine(cs[0]), DataText(cs[1..]), ContactLine(c) + "\n");
    }
  }

  lemma Regroup3(a: string, b: string, c: string)
    ensures a + ("\n" + (b + c)) == a + ("\n" + b) + c
  {
  }

  /** The first loop of `save`: the text of the data file, and the key-offset pairs. */
  lemma NextLine(cs: seq<Contact>, i: nat)
    requires i < |cs|
    ensures DataText(cs[..i + 1]) == DataText(cs[..i]) + (ContactLine(cs[i]) + "\n")
    ensures EmailPairs(cs, i + 1) == EmailPairs(cs, i) + [DiskIndex.Entry(ToLower(cs[i].email), |DataText(cs[..i])|)]
    ensures PhonePairs(cs, i + 1) == PhonePairs(cs, i) + [DiskIndex.Entry(NormalizePhone(cs[i].phone), |DataText(cs[..i])|)]
  {
    DataTextAppend(cs[..i], cs[i]);
    assert cs[..i] + [cs[i]] == cs[..i + 1];
  }

  method Prepare(cs: seq<Contact>) returns (o: string, emails: seq<DiskIndex.Entry>, phones: seq<DiskIndex.Entry>)
    ensures o == DataText(cs)
    ensures emails == EmailEntries(cs) && phones == PhoneEntries(cs)
  {
    o, emails, phones := "", [], [];
    var cur := 0;
    for i := 0 to |cs|
      invariant o == DataText(cs[..i]) && cur == |o|
      invariant emails == EmailPairs(cs, i) && phones == PhonePairs(cs, i)
    {
      NextLine(cs, i);
      emails := emails + [DiskIndex.Entry(ToLower(cs[i].email), cur)];
      phones := phones + [DiskIndex.Entry(NormalizePhone(cs[i].phone), cur)];
      var line := ContactLine(cs[i]);
      o := o + (line + "\n");
      cur := cur + |line| + 1;
    }
    assert cs[..|cs|] == cs;
  }

  /** What is free in a save: the order in which the hash maps list their keys, and how the sort left ties. */
  datatype Orders = Orders(emails: seq<string>, phones: seq<string>,
                           sortedEmails: seq<DiskIndex.Entry>, sortedPhones: seq<DiskIndex.Entry>)

  ghost predicate Possible(b: Book, o: Orders) {
    && TextIndex.Lists(o.emails, b.emailToI) && TextIndex.Lists(o.phones, b.phoneToI)
    && DiskIndex.SortOf(o.sortedEmails, EmailEntries(b.contacts))
    && DiskIndex.SortOf(o.sortedPhones, PhoneEntries(b.contacts))
  }

  function IndexContent(h: Digest, b: Book, o: Orders): string
    requires (forall k :: k in o.emails ==> k in b.emailToI) && forall k :: k in o.phones ==> k in b.phoneToI
  {
    TextIndex.IndexText(h(DataText(b.contacts)), b.emailToI, b.phoneToI, o.emails, o.phones)
  }

  function MetaContent(h: Digest, b: Book): string {
    "hash=" + h(DataText(b.contacts)) + "\n"
  }

  function BinContent(o: Orders): string {
    DiskIndex.FileBytes(o.sortedEmails, o.sortedPhones)
  }

  /** `save`: the data, then the text index, both atomically; then the disk index, its meta file first. */
  function SaveSteps(h: Digest, b: Book, o: Orders): seq<Step>
    requires (forall k :: k in o.emails ==> k in b.emailToI) && forall k :: k in o.phones ==> k in b.phoneToI
  {
    Atomic(Data, DataText(b.contacts)) + Atomic(Index, IndexContent(h, b, o)) +
    Atomic(Meta, MetaContent(h, b)) + Growing(Bin, BinContent(o))
  }

  lemma {:induction false} ExecConcat(fs: Files, a: seq<Step>, b: seq<Step>)
    ensures Exec(fs, a + b) == Exec(Exec(fs, a), b)
    decreases a
  {
    if a == [] {
      assert a + b == b;
    } else {
      assert (a + b)[1..] == a[1..] + b;
      ExecConcat(Do(fs, a[0]), a[1..], b);
    }
  }

  lemma ExecGrowing(fs: Files, p: Path, content: string)
    ensures Exec(fs, Growing(p, content)) == fs[p := content]
  {
    GrowingPrefix(fs, p, content, |content|);
    var steps := Growing(p, content);
    assert steps[..|content| + 1] == steps && content[..|content|] == content;
  }

  lemma {:induction false} GrowingPrefix(fs: Files, p: Path, content: string, k: nat)
    requires k <= |content|
    ensures Exec(fs, Growing(p, content)[..k + 1]) == fs[p := content[..k]]
    decreases k
  {
    var steps := Growing(p, content);
    if k == 0 {
      assert steps[..1] == [Write(p, content[..0])];
      assert steps[..1][1..] == [];
      assert Exec(fs, steps[..1]) == Exec(Do(fs, steps[..1][0]), []);
    } else {
      GrowingPrefix(fs, p, content, k - 1);
      assert steps[..k + 1] == steps[..k] + [Write(p, content[..k])];
      ExecConcat(fs, steps[..k], [Write(p, content[..k])]);
      ExecOne(fs[p := content[..k - 1]], Write(p, content[..k]));
      assert fs[p := content[..k - 1]][p := content[..k]] == fs[p := content[..k]];
    }
  }

  lemma ExecOne(fs: Files, step: Step)
    ensures Exec(fs, [step]) == Do(fs, step)
  {
    assert [step][1..] == [];
    assert Exec(fs, [step]) == Exec(Do(fs, step), []);
  }

  lemma ExecAtomic(fs: Files, p: Path, content: string)
    ensures Exec(fs, Atomic(p, content)) == (fs - {Tmp(p)})[p := content]
  {
    ExecConcat(fs, Growing(Tmp(p), content), [Rename(Tmp(p), p)]);
    ExecGrowing(fs, Tmp(p), content);
    var mid := fs[Tmp(p) := content];
    ExecOne(mid, Rename(Tmp(p), p));
    assert mid - {Tmp(p)} == fs - {Tmp(p)};
  }

  lemma FourFiles(fs: Files, d: string, i: string, m: string, n: string)
    ensures var fs' := Exec(fs, Atomic(Data, d) + Atomic(Index, i) + Atomic(Meta, m) + Growing(Bin, n));
            Read(fs', Data) == d && Read(fs', Index) == i && Read(fs', Meta) == m && Read(fs', Bin) == n && Index in fs'
  {
    var s1, s2, s3, s4 := Atomic(Data, d), Atomic(Index, i), Atomic(Meta, m), Growing(Bin, n);
    ExecConcat(fs, s1 + s2 + s3, s4);
    ExecConcat(fs, s1 + s2, s3);
    ExecConcat(fs, s1, s2);
    ExecAtomic(fs, Data, d);
    var f1 := (fs - {Tmp(Data)})[Data := d];
    ExecAtomic(f1, Index, i);
    var f2 := (f1 - {Tmp(Index)})[Index := i];
    ExecAtomic(f2, Meta, m);
    var f3 := (f2 - {Tmp(Meta)})[Meta := m];
    ExecGrowing(f3, Bin, n);
  }

  /** After a completed save the four files hold what they should. */
  lemma Completed(h: Digest, fs: Files, b: Book, o: Orders)
    requires (forall k :: k in o.emails ==> k in b.emailToI) && forall k :: k in o.phones ==> k in b.phoneToI
    ensures var fs' := Exec(fs, SaveSteps(h, b, o));
            && Read(fs', Data) == DataText(b.contacts) && Read(fs', Index) == IndexContent(h, b, o) && Index in fs'
            && Read(fs', Meta) == MetaContent(h, b) && Read(fs', Bin) == BinContent(o)
  {
    FourFiles(fs, DataText(b.contacts), IndexContent(h, b, o), MetaContent(h, b), BinContent(o));
  }

  // ---------- load ----------

  function ToJsons(cs: seq<Contact>): (js: seq<J>)
    ensures |js| == |cs| && forall i :: 0 <= i < |cs| ==> js[i] == ToJson(cs[i])
  {
    if cs == [] then [] else [ToJson(cs[0])] + ToJsons(cs[1..])
  }

  function FromJsons(js: seq<J>): Option<seq<Contact>> {
    if js == [] then Some([])
    else
      var c :- FromJson(js[0]);
      var cs :- FromJsons(js[1..]);
      Some([c] + cs)
  }

  /** The maps rebuilt from the contacts, later contacts overwriting earlier ones. */
  function Rebuild(cs: seq<Contact>): Book {
    Book(cs, Reindex(map[], EmailKeys(cs), 0), Reindex(map[], PhoneKeys(cs), 0))
  }

  datatype LoadResult = Exception | Ok(book: Book, rebuilt: bool)

  /** `load`, and `load_or_build` with it. With no data the contacts are cleared and the maps kept. */
  function Load(h: Digest, fs: Files, b: Book): LoadResult {
    if Read(fs, Data) == "" then Ok(b.(contacts := []), false)
    else
      var js := ParseJsonl(Read(fs, Data));
      if js.None? then Exception
      else
        var cs := FromJsons(js.value);
        if cs.None? then Exception
        else
          match TextIndex.LoadIndex(Read(fs, Index), h(Read(fs, Data)))
          case Hit(emails, phones) => Ok(Book(cs.value, emails, phones), false)
          case Threw => Exception
          case Miss => Ok(Rebuild(cs.value), true)
  }

  /** Without data the book loses its contacts and keeps its maps. */
  lemma LoadNothing(h: Digest, fs: Files, b: Book)
    requires Read(fs, Data) == ""
    ensures Load(h, fs, b) == Ok(Book([], b.emailToI, b.phoneToI), false)
  {
  }

  /** With data whose lines are contacts: those, with the maps of the index file when it carries the digest of the
      data, and else with maps made from them; an index that cannot be read is an exception. */
  lemma LoadData(h: Digest, fs: Files, b: Book, data: string, js: seq<J>, cs: seq<Contact>, r: LoadResult)
    requires Read(fs, Data) == data != "" && ParseJsonl(data) == Some(js) && FromJsons(js) == Some(cs) && r == Load(h, fs, b)
    ensures match TextIndex.LoadIndex(Read(fs, Index), h(data))
            case Hit(emails, phones) => r == Ok(Book(cs, emails, phones), false)
            case Threw => r == Exception
            case Miss => r == Ok(Rebuild(cs), true)
  {
  }

  lemma {:induction false} DataIsJsonl(cs: seq<Contact>)
    ensures DataText(cs) == DumpJsonl(ToJsons(cs))
  {
    if cs != [] {
      DataIsJsonl(cs[1..]);
      assert ToJsons(cs)[1..] == ToJsons(cs[1..]);
      Assoc(ContactLine(cs[0]), "\n", DataText(cs[1..]));
    }
  }

  ghost predicate AllClean(cs: seq<Contact>) {
    forall c :: c in cs ==> CleanContact(c)
  }

  lemma {:induction false} FromToJsons(cs: seq<Contact>)
    ensures FromJsons(ToJsons(cs)) == Some(cs)
  {
    if cs != [] {
      ContactRoundTrip(cs[0]);
      FromToJsons(cs[1..]);
      assert ToJsons(cs)[1..] == ToJsons(cs[1..]);
      assert [cs[0]] + cs[1..] == cs;
    }
  }

  function StrippedAll(cs: seq<Contact>): (r: seq<Contact>)
    ensures |r| == |cs| && forall i :: 0 <= i < |cs| ==> r[i] == Stripped(cs[i])
  {
    seq(|cs|, i requires 0 <= i < |cs| => Stripped(cs[i]))
  }

  lemma StrippedAllSame(cs: seq<Contact>)
    ensures StrippedAll(cs) == cs <==> AllClean(cs)
  {
    forall i | 0 <= i < |cs| ensures StrippedAll(cs)[i] == cs[i] <==> CleanContact(cs[i]) {
      StrippedSame(cs[i]);
    }
    if StrippedAll(cs) != cs {
      assert exists i :: 0 <= i < |cs| && StrippedAll(cs)[i] != cs[i];
    }
  }

  /** What the data file reads back as, for any contacts. */
  lemma DataParses(cs: seq<Contact>)
    ensures ParseJsonl(DataText(cs)) == Some(ToJsons(StrippedAll(cs)))
    ensures FromJsons(ToJsons(StrippedAll(cs))) == Some(StrippedAll(cs))
  {
    DataIsJsonl(cs);
    forall j | j in ToJsons(cs) ensures NoNum(j) {
      var i :| 0 <= i < |cs| && ToJsons(cs)[i] == j;
      ContactJson(cs[i]);
    }
    ReadBack(ToJsons(cs));
    StripAll(cs);
    FromToJsons(StrippedAll(cs));
  }

  lemma StripAll(cs: seq<Contact>)
    ensures StripElems(ToJsons(cs)) == ToJsons(StrippedAll(cs))
  {
    forall i | 0 <= i < |cs| ensures StripElems(ToJsons(cs))[i] == ToJsons(StrippedAll(cs))[i] {
      StripContact(cs[i]);
    }
  }

  /** The data file of clean contacts reads back as those contacts. */
  lemma DataReadBack(cs: seq<Contact>)
    requires AllClean(cs)
    ensures ParseJsonl(DataText(cs)) == Some(ToJsons(cs)) && FromJsons(ToJsons(cs)) == Some(cs)
  {
    DataParses(cs);
    StrippedAllSame(cs);
  }

  /** A book that a save can bring back: exact maps, printable texts, keys the text index can carry. */
  ghost predicate Storable(b: Book) {
    && Agree(b) && AllClean(b.contacts) && |b.contacts| < TWO_64
    && TextIndex.CleanKeys(b.emailToI) && TextIndex.CleanKeys(b.phoneToI)
  }

  lemma RebuildAgrees(b: Book)
    requires Agree(b)
    ensures Rebuild(b.contacts) == b
  {
    var es, ps := EmailKeys(b.contacts), PhoneKeys(b.contacts);
    ExactDistinct(b.emailToI, es);
    ExactDistinct(b.phoneToI, ps);
    ReindexExact(map[], es, 0);
    ReindexExact(map[], ps, 0);
    ExactUnique(b.emailToI, Reindex(map[], es, 0), es);
    ExactUnique(b.phoneToI, Reindex(map[], ps, 0), ps);
  }

  lemma ExactUnique(m: map<string, nat>, m': map<string, nat>, keys: seq<string>)
    requires ExactMap(m, keys) && ExactMap(m', keys)
    ensures m == m'
  {
    forall k | k in m ensures k in m' && m'[k] == m[k] {
      assert keys[m[k]] == k;
    }
    forall k | k in m' ensures k in m && m'[k] == m[k] {
      assert keys[m'[k]] == k;
    }
    assert m.Keys == m'.Keys;
  }

  /** A phone key is always fit for the text index. */
  lemma PhoneKeysClean(b: Book)
    requires Sound(b)
    ensures TextIndex.CleanKeys(b.phoneToI)
  {
    forall k | k in b.phoneToI ensures TextIndex.CleanKey(k) {
      var c := b.contacts[b.phoneToI[k]];
      assert PhoneKeys(b.contacts)[b.phoneToI[k]] == k;
      if '=' in k {
        NormalizePhoneChars(c.phone, '=');
      }
      if '\n' in k {
        NormalizePhoneChars(c.phone, '\n');
      }
    }
  }

  /** So is an address when it is valid. */
  lemma KeysAreClean(b: Book)
    requires Agree(b) && forall c :: c in b.contacts ==> IsValidEmail(c.email)
    ensures TextIndex.CleanKeys(b.emailToI) && TextIndex.CleanKeys(b.phoneToI)
  {
    forall k | k in b.emailToI ensures TextIndex.CleanKey(k) {
      var c := b.contacts[b.emailToI[k]];
      assert EmailKeys(b.contacts)[b.emailToI[k]] == k;
      EmailKeyClean(c.email);
    }
    PhoneKeysClean(b);
  }

  lemma EmailKeyClean(email: string)
    requires IsValidEmail(email)
    ensures TextIndex.CleanKey(ToLower(email))
  {
    ToLowerKeeps(email, '=');
    ToLowerKeeps(email, '\n');
    if '=' in email {
      ValidEmailChars(email, '=');
    }
    if '\n' in email {
      ValidEmailChars(email, '\n');
    }
  }

  lemma SmallMaps(b: Book)
    requires Agree(b) && |b.contacts| < TWO_64
    ensures TextIndex.Small(b.emailToI) && TextIndex.Small(b.phoneToI)
  {
  }

  /** An index written for one storable book, met by the data of another: it is either not used, or right. */
  lemma CacheIsRight(h: Digest, b: Book, g: Book, o: Orders)
    requires OneLine(h) && Storable(b) && Storable(g)
    requires TextIndex.Lists(o.emails, g.emailToI) && TextIndex.Lists(o.phones, g.phoneToI)
    requires h(DataText(b.contacts)) == h(DataText(g.contacts)) ==> DataText(b.contacts) == DataText(g.contacts)
    ensures var r := TextIndex.LoadIndex(IndexContent(h, g, o), h(DataText(b.contacts)));
            r == (if h(DataText(b.contacts)) == h(DataText(g.contacts)) then TextIndex.Hit(b.emailToI, b.phoneToI)
                  else TextIndex.Miss)
  {
    if h(DataText(b.contacts)) == h(DataText(g.contacts)) {
      SameText(b.contacts, g.contacts);
      RebuildAgrees(b);
      RebuildAgrees(g);
      SmallMaps(g);
      TextIndex.LoadBack(h(DataText(g.contacts)), g.emailToI, g.phoneToI, o.emails, o.phones);
    } else {
      TextIndex.StaleMisses(h(DataText(g.contacts)), h(DataText(b.contacts)), g.emailToI, g.phoneToI, o.emails, o.phones);
    }
  }

  /** Loading with an index that is not used, or right. */
  lemma LoadWith(h: Digest, fs: Files, b: Book)
    requires Storable(b) && Read(fs, Data) == DataText(b.contacts) && b.contacts != []
    requires var r := TextIndex.LoadIndex(Read(fs, Index), h(DataText(b.contacts)));
             r == TextIndex.Miss || r == TextIndex.Hit(b.emailToI, b.phoneToI)
    ensures Load(h, fs, EMPTY) == Ok(b, TextIndex.LoadIndex(Read(fs, Index), h(DataText(b.contacts))).Miss?)
  {
    DataReadBack(b.contacts);
    RebuildAgrees(b);
    assert DataText(b.contacts) != "";
  }

  lemma EmptyBook(b: Book)
    requires Agree(b) && b.contacts == []
    ensures b == EMPTY
  {
    RebuildAgrees(b);
    assert Rebuild([]) == EMPTY;
  }

  /** Loading data of a storable book with an index written for a storable book gives the former back:
      the index is either for the same data or is not used. */
  lemma LoadGenerations(h: Digest, fs: Files, b: Book, g: Book, o: Orders)
    requires OneLine(h) && Storable(b) && Storable(g)
    requires TextIndex.Lists(o.emails, g.emailToI) && TextIndex.Lists(o.phones, g.phoneToI)
    requires Read(fs, Data) == DataText(b.contacts)
    requires Index in fs ==> fs[Index] == IndexContent(h, g, o)
    requires h(DataText(b.contacts)) == h(DataText(g.contacts)) ==> DataText(b.contacts) == DataText(g.contacts)
    ensures Load(h, fs, EMPTY).Ok? && Load(h, fs, EMPTY).book == b
  {
    if b.contacts == [] {
      EmptyBook(b);
    } else {
      CacheIsRight(h, b, g, o);
      LoadWith(h, fs, b);
    }
  }

  lemma SameText(cs: seq<Contact>, ds: seq<Contact>)
    requires AllClean(cs) && AllClean(ds) && DataText(cs) == DataText(ds)
    ensures cs == ds
  {
    DataReadBack(cs);
    DataReadBack(ds);
  }

  /** Loading after a completed save gives the saved book back, indexes included, from the cache. */
  lemma SaveThenLoad(h: Digest, fs: Files, b: Book, o: Orders)
    requires OneLine(h) && Storable(b) && Possible(b, o)
    ensures Load(h, Exec(fs, SaveSteps(h, b, o)), EMPTY) == Ok(b, false)
  {
    Completed(h, fs, b, o);
    if b.contacts == [] {
      EmptyBook(b);
    } else {
      CacheIsRight(h, b, b, o);
      LoadWith(h, Exec(fs, SaveSteps(h, b, o)), b);
    }
  }

  lemma SmallSound(b: Book)
    requires Sound(b) && |b.contacts| < TWO_64
    ensures TextIndex.Small(b.emailToI) && TextIndex.Small(b.phoneToI)
  {
  }

  lemma EmptySound(b: Book)
    requires Sound(b) && b.contacts == []
    ensures b == EMPTY
  {
    assert b.emailToI == map[] && b.phoneToI == map[];
  }

  /** What a load gives once the files of a save are in place: the contacts as they read back, with the maps
      that the index file gives. */
  lemma LoadSaved(h: Digest, fs: Files, b: Book, o: Orders)
    requires (forall k :: k in o.emails ==> k in b.emailToI) && (forall k :: k in o.phones ==> k in b.phoneToI)
    requires Read(fs, Data) == DataText(b.contacts) && Read(fs, Index) == IndexContent(h, b, o) && b.contacts != []
    ensures Load(h, fs, EMPTY) == Ok(b, false) <==>
              && StrippedAll(b.contacts) == b.contacts
              && TextIndex.LoadIndex(IndexContent(h, b, o), h(DataText(b.contacts))) == TextIndex.Hit(b.emailToI, b.phoneToI)
  {
    var cs := b.contacts;
    DataParses(cs);
    assert DataText(cs) != "";
    LoadData(h, fs, EMPTY, DataText(cs), ToJsons(StrippedAll(cs)), StrippedAll(cs), Load(h, fs, EMPTY));
  }

  lemma SavedExactly(h: Digest, fs: Files, b: Book, o: Orders)
    requires OneLine(h) && Sound(b) && 0 < |b.contacts| < TWO_64
    requires TextIndex.Lists(o.emails, b.emailToI) && TextIndex.Lists(o.phones, b.phoneToI)
    requires Read(fs, Data) == DataText(b.contacts) && Read(fs, Index) == IndexContent(h, b, o)
    ensures Load(h, fs, EMPTY) == Ok(b, false)
            <==> AllClean(b.contacts) && TextIndex.CleanKeys(b.emailToI) && TextIndex.CleanKeys(b.phoneToI)
  {
    LoadSaved(h, fs, b, o);
    StrippedAllSame(b.contacts);
    SmallSound(b);
    TextIndex.IndexRoundTrip(h(DataText(b.contacts)), b.emailToI, b.phoneToI, o.emails, o.phones);
  }

  /** A save is undone by a load exactly when the texts are printable and no key has an equals sign or a line
      feed. The maps come back as they were saved, complete or not: their digest matches. */
  lemma SaveThenLoadExactly(h: Digest, fs: Files, b: Book, o: Orders)
    requires OneLine(h) && Sound(b) && |b.contacts| < TWO_64 && Possible(b, o)
    ensures Load(h, Exec(fs, SaveSteps(h, b, o)), EMPTY) == Ok(b, false)
            <==> AllClean(b.contacts) && TextIndex.CleanKeys(b.emailToI) && TextIndex.CleanKeys(b.phoneToI)
  {
    Completed(h, fs, b, o);
    if b.contacts == [] {
      EmptySound(b);
    } else {
      SavedExactly(h, Exec(fs, SaveSteps(h, b, o)), b, o);
    }
  }
}
