/** The fast search on the files that a stopped save leaves: which book it searches, and the one moment at which
    it can be wrong. */
module CrashSearch {
  import opened Text
  import opened Widths
  import opened Model
  import opened Validation
  import opened Book
  import opened BookInvariant
  import opened Store
  import opened FastSearch
  import opened Samples
  import DiskIndex
  import TextIndex

  // ---------- a binary file cut short ----------

  lemma NumberLonger(s: string, n: nat, t: string)
    requires DiskIndex.ReadLe(s, n).Some?
    ensures var (v, rest) := DiskIndex.ReadLe(s, n).value; DiskIndex.ReadLe(s + t, n) == Some((v, rest + t))
  {
    assert (s + t)[..n] == s[..n] && (s + t)[n..] == s[n..] + t;
  }

  lemma EntryLonger(s: string, t: string)
    requires DiskIndex.ReadEntry(s).Some?
    ensures var (e, rest) := DiskIndex.ReadEntry(s).value; DiskIndex.ReadEntry(s + t) == Some((e, rest + t))
  {
    var (klen, u) := DiskIndex.ReadLe(s, 2).value;
    NumberLonger(s, 2, t);
    assert (u + t)[..klen] == u[..klen] && (u + t)[klen..] == u[klen..] + t;
    NumberLonger(u[klen..], 8, t);
  }

  /** What a block reads does not depend on what follows it. */
  lemma {:induction false} BlockLonger(s: string, count: nat, t: string)
    requires DiskIndex.LoadBlock(s, count).Some?
    ensures var (v, rest) := DiskIndex.LoadBlock(s, count).value; DiskIndex.LoadBlock(s + t, count) == Some((v, rest + t))
    decreases count
  {
    if count > 0 {
      EntryLonger(s, t);
      BlockLonger(DiskIndex.ReadEntry(s).value.1, count - 1, t);
    }
  }

  /** The three numbers after the magic, read from a file and from its beginning. */
  lemma HeaderLonger(s: string, t: string)
    requires DiskIndex.Load(s).Some?
    ensures |s| >= 8 && DiskIndex.ReadLe(s[8..], 4).Some?
    ensures var s1 := DiskIndex.ReadLe(s[8..], 4).value.1;
            DiskIndex.ReadLe(s1, 4).Some? && DiskIndex.ReadLe((s + t)[8..], 4) == Some((DiskIndex.ReadLe(s[8..], 4).value.0, s1 + t))
  {
    assert (s + t)[8..] == s[8..] + t;
    NumberLonger(s[8..], 4, t);
  }

  lemma HeaderThen(s1: string, f: string)
    requires f == DiskIndex.MAGIC + (DiskIndex.Le(1, 4) + s1)
    ensures |f| >= 8 && DiskIndex.ReadLe(f[8..], 4) == Some((1, s1))
  {
    DiskIndex.HeaderRead(DiskIndex.Le(1, 4) + s1);
    DiskIndex.CountRead(1, s1);
  }

  lemma FileIs(emails: seq<DiskIndex.Entry>, phones: seq<DiskIndex.Entry>, e: nat, p: nat)
    requires e == |emails| < TWO_32 && p == |phones| < TWO_32
    ensures DiskIndex.FileBytes(emails, phones) ==
            DiskIndex.MAGIC + (DiskIndex.Le(1, 4) + (DiskIndex.Le(e, 4) + (DiskIndex.Le(p, 4) +
            (DiskIndex.Block(emails) + DiskIndex.Block(phones)))))
  {
    assert e % TWO_32 == e && p % TWO_32 == p;
  }

  /** Two counts and two blocks, read from a text that goes on, leave what it goes on with. */
  lemma CountsLonger(s1: string, t: string, emails: seq<DiskIndex.Entry>, phones: seq<DiskIndex.Entry>)
    requires DiskIndex.Fits(emails) && DiskIndex.Fits(phones)
    requires s1 + t == DiskIndex.Le(|emails|, 4) + (DiskIndex.Le(|phones|, 4) + (DiskIndex.Block(emails) + DiskIndex.Block(phones)))
    requires DiskIndex.ReadLe(s1, 4).Some?
    requires var (ec, s2) := DiskIndex.ReadLe(s1, 4).value; DiskIndex.ReadLe(s2, 4).Some?
    ensures var (ec, s2) := DiskIndex.ReadLe(s1, 4).value; var (pc, s3) := DiskIndex.ReadLe(s2, 4).value;
            ec == |emails| && pc == |phones| && s3 + t == DiskIndex.Block(emails) + DiskIndex.Block(phones)
  {
    var (ec, s2) := DiskIndex.ReadLe(s1, 4).value;
    var blocks := DiskIndex.Block(emails) + DiskIndex.Block(phones);
    NumberLonger(s1, 4, t);
    DiskIndex.CountRead(|emails|, DiskIndex.Le(|phones|, 4) + blocks);
    NumberLonger(s2, 4, t);
    DiskIndex.CountRead(|phones|, blocks);
  }

  lemma BlocksLonger(s3: string, t: string, emails: seq<DiskIndex.Entry>, phones: seq<DiskIndex.Entry>)
    requires DiskIndex.Fits(emails) && DiskIndex.Fits(phones)
    requires s3 + t == DiskIndex.Block(emails) + DiskIndex.Block(phones)
    requires DiskIndex.LoadBlock(s3, |emails|).Some?
    requires DiskIndex.LoadBlock(DiskIndex.LoadBlock(s3, |emails|).value.1, |phones|).Some?
    ensures t == ""
  {
    DiskIndex.BlocksRead(emails, phones);
    NothingLeft(s3, t, |emails|, |phones|, DiskIndex.Block(emails) + DiskIndex.Block(phones), DiskIndex.Block(phones));
  }

  lemma NothingLeft(s3: string, t: string, ec: nat, pc: nat, both: string, second: string)
    requires DiskIndex.LoadBlock(s3, ec).Some? && DiskIndex.LoadBlock(DiskIndex.LoadBlock(s3, ec).value.1, pc).Some?
    requires DiskIndex.LoadBlock(both, ec).Some? && DiskIndex.LoadBlock(both, ec).value.1 == second
    requires DiskIndex.LoadBlock(second, pc).Some? && DiskIndex.LoadBlock(second, pc).value.1 == ""
    requires s3 + t == both
    ensures t == ""
  {
    BlockLonger(s3, ec, t);
    BlockLonger(DiskIndex.LoadBlock(s3, ec).value.1, pc, t);
  }

  /** A file cut short does not load. */
  lemma CutShort(emails: seq<DiskIndex.Entry>, phones: seq<DiskIndex.Entry>, s: string, t: string)
    requires DiskIndex.Fits(emails) && DiskIndex.Fits(phones)
    requires s + t == DiskIndex.FileBytes(emails, phones) && t != ""
    ensures DiskIndex.Load(s) == None
  {
    if DiskIndex.Load(s).Some? {
      HeaderLonger(s, t);
      FileIs(emails, phones, |emails|, |phones|);
      HeaderThen(DiskIndex.Le(|emails|, 4) + (DiskIndex.Le(|phones|, 4) + (DiskIndex.Block(emails) + DiskIndex.Block(phones))), s + t);
      var s1 := DiskIndex.ReadLe(s[8..], 4).value.1;
      CountsLonger(s1, t, emails, phones);
      BlocksLonger(DiskIndex.ReadLe(DiskIndex.ReadLe(s1, 4).value.1, 4).value.1, t, emails, phones);
    }
  }

  // ---------- the files after some steps of a save ----------

  /** The same files, but for a temporary. */
  ghost predicate SameBut(fs: Files, fs': Files, p: Path) {
    forall q :: q != Tmp(p) ==> (q in fs' <==> q in fs) && Read(fs', q) == Read(fs, q)
  }

  lemma AtomicPrefix(fs: Files, p: Path, content: string, k: nat)
    requires k < |Atomic(p, content)|
    ensures SameBut(fs, Exec(fs, Atomic(p, content)[..k]), p)
  {
    var g := Growing(Tmp(p), content);
    if k > 0 {
      GrowingPrefix(fs, Tmp(p), content, k - 1);
      assert Atomic(p, content)[..k] == g[..k];
    } else {
      assert Atomic(p, content)[..k] == [];
    }
  }

  lemma PrefixOf(a: seq<Step>, b: seq<Step>, k: nat)
    requires k <= |a + b|
    ensures (a + b)[..k] == if k <= |a| then a[..k] else a + b[..k - |a|]
  {
  }

  /** Where the files of a save stand: the data, the meta text and the binary file, as they were or as they
      will be. */
  ghost predicate Stands(fs: Files, d: string, m: string, n: string) {
    Read(fs, Data) == d && Read(fs, Meta) == m && Read(fs, Bin) == n
  }

  lemma BeforeData(fs: Files, d: string, rest: seq<Step>, k: nat)
    requires k < |Atomic(Data, d)|
    ensures Stands(Exec(fs, (Atomic(Data, d) + rest)[..k]), Read(fs, Data), Read(fs, Meta), Read(fs, Bin))
  {
    PrefixOf(Atomic(Data, d), rest, k);
    AtomicPrefix(fs, Data, d, k);
  }

  lemma AfterAtomic(fs: Files, p: Path, content: string, rest: seq<Step>, k: nat)
    requires |Atomic(p, content)| <= k <= |Atomic(p, content) + rest|
    ensures Exec(fs, (Atomic(p, content) + rest)[..k]) ==
            Exec((fs - {Tmp(p)})[p := content], rest[..k - |Atomic(p, content)|])
  {
    PrefixOf(Atomic(p, content), rest, k);
    assert k == |Atomic(p, content)| ==> Atomic(p, content)[..k] == Atomic(p, content) + rest[..0];
    ExecConcat(fs, Atomic(p, content), rest[..k - |Atomic(p, content)|]);
    ExecAtomic(fs, p, content);
  }

  lemma AtomicLength(p: Path, content: string)
    ensures |Atomic(p, content)| == |content| + 2
  {
  }

  /** Between the renames of the data and of the meta file. */
  lemma BeforeMeta(fs: Files, i: string, m: string, rest: seq<Step>, k: nat)
    requires k < |i| + |m| + 4
    ensures |Atomic(Index, i) + (Atomic(Meta, m) + rest)| >= |i| + |m| + 4
    ensures Stands(Exec(fs, (Atomic(Index, i) + (Atomic(Meta, m) + rest))[..k]), Read(fs, Data), Read(fs, Meta), Read(fs, Bin))
  {
    AtomicLength(Index, i);
    AtomicLength(Meta, m);
    if k < |i| + 2 {
      PrefixOf(Atomic(Index, i), Atomic(Meta, m) + rest, k);
      AtomicPrefix(fs, Index, i, k);
    } else {
      AfterAtomic(fs, Index, i, Atomic(Meta, m) + rest, k);
      WithinMeta((fs - {Tmp(Index)})[Index := i], m, rest, k - (|i| + 2));
    }
  }

  lemma WithinMeta(fs: Files, m: string, rest: seq<Step>, k: nat)
    requires k < |m| + 2
    ensures k <= |Atomic(Meta, m) + rest|
    ensures Stands(Exec(fs, (Atomic(Meta, m) + rest)[..k]), Read(fs, Data), Read(fs, Meta), Read(fs, Bin))
  {
    AtomicLength(Meta, m);
    PrefixOf(Atomic(Meta, m), rest, k);
    AtomicPrefix(fs, Meta, m, k);
  }

  /** From the rename of the meta file on. */
  lemma AfterMeta(fs: Files, i: string, m: string, rest: seq<Step>, k: nat)
    requires k <= |rest|
    ensures |Atomic(Index, i) + (Atomic(Meta, m) + rest)| == |i| + |m| + 4 + |rest|
    ensures exists fs' :: Stands(fs', Read(fs, Data), m, Read(fs, Bin)) &&
              Exec(fs, (Atomic(Index, i) + (Atomic(Meta, m) + rest))[..|i| + |m| + 4 + k]) == Exec(fs', rest[..k])
  {
    AtomicLength(Index, i);
    AtomicLength(Meta, m);
    AfterAtomic(fs, Index, i, Atomic(Meta, m) + rest, |i| + |m| + 4 + k);
    var f1 := (fs - {Tmp(Index)})[Index := i];
    AfterAtomic(f1, Meta, m, rest, |m| + 2 + k);
    var f2 := (f1 - {Tmp(Meta)})[Meta := m];
    assert Stands(f2, Read(fs, Data), m, Read(fs, Bin));
  }

  lemma GrownPart(fs: Files, n: string, k: nat)
    requires k <= |n| + 1
    ensures |Growing(Bin, n)| == |n| + 1
    ensures Stands(Exec(fs, Growing(Bin, n)[..k]), Read(fs, Data), Read(fs, Meta), if k == 0 then Read(fs, Bin) else n[..k - 1])
  {
    if k > 0 {
      GrowingPrefix(fs, Bin, n, k - 1);
    } else {
      assert Growing(Bin, n)[..0] == [];
    }
  }

  // ---------- the steps of a save ----------

  /** The steps of a save with these texts for the data, the index, the meta and the binary file. */
  function Writes(d: string, i: string, m: string, n: string): (steps: seq<Step>)
    ensures |steps| == |d| + |i| + |m| + |n| + 7
  {
    AtomicLength(Data, d);
    AtomicLength(Index, i);
    AtomicLength(Meta, m);
    Atomic(Data, d) + (Atomic(Index, i) + (Atomic(Meta, m) + Growing(Bin, n)))
  }

  lemma FourParts(a: seq<Step>, b: seq<Step>, c: seq<Step>, d: seq<Step>)
    ensures a + b + c + d == a + (b + (c + d))
  {
    Assoc(a + b, c, d);
    Assoc(a, b, c + d);
  }

  lemma SaveWrites(h: Digest, b: Book, o: Orders)
    requires Possible(b, o)
    ensures SaveSteps(h, b, o) == Writes(DataText(b.contacts), IndexContent(h, b, o), MetaContent(h, b), BinContent(o))
  {
    FourParts(Atomic(Data, DataText(b.contacts)), Atomic(Index, IndexContent(h, b, o)), Atomic(Meta, MetaContent(h, b)),
              Growing(Bin, BinContent(o)));
  }

  /** The step that renames the data file, and the one that renames the meta file. */
  function DataDone(d: string): nat {
    |d| + 2
  }

  function MetaDone(d: string, i: string, m: string): nat {
    |d| + |i| + |m| + 6
  }

  /** The three files of the search, all of them from before. */
  lemma OldFiles(fs: Files, d: string, i: string, m: string, n: string, k: nat)
    requires k < DataDone(d)
    ensures Stands(Exec(fs, Writes(d, i, m, n)[..k]), Read(fs, Data), Read(fs, Meta), Read(fs, Bin))
  {
    AtomicLength(Data, d);
    BeforeData(fs, d, Atomic(Index, i) + (Atomic(Meta, m) + Growing(Bin, n)), k);
  }

  lemma NewData(fs: Files, d: string, i: string, m: string, n: string, k: nat)
    requires DataDone(d) <= k < MetaDone(d, i, m)
    ensures Stands(Exec(fs, Writes(d, i, m, n)[..k]), d, Read(fs, Meta), Read(fs, Bin))
  {
    AtomicLength(Data, d);
    AfterAtomic(fs, Data, d, Atomic(Index, i) + (Atomic(Meta, m) + Growing(Bin, n)), k);
    BeforeMeta((fs - {Tmp(Data)})[Data := d], i, m, Growing(Bin, n), k - DataDone(d));
  }

  lemma NewMeta(fs: Files, d: string, i: string, m: string, n: string, k: nat)
    requires k <= |n| + 1
    ensures Stands(Exec(fs, Writes(d, i, m, n)[..MetaDone(d, i, m) + k]), d, m, if k == 0 then Read(fs, Bin) else n[..k - 1])
  {
    AtomicLength(Data, d);
    AfterAtomic(fs, Data, d, Atomic(Index, i) + (Atomic(Meta, m) + Growing(Bin, n)), MetaDone(d, i, m) + k);
    var f1 := (fs - {Tmp(Data)})[Data := d];
    AfterMeta(f1, i, m, Growing(Bin, n), k);
    var f2 :| Stands(f2, Read(f1, Data), m, Read(f1, Bin)) &&
              Exec(f1, (Atomic(Index, i) + (Atomic(Meta, m) + Growing(Bin, n)))[..|i| + |m| + 4 + k]) == Exec(f2, Growing(Bin, n)[..k]);
    GrownPart(f2, n, k);
  }

  // ---------- the search at each moment of a save ----------

  lemma MetaOther(mine: string, other: string)
    requires '\n' !in mine && '\n' !in other && mine != other
    ensures !MetaValid("hash=" + other + "\n", mine)
  {
    var m := "hash=" + other + "\n";
    assert m[5..] == other + "\n";
    assert (other + "\n")[..|other|] == other;
  }

  /** What the lookup in a binary file gives for the search. */
  function Found(file: string, email: string, phone: string): Option<nat> {
    if email != "" then DiskIndex.LookupEmail(file, ToLower(email)) else DiskIndex.LookupPhone(file, NormalizePhone(phone))
  }

  lemma PartOfFile(b: Book, o: Orders, s: string, t: string)
    requires Possible(b, o) && WithinLimits(b.contacts) && s + t == BinContent(o) && t != ""
    ensures DiskIndex.Load(s) == None
  {
    OffsetsBelow(b.contacts);
    FitsSorted(o.sortedEmails, EmailEntries(b.contacts));
    FitsSorted(o.sortedPhones, PhoneEntries(b.contacts));
    CutShort(o.sortedEmails, o.sortedPhones, s, t);
  }

  lemma DigestChanged(h: Digest, fs: Files, g: Book, b: Book, n: string, email: string, phone: string)
    requires OneLine(h) && Stands(fs, DataText(b.contacts), MetaContent(h, g), n)
    requires h(DataText(b.contacts)) != h(DataText(g.contacts))
    ensures Search(h, fs, true, email, phone) == None
  {
    MetaOther(h(DataText(b.contacts)), h(DataText(g.contacts)));
  }

  lemma DigestMatches(h: Digest, fs: Files, b: Book, n: string, email: string, phone: string)
    requires OneLine(h) && Stands(fs, DataText(b.contacts), MetaContent(h, b), n) && (email != "" || phone != "")
    ensures Search(h, fs, true, email, phone) == Mixed(b, n, email, phone)
  {
    if b.contacts == [] {
      SearchNothing(h, fs, email, phone);
    } else {
      MetaMatches(h(DataText(b.contacts)));
      assert DataText(b.contacts) != "";
      SearchReads(h, fs, email, phone);
    }
  }

  /** What is read from the data of a book at the offset that a binary file gives. */
  function Mixed(b: Book, file: string, email: string, phone: string): Option<Contact> {
    if b.contacts == [] then None else ReadAt(DataText(b.contacts), Found(file, email, phone))
  }

  lemma NoFile(b: Book, file: string, email: string, phone: string)
    requires DiskIndex.Load(file) == None
    ensures Mixed(b, file, email, phone) == None
  {
  }

  lemma PartNone(h: Digest, fs: Files, b: Book, part: string, email: string, phone: string)
    requires OneLine(h) && (email != "" || phone != "")
    requires Stands(fs, DataText(b.contacts), MetaContent(h, b), part) && DiskIndex.Load(part) == None
    ensures Search(h, fs, true, email, phone) == None
  {
    DigestMatches(h, fs, b, part, email, phone);
    NoFile(b, part, email, phone);
  }

  lemma MiddleSearch(h: Digest, fs: Files, g: Book, b: Book, n: string, email: string, phone: string)
    requires OneLine(h) && (email != "" || phone != "") && Stands(fs, DataText(b.contacts), MetaContent(h, g), n)
    ensures Search(h, fs, true, email, phone) ==
            if h(DataText(b.contacts)) == h(DataText(g.contacts)) then Mixed(b, n, email, phone) else None
  {
    if h(DataText(b.contacts)) == h(DataText(g.contacts)) {
      DigestMatches(h, fs, b, n, email, phone);
    } else {
      DigestChanged(h, fs, g, b, n, email, phone);
    }
  }

  /** Some steps of a save with these texts are done, over the files of an old book. */
  ghost predicate Reached(h: Digest, fs: Files, g: Book, p: Orders, d: string, i: string, m: string, n: string, k: nat, fs': Files) {
    && Stands(fs, DataText(g.contacts), MetaContent(h, g), BinContent(p))
    && k <= |Writes(d, i, m, n)| && fs' == Exec(fs, Writes(d, i, m, n)[..k])
  }

  lemma EarlyFiles(h: Digest, fs: Files, g: Book, p: Orders, d: string, i: string, m: string, n: string, k: nat, fs': Files)
    requires Reached(h, fs, g, p, d, i, m, n, k, fs')
    ensures k < DataDone(d) ==> Stands(fs', DataText(g.contacts), MetaContent(h, g), BinContent(p))
    ensures DataDone(d) <= k < MetaDone(d, i, m) ==> Stands(fs', d, MetaContent(h, g), BinContent(p))
  {
    if k < DataDone(d) {
      OldFiles(fs, d, i, m, n, k);
    } else if k < MetaDone(d, i, m) {
      NewData(fs, d, i, m, n, k);
    }
  }

  lemma LateFiles(h: Digest, fs: Files, g: Book, p: Orders, d: string, i: string, m: string, n: string, k: nat, fs': Files)
    requires Reached(h, fs, g, p, d, i, m, n, k, fs')
    ensures k == MetaDone(d, i, m) ==> Stands(fs', d, m, BinContent(p))
    ensures MetaDone(d, i, m) < k < |Writes(d, i, m, n)| ==> PartWritten(fs', d, m, n)
    ensures k == |Writes(d, i, m, n)| ==> Stands(fs', d, m, n)
  {
    if k >= MetaDone(d, i, m) {
      var j := k - MetaDone(d, i, m);
      NewMeta(fs, d, i, m, n, j);
      if j > 0 {
        PartOrWhole(fs', d, m, n, j - 1);
      }
    }
  }

  /** The binary file has been begun and not ended. */
  ghost predicate PartWritten(fs: Files, d: string, m: string, n: string) {
    exists s, t :: s + t == n && t != "" && Stands(fs, d, m, s)
  }

  lemma PartOrWhole(fs: Files, d: string, m: string, n: string, j: nat)
    requires j <= |n| && Stands(fs, d, m, n[..j])
    ensures if j < |n| then PartWritten(fs, d, m, n) else Stands(fs, d, m, n)
  {
    assert n[..j] + n[j..] == n;
    if j == |n| {
      assert n[..j] == n;
    }
  }

  lemma PartSearch(h: Digest, fs: Files, b: Book, o: Orders, email: string, phone: string)
    requires OneLine(h) && Possible(b, o) && WithinLimits(b.contacts) && (email != "" || phone != "")
    requires PartWritten(fs, DataText(b.contacts), MetaContent(h, b), BinContent(o))
    ensures Search(h, fs, true, email, phone) == None
  {
    var s, t :| s + t == BinContent(o) && t != "" && Stands(fs, DataText(b.contacts), MetaContent(h, b), s);
    PartOfFile(b, o, s, t);
    PartNone(h, fs, b, s, email, phone);
  }

  /** What the search gives after `k` steps, when the data file is renamed by the step `data` and the meta file by the
      step `meta`, and the last step is `end`. */
  function Answer(k: nat, data: nat, meta: nat, end: nat, before: Option<Contact>, middle: Option<Contact>,
                  mixed: Option<Contact>, last: Option<Contact>): Option<Contact>
  {
    if k < data then before else if k < meta then middle else if k == meta then mixed else if k < end then None else last
  }

  /** The search at each moment of a save: it is the scan of the old book until the data file is renamed; then it
      finds nothing until the meta file is, unless the digests are the same, and nothing again while the binary file
      is being written, and at last it is the scan of the new book. In between there is one moment, after the
      rename of the meta file and before the binary file is opened, at which it reads the new data at an old
      offset. */
  lemma StoppedSearch(h: Digest, fs: Files, g: Book, p: Orders, b: Book, o: Orders, k: nat, fs': Files, email: string, phone: string)
    requires OneLine(h) && Possible(g, p) && Searchable(g) && Possible(b, o) && Searchable(b) && (email != "" || phone != "")
    requires Stands(fs, DataText(g.contacts), MetaContent(h, g), BinContent(p))
    requires k <= |SaveSteps(h, b, o)| && fs' == Exec(fs, SaveSteps(h, b, o)[..k])
    ensures Search(h, fs', true, email, phone) ==
            Answer(k, DataDone(DataText(b.contacts)), MetaDone(DataText(b.contacts), IndexContent(h, b, o), MetaContent(h, b)),
                   |SaveSteps(h, b, o)|,
                   ByScan(g.contacts, email, phone),
                   if h(DataText(b.contacts)) == h(DataText(g.contacts)) then Mixed(b, BinContent(p), email, phone) else None,
                   Mixed(b, BinContent(p), email, phone),
                   ByScan(b.contacts, email, phone))
  {
    SaveWrites(h, b, o);
    StoppedWrites(h, fs, g, p, b, o, k, fs', email, phone, DataText(b.contacts), IndexContent(h, b, o), MetaContent(h, b), BinContent(o));
  }

  /** The same for the texts that the save writes. */
  lemma StoppedWrites(h: Digest, fs: Files, g: Book, p: Orders, b: Book, o: Orders, k: nat, fs': Files, email: string, phone: string,
                      d: string, i: string, m: string, n: string)
    requires OneLine(h) && Possible(g, p) && Searchable(g) && Possible(b, o) && Searchable(b) && (email != "" || phone != "")
    requires Stands(fs, DataText(g.contacts), MetaContent(h, g), BinContent(p))
    requires d == DataText(b.contacts) && m == MetaContent(h, b) && n == BinContent(o)
    requires k <= |Writes(d, i, m, n)| && fs' == Exec(fs, Writes(d, i, m, n)[..k])
    ensures Search(h, fs', true, email, phone) ==
            Answer(k, DataDone(d), MetaDone(d, i, m), |Writes(d, i, m, n)|, ByScan(g.contacts, email, phone),
                   if h(d) == h(DataText(g.contacts)) then Mixed(b, BinContent(p), email, phone) else None,
                   Mixed(b, BinContent(p), email, phone), ByScan(b.contacts, email, phone))
  {
    if k < MetaDone(d, i, m) {
      EarlyWrites(h, fs, g, p, b, k, fs', email, phone, d, i, m, n);
    } else {
      LateWrites(h, fs, g, p, b, o, k, fs', email, phone, d, i, m, n);
    }
  }

  lemma EarlyWrites(h: Digest, fs: Files, g: Book, p: Orders, b: Book, k: nat, fs': Files, email: string, phone: string,
                    d: string, i: string, m: string, n: string)
    requires OneLine(h) && Possible(g, p) && Searchable(g) && (email != "" || phone != "")
    requires Reached(h, fs, g, p, d, i, m, n, k, fs') && d == DataText(b.contacts) && k < MetaDone(d, i, m)
    ensures Search(h, fs', true, email, phone) ==
            if k < DataDone(d) then ByScan(g.contacts, email, phone)
            else if h(d) == h(DataText(g.contacts)) then Mixed(b, BinContent(p), email, phone) else None
  {
    EarlyFiles(h, fs, g, p, d, i, m, n, k, fs');
    EarlySearch(h, fs', g, p, b, k < DataDone(d), email, phone);
  }

  lemma LateWrites(h: Digest, fs: Files, g: Book, p: Orders, b: Book, o: Orders, k: nat, fs': Files, email: string, phone: string,
                   d: string, i: string, m: string, n: string)
    requires OneLine(h) && Possible(b, o) && Searchable(b) && (email != "" || phone != "")
    requires Reached(h, fs, g, p, d, i, m, n, k, fs') && k >= MetaDone(d, i, m)
    requires d == DataText(b.contacts) && m == MetaContent(h, b) && n == BinContent(o)
    ensures Search(h, fs', true, email, phone) ==
            if k == MetaDone(d, i, m) then Mixed(b, BinContent(p), email, phone)
            else if k < |Writes(d, i, m, n)| then None else ByScan(b.contacts, email, phone)
  {
    LateFiles(h, fs, g, p, d, i, m, n, k, fs');
    LateSearch(h, fs', p, b, o, k == MetaDone(d, i, m), k < |Writes(d, i, m, n)|, email, phone);
  }

  lemma EarlySearch(h: Digest, fs: Files, g: Book, p: Orders, b: Book, first: bool, email: string, phone: string)
    requires OneLine(h) && Possible(g, p) && Searchable(g) && (email != "" || phone != "")
    requires Stands(fs, DataText((if first then g else b).contacts), MetaContent(h, g), BinContent(p))
    ensures Search(h, fs, true, email, phone) ==
            if first then ByScan(g.contacts, email, phone)
            else if h(DataText(b.contacts)) == h(DataText(g.contacts)) then Mixed(b, BinContent(p), email, phone) else None
  {
    if first {
      SavedIsScan(h, fs, g, p, email, phone);
    } else {
      MiddleSearch(h, fs, g, b, BinContent(p), email, phone);
    }
  }

  lemma LateSearch(h: Digest, fs: Files, p: Orders, b: Book, o: Orders, first: bool, part: bool, email: string, phone: string)
    requires OneLine(h) && Possible(b, o) && Searchable(b) && (email != "" || phone != "")
    requires if first then Stands(fs, DataText(b.contacts), MetaContent(h, b), BinContent(p))
             else if part then PartWritten(fs, DataText(b.contacts), MetaContent(h, b), BinContent(o))
             else Stands(fs, DataText(b.contacts), MetaContent(h, b), BinContent(o))
    ensures Search(h, fs, true, email, phone) ==
            if first then Mixed(b, BinContent(p), email, phone) else if part then None else ByScan(b.contacts, email, phone)
  {
    if first {
      DigestMatches(h, fs, b, BinContent(p), email, phone);
    } else if part {
      PartSearch(h, fs, b, o, email, phone);
    } else {
      SavedIsScan(h, fs, b, o, email, phone);
    }
  }

  // ---------- the one moment at which the search is wrong ----------

  /** Of two contacts the first is dropped. A search for its address then gives the second. */
  lemma WrongContact(g: Book, p: Orders, b: Book, x: Contact, y: Contact, phone: string)
    requires Possible(g, p) && Searchable(g) && g.contacts == [x, y] && b.contacts == [y] && x.email != ""
    ensures Mixed(b, BinContent(p), x.email, phone) == Some(y)
    ensures ByScan(g.contacts, x.email, phone) == Some(x) && ByScan(b.contacts, x.email, phone) == None
  {
    FirstFound(g, p, x, y);
    FirstLine(y);
    assert y in g.contacts;
    LineRoundTrip(y);
    ScanFirst(g, x, y);
  }

  lemma ScanFirst(g: Book, x: Contact, y: Contact)
    requires Agree(g) && g.contacts == [x, y]
    ensures Scan([x, y], EmailKeys([x, y]), EmailKey(x)) == Some(x) && Scan([y], EmailKeys([y]), EmailKey(x)) == None
  {
    DistinctKeys(g);
    assert EmailKeys([x, y])[0] == EmailKey(x) && EmailKeys([x, y])[1] == EmailKey(y);
    assert EmailKeys([y]) == [EmailKey(y)];
    ScanNone([y], EmailKeys([y]), EmailKey(x));
  }

  lemma FirstFound(g: Book, p: Orders, x: Contact, y: Contact)
    requires Possible(g, p) && Searchable(g) && g.contacts == [x, y]
    ensures DiskIndex.LookupEmail(BinContent(p), EmailKey(x)) == Some(0)
  {
    var kv, off := EmailEntries(g.contacts), DiskIndex.LookupEmail(BinContent(p), EmailKey(x));
    FastSearch.Found(g, p, EmailKey(x));
    DistinctKeys(g);
    var keys := EmailKeys(g.contacts);
    assert keys[0] == EmailKey(x) && keys[0] in keys && keys[1] in keys;
    assert kv[0] == DiskIndex.Entry(keys[0], Offset(g.contacts, 0)) && kv[1].key == keys[1];
    assert DiskIndex.Trunc(keys[0]) == keys[0] && DiskIndex.Trunc(keys[1]) == keys[1];
    assert g.contacts[..0] == [];
  }

  lemma FirstLine(y: Contact)
    ensures ReadAt(DataText([y]), Some(0)) == ReadContact(ContactLine(y))
  {
    LineAtOffset([y], 0);
    assert [y][..0] == [];
  }

  /** The orders in which two contacts are listed, when they stand in the order of both keys. */
  function InOrder(x: Contact, y: Contact): Orders {
    Orders([EmailKey(x), EmailKey(y)], [PhoneKey(x), PhoneKey(y)], EmailEntries([x, y]), PhoneEntries([x, y]))
  }

  /** Two keys list an exact map of them. */
  lemma TwoKeysList(m: map<string, nat>, keys: seq<string>)
    requires |keys| == 2 && ExactMap(m, keys) && keys[0] != keys[1]
    ensures TextIndex.Lists(keys, m)
  {
    assert keys[0] in m && keys[1] in m;
    forall k | k in m ensures k in keys {
      assert keys[m[k]] == k;
    }
  }

  lemma TwoSorted(kv: seq<DiskIndex.Entry>)
    requires |kv| == 2 && Less(kv[0].key, kv[1].key)
    ensures DiskIndex.SortOf(kv, kv)
  {
    LessAsymmetric(kv[0].key, kv[1].key);
  }

  lemma EmailsInOrder(m: map<string, nat>, x: Contact, y: Contact)
    requires ExactMap(m, EmailKeys([x, y])) && Less(EmailKey(x), EmailKey(y))
    ensures TextIndex.Lists([EmailKey(x), EmailKey(y)], m) && DiskIndex.SortOf(EmailEntries([x, y]), EmailEntries([x, y]))
  {
    LessIrreflexive(EmailKey(x));
    assert EmailKeys([x, y]) == [EmailKey(x), EmailKey(y)];
    TwoKeysList(m, [EmailKey(x), EmailKey(y)]);
    TwoSorted(EmailEntries([x, y]));
  }

  lemma PhonesInOrder(m: map<string, nat>, x: Contact, y: Contact)
    requires ExactMap(m, PhoneKeys([x, y])) && Less(PhoneKey(x), PhoneKey(y))
    ensures TextIndex.Lists([PhoneKey(x), PhoneKey(y)], m) && DiskIndex.SortOf(PhoneEntries([x, y]), PhoneEntries([x, y]))
  {
    LessIrreflexive(PhoneKey(x));
    assert PhoneKeys([x, y]) == [PhoneKey(x), PhoneKey(y)];
    TwoKeysList(m, [PhoneKey(x), PhoneKey(y)]);
    TwoSorted(PhoneEntries([x, y]));
  }

  lemma InOrderPossible(g: Book, x: Contact, y: Contact)
    requires Agree(g) && g.contacts == [x, y] && Less(EmailKey(x), EmailKey(y)) && Less(PhoneKey(x), PhoneKey(y))
    ensures Possible(g, InOrder(x, y))
  {
    EmailsInOrder(g.emailToI, x, y);
    PhonesInOrder(g.phoneToI, x, y);
  }

  lemma LessAsymmetric(a: string, b: string)
    requires Less(a, b)
    ensures !Less(b, a)
  {
    if Less(b, a) {
      LessTransitive(a, b, a);
      LessIrreflexive(a);
    }
  }

  lemma OneContact(x: Contact)
    ensures var b := Append(EMPTY, x); Agree(b) && b.contacts == [x]
  {
    AppendSound(EMPTY, x);
    AppendIndexed(EMPTY, x);
  }

  lemma TwoContacts(x: Contact, y: Contact)
    requires EmailKey(x) != EmailKey(y) && PhoneKey(x) != PhoneKey(y)
    ensures var g := Append(Append(EMPTY, x), y); Agree(g) && g.contacts == [x, y]
  {
    OneContact(x);
    AppendIndexed(Append(EMPTY, x), y);
  }

  /** Two contacts of which the first is dropped: stopped at that moment, the search for the one dropped gives the
      other. Their numbers are any of ten digits and more, the first below the second. */
  lemma WrongSample(d: Digits, e: Digits, x: Contact, y: Contact)
    requires d[0] < e[0] && |d| < 65535 && |e| < 65535
    requires x == Sample("1", 'a', d, "t") && y == Sample("2", 'b', e, "t") && WithinLimits([x, y])
    ensures var g, b, p := Append(Append(EMPTY, x), y), Append(EMPTY, y), InOrder(x, y);
            Possible(g, p) && Searchable(g) && Agree(b) &&
            Mixed(b, BinContent(p), x.email, "") == Some(y) && ByScan(b.contacts, x.email, "") == None
  {
    SampleValid("1", 'a', d, "t");
    SampleValid("2", 'b', e, "t");
    KeyOrder(d, e);
    OneContact(y);
    WrongPair(x, y);
  }

  lemma LessAt(p: string, c: char, s: string, d: char, t: string)
    requires c < d && |p| <= 1
    ensures Less(p + ([c] + s), p + ([d] + t))
  {
    if p != "" {
      assert (p + ([c] + s))[1..] == [c] + s && (p + ([d] + t))[1..] == [d] + t;
    }
  }

  lemma KeyOrder(d: string, e: string)
    requires d != "" && e != "" && d[0] < e[0]
    ensures Less(['a'] + "@b.co", ['b'] + "@b.co") && Less("+" + d, "+" + e)
  {
    assert [d[0]] + d[1..] == d && [e[0]] + e[1..] == e;
    LessAt("+", d[0], d[1..], e[0], e[1..]);
  }

  lemma TwoSearchable(g: Book, x: Contact, y: Contact)
    requires Agree(g) && g.contacts == [x, y] && CleanContact(x) && CleanContact(y) && WithinLimits([x, y])
    requires |EmailKey(x)| <= 65535 && |EmailKey(y)| <= 65535
    requires |PhoneKey(x)| <= 65535 && |PhoneKey(y)| <= 65535
    ensures Searchable(g)
  {
    assert EmailKeys(g.contacts) == [EmailKey(x), EmailKey(y)];
    assert PhoneKeys(g.contacts) == [PhoneKey(x), PhoneKey(y)];
  }

  lemma WrongPair(x: Contact, y: Contact)
    requires x.email != "" && CleanContact(x) && CleanContact(y) && WithinLimits([x, y])
    requires Less(EmailKey(x), EmailKey(y)) && Less(PhoneKey(x), PhoneKey(y))
    requires |EmailKey(x)| <= 65535 && |EmailKey(y)| <= 65535
    requires |PhoneKey(x)| <= 65535 && |PhoneKey(y)| <= 65535
    ensures var g, b, p := Append(Append(EMPTY, x), y), Append(EMPTY, y), InOrder(x, y);
            Possible(g, p) && Searchable(g) &&
            Mixed(b, BinContent(p), x.email, "") == Some(y) && ByScan(b.contacts, x.email, "") == None
  {
    var g := Append(Append(EMPTY, x), y);
    LessIrreflexive(EmailKey(x));
    LessIrreflexive(PhoneKey(x));
    TwoContacts(x, y);
    InOrderPossible(g, x, y);
    TwoSearchable(g, x, y);
    assert Append(EMPTY, y).contacts == [y];
    WrongContact(g, InOrder(x, y), Append(EMPTY, y), x, y, "");
  }
}
