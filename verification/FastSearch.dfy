/** The fast search: hash-checked disk index, byte offset, one line of the data file. */
module FastSearch {
  import opened Text
  import opened Widths
  import opened Model
  import opened Validation
  import opened Book
  import opened Store
  import DiskIndex

  /** `valid_for_data_hash` on the contents of the meta file. */
  predicate MetaValid(meta: string, digest: string) {
    "hash=" <= meta &&
    var h := meta[5..];
    (if h != [] && (h[|h| - 1] == '\n' || h[|h| - 1] == '\r') then h[..|h| - 1] else h) == digest
  }

  /** The line of the text that starts at an offset, up to the next line feed or the end. */
  function LineAt(all: string, off: nat): string
    requires off < |all|
  {
    CutLine(all[off..]).0
  }

  /** `fast_search_one`; an address takes precedence over a number. */
  function Search(h: Digest, fs: Files, enabled: bool, email: string, phone: string): Option<Contact> {
    var data := Read(fs, Data);
    if !enabled || data == "" || !MetaValid(Read(fs, Meta), h(data)) then None
    else
      var found := if email != "" then DiskIndex.LookupEmail(Read(fs, Bin), ToLower(email))
                   else if phone != "" then DiskIndex.LookupPhone(Read(fs, Bin), NormalizePhone(phone))
                   else None;
      var off :- found;
      if off >= |data| then None else ReadContact(LineAt(data, off))
  }

  /** The search gives nothing when it is not switched on, when there is no data, when the meta file does not carry
      the digest of the data, and when neither an address nor a number is given. */
  lemma SearchGuards(h: Digest, fs: Files, enabled: bool, email: string, phone: string)
    ensures !enabled ==> Search(h, fs, enabled, email, phone) == None
    ensures Read(fs, Data) == "" ==> Search(h, fs, enabled, email, phone) == None
    ensures !MetaValid(Read(fs, Meta), h(Read(fs, Data))) ==> Search(h, fs, enabled, email, phone) == None
    ensures email == "" && phone == "" ==> Search(h, fs, enabled, email, phone) == None
  {
  }

  /** The meta file carries a digest when it is just that after its tag, with one line break after it at most. */
  lemma MetaIs(meta: string, digest: string)
    requires '\n' !in digest && '\r' !in digest
    ensures MetaValid(meta, digest) <==>
            meta == "hash=" + digest || meta == "hash=" + digest + "\n" || meta == "hash=" + digest + "\r"
  {
    if "hash=" <= meta {
      var h := meta[5..];
      assert meta == "hash=" + h;
      if h != [] && (h[|h| - 1] == '\n' || h[|h| - 1] == '\r') {
        assert h == h[..|h| - 1] + [h[|h| - 1]];
        assert h[|h| - 1] in h;
      }
    }
    assert ("hash=" + digest)[5..] == digest;
    BreakCut(digest, "\n");
    BreakCut(digest, "\r");
  }

  lemma BreakCut(digest: string, e: string)
    requires |e| == 1
    ensures ("hash=" + digest + e)[5..] == digest + e && (digest + e)[..|digest|] == digest
  {
  }

  method SearchOne(h: Digest, fs: Files, enabled: bool, email: string, phone: string) returns (r: Option<Contact>)
    ensures r == Search(h, fs, enabled, email, phone)
  {
    var data := Read(fs, Data);
    if !enabled || data == "" || !MetaValid(Read(fs, Meta), h(data)) {
      return None;
    }
    var off: Option<nat> := None;
    if email != "" {
      off := FindEmail(Read(fs, Bin), ToLower(email));
    } else if phone != "" {
      off := FindPhone(Read(fs, Bin), NormalizePhone(phone));
    }
    if off.None? || off.value >= |data| {
      return None;
    }
    r := ReadLine(LineAt(data, off.value));
  }

  method FindEmail(file: string, key: string) returns (off: Option<nat>)
    ensures off == DiskIndex.LookupEmail(file, key)
  {
    var r := DiskIndex.LoadFile(file);
    if r.None? {
      return None;
    }
    off := DiskIndex.BsearchKey(r.value.0, key);
  }

  method FindPhone(file: string, key: string) returns (off: Option<nat>)
    ensures off == DiskIndex.LookupPhone(file, key)
  {
    var r := DiskIndex.LoadFile(file);
    if r.None? {
      return None;
    }
    off := DiskIndex.BsearchKey(r.value.1, key);
  }

  // ---------- offsets ----------

  lemma {:induction false} DataTextSplit(cs: seq<Contact>, i: nat)
    requires i <= |cs|
    ensures DataText(cs) == DataText(cs[..i]) + DataText(cs[i..])
    decreases |cs| - i
  {
    if i == |cs| {
      assert cs[..i] == cs && cs[i..] == [];
    } else {
      DataTextSplit(cs, i + 1);
      DataTextAppend(cs[..i], cs[i]);
      assert cs[..i] + [cs[i]] == cs[..i + 1];
      assert cs[i..][1..] == cs[i + 1..];
      Shift(DataText(cs[..i]), ContactLine(cs[i]), DataText(cs[i + 1..]));
    }
  }

  lemma Shift(a: string, b: string, c: string)
    ensures a + (b + "\n") + c == a + (b + ("\n" + c))
  {
  }

  lemma CutHere(line: string, rest: string)
    requires '\n' !in line
    ensures CutLine(line + ("\n" + rest)) == (line, rest)
  {
    Assoc(line, "\n", rest);
    CutLineAt(line, rest);
  }

  /** The line at a contact's offset is the contact's own line. */
  lemma LineAtOffset(cs: seq<Contact>, i: nat)
    requires i < |cs|
    ensures Offset(cs, i) < |DataText(cs)| && LineAt(DataText(cs), Offset(cs, i)) == ContactLine(cs[i])
  {
    DataTextSplit(cs, i);
    LineIsOne(cs[i]);
    assert cs[i..][0] == cs[i];
    CutHere(ContactLine(cs[i]), DataText(cs[i..][1..]));
    assert DataText(cs)[Offset(cs, i)..] == DataText(cs[i..]);
  }

  lemma OffsetsBelow(cs: seq<Contact>)
    requires |DataText(cs)| < TWO_64 && |cs| < TWO_32
    ensures DiskIndex.Fits(EmailEntries(cs)) && DiskIndex.Fits(PhoneEntries(cs))
  {
    forall i | 0 <= i < |cs| ensures Offset(cs, i) < TWO_64 {
      LineAtOffset(cs, i);
    }
  }

  lemma FitsSorted(v: seq<DiskIndex.Entry>, kv: seq<DiskIndex.Entry>)
    requires DiskIndex.SortOf(v, kv) && DiskIndex.Fits(kv)
    ensures DiskIndex.Fits(v)
  {
    assert |multiset(v)| == |multiset(kv)|;
    forall i | 0 <= i < |v| ensures v[i].offset < TWO_64 {
      SameElements(v, kv, v[i]);
    }
  }

  lemma MetaMatches(digest: string)
    requires '\n' !in digest
    ensures MetaValid("hash=" + digest + "\n", digest)
  {
    var m := "hash=" + digest + "\n";
    assert m[5..] == digest + "\n";
    assert (digest + "\n")[..|digest|] == digest;
  }

  // ---------- the search agrees with a scan ----------

  /** The limits of the binary layout, and a file below 2^64 bytes. */
  predicate WithinLimits(cs: seq<Contact>) {
    |cs| < TWO_32 && |DataText(cs)| < TWO_64
  }

  /** The search for a contact is right when it reads a contact that matches, and fails only if none does. */
  ghost predicate Finds(r: Option<Contact>, cs: seq<Contact>, keys: seq<string>, key: string)
    requires |keys| == |cs|
  {
    if exists i :: 0 <= i < |cs| && DiskIndex.Trunc(keys[i]) == key
    then exists i :: 0 <= i < |cs| && DiskIndex.Trunc(keys[i]) == key && r == ReadContact(ContactLine(cs[i]))
    else r == None
  }

  /** What is read once the lookup has answered. */
  function ReadAt(data: string, off: Option<nat>): Option<Contact> {
    if off.None? || off.value >= |data| then None else ReadContact(LineAt(data, off.value))
  }

  /** From a right lookup to a right search. */
  lemma LookupToContact(off: Option<nat>, cs: seq<Contact>, kv: seq<DiskIndex.Entry>, keys: seq<string>, key: string)
    requires |kv| == |keys| == |cs|
    requires forall i :: 0 <= i < |cs| ==> kv[i] == DiskIndex.Entry(keys[i], Offset(cs, i))
    requires DiskIndex.Answers(off, kv, key)
    ensures Finds(ReadAt(DataText(cs), off), cs, keys, key)
  {
    match off
    case Some(o) =>
      var i :| 0 <= i < |kv| && DiskIndex.Trunc(kv[i].key) == key && kv[i].offset == o;
      LineAtOffset(cs, i);
      assert DiskIndex.Trunc(keys[i]) == key;
    case None =>
      forall i | 0 <= i < |cs| ensures DiskIndex.Trunc(keys[i]) != key {
        assert kv[i].key == keys[i];
      }
  }

  lemma SearchReads(h: Digest, fs: Files, email: string, phone: string)
    requires Read(fs, Data) != "" && MetaValid(Read(fs, Meta), h(Read(fs, Data)))
    ensures email != "" ==>
              Search(h, fs, true, email, phone) == ReadAt(Read(fs, Data), DiskIndex.LookupEmail(Read(fs, Bin), ToLower(email)))
    ensures email == "" && phone != "" ==>
              Search(h, fs, true, email, phone) == ReadAt(Read(fs, Data), DiskIndex.LookupPhone(Read(fs, Bin), NormalizePhone(phone)))
  {
  }

  lemma EmailFound(b: Book, o: Orders, key: string)
    requires Possible(b, o) && WithinLimits(b.contacts)
    ensures Finds(ReadAt(DataText(b.contacts), DiskIndex.LookupEmail(BinContent(o), key)), b.contacts, EmailKeys(b.contacts), key)
  {
    var cs := b.contacts;
    Found(b, o, key);
    LookupToContact(DiskIndex.LookupEmail(BinContent(o), key), cs, EmailEntries(cs), EmailKeys(cs), key);
  }

  lemma PhoneFound(b: Book, o: Orders, key: string)
    requires Possible(b, o) && WithinLimits(b.contacts)
    ensures Finds(ReadAt(DataText(b.contacts), DiskIndex.LookupPhone(BinContent(o), key)), b.contacts, PhoneKeys(b.contacts), key)
  {
    var cs := b.contacts;
    Found(b, o, key);
    LookupToContact(DiskIndex.LookupPhone(BinContent(o), key), cs, PhoneEntries(cs), PhoneKeys(cs), key);
  }

  lemma Found(b: Book, o: Orders, key: string)
    requires Possible(b, o) && WithinLimits(b.contacts)
    ensures DiskIndex.Answers(DiskIndex.LookupEmail(BinContent(o), key), EmailEntries(b.contacts), key)
    ensures DiskIndex.Answers(DiskIndex.LookupPhone(BinContent(o), key), PhoneEntries(b.contacts), key)
  {
    var cs := b.contacts;
    OffsetsBelow(cs);
    FitsSorted(o.sortedEmails, EmailEntries(cs));
    FitsSorted(o.sortedPhones, PhoneEntries(cs));
    DiskIndex.LookupAnswers(o.sortedEmails, o.sortedPhones, EmailEntries(cs), PhoneEntries(cs), key);
  }

  lemma SearchOnSaved(h: Digest, fs: Files, b: Book, o: Orders, email: string, phone: string)
    requires OneLine(h) && Possible(b, o) && WithinLimits(b.contacts) && (email != "" || phone != "")
    requires Read(fs, Data) == DataText(b.contacts) && b.contacts != []
    requires Read(fs, Meta) == MetaContent(h, b) && Read(fs, Bin) == BinContent(o)
    ensures email != "" ==> Finds(Search(h, fs, true, email, phone), b.contacts, EmailKeys(b.contacts), ToLower(email))
    ensures email == "" ==> Finds(Search(h, fs, true, email, phone), b.contacts, PhoneKeys(b.contacts), NormalizePhone(phone))
  {
    assert DataText(b.contacts) != "";
    MetaMatches(h(DataText(b.contacts)));
    SearchReads(h, fs, email, phone);
    if email != "" {
      EmailFound(b, o, ToLower(email));
    } else {
      PhoneFound(b, o, NormalizePhone(phone));
    }
  }

  lemma SearchNothing(h: Digest, fs: Files, email: string, phone: string)
    requires Read(fs, Data) == ""
    ensures Search(h, fs, true, email, phone) == None
  {
  }

  /** After a completed save of any contacts, in whatever order ties were sorted, the search reads the line of
      a contact with the key, cut at 65535 bytes, and finds nothing exactly when there is none. */
  lemma SearchAfterSave(h: Digest, fs: Files, b: Book, o: Orders, email: string, phone: string)
    requires OneLine(h) && Possible(b, o) && WithinLimits(b.contacts) && (email != "" || phone != "")
    ensures var r := Search(h, Exec(fs, SaveSteps(h, b, o)), true, email, phone);
            if email != "" then Finds(r, b.contacts, EmailKeys(b.contacts), ToLower(email))
            else Finds(r, b.contacts, PhoneKeys(b.contacts), NormalizePhone(phone))
  {
    var fs' := Exec(fs, SaveSteps(h, b, o));
    Completed(h, fs, b, o);
    if b.contacts == [] {
      SearchNothing(h, fs', email, phone);
    } else {
      SearchOnSaved(h, fs', b, o, email, phone);
    }
  }

  /** The linear scan: the first contact with the key. */
  function Scan(cs: seq<Contact>, keys: seq<string>, key: string): Option<Contact>
    requires |keys| == |cs|
  {
    if cs == [] then None
    else if keys[0] == key then Some(cs[0])
    else Scan(cs[1..], keys[1..], key)
  }

  lemma {:induction false} ScanUnique(cs: seq<Contact>, keys: seq<string>, i: nat)
    requires |keys| == |cs| && i < |cs| && forall a, b :: 0 <= a < b < |keys| ==> keys[a] != keys[b]
    ensures Scan(cs, keys, keys[i]) == Some(cs[i])
  {
    if i > 0 {
      assert keys[1..][i - 1] == keys[i];
      ScanUnique(cs[1..], keys[1..], i - 1);
    }
  }

  lemma {:induction false} ScanNone(cs: seq<Contact>, keys: seq<string>, key: string)
    requires |keys| == |cs| && key !in keys
    ensures Scan(cs, keys, key) == None
  {
    if cs != [] {
      ScanNone(cs[1..], keys[1..], key);
    }
  }

  ghost predicate ShortKeys(keys: seq<string>) {
    forall k :: k in keys ==> |k| <= 65535
  }

  /** With clean contacts, short keys and unique keys, a right search is the scan. */
  lemma FindsIsScan(r: Option<Contact>, cs: seq<Contact>, keys: seq<string>, key: string)
    requires |keys| == |cs| && Finds(r, cs, keys, key) && AllClean(cs) && ShortKeys(keys)
    requires forall a, b :: 0 <= a < b < |keys| ==> keys[a] != keys[b]
    ensures r == Scan(cs, keys, key)
  {
    assert forall i :: 0 <= i < |cs| ==> keys[i] in keys && DiskIndex.Trunc(keys[i]) == keys[i];
    if i :| 0 <= i < |cs| && DiskIndex.Trunc(keys[i]) == key && r == ReadContact(ContactLine(cs[i])) {
      ScanUnique(cs, keys, i);
      assert cs[i] in cs;
      LineRoundTrip(cs[i]);
    } else {
      ScanNone(cs, keys, key);
    }
  }

  /** What a linear scan finds by address, or by number when no address is given. */
  function ByScan(cs: seq<Contact>, email: string, phone: string): Option<Contact> {
    if email != "" then Scan(cs, EmailKeys(cs), ToLower(email)) else Scan(cs, PhoneKeys(cs), NormalizePhone(phone))
  }

  /** A book whose search is the scan: exactly indexed, clean, and within the limits of the binary file. */
  ghost predicate Searchable(b: Book) {
    && Agree(b) && AllClean(b.contacts) && WithinLimits(b.contacts)
    && ShortKeys(EmailKeys(b.contacts)) && ShortKeys(PhoneKeys(b.contacts))
  }

  lemma SavedIsScan(h: Digest, fs: Files, b: Book, o: Orders, email: string, phone: string)
    requires OneLine(h) && Possible(b, o) && Searchable(b) && (email != "" || phone != "")
    requires Read(fs, Data) == DataText(b.contacts) && Read(fs, Meta) == MetaContent(h, b) && Read(fs, Bin) == BinContent(o)
    ensures Search(h, fs, true, email, phone) == ByScan(b.contacts, email, phone)
  {
    if b.contacts == [] {
      SearchNothing(h, fs, email, phone);
    } else {
      SearchOnSaved(h, fs, b, o, email, phone);
      DistinctKeys(b);
      var r := Search(h, fs, true, email, phone);
      if email != "" {
        FindsIsScan(r, b.contacts, EmailKeys(b.contacts), ToLower(email));
      } else {
        FindsIsScan(r, b.contacts, PhoneKeys(b.contacts), NormalizePhone(phone));
      }
    }
  }

  /** The headline: after a completed save of an index-consistent book, the fast search by address, or by
      number when no address is given, is the linear scan of the contacts. */
  lemma SearchIsScan(h: Digest, fs: Files, b: Book, o: Orders, email: string, phone: string)
    requires OneLine(h) && Possible(b, o) && Searchable(b) && (email != "" || phone != "")
    ensures Search(h, Exec(fs, SaveSteps(h, b, o)), true, email, phone) == ByScan(b.contacts, email, phone)
  {
    Completed(h, fs, b, o);
    SavedIsScan(h, Exec(fs, SaveSteps(h, b, o)), b, o, email, phone);
  }

  lemma DistinctKeys(b: Book)
    requires Agree(b)
    ensures var es := EmailKeys(b.contacts); forall i, j :: 0 <= i < j < |es| ==> es[i] != es[j]
    ensures var ps := PhoneKeys(b.contacts); forall i, j :: 0 <= i < j < |ps| ==> ps[i] != ps[j]
  {
  }
}
