/** The tools over files of records, on the file that a book is saved to: what they count and keep is said of the
    contacts. */
module RecordFiles {
  import opened Text
  import opened Json
  import opened JsonRoundTrip
  import opened Model
  import opened Store
  import opened WorkQueue
  import opened Report
  import opened LineFilter

  /** The address in a contact's line is the contact's, without the control characters that the parser drops. */
  lemma EmailOfLine(c: Contact)
    ensures EmailOf(ContactLine(c)) == Some(StripStr(c.email))
  {
    LineParses(c);
    StripContact(c);
    Members(Stripped(c), ToJson(Stripped(c)).members);
    AddressMember(ContactLine(c), ToJson(Stripped(c)).members, StripStr(c.email));
  }

  lemma AddressMember(line: string, ms: seq<Member>, e: string)
    requires ParseValue(line) == Some((Obj(ms), "")) && Find(ms, "email") == Some(Str(e))
    ensures EmailOf(line) == Some(e)
  {
  }

  function ContactLines(cs: seq<Contact>): (ls: seq<string>)
    ensures |ls| == |cs| && forall i :: 0 <= i < |cs| ==> ls[i] == ContactLine(cs[i])
  {
    seq(|cs|, i requires 0 <= i < |cs| => ContactLine(cs[i]))
  }

  lemma {:induction false} DataIsLines(cs: seq<Contact>)
    ensures DataText(cs) == TextOf(ContactLines(cs))
  {
    if cs != [] {
      DataIsLines(cs[1..]);
      assert ContactLines(cs)[1..] == ContactLines(cs[1..]);
      Assoc(ContactLine(cs[0]), "\n", DataText(cs[1..]));
    }
  }

  /** The lines of a saved file are those of its contacts. */
  lemma DataLines(cs: seq<Contact>)
    ensures LinesOf(DataText(cs)) == ContactLines(cs)
  {
    DataIsLines(cs);
    forall l | l in ContactLines(cs) ensures '\n' !in l {
      var i :| 0 <= i < |cs| && ContactLines(cs)[i] == l;
      LineIsOne(cs[i]);
    }
    LinesBack(ContactLines(cs));
  }

  // ---------- the report ----------

  ghost function Addresses(cs: seq<Contact>): set<string> {
    set c | c in cs :: StripStr(c.email)
  }

  lemma {:induction false} LinesReport(cs: seq<Contact>)
    ensures Count(ContactLines(cs)) == |cs|
  {
    if cs != [] {
      LineIsOne(cs[0]);
      LinesReport(cs[1..]);
      assert ContactLines(cs)[1..] == ContactLines(cs[1..]);
    }
  }

  lemma LinesEmails(cs: seq<Contact>)
    ensures Emails(ContactLines(cs)) == Addresses(cs)
  {
    var ls := ContactLines(cs);
    forall e ensures e in Emails(ls) <==> e in Addresses(cs) {
      EmailsAre(ls, e);
      if e in Addresses(cs) {
        var c :| c in cs && StripStr(c.email) == e;
        var i :| 0 <= i < |cs| && cs[i] == c;
        EmailOfLine(c);
        LineIsOne(c);
        assert ls[i] != "" && EmailOf(ls[i]) == Some(e);
      }
      if i :| 0 <= i < |ls| && ls[i] != "" && EmailOf(ls[i]) == Some(e) {
        EmailOfLine(cs[i]);
        assert cs[i] in cs;
      }
    }
  }

  /** The report on the file of a book counts its contacts, and finds exactly their addresses. */
  lemma ReportOfBook(cs: seq<Contact>)
    ensures Count(LinesOf(DataText(cs))) == |cs| && Emails(LinesOf(DataText(cs))) == Addresses(cs)
  {
    DataLines(cs);
    LinesReport(cs);
    LinesEmails(cs);
  }

  /** So does the threaded report, with any number of workers but none and under every schedule. */
  lemma ThreadedOfBook(cs: seq<Contact>, n: nat, labels: seq<Label<()>>)
    requires n > 0 && Runs(Reporting(), LinesOf(DataText(cs)), Report.Fresh(n), labels)
    requires Terminal(After(Reporting(), LinesOf(DataText(cs)), Report.Fresh(n), labels))
    ensures var t := After(Reporting(), LinesOf(DataText(cs)), Report.Fresh(n), labels).shared;
            t.count == |cs| && t.emails == Addresses(cs)
  {
    ReportOfBook(cs);
    ThreadedIsSequential(LinesOf(DataText(cs)), n, labels);
  }

  // ---------- deduplication ----------

  lemma LineKeys(c: Contact)
    ensures DedupeKey(ContactLine(c)) == Some(StripStr(c.email))
    ensures StripStr(c.email) != "" ==> MergeKey(ContactLine(c)) == Some(StripStr(c.email))
    ensures StripStr(c.email) == "" ==> MergeKey(ContactLine(c)) == Some(ContactLine(c))
  {
    EmailOfLine(c);
    LineParses(c);
  }

  /** No earlier contact has the address. */
  predicate NewAddress(cs: seq<Contact>, i: nat)
    requires i < |cs|
  {
    forall j :: 0 <= j < i ==> StripStr(cs[j].email) != StripStr(cs[i].email)
  }

  /** Which contacts are the first of their address. */
  function News(cs: seq<Contact>): (keep: seq<bool>)
    ensures |keep| == |cs| && forall i :: 0 <= i < |cs| ==> keep[i] == NewAddress(cs, i)
  {
    seq(|cs|, i requires 0 <= i < |cs| => NewAddress(cs, i))
  }

  /** Those contacts, in order. */
  function Deduped(cs: seq<Contact>): seq<Contact> {
    Picked(cs, News(cs), |cs|)
  }

  /** A line is the first of its key just when the contact is the first of its address. */
  lemma FirstLine(cs: seq<Contact>, ls: seq<string>, i: nat)
    requires ls == ContactLines(cs) && i < |cs|
    ensures First(DedupeKey, ls, i) <==> NewAddress(cs, i)
  {
    forall j | 0 <= j <= i ensures ls[j] != "" && DedupeKey(ls[j]) == Some(StripStr(cs[j].email)) {
      LineIsOne(cs[j]);
      LineKeys(cs[j]);
    }
    FirstOfKey(DedupeKey, cs, ls, i);
  }

  lemma FirstOfKey(key: KeyOf, cs: seq<Contact>, ls: seq<string>, i: nat)
    requires |ls| == |cs| && i < |cs|
    requires forall j :: 0 <= j <= i ==> ls[j] != "" && key(ls[j]) == Some(StripStr(cs[j].email))
    ensures First(key, ls, i) <==> NewAddress(cs, i)
  {
  }

  lemma LinesAppend(cs: seq<Contact>, c: Contact)
    ensures ContactLines(cs + [c]) == ContactLines(cs) + [ContactLine(c)]
  {
  }

  lemma {:induction false} PickedLines(cs: seq<Contact>, ls: seq<string>, keep: seq<bool>, n: nat)
    requires |keep| == |cs| && n <= |cs| && ls == ContactLines(cs)
    ensures Picked(ls, keep, n) == ContactLines(Picked(cs, keep, n))
    decreases n
  {
    if n == 0 {
      assert ContactLines([]) == [];
    } else {
      PickedLines(cs, ls, keep, n - 1);
      LinesAppend(Picked(cs, keep, n - 1), cs[n - 1]);
    }
  }

  lemma DedupedLines(cs: seq<Contact>, ls: seq<string>)
    requires ls == ContactLines(cs)
    ensures LineFilter.Fresh(DedupeKey, {}, ls) == ContactLines(Deduped(cs))
  {
    KeepsFirstAll(DedupeKey, ls);
    NewsOfLines(cs, ls);
    FirstLinesPicked(DedupeKey, ls, News(cs), |ls|);
    PickedLines(cs, ls, News(cs), |cs|);
  }

  lemma NewsOfLines(cs: seq<Contact>, ls: seq<string>)
    requires ls == ContactLines(cs)
    ensures forall i :: 0 <= i < |cs| ==> News(cs)[i] == First(DedupeKey, ls, i)
  {
    forall i | 0 <= i < |cs| ensures News(cs)[i] == First(DedupeKey, ls, i) {
      FirstLine(cs, ls, i);
    }
  }

  /** Deduplicating the file of a book keeps exactly the contacts whose address no earlier one has: the result is the
      file of those. */
  lemma DedupeOfBook(cs: seq<Contact>, ls: seq<string>)
    requires ls == LinesOf(DataText(cs))
    ensures TextOf(LineFilter.Fresh(DedupeKey, {}, ls)) == DataText(Deduped(cs))
  {
    DataLines(cs);
    DedupedLines(cs, ls);
    DataIsLines(Deduped(cs));
  }

  lemma {:induction false} SameFresh(cs: seq<Contact>, seen: set<string>, ls: seq<string>)
    requires (forall c :: c in cs ==> StripStr(c.email) != "") && ls == ContactLines(cs)
    ensures LineFilter.Fresh(MergeKey, seen, ls) == LineFilter.Fresh(DedupeKey, seen, ls)
    decreases cs
  {
    if cs != [] {
      assert cs[0] in cs;
      LineKeys(cs[0]);
      assert ls[1..] == ContactLines(cs[1..]);
      SameFresh(cs[1..], See(MergeKey, seen, ls[0]), ls[1..]);
    }
  }

  lemma BothLines(cs: seq<Contact>, ds: seq<Contact>)
    ensures LinesOf(DataText(cs)) + LinesOf(DataText(ds)) == ContactLines(cs + ds)
  {
    DataLines(cs);
    DataLines(ds);
  }

  /** Merging the files of two books whose contacts all have an address gives the file of the contacts of both whose
      address no earlier one has. */
  lemma MergeOfBooks(cs: seq<Contact>, ds: seq<Contact>, all: seq<Contact>)
    requires all == cs + ds && forall c :: c in all ==> StripStr(c.email) != ""
    ensures MergeTexts(DataText(cs), DataText(ds)) == DataText(Deduped(all))
  {
    var ls := ContactLines(all);
    BothLines(cs, ds);
    SameFresh(all, {}, ls);
    DedupedLines(all, ls);
    DataIsLines(Deduped(all));
  }
}
