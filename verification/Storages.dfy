/** The storage object: its files change in place as a save or a load proceeds. */
module Storages {
  import opened Text
  import opened Json
  import opened Jsonl
  import opened Model
  import opened Validation
  import opened Book
  import opened Store
  import opened ContactBooks
  import TextIndex
  import DiskIndex

  class Storage {
    const digest: Digest
    var files: Files

    constructor (digest: Digest)
      ensures this.digest == digest && files == map[]
    {
      this.digest := digest;
      files := map[];
    }

    /** Truncates a file, then writes its bytes one after the other. */
    method WritePlain(p: Path, content: string)
      modifies this`files
      ensures files == Exec(old(files), Growing(p, content))
    {
      files := files[p := ""];
      for k := 0 to |content|
        invariant files == old(files)[p := content[..k]]
      {
        files := files[p := content[..k + 1]];
      }
      assert content[..|content|] == content;
      ExecGrowing(old(files), p, content);
    }

    /** `write_file_atomic`, where the rename succeeds. */
    method WriteAtomic(p: Path, content: string)
      modifies this`files
      ensures files == Exec(old(files), Atomic(p, content))
    {
      WritePlain(Tmp(p), content);
      ExecGrowing(old(files), Tmp(p), content);
      var text := files[Tmp(p)];
      files := (files - {Tmp(p)})[p := text];
      ExecAtomic(old(files), p, content);
      assert old(files)[Tmp(p) := content] - {Tmp(p)} == old(files) - {Tmp(p)};
    }

    /** `PersistentIndex::save`, after the data is in place. */
    method WriteIndex(book: ContactBook) returns (eo: seq<string>, po: seq<string>)
      modifies this`files
      ensures TextIndex.Lists(eo, book.emailToI) && TextIndex.Lists(po, book.phoneToI)
      ensures files == Exec(old(files), Atomic(Index,
                TextIndex.IndexText(digest(Read(old(files), Data)), book.emailToI, book.phoneToI, eo, po)))
    {
      var dh := digest(Read(files, Data));
      eo := ListKeys(book.emailToI);
      po := ListKeys(book.phoneToI);
      var emails := TextIndex.WriteMap("email:", book.emailToI, eo);
      var phones := TextIndex.WriteMap("phone:", book.phoneToI, po);
      WriteAtomic(Index, "hash=" + dh + ("\n" + (emails + phones)));
    }

    /** `save`, given what the sort of the two entry lists returned. */
    method Save(book: ContactBook, sortedEmails: seq<DiskIndex.Entry>, sortedPhones: seq<DiskIndex.Entry>)
      returns (o: Orders)
      requires DiskIndex.SortOf(sortedEmails, EmailEntries(book.contacts))
      requires DiskIndex.SortOf(sortedPhones, PhoneEntries(book.contacts))
      modifies this`files
      ensures Possible(book.View(), o)
      ensures files == Exec(old(files), SaveSteps(digest, book.View(), o))
    {
      var data, emailKv, phoneKv := Prepare(book.contacts);
      WriteAtomic(Data, data);
      ghost var f1 := files;
      AtomicReads(old(files), Data, data);
      var eo, po := WriteIndex(book);
      ghost var f2 := files;
      AtomicKeeps(f1, Index, TextIndex.IndexText(digest(data), book.emailToI, book.phoneToI, eo, po), Data);
      BuildDiskIndex(sortedEmails, sortedPhones);
      o := Orders(eo, po, sortedEmails, sortedPhones);
      SaveAssembled(digest, book.View(), o, old(files), f1, f2, files);
    }

    /** `DiskIndex::build`: the meta file with the hash of the data, then the index itself. */
    method BuildDiskIndex(sortedEmails: seq<DiskIndex.Entry>, sortedPhones: seq<DiskIndex.Entry>)
      modifies this`files
      ensures files == Exec(Exec(old(files), Atomic(Meta, "hash=" + digest(Read(old(files), Data)) + "\n")),
                            Growing(Bin, DiskIndex.FileBytes(sortedEmails, sortedPhones)))
    {
      WriteAtomic(Meta, "hash=" + digest(Read(files, Data)) + "\n");
      var bin := DiskIndex.BuildFile(sortedEmails, sortedPhones);
      WritePlain(Bin, bin);
    }

    /** `load`, with `load_or_build`; an exception leaves the index maps to be seen by nobody. */
    method Load(book: ContactBook) returns (threw: bool, rebuilt: bool)
      modifies book, this`files
      ensures var r := Store.Load(digest, old(files), old(book.View()));
              threw == r.Exception? && (r.Ok? ==> book.View() == r.book && rebuilt == r.rebuilt)
      ensures threw || !rebuilt ==> files == old(files)
      ensures !threw && rebuilt ==>
              exists eo, po :: TextIndex.Lists(eo, book.emailToI) && TextIndex.Lists(po, book.phoneToI) &&
                files == Exec(old(files), Atomic(Index,
                  TextIndex.IndexText(digest(Read(old(files), Data)), book.emailToI, book.phoneToI, eo, po)))
    {
      book.contacts := [];
      var data := Read(files, Data);
      if data == "" {
        return false, false;
      }
      var cs := ReadContacts(data);
      if cs.None? {
        return true, false;
      }
      book.contacts := cs.value;
      var cache := TextIndex.ReadIndex(Read(files, Index), digest(data));
      match cache {
        case Hit(emails, phones) =>
          book.emailToI, book.phoneToI := emails, phones;
          return false, false;
        case Threw =>
          return true, false;
        case Miss =>
          book.emailToI, book.phoneToI := map[], map[];
          book.ReindexFrom(0);
          assert book.View() == Rebuild(cs.value);
          var eo, po := WriteIndex(book);
          return false, true;
      }
    }
  }

  method ReadContacts(data: string) returns (cs: Option<seq<Contact>>)
    ensures cs == match ParseJsonl(data) case None => None case Some(js) => FromJsons(js)
  {
    var js := ReadJsonl(data);
    if js.None? {
      return None;
    }
    cs := ConvertAll(js.value);
  }

  method ConvertAll(js: seq<J>) returns (r: Option<seq<Contact>>)
    ensures r == FromJsons(js)
  {
    var out: seq<Contact> := [];
    var rest := js;
    assert FromJsons(js).Some? ==> [] + FromJsons(js).value == FromJsons(js).value;
    while rest != []
      invariant FromJsons(js) == if FromJsons(rest).None? then None else Some(out + FromJsons(rest).value)
      decreases |rest|
    {
      var c := FromJson(rest[0]);
      if c.None? {
        return None;
      }
      if FromJsons(rest[1..]).Some? {
        Assoc(out, [c.value], FromJsons(rest[1..]).value);
      }
      out := out + [c.value];
      rest := rest[1..];
    }
    assert out + [] == out;
    return Some(out);
  }

  /** The keys of a map in some order. */
  method ListKeys(m: map<string, nat>) returns (order: seq<string>)
    ensures TextIndex.Lists(order, m)
  {
    order := [];
    var rest := m.Keys;
    while rest != {}
      invariant rest <= m.Keys
      invariant forall k :: k in order <==> k in m.Keys && k !in rest
      invariant forall i, j :: 0 <= i < j < |order| ==> order[i] != order[j]
      decreases rest
    {
      var k :| k in rest;
      order := order + [k];
      rest := rest - {k};
    }
  }

  lemma AtomicReads(fs: Files, p: Path, content: string)
    ensures Read(Exec(fs, Atomic(p, content)), p) == content
  {
    ExecAtomic(fs, p, content);
  }

  lemma AtomicKeeps(fs: Files, p: Path, content: string, q: Path)
    requires q != p && q != Tmp(p)
    ensures Read(Exec(fs, Atomic(p, content)), q) == Read(fs, q)
  {
    ExecAtomic(fs, p, content);
  }

  lemma SaveAssembled(h: Digest, b: Book, o: Orders, f0: Files, f1: Files, f2: Files, f4: Files)
    requires TextIndex.Lists(o.emails, b.emailToI) && TextIndex.Lists(o.phones, b.phoneToI)
    requires f1 == Exec(f0, Atomic(Data, DataText(b.contacts)))
    requires f2 == Exec(f1, Atomic(Index, IndexContent(h, b, o)))
    requires f4 == Exec(Exec(f2, Atomic(Meta, MetaContent(h, b))), Growing(Bin, BinContent(o)))
    ensures f4 == Exec(f0, SaveSteps(h, b, o))
  {
    var s1, s2 := Atomic(Data, DataText(b.contacts)), Atomic(Index, IndexContent(h, b, o));
    var s3, s4 := Atomic(Meta, MetaContent(h, b)), Growing(Bin, BinContent(o));
    ExecConcat(f0, s1, s2);
    ExecConcat(f0, s1 + s2, s3);
    ExecConcat(f0, s1 + s2 + s3, s4);
  }
}
