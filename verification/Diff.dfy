/** The difference of two books: what it lists, and that it is a faithful patch. */
module Diff {
  import opened Text
  import opened Model

  // ---------- the id maps ----------

  type Index = map<string, Contact>

  /** The contacts by id; of several with one id the last counts. */
  function IndexOf(cs: seq<Contact>): Index {
    if cs == [] then map[] else IndexOf(cs[..|cs| - 1])[cs[|cs| - 1].id := cs[|cs| - 1]]
  }

  /** An id of the map is that of a contact; the contact there is the last one of the id. */
  lemma {:induction false} IndexIs(cs: seq<Contact>, id: string)
    ensures id in IndexOf(cs) <==> exists i :: 0 <= i < |cs| && cs[i].id == id
    ensures forall i :: 0 <= i < |cs| && cs[i].id == id && (forall k :: i < k < |cs| ==> cs[k].id != id) ==>
              id in IndexOf(cs) && IndexOf(cs)[id] == cs[i]
    decreases |cs|
  {
    if cs != [] {
      var n := |cs| - 1;
      IndexIs(cs[..n], id);
      assert forall i :: 0 <= i < n ==> cs[..n][i] == cs[i];
    }
  }

  method BuildIndex(cs: seq<Contact>) returns (m: Index)
    ensures m == IndexOf(cs)
  {
    m := map[];
    for i := 0 to |cs|
      invariant m == IndexOf(cs[..i])
    {
      m := m[cs[i].id := cs[i]];
      assert cs[..i + 1][..i] == cs[..i];
    }
    assert cs[..|cs|] == cs;
  }

  predicate Increasing(ids: seq<string>) {
    forall i, j :: 0 <= i < j < |ids| ==> Less(ids[i], ids[j])
  }

  /** `std::set::insert`. */
  function InsertId(ids: seq<string>, x: string): seq<string> {
    if ids == [] then [x]
    else if ids[0] == x then ids
    else if Less(x, ids[0]) then [x] + ids
    else [ids[0]] + InsertId(ids[1..], x)
  }

  lemma {:induction false} InsertMembers(ids: seq<string>, x: string)
    ensures forall y :: y in InsertId(ids, x) <==> y == x || y in ids
  {
    if ids != [] {
      InsertMembers(ids[1..], x);
      assert ids == [ids[0]] + ids[1..];
    }
  }

  lemma Prepend(x: string, ids: seq<string>)
    requires Increasing(ids) && forall y :: y in ids ==> Less(x, y)
    ensures Increasing([x] + ids)
  {
    assert forall i :: 0 <= i < |ids| ==> ids[i] in ids;
  }

  lemma FirstBelow(ids: seq<string>)
    requires ids != [] && Increasing(ids)
    ensures Increasing(ids[1..]) && forall y :: y in ids[1..] ==> Less(ids[0], y)
  {
  }

  lemma {:induction false} InsertIncreasing(ids: seq<string>, x: string)
    requires Increasing(ids)
    ensures Increasing(InsertId(ids, x))
  {
    if ids != [] && ids[0] != x {
      FirstBelow(ids);
      if Less(x, ids[0]) {
        forall y | y in ids ensures Less(x, y) {
          if y != ids[0] {
            assert ids == [ids[0]] + ids[1..];
            LessTransitive(x, ids[0], y);
          }
        }
        Prepend(x, ids);
      } else {
        LessTotal(x, ids[0]);
        InsertIncreasing(ids[1..], x);
        InsertMembers(ids[1..], x);
        Prepend(ids[0], InsertId(ids[1..], x));
      }
    }
  }

  lemma SomeIn(a: seq<string>)
    ensures a == [] || exists x :: x in a
  {
    if a != [] {
      assert a[0] in a;
    }
  }

  /** An increasing list is determined by its elements. */
  lemma {:induction false} IncreasingUnique(a: seq<string>, b: seq<string>)
    requires Increasing(a) && Increasing(b) && forall x :: x in a <==> x in b
    ensures a == b
  {
    if a == [] || b == [] {
      SomeIn(a);
      SomeIn(b);
    } else {
      FirstBelow(a);
      FirstBelow(b);
      assert a == [a[0]] + a[1..] && b == [b[0]] + b[1..];
      SameFirst(a, b);
      forall x ensures x in a[1..] <==> x in b[1..] {
        LessIrreflexive(a[0]);
        assert x in a[1..] <==> x in a && x != a[0];
        assert x in b[1..] <==> x in b && x != b[0];
      }
      IncreasingUnique(a[1..], b[1..]);
    }
  }

  lemma SameFirst(a: seq<string>, b: seq<string>)
    requires a != [] && b != [] && forall x :: x in a <==> x in b
    requires forall y :: y in a[1..] ==> Less(a[0], y)
    requires forall y :: y in b[1..] ==> Less(b[0], y)
    ensures a[0] == b[0]
  {
    assert a == [a[0]] + a[1..] && b == [b[0]] + b[1..];
    assert a[0] in b && b[0] in a;
    if a[0] != b[0] {
      LessTransitive(a[0], b[0], a[0]);
      LessIrreflexive(a[0]);
    }
  }

  method InsertKeys(ids: seq<string>, m: Index) returns (r: seq<string>)
    requires Increasing(ids)
    ensures Increasing(r) && forall x :: x in r <==> x in ids || x in m
  {
    r := ids;
    var todo := m.Keys;
    while todo != {}
      invariant Increasing(r) && todo <= m.Keys
      invariant forall x :: x in r <==> x in ids || (x in m && x !in todo)
      decreases |todo|
    {
      var k :| k in todo;
      InsertMembers(r, k);
      InsertIncreasing(r, k);
      r := InsertId(r, k);
      todo := todo - {k};
    }
  }

  // ---------- the difference ----------

  /** The old and the new value of a field that differs. */
  datatype Delta = Same | Delta(was: string, now: string)

  datatype Change = Change(id: string, name: Delta, email: Delta, phone: Delta, note: Delta)

  datatype Diff = Diff(added: seq<string>, removed: seq<string>, changed: seq<Change>)

  /** The fields that are compared. */
  datatype Compared = Compared(name: string, email: string, phone: string, note: string)

  function FieldsOf(c: Contact): Compared {
    Compared(c.name, c.email, c.phone, c.note)
  }

  function DeltaOf(x: string, y: string): Delta {
    if x != y then Delta(x, y) else Same
  }

  function ChangeOf(id: string, a: Contact, b: Contact): Change {
    Change(id, DeltaOf(a.name, b.name), DeltaOf(a.email, b.email), DeltaOf(a.phone, b.phone), DeltaOf(a.note, b.note))
  }

  /** Adds to the difference what there is to say of one id. */
  function Note(d: Diff, a: Index, b: Index, id: string): Diff
    requires id in a || id in b
  {
    if id !in b then d.(removed := d.removed + [id])
    else if id !in a then d.(added := d.added + [id])
    else if FieldsOf(a[id]) != FieldsOf(b[id]) then d.(changed := d.changed + [ChangeOf(id, a[id], b[id])])
    else d
  }

  ghost predicate AllIds(ids: seq<string>, a: Index, b: Index) {
    forall id :: id in ids <==> id in a || id in b
  }

  function DiffIds(a: Index, b: Index, ids: seq<string>): Diff
    requires forall id :: id in ids ==> id in a || id in b
  {
    if ids == [] then Diff([], [], [])
    else Note(DiffIds(a, b, ids[..|ids| - 1]), a, b, ids[|ids| - 1])
  }

  method DiffBooks(x: seq<Contact>, y: seq<Contact>) returns (d: Diff)
    ensures exists ids :: Increasing(ids) && AllIds(ids, IndexOf(x), IndexOf(y)) && d == DiffIds(IndexOf(x), IndexOf(y), ids)
  {
    var a := BuildIndex(x);
    var b := BuildIndex(y);
    var all := InsertKeys([], a);
    all := InsertKeys(all, b);
    var added, removed, changed := [], [], [];
    for i := 0 to |all|
      invariant Diff(added, removed, changed) == DiffIds(a, b, all[..i])
    {
      var id := all[i];
      assert all[..i + 1][..i] == all[..i];
      if id in a && id !in b {
        removed := removed + [id];
      } else if id !in a && id in b {
        added := added + [id];
      } else {
        var ca, cb := a[id], b[id];
        if ca.name != cb.name || ca.email != cb.email || ca.phone != cb.phone || ca.note != cb.note {
          var ch := Change(id, Same, Same, Same, Same);
          if ca.name != cb.name {
            ch := ch.(name := Delta(ca.name, cb.name));
          }
          if ca.email != cb.email {
            ch := ch.(email := Delta(ca.email, cb.email));
          }
          if ca.phone != cb.phone {
            ch := ch.(phone := Delta(ca.phone, cb.phone));
          }
          if ca.note != cb.note {
            ch := ch.(note := Delta(ca.note, cb.note));
          }
          changed := changed + [ch];
        }
      }
    }
    assert all[..|all|] == all;
    d := Diff(added, removed, changed);
  }

  // ---------- what it lists ----------

  function ChangedIds(cs: seq<Change>): (r: seq<string>)
    ensures |r| == |cs| && forall i :: 0 <= i < |cs| ==> r[i] == cs[i].id
  {
    seq(|cs|, i requires 0 <= i < |cs| => cs[i].id)
  }

  predicate Differs(a: Index, b: Index, id: string) {
    id in a && id in b && FieldsOf(a[id]) != FieldsOf(b[id])
  }

  /** The lists are exactly the ids only in the second, only in the first, and in both with different fields. */
  lemma {:induction false} DiffLists(a: Index, b: Index, ids: seq<string>, id: string)
    requires forall x :: x in ids ==> x in a || x in b
    ensures id in DiffIds(a, b, ids).added <==> id in ids && id !in a
    ensures id in DiffIds(a, b, ids).removed <==> id in ids && id !in b
    ensures id in ChangedIds(DiffIds(a, b, ids).changed) <==> id in ids && Differs(a, b, id)
  {
    if ids != [] {
      var rest, x := ids[..|ids| - 1], ids[|ids| - 1];
      assert ids == rest + [x];
      DiffLists(a, b, rest, id);
      var d := DiffIds(a, b, rest);
      if Differs(a, b, x) {
        assert ChangedIds(d.changed + [ChangeOf(x, a[x], b[x])]) == ChangedIds(d.changed) + [x];
      }
    }
  }

  /** A list entry says what the two maps say. */
  lemma {:induction false} DiffEntries(a: Index, b: Index, ids: seq<string>)
    requires forall x :: x in ids ==> x in a || x in b
    ensures forall ch :: ch in DiffIds(a, b, ids).changed ==> Differs(a, b, ch.id) && ch == ChangeOf(ch.id, a[ch.id], b[ch.id])
  {
    if ids != [] {
      DiffEntries(a, b, ids[..|ids| - 1]);
    }
  }

  /** Field by field: an entry has the old and the new value exactly of the name, the address, the number and the note
      that differ, and there is one exactly for an id of both maps at which one of them does. */
  lemma EntryFields(a: Index, b: Index, ids: seq<string>, id: string)
    requires AllIds(ids, a, b)
    ensures id in ChangedIds(DiffIds(a, b, ids).changed) <==>
            && id in a && id in b
            && (a[id].name != b[id].name || a[id].email != b[id].email || a[id].phone != b[id].phone || a[id].note != b[id].note)
    ensures forall ch :: ch in DiffIds(a, b, ids).changed && ch.id == id ==>
              && id in a && id in b
              && ch.name == (if a[id].name == b[id].name then Same else Delta(a[id].name, b[id].name))
              && ch.email == (if a[id].email == b[id].email then Same else Delta(a[id].email, b[id].email))
              && ch.phone == (if a[id].phone == b[id].phone then Same else Delta(a[id].phone, b[id].phone))
              && ch.note == (if a[id].note == b[id].note then Same else Delta(a[id].note, b[id].note))
  {
    DiffLists(a, b, ids, id);
    DiffEntries(a, b, ids);
  }

  lemma Append(ids: seq<string>, x: string)
    requires Increasing(ids) && forall y :: y in ids ==> Less(y, x)
    ensures Increasing(ids + [x])
  {
  }

  /** Each list is in increasing order of ids, so without repetition. */
  lemma {:induction false} DiffIncreasing(a: Index, b: Index, ids: seq<string>)
    requires Increasing(ids) && forall x :: x in ids ==> x in a || x in b
    ensures var d := DiffIds(a, b, ids); Increasing(d.added) && Increasing(d.removed) && Increasing(ChangedIds(d.changed))
  {
    if ids != [] {
      var rest, x := ids[..|ids| - 1], ids[|ids| - 1];
      var d := DiffIds(a, b, rest);
      assert ids == rest + [x];
      DiffIncreasing(a, b, rest);
      forall y | y in d.added || y in d.removed || y in ChangedIds(d.changed) ensures Less(y, x) {
        DiffLists(a, b, rest, y);
      }
      Append(d.added, x);
      Append(d.removed, x);
      Append(ChangedIds(d.changed), x);
      if Differs(a, b, x) {
        assert ChangedIds(d.changed + [ChangeOf(x, a[x], b[x])]) == ChangedIds(d.changed) + [x];
      }
    }
  }

  /** No id is in two of the lists. */
  lemma DiffDisjoint(a: Index, b: Index, ids: seq<string>, id: string)
    requires forall x :: x in ids ==> x in a || x in b
    ensures var d := DiffIds(a, b, ids);
            !(id in d.added && id in d.removed) && !(id in d.added && id in ChangedIds(d.changed))
            && !(id in d.removed && id in ChangedIds(d.changed))
  {
    DiffLists(a, b, ids, id);
  }

  /** The difference is empty exactly when the maps agree on the compared fields. */
  lemma DiffEmpty(a: Index, b: Index, ids: seq<string>)
    requires AllIds(ids, a, b)
    ensures DiffIds(a, b, ids) == Diff([], [], []) <==>
              a.Keys == b.Keys && forall id :: id in a ==> FieldsOf(a[id]) == FieldsOf(b[id])
  {
    var d := DiffIds(a, b, ids);
    forall id {
      DiffLists(a, b, ids, id);
    }
    if d != Diff([], [], []) {
      var id := if d.added != [] then d.added[0] else if d.removed != [] then d.removed[0] else ChangedIds(d.changed)[0];
      assert id in d.added || id in d.removed || id in ChangedIds(d.changed);
    } else {
      assert forall id :: id !in d.added && id !in d.removed && id !in ChangedIds(d.changed);
      assert forall id :: id in a <==> id in b;
    }
  }

  // ---------- applying it ----------

  function Apply(x: string, d: Delta): string {
    if d.Delta? then d.now else x
  }

  function ApplyChange(c: Compared, ch: Change): Compared {
    Compared(Apply(c.name, ch.name), Apply(c.email, ch.email), Apply(c.phone, ch.phone), Apply(c.note, ch.note))
  }

  function FindChange(cs: seq<Change>, id: string): (r: Option<Change>)
    ensures r.None? ==> id !in ChangedIds(cs)
    ensures r.Some? ==> r.value in cs && r.value.id == id
  {
    if cs == [] then None
    else if cs[0].id == id then Some(cs[0])
    else
      assert forall i :: 1 <= i < |cs| ==> ChangedIds(cs)[i] == ChangedIds(cs[1..])[i - 1];
      FindChange(cs[1..], id)
  }

  /** The first map without the removed ids, with the changes made, and with the added ids taken from the
      second, on the compared fields. */
  function Patched(a: Index, b: Index, d: Diff): map<string, Compared>
    requires forall id :: id in d.added ==> id in b
  {
    map id | id in a.Keys + b.Keys && (id in d.added || (id in a && id !in d.removed)) ::
      if id in d.added then FieldsOf(b[id])
      else
        var ch := FindChange(d.changed, id);
        if ch.Some? then ApplyChange(FieldsOf(a[id]), ch.value) else FieldsOf(a[id])
  }

  function AllFields(b: Index): map<string, Compared> {
    map id | id in b :: FieldsOf(b[id])
  }

  lemma ChangeApplies(id: string, a: Contact, b: Contact)
    ensures ApplyChange(FieldsOf(a), ChangeOf(id, a, b)) == FieldsOf(b)
  {
  }

  lemma AddedIn(a: Index, b: Index, ids: seq<string>)
    requires AllIds(ids, a, b)
    ensures forall id :: id in DiffIds(a, b, ids).added ==> id in b
  {
    forall id | id in DiffIds(a, b, ids).added ensures id in b {
      DiffLists(a, b, ids, id);
    }
  }

  lemma PatchedAt(a: Index, b: Index, ids: seq<string>, d: Diff, id: string)
    requires AllIds(ids, a, b) && d == DiffIds(a, b, ids) && forall x :: x in d.added ==> x in b
    ensures id in Patched(a, b, d) <==> id in b
    ensures id in b ==> Patched(a, b, d)[id] == FieldsOf(b[id])
  {
    DiffLists(a, b, ids, id);
    DiffEntries(a, b, ids);
    assert id in Patched(a, b, d) <==> id in d.added || (id in a && id !in d.removed);
    if id in a && id in b {
      ChangeApplies(id, a[id], b[id]);
    }
  }

  /** The difference is a patch: applied to the first map it gives the second on the compared fields. */
  lemma DiffPatches(a: Index, b: Index, ids: seq<string>)
    requires AllIds(ids, a, b)
    ensures forall id :: id in DiffIds(a, b, ids).added ==> id in b
    ensures Patched(a, b, DiffIds(a, b, ids)) == AllFields(b)
  {
    var d := DiffIds(a, b, ids);
    AddedIn(a, b, ids);
    forall id ensures (id in Patched(a, b, d) <==> id in b) && (id in b ==> Patched(a, b, d)[id] == FieldsOf(b[id])) {
      PatchedAt(a, b, ids, d, id);
    }
  }

  // ---------- the other way round ----------

  function FlipDelta(d: Delta): Delta {
    if d.Delta? then Delta(d.now, d.was) else Same
  }

  function FlipChange(ch: Change): Change {
    Change(ch.id, FlipDelta(ch.name), FlipDelta(ch.email), FlipDelta(ch.phone), FlipDelta(ch.note))
  }

  function FlipAll(cs: seq<Change>): seq<Change> {
    seq(|cs|, i requires 0 <= i < |cs| => FlipChange(cs[i]))
  }

  /** Swapping the books swaps added and removed, and old and new in every change. */
  lemma {:induction false} DiffMirror(a: Index, b: Index, ids: seq<string>)
    requires forall x :: x in ids ==> x in a || x in b
    ensures var d := DiffIds(a, b, ids); DiffIds(b, a, ids) == Diff(d.removed, d.added, FlipAll(d.changed))
  {
    if ids != [] {
      var rest, x := ids[..|ids| - 1], ids[|ids| - 1];
      DiffMirror(a, b, rest);
      var d := DiffIds(a, b, rest);
      if Differs(a, b, x) {
        var ch := ChangeOf(x, a[x], b[x]);
        assert FlipAll(d.changed + [ch]) == FlipAll(d.changed) + [FlipChange(ch)];
      }
    }
  }
}
