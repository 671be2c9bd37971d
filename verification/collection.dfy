/**
 * Queries by id over an ordered list of notes, shared by the store and the
 * browser mirror: finding the position of the note with a given id, and
 * filtering out every note with a given id.
 */
module Collection {
  import opened Wrappers
  import opened Schema

  /** The position of the first note whose id is `id`, or None when there is none. */
  function IndexOfId(notes: seq<Note>, id: string): (r: Option<nat>)
    ensures r.None? <==> !HasId(notes, id)
    ensures r.Some? ==> r.value < |notes| && notes[r.value].id == id
    ensures r.Some? ==> forall j | 0 <= j < r.value :: notes[j].id != id
  {
    if notes == [] then None
    else if notes[0].id == id then Some(0)
    else
      match IndexOfId(notes[1..], id)
      case None =>
        assert forall j | 1 <= j < |notes| :: notes[j] == notes[1..][j - 1];
        None
      case Some(k) => Some(k + 1)
  }

  /** In a collection with unique ids, the note at position k is the one found by its id. */
  lemma IndexOfIdUnique(notes: seq<Note>, k: nat)
    requires UniqueIds(notes) && k < |notes|
    ensures IndexOfId(notes, notes[k].id) == Some(k)
  {
  }

  /** The notes whose id differs from `id`, in their original order. */
  function RemoveId(notes: seq<Note>, id: string): (r: seq<Note>)
    ensures |r| <= |notes|
    ensures forall i | 0 <= i < |r| :: r[i].id != id
  {
    if notes == [] then []
    else if notes[0].id == id then RemoveId(notes[1..], id)
    else [notes[0]] + RemoveId(notes[1..], id)
  }

  /** Filtering keeps exactly the notes that do not carry the id. */
  lemma {:induction false} RemoveIdMembers(notes: seq<Note>, id: string)
    ensures forall n :: n in RemoveId(notes, id) <==> n in notes && n.id != id
  {
    if notes != [] {
      RemoveIdMembers(notes[1..], id);
      assert forall n :: n in notes <==> n == notes[0] || n in notes[1..];
    }
  }

  /** Filtering works piecewise: it keeps the relative order of what it keeps. */
  lemma {:induction false} RemoveIdAppend(a: seq<Note>, b: seq<Note>, id: string)
    ensures RemoveId(a + b, id) == RemoveId(a, id) + RemoveId(b, id)
  {
    if a == [] {
      assert a + b == b;
    } else {
      assert (a + b)[0] == a[0];
      assert (a + b)[1..] == a[1..] + b;
      RemoveIdAppend(a[1..], b, id);
    }
  }

  /** Filtering out an id nobody carries changes nothing. */
  lemma {:induction false} RemoveIdAbsent(notes: seq<Note>, id: string)
    requires forall i | 0 <= i < |notes| :: notes[i].id != id
    ensures RemoveId(notes, id) == notes
  {
    if notes != [] {
      assert notes[0].id != id;
      RemoveIdAbsent(notes[1..], id);
      assert notes == [notes[0]] + notes[1..];
    }
  }

  /** Filtering out the id of the last note drops that note. */
  lemma RemoveIdLast(before: seq<Note>, x: Note)
    ensures RemoveId(before + [x], x.id) == RemoveId(before, x.id)
  {
    RemoveIdAppend(before, [x], x.id);
    assert RemoveId([x], x.id) == [] by {
      assert [x][1..] == [];
    }
  }

  /** Filtering out the id of the one note that carries it removes that note. */
  lemma RemoveIdSplit(before: seq<Note>, x: Note, after: seq<Note>)
    requires forall i | 0 <= i < |before| :: before[i].id != x.id
    requires forall i | 0 <= i < |after| :: after[i].id != x.id
    ensures RemoveId(before + [x] + after, x.id) == before + after
  {
    RemoveIdAppend(before + [x], after, x.id);
    RemoveIdLast(before, x);
    RemoveIdAbsent(before, x.id);
    RemoveIdAbsent(after, x.id);
  }

  /** With unique ids, filtering out the id of the note at position k removes that
      note and only that note. */
  lemma RemoveIdAt(notes: seq<Note>, k: nat)
    requires UniqueIds(notes) && k < |notes|
    ensures RemoveId(notes, notes[k].id) == notes[..k] + notes[k + 1..]
  {
    var before, after := notes[..k], notes[k + 1..];
    forall i | 0 <= i < |before| ensures before[i].id != notes[k].id {
      assert before[i] == notes[i];
    }
    forall i | 0 <= i < |after| ensures after[i].id != notes[k].id {
      assert after[i] == notes[k + 1 + i];
    }
    assert notes == before + [notes[k]] + after;
    RemoveIdSplit(before, notes[k], after);
  }

  /** Filtering keeps a collection valid: what is kept is still required and
      still has unique ids. */
  lemma {:induction false} RemoveIdPreservesValid(notes: seq<Note>, id: string)
    requires ValidCollection(notes)
    ensures ValidCollection(RemoveId(notes, id))
  {
    if notes != [] {
      var rest := notes[1..];
      assert ValidCollection(rest) by {
        forall i, j | 0 <= i < j < |rest| ensures rest[i].id != rest[j].id {
          assert rest[i] == notes[i + 1] && rest[j] == notes[j + 1];
        }
      }
      RemoveIdPreservesValid(rest, id);
      if notes[0].id != id {
        var r := RemoveId(rest, id);
        RemoveIdMembers(rest, id);
        forall j | 0 <= j < |r| ensures r[j].id != notes[0].id {
          assert r[j] in rest;
        }
        assert RemoveId(notes, id) == [notes[0]] + r;
      }
    }
  }


  /** Filtering drops every copy of a note that carries the id and keeps every
      copy of the others. */
  lemma {:induction false} RemoveIdCounts(notes: seq<Note>, id: string)
    ensures forall n :: multiset(RemoveId(notes, id))[n] == if n.id == id then 0 else multiset(notes)[n]
  {
    if notes != [] {
      RemoveIdCounts(notes[1..], id);
      assert notes == [notes[0]] + notes[1..];
    }
  }

  /** Two lists holding the same notes, in any order, still hold the same notes
      once the same id is filtered out of both. */
  lemma RemoveIdSameContents(a: seq<Note>, b: seq<Note>, id: string)
    requires multiset(a) == multiset(b)
    ensures multiset(RemoveId(a, id)) == multiset(RemoveId(b, id))
  {
    RemoveIdCounts(a, id);
    RemoveIdCounts(b, id);
    assert forall n :: multiset(RemoveId(a, id))[n] == multiset(RemoveId(b, id))[n];
  }

  /** Overwriting position k swaps one copy of the old note for the new one. */
  lemma ReplaceAtContents(notes: seq<Note>, k: nat, n: Note)
    requires k < |notes|
    ensures multiset(notes[k := n]) == multiset(notes) - multiset{notes[k]} + multiset{n}
  {
  }

  /** When a second list holds the same notes as a collection with unique ids,
      looking an id up in either finds the same note. */
  lemma SameNoteForId(other: seq<Note>, notes: seq<Note>, id: string)
    requires multiset(other) == multiset(notes) && UniqueIds(notes) && HasId(notes, id)
    ensures HasId(other, id)
    ensures other[IndexOfId(other, id).value] == notes[IndexOfId(notes, id).value]
  {
    var k := IndexOfId(notes, id).value;
    assert notes[k] in multiset(other);
    var j :| 0 <= j < |other| && other[j] == notes[k];
    assert HasId(other, id);
    var m := IndexOfId(other, id).value;
    assert other[m] in multiset(notes);
    var j2 :| 0 <= j2 < |notes| && notes[j2] == other[m];
    IndexOfIdUnique(notes, j2);
  }

  /** Two lists holding the same notes, the second with unique ids, still hold the
      same notes after each overwrites the note it finds for an id with the same
      new note. */
  lemma ReplaceByIdSameContents(other: seq<Note>, notes: seq<Note>, id: string, n: Note)
    requires multiset(other) == multiset(notes) && UniqueIds(notes) && HasId(notes, id)
    ensures HasId(other, id)
    ensures multiset(other[IndexOfId(other, id).value := n])
         == multiset(notes[IndexOfId(notes, id).value := n])
  {
    SameNoteForId(other, notes, id);
    ReplaceAtContents(other, IndexOfId(other, id).value, n);
    ReplaceAtContents(notes, IndexOfId(notes, id).value, n);
  }

}
