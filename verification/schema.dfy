/**
 * The note record and the constraints the collection schema places on it: a
 * unique, required id, a required title and content, an optional owner that is
 * never checked. A required String field rejects the empty string.
 */
module Schema {
  import opened Wrappers

  datatype Note = Note(id: string, title: string, content: string, userId: Option<string>)

  /** The three required fields are present, that is, non-empty strings. */
  predicate Required(n: Note) {
    n.id != [] && n.title != [] && n.content != []
  }

  /** The unique index on id: no two records share one. */
  predicate UniqueIds(notes: seq<Note>) {
    forall i, j | 0 <= i < j < |notes| :: notes[i].id != notes[j].id
  }

  /** What the schema guarantees of every stored collection. */
  predicate ValidCollection(notes: seq<Note>) {
    && UniqueIds(notes)
    && forall i | 0 <= i < |notes| :: Required(notes[i])
  }

  /** Some record carries this id. */
  predicate HasId(notes: seq<Note>, id: string) {
    exists i | 0 <= i < |notes| :: notes[i].id == id
  }

  /** The schema's save rule: appending a record to a valid collection keeps it
      valid exactly when the record's required fields are present and its id is
      not already taken. */
  lemma AppendValid(notes: seq<Note>, n: Note)
    requires ValidCollection(notes)
    ensures ValidCollection(notes + [n]) <==> Required(n) && !HasId(notes, n.id)
  {
    var all := notes + [n];
    assert all[|notes|] == n;
    if HasId(notes, n.id) {
      var i :| 0 <= i < |notes| && notes[i].id == n.id;
      assert all[i].id == all[|notes|].id;
    } else if Required(n) {
      forall i, j | 0 <= i < j < |all| ensures all[i].id != all[j].id {
        assert all[i] == notes[i];
        if j < |notes| {
          assert all[j] == notes[j];
        }
      }
      forall i | 0 <= i < |all| ensures Required(all[i]) {
        if i < |notes| {
          assert all[i] == notes[i];
        }
      }
    }
  }

}
