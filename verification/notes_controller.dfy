/**
 * The note store's HTTP handlers: list, create, update and delete over the
 * persisted collection, each answering with a status code and a JSON body.
 * The collection is held as the sequence of its records in natural (insertion)
 * order. The generated id and the occurrence of a persistence fault are inputs.
 */
module NotesController {
  import opened Wrappers
  import opened Text
  import opened Schema
  import opened Collection

  /** The JSON bodies the handlers send. */
  datatype Body = NoteJson(note: Note) | NoteArray(notes: seq<Note>) | Message(text: string)

  datatype Response = Response(status: nat, body: Body)

  const TitleRequired := "Title is required"
  const ContentRequired := "Content is required"
  const NotFound := "Note not found"
  const Deleted := "Note deleted successfully"
  const FetchFailed := "Error fetching notes"
  const CreateFailed := "Error creating note"
  const UpdateFailed := "Error updating note"
  const DeleteFailed := "Error deleting note"

  /** A request field that passes validation: sent, and not blank. */
  predicate Present(field: Option<string>) {
    field.Some? && !Blank(field.value)
  }

  /** The rejection test `!field || field.trim() === ""`: absent, empty, or
      nothing left after trimming. */
  predicate Missing(field: Option<string>) {
    field.None? || field.value == [] || Trim(field.value) == []
  }

  /** The validation shared by create and update: the message of the first
      failing field, title before content, or None when both pass. */
  function Validate(title: Option<string>, content: Option<string>): (err: Option<string>)
    ensures err == None <==> Present(title) && Present(content)
    ensures err == Some(TitleRequired) <==> !Present(title)
    ensures err == Some(ContentRequired) <==> Present(title) && !Present(content)
  {
    if Missing(title) then Some(TitleRequired)
    else if Missing(content) then Some(ContentRequired)
    else None
  }

  /** A record whose title and content carry no surrounding white space, as the
      handlers store them. */
  predicate Normalized(n: Note) {
    Unpadded(n.title) && Unpadded(n.content)
  }

  predicate AllNormalized(notes: seq<Note>) {
    forall n | n in notes :: Normalized(n)
  }

  /** Overwriting one record with a normalized one keeps the collection normalized. */
  lemma ReplaceKeepsNormalized(notes: seq<Note>, k: nat, n: Note)
    requires k < |notes| && AllNormalized(notes) && Normalized(n)
    ensures AllNormalized(notes[k := n])
  {
  }

  /** The persisted note collection. */
  class NoteStore {
    var notes: seq<Note>

    ghost predicate Valid()
      reads this
    {
      ValidCollection(notes)
    }

    constructor ()
      ensures Valid() && notes == []
    {
      notes := [];
    }

    /** GET /: every stored note in store order, or 500 on a fault. */
    method GetNotes(fault: bool) returns (res: Response)
      ensures fault ==> res == Response(500, Message(FetchFailed))
      ensures !fault ==> res == Response(200, NoteArray(notes))
    {
      if fault {
        return Response(500, Message(FetchFailed));
      }
      res := Response(200, NoteArray(notes));
    }

    /** POST /: validate, then store a note with the given id and the trimmed
        title and content. A fault, or an id the schema refuses (empty, or
        already taken under the unique index), fails the save with 500. */
    method CreateNote(title: Option<string>, content: Option<string>, id: string, fault: bool)
      returns (res: Response)
      requires Valid()
      modifies this
      ensures Valid()
      ensures Validate(title, content).Some? ==>
        res == Response(400, Message(Validate(title, content).value)) && notes == old(notes)
      ensures Validate(title, content).None? && (fault || id == [] || HasId(old(notes), id)) ==>
        res == Response(500, Message(CreateFailed)) && notes == old(notes)
      ensures Validate(title, content).None? && !fault && id != [] && !HasId(old(notes), id) ==>
        var n := Note(id, Trim(title.value), Trim(content.value), None);
        res == Response(201, NoteJson(n)) && notes == old(notes) + [n]
      ensures AllNormalized(old(notes)) ==> AllNormalized(notes)
    {
      var err := Validate(title, content);
      if err.Some? {
        return Response(400, Message(err.value));
      }
      var note := Note(id, Trim(title.value), Trim(content.value), None);
      if fault || !Required(note) || IndexOfId(notes, id).Some? {
        return Response(500, Message(CreateFailed));
      }
      AppendValid(notes, note);
      notes := notes + [note];
      res := Response(201, NoteJson(note));
    }

    /** PUT /:id: the same validation, then overwrite the title and content of
        the note with that id, keeping its id, owner and position. */
    method UpdateNote(id: string, title: Option<string>, content: Option<string>, fault: bool)
      returns (res: Response)
      requires Valid()
      modifies this
      ensures Valid()
      ensures Validate(title, content).Some? ==>
        res == Response(400, Message(Validate(title, content).value)) && notes == old(notes)
      ensures Validate(title, content).None? && fault ==>
        res == Response(500, Message(UpdateFailed)) && notes == old(notes)
      ensures Validate(title, content).None? && !fault && !HasId(old(notes), id) ==>
        res == Response(404, Message(NotFound)) && notes == old(notes)
      ensures Validate(title, content).None? && !fault && HasId(old(notes), id) ==>
        var k := IndexOfId(old(notes), id).value;
        var n := old(notes)[k].(title := Trim(title.value), content := Trim(content.value));
        res == Response(200, NoteJson(n)) && notes == old(notes)[k := n]
      ensures AllNormalized(old(notes)) ==> AllNormalized(notes)
    {
      var err := Validate(title, content);
      if err.Some? {
        return Response(400, Message(err.value));
      }
      if fault {
        return Response(500, Message(UpdateFailed));
      }
      match IndexOfId(notes, id)
      case None =>
        res := Response(404, Message(NotFound));
      case Some(k) =>
        var note := notes[k].(title := Trim(title.value), content := Trim(content.value));
        if AllNormalized(notes) {
          ReplaceKeepsNormalized(notes, k, note);
        }
        ghost var before := notes;
        notes := notes[k := note];
        assert forall j | 0 <= j < |notes| :: notes[j].id == before[j].id && Required(notes[j]);
        res := Response(200, NoteJson(note));
    }

    /** DELETE /:id: remove the note with that id and answer with a confirmation. */
    method DeleteNote(id: string, fault: bool) returns (res: Response)
      requires Valid()
      modifies this
      ensures Valid()
      ensures fault ==>
        res == Response(500, Message(DeleteFailed)) && notes == old(notes)
      ensures !fault && !HasId(old(notes), id) ==>
        res == Response(404, Message(NotFound)) && notes == old(notes)
      ensures !fault && HasId(old(notes), id) ==>
        res == Response(200, Message(Deleted)) && notes == RemoveId(old(notes), id)
        && |notes| == |old(notes)| - 1
      ensures AllNormalized(old(notes)) ==> AllNormalized(notes)
    {
      if fault {
        return Response(500, Message(DeleteFailed));
      }
      match IndexOfId(notes, id)
      case None =>
        res := Response(404, Message(NotFound));
      case Some(k) =>
        RemoveIdAt(notes, k);
        RemoveIdPreservesValid(notes, id);
        notes := notes[..k] + notes[k + 1..];
        res := Response(200, Message(Deleted));
    }
  }

}
