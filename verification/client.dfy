/**
 * The browser-side mirror of the note list: a module-level list of notes and
 * the id of the note being edited, patched after each request the page makes.
 * Each server answer is an input: an ok response with its parsed JSON, a
 * response whose status is not ok, or an error thrown by the request.
 */
module Client {
  import opened Wrappers
  import opened Text
  import opened Schema
  import opened Collection
  import NotesController

  /** How a request ended. */
  datatype Reply<T> = Ok(data: T) | NotOk | Thrown

  /** The request a save sends: an update of the note being edited, or a create. */
  datatype Request = Put(id: string, title: string, content: string) | Post(title: string, content: string)

  /** JavaScript truthiness of a string that may be null: present and not empty. */
  predicate Truthy(s: Option<string>) {
    s.Some? && s.value != []
  }

  class Mirror {
    var notes: seq<Note>
    var editingNoteId: Option<string>

    /** The page starts with an empty list and nothing being edited. */
    constructor ()
      ensures notes == [] && editingNoteId == None
    {
      notes := [];
      editingNoteId := None;
    }

    /** On page load the list becomes the server's array, or the empty list
        when the response is not ok or the request throws. */
    method Load(reply: Reply<seq<Note>>)
      modifies this`notes
      ensures reply.Ok? ==> notes == reply.data
      ensures !reply.Ok? ==> notes == []
    {
      match reply
      case Ok(data) =>
        notes := data;
      case NotOk =>
        notes := [];
      case Thrown =>
        notes := [];
    }

    /** Opening the dialog for a note marks it as being edited; opening it
        without one clears the marker, so that the next save creates. */
    method OpenNoteDialog(noteId: Option<string>)
      modifies this`editingNoteId
      ensures Truthy(noteId) ==> editingNoteId == noteId
      ensures !Truthy(noteId) ==> editingNoteId == None
    {
      if Truthy(noteId) {
        editingNoteId := noteId;
      } else {
        editingNoteId := None;
      }
    }

    /** Saving sends the trimmed title and content, as an update of the note
        being edited or as a create, and patches the list only when the reply
        is ok: the edited entry is replaced by the returned note, or the created
        note is put in front. A position of -1 (no entry with that id) is not a
        list index, so writing there leaves the list as it was. */
    method SaveNote(titleInput: string, contentInput: string, reply: Reply<Note>)
      returns (sent: Request)
      modifies this`notes
      ensures Truthy(editingNoteId) ==>
        sent == Put(editingNoteId.value, Trim(titleInput), Trim(contentInput))
      ensures !Truthy(editingNoteId) ==> sent == Post(Trim(titleInput), Trim(contentInput))
      ensures !reply.Ok? ==> notes == old(notes)
      ensures reply.Ok? && Truthy(editingNoteId) && HasId(old(notes), editingNoteId.value) ==>
        var k := IndexOfId(old(notes), editingNoteId.value).value;
        notes == old(notes)[k := reply.data]
      ensures reply.Ok? && Truthy(editingNoteId) && !HasId(old(notes), editingNoteId.value) ==>
        notes == old(notes)
      ensures reply.Ok? && !Truthy(editingNoteId) ==> notes == [reply.data] + old(notes)
    {
      var title := Trim(titleInput);
      var content := Trim(contentInput);
      if Truthy(editingNoteId) {
        sent := Put(editingNoteId.value, title, content);
        if !reply.Ok? {
          return;
        }
        match IndexOfId(notes, editingNoteId.value)
        case Some(k) =>
          notes := notes[k := reply.data];
        case None =>
      } else {
        sent := Post(title, content);
        if !reply.Ok? {
          return;
        }
        notes := [reply.data] + notes;
      }
    }

    /** A confirmed delete filters out every entry with that id; any other
        outcome leaves the list as it was. */
    method DeleteNote(noteId: string, reply: Reply<()>)
      modifies this`notes
      ensures reply.Ok? ==> notes == RemoveId(old(notes), noteId)
      ensures !reply.Ok? ==> notes == old(notes)
    {
      if reply.Ok? {
        notes := RemoveId(notes, noteId);
      }
    }
  }

  /** The page trims before it sends: trimmed text passes the server's validation
      exactly when the raw input would, with the same message. (That the server's
      own trimming then leaves the text as sent is Text.TrimIdempotent.) */
  lemma SentTextValidatesAsTyped(titleInput: string, contentInput: string)
    ensures NotesController.Validate(Some(Trim(titleInput)), Some(Trim(contentInput)))
         == NotesController.Validate(Some(titleInput), Some(contentInput))
  {
  }

  /** The trimmed text is blank exactly when the raw text is. */
  lemma TrimmedBlankIff(s: string)
    ensures Blank(Trim(s)) <==> Blank(s)
  {
  }

}
