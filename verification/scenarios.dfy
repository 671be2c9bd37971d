/**
 * Client programs of the model. CrudLifecycle and ListAfterCreates follow the
 * repository's integration tests against a fresh store. MirrorFollowsStore,
 * LoadFromStore, SaveThroughStore and DeleteThroughStore follow the page's load,
 * save and delete flow: the page sends a request, the store answers it, and the
 * page takes the answer. The last three run against any valid store.
 */
module Scenarios {
  import opened Wrappers
  import opened Text
  import opened Schema
  import opened NotesController
  import Client

  /** Create, read, update and delete one note, then delete it a second time. */
  method CrudLifecycle(id: string, title: string, content: string, title2: string, content2: string)
    returns (created: Response, listed: Response, updated: Response, deleted: Response,
             final: Response, deletedAgain: Response)
    requires id != []
    requires !Blank(title) && !Blank(content) && !Blank(title2) && !Blank(content2)
    ensures created == Response(201, NoteJson(Note(id, Trim(title), Trim(content), None)))
    ensures listed == Response(200, NoteArray([Note(id, Trim(title), Trim(content), None)]))
    ensures updated == Response(200, NoteJson(Note(id, Trim(title2), Trim(content2), None)))
    ensures deleted == Response(200, Message(Deleted))
    ensures final == Response(200, NoteArray([]))
    ensures deletedAgain == Response(404, Message(NotFound))
  {
    var store := new NoteStore();
    created := store.CreateNote(Some(title), Some(content), id, false);
    var first := Note(id, Trim(title), Trim(content), None);
    assert store.notes == [first];
    listed := store.GetNotes(false);
    assert HasId(store.notes, id) by { assert store.notes[0].id == id; }
    updated := store.UpdateNote(id, Some(title2), Some(content2), false);
    var second := Note(id, Trim(title2), Trim(content2), None);
    assert store.notes == [second];
    deleted := store.DeleteNote(id, false);
    assert store.notes == [] by { assert Collection.RemoveId([second], id) == []; }
    final := store.GetNotes(false);
    deletedAgain := store.DeleteNote(id, false);
  }

  /** Creating notes one after another, each with a fresh id, then listing:
      the list holds exactly the created notes, in the order they were created. */
  method ListAfterCreates(titles: seq<string>, contents: seq<string>, ids: seq<string>)
    returns (res: Response)
    requires |titles| == |contents| == |ids|
    requires forall i | 0 <= i < |ids| :: ids[i] != [] && !Blank(titles[i]) && !Blank(contents[i])
    requires forall i, j | 0 <= i < j < |ids| :: ids[i] != ids[j]
    ensures res.status == 200 && res.body.NoteArray?
    ensures |res.body.notes| == |ids|
    ensures forall i | 0 <= i < |ids| ::
      res.body.notes[i] == Note(ids[i], Trim(titles[i]), Trim(contents[i]), None)
  {
    var store := new NoteStore();
    for i := 0 to |ids|
      invariant store.Valid()
      invariant |store.notes| == i
      invariant forall j | 0 <= j < i ::
        store.notes[j] == Note(ids[j], Trim(titles[j]), Trim(contents[j]), None)
    {
      assert !HasId(store.notes, ids[i]) by {
        forall j | 0 <= j < i ensures store.notes[j].id != ids[i] {
          assert store.notes[j].id == ids[j];
        }
      }
      var created := store.CreateNote(Some(titles[i]), Some(contents[i]), ids[i], false);
    }
    res := store.GetNotes(false);
  }

  /** On a fresh store, a page that loaded the store's list holds the same list
      as the store after a create, an edit and a delete, feeding each server
      answer back to the page. */
  method MirrorFollowsStore(id: string, title: string, content: string, title2: string, content2: string)
    returns (afterCreate: seq<Note>, afterEdit: seq<Note>, afterDelete: seq<Note>,
             storedAfterCreate: seq<Note>, storedAfterEdit: seq<Note>, storedAfterDelete: seq<Note>)
    requires id != []
    requires !Blank(title) && !Blank(content) && !Blank(title2) && !Blank(content2)
    ensures afterCreate == storedAfterCreate == [Note(id, Trim(title), Trim(content), None)]
    ensures afterEdit == storedAfterEdit == [Note(id, Trim(title2), Trim(content2), None)]
    ensures afterDelete == storedAfterDelete == []
  {
    var store := new NoteStore();
    var page := new Client.Mirror();
    var listed := store.GetNotes(false);
    page.Load(Client.Ok(listed.body.notes));

    // The server handles the request the page sends; its answer is the page's reply.
    page.OpenNoteDialog(None);
    Client.SentTextValidatesAsTyped(title, content);
    TrimIdempotent(title);
    TrimIdempotent(content);
    var created := store.CreateNote(Some(Trim(title)), Some(Trim(content)), id, false);
    var sent := page.SaveNote(title, content, Client.Ok(created.body.note));
    assert sent == Client.Post(Trim(title), Trim(content));
    assert store.notes == [Note(id, Trim(title), Trim(content), None)];
    assert page.notes == store.notes;
    afterCreate, storedAfterCreate := page.notes, store.notes;

    page.OpenNoteDialog(Some(id));
    var first := Note(id, Trim(title), Trim(content), None);
    assert page.notes == [first];
    assert Collection.IndexOfId(page.notes, id) == Some(0);
    assert HasId(store.notes, id) by { assert store.notes[0].id == id; }
    Client.SentTextValidatesAsTyped(title2, content2);
    TrimIdempotent(title2);
    TrimIdempotent(content2);
    var edited := store.UpdateNote(id, Some(Trim(title2)), Some(Trim(content2)), false);
    sent := page.SaveNote(title2, content2, Client.Ok(edited.body.note));
    assert sent == Client.Put(id, Trim(title2), Trim(content2));
    var second := Note(id, Trim(title2), Trim(content2), None);
    assert edited == Response(200, NoteJson(second));
    assert store.notes == [second];
    assert page.notes == [first][0 := second];
    afterEdit, storedAfterEdit := page.notes, store.notes;

    var removed := store.DeleteNote(id, false);
    page.DeleteNote(id, Client.Ok(()));
    assert store.notes == [] by { assert Collection.RemoveId([second], id) == []; }
    assert page.notes == store.notes;
    afterDelete, storedAfterDelete := page.notes, store.notes;
  }

  /** How fetch reports a store answer carrying a note: ok for a 2xx status. */
  function NoteReply(res: Response): Client.Reply<Note> {
    if 200 <= res.status < 300 && res.body.NoteJson? then Client.Ok(res.body.note) else Client.NotOk
  }

  /** How fetch reports a store answer to a delete: ok for a 2xx status. */
  function DoneReply(res: Response): Client.Reply<()> {
    if 200 <= res.status < 300 then Client.Ok(()) else Client.NotOk
  }

  /** Loading the page from any store: a successful list gives the page exactly
      the store's notes; a failed one leaves the page empty. */
  method LoadFromStore(store: NoteStore, page: Client.Mirror, fault: bool)
    modifies page`notes
    ensures !fault ==> page.notes == store.notes
    ensures fault ==> page.notes == []
  {
    var listed := store.GetNotes(fault);
    page.Load(if listed.status == 200 then Client.Ok(listed.body.notes) else Client.NotOk);
  }

  /** One save from a page that holds the same notes as the store (in any order):
      the page sends its request, the store answers it, and the page takes the
      answer. Whatever the outcome, the page and the store still hold the same
      notes. A create puts the new note at the end of the store and at the front
      of the page, so the order may differ. */
  method SaveThroughStore(store: NoteStore, page: Client.Mirror, titleInput: string, contentInput: string,
                          newId: string, fault: bool)
    returns (res: Response)
    requires store.Valid() && multiset(page.notes) == multiset(store.notes)
    modifies store, page`notes
    ensures store.Valid() && multiset(page.notes) == multiset(store.notes)
  {
    var title, content := Some(Trim(titleInput)), Some(Trim(contentInput));
    if Client.Truthy(page.editingNoteId) {
      var id := page.editingNoteId.value;
      if HasId(store.notes, id) {
        var k := Collection.IndexOfId(store.notes, id).value;
        var n := store.notes[k].(title := Trim(title.value), content := Trim(content.value));
        Collection.ReplaceByIdSameContents(page.notes, store.notes, id, n);
      }
      res := store.UpdateNote(id, title, content, fault);
    } else {
      res := store.CreateNote(title, content, newId, fault);
    }
    var sent := page.SaveNote(titleInput, contentInput, NoteReply(res));
  }

  /** One delete from a page that holds the same notes as the store: whatever the
      store answers, the page and the store still hold the same notes. */
  method DeleteThroughStore(store: NoteStore, page: Client.Mirror, id: string, fault: bool)
    returns (res: Response)
    requires store.Valid() && multiset(page.notes) == multiset(store.notes)
    modifies store, page`notes
    ensures store.Valid() && multiset(page.notes) == multiset(store.notes)
  {
    Collection.RemoveIdSameContents(page.notes, store.notes, id);
    res := store.DeleteNote(id, fault);
    page.DeleteNote(id, DoneReply(res));
  }

}
