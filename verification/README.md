# Notes manager: note store and browser mirror

A Dafny model of the core of a small personal notes web application. It covers two parts.

- **The note store API.** Four HTTP handlers (list, create, update, delete) act on a persisted collection of note records. Each record has an `id`, a `title`, a `content` and an optional `userId`. Create and update first check that title and content are present and not blank once trimmed. Title is checked before content. Then they store the trimmed text. Update and delete address a note by its `id`. Every handler answers with a status code and a JSON body.
- **The browser mirror.** The page keeps its own list of notes and the id of the note being edited. It loads the list from the server and patches it after each confirmed create, edit or delete. When a request fails, the list stays as it was.

Modules, one per source file or shared concern:

- `Text` (`text.dfy`): JavaScript's `String.prototype.trim`. It removes leading and trailing characters of the ECMAScript WhiteSpace and LineTerminator productions.
- `Schema` (`schema.dfy`): the `Note` record and the collection invariant, from `models/schema.js`. Ids are required and unique. Title and content are required.
- `Collection` (`collection.dfy`): lookup by id (the page's `findIndex`, and the store's `findOneAndUpdate`) and filtering by id (the page's `filter`, and the store's `findOneAndDelete`). The store and the mirror both use them.
- `NotesController` (`notes_controller.dfy`): validation and the class `NoteStore`, which holds the collection as a `seq<Note>` in natural (insertion) order. Its methods are the handlers of `controllers/notesController.js`, routed as GET `/`, POST `/`, PUT `/:id` and DELETE `/:id`.
- `Client` (`client.dfy`): the class `Mirror`, with the page's `notes` and `editingNoteId` as fields, from `public/app.js`.
- `Scenarios` (`scenarios.dfy`): client programs. `CrudLifecycle` and `ListAfterCreates` follow the repository's integration tests. The others follow the page's load, save and delete flow in `public/app.js`, run against a `NoteStore`.

Inputs that come from outside the model:

- The id a create assigns comes from the clock in the source. Here it is a parameter.
- Whether the persistence layer fails is a boolean parameter (`fault`). A fault gives the 500 answer of each handler.
- Each server answer to the page is a `Reply`: `Ok` with the parsed JSON, `NotOk` for a status that is not ok, or `Thrown` for an error raised by the request.

A `required` String field in the schema rejects the empty string. A create whose generated id is empty, or collides with a stored id under the unique index, therefore fails through the same 500 path as a fault.

The update handler passes `updatedAt: new Date()` (controllers/notesController.js:62), but the schema does not declare that field, so the stored record does not keep it. The model stores no timestamp.

## Model

| member | source | states |
|---|---|---|
| `Schema.ValidCollection` | models/schema.js:3-8 | The constraints the schema puts on every stored collection. Ids are unique under the index. Id, title and content are required, which for a String field means not empty. The owner `userId` is optional and never checked. |
| `Schema.AppendValid` | models/schema.js:3-8 | The schema's save rule. A record can be added to a valid collection, and the collection stays valid, exactly when the record's id, title and content are all non-empty and no stored record has its id. |
| `NotesController.NoteStore.constructor` | models/schema.js:3-8 | The store starts as an empty collection, which meets the schema's constraints. |
| `Client.Truthy` | public/app.js:38 | JavaScript truthiness of a marker that may be null, as tested at lines 38 and 158. It holds for a non-empty string. It fails for null and for the empty string. |
| `Text.Trim` | controllers/notesController.js:35-36 | The trimmed text is empty exactly when the input is blank (only white space). Otherwise it neither starts nor ends with white space, and it is no longer than the input. |
| `Text.TrimIsSlice` | controllers/notesController.js:35-36 | The input is a blank leading margin, then the trimmed text, then a blank trailing margin. Trimming only removes the margins. |
| `Text.TrimStripsMargins` | controllers/notesController.js:35-36 | Any white space put around text that has none at its ends is removed again by trimming, and the text comes back unchanged. Together with `TrimIsSlice`, this determines `Trim` completely. |
| `Text.TrimIdempotent` | public/app.js:28-29 | Trimming twice gives the same result as trimming once. The page trims before it sends, and the server trims again. |
| `NotesController.Validate` | controllers/notesController.js:23-30 | Gives "Title is required" exactly when the title is absent or blank, whatever the content is. Gives "Content is required" exactly when the title passes and the content is absent or blank. Gives no error exactly when both pass. |
| `NotesController.NoteStore.GetNotes` | controllers/notesController.js:10-17 | On a fault, answers 500 "Error fetching notes". Otherwise answers 200 with every stored note in store order. An empty store gives an empty array. |
| `NotesController.NoteStore.CreateNote` | controllers/notesController.js:20-43 | A validation failure answers 400 with the validation message and leaves the store unchanged, even when a fault would have happened. A fault, an empty id or an id already stored answers 500 "Error creating note" and adds nothing. Otherwise the store gains exactly one note at the end. That note has the given id, the trimmed title and content, and no owner. The answer is 201 with that note. The store stays valid, and it stays normalized if it was. |
| `NotesController.NoteStore.UpdateNote` | controllers/notesController.js:46-72 | Validation is the same as for create, with the same messages and order, and it happens before any lookup. A fault answers 500 "Error updating note". An unknown id answers 404 "Note not found". In these cases the store is unchanged. Otherwise only the note with that id changes: it gets the trimmed title and content, and keeps its id, owner and position. The answer is 200 with the updated note. The store stays valid. |
| `NotesController.NoteStore.DeleteNote` | controllers/notesController.js:75-87 | A fault answers 500 "Error deleting note". An unknown id answers 404 "Note not found". In both cases the store is unchanged. Otherwise the store becomes the old store without the notes carrying that id, which is exactly one note, and the answer is 200 "Note deleted successfully". |
| `NotesController.ReplaceKeepsNormalized` | controllers/notesController.js:60-63 | Overwriting one record with a record whose text has no surrounding white space keeps every record of the collection that way. |
| `Collection.IndexOfId` | public/app.js:50 | Finds nothing exactly when no note has the id. Otherwise it gives the first position whose note has that id. |
| `Collection.IndexOfIdUnique` | models/schema.js:4 | With unique ids, looking up the id of the note at position k finds position k. `SameNoteForId` relies on it. |
| `Collection.RemoveId` | public/app.js:99 | No note in the result has the removed id, and the result is no longer than the input. |
| `Collection.RemoveIdMembers` | public/app.js:99 | A note is in the result exactly when it is in the input and its id is not the removed one. |
| `Collection.RemoveIdAppend` | public/app.js:99 | Filtering a concatenation gives the concatenation of the filtered parts, so the kept notes keep their relative order. |
| `Collection.RemoveIdAbsent` | public/app.js:98-99 | Filtering out an id that no note carries leaves the list unchanged. |
| `Collection.RemoveIdLast` | public/app.js:99 | Filtering out the id of a list's last note gives the same result as filtering the list without that note. |
| `Collection.RemoveIdSplit` | controllers/notesController.js:79 | When exactly one note carries an id, filtering that id out removes that note and keeps the notes around it in order. |
| `Collection.RemoveIdAt` | controllers/notesController.js:79 | With unique ids, filtering out the id of the note at position k removes that note and no other. This is the store's single-record delete. |
| `Collection.RemoveIdPreservesValid` | models/schema.js:4-6 | Filtering a valid collection gives a valid collection: ids stay required and unique, and title and content stay required. |
| `Collection.RemoveIdCounts` | public/app.js:99 | Filtering drops every copy of a note that carries the id and keeps every copy of every other note. |
| `Collection.RemoveIdSameContents` | public/app.js:98-99 | Two lists that hold the same notes in any order still do after the same id is filtered out of both. |
| `Collection.ReplaceAtContents` | public/app.js:50-51 | Overwriting position k swaps one copy of the old note for the new note, and leaves every other note as it was. |
| `Collection.SameNoteForId` | public/app.js:50 | Take a list that holds the same notes as a collection with unique ids. If the collection has a note with a given id, so does the list, and looking up that id in either finds the same note. |
| `Collection.ReplaceByIdSameContents` | public/app.js:50-51 | Take a list that holds the same notes as a collection with unique ids. Each overwrites the note it finds for an id with the same new note. Afterwards they still hold the same notes. |
| `Client.Mirror.constructor` | public/app.js:1-2 | The page starts with an empty list and no note being edited. |
| `Client.Mirror.Load` | public/app.js:8-22 | The list becomes the server's array when the reply is ok. It becomes the empty list when the status is not ok or the request throws. |
| `Client.Mirror.OpenNoteDialog` | public/app.js:153-171 | Opening the dialog with a non-empty id marks that id as being edited. Opening it without one clears the marker, so the next save creates. |
| `Client.Mirror.SaveNote` | public/app.js:25-84 | Sends the trimmed title and content. The request is a PUT for the note being edited, or a POST when no note is. When the reply is not ok, or the request throws, the list is unchanged. In edit mode with an ok reply, the entry found for the edited id is replaced by the returned note, and the length and all other entries are unchanged. If no entry has that id, the list is unchanged. In add mode with an ok reply, the returned note is put in front. |
| `Client.Mirror.DeleteNote` | public/app.js:92-107 | With an ok reply, every entry with that id is removed and the rest keep their order. Otherwise the list is unchanged. |
| `Client.SentTextValidatesAsTyped` | public/app.js:28-29 | The trimmed text the page sends passes the server's validation exactly when the raw input would, with the same message. |
| `Client.TrimmedBlankIff` | controllers/notesController.js:24 | The trimmed text is blank exactly when the raw text is. |
| `Scenarios.CrudLifecycle` | test/integration.test.js:13-59 | On a fresh store, the answers are as follows. Create answers 201 with the trimmed note. List answers 200 with exactly that note. Update answers 200 with the new text. Delete answers 200. List then answers 200 with an empty array. A second delete of the same id is a step added to the test, and it answers 404, as test/routes/notesRouter.test.js:150-152 expects for an unknown id. |
| `Scenarios.ListAfterCreates` | test/integration.test.js:61-78 | After N valid creates with distinct ids on a fresh store, the list answers 200 with exactly N notes, in creation order, each with its id and trimmed text. |
| `Scenarios.MirrorFollowsStore` | public/app.js:37-72 | Starting from a fresh store, a page that loaded the store's list and is fed each server answer holds exactly the store's list after a create, an edit and a delete. The lists are the one created note, then the edited note, then nothing. |
| `Scenarios.LoadFromStore` | public/app.js:8-22 | A page that loads from any store holds exactly the store's notes, in store order, when the list request succeeds. It holds the empty list when the request fails. |
| `Scenarios.SaveThroughStore` | public/app.js:37-72 | Start with a page that holds the same notes as a valid store, in any order. The page sends a save, either an edit or a create depending on its marker. The store answers it, and the page takes the answer, where ok means a 2xx status. Afterwards the store is still valid and the two still hold the same notes, whatever the outcome: 400, 404, 500, 200 or 201. |
| `Scenarios.DeleteThroughStore` | public/app.js:92-107 | Start with a page that holds the same notes as a valid store. The store answers a delete, and the page takes the answer. Afterwards the store is still valid and the two still hold the same notes, whatever the outcome. |

## Left out

- The HTTP layer and the routing table (`routes/notesRouter.js`) are not modelled. They are reflected only in the handler names.
- The database connection, sessions, authentication, password hashing and view rendering (`server.js`, `controllers/authController.js`, `routes/authRouter.js`) are not part of this model.
- Id generation from the clock (`generateId` in both files) is an input. Two creates in the same millisecond would get the same id, and the second would fail with 500. The model shows this through the colliding-id case of `CreateNote`.
- `updatedAt` is not modelled, because the schema does not declare it and the stored record does not keep it.
- How the persistence layer executes its queries is not modelled. The collection is a sequence in insertion order, and each handler acts on it in one atomic step. A fault changes nothing. Concurrent requests and last-writer-wins races between clients are not modelled.
- Request fields that are present but are not strings are not modelled. In the source, `.trim()` on such a value throws outside the `try` block. Title and content are `Option<string>`: absent, or a string.
- Strings are sequences of Unicode scalar values, not UTF-16 code units. White space is the fixed set of code points listed in `Text.IsSpace`.
- Rendering, the confirmation prompt, filling the dialog inputs from the edited note, closing the dialog and the save button's loading state (`public/app.js:110-150`, `173-182`, `30-35`) are UI work and are not modelled.
- `fetch`, its asynchrony and console logging are not modelled. Each server answer is a `Reply` input to the method it completes.
- The order of the page's list is not kept in step with the store's. A create puts the new note at the end of the store (`controllers/notesController.js:38`) but at the front of the page (`public/app.js:68`). From a store that already holds notes, the two lists then differ in order. `SaveThroughStore` and `DeleteThroughStore` promise only that the page and the store hold the same notes, as multisets. `MirrorFollowsStore` shows equal lists only because it starts from an empty store.
- A request that throws after the server has applied it (for example, a connection lost before the answer arrives) leaves the page and the store out of step. The synchronisation methods always feed the page the store's actual answer.
