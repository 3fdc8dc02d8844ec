# Notes tracker: owner-scoped note service and client note cache

This project models the two pieces of logic in a small note-taking app.

- **The backend note service** is in `backend/src/controllers/notesController.ts`. It has three request handlers over one note collection. `getNotes` lists the caller's notes, newest first. `createNote` runs an ordered validation chain and then stores a note owned by the caller. `deleteNote` looks up a note by id *and* owner, then deletes it by id.
- **The client note cache** is the `useNotes` hook in `src/hooks/useNotes.ts`. It keeps a `notes` list and a `loading` flag. Its fetch, create and delete operations update them once the API call returns.

Files:

- `wrappers.dfy`: module `Wrappers` with `Option`. `None` stands for an absent request field.
- `seqs.dfy`: module `Seqs` with the `filter` and `map` the code relies on, and their lemmas.
- `notes_controller.dfy`: module `NotesController`. It holds the stored `Note` record (`backend/src/types/index.ts:12-19`), the validation chain, the listing query, and the `NoteCollection` class whose `notes` field `CreateNote` and `DeleteNote` reassign.
- `use_notes.dfy`: module `UseNotes` with the `NotesHook` class. Its fields are `notes` and `loading`.

Modelling choices:

- The caller's user id is an argument. The token middleware has already verified it.
- The note id and the timestamp the store generates on insert are also arguments of `CreateNote`. `CreateNote` requires the id to be new, because the store guarantees unique ids.
- `title` and `content` in the request body are `Option<string>`. `!title` is JavaScript truthiness, so the field is missing when it is absent or `""`. Whitespace gets no special treatment.
- String lengths are `|s|`. The source's `.length` counts UTF-16 code units, and no encoding is modelled.
- The store's `sort({createdAt: -1})` is modelled as an insertion sort. The model promises only that `createdAt` never increases along the result. The order of notes with equal timestamps is not promised.
- Each hook operation receives the outcome of its API call as an argument: the parsed response, or the error the call threw.
- The two 400 messages read "less than 100" and "less than 1000" characters. The code rejects only lengths *greater* than the limit, so titles of exactly 100 characters and contents of exactly 1000 are accepted. The model follows the code.
- Neither the listing (its `.select` leaves `userId` out) nor the create response includes `userId`. The hook therefore copies an absent field into `user_id`, and the model carries that field as `Option<string>`, where `None` is JavaScript's `undefined`.

## Model

| member | source | states |
|---|---|---|
| NotesController.CheckInput | backend/src/controllers/notesController.ts:25-39 | The presence check comes first, then title length, then content length, and only the first failure's message is returned. Each of the three messages is returned exactly when every earlier check passed and its own check failed. The result is `None` exactly when both fields are present, the title has at most 100 characters and the content at most 1000. |
| NotesController.ValidationRules | backend/src/controllers/notesController.ts:26-39 | The ordered rule list [presence, title length, content length] with the three messages. `ChainMatchesRuleList` states that its first failure equals the if-chain. |
| NotesController.FirstFailure | backend/src/controllers/notesController.ts:25-39 | For an ordered rule list, the result is `None` exactly when no rule fails. Otherwise it is the message of a failing rule with no failing rule before it. |
| NotesController.ChainMatchesRuleList | backend/src/controllers/notesController.ts:25-39 | The if-chain gives the same answer as the first-failure reading of the rule list [presence, title length, content length], each rule judged on its own. |
| NotesController.TitleLengthBoundary | backend/src/controllers/notesController.ts:31-34 | With valid content, a 100-character title passes and a 101-character title is rejected with the title message. |
| NotesController.ContentLengthBoundary | backend/src/controllers/notesController.ts:36-39 | With a valid title, 1000-character content passes and 1001-character content is rejected with the content message. |
| NotesController.InsertByDate | backend/src/controllers/notesController.ts:10 | The single insertion step of the modelled `sort({ createdAt: -1 })`. Its own contract: the result is one note longer, and it starts with the inserted note or the old first note. `InsertKeepsOrder` and `InsertAddsOne` state its ordering and content properties. |
| NotesController.InsertKeepsOrder | backend/src/controllers/notesController.ts:10 | Inserting a note into a newest-first sequence keeps it newest first. |
| NotesController.InsertAddsOne | backend/src/controllers/notesController.ts:10 | Inserting adds exactly that one note to the multiset of notes. |
| NotesController.SortNewestFirst | backend/src/controllers/notesController.ts:10 | The result is ordered by `createdAt`, never increasing, and is a permutation of the input. |
| NotesController.FindOne | backend/src/controllers/notesController.ts:71 | A note is returned only if it is stored and has both the id and the owner. `None` is returned exactly when no stored note has both. |
| NotesController.NoteCollection.GetNotes | backend/src/controllers/notesController.ts:7-11 | A note is in the listing exactly when it is stored and owned by the caller, with the same multiplicity as in the store. The listing is newest first. It only reads the store. |
| NotesController.NoteCollection.constructor | backend/src/controllers/notesController.ts:2 | Sets up the note collection the handlers use (the Mongoose `Note` model) as an empty store that satisfies the invariant: unique ids, and `updatedAt == createdAt` for each note. It models no handler. The stored record's shape, `backend/src/types/index.ts:12-19`, is the `Note` datatype. |
| NotesController.NoteCollection.CreateNote | backend/src/controllers/notesController.ts:20-48 | On a validation failure the result is 400 with the first failing check's message, and the store is unchanged. Otherwise exactly one note is appended. Its title and content are the inputs, its owner is the authenticated caller, its timestamps are equal, and every earlier note stays as it was. The invariant is kept. |
| NotesController.NoteCollection.DeleteNote | backend/src/controllers/notesController.ts:66-77 | The result is 404 exactly when no stored note has that id and the caller as owner, and then the store is unchanged. Otherwise it is 200, and the new store is the old one with exactly that one note removed. The invariant is kept. |
| NotesController.UniqueWithout | backend/src/controllers/notesController.ts:77 | Removing one position from a sequence with unique ids leaves the ids unique. |
| NotesController.OthersKept | backend/src/controllers/notesController.ts:77 | With unique ids, every note except the one holding the id passes the delete-by-id filter. |
| NotesController.RemoveOwnedNote | backend/src/controllers/notesController.ts:71-77 | With unique ids, `findByIdAndDelete(id)` on the note found at position k removes exactly position k and keeps the others in order. |
| NotesController.ForeignNoteNotFound | backend/src/controllers/notesController.ts:71-75 | With unique ids, if the id belongs to a note of another owner, the owner-scoped lookup finds nothing, so the delete reports not-found. |
| NotesController.DeleteAgainNotFound | backend/src/controllers/notesController.ts:71-77 | After the delete, the same lookup finds nothing, so a second delete with the same arguments is 404. |
| NotesController.DeleteKeepsOtherListings | backend/src/controllers/notesController.ts:71-77 | With unique ids, a successful delete by one owner leaves every other owner's notes (the input of their listing) exactly as they were. |
| NotesController.CreateKeepsOtherListings | backend/src/controllers/notesController.ts:42-48 | Appending a note owned by one user leaves every other owner's notes exactly as they were. |
| Seqs.Filter | src/hooks/useNotes.ts:62 | The `filter` used for the hook's delete, for the `{ userId }` query (backend/src/controllers/notesController.ts:9) and for the effect of `findByIdAndDelete` (:77). Its own contract: the result is no longer than the input, and every element it keeps passes the predicate. `FilterMembers`, `FilterMultiset`, `FilterConcat`, `FilterAllKept` and `FilterThenFilter` state the rest. |
| Seqs.FilterMembers | src/hooks/useNotes.ts:62 | An element is in the filtered sequence exactly when it is in the input and the predicate accepts it. |
| Seqs.FilterConcat | src/hooks/useNotes.ts:62 | Filtering distributes over concatenation, so the kept elements keep their relative order. |
| Seqs.FilterAllKept | src/hooks/useNotes.ts:62 | When the predicate accepts every element, the filter returns the input unchanged. |
| Seqs.FilterMultiset | src/hooks/useNotes.ts:62 | Every accepted element occurs in the result as often as in the input, and every rejected element does not occur. |
| Seqs.FilterThenFilter | backend/src/controllers/notesController.ts:9 | If everything the first filter drops the second drops too, filtering with both is the same as filtering with the second alone. |
| Seqs.Map | src/hooks/useNotes.ts:20-26 | The result has the same length as the input, and each position holds the function applied to the input at that position. |
| UseNotes.ToClientNote | src/hooks/useNotes.ts:20-26 | The object literal that turns a server note into the hook's record, used unchanged for the create response (src/hooks/useNotes.ts:42-48). The listing's `note._id` and the create response's `response.note.id` are both the `id` field. `NotesHook.FetchNotes` and `NotesHook.CreateNote` state the field-by-field correspondence. |
| UseNotes.NotesHook.constructor | src/hooks/useNotes.ts:7-8 | The hook starts with an empty list and `loading` true. |
| UseNotes.NotesHook.FetchNotes | src/hooks/useNotes.ts:14-35 | On success the list becomes the response, same length and same order. Each entry's id, title, content, created_at and user_id come from the matching response fields. On failure the list is unchanged. Either way `loading` is false afterwards. |
| UseNotes.NotesHook.CreateNote | src/hooks/useNotes.ts:37-57 | On success the transformed note is returned and put in front of the old list, which keeps its order, so the length grows by one. On failure the list is unchanged and the same error is raised again. `loading` is untouched. |
| UseNotes.NotesHook.DeleteNote | src/hooks/useNotes.ts:59-68 | On success, exactly the old notes whose id differs remain, with their old multiplicities, as the order-preserving filter of the old list. If the id was absent the list is unchanged. On failure the list is unchanged and the error is raised again. `loading` is untouched. |

## Left out

- The 500 "Internal server error" paths of all three handlers come from store exceptions and logging, and are not modelled. One input that may reach that path is a malformed note id in `deleteNote`. `findOne({ _id: id, userId })` casts `id` to the schema's `_id` type, and with Mongoose's default ObjectId ids an id that is not a valid ObjectId would throw a cast error. The Note schema file is not part of this model. `NoteCollection.DeleteNote` treats every id string as a plain key and answers 404 for any id it does not find.
- The token middleware (`authenticateToken`) and Express routing are not part of this model. The caller's id is a verified argument.
- Mongoose internals are not modelled: id and timestamp generation, the `.select` projection of `getNotes` (the model returns whole stored notes), and the order of notes with equal `createdAt`.
- The HTTP rendering of responses is not modelled: status codes, the JSON body shape and the success message strings.
- Request fields that are present but not strings (a number, say) are not modelled. The model's fields are strings or absent.
- Concurrent requests and their interleaving are not modelled. Each handler runs as one atomic step.
- The hook's initial `useEffect` fetch, its toast messages, console logging and the `refetch` alias are not modelled. Neither are React's asynchronous state batching, or the moment during a fetch when `loading` is true.
- The API client's network calls and token storage are not modelled (`src/lib/api.ts` is not part of this model). Each call's outcome is an input.
- UI components (`Dashboard`, `NoteModal`, `AuthLayout`), the auth context and the Supabase client are outside the core.
