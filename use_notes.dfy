/**
 * The client-side note list cache, the `useNotes` hook: a `notes` list and a
 * `loading` flag that the hook's three operations update after their API call.
 *
 * The API call itself is not modelled: each operation takes its outcome as an
 * argument, either the parsed response or the error the call threw. Toast
 * messages and console logging are left out.
 */
module UseNotes {
  import opened Wrappers
  import Seqs

  /**
   * A note as the server's JSON carries it. The listing names the id field
   * `_id`, the create response names it `id`; both are `id` here. The server
   * sends `createdAt` as a JSON date string. Neither response includes
   * `userId`, so it is optional (`None` is JavaScript's `undefined`).
   */
  datatype ApiNote = ApiNote(
    id: string,
    title: string,
    content: string,
    createdAt: string,
    userId: Option<string>)

  /** The hook's note record; `createdAt` and `userId` are its `created_at` and `user_id`. */
  datatype ClientNote = ClientNote(
    id: string,
    title: string,
    content: string,
    createdAt: string,
    userId: Option<string>)

  /** The outcome of a call: its value, or the error it throws. */
  datatype Outcome<T> = Success(value: T) | Failure(error: string)

  /** The field-by-field transform of one server note into the hook's record. */
  function ToClientNote(n: ApiNote): ClientNote {
    ClientNote(n.id, n.title, n.content, n.createdAt, n.userId)
  }

  /** The filter `note => note.id !== id`. */
  function IdIsNot(id: string): ClientNote -> bool {
    (n: ClientNote) => n.id != id
  }

  class NotesHook {
    var notes: seq<ClientNote>
    var loading: bool

    /** The initial state: no notes, and loading until the first fetch completes. */
    constructor ()
      ensures notes == [] && loading
    {
      notes := [];
      loading := true;
    }

    /**
     * `fetchNotes`: on success the list becomes the response's notes, mapped
     * one by one in the same order; on failure the list is kept. Either way
     * `loading` is false afterwards.
     */
    method FetchNotes(response: Outcome<seq<ApiNote>>)
      modifies this
      ensures !loading
      ensures response.Failure? ==> notes == old(notes)
      ensures response.Success? ==>
        |notes| == |response.value|
        && forall i :: 0 <= i < |notes| ==>
             notes[i].id == response.value[i].id
             && notes[i].title == response.value[i].title
             && notes[i].content == response.value[i].content
             && notes[i].createdAt == response.value[i].createdAt
             && notes[i].userId == response.value[i].userId
    {
      loading := true;
      if response.Success? {
        notes := Seqs.Map(response.value, ToClientNote);
      }
      loading := false;
    }

    /**
     * `createNote`: on success the new note goes in front of the old list,
     * which keeps its order, and is returned; on failure the list is kept and
     * the error is raised again.
     */
    method CreateNote(response: Outcome<ApiNote>) returns (r: Outcome<ClientNote>)
      modifies this
      ensures loading == old(loading)
      ensures response.Failure? ==> r == Failure(response.error) && notes == old(notes)
      ensures response.Success? ==>
        r == Success(ToClientNote(response.value))
        && notes == [r.value] + old(notes)
        && |notes| == |old(notes)| + 1 && notes[1..] == old(notes)
    {
      match response {
        case Failure(e) =>
          r := Failure(e);
        case Success(created) =>
          var newNote := ToClientNote(created);
          notes := [newNote] + notes;
          r := Success(newNote);
      }
    }

    /**
     * `deleteNote`: on success exactly the notes with another id remain, in
     * their old relative order, and an absent id changes nothing; on failure
     * the list is kept and the error is raised again.
     */
    method DeleteNote(id: string, response: Outcome<()>) returns (r: Outcome<()>)
      modifies this
      ensures loading == old(loading)
      ensures r == response
      ensures response.Failure? ==> notes == old(notes)
      ensures response.Success? ==> notes == Seqs.Filter(old(notes), IdIsNot(id))
      ensures response.Success? ==>
        forall n :: multiset(notes)[n] == if n.id == id then 0 else multiset(old(notes))[n]
      ensures response.Success? && (forall i :: 0 <= i < |old(notes)| ==> old(notes)[i].id != id) ==>
        notes == old(notes)
    {
      r := response;
      if response.Success? {
        var before := notes;
        notes := Seqs.Filter(notes, IdIsNot(id));
        forall n ensures multiset(notes)[n] == if n.id == id then 0 else multiset(before)[n] {
          Seqs.FilterMultiset(before, IdIsNot(id), n);
        }
        ghost var absent := forall i :: 0 <= i < |before| ==> before[i].id != id;
        if absent {
          Seqs.FilterAllKept(before, IdIsNot(id));
        }
      }
    }
  }
}
