/**
 * The owner-scoped note service of the backend: the request handlers
 * `getNotes`, `createNote` and `deleteNote` over the note collection.
 *
 * The collection is a `NoteCollection` object whose `notes` field the two
 * writing handlers reassign. The authenticated user's id arrives as an
 * argument (the token middleware has already verified it); the id and the
 * timestamp the store would generate for a new note arrive as arguments too.
 *
 * String lengths are `|s|`, one element per character. The source's
 * `length` counts UTF-16 code units; no encoding is modelled here.
 */
module NotesController {
  import opened Wrappers
  import Seqs

  /** A stored note document. Timestamps are milliseconds since the epoch. */
  datatype Note = Note(
    id: string,
    title: string,
    content: string,
    userId: string,
    createdAt: int,
    updatedAt: int)

  /** What a handler answers: 200, 201 with the new note, 400 with a message, or 404. */
  datatype Response = Ok | Created(note: Note) | BadRequest(error: string) | NotFound

  const MissingFields := "Title and content are required"
  const TitleTooLong := "Title must be less than 100 characters"
  const ContentTooLong := "Content must be less than 1000 characters"
  const MaxTitleLength := 100
  const MaxContentLength := 1000

  // ---------------------------------------------------------------------
  // Validation
  // ---------------------------------------------------------------------

  /**
   * JavaScript truthiness of a string field of the request body: a field
   * that is absent (`None`) or holds the empty string is falsy.
   */
  predicate Present(field: Option<string>) {
    field.Some? && field.value != ""
  }

  /** Both fields are present and within their length limits. */
  predicate Acceptable(title: Option<string>, content: Option<string>) {
    Present(title) && Present(content)
    && |title.value| <= MaxTitleLength && |content.value| <= MaxContentLength
  }

  /**
   * The early-return validation chain of `createNote`: the message of the
   * first check that fails, or `None` when the input is acceptable.
   * Each message is returned exactly when every earlier check passed and
   * its own check failed.
   */
  function CheckInput(title: Option<string>, content: Option<string>): (r: Option<string>)
    ensures r == None <==> Acceptable(title, content)
    ensures r == Some(MissingFields) <==> !Present(title) || !Present(content)
    ensures r == Some(TitleTooLong) <==>
      Present(title) && Present(content) && |title.value| > MaxTitleLength
    ensures r == Some(ContentTooLong) <==>
      Present(title) && Present(content) && |title.value| <= MaxTitleLength
      && |content.value| > MaxContentLength
  {
    if !Present(title) || !Present(content) then Some(MissingFields)
    else if |title.value| > MaxTitleLength then Some(TitleTooLong)
    else if |content.value| > MaxContentLength then Some(ContentTooLong)
    else None
  }

  /** One named validation rule: whether it fails on the input, and its message. */
  datatype Rule = Rule(fails: bool, message: string)

  /** The message of the first failing rule of an ordered rule list. */
  function FirstFailure(rules: seq<Rule>): (r: Option<string>)
    ensures r.None? <==> forall i :: 0 <= i < |rules| ==> !rules[i].fails
    ensures r.Some? ==>
      exists i :: 0 <= i < |rules| && rules[i].fails && r.value == rules[i].message
        && forall j :: 0 <= j < i ==> !rules[j].fails
  {
    if rules == [] then None
    else if rules[0].fails then Some(rules[0].message)
    else
      var r := FirstFailure(rules[1..]);
      assert forall i :: 1 <= i < |rules| ==> rules[i] == rules[1..][i - 1];
      r
  }

  /** The three rules of `createNote`, each judged on its own, in their fixed order. */
  function ValidationRules(title: Option<string>, content: Option<string>): seq<Rule> {
    [ Rule(!Present(title) || !Present(content), MissingFields),
      Rule(Present(title) && |title.value| > MaxTitleLength, TitleTooLong),
      Rule(Present(content) && |content.value| > MaxContentLength, ContentTooLong) ]
  }

  /** The if-chain is the first-failure reading of the ordered rule list. */
  lemma ChainMatchesRuleList(title: Option<string>, content: Option<string>)
    ensures CheckInput(title, content) == FirstFailure(ValidationRules(title, content))
  {
    var rules := ValidationRules(title, content);
    assert rules[1..][1..] == [rules[2]];
    assert rules[1..][1..][1..] == [];
  }

  /** A title of exactly 100 characters passes; one of 101 is rejected as too long. */
  lemma TitleLengthBoundary(title: string, content: string)
    requires title != "" && 0 < |content| <= MaxContentLength
    ensures |title| == 100 ==> CheckInput(Some(title), Some(content)) == None
    ensures |title| == 101 ==> CheckInput(Some(title), Some(content)) == Some(TitleTooLong)
  {
  }

  /** Content of exactly 1000 characters passes; 1001 is rejected as too long. */
  lemma ContentLengthBoundary(title: string, content: string)
    requires 0 < |title| <= MaxTitleLength && content != ""
    ensures |content| == 1000 ==> CheckInput(Some(title), Some(content)) == None
    ensures |content| == 1001 ==> CheckInput(Some(title), Some(content)) == Some(ContentTooLong)
  {
  }

  // ---------------------------------------------------------------------
  // The listing query: owner filter, then newest first
  // ---------------------------------------------------------------------

  /** `createdAt` never increases along the sequence. */
  predicate NewestFirst(s: seq<Note>) {
    forall i, j :: 0 <= i < j < |s| ==> s[i].createdAt >= s[j].createdAt
  }

  /** Inserts `n` before the first note that is not newer than it. */
  function InsertByDate(n: Note, s: seq<Note>): (r: seq<Note>)
    ensures |r| == |s| + 1
    ensures r[0] == n || (s != [] && r[0] == s[0])
  {
    if s == [] || n.createdAt >= s[0].createdAt then [n] + s
    else [s[0]] + InsertByDate(n, s[1..])
  }

  /** Inserting into a newest-first sequence keeps it newest first. */
  lemma {:induction false} InsertKeepsOrder(n: Note, s: seq<Note>)
    requires NewestFirst(s)
    ensures NewestFirst(InsertByDate(n, s))
  {
    if s != [] && n.createdAt < s[0].createdAt {
      var t := InsertByDate(n, s[1..]);
      InsertKeepsOrder(n, s[1..]);
      var r := [s[0]] + t;
      forall i, j | 0 <= i < j < |r| ensures r[i].createdAt >= r[j].createdAt {
        assert r[j] == t[j - 1];
        if i == 0 {
          assert t[0].createdAt <= s[0].createdAt;
          assert t[0].createdAt >= t[j - 1].createdAt;
        } else {
          assert r[i] == t[i - 1];
        }
      }
    }
  }

  /** Inserting adds exactly the one note. */
  lemma {:induction false} InsertAddsOne(n: Note, s: seq<Note>)
    ensures multiset(InsertByDate(n, s)) == multiset(s) + multiset{n}
  {
    if s != [] && n.createdAt < s[0].createdAt {
      InsertAddsOne(n, s[1..]);
      assert s == [s[0]] + s[1..];
    }
  }

  /**
   * The store's `sort({createdAt: -1})`, as an insertion sort. Which of two
   * notes with the same `createdAt` comes first is not promised.
   */
  function SortNewestFirst(s: seq<Note>): (r: seq<Note>)
    ensures NewestFirst(r)
    ensures multiset(r) == multiset(s)
  {
    if s == [] then []
    else
      var sorted := SortNewestFirst(s[1..]);
      InsertKeepsOrder(s[0], sorted);
      InsertAddsOne(s[0], sorted);
      assert s == [s[0]] + s[1..];
      InsertByDate(s[0], sorted)
  }

  /** The filter `{ userId }`. */
  function OwnerIs(userId: string): Note -> bool {
    (n: Note) => n.userId == userId
  }

  /** The filter of `findByIdAndDelete(id)`: the notes it keeps. */
  function IdIsNot(id: string): Note -> bool {
    (n: Note) => n.id != id
  }

  /** No two stored notes share an id. */
  predicate UniqueIds(s: seq<Note>) {
    forall i, j :: 0 <= i < j < |s| ==> s[i].id != s[j].id
  }

  /** The query `findOne({ _id: id, userId })`: a note with that id AND that owner. */
  function FindOne(s: seq<Note>, id: string, userId: string): (r: Option<Note>)
    ensures r.Some? ==> r.value in s && r.value.id == id && r.value.userId == userId
    ensures r.None? <==> forall n :: n in s ==> !(n.id == id && n.userId == userId)
  {
    if s == [] then None
    else if s[0].id == id && s[0].userId == userId then Some(s[0])
    else
      assert s == [s[0]] + s[1..];
      FindOne(s[1..], id, userId)
  }

  // ---------------------------------------------------------------------
  // The collection and the three handlers
  // ---------------------------------------------------------------------

  class NoteCollection {
    /** The stored documents, in insertion order. */
    var notes: seq<Note>

    /**
     * Ids are unique (the store generates them), and `updatedAt` equals
     * `createdAt` because no handler ever updates a note.
     */
    ghost predicate Valid()
      reads this
    {
      UniqueIds(notes) && forall n :: n in notes ==> n.updatedAt == n.createdAt
    }

    constructor ()
      ensures Valid() && notes == []
    {
      notes := [];
    }

    /**
     * `getNotes`: exactly the caller's notes, each as often as it is
     * stored, newest first. The store is only read.
     */
    function GetNotes(userId: string): (r: seq<Note>)
      reads this
      ensures forall n :: n in r <==> n in notes && n.userId == userId
      ensures forall n :: multiset(r)[n] == if n.userId == userId then multiset(notes)[n] else 0
      ensures NewestFirst(r)
    {
      var owned := Seqs.Filter(notes, OwnerIs(userId));
      Seqs.FilterMembers(notes, OwnerIs(userId));
      var r := SortNewestFirst(owned);
      assert forall n :: multiset(r)[n] == if n.userId == userId then multiset(notes)[n] else 0 by {
        forall n ensures multiset(r)[n] == if n.userId == userId then multiset(notes)[n] else 0 {
          Seqs.FilterMultiset(notes, OwnerIs(userId), n);
        }
      }
      r
    }

    /**
     * `createNote`: runs the validation chain; on the first failure answers
     * 400 with its message and stores nothing, otherwise stores exactly one
     * new note whose title and content are the inputs and whose owner is the
     * authenticated caller, with every existing note left as it was.
     */
    method CreateNote(userId: string, title: Option<string>, content: Option<string>,
                      newId: string, now: int) returns (res: Response)
      requires Valid()
      requires forall n :: n in notes ==> n.id != newId
      modifies this
      ensures Valid()
      ensures CheckInput(title, content).Some? ==>
        res == BadRequest(CheckInput(title, content).value) && notes == old(notes)
      ensures CheckInput(title, content).None? ==>
        res == Created(Note(newId, title.value, content.value, userId, now, now))
        && notes == old(notes) + [res.note]
    {
      var failure := CheckInput(title, content);
      if failure.Some? {
        return BadRequest(failure.value);
      }
      var note := Note(newId, title.value, content.value, userId, now, now);
      notes := notes + [note];
      res := Created(note);
    }

    /**
     * `deleteNote`: answers 404 and changes nothing unless a note has both
     * that id and the caller as owner; otherwise removes that one note and
     * nothing else.
     */
    method DeleteNote(userId: string, id: string) returns (res: Response)
      requires Valid()
      modifies this
      ensures Valid()
      ensures res == Ok || res == NotFound
      ensures res == NotFound <==> forall n :: n in old(notes) ==> !(n.id == id && n.userId == userId)
      ensures res == NotFound ==> notes == old(notes)
      ensures res == Ok ==>
        exists k :: 0 <= k < |old(notes)| && old(notes)[k].id == id && old(notes)[k].userId == userId
          && notes == old(notes)[..k] + old(notes)[k + 1..]
    {
      var found := FindOne(notes, id, userId);
      if found.None? {
        return NotFound;
      }
      ghost var k :| 0 <= k < |notes| && notes[k] == found.value;
      RemoveOwnedNote(notes, id, k);
      UniqueWithout(notes, k);
      // `findByIdAndDelete(id)` deletes by id alone.
      notes := Seqs.Filter(notes, IdIsNot(id));
      res := Ok;
    }
  }

  // ---------------------------------------------------------------------
  // Properties of the collection
  // ---------------------------------------------------------------------

  /** Removing one position keeps the ids unique. */
  lemma UniqueWithout(s: seq<Note>, k: int)
    requires UniqueIds(s) && 0 <= k < |s|
    ensures UniqueIds(s[..k] + s[k + 1..])
  {
    var t := s[..k] + s[k + 1..];
    forall i, j | 0 <= i < j < |t| ensures t[i].id != t[j].id {
      var i' := if i < k then i else i + 1;
      var j' := if j < k then j else j + 1;
      assert t[i] == s[i'] && t[j] == s[j'];
    }
  }

  /** With unique ids, every note other than the one at position `k` survives a delete by its id. */
  lemma OthersKept(s: seq<Note>, id: string, k: int)
    requires UniqueIds(s) && 0 <= k < |s| && s[k].id == id
    ensures forall i :: 0 <= i < |s| && i != k ==> IdIsNot(id)(s[i])
  {
    forall i | 0 <= i < |s| && i != k ensures IdIsNot(id)(s[i]) {
      assert if i < k then s[i].id != s[k].id else s[k].id != s[i].id;
    }
  }

  /** With unique ids, deleting by id removes exactly the note at that id's position. */
  lemma {:induction false} RemoveOwnedNote(s: seq<Note>, id: string, k: int)
    requires UniqueIds(s) && 0 <= k < |s| && s[k].id == id
    ensures Seqs.Filter(s, IdIsNot(id)) == s[..k] + s[k + 1..]
  {
    var keep := IdIsNot(id);
    var tail := s[1..];
    if k == 0 {
      assert Seqs.Filter(s, keep) == Seqs.Filter(tail, keep);
      assert Seqs.Filter(tail, keep) == tail by {
        OthersKept(s, id, 0);
        forall i | 0 <= i < |tail| ensures keep(tail[i]) {
          assert tail[i] == s[i + 1];
        }
        Seqs.FilterAllKept(tail, keep);
      }
      assert s[..0] + s[1..] == tail;
    } else {
      assert keep(s[0]) by {
        OthersKept(s, id, k);
      }
      assert Seqs.Filter(s, keep) == [s[0]] + Seqs.Filter(tail, keep);
      assert UniqueIds(tail) && tail[k - 1].id == id by {
        forall i, j | 0 <= i < j < |tail| ensures tail[i].id != tail[j].id {
          assert tail[i] == s[i + 1] && tail[j] == s[j + 1];
        }
      }
      RemoveOwnedNote(tail, id, k - 1);
      assert [s[0]] + (tail[..k - 1] + tail[k..]) == s[..k] + s[k + 1..] by {
        assert tail[..k - 1] == s[1..k] && tail[k..] == s[k + 1..];
        assert [s[0]] + s[1..k] == s[..k];
      }
    }
  }

  /** A note stored under another owner is indistinguishable from a missing one. */
  lemma ForeignNoteNotFound(s: seq<Note>, id: string, userId: string, k: int)
    requires UniqueIds(s) && 0 <= k < |s| && s[k].id == id && s[k].userId != userId
    ensures FindOne(s, id, userId) == None
  {
    forall n | n in s ensures !(n.id == id && n.userId == userId) {
      var i :| 0 <= i < |s| && s[i] == n;
      assert i != k ==> (if i < k then s[i].id != s[k].id else s[k].id != s[i].id);
    }
  }

  /** After a delete, a second delete with the same arguments finds nothing. */
  lemma DeleteAgainNotFound(s: seq<Note>, id: string, userId: string)
    ensures FindOne(Seqs.Filter(s, IdIsNot(id)), id, userId) == None
  {
    Seqs.FilterMembers(s, IdIsNot(id));
  }

  /** A delete by one owner leaves every other owner's listing as it was. */
  lemma DeleteKeepsOtherListings(s: seq<Note>, userId: string, id: string, other: string)
    requires UniqueIds(s) && other != userId && FindOne(s, id, userId).Some?
    ensures Seqs.Filter(Seqs.Filter(s, IdIsNot(id)), OwnerIs(other)) == Seqs.Filter(s, OwnerIs(other))
  {
    var k :| 0 <= k < |s| && s[k] == FindOne(s, id, userId).value;
    OthersKept(s, id, k);
    Seqs.FilterThenFilter(s, IdIsNot(id), OwnerIs(other));
  }

  /** A create by one owner leaves every other owner's listing as it was. */
  lemma CreateKeepsOtherListings(s: seq<Note>, n: Note, other: string)
    requires n.userId != other
    ensures Seqs.Filter(s + [n], OwnerIs(other)) == Seqs.Filter(s, OwnerIs(other))
  {
    Seqs.FilterConcat(s, [n], OwnerIs(other));
    assert Seqs.Filter([n], OwnerIs(other)) == [];
  }
}
