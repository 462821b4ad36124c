/** The ownership-scoped note repository: listing, lookup, creation, removal,
    full update and status-only update, each scoped to the requesting user.
    Every operation is a pure function from the database state and its
    arguments to the next state and what the call returns. */
module NotesRepository {
  import opened Wrappers
  import opened NoteModels

  /** The state after a call that may find nothing, and what the call returns. */
  datatype Outcome = Outcome(store: Store, note: Option<Note>)

  /** The state after `create_note`, and the row it returns. */
  datatype Created = Created(store: Store, note: Note)

  function Min(a: int, b: int): int
  {
    if a <= b then a else b
  }

  // ---------------------------------------------------------------------------
  // Query building blocks
  // ---------------------------------------------------------------------------

  /** `filter(Note.user_id == uid)` over the note table, keeping storage order. */
  function OwnedBy(notes: seq<Note>, uid: Id): (r: seq<Note>)
    ensures |r| <= |notes|
    ensures forall n :: n in r <==> n in notes && n.userId == uid
  {
    if |notes| == 0 then []
    else if notes[0].userId == uid then [notes[0]] + OwnedBy(notes[1..], uid)
    else OwnedBy(notes[1..], uid)
  }

  /** The owner filter distributes over concatenation of tables: together
      with `OwnedBySnoc` this fixes the order and the repeats of its result,
      not only which rows it holds. */
  lemma {:induction false} OwnedByAppend(a: seq<Note>, b: seq<Note>, uid: Id)
    ensures OwnedBy(a + b, uid) == OwnedBy(a, uid) + OwnedBy(b, uid)
  {
    if |a| == 0 {
      assert a + b == b;
    } else {
      assert (a + b)[1..] == a[1..] + b;
      OwnedByAppend(a[1..], b, uid);
    }
  }

  /** Adding a row at the end of the table adds it at the end of its
      owner's notes and changes no one else's; from the empty table this is
      the one-row case. */
  lemma OwnedBySnoc(xs: seq<Note>, n: Note, uid: Id)
    ensures OwnedBy(xs + [n], uid) == if n.userId == uid then OwnedBy(xs, uid) + [n] else OwnedBy(xs, uid)
  {
    OwnedByAppend(xs, [n], uid);
    assert [n][1..] == [];
  }

  /** `offset(skip).limit(limit)` on an ordered result: the rows from position
      `skip` on, at most `limit` of them. */
  function Page<T>(xs: seq<T>, skip: nat, limit: nat): (r: seq<T>)
    ensures |r| == if skip >= |xs| then 0 else Min(limit, |xs| - skip)
    ensures forall i :: 0 <= i < |r| ==> r[i] == xs[skip + i]
  {
    if skip >= |xs| then []
    else if |xs| - skip <= limit then xs[skip..]
    else xs[skip..skip + limit]
  }

  /** `filter(Note.id == note_id, Note.user_id == user.id).first()`: the
      position of the first row in storage order that passes the filter. */
  function FindOwned(notes: seq<Note>, noteId: Id, user: User): (r: Option<nat>)
    ensures r.Some? ==> r.value < |notes| && Matches(notes[r.value], noteId, user)
    ensures r.Some? ==> forall j :: 0 <= j < r.value ==> !Matches(notes[j], noteId, user)
    ensures r.None? <==> !HasOwned(notes, noteId, user)
  {
    if |notes| == 0 then None
    else if Matches(notes[0], noteId, user) then Some(0)
    else match FindOwned(notes[1..], noteId, user)
      case None => None
      case Some(k) => Some(k + 1)
  }

  /** The tag query of `create_note`: `Tag.id IN ids AND Tag.user_id == uid`. */
  function OwnedTagsWithIds(tags: seq<Tag>, ids: seq<Id>, uid: Id): (r: seq<Tag>)
    ensures forall t :: t in r <==> t in tags && t.id in ids && t.userId == uid
  {
    if |tags| == 0 then []
    else if tags[0].id in ids && tags[0].userId == uid
    then [tags[0]] + OwnedTagsWithIds(tags[1..], ids, uid)
    else OwnedTagsWithIds(tags[1..], ids, uid)
  }

  /** True when `uid` owns at least one note row. */
  predicate OwnsAnyNote(notes: seq<Note>, uid: Id)
  {
    exists n :: n in notes && n.userId == uid
  }

  /** The rows one tag contributes to the implicit cross join tag x note under
      `Tag.id IN ids AND Note.user_id == uid`: one copy per note the user owns,
      provided the tag's id is listed. */
  function JoinRowsFor(t: Tag, notes: seq<Note>, ids: seq<Id>, uid: Id): (r: seq<Tag>)
    ensures forall x :: x in r ==> x == t
    ensures r != [] <==> t.id in ids && OwnsAnyNote(notes, uid)
  {
    if |notes| == 0 then []
    else
      var rest := JoinRowsFor(t, notes[1..], ids, uid);
      assert OwnsAnyNote(notes[1..], uid) ==> OwnsAnyNote(notes, uid) by {
        if OwnsAnyNote(notes[1..], uid) {
          var n :| n in notes[1..] && n.userId == uid;
          assert n in notes;
        }
      }
      if t.id in ids && notes[0].userId == uid then [t] + rest else rest
  }

  /** The tag query of `update_note` as written: a cross join of the tag and
      note tables filtered by `Tag.id IN ids AND Note.user_id == uid`. The
      owner test is on the note, so it never looks at who owns the tag. */
  function CrossJoinTags(tags: seq<Tag>, notes: seq<Note>, ids: seq<Id>, uid: Id): (r: seq<Tag>)
    ensures forall t :: t in r <==> t in tags && t.id in ids && OwnsAnyNote(notes, uid)
  {
    if |tags| == 0 then []
    else
      var head := JoinRowsFor(tags[0], notes, ids, uid);
      assert forall t :: t in head <==> t == tags[0] && tags[0].id in ids && OwnsAnyNote(notes, uid) by {
        if head != [] {
          assert head[0] in head;
        }
      }
      head + CrossJoinTags(tags[1..], notes, ids, uid)
  }

  /** The largest note id in the table, or 0 for an empty table. */
  function MaxNoteId(notes: seq<Note>): (r: Id)
    ensures r >= 0
    ensures forall n :: n in notes ==> n.id <= r
  {
    if |notes| == 0 then 0
    else
      var rest := MaxNoteId(notes[1..]);
      if notes[0].id > rest then notes[0].id else rest
  }

  /** An id the database may assign to a new row: positive and unused. */
  function FreshNoteId(notes: seq<Note>): (r: Id)
    ensures r > 0
    ensures r !in NoteIds(notes)
  {
    MaxNoteId(notes) + 1
  }

  // ---------------------------------------------------------------------------
  // Frame predicates
  // ---------------------------------------------------------------------------

  /** `after` is `before` with exactly the row at position `i` replaced by `row`. */
  predicate RowReplaced(before: seq<Note>, after: seq<Note>, i: int, row: Note)
  {
    && 0 <= i < |before|
    && |after| == |before|
    && after[i] == row
    && forall j :: 0 <= j < |before| && j != i ==> after[j] == before[j]
  }

  /** `after` is `before` with exactly the row at position `i` deleted and the
      remaining rows kept in order. */
  predicate RowRemoved(before: seq<Note>, after: seq<Note>, i: int)
  {
    && 0 <= i < |before|
    && |after| == |before| - 1
    && (forall j :: 0 <= j < i ==> after[j] == before[j])
    && (forall j :: i < j < |before| ==> after[j - 1] == before[j])
  }

  /** `row` is `before` after a full update with `body`: id and owner kept,
      title, description and `done` taken from the body, and the tag set
      exactly the listed tags of the tag table, whoever owns them. */
  ghost predicate FullyUpdated(before: Note, row: Note, body: NoteUpdateBody, tags: seq<Tag>)
  {
    && row.id == before.id
    && row.userId == before.userId
    && row.title == body.title
    && row.description == body.description
    && row.done == body.done
    && forall t :: t in row.tags <==> t in tags && t.id in body.tags
  }

  // ---------------------------------------------------------------------------
  // The six repository operations
  // ---------------------------------------------------------------------------

  /** `get_notes`: the caller's notes in storage order, the first `skip`
      dropped, at most `limit` returned. */
  function GetNotes(s: Store, skip: nat, limit: nat, user: User): (r: seq<Note>)
    ensures |r| <= limit
    ensures forall n :: n in r ==> n in s.notes && n.userId == user.id
    ensures skip < |OwnedBy(s.notes, user.id)| ==> |r| == Min(limit, |OwnedBy(s.notes, user.id)| - skip)
    ensures skip >= |OwnedBy(s.notes, user.id)| ==> r == []
    ensures forall i :: 0 <= i < |r| ==> r[i] == OwnedBy(s.notes, user.id)[skip + i]
  {
    Page(OwnedBy(s.notes, user.id), skip, limit)
  }

  /** `get_note`: the row with this id if the caller owns it, else absence. */
  function GetNote(s: Store, noteId: Id, user: User): (r: Option<Note>)
    ensures r.Some? ==> r.value in s.notes && Matches(r.value, noteId, user)
    ensures r.None? <==> !HasOwned(s.notes, noteId, user)
  {
    match FindOwned(s.notes, noteId, user)
    case None => None
    case Some(i) => Some(s.notes[i])
  }

  /** `create_note`: appends one row with a fresh id, owned by the caller,
      whose tags are the listed ids among the caller's own tags. The initial
      `done` value is a column default and is passed in. */
  function CreateNote(s: Store, body: NoteBody, user: User, initialDone: bool): (r: Created)
    ensures r.store.tags == s.tags
    ensures r.store.notes == s.notes + [r.note]
    ensures r.note.id !in NoteIds(s.notes)
    ensures r.note.userId == user.id
    ensures r.note.title == body.title && r.note.description == body.description
    ensures r.note.done == initialDone
    ensures forall t :: t in r.note.tags <==> t in s.tags && t.id in body.tags && t.userId == user.id
    ensures Valid(s) ==> Valid(r.store)
  {
    var tags := AsSet(OwnedTagsWithIds(s.tags, body.tags, user.id));
    var note := Note(FreshNoteId(s.notes), body.title, body.description, initialDone, tags, user.id);
    var notes' := s.notes + [note];
    assert forall i :: 0 <= i < |s.notes| ==> s.notes[i] in s.notes;
    Created(Store(notes', s.tags), note)
  }

  /** `remove_note`: deletes the caller's row with this id and returns it;
      a missing or foreign id returns absence and changes nothing. */
  function RemoveNote(s: Store, noteId: Id, user: User): (r: Outcome)
    ensures r.note.None? <==> !HasOwned(s.notes, noteId, user)
    ensures r.note.None? ==> r.store == s
    ensures r.store.tags == s.tags
    ensures r.note.Some? ==> Matches(r.note.value, noteId, user)
    ensures r.note.Some? ==>
      exists i :: RowRemoved(s.notes, r.store.notes, i) && s.notes[i] == r.note.value
    ensures Valid(s) ==> Valid(r.store)
  {
    match FindOwned(s.notes, noteId, user)
    case None => Outcome(s, None)
    case Some(i) =>
      var notes' := s.notes[..i] + s.notes[i + 1..];
      assert RowRemoved(s.notes, notes', i);
      Outcome(Store(notes', s.tags), Some(s.notes[i]))
  }

  /** `update_note`: overwrites title, description, `done` and the tag set of
      the caller's row with this id; a missing or foreign id returns absence
      and changes nothing. Tags are resolved as the source writes it, with no
      check of who owns them. */
  function UpdateNote(s: Store, noteId: Id, body: NoteUpdateBody, user: User): (r: Outcome)
    ensures r.note.None? <==> !HasOwned(s.notes, noteId, user)
    ensures r.note.None? ==> r.store == s
    ensures r.store.tags == s.tags
    ensures r.note.Some? ==>
      exists i :: RowReplaced(s.notes, r.store.notes, i, r.note.value)
        && Matches(s.notes[i], noteId, user)
        && FullyUpdated(s.notes[i], r.note.value, body, s.tags)
    ensures Valid(s) ==> Valid(r.store)
  {
    match FindOwned(s.notes, noteId, user)
    case None => Outcome(s, None)
    case Some(i) =>
      assert s.notes[i] in s.notes;
      var tags := AsSet(CrossJoinTags(s.tags, s.notes, body.tags, user.id));
      var note := s.notes[i].(title := body.title, description := body.description,
                              done := body.done, tags := tags);
      var notes' := s.notes[i := note];
      assert RowReplaced(s.notes, notes', i, note);
      Outcome(Store(notes', s.tags), Some(note))
  }

  /** `update_status_note`: sets only `done` on the caller's row with this id;
      a missing or foreign id returns absence and changes nothing. */
  function UpdateStatusNote(s: Store, noteId: Id, body: NoteStatusBody, user: User): (r: Outcome)
    ensures r.note.None? <==> !HasOwned(s.notes, noteId, user)
    ensures r.note.None? ==> r.store == s
    ensures r.store.tags == s.tags
    ensures r.note.Some? ==>
      exists i :: RowReplaced(s.notes, r.store.notes, i, r.note.value)
        && Matches(s.notes[i], noteId, user)
        && r.note.value == s.notes[i].(done := body.done)
    ensures Valid(s) ==> Valid(r.store)
  {
    match FindOwned(s.notes, noteId, user)
    case None => Outcome(s, None)
    case Some(i) =>
      var note := s.notes[i].(done := body.done);
      var notes' := s.notes[i := note];
      assert RowReplaced(s.notes, notes', i, note);
      Outcome(Store(notes', s.tags), Some(note))
  }
}
