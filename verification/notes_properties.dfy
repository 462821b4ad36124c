/** Properties relating the repository operations to one another: lookups
    after each mutation, what a mutation leaves untouched, ownership
    isolation between users, and the differing tag resolution of create and
    update. */
module NotesProperties {
  import opened Wrappers
  import opened NoteModels
  import opened NotesRepository

  // ---------------------------------------------------------------------------
  // Lookup is determined by the rows present
  // ---------------------------------------------------------------------------

  /** Under unique primary keys two rows with the same id are the same row. */
  lemma SameIdSameRow(notes: seq<Note>, a: Note, b: Note)
    requires UniqueNoteIds(notes)
    requires a in notes && b in notes && a.id == b.id
    ensures a == b
  {
    var i :| 0 <= i < |notes| && notes[i] == a;
    var j :| 0 <= j < |notes| && notes[j] == b;
  }

  /** In a valid store, `get_note` finds a row exactly when the row is there
      and belongs to the caller. */
  lemma GetNoteIffPresent(s: Store, m: Note, user: User)
    requires Valid(s)
    ensures GetNote(s, m.id, user) == Some(m) <==> m in s.notes && m.userId == user.id
  {
    if m in s.notes && m.userId == user.id {
      var r := GetNote(s, m.id, user);
      assert HasOwned(s.notes, m.id, user);
      SameIdSameRow(s.notes, r.value, m);
    }
  }

  /** A note owned by someone else is never returned to the caller. */
  lemma GetNoteForeignIsNone(s: Store, n: Note, user: User)
    requires Valid(s)
    requires n in s.notes && n.userId != user.id
    ensures GetNote(s, n.id, user) == None
  {
    var r := GetNote(s, n.id, user);
    if r.Some? {
      SameIdSameRow(s.notes, r.value, n);
    }
  }

  /** Two valid stores holding the same rows that pass the filter for
      (`noteId`, `user`) answer `get_note` alike. */
  lemma LookupAgrees(a: Store, b: Store, noteId: Id, user: User)
    requires UniqueNoteIds(a.notes) && UniqueNoteIds(b.notes)
    requires forall m :: Matches(m, noteId, user) ==> (m in a.notes <==> m in b.notes)
    ensures GetNote(a, noteId, user) == GetNote(b, noteId, user)
  {
    var ra := GetNote(a, noteId, user);
    var rb := GetNote(b, noteId, user);
    if ra.Some? && rb.Some? {
      SameIdSameRow(a.notes, ra.value, rb.value);
    } else if ra.Some? {
      assert HasOwned(b.notes, noteId, user);
    }
  }

  // ---------------------------------------------------------------------------
  // Rows a single-row mutation keeps
  // ---------------------------------------------------------------------------

  /** Replacing one row by a row with the same id keeps every row with
      another id, and removes no other row. */
  lemma RowReplacedKeepsOthers(before: seq<Note>, after: seq<Note>, i: int, row: Note, m: Note)
    requires RowReplaced(before, after, i, row)
    requires row.id == before[i].id
    requires m.id != row.id
    ensures m in after <==> m in before
  {
    if m in after {
      var k :| 0 <= k < |after| && after[k] == m;
      assert k != i;
      assert before[k] == m;
    }
    if m in before {
      var k :| 0 <= k < |before| && before[k] == m;
      assert k != i;
      assert after[k] == m;
    }
  }

  /** Deleting one row keeps every other row and adds none. */
  lemma RowRemovedKeepsOthers(before: seq<Note>, after: seq<Note>, i: int, m: Note)
    requires RowRemoved(before, after, i)
    ensures m in after ==> m in before
    ensures m in before && m != before[i] ==> m in after
  {
    if m in after {
      var k :| 0 <= k < |after| && after[k] == m;
      if k < i {
        assert before[k] == m;
      } else {
        assert before[k + 1] == m;
      }
    }
    if m in before && m != before[i] {
      var k :| 0 <= k < |before| && before[k] == m;
      if k < i {
        assert after[k] == m;
      } else {
        assert k != i;
        assert after[k - 1] == m;
      }
    }
  }

  // ---------------------------------------------------------------------------
  // create_note
  // ---------------------------------------------------------------------------

  /** After `create_note` the caller can fetch the new row, fields as sent,
      and nobody else can. */
  lemma CreateThenGet(s: Store, body: NoteBody, user: User, initialDone: bool, other: User)
    requires Valid(s)
    requires other.id != user.id
    ensures var r := CreateNote(s, body, user, initialDone);
      && GetNote(r.store, r.note.id, user) == Some(r.note)
      && r.note.title == body.title && r.note.description == body.description
      && GetNote(r.store, r.note.id, other) == None
  {
    var r := CreateNote(s, body, user, initialDone);
    assert r.note in r.store.notes;
    GetNoteIffPresent(r.store, r.note, user);
    GetNoteForeignIsNone(r.store, r.note, other);
  }

  /** `create_note` leaves every lookup of another id as it was. */
  lemma CreateKeepsOtherLookups(s: Store, body: NoteBody, user: User, initialDone: bool, noteId: Id, who: User)
    requires Valid(s)
    requires noteId != CreateNote(s, body, user, initialDone).note.id
    ensures GetNote(CreateNote(s, body, user, initialDone).store, noteId, who) == GetNote(s, noteId, who)
  {
    var r := CreateNote(s, body, user, initialDone);
    forall m | Matches(m, noteId, who)
      ensures m in r.store.notes <==> m in s.notes
    {
      assert m != r.note;
    }
    LookupAgrees(r.store, s, noteId, who);
  }

  // ---------------------------------------------------------------------------
  // remove_note
  // ---------------------------------------------------------------------------

  /** Under unique primary keys, the id of a deleted row no longer occurs. */
  lemma RemovedIdGone(before: seq<Note>, after: seq<Note>, i: int)
    requires UniqueNoteIds(before)
    requires RowRemoved(before, after, i)
    ensures forall m :: m in after ==> m.id != before[i].id
  {
    forall m | m in after
      ensures m.id != before[i].id
    {
      var k :| 0 <= k < |after| && after[k] == m;
      if k < i {
        assert after[k] == before[k];
      } else {
        assert after[k] == before[k + 1];
      }
    }
  }

  /** Once `remove_note` has run, `get_note` on the same id answers absence. */
  lemma RemoveThenGet(s: Store, noteId: Id, user: User)
    requires Valid(s)
    ensures GetNote(RemoveNote(s, noteId, user).store, noteId, user) == None
  {
    var r := RemoveNote(s, noteId, user);
    if r.note.Some? {
      var i :| RowRemoved(s.notes, r.store.notes, i) && s.notes[i] == r.note.value;
      RemovedIdGone(s.notes, r.store.notes, i);
    }
  }

  /** `remove_note` leaves every lookup of another id as it was. */
  lemma RemoveKeepsOtherLookups(s: Store, noteId: Id, user: User, otherId: Id, who: User)
    requires Valid(s)
    requires otherId != noteId
    ensures GetNote(RemoveNote(s, noteId, user).store, otherId, who) == GetNote(s, otherId, who)
  {
    var r := RemoveNote(s, noteId, user);
    if r.note.Some? {
      var i :| RowRemoved(s.notes, r.store.notes, i) && s.notes[i] == r.note.value;
      forall m | Matches(m, otherId, who)
        ensures m in r.store.notes <==> m in s.notes
      {
        RowRemovedKeepsOthers(s.notes, r.store.notes, i, m);
      }
      LookupAgrees(r.store, s, otherId, who);
    }
  }

  // ---------------------------------------------------------------------------
  // update_note and update_status_note
  // ---------------------------------------------------------------------------

  /** A successful `update_note` is what `get_note` returns afterwards. */
  lemma UpdateThenGet(s: Store, noteId: Id, body: NoteUpdateBody, user: User)
    requires Valid(s)
    ensures var r := UpdateNote(s, noteId, body, user);
      r.note.Some? ==> GetNote(r.store, noteId, user) == r.note
  {
    var r := UpdateNote(s, noteId, body, user);
    if r.note.Some? {
      var i :| RowReplaced(s.notes, r.store.notes, i, r.note.value)
        && Matches(s.notes[i], noteId, user)
        && FullyUpdated(s.notes[i], r.note.value, body, s.tags);
      assert r.store.notes[i] == r.note.value;
      GetNoteIffPresent(r.store, r.note.value, user);
    }
  }

  /** `update_note` leaves every lookup of another id as it was. */
  lemma UpdateKeepsOtherLookups(s: Store, noteId: Id, body: NoteUpdateBody, user: User, otherId: Id, who: User)
    requires Valid(s)
    requires otherId != noteId
    ensures GetNote(UpdateNote(s, noteId, body, user).store, otherId, who) == GetNote(s, otherId, who)
  {
    var r := UpdateNote(s, noteId, body, user);
    if r.note.Some? {
      var i :| RowReplaced(s.notes, r.store.notes, i, r.note.value)
        && Matches(s.notes[i], noteId, user)
        && FullyUpdated(s.notes[i], r.note.value, body, s.tags);
      forall m | Matches(m, otherId, who)
        ensures m in r.store.notes <==> m in s.notes
      {
        RowReplacedKeepsOthers(s.notes, r.store.notes, i, r.note.value, m);
      }
      LookupAgrees(r.store, s, otherId, who);
    }
  }

  /** A successful `update_status_note` is what `get_note` returns afterwards,
      and it differs from the row before only in `done`. */
  lemma UpdateStatusThenGet(s: Store, noteId: Id, body: NoteStatusBody, user: User)
    requires Valid(s)
    ensures var r := UpdateStatusNote(s, noteId, body, user);
      r.note.Some? ==>
        && GetNote(r.store, noteId, user) == r.note
        && GetNote(s, noteId, user) == Some(r.note.value.(done := GetNote(s, noteId, user).value.done))
  {
    var r := UpdateStatusNote(s, noteId, body, user);
    if r.note.Some? {
      var i :| RowReplaced(s.notes, r.store.notes, i, r.note.value)
        && Matches(s.notes[i], noteId, user)
        && r.note.value == s.notes[i].(done := body.done);
      assert r.store.notes[i] == r.note.value;
      GetNoteIffPresent(r.store, r.note.value, user);
      assert s.notes[i] in s.notes;
      GetNoteIffPresent(s, s.notes[i], user);
    }
  }

  /** After a replacement that keeps id and owner, the first row passing the
      filter is still at the replaced position. */
  lemma FindOwnedAfterReplace(before: seq<Note>, after: seq<Note>, i: int, row: Note, noteId: Id, user: User)
    requires RowReplaced(before, after, i, row)
    requires FindOwned(before, noteId, user) == Some(i)
    requires row.id == before[i].id && row.userId == before[i].userId
    ensures FindOwned(after, noteId, user) == Some(i)
  {
    assert after[i] in after;
    var k := FindOwned(after, noteId, user).value;
  }

  /** Setting the status twice in a row is the same as setting it once. */
  lemma UpdateStatusIdempotent(s: Store, noteId: Id, body: NoteStatusBody, user: User)
    ensures var once := UpdateStatusNote(s, noteId, body, user);
      UpdateStatusNote(once.store, noteId, body, user) == once
  {
    var once := UpdateStatusNote(s, noteId, body, user);
    if once.note.Some? {
      var i := FindOwned(s.notes, noteId, user).value;
      FindOwnedAfterReplace(s.notes, once.store.notes, i, once.note.value, noteId, user);
      assert once.store.notes[i := once.note.value] == once.store.notes;
    }
  }

  // ---------------------------------------------------------------------------
  // Tag resolution: create restricts to the owner's tags, update does not
  // ---------------------------------------------------------------------------

  /** `update_note` attaches every listed tag of the tag table to the caller's
      note, whoever owns the tag. */
  lemma UpdateAttachesListedTags(s: Store, noteId: Id, body: NoteUpdateBody, user: User, t: Tag)
    requires HasOwned(s.notes, noteId, user)
    requires t in s.tags && t.id in body.tags
    ensures UpdateNote(s, noteId, body, user).note.Some?
    ensures t in UpdateNote(s, noteId, body, user).note.value.tags
  {
    var r := UpdateNote(s, noteId, body, user);
    var i :| RowReplaced(s.notes, r.store.notes, i, r.note.value)
      && Matches(s.notes[i], noteId, user)
      && FullyUpdated(s.notes[i], r.note.value, body, s.tags);
  }

  /** One store in which the two operations disagree: a tag of user 2 sent by
      user 1 is dropped by `create_note` but attached by `update_note`. */
  lemma ForeignTagAsymmetry()
    ensures var foreign := Tag(7, "work", 2);
      var s := Store([Note(1, "title", "text", false, {}, 1)], [foreign]);
      && foreign !in CreateNote(s, NoteBody("new", "text", [7]), User(1), false).note.tags
      && UpdateNote(s, 1, NoteUpdateBody("title", "text", [7], true), User(1)).note.Some?
      && foreign in UpdateNote(s, 1, NoteUpdateBody("title", "text", [7], true), User(1)).note.value.tags
  {
    var foreign := Tag(7, "work", 2);
    var s := Store([Note(1, "title", "text", false, {}, 1)], [foreign]);
    assert s.notes[0] in s.notes;
    UpdateAttachesListedTags(s, 1, NoteUpdateBody("title", "text", [7], true), User(1), foreign);
  }
  
  // ---------------------------------------------------------------------------
  // Listing: pagination and isolation between users
  // ---------------------------------------------------------------------------

  /** With a limit covering all of them, the first page is exactly the
      caller's notes: every one of them and nothing else. */
  lemma GetNotesCoversOwned(s: Store, limit: nat, user: User)
    requires limit >= |OwnedBy(s.notes, user.id)|
    ensures forall n :: n in GetNotes(s, 0, limit, user) <==> n in s.notes && n.userId == user.id
  {
    assert GetNotes(s, 0, limit, user) == OwnedBy(s.notes, user.id);
  }

  /** Consecutive pages concatenate to the page spanning both. */
  lemma PagesConcatenate(s: Store, skip: nat, a: nat, b: nat, user: User)
    ensures GetNotes(s, skip, a, user) + GetNotes(s, skip + a, b, user) == GetNotes(s, skip, a + b, user)
  {
    var owned := OwnedBy(s.notes, user.id);
    var p := GetNotes(s, skip, a, user);
    var q := GetNotes(s, skip + a, b, user);
    var whole := GetNotes(s, skip, a + b, user);
    assert |p + q| == |whole|;
    forall i | 0 <= i < |whole|
      ensures (p + q)[i] == whole[i]
    {
      if i >= |p| {
        assert (p + q)[i] == q[i - |p|];
      }
    }
  }

  /** Replacing a row that neither before nor after belongs to `uid` leaves
      the notes of `uid` as they were. */
  lemma ReplaceKeepsListing(before: seq<Note>, after: seq<Note>, i: int, row: Note, uid: Id)
    requires RowReplaced(before, after, i, row)
    requires before[i].userId != uid && row.userId != uid
    ensures OwnedBy(after, uid) == OwnedBy(before, uid)
  {
    var pre, post := before[..i], before[i + 1..];
    assert before == (pre + [before[i]]) + post;
    assert after == (pre + [row]) + post;
    OwnedBySnoc(pre, before[i], uid);
    OwnedBySnoc(pre, row, uid);
    OwnedByAppend(pre + [before[i]], post, uid);
    OwnedByAppend(pre + [row], post, uid);
  }

  /** Deleting a row that does not belong to `uid` leaves the notes of `uid`
      as they were. */
  lemma RemoveKeepsListing(before: seq<Note>, after: seq<Note>, i: int, uid: Id)
    requires RowRemoved(before, after, i)
    requires before[i].userId != uid
    ensures OwnedBy(after, uid) == OwnedBy(before, uid)
  {
    var pre, post := before[..i], before[i + 1..];
    RowRemovedSplits(before, after, i);
    assert before == (pre + [before[i]]) + post;
    OwnedBySnoc(pre, before[i], uid);
    OwnedByAppend(pre + [before[i]], post, uid);
    OwnedByAppend(pre, post, uid);
  }

  /** A table with one row deleted is the rows before it followed by the
      rows after it. */
  lemma RowRemovedSplits(before: seq<Note>, after: seq<Note>, i: int)
    requires RowRemoved(before, after, i)
    ensures after == before[..i] + before[i + 1..]
  {
    var rest := before[..i] + before[i + 1..];
    forall k | 0 <= k < |after|
      ensures after[k] == rest[k]
    {
      if k >= i {
        assert after[k] == before[k + 1];
      }
    }
  }

  /** `create_note` appends the new row to the caller's listing and changes
      no other user's listing. */
  lemma CreateListing(s: Store, body: NoteBody, user: User, initialDone: bool, other: User, skip: nat, limit: nat)
    requires other.id != user.id
    ensures var r := CreateNote(s, body, user, initialDone);
      && OwnedBy(r.store.notes, user.id) == OwnedBy(s.notes, user.id) + [r.note]
      && GetNotes(r.store, skip, limit, other) == GetNotes(s, skip, limit, other)
  {
    var r := CreateNote(s, body, user, initialDone);
    OwnedBySnoc(s.notes, r.note, user.id);
    OwnedBySnoc(s.notes, r.note, other.id);
  }

  /** `remove_note` by one user changes no other user's listing. */
  lemma RemoveIsolated(s: Store, noteId: Id, user: User, other: User, skip: nat, limit: nat)
    requires other.id != user.id
    ensures GetNotes(RemoveNote(s, noteId, user).store, skip, limit, other) == GetNotes(s, skip, limit, other)
  {
    var r := RemoveNote(s, noteId, user);
    if r.note.Some? {
      var i :| RowRemoved(s.notes, r.store.notes, i) && s.notes[i] == r.note.value;
      RemoveKeepsListing(s.notes, r.store.notes, i, other.id);
    }
  }

  /** `update_note` by one user changes no other user's listing. */
  lemma UpdateIsolated(s: Store, noteId: Id, body: NoteUpdateBody, user: User, other: User, skip: nat, limit: nat)
    requires other.id != user.id
    ensures GetNotes(UpdateNote(s, noteId, body, user).store, skip, limit, other) == GetNotes(s, skip, limit, other)
  {
    var r := UpdateNote(s, noteId, body, user);
    if r.note.Some? {
      var i :| RowReplaced(s.notes, r.store.notes, i, r.note.value)
        && Matches(s.notes[i], noteId, user)
        && FullyUpdated(s.notes[i], r.note.value, body, s.tags);
      ReplaceKeepsListing(s.notes, r.store.notes, i, r.note.value, other.id);
    }
  }

  /** `update_status_note` by one user changes no other user's listing. */
  lemma UpdateStatusIsolated(s: Store, noteId: Id, body: NoteStatusBody, user: User, other: User, skip: nat, limit: nat)
    requires other.id != user.id
    ensures GetNotes(UpdateStatusNote(s, noteId, body, user).store, skip, limit, other) == GetNotes(s, skip, limit, other)
  {
    var r := UpdateStatusNote(s, noteId, body, user);
    if r.note.Some? {
      var i :| RowReplaced(s.notes, r.store.notes, i, r.note.value)
        && Matches(s.notes[i], noteId, user)
        && r.note.value == s.notes[i].(done := body.done);
      ReplaceKeepsListing(s.notes, r.store.notes, i, r.note.value, other.id);
    }
  }
}
