/** Rows, request bodies and the table store the note repository works on. */
module NoteModels {

  /** Primary and foreign keys are SQL integers. */
  type Id = int

  /** The authenticated caller; only its id is ever consulted. */
  datatype User = User(id: Id)

  /** A row of the tag table, owned by the user `userId`. */
  datatype Tag = Tag(id: Id, name: string, userId: Id)

  /** A row of the note table together with its many-to-many tag set. */
  datatype Note = Note(
    id: Id,
    title: string,
    description: string,
    done: bool,
    tags: set<Tag>,
    userId: Id)

  /** Body of a create request: the tag ids are references still to be resolved. */
  datatype NoteBody = NoteBody(title: string, description: string, tags: seq<Id>)

  /** Body of a full update request. */
  datatype NoteUpdateBody = NoteUpdateBody(title: string, description: string, tags: seq<Id>, done: bool)

  /** Body of a status-only update request. */
  datatype NoteStatusBody = NoteStatusBody(done: bool)

  /** The database as two tables, each in storage order. */
  datatype Store = Store(notes: seq<Note>, tags: seq<Tag>)

  /** Primary keys of the note table are distinct. */
  predicate UniqueNoteIds(notes: seq<Note>)
  {
    forall i, j :: 0 <= i < j < |notes| ==> notes[i].id != notes[j].id
  }

  /** Primary keys of the tag table are distinct. */
  predicate UniqueTagIds(tags: seq<Tag>)
  {
    forall i, j :: 0 <= i < j < |tags| ==> tags[i].id != tags[j].id
  }

  /** What the database's primary-key constraints guarantee of every state. */
  predicate Valid(s: Store)
  {
    UniqueNoteIds(s.notes) && UniqueTagIds(s.tags)
  }

  /** The ids of all note rows. */
  function NoteIds(notes: seq<Note>): set<Id>
  {
    set n | n in notes :: n.id
  }

  /** The filter `Note.id == note_id AND Note.user_id == user.id`. */
  predicate Matches(n: Note, noteId: Id, user: User)
  {
    n.id == noteId && n.userId == user.id
  }

  /** True when some row of `notes` passes the id-and-owner filter. */
  predicate HasOwned(notes: seq<Note>, noteId: Id, user: User)
  {
    exists n :: n in notes && Matches(n, noteId, user)
  }

  /** The rows of a sequence, forgetting order and repetition. */
  function AsSet<T>(xs: seq<T>): set<T>
  {
    set x | x in xs
  }
}
