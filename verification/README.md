# Ownership-scoped note repository

A Dafny model of the note repository of a contacts-and-notes REST backend
(`src/repository/notes.py`). The repository holds six operations:
`get_notes`, `get_note`, `create_note`, `remove_note`, `update_note` and
`update_status_note`. Each one is scoped to the requesting user. Create and
update also turn a list of tag ids from the request body into tag rows.

The database is modelled as a value. A `Store` holds two tables in storage
order: a sequence of `Note` rows and a sequence of `Tag` rows. Each operation
is a pure function from the store and its arguments to the next store and
what the call returns (`Option<Note>`, where `None` is the source's `None`).
`Valid` states the primary-key guarantee: note ids are distinct and tag ids
are distinct. Every operation preserves it.

Modules:
- `Wrappers` (`wrappers.dfy`): `Option`.
- `NoteModels` (`models.dfy`): rows, request bodies, the store, `Valid` and the
  id-and-owner filter `Matches`.
- `NotesRepository` (`notes.dfy`): the query building blocks (owner filter,
  offset/limit, first match, the two tag queries) and the six operations.
  Each operation's contract covers the absent path ("absence is returned and
  nothing changes") and the frame ("exactly one row changes, only in the
  fields the call names").
- `NotesProperties` (`notes_properties.dfy`): lemmas relating the operations:
  - lookup after each mutation;
  - lookups of other ids are unaffected;
  - one user's mutations never change another user's listing;
  - paging;
  - idempotence of the status update;
  - the different tag resolution of create and update.
- `NotesListing` (`notes_listing.dfy`): `get_notes` as a single scan of the
  table, proved equal to the functional definition.

Tag resolution differs between create and update, and the model keeps the
code as written. `create_note` (line 48) keeps a listed tag only when
`Tag.user_id == user.id`. The tag query of `update_note` (line 91) filters on
`Note.user_id == user.id` instead, which joins the tag and note tables. The
model writes this query out as that join (`CrossJoinTags`). Inside
`update_note` the caller always owns the note being updated, so the join's
condition always holds. Every listed tag is therefore attached, including
tags owned by other users. `UpdateAttachesListedTags` proves this in general.
`ForeignTagAsymmetry` shows one store where create drops a foreign tag that
update attaches. In short: `create_note` drops tags the caller does not own;
`update_note` does not.

## Model

| member | source | states |
|---|---|---|
| NotesRepository.OwnedBy | src/repository/notes.py:20 | the owner filter keeps exactly the rows of the table owned by the user, and no more rows than the table has; its storage order and repeats are fixed by the partners `OwnedByAppend` and `OwnedBySnoc` |
| NotesRepository.OwnedByAppend | src/repository/notes.py:20 | filtering two tables laid end to end gives the first table's owned rows followed by the second's, so the filter keeps storage order |
| NotesRepository.OwnedBySnoc | src/repository/notes.py:20 | a row added at the end of the table is added once, at the end, to its owner's rows and to no one else's; from the empty table this is the one-row case |
| NotesRepository.Page | src/repository/notes.py:20 | offset/limit yields the rows from position `skip` on, in order, `min(limit, rows left)` of them, none when the offset passes the end |
| NotesRepository.GetNotes | src/repository/notes.py:20 | at most `limit` notes, every one in the table and owned by the caller, and the i-th is the caller's (skip+i)-th note in storage order; empty when `skip` passes the caller's note count |
| NotesListing.ListNotes | src/repository/notes.py:20 | one scan of the table that counts, skips and collects the caller's rows returns exactly the page `GetNotes` defines |
| NotesProperties.PagesConcatenate | src/repository/notes.py:20 | the page at `skip` of size `a` followed by the page at `skip + a` of size `b` is the page at `skip` of size `a + b` |
| NotesProperties.GetNotesCoversOwned | src/repository/notes.py:20 | with a large enough limit and no offset the listing holds every note of the caller and nothing else |
| NotesRepository.FindOwned | src/repository/notes.py:36 | `first()` picks the earliest row passing the id-and-owner filter; absence exactly when no row passes |
| NotesRepository.GetNote | src/repository/notes.py:36 | a returned note is in the table with the requested id and the caller as owner; absence exactly when no such row exists |
| NotesProperties.GetNoteIffPresent | src/repository/notes.py:36 | in a valid store `get_note` returns a row if and only if that row is present and owned by the caller |
| NotesProperties.GetNoteForeignIsNone | src/repository/notes.py:36 | a note owned by another user is never returned |
| NotesProperties.LookupAgrees | src/repository/notes.py:36 | two valid stores holding the same rows that pass the filter answer `get_note` alike |
| NotesRepository.OwnedTagsWithIds | src/repository/notes.py:48 | the create tag query keeps exactly the tag rows whose id is listed and whose owner is the caller |
| NotesRepository.FreshNoteId | src/repository/notes.py:49-52 | the id given to a new row is positive and used by no existing row |
| NotesRepository.CreateNote | src/repository/notes.py:48-53 | appends exactly one row with a fresh id, the body's title and description, owned by the caller; its tags are exactly the listed tags the caller owns, so foreign and unknown ids are dropped; the tag table and all existing rows are unchanged; validity is preserved |
| NotesProperties.CreateThenGet | src/repository/notes.py:36-53 | after create the caller fetches the new row with the body's fields, and any other user gets absence |
| NotesProperties.CreateKeepsOtherLookups | src/repository/notes.py:48-53 | create changes no lookup of any other id |
| NotesProperties.CreateListing | src/repository/notes.py:49-51 | create appends the new row to the caller's notes and leaves every other user's listing unchanged |
| NotesRepository.RemoveNote | src/repository/notes.py:70-74 | absence exactly when no owned row has the id, and then the store is unchanged; otherwise exactly that row is deleted and returned, the other rows kept in order, and tags untouched |
| NotesProperties.RemoveThenGet | src/repository/notes.py:36-74 | after remove, `get_note` on the same id and user returns absence |
| NotesProperties.RemoveKeepsOtherLookups | src/repository/notes.py:70-74 | remove changes no lookup of any other id |
| NotesProperties.RemoveIsolated | src/repository/notes.py:70-74 | remove by one user leaves every other user's listing unchanged |
| NotesRepository.JoinRowsFor | src/repository/notes.py:91 | one tag contributes rows to the cross join exactly when its id is listed and the user owns some note, and only copies of itself |
| NotesRepository.CrossJoinTags | src/repository/notes.py:91 | the update tag query as written keeps a tag row exactly when its id is listed and the user owns some note, with no test on the tag's owner |
| NotesRepository.UpdateNote | src/repository/notes.py:89-97 | absence exactly when no owned row has the id, and then the store is unchanged; otherwise only the matched row changes: same id and owner, title, description and done from the body, tags exactly the listed tag rows whoever owns them; validity is preserved |
| NotesProperties.UpdateThenGet | src/repository/notes.py:89-97 | the updated row is what `get_note` returns afterwards |
| NotesProperties.UpdateKeepsOtherLookups | src/repository/notes.py:89-97 | update changes no lookup of any other id |
| NotesProperties.UpdateIsolated | src/repository/notes.py:89-97 | update by one user leaves every other user's listing unchanged |
| NotesProperties.UpdateAttachesListedTags | src/repository/notes.py:91-95 | on an owned note, every listed tag in the tag table is attached, including tags owned by other users |
| NotesProperties.ForeignTagAsymmetry | src/repository/notes.py:48-95 | in one concrete store, a tag of user 2 listed by user 1 is dropped by create but attached by update |
| NotesRepository.UpdateStatusNote | src/repository/notes.py:112-116 | absence exactly when no owned row has the id, and then the store is unchanged; otherwise only the matched row changes, and only in `done` |
| NotesProperties.UpdateStatusThenGet | src/repository/notes.py:112-116 | after the status update `get_note` returns the new row, and the row before differs from it only in `done` |
| NotesProperties.UpdateStatusIdempotent | src/repository/notes.py:112-116 | applying the same status update twice gives the same store and result as applying it once |
| NotesProperties.UpdateStatusIsolated | src/repository/notes.py:112-116 | the status update by one user leaves every other user's listing unchanged |

## Left out

- Session mechanics (`commit`, `refresh`, the identity map, lazy loading) and `async`/`await`. Each call is one atomic step from one store value to the next.
- Negative `skip` or `limit`: they are `nat` here. What the database does with a negative OFFSET or LIMIT depends on the backend: some reject it, others ignore the bound.
- The initial value of `done` on a new note is a column default defined in `src/database/models`, which is not part of this model. `CreateNote` takes it as the parameter `initialDone`.
- NotesRepository.FreshNoteId: the database may assign any unused id. The model picks one more than the largest id in the table. No lemma depends on that choice, only on freshness.
- `get_notes` has no ORDER BY; the model assumes one row order shared by all calls, which the database does not promise; `PagesConcatenate` and `CreateListing` depend on it.
- Storage order is abstract. A created row goes at the end of the table, and `first()` picks the earliest match. Under unique ids at most one row matches, so the choice of match does not matter.
- The cross join at line 91 can return a tag more than once. Notes hold a set of tags, so the repeats collapse.
- The tag table is never changed by these six operations. Join-table rows are folded into each note's tag set, and their cleanup on delete is not modelled.
- `src/schemas` is not part of this model. The request bodies hold only the fields the repository reads.
- `src/services/mail.py` is not modelled: it is outbound SMTP, a module-level configuration and token creation in an unseen service, with errors only printed.
- The test files are not modelled: they are a test harness with HTTP, Redis and rate-limiter mocking, plus mock-based unit tests.
- The contacts, tags and users repositories are not modelled, since their source is not part of this model.
