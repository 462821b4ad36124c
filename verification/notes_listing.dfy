/** A single-scan formulation of `get_notes`: one pass over the note table
    in storage order, counting the caller's rows, skipping the first `skip`
    of them and collecting at most `limit`. */
module NotesListing {
  import opened NoteModels
  import opened NotesRepository

  /** Offset and limit applied to a growing result: a new last row joins the
      page only when the offset is used up and the page is not full. */
  lemma PageSnoc(xs: seq<Note>, x: Note, skip: nat, limit: nat)
    ensures Page(xs + [x], skip, limit)
         == if skip <= |xs| && |Page(xs, skip, limit)| < limit
            then Page(xs, skip, limit) + [x]
            else Page(xs, skip, limit)
  {
    var p := Page(xs, skip, limit);
    var q := Page(xs + [x], skip, limit);
    if skip <= |xs| && |p| < limit {
      assert |q| == |p| + 1;
      forall i | 0 <= i < |q|
        ensures q[i] == (p + [x])[i]
      {
        if i < |p| {
          assert q[i] == (xs + [x])[skip + i] == xs[skip + i];
        }
      }
    } else {
      assert |q| == |p|;
      forall i | 0 <= i < |q|
        ensures q[i] == p[i]
      {
        assert q[i] == (xs + [x])[skip + i] == xs[skip + i];
      }
    }
  }

  /** One scan of the table yields exactly the page `get_notes` returns. */
  method ListNotes(s: Store, skip: nat, limit: nat, user: User) returns (page: seq<Note>)
    ensures page == GetNotes(s, skip, limit, user)
  {
    page := [];
    var seen := 0;
    var i := 0;
    while i < |s.notes|
      invariant 0 <= i <= |s.notes|
      invariant seen == |OwnedBy(s.notes[..i], user.id)|
      invariant page == Page(OwnedBy(s.notes[..i], user.id), skip, limit)
    {
      var n := s.notes[i];
      var prefix := s.notes[..i];
      assert s.notes[..i + 1] == prefix + [n];
      OwnedBySnoc(prefix, n, user.id);
      if n.userId == user.id {
        PageSnoc(OwnedBy(prefix, user.id), n, skip, limit);
        if skip <= seen && |page| < limit {
          page := page + [n];
        }
        seen := seen + 1;
      }
      i := i + 1;
    }
    assert s.notes[..i] == s.notes;
  }
}
