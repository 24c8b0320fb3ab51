/**
 * The owner-scoped note routes of the backend: list, get, create, update
 * and delete. Every route except list and create starts with the ownership
 * lookup of `get_note`; when no row has the requested id and the caller's
 * user id the route fails with 404 "Note not found" and nothing changes
 * (an error carries no new state).
 */
module Notes {
  import opened Results
  import opened Records
  import Seqs
  import Ordering

  /** Some row has id `id` and belongs to `caller`. */
  predicate Visible(notes: seq<Note>, id: int, caller: int) {
    exists k :: 0 <= k < |notes| && Owns(notes[k], id, caller)
  }

  /** `GET /api/notes/{id}` (`get_note`): the caller's row with that id, or 404. */
  function GetNote(st: State, caller: int, id: int): (r: Result<Note, HttpError>)
    ensures r.Ok? <==> Visible(st.notes, id, caller)
    ensures r.Ok? ==> r.value in st.notes && Owns(r.value, id, caller)
    ensures r.Err? ==> r.error == NoteNotFound
  {
    var owned := Seqs.Filter(st.notes, (n: Note) => Owns(n, id, caller));
    if |owned| == 0 then
      assert forall k :: 0 <= k < |st.notes| ==> multiset(owned)[st.notes[k]] == 0;
      Err(NoteNotFound)
    else
      assert owned[0] in multiset(owned);
      Ok(owned[0])
  }

  /** With unique ids the caller's row with a given id is the only one that can be found. */
  lemma GetNoteUnique(st: State, caller: int, id: int, k: int)
    requires UniqueIds(st.notes)
    requires 0 <= k < |st.notes| && Owns(st.notes[k], id, caller)
    ensures GetNote(st, caller, id) == Ok(st.notes[k])
  {
  }

  /** A row-wise rewrite that keeps each owned row owned keeps the note visible. */
  lemma OwnedRowsStayVisible(notes: seq<Note>, notes': seq<Note>, id: int, caller: int)
    requires Visible(notes, id, caller)
    requires |notes'| == |notes|
    requires forall k :: 0 <= k < |notes| && Owns(notes[k], id, caller) ==> Owns(notes'[k], id, caller)
    ensures Visible(notes', id, caller)
  {
    var k :| 0 <= k < |notes| && Owns(notes[k], id, caller);
    assert Owns(notes'[k], id, caller);
  }

  /** `GET /api/notes` (`get_notes`): exactly the caller's rows, most recently created first. */
  function ListNotes(st: State, caller: int): (r: seq<Note>)
    ensures forall n :: multiset(r)[n] == if n.userId == caller then multiset(st.notes)[n] else 0
    ensures Ordering.NewestFirst(r)
  {
    Ordering.SortNewestFirst(Seqs.Filter(st.notes, (n: Note) => n.userId == caller))
  }

  /**
   * `POST /api/notes` (`create_note`): inserts a row owned by the caller with
   * the body's tasting fields and photos, the server's timestamp `now` and the
   * key `newId` the database allocates; the body's own id and created_at are
   * dropped. The response is the row read back with `get_note`.
   */
  function CreateNote(st: State, caller: int, body: NoteBody, newId: int, now: int): (r: Step<Note>)
    requires forall k :: 0 <= k < |st.notes| ==> st.notes[k].id != newId
    ensures r.response.id == newId && r.response.userId == caller && r.response.createdAt == now
    ensures r.response.tasting == body.tasting && r.response.photos == body.photos
    ensures r.state.notes == st.notes + [r.response] && r.state.files == st.files
    ensures GetNote(r.state, caller, newId) == Ok(r.response)
    ensures UniqueIds(st.notes) ==> UniqueIds(r.state.notes)
  {
    var row := Note(newId, caller, body.tasting, body.photos, now);
    var st' := st.(notes := st.notes + [row]);
    assert Owns(st'.notes[|st.notes|], newId, caller);
    Step(st', GetNote(st', caller, newId).value)
  }

  /**
   * `PUT /api/notes/{id}` (`update_note`): after the ownership check, every
   * row with that id and owner takes the body's tasting fields and photos
   * (omitted photos become NULL); id, owner and created_at stay. The
   * response is the row read back.
   */
  function UpdateNote(st: State, caller: int, id: int, body: NoteBody): (r: Result<Step<Note>, HttpError>)
    ensures r.Ok? <==> Visible(st.notes, id, caller)
    ensures r.Err? ==> r.error == NoteNotFound
    ensures r.Ok? ==> r.value.state.files == st.files && |r.value.state.notes| == |st.notes|
    ensures r.Ok? ==> forall k :: 0 <= k < |st.notes| ==>
      var (before, after) := (st.notes[k], r.value.state.notes[k]);
      && after.id == before.id && after.userId == before.userId && after.createdAt == before.createdAt
      && (Owns(before, id, caller) ==> after.tasting == body.tasting && after.photos == body.photos)
      && (!Owns(before, id, caller) ==> after == before)
    ensures r.Ok? ==> var n := r.value.response;
      Owns(n, id, caller) && n.tasting == body.tasting && n.photos == body.photos && n in r.value.state.notes
  {
    match GetNote(st, caller, id)
    case Err(e) => Err(e)
    case Ok(existing) =>
      var notes' := seq(|st.notes|, k requires 0 <= k < |st.notes| =>
        if Owns(st.notes[k], id, caller) then st.notes[k].(tasting := body.tasting, photos := body.photos)
        else st.notes[k]);
      var st' := st.(notes := notes');
      OwnedRowsStayVisible(st.notes, notes', id, caller);
      Ok(Step(st', GetNote(st', caller, id).value))
  }

  /**
   * `DELETE /api/notes/{id}` (`delete_note`): after the ownership check,
   * removes from the upload directory every name in the note's photo list
   * (absent ones are skipped), then deletes the caller's rows with that id.
   */
  function DeleteNote(st: State, caller: int, id: int): (r: Result<Step<string>, HttpError>)
    ensures r.Ok? <==> Visible(st.notes, id, caller)
    ensures r.Err? ==> r.error == NoteNotFound
    ensures r.Ok? ==> forall n :: n in r.value.state.notes <==> n in st.notes && !Owns(n, id, caller)
    ensures r.Ok? ==> forall n :: multiset(r.value.state.notes)[n] == if Owns(n, id, caller) then 0 else multiset(st.notes)[n]
    ensures r.Ok? ==> (exists k :: 0 <= k < |st.notes| && Owns(st.notes[k], id, caller) &&
                        forall f :: f in r.value.state.files <==> f in st.files && f !in PhotoList(st.notes[k]))
  {
    match GetNote(st, caller, id)
    case Err(e) => Err(e)
    case Ok(note) =>
      var files' := st.files - set p | p in PhotoList(note);
      var notes' := Seqs.Filter(st.notes, (n: Note) => !Owns(n, id, caller));
      assert forall n :: n in notes' <==> multiset(notes')[n] > 0;
      Ok(Step(State(notes', files'), "Note deleted successfully"))
  }
}
