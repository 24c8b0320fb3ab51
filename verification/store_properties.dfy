/**
 * Properties that relate several backend routes: reads after writes,
 * isolation between users, the upload/delete-photo round trip, and the
 * primary-key invariant every route keeps.
 */
module StoreProperties {
  import opened Results
  import opened Records
  import Seqs
  import Notes
  import Photos
  import Text

  /** A note created by one user is invisible to every other user, and so 404s for all of them. */
  lemma CreatedNoteIsPrivate(st: State, owner: int, other: int, body: NoteBody, newId: int, now: int)
    requires forall k :: 0 <= k < |st.notes| ==> st.notes[k].id != newId
    requires owner != other
    ensures var after := Notes.CreateNote(st, owner, body, newId, now).state;
      && Notes.GetNote(after, other, newId) == Err(NoteNotFound)
      && Notes.UpdateNote(after, other, newId, body) == Err(NoteNotFound)
      && Notes.DeleteNote(after, other, newId) == Err(NoteNotFound)
  {
    var after := Notes.CreateNote(st, owner, body, newId, now).state;
    forall k | 0 <= k < |after.notes|
      ensures !Owns(after.notes[k], newId, other)
    {
      if k < |st.notes| { assert after.notes[k] == st.notes[k]; }
    }
  }

  /** Reading a note back after updating it gives the body's fields with the old id, owner and timestamp. */
  lemma UpdateThenGet(st: State, caller: int, id: int, body: NoteBody, k: int)
    requires UniqueIds(st.notes)
    requires 0 <= k < |st.notes| && Owns(st.notes[k], id, caller)
    ensures Notes.UpdateNote(st, caller, id, body).Ok?
    ensures var after := Notes.UpdateNote(st, caller, id, body).value.state;
      Notes.GetNote(after, caller, id) ==
        Ok(Note(st.notes[k].id, st.notes[k].userId, body.tasting, body.photos, st.notes[k].createdAt))
  {
    var after := Notes.UpdateNote(st, caller, id, body).value.state;
    assert UniqueIds(after.notes) by {
      assert forall j :: 0 <= j < |st.notes| ==> after.notes[j].id == st.notes[j].id;
    }
    Notes.GetNoteUnique(after, caller, id, k);
  }

  /** After a delete the note 404s for its owner and none of its photos is left in the upload directory. */
  lemma DeleteThenGet(st: State, caller: int, id: int, k: int)
    requires UniqueIds(st.notes)
    requires 0 <= k < |st.notes| && Owns(st.notes[k], id, caller)
    ensures Notes.DeleteNote(st, caller, id).Ok?
    ensures var after := Notes.DeleteNote(st, caller, id).value.state;
      && Notes.GetNote(after, caller, id) == Err(NoteNotFound)
      && forall p :: p in PhotoList(st.notes[k]) ==> p !in after.files
  {
    var after := Notes.DeleteNote(st, caller, id).value.state;
    var found :| 0 <= found < |st.notes| && Owns(st.notes[found], id, caller) &&
      forall f :: f in after.files <==> f in st.files && f !in PhotoList(st.notes[found]);
    assert found == k;
    forall j | 0 <= j < |after.notes|
      ensures !Owns(after.notes[j], id, caller)
    {
      assert after.notes[j] in after.notes;
    }
    assert !Notes.Visible(after.notes, id, caller);
  }

  /** Rows picked out at increasing positions of a table with unique ids have unique ids. */
  lemma EmbedsKeepsUniqueIds(r: seq<Note>, s: seq<Note>, idx: seq<nat>)
    requires UniqueIds(s) && Seqs.Embeds(r, s, idx)
    ensures UniqueIds(r)
  {
    forall i, j | 0 <= i < j < |r|
      ensures r[i].id != r[j].id
    {
      assert idx[i] < idx[j];
    }
  }

  /** Rewriting rows in place without touching ids keeps ids unique. */
  lemma SameIdsKeepUniqueIds(before: seq<Note>, after: seq<Note>)
    requires UniqueIds(before)
    requires |after| == |before|
    requires forall k :: 0 <= k < |before| ==> after[k].id == before[k].id
    ensures UniqueIds(after)
  {
  }

  /** A successful update keeps `id` a key of the table. */
  lemma UpdateKeepsIdsUnique(st: State, caller: int, id: int, body: NoteBody)
    requires UniqueIds(st.notes)
    ensures var r := Notes.UpdateNote(st, caller, id, body); r.Ok? ==> UniqueIds(r.value.state.notes)
  {
    var r := Notes.UpdateNote(st, caller, id, body);
    if r.Ok? {
      SameIdsKeepUniqueIds(st.notes, r.value.state.notes);
    }
  }

  /** A successful delete keeps `id` a key of the table. */
  lemma DeleteKeepsIdsUnique(st: State, caller: int, id: int)
    requires UniqueIds(st.notes)
    ensures var r := Notes.DeleteNote(st, caller, id); r.Ok? ==> UniqueIds(r.value.state.notes)
  {
    var r := Notes.DeleteNote(st, caller, id);
    if r.Ok? {
      var idx := Seqs.FilterIsSubsequence(st.notes, (n: Note) => !Owns(n, id, caller));
      EmbedsKeepsUniqueIds(r.value.state.notes, st.notes, idx);
    }
  }

  /** A successful upload keeps `id` a key of the table. */
  lemma UploadKeepsIdsUnique(st: State, caller: int, id: int, original: string, stamp: string)
    requires UniqueIds(st.notes)
    ensures var r := Photos.UploadPhoto(st, caller, id, original, stamp); r.Ok? ==> UniqueIds(r.value.state.notes)
  {
    var r := Photos.UploadPhoto(st, caller, id, original, stamp);
    if r.Ok? {
      SameIdsKeepUniqueIds(st.notes, r.value.state.notes);
    }
  }

  /** A successful photo deletion keeps `id` a key of the table. */
  lemma DeletePhotoKeepsIdsUnique(st: State, caller: int, id: int, filename: string)
    requires UniqueIds(st.notes)
    ensures var r := Photos.DeletePhoto(st, caller, id, filename); r.Ok? ==> UniqueIds(r.value.state.notes)
  {
    var r := Photos.DeletePhoto(st, caller, id, filename);
    if r.Ok? {
      SameIdsKeepUniqueIds(st.notes, r.value.state.notes);
    }
  }

  /** Every name in every photo list is a file in the upload directory. */
  ghost predicate PhotosOnDisk(st: State) {
    forall k, p :: 0 <= k < |st.notes| && p in PhotoList(st.notes[k]) ==> p in st.files
  }

  /** An upload writes the file before the name enters the list, so photos stay backed by files. */
  lemma UploadKeepsPhotosOnDisk(st: State, caller: int, id: int, original: string, stamp: string)
    requires UniqueIds(st.notes) && PhotosOnDisk(st)
    ensures var r := Photos.UploadPhoto(st, caller, id, original, stamp); r.Ok? ==> PhotosOnDisk(r.value.state)
  {
    var r := Photos.UploadPhoto(st, caller, id, original, stamp);
    if r.Ok? {
      var after := r.value.state;
      var name := r.value.response.filename;
      forall k, p | 0 <= k < |after.notes| && p in PhotoList(after.notes[k])
        ensures p in after.files
      {
        if Owns(st.notes[k], id, caller) {
          assert PhotoList(after.notes[k]) == PhotoList(st.notes[k]) + [name];
        } else {
          assert after.notes[k] == st.notes[k];
        }
      }
    }
  }

  /**
   * Uploading a photo and then deleting the returned name restores the
   * upload directory and the note's photo list (a NULL list comes back
   * empty), when the generated name was neither a file nor in the list.
   */
  lemma UploadThenDeletePhotoRestores(st: State, caller: int, id: int, original: string, stamp: string)
    requires UniqueIds(st.notes)
    requires Notes.Visible(st.notes, id, caller)
    requires Photos.UploadName(caller, id, stamp, original) !in st.files
    requires forall k :: 0 <= k < |st.notes| && Owns(st.notes[k], id, caller) ==>
      Photos.UploadName(caller, id, stamp, original) !in PhotoList(st.notes[k])
    ensures var up := Photos.UploadPhoto(st, caller, id, original, stamp);
      && up.Ok?
      && UniqueIds(up.value.state.notes)
      && var down := Photos.DeletePhoto(up.value.state, caller, id, up.value.response.filename);
      && down.Ok?
      && down.value.state.files == st.files
      && |down.value.state.notes| == |st.notes|
      && forall k :: 0 <= k < |st.notes| ==>
           down.value.state.notes[k] ==
             if Owns(st.notes[k], id, caller) then st.notes[k].(photos := Some(PhotoList(st.notes[k])))
             else st.notes[k]
  {
    var up := Photos.UploadPhoto(st, caller, id, original, stamp).value;
    var name := up.response.filename;
    SameIdsKeepUniqueIds(st.notes, up.state.notes);
    var k :| 0 <= k < |st.notes| && Owns(st.notes[k], id, caller);
    assert Owns(up.state.notes[k], id, caller);
    assert name in PhotoList(up.state.notes[k]);
    var down := Photos.DeletePhoto(up.state, caller, id, name).value;
    forall j | 0 <= j < |st.notes|
      ensures down.state.notes[j] ==
        if Owns(st.notes[j], id, caller) then st.notes[j].(photos := Some(PhotoList(st.notes[j]))) else st.notes[j]
    {
      assert Owns(up.state.notes[j], id, caller) <==> Owns(st.notes[j], id, caller);
      if Owns(st.notes[j], id, caller) {
        assert PhotoList(up.state.notes[j]) == PhotoList(st.notes[j]) + [name];
        Seqs.RemoveFirstAppended(PhotoList(st.notes[j]), name);
      }
    }
  }

  /** `str(1)` is `"1"`. */
  lemma OneToString()
    ensures Text.IntToString(1) == "1"
  {
    assert Text.DigitChar(1) == '1';
  }

  /**
   * A walkthrough: user 1 creates a note (without photos, so its list is
   * NULL) as note 1 of an empty table, attaches a file such as `bottle.jpg`
   * at time `stamp`, user 2 is told the note does not exist, and user 1
   * deletes it, which removes the photo file as well.
   */
  lemma Walkthrough(tasting: Tasting, stem: string, ext: string, stamp: string)
    requires '/' !in stem && |stem| > 0 && stem[0] != '.'
    requires |ext| > 0 && ext[0] == '.' && '.' !in ext[1..] && '/' !in ext
    ensures
      var name := "1_1_" + stamp + ext;
      var created := Notes.CreateNote(State([], {}), 1, NoteBody(None, tasting, None, None), 1, 100);
      var up := Photos.UploadPhoto(created.state, 1, 1, stem + ext, stamp);
      && created.response.id == 1 && created.response.photos == None
      && up.Ok? && up.value.response.filename == name
      && up.value.state.files == {name}
      && PhotoList(up.value.state.notes[0]) == [name]
      && Notes.GetNote(up.value.state, 2, 1) == Err(NoteNotFound)
      && var gone := Notes.DeleteNote(up.value.state, 1, 1);
      && gone.Ok? && gone.value.state.files == {}
      && Notes.GetNote(gone.value.state, 1, 1) == Err(NoteNotFound)
  {
    Photos.UploadNameOfStem(1, 1, stamp, stem, ext);
    OneToString();
    var created := Notes.CreateNote(State([], {}), 1, NoteBody(None, tasting, None, None), 1, 100);
    assert Owns(created.state.notes[0], 1, 1);
    var up := Photos.UploadPhoto(created.state, 1, 1, stem + ext, stamp);
    assert Owns(up.value.state.notes[0], 1, 1);
    DeleteThenGet(up.value.state, 1, 1, 0);
  }
}
