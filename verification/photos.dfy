/**
 * The photo routes of the backend: `upload_photo` names the uploaded file,
 * adds it to the upload directory and appends the name to the note's photo
 * list; `delete_photo` drops the first occurrence of a name from the list
 * and removes the file. Both start with the ownership lookup of `get_note`.
 */
module Photos {
  import opened Results
  import opened Records
  import Text
  import Seqs
  import Notes

  /** The body of a successful upload: the stored name and the URL it is served under. */
  datatype Uploaded = Uploaded(filename: string, url: string)

  /** The directory the upload directory is served under. */
  const UploadsPath := "/uploads/"

  /**
   * The stored name `f"{user_id}_{note_id}_{timestamp}{ext}"`, where `stamp`
   * is the text of `datetime.now().timestamp()` and `ext` is the extension
   * `os.path.splitext` finds in the client's file name.
   */
  function UploadName(userId: int, noteId: int, stamp: string, original: string): (name: string)
    ensures Text.StartsWith(name, Text.IntToString(userId) + "_" + Text.IntToString(noteId) + "_")
  {
    Text.IntToString(userId) + "_" + (Text.IntToString(noteId) + "_" + (stamp + Text.SplitExt(original).1))
  }

  /** Stored names never collide across users or notes: the name determines both ids. */
  lemma UploadNameDeterminesOwnerAndNote(u1: int, n1: int, t1: string, o1: string, u2: int, n2: int, t2: string, o2: string)
    requires UploadName(u1, n1, t1, o1) == UploadName(u2, n2, t2, o2)
    ensures u1 == u2 && n1 == n2
  {
    var (a1, a2) := (Text.IntToString(u1), Text.IntToString(u2));
    var (b1, b2) := (Text.IntToString(n1), Text.IntToString(n2));
    var (x1, x2) := (t1 + Text.SplitExt(o1).1, t2 + Text.SplitExt(o2).1);
    Text.SplitAtSeparator(a1, b1 + ['_'] + x1, a2, b2 + ['_'] + x2, '_');
    Text.IntToStringInjective(u1, u2);
    Text.SplitAtSeparator(b1, x1, b2, x2, '_');
    Text.IntToStringInjective(n1, n2);
  }

  /** For a file name made of a stem and an extension, the stored name ends in the stamp and that extension. */
  lemma UploadNameOfStem(userId: int, noteId: int, stamp: string, stem: string, ext: string)
    requires '/' !in stem && |stem| > 0 && stem[0] != '.'
    requires |ext| > 0 && ext[0] == '.' && '.' !in ext[1..] && '/' !in ext
    ensures UploadName(userId, noteId, stamp, stem + ext) ==
      Text.IntToString(userId) + "_" + (Text.IntToString(noteId) + "_" + (stamp + ext))
  {
    Text.SplitExtOfStem(stem, ext);
  }

  /** The stored name keeps the extension of the uploaded file, when it has one. */
  lemma UploadNameKeepsExtension(userId: int, noteId: int, stamp: string, original: string)
    requires '/' !in stamp
    requires Text.SplitExt(original).1 != []
    ensures Text.SplitExt(UploadName(userId, noteId, stamp, original)).1 == Text.SplitExt(original).1
  {
    var stem := Text.IntToString(userId) + "_" + Text.IntToString(noteId) + "_" + stamp;
    var ext := Text.SplitExt(original).1;
    assert UploadName(userId, noteId, stamp, original) == stem + ext;
    assert stem[0] == Text.IntToString(userId)[0];
    assert '/' !in Text.IntToString(userId) && '/' !in Text.IntToString(noteId);
    Text.SplitExtOfStem(stem, ext);
  }

  /**
   * `POST /api/upload-photo/{id}` (`upload_photo`): after the ownership
   * check, writes the file under its generated name (overwriting a file of
   * that name) and sets the note's photo list to its old list, NULL read as
   * empty, with the name appended.
   */
  function UploadPhoto(st: State, caller: int, id: int, original: string, stamp: string): (r: Result<Step<Uploaded>, HttpError>)
    requires UniqueIds(st.notes)
    ensures r.Ok? <==> Notes.Visible(st.notes, id, caller)
    ensures r.Err? ==> r.error == NoteNotFound
    ensures r.Ok? ==> var name := r.value.response.filename;
      && name == UploadName(caller, id, stamp, original)
      && r.value.response.url == UploadsPath + name
      && r.value.state.files == st.files + {name}
      && |r.value.state.notes| == |st.notes|
      && forall k :: 0 <= k < |st.notes| ==>
           var (before, after) := (st.notes[k], r.value.state.notes[k]);
           && (Owns(before, id, caller) ==> after == before.(photos := Some(PhotoList(before) + [name])))
           && (!Owns(before, id, caller) ==> after == before)
  {
    match Notes.GetNote(st, caller, id)
    case Err(e) => Err(e)
    case Ok(note) =>
      var name := UploadName(caller, id, stamp, original);
      var photos := PhotoList(note) + [name];
      var notes' := seq(|st.notes|, k requires 0 <= k < |st.notes| =>
        if Owns(st.notes[k], id, caller) then st.notes[k].(photos := Some(photos)) else st.notes[k]);
      Ok(Step(State(notes', st.files + {name}), Uploaded(name, UploadsPath + name)))
  }

  /**
   * `DELETE /api/delete-photo/{id}/{filename}` (`delete_photo`): after the
   * ownership check, fails with 404 "Photo not found" when the name is not in
   * the note's list; otherwise drops its first occurrence from the list and
   * removes the file if present.
   */
  function DeletePhoto(st: State, caller: int, id: int, filename: string): (r: Result<Step<string>, HttpError>)
    requires UniqueIds(st.notes)
    ensures !Notes.Visible(st.notes, id, caller) ==> r == Err(NoteNotFound)
    ensures forall k :: 0 <= k < |st.notes| && Owns(st.notes[k], id, caller) ==>
      (r.Ok? <==> filename in PhotoList(st.notes[k]))
    ensures Notes.Visible(st.notes, id, caller) && r.Err? ==> r.error == PhotoNotFound
    ensures r.Ok? ==>
      && r.value.state.files == st.files - {filename}
      && |r.value.state.notes| == |st.notes|
      && forall k :: 0 <= k < |st.notes| ==>
           var (before, after) := (st.notes[k], r.value.state.notes[k]);
           && (Owns(before, id, caller) ==> after == before.(photos := Some(Seqs.RemoveFirst(PhotoList(before), filename))))
           && (!Owns(before, id, caller) ==> after == before)
  {
    match Notes.GetNote(st, caller, id)
    case Err(e) => Err(e)
    case Ok(note) =>
      var current := PhotoList(note);
      if filename in current then
        var photos := Seqs.RemoveFirst(current, filename);
        var notes' := seq(|st.notes|, k requires 0 <= k < |st.notes| =>
          if Owns(st.notes[k], id, caller) then st.notes[k].(photos := Some(photos)) else st.notes[k]);
        Ok(Step(State(notes', st.files - {filename}), "Photo deleted successfully"))
      else
        Err(PhotoNotFound)
  }
}
