# Vinobook in Dafny

Vinobook is a personal wine-tasting notebook. A FastAPI backend keeps a
`wine_notes` table in which every row belongs to one user. Users log in with a
demo login, and photos are stored in an upload directory. A single-page React
client lists, searches, edits and colour-codes the notes. This project models
the core of both sides as pure functions over immutable data:

- `Results`: `Option` and `Result`.
- `Text`: the Python and JavaScript string operations the code relies on.
  These are `split("@")[0]`, `str.replace(..., 1)`, `os.path.splitext`,
  `str(int)`, `includes` and `toLowerCase`.
- `Seqs`: `filter`, `list.index` and `list.remove`.
- `Records`: the table rows, the request bodies and the store.
- `Config`: the `DATABASE_URL` rewrite.
- `Users`: `demo_login`.
- `Notes`: list, get, create, update and delete of notes, each scoped to the
  note's owner.
- `Ordering`: the newest-first order of the list route.
- `Photos`: `upload_photo` and `delete_photo`.
- `StoreProperties`: properties that relate several routes.
- `Js` and `Client`: the client's note normalisation, search filter, colour
  badge, edit form and photo-list updates.

The store is `State(notes, files)`:

- `notes` is the sequence of `wine_notes` rows in table order.
- `files` is the set of names in the upload directory.

Each route is a function from the state and the request to either a 404
`HttpError` or a `Step` that carries the new state and the response body.
The `WHERE id = ? AND user_id = ?` of every owner-scoped statement is modelled
row by row (`Records.Owns`), so the model does not assume that `id` is
unique. Where a proof needs unique ids, `Records.UniqueIds` is a
precondition, and the routes are proved to keep it.

Values that come from outside the code are parameters:

- the id the database allocates on insert;
- the timestamp of `datetime.utcnow()`;
- the text of `datetime.now().timestamp()`;
- the environment variable;
- the outcome of each client request and of `window.confirm`;
- `JSON.parse`.

## Model

| member | source | states |
|---|---|---|
| Config.DatabaseUrl | backend/main.py:22-24 | Without the variable the URL is the local SQLite file. A URL that starts with `postgres://` has that prefix replaced by `postgresql://` and keeps the rest. Any other URL is used as given. |
| Config.RewriteIsStable | backend/main.py:22-24 | Feeding the resulting URL back through the rewrite changes nothing: the rewrite is idempotent. |
| Users.FindByEmail | backend/main.py:213-214 | The lookup returns a user with that email exactly when one exists, and the user it returns is in the directory. |
| Users.DefaultName | backend/main.py:217 | The name is the longest prefix of the email without `@`. When it is shorter than the email, the next character is the `@`, and an email without `@` is its own name. |
| Users.DemoLogin | backend/main.py:210-227 | A known email gets its existing user's id and leaves the directory unchanged. An unknown email appends exactly one user, with the allocated id and the default name, and gets that id. |
| Users.DemoLoginIdempotent | backend/main.py:210-227 | A second login with the same email returns the same id and adds nobody. |
| Users.DemoLoginKeepsDirectoryWellFormed | backend/main.py:213-218 | With a fresh allocated id, ids and emails stay unique after a login. |
| Notes.GetNote | backend/main.py:236-245 | It succeeds exactly when some row has the id and belongs to the caller. The row it returns is such a row, and a failure is 404 "Note not found". |
| Notes.GetNoteUnique | backend/main.py:239-242 | When ids are unique, the row found is the caller's only row with that id. |
| Notes.ListNotes | backend/main.py:229-234 | The result holds exactly the caller's rows, each as often as in the table, with `created_at` never increasing. |
| Ordering.SortNewestFirst | backend/main.py:232 | The result is a permutation of the input, ordered by `created_at` descending. |
| Ordering.Insert | backend/main.py:232 | Inserting into a newest-first sequence keeps it newest first and adds exactly the one row. |
| Notes.CreateNote | backend/main.py:247-263 | The new row has the allocated id, the caller as owner, the server's timestamp and the body's fields; the body's own id and created_at are ignored. It is appended and nothing else changes. A `get_note` by its creator returns it, and ids stay unique. |
| Notes.UpdateNote | backend/main.py:265-283 | It succeeds exactly when the caller owns a row with that id, and otherwise fails with 404. The caller's rows with the id take the body's fields and photos and keep their id, owner and timestamp. Every other row and the upload directory are unchanged. The response is an owned row of the new table. |
| Notes.DeleteNote | backend/main.py:285-301 | It succeeds exactly when the caller owns a row with that id, and otherwise fails with 404. The remaining rows are exactly the rows not owned by the caller with that id, each as often as before. The files that remain are the old files minus the photos of the note that was found. |
| StoreProperties.CreatedNoteIsPrivate | backend/main.py:236-301 | Another user gets 404 from get, update and delete of a note just created by its owner. |
| StoreProperties.UpdateThenGet | backend/main.py:265-283 | Reading after an update returns the body's fields under the old id, owner and timestamp. |
| StoreProperties.DeleteThenGet | backend/main.py:285-301 | After a delete the note 404s for its owner and none of its photos remains in the upload directory. |
| StoreProperties.UpdateKeepsIdsUnique | backend/main.py:278-280 | An update keeps `id` unique across the table. |
| StoreProperties.DeleteKeepsIdsUnique | backend/main.py:297-300 | A delete keeps `id` unique across the table. |
| StoreProperties.UploadKeepsIdsUnique | backend/main.py:336-340 | A photo upload keeps `id` unique across the table. |
| StoreProperties.DeletePhotoKeepsIdsUnique | backend/main.py:368-372 | A photo deletion keeps `id` unique across the table. |
| StoreProperties.EmbedsKeepsUniqueIds | backend/main.py:297-300 | Rows taken in order from a table with unique ids have unique ids. |
| StoreProperties.SameIdsKeepUniqueIds | backend/main.py:278-280 | Rewriting rows in place without changing their ids keeps ids unique. |
| Photos.UploadName | backend/main.py:313-315 | The stored name starts with the caller's id, `_`, the note id and `_`. |
| Photos.UploadNameDeterminesOwnerAndNote | backend/main.py:313-315 | Two uploads that share a stored name were made by the same user to the same note: names never collide across users or notes. |
| Photos.UploadNameKeepsExtension | backend/main.py:314-315 | When the stamp has no `/` and the uploaded name has an extension, the stored name has the same extension. |
| Photos.UploadNameOfStem | backend/main.py:313-315 | For an uploaded name made of a stem and an extension, the stored name is the caller's id, `_`, the note id, `_`, the stamp and that extension. |
| Photos.UploadPhoto | backend/main.py:303-342 | It succeeds exactly when the caller owns the note, and otherwise fails with 404. The name is the generated one and is added to the upload directory. The URL is `/uploads/` followed by the name. The owned rows' photo lists (NULL read as empty) gain the name at the end, and other rows are unchanged. |
| Photos.DeletePhoto | backend/main.py:344-376 | A note the caller does not own gives 404 "Note not found". For an owned note it succeeds exactly when the name is in the note's photo list, and otherwise gives 404 "Photo not found". On success the file is gone, the owned rows lose the first occurrence of the name, and other rows are unchanged. |
| StoreProperties.UploadKeepsPhotosOnDisk | backend/main.py:318-328 | After an upload, every name in every photo list still names a file in the upload directory, given that this held before. |
| StoreProperties.UploadThenDeletePhotoRestores | backend/main.py:303-376 | Deleting the name an upload returned restores the upload directory and the note's photo list, with a NULL list coming back as an empty one. |
| StoreProperties.Walkthrough | backend/main.py:236-342 | User 1 creates a note without photos, and the response carries a NULL photo list. User 1 uploads a file such as `bottle.jpg` to it, which stores one file named `1_1_` followed by the stamp and the extension, and lists that name. User 2 gets 404 for the note. User 1 deletes it, which empties the upload directory, and the note then 404s for its owner too. |
| Seqs.Filter | frontend/src/App.jsx:246 | A kept element occurs as often as in the input, and a dropped one does not occur. |
| Seqs.FilterIsSubsequence | frontend/src/App.jsx:246 | The filtered elements occur in the input at strictly increasing positions. |
| Seqs.FilterKeepAll | frontend/src/App.jsx:255-259 | Filtering with a test every element passes returns the input. |
| Seqs.IndexOf | backend/main.py:355 | The index points to an `x`, and no `x` occurs before it. |
| Seqs.RemoveFirst | backend/main.py:354-355 | Without an `x` the list is unchanged; with one, it is one element shorter. |
| Seqs.RemoveFirstAtIndex | backend/main.py:354-355 | Removal keeps every element before the first `x` and every element after it. |
| Seqs.RemoveFirstAppended | backend/main.py:328-355 | Removing an `x` appended to a list that held none gives back the list. |
| Text.BeforeFirst | backend/main.py:217 | The result is a prefix of the input without the separator, followed in the input by the separator when it is shorter. |
| Text.FindFirst | backend/main.py:24 | The position found is an occurrence with none before it. No position is found exactly when there is no occurrence. |
| Text.ReplaceFirst | backend/main.py:24 | Without an occurrence of the target the string is unchanged. Otherwise the first occurrence, wherever it is, is replaced and everything around it is kept. |
| Text.ReplaceFirstAtStart | backend/main.py:23-24 | For a string that starts with the target, the replacement takes the target's place and the rest follows unchanged. |
| Text.SplitExt | backend/main.py:314 | Stem and extension concatenate to the path. An extension is found exactly when the final path component has a `.` preceded within the component by a character other than `.`, so `photos/a.jpg` splits but `.bashrc` does not. A found extension starts with its only `.` and has no `/`. |
| Text.HasExtensionByLastDot | backend/main.py:314 | The extension condition holds exactly when the last `.` comes after the last `/` with a character other than `.` between them, which is the test `splitext` makes. |
| Text.SplitExtOfStem | backend/main.py:314 | Appending an extension (a `.` followed by neither `.` nor `/`) to a non-empty stem with no `/` that does not start with `.` gives a path that splits back into that stem and extension. |
| Text.IntToString | backend/main.py:315 | The text is non-empty and made of digits, except for a leading `-`, which appears exactly for negative numbers. |
| Text.ParseNatToString | backend/main.py:315 | Reading back the digits of `str(n)` gives `n`. |
| Text.IntToStringInjective | backend/main.py:315 | Different integers have different texts. |
| Text.SplitAtSeparator | backend/main.py:315 | Two strings `a + sep + x` that agree, where the `a` parts hold no separator, agree on `a` and on `x`. |
| Text.IncludesEmpty | frontend/src/App.jsx:256 | Every string includes the empty string. |
| Client.NormalisePhotos | frontend/src/App.jsx:77-80 | Only `photos` changes. Missing or null photos become `[]`, an array is kept, and only photos held as a string can fail to parse. |
| Client.NormaliseNotes | frontend/src/App.jsx:75-81 | Normalisation fails exactly when one note's photos fail to parse. Otherwise every note is normalised in place. |
| Client.NormalisedNotesAreEditable | frontend/src/App.jsx:77-80 | A normalised note whose photos were not text has a photo list the edit form accepts. |
| Client.MatchesSearchIffMentions | frontend/src/App.jsx:255-259 | The callback accepts a note exactly when its name or varietal, or its region when present, contains the term, ignoring case. |
| Client.FilteredNotesMention | frontend/src/App.jsx:255-259 | The filtered list holds exactly the notes that mention the term. |
| Client.FilterNotes | frontend/src/App.jsx:255-259 | A note is shown exactly when it is in the list and its name, varietal or present region contains the term, ignoring case. Each shown note appears as often as in the list. |
| Client.FilterNotesKeepsOrder | frontend/src/App.jsx:255-259 | The shown notes keep the list's order. |
| Client.EmptySearchKeepsAll | frontend/src/App.jsx:255-259 | An empty search shows every note. |
| Client.ColorStyleAsWritten | frontend/src/App.jsx:261-269 | The four colours get their classes. The names inherited from `Object.prototype` yield the inherited member. Every other colour is gray. |
| Client.ConstructorColorIsNotGray | frontend/src/App.jsx:268 | The colour "constructor" does not get the gray class. |
| Client.ColorStyle | frontend/src/App.jsx:261-269 | A colour gets the gray class exactly when it is not one of the four listed colours; otherwise it gets one of the listed classes. |
| Client.ColorStyleAgreesOffPrototype | frontend/src/App.jsx:261-269 | The lookup as written and the intended lookup agree exactly on the colours that are not inherited names. |
| Client.ResetForm | frontend/src/App.jsx:172-195 | The form has exactly the sixteen text fields and `color`. Every text field is blank, the colour is "Red" and there are no photos. |
| Client.EditForm | frontend/src/App.jsx:131-154 | The form has the same inputs as a reset form. Each input takes the note's value when it is truthy and the reset default otherwise. The photos are the note's array, or empty when they are falsy. |
| Client.EditEmptyNoteIsReset | frontend/src/App.jsx:131-195 | Editing a note with no fields gives exactly the reset form. |
| Client.SavedNames | frontend/src/App.jsx:204-223 | The names a run of uploads adds are strings, at most one per request. |
| Client.AllSavedAppendsAll | frontend/src/App.jsx:204-223 | When every request succeeds, every returned name is added, in upload order. |
| Client.HandlePhotoUpload | frontend/src/App.jsx:197-231 | Without a note being edited, or without files, the form is unchanged. Otherwise only the photos change, gaining the saved names in order up to the first request that throws. |
| Client.HandleDeletePhoto | frontend/src/App.jsx:233-253 | Without an edited note or a confirmation, or when the request throws, the form is unchanged. Otherwise every occurrence of the name leaves the photos, whatever the server answered, and every other photo keeps its count. |
| Client.HandleDeletePhotoKeepsOrder | frontend/src/App.jsx:244-247 | The remaining photos keep their order. |

## Left out

- Authentication. JWT issuing and checking, Google sign-in and the token that
  `demo_login` returns are out. Every route receives the caller's user id as
  the token would carry it.
- HTTP and ASGI plumbing: CORS, static file serving, status codes other than
  the modelled 404s, and the 401 handling in the client.
- Request validation by pydantic. Bodies are well-typed values (`NoteBody`);
  the 422 responses for malformed bodies are not modelled.
- Storage encoding. Under SQLite the backend stores the photo list as JSON
  text and converts it back with `json.loads`, and the server's response model
  sees whatever the driver returns. The model keeps the list as a list on both
  backends. The client's repair of text-valued lists is modelled with
  `JSON.parse` as a parameter.
- File contents and file-system errors. The upload directory is a set of names,
  so writing a file adds a name and removing one drops it. A name containing
  `/` or `..`, which an update can place in a photo list, would reach outside
  the directory through `os.path.join`. That effect is not modelled.
- Concurrency. Routes are atomic steps; two requests that interleave their
  read and write of a photo list can lose an update in the real server.
- Floating point. `rating` and `price` are `real` and never computed on. The
  upload stamp is an opaque string.
- Id allocation and the clock. The new row's id is a parameter that must not
  be in use, and `created_at` is an integer.
- Ordering.SortNewestFirst: rows with equal `created_at` come back in an order
  the query does not fix. The model keeps table order among them, and the
  contract promises only newest first and a permutation.
- Text.Lower: only ASCII letters are lower-cased, whereas JavaScript's
  `toLowerCase` maps every Unicode letter.
- Client.HandlePhotoUpload: the request outcomes are inputs. The re-fetch after
  the loop and the spinner state are not modelled.
- Client.HandleDeletePhoto: the re-fetch after the request is not modelled.
- Client rendering, the login screen, the form's input handler and note
  creation from the form are not modelled. Only the list-to-form and
  form-to-photo-list logic is.
- The model follows the code on these points:
  - A note created without photos stores NULL, so its response carries
    `photos: null` rather than an empty list.
  - The list order among equal timestamps is not fixed.
  - Nothing keeps photo lists and files in step. An update can name photos
    that were never uploaded. `delete_photo` removes the file even when
    another note lists the same name.

## Findings

| source | as written | input that shows it | evidently intended | confidence | as-written member | corrected member |
|---|---|---|---|---|---|---|
| frontend/src/App.jsx:261-269 | `colors[color] \|\| 'bg-gray-100 text-gray-800'` looks the colour up on a plain object literal, which also finds the members every object inherits from `Object.prototype` | a note whose colour is `"constructor"` (or `"toString"`, `"__proto__"`, ...) gets a function or the prototype object as its class, not the gray class | any colour other than the four listed gets the gray class | not executed | Client.ColorStyleAsWritten, Client.ConstructorColorIsNotGray | Client.ColorStyle |
