/**
 * The backend's records: a row of the `wine_notes` table, the request body
 * of the note routes, the HTTP errors the routes raise, and the state they
 * act on (the table plus the names in the upload directory).
 */
module Records {
  import opened Results

  /**
   * The tasting fields of a note: every column of `wine_notes` except `id`,
   * `user_id`, `photos` and `created_at`. The backend stores and returns them
   * verbatim; `rating` and `price` are floats there and are never computed on.
   */
  datatype Tasting = Tasting(
    wineName: string,
    vintage: Option<int>,
    varietal: string,
    region: Option<string>,
    producer: Option<string>,
    color: string,
    rating: Option<real>,
    tastingDate: Option<string>,
    price: Option<real>,
    appearance: Option<string>,
    aroma: Option<string>,
    taste: Option<string>,
    finish: Option<string>,
    foodPairing: Option<string>,
    notes: Option<string>,
    drinkingWith: Option<string>,
    mealType: Option<string>)

  /** A row of `wine_notes`; `photos` is NULL when a create or update omitted it. */
  datatype Note = Note(id: int, userId: int, tasting: Tasting, photos: Option<seq<string>>, createdAt: int)

  /** The `WineNote` request body. The backend ignores the `id` and `createdAt` a client sends. */
  datatype NoteBody = NoteBody(id: Option<int>, tasting: Tasting, photos: Option<seq<string>>, createdAt: Option<string>)

  /** An `HTTPException` raised by a route. */
  datatype HttpError = HttpError(status: nat, detail: string)

  const NoteNotFound := HttpError(404, "Note not found")
  const PhotoNotFound := HttpError(404, "Photo not found")

  /** The note table in row order, and the file names present in the upload directory. */
  datatype State = State(notes: seq<Note>, files: set<string>)

  /** A successful mutation: the state afterwards and the response body. */
  datatype Step<+R> = Step(state: State, response: R)

  /** `id` is the primary key of `wine_notes`. */
  predicate UniqueIds(notes: seq<Note>) {
    forall i, j :: 0 <= i < j < |notes| ==> notes[i].id != notes[j].id
  }

  /** The predicate of every `WHERE id = note_id AND user_id = user_id` clause. */
  predicate Owns(n: Note, id: int, caller: int) {
    n.id == id && n.userId == caller
  }

  /** `note.photos or []`: the photo list, NULL read as empty. */
  function PhotoList(n: Note): seq<string> {
    n.photos.GetOr([])
  }
}
