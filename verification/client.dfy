/**
 * The pure logic of the single-page client: normalising fetched notes, the
 * search filter, the colour badge, and the edit form (filling it from a
 * note, resetting it, and keeping its photo list in step with uploads and
 * deletions). Requests are not made here; their outcomes are inputs.
 */
module Client {
  import opened Results
  import opened Js
  import Text
  import Seqs

  // ---------------------------------------------------------------------
  // Normalising fetched notes (`fetchNotes`)
  // ---------------------------------------------------------------------

  /**
   * `{...note, photos: typeof note.photos === 'string' ? JSON.parse(note.photos || '[]') : note.photos || []}`.
   * `parse` is `JSON.parse`, `None` where it throws.
   */
  function NormalisePhotos(note: JsObject, parse: string -> Option<JsValue>): (r: Option<JsObject>)
    ensures r.Some? ==> "photos" in r.value && forall k :: k != "photos" ==> Get(r.value, k) == Get(note, k)
    ensures Get(note, "photos") in {Undefined, Null} ==> r == Some(note["photos" := Arr([])])
    ensures Get(note, "photos").Arr? ==> r == Some(note)
    ensures !Get(note, "photos").Str? ==> r.Some?
  {
    var photos := Get(note, "photos");
    if photos.Str? then
      var text := if photos.s == [] then "[]" else photos.s;
      match parse(text)
      case None => None
      case Some(v) => Some(note["photos" := v])
    else
      assert photos.Arr? ==> note["photos" := photos] == note;
      Some(note["photos" := Or(photos, Arr([]))])
  }

  /** The `data.map(...)` of `fetchNotes`: every note normalised, or `None` when one parse throws. */
  function NormaliseNotes(data: seq<JsObject>, parse: string -> Option<JsValue>): (r: Option<seq<JsObject>>)
    ensures r.None? <==> exists i :: 0 <= i < |data| && NormalisePhotos(data[i], parse).None?
    ensures r.Some? ==> |r.value| == |data| && forall i :: 0 <= i < |data| ==> NormalisePhotos(data[i], parse) == Some(r.value[i])
  {
    if |data| == 0 then Some([])
    else
      match NormalisePhotos(data[0], parse)
      case None => None
      case Some(first) =>
        match NormaliseNotes(data[1..], parse)
        case None => None
        case Some(rest) =>
          assert forall i :: 1 <= i < |data| ==> data[i] == data[1..][i - 1];
          Some([first] + rest)
  }

  // ---------------------------------------------------------------------
  // Search (`filteredNotes`)
  // ---------------------------------------------------------------------

  /** The search calls `toLowerCase` on `wine_name`, `varietal` and a truthy `region`: those must be strings. */
  predicate Searchable(note: JsObject) {
    && Get(note, "wine_name").Str?
    && Get(note, "varietal").Str?
    && (Get(note, "region").Str? || !Truthy(Get(note, "region")))
  }

  /** The string inside a string value. */
  function TextOf(v: JsValue): string {
    if v.Str? then v.s else ""
  }

  /** The `filteredNotes` callback. */
  predicate MatchesSearch(note: JsObject, term: string) {
    var t := Text.Lower(term);
    || Text.Includes(Text.Lower(TextOf(Get(note, "wine_name"))), t)
    || Text.Includes(Text.Lower(TextOf(Get(note, "varietal"))), t)
    || (Truthy(Get(note, "region")) && Text.Includes(Text.Lower(TextOf(Get(note, "region"))), t))
  }

  /** `s` contains `term`, ignoring ASCII case. */
  ghost predicate ContainsIgnoringCase(s: string, term: string) {
    exists i :: Text.OccursAt(Text.Lower(s), Text.Lower(term), i)
  }

  /** The `filteredNotes` callback as a function value. */
  function SearchHit(term: string): JsObject -> bool {
    (n: JsObject) => MatchesSearch(n, term)
  }

  /** The note's name, varietal or present region contains `term`, ignoring case. */
  ghost predicate MentionsIgnoringCase(n: JsObject, term: string) {
    || ContainsIgnoringCase(TextOf(Get(n, "wine_name")), term)
    || ContainsIgnoringCase(TextOf(Get(n, "varietal")), term)
    || (Truthy(Get(n, "region")) && ContainsIgnoringCase(TextOf(Get(n, "region")), term))
  }

  /** The callback accepts a note exactly when it mentions the term. */
  lemma MatchesSearchIffMentions(n: JsObject, term: string)
    ensures MatchesSearch(n, term) <==> MentionsIgnoringCase(n, term)
  {
  }

  /** The notes a filtered list holds are those that mention the term. */
  lemma FilteredNotesMention(notes: seq<JsObject>, term: string)
    ensures var r := Seqs.Filter(notes, SearchHit(term));
      forall n :: n in r <==> n in notes && MentionsIgnoringCase(n, term)
  {
    var r := Seqs.Filter(notes, SearchHit(term));
    forall n
      ensures n in r <==> n in notes && MentionsIgnoringCase(n, term)
    {
      MatchesSearchIffMentions(n, term);
      assert n in r <==> multiset(r)[n] > 0;
      assert n in notes <==> multiset(notes)[n] > 0;
    }
  }

  /** `notes.filter(...)`: the notes whose name, varietal or present region contains the term, ignoring case. */
  function FilterNotes(notes: seq<JsObject>, term: string): (r: seq<JsObject>)
    requires forall i :: 0 <= i < |notes| ==> Searchable(notes[i])
    ensures forall n :: n in r <==> n in notes && MentionsIgnoringCase(n, term)
    ensures forall n :: multiset(r)[n] == if MentionsIgnoringCase(n, term) then multiset(notes)[n] else 0
  {
    FilteredNotesMention(notes, term);
    var r := Seqs.Filter(notes, SearchHit(term));
    assert forall n :: MatchesSearch(n, term) <==> MentionsIgnoringCase(n, term) by {
      forall n { MatchesSearchIffMentions(n, term); }
    }
    r
  }

  /** The filtered notes keep their order: they are a subsequence of `notes`. */
  lemma FilterNotesKeepsOrder(notes: seq<JsObject>, term: string) returns (idx: seq<nat>)
    requires forall i :: 0 <= i < |notes| ==> Searchable(notes[i])
    ensures Seqs.Embeds(FilterNotes(notes, term), notes, idx)
  {
    idx := Seqs.FilterIsSubsequence(notes, SearchHit(term));
  }

  /** An empty search box shows every note. */
  lemma EmptySearchKeepsAll(notes: seq<JsObject>)
    requires forall i :: 0 <= i < |notes| ==> Searchable(notes[i])
    ensures FilterNotes(notes, "") == notes
  {
    forall i | 0 <= i < |notes|
      ensures MatchesSearch(notes[i], "")
    {
      Text.IncludesEmpty(Text.Lower(TextOf(Get(notes[i], "wine_name"))));
    }
    Seqs.FilterKeepAll(notes, SearchHit(""));
  }

  // ---------------------------------------------------------------------
  // Colour badge (`getColorStyle`)
  // ---------------------------------------------------------------------

  const GrayClass := "bg-gray-100 text-gray-800"

  /** The `colors` object literal of `getColorStyle`. */
  const ColorClasses: map<string, string> := map[
    "Red" := "bg-red-100 text-red-800",
    "White" := "bg-yellow-100 text-yellow-800",
    "Ros\U{E9}" := "bg-pink-100 text-pink-800",
    "Sparkling" := "bg-blue-100 text-blue-800"]

  /**
   * The properties every plain object inherits from `Object.prototype`. Each
   * holds a function, except `__proto__`, which holds the prototype object;
   * all are truthy.
   */
  const ObjectPrototypeKeys: set<string> := {
    "constructor", "hasOwnProperty", "isPrototypeOf", "propertyIsEnumerable",
    "toLocaleString", "toString", "valueOf", "__proto__",
    "__defineGetter__", "__defineSetter__", "__lookupGetter__", "__lookupSetter__"}

  /** What `colors[color] || gray` yields: a class string, or an inherited prototype member. */
  datatype Style = ClassName(name: string) | Inherited(key: string)

  /** `getColorStyle` as written: the lookup also finds the members `colors` inherits. */
  function ColorStyleAsWritten(color: string): (r: Style)
    ensures color in ColorClasses ==> r == ClassName(ColorClasses[color])
    ensures color in ObjectPrototypeKeys ==> r == Inherited(color)
    ensures color !in ColorClasses && color !in ObjectPrototypeKeys ==> r == ClassName(GrayClass)
  {
    if color in ColorClasses then ClassName(ColorClasses[color])
    else if color in ObjectPrototypeKeys then Inherited(color)
    else ClassName(GrayClass)
  }

  /** A note whose colour is "constructor" gets a function in its class list, not the gray class. */
  lemma ConstructorColorIsNotGray()
    ensures ColorStyleAsWritten("constructor") != ClassName(GrayClass)
  {
    assert "constructor" !in ColorClasses;
  }

  /** `getColorStyle` as intended: the listed class for the four colours, gray for anything else. */
  function ColorStyle(color: string): (r: string)
    ensures r == GrayClass <==> color !in ColorClasses
    ensures r in ColorClasses.Values || r == GrayClass
  {
    if color in ColorClasses then ColorClasses[color] else GrayClass
  }

  /** The written lookup agrees with the intended one on every colour except the inherited names. */
  lemma ColorStyleAgreesOffPrototype(color: string)
    ensures ColorStyleAsWritten(color) == ClassName(ColorStyle(color)) <==> color !in ObjectPrototypeKeys
  {
    assert forall k :: k in ColorClasses ==> k !in ObjectPrototypeKeys;
  }

  // ---------------------------------------------------------------------
  // The edit form (`handleEdit`, `resetForm`)
  // ---------------------------------------------------------------------

  /** The form's text inputs, each blank by default. */
  const TextFields: seq<string> := [
    "wine_name", "vintage", "varietal", "region", "producer", "rating",
    "tasting_date", "price", "appearance", "aroma", "taste", "finish",
    "food_pairing", "notes", "drinking_with", "meal_type"]

  /** The form state: its inputs (the text fields and `color`) and its photo list. */
  datatype Form = Form(fields: map<string, JsValue>, photos: seq<JsValue>)

  /** `resetForm`: every text field blank, colour "Red", no photos. */
  function ResetForm(): (f: Form)
    ensures forall k :: k in f.fields <==> k in TextFields || k == "color"
    ensures forall k :: k in TextFields ==> f.fields[k] == Str("")
    ensures f.fields["color"] == Str("Red") && f.photos == []
  {
    assert "color" !in TextFields;
    Form((map k | k in TextFields :: Str(""))["color" := Str("Red")], [])
  }

  /** `note.photos || []` is a list: the photos are a list or falsy. */
  predicate EditablePhotos(note: JsObject) {
    Get(note, "photos").Arr? || !Truthy(Get(note, "photos"))
  }

  /** `handleEdit`: each input takes the note's value when truthy and its reset default otherwise. */
  function EditForm(note: JsObject): (f: Form)
    requires EditablePhotos(note)
    ensures f.fields.Keys == ResetForm().fields.Keys
    ensures forall k :: k in f.fields && Truthy(Get(note, k)) ==> f.fields[k] == Get(note, k)
    ensures forall k :: k in f.fields && !Truthy(Get(note, k)) ==> f.fields[k] == ResetForm().fields[k]
    ensures Truthy(Get(note, "photos")) ==> f.photos == Get(note, "photos").items
    ensures !Truthy(Get(note, "photos")) ==> f.photos == []
  {
    var fields := map k | k in TextFields :: Or(Get(note, k), Str(""));
    Form(fields["color" := Or(Get(note, "color"), Str("Red"))], Or(Get(note, "photos"), Arr([])).items)
  }

  /** Editing a note that has none of the fields fills the form exactly as a reset does. */
  lemma EditEmptyNoteIsReset()
    ensures EditForm(map[]) == ResetForm()
  {
    var f := EditForm(map[]);
    assert f.fields == ResetForm().fields;
  }

  /** Every normalised note whose photos were not stored as text can be edited. */
  lemma NormalisedNotesAreEditable(note: JsObject, parse: string -> Option<JsValue>)
    requires Get(note, "photos") in {Undefined, Null} || Get(note, "photos").Arr?
    ensures NormalisePhotos(note, parse).Some? && EditablePhotos(NormalisePhotos(note, parse).value)
  {
  }

  // ---------------------------------------------------------------------
  // The form's photo list (`handlePhotoUpload`, `handleDeletePhoto`)
  // ---------------------------------------------------------------------

  /** The outcome of one upload request: the stored name, a non-OK status, or a thrown `fetch`. */
  datatype UploadReply = Saved(filename: string) | Refused | Thrown

  /** The names a run of uploads adds: each saved name in order, up to the first request that threw. */
  function SavedNames(replies: seq<UploadReply>): (names: seq<JsValue>)
    ensures |names| <= |replies|
    ensures forall i :: 0 <= i < |names| ==> names[i].Str?
  {
    if |replies| == 0 then []
    else match replies[0]
      case Thrown => []
      case Refused => SavedNames(replies[1..])
      case Saved(name) => [Str(name)] + SavedNames(replies[1..])
  }

  /** When every upload succeeds the form gains every returned name, in upload order. */
  lemma {:induction false} AllSavedAppendsAll(replies: seq<UploadReply>)
    requires forall i :: 0 <= i < |replies| ==> replies[i].Saved?
    ensures SavedNames(replies) == seq(|replies|, i requires 0 <= i < |replies| => Str(replies[i].filename))
  {
    if |replies| > 0 {
      AllSavedAppendsAll(replies[1..]);
    }
  }

  /**
   * `handlePhotoUpload`: nothing happens without files or a note being
   * edited; otherwise the files are uploaded one by one and each returned
   * name is appended to the form's photos, until a request throws.
   */
  method HandlePhotoUpload(form: Form, editing: bool, replies: seq<UploadReply>) returns (result: Form)
    ensures !editing || |replies| == 0 ==> result == form
    ensures editing && |replies| > 0 ==> result == form.(photos := form.photos + SavedNames(replies))
  {
    result := form;
    if !editing || |replies| == 0 {
      return;
    }
    var i := 0;
    while i < |replies|
      invariant 0 <= i <= |replies|
      invariant result.fields == form.fields
      invariant result.photos + SavedNames(replies[i..]) == form.photos + SavedNames(replies)
    {
      assert replies[i..][1..] == replies[i + 1..];
      match replies[i] {
        case Thrown =>
          return;
        case Refused =>
        case Saved(name) =>
          result := result.(photos := result.photos + [Str(name)]);
      }
      i := i + 1;
    }
  }

  /**
   * `handleDeletePhoto`: without a note being edited, without confirmation,
   * or when the request throws, nothing changes; otherwise every occurrence
   * of the name leaves the form's photos, whatever the server answered.
   */
  function HandleDeletePhoto(form: Form, editing: bool, confirmed: bool, requestThrew: bool, filename: string): (r: Form)
    ensures !editing || !confirmed || requestThrew ==> r == form
    ensures editing && confirmed && !requestThrew ==>
      && r.fields == form.fields
      && Str(filename) !in r.photos
      && forall p :: p != Str(filename) ==> multiset(r.photos)[p] == multiset(form.photos)[p]
  {
    if !editing || !confirmed || requestThrew then form
    else
      var photos := Seqs.Filter(form.photos, (p: JsValue) => p != Str(filename));
      assert multiset(photos)[Str(filename)] == 0;
      form.(photos := photos)
  }

  /** The photos that survive a deletion in the form keep their order. */
  lemma HandleDeletePhotoKeepsOrder(form: Form, filename: string) returns (idx: seq<nat>)
    ensures Seqs.Embeds(HandleDeletePhoto(form, true, true, false, filename).photos, form.photos, idx)
  {
    idx := Seqs.FilterIsSubsequence(form.photos, (p: JsValue) => p != Str(filename));
  }
}
