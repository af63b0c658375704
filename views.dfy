/**
  The note views: the home page (listing and creation), the note page,
  editing, deletion, the favourite toggle and the JSON list. Every view
  runs for a logged-in user `actor` and touches only that user's notes.
  Each handler is atomic: it applies its whole change or none of it.
*/
module Views {
  import opened Common
  import opened Models
  import opened Forms
  import opened Store
  import opened Tags
  import Search
  import Json

  // ---------------------------------------------------------------------
  // Creating a note
  // ---------------------------------------------------------------------

  /**
    The note `home` creates from a valid form: the form's fields, both
    timestamps set to now, owned by the user, with the parsed tags stored
    through `set_tags`.
  */
  function NewNote(id: int, d: NoteFormData, actor: int, now: nat): Note
    requires NoteFormValid(d)
  {
    Note(id, d.title.value, d.content.value, d.category, None, d.isFavorite, now, now, actor)
      .SetTags(ParseTags(d.tags))
  }

  /**
    A created note carries exactly the submitted fields and the parsed
    tags, and is a valid row for an existing user at any later clock.
  */
  lemma NewNoteSpec(id: int, d: NoteFormData, actor: int, now: nat, users: seq<User>, clock: nat)
    requires NoteFormValid(d)
    requires actor in UserIds(users) && now <= clock
    ensures var n := NewNote(id, d, actor, now);
      && n.id == id && n.userId == actor
      && n.title == d.title.value && n.content == d.content.value
      && n.category == d.category && n.isFavorite == d.isFavorite
      && n.createdAt == now && n.updatedAt == now
      && n.GetTags() == Some(ParseTags(d.tags))
      && NoteValid(n, users, clock)
  {
    ValidNoteFormFields(d);
  }

  datatype HomeOutcome =
    | HomePage(notes: seq<Note>)    // the page, with the listing for the search arguments
    | NoteCreated(id: int)          // redirect after the new note was stored

  /**
    `home`: the listing for the search arguments, or, when a valid note
    form was submitted, a new note appended under the next row id.
  */
  method Home(db: Database, actor: int, args: Search.SearchArgs, submission: Option<NoteSubmission>)
    returns (out: HomeOutcome)
    requires db.Valid() && actor in UserIds(db.users)
    modifies db
    ensures db.Valid()
    ensures db.users == old(db.users)
    ensures out.HomePage? ==>
      && (submission.None? || !NoteFormValid(Bind(submission.value, EmptyNoteForm)))
      && out.notes == Search.Listing(old(db.notes), actor, args)
      && db.notes == old(db.notes) && db.clock == old(db.clock)
    ensures out.NoteCreated? ==>
      && submission.Some? && NoteFormValid(Bind(submission.value, EmptyNoteForm))
      && out.id == NextNoteId(old(db.notes))
      && db.clock == old(db.clock) + 1
      && db.notes == old(db.notes) + [NewNote(out.id, Bind(submission.value, EmptyNoteForm), actor, db.clock)]
  {
    var listed := Search.Listing(db.notes, actor, args);
    if submission.Some? {
      var d := Bind(submission.value, EmptyNoteForm);
      if NoteFormValid(d) {
        var now := db.Tick();
        var id := NextNoteId(db.notes);
        var n := NewNote(id, d, actor, now);
        NewNoteSpec(id, d, actor, now, db.users, db.clock);
        AppendValid(db.users, db.notes, db.clock, n);
        db.notes := db.notes + [n];
        return NoteCreated(id);
      }
    }
    out := HomePage(listed);
  }

  // ---------------------------------------------------------------------
  // Viewing a note
  // ---------------------------------------------------------------------

  datatype ViewOutcome =
    | NotePage(note: Note)  // the note page
    | ViewNotFound          // 404
    | ViewServerError       // 500: an id too large for SQLite to bind

  /**
    `view_note`: the user's note with that id, or a 404. An id outside
    SQLite's integer range makes the query itself fail.
  */
  method ViewNote(db: Database, actor: int, noteId: int) returns (out: ViewOutcome)
    ensures out == ViewServerError <==> !IsSqliteInteger(noteId)
    ensures out.NotePage? ==> out.note in db.notes && IsOwned(out.note, noteId, actor)
    ensures out == ViewNotFound <==>
      IsSqliteInteger(noteId) && forall n :: n in db.notes ==> !IsOwned(n, noteId, actor)
  {
    if !IsSqliteInteger(noteId) {
      return ViewServerError;
    }
    FindOwnedIsolated(db.notes, noteId, actor);
    match FindOwned(db.notes, noteId, actor)
    case None => out := ViewNotFound;
    case Some(i) => out := NotePage(db.notes[i]);
  }

  // ---------------------------------------------------------------------
  // Editing a note
  // ---------------------------------------------------------------------

  /** `NoteForm(obj=note)` before binding: the note's own values, its tags as the stored text. */
  function FormOf(n: Note): NoteFormData {
    NoteFormData(Some(n.title), Some(n.content), n.category, n.tags, n.isFavorite)
  }

  /**
    The note after `edit_note` assigns the form's fields and sets the
    parsed tags. `updated_at` is refreshed only when a column actually
    changed, since no UPDATE is issued otherwise.
  */
  function EditedNote(n: Note, d: NoteFormData, now: nat): Note
    requires NoteFormValid(d)
  {
    var m := n.(title := d.title.value, content := d.content.value, category := d.category, isFavorite := d.isFavorite)
      .SetTags(ParseTags(d.tags));
    if m == n then n else m.(updatedAt := now)
  }

  /**
    An edit keeps the note's id, owner and creation time, takes every
    field from the form with the parsed tags, and either leaves the note
    exactly as it was or stamps it with the current time.
  */
  lemma EditedNoteSpec(n: Note, d: NoteFormData, now: nat)
    requires NoteFormValid(d)
    ensures var e := EditedNote(n, d, now);
      && e.id == n.id && e.userId == n.userId && e.createdAt == n.createdAt
      && e.title == d.title.value && e.content == d.content.value
      && e.category == d.category && e.isFavorite == d.isFavorite
      && e.GetTags() == Some(ParseTags(d.tags))
      && (e == n || e.updatedAt == now)
  {
  }

  /** An edited note stays a valid row when the current time is later than its last update. */
  lemma EditedNoteValid(n: Note, d: NoteFormData, now: nat, users: seq<User>)
    requires NoteFormValid(d) && NoteValid(n, users, now)
    ensures NoteValid(EditedNote(n, d, now), users, now)
  {
    ValidNoteFormFields(d);
    EditedNoteSpec(n, d, now);
  }

  /**
    Submitting the edit form as it was filled in (the note's own fields and
    the tags joined with ", ") changes nothing, timestamps included, for a
    note whose tags were stored from well-formed tags.
  */
  lemma ResubmitChangesNothing(n: Note, ts: seq<string>, now: nat)
    requires Forms.NoteFieldsValid(n.title, n.content, n.category)
    requires n.tags == Some(Json.Dumps(ts))
    requires forall i :: 0 <= i < |ts| ==> WellFormedTag(ts[i])
    ensures var d := Bind(NoteSubmission(Some(n.title), Some(n.content), Some(n.category), Some(JoinTags(ts)), n.isFavorite), FormOf(n));
      NoteFormValid(d) && EditedNote(n, d, now) == n
  {
    TagsRoundTrip(ts);
  }

  /**
    A POST without form data re-saves the note from its own values: title,
    content, category and favourite flag stay as they were, and the tags
    field holds the stored tags text, which is then parsed as typed tags.
  */
  lemma NoFormDataEdit(n: Note, now: nat)
    requires NoteFormValid(Bind(NoFormData, FormOf(n)))
    ensures var e := EditedNote(n, Bind(NoFormData, FormOf(n)), now);
      && e.title == n.title && e.content == n.content && e.category == n.category
      && e.isFavorite == n.isFavorite
      && e.GetTags() == Some(ParseTags(n.tags))
  {
    EditedNoteSpec(n, Bind(NoFormData, FormOf(n)), now);
  }

  datatype EditOutcome =
    | EditNotFound              // 404
    | EditPage(tagsText: string) // the form, its tags field refilled from the stored tags
    | EditServerError           // the id cannot be bound, or the stored tags text does not decode
    | NoteUpdated(id: int)      // redirect after the note was saved

  /**
    `edit_note`: a 500 for an id SQLite cannot bind; then a 404 unless
    the user owns a note with that id; a valid
    submission replaces that note by its edited version and nothing else;
    otherwise the form page, with the stored tags joined by ", ".
  */
  method EditNote(db: Database, actor: int, noteId: int, submission: Option<NoteSubmission>)
    returns (out: EditOutcome)
    requires db.Valid()
    modifies db
    ensures db.Valid()
    ensures db.users == old(db.users)
    ensures !IsSqliteInteger(noteId) ==>
      out == EditServerError && db.notes == old(db.notes) && db.clock == old(db.clock)
    ensures IsSqliteInteger(noteId) && FindOwned(old(db.notes), noteId, actor).None? ==>
      out == EditNotFound && db.notes == old(db.notes) && db.clock == old(db.clock)
    ensures IsSqliteInteger(noteId) && FindOwned(old(db.notes), noteId, actor).Some? ==>
      var i := FindOwned(old(db.notes), noteId, actor).value;
      var n := old(db.notes)[i];
      if submission.Some? && NoteFormValid(Bind(submission.value, FormOf(n))) then
        && out == NoteUpdated(noteId)
        && db.clock == old(db.clock) + 1
        && db.notes == old(db.notes)[i := EditedNote(n, Bind(submission.value, FormOf(n)), db.clock)]
      else
        && db.notes == old(db.notes) && db.clock == old(db.clock)
        && out == EditPage(JoinTags(n.GetTags().value))
  {
    if !IsSqliteInteger(noteId) {
      return EditServerError;
    }
    var found := FindOwned(db.notes, noteId, actor);
    if found.None? {
      return EditNotFound;
    }
    var i := found.value;
    var n := db.notes[i];
    if submission.Some? {
      var d := Bind(submission.value, FormOf(n));
      if NoteFormValid(d) {
        var now := db.Tick();
        var e := EditedNote(n, d, now);
        EditedNoteValid(n, d, now, db.users);
        ReplaceAtValid(db.users, db.notes, db.clock, i, e);
        db.notes := db.notes[i := e];
        return NoteUpdated(noteId);
      }
    }
    var tags := n.GetTags();
    if tags.None? {
      out := EditServerError;
    } else {
      out := EditPage(JoinTags(tags.value));
    }
  }

  // ---------------------------------------------------------------------
  // Deleting a note
  // ---------------------------------------------------------------------

  /**
    The `noteId` member of the request body: a JSON integer (`true` and
    `false` are the integers 1 and 0 to Python), or some other JSON value,
    of which only its truth matters here.
  */
  datatype NoteIdValue = IdInt(n: int) | IdOther(truthy: bool)

  /** The body of the delete request: an object, or anything on which `.get` fails. */
  datatype DeleteBody = NotAnObject | JsonObject(noteId: Option<NoteIdValue>)

  /** `if not note_id`: a missing, null, zero, false or empty value. */
  predicate Falsy(v: Option<NoteIdValue>) {
    v.None? || (v.value.IdInt? && v.value.n == 0) || (v.value.IdOther? && !v.value.truthy)
  }

  datatype DeleteOutcome =
    | NoteDeleted        // 200
    | DeleteBadRequest   // 400, note id required
    | DeleteNotFound     // 404
    | DeleteServerError  // 500

  /**
    `delete_note`: a body that is not an object is a 500; a missing or
    falsy `noteId` a 400; an integer SQLite cannot bind a 500; an id the
    user owns no note under a 404; otherwise exactly that note is removed.
  */
  method DeleteNote(db: Database, actor: int, body: DeleteBody) returns (out: DeleteOutcome)
    requires db.Valid()
    modifies db
    ensures db.Valid()
    ensures db.users == old(db.users) && db.clock == old(db.clock)
    ensures body.NotAnObject? ==> out == DeleteServerError && db.notes == old(db.notes)
    ensures body.JsonObject? && Falsy(body.noteId) ==> out == DeleteBadRequest && db.notes == old(db.notes)
    ensures body.JsonObject? && !Falsy(body.noteId) ==>
      match body.noteId.value
      case IdOther(_) => out == DeleteNotFound && db.notes == old(db.notes)
      case IdInt(k) =>
        if !IsSqliteInteger(k) then out == DeleteServerError && db.notes == old(db.notes)
        else match FindOwned(old(db.notes), k, actor)
          case None =>
            && out == DeleteNotFound && db.notes == old(db.notes)
            && forall n :: n in db.notes ==> !IsOwned(n, k, actor)
          case Some(i) =>
            && out == NoteDeleted && db.notes == RemoveAt(old(db.notes), i)
            && forall n :: n in db.notes <==> n in old(db.notes) && n.id != k
  {
    if body.NotAnObject? {
      return DeleteServerError;
    }
    if Falsy(body.noteId) {
      return DeleteBadRequest;
    }
    if body.noteId.value.IdOther? {
      return DeleteNotFound;
    }
    var k := body.noteId.value.n;
    if !IsSqliteInteger(k) {
      return DeleteServerError;
    }
    FindOwnedIsolated(db.notes, k, actor);
    var found := FindOwned(db.notes, k, actor);
    if found.None? {
      return DeleteNotFound;
    }
    var i := found.value;
    RemoveAtExactly(db.notes, i);
    RemoveAtValid(db.users, db.notes, db.clock, i);
    db.notes := RemoveAt(db.notes, i);
    out := NoteDeleted;
  }

  // ---------------------------------------------------------------------
  // Toggling the favourite flag
  // ---------------------------------------------------------------------

  /** `note.is_favorite = not note.is_favorite`, with `updated_at` refreshed by the UPDATE. */
  function Toggled(n: Note, now: nat): Note {
    n.(isFavorite := !n.isFavorite, updatedAt := now)
  }

  /** The note table after a toggle request: unchanged when the user owns no note with that id. */
  function ToggleInTable(notes: seq<Note>, actor: int, noteId: int, now: nat): (r: seq<Note>)
    ensures |r| == |notes|
  {
    match FindOwned(notes, noteId, actor)
    case None => notes
    case Some(i) => notes[i := Toggled(notes[i], now)]
  }

  /** Replacing a row by one with the same id and owner does not move the row a lookup finds. */
  lemma {:induction false} FindOwnedAfterReplace(notes: seq<Note>, i: nat, m: Note, id: int, actor: int)
    requires i < |notes| && m.id == notes[i].id && m.userId == notes[i].userId
    ensures FindOwned(notes[i := m], id, actor) == FindOwned(notes, id, actor)
  {
    if i > 0 {
      assert notes[i := m][1..] == notes[1..][i - 1 := m];
      FindOwnedAfterReplace(notes[1..], i - 1, m, id, actor);
    } else {
      assert notes[i := m][1..] == notes[1..];
    }
  }

  /**
    Toggling the same note twice gives every note its favourite flag and
    every other field back; only `updated_at` moves, to the second time.
    A request for a note the user does not own changes nothing.
  */
  lemma ToggleTwice(notes: seq<Note>, actor: int, noteId: int, t1: nat, t2: nat)
    ensures var r := ToggleInTable(ToggleInTable(notes, actor, noteId, t1), actor, noteId, t2);
      forall j :: 0 <= j < |notes| ==> r[j] == notes[j] || r[j] == notes[j].(updatedAt := t2)
    ensures FindOwned(notes, noteId, actor).None? ==> ToggleInTable(notes, actor, noteId, t1) == notes
  {
    match FindOwned(notes, noteId, actor)
    case None =>
    case Some(i) =>
      FindOwnedAfterReplace(notes, i, Toggled(notes[i], t1), noteId, actor);
  }

  /**
    Only the toggled note changes: the user's note with that id gets its
    flag flipped and `updated_at` set to now, and no other field moves.
  */
  lemma ToggleChangesOneNote(notes: seq<Note>, actor: int, noteId: int, now: nat)
    ensures var r := ToggleInTable(notes, actor, noteId, now);
      forall j :: 0 <= j < |notes| && !IsOwned(notes[j], noteId, actor) ==> r[j] == notes[j]
    ensures var r := ToggleInTable(notes, actor, noteId, now);
      forall j :: 0 <= j < |notes| && r[j] != notes[j] ==> r[j].isFavorite == !notes[j].isFavorite
    ensures FindOwned(notes, noteId, actor).Some? ==>
      var i := FindOwned(notes, noteId, actor).value;
      var r := ToggleInTable(notes, actor, noteId, now);
      && r[i].isFavorite == !notes[i].isFavorite && r[i].updatedAt == now
      && r[i].(isFavorite := notes[i].isFavorite, updatedAt := notes[i].updatedAt) == notes[i]
  {
  }

  datatype ToggleOutcome =
    | ToggleNotFound                  // 404
    | ToggleServerError               // 500: an id too large for SQLite to bind
    | FavoriteToggled(isFavorite: bool)  // 200, with the new flag

  /**
    `toggle_favorite`: a 500 for an id SQLite cannot bind; then a 404
    unless the user owns the note; otherwise its flag is flipped.
  */
  method ToggleFavorite(db: Database, actor: int, noteId: int) returns (out: ToggleOutcome)
    requires db.Valid()
    modifies db
    ensures db.Valid()
    ensures db.users == old(db.users)
    ensures !IsSqliteInteger(noteId) ==>
      out == ToggleServerError && db.notes == old(db.notes) && db.clock == old(db.clock)
    ensures IsSqliteInteger(noteId) && FindOwned(old(db.notes), noteId, actor).None? ==>
      out == ToggleNotFound && db.notes == old(db.notes) && db.clock == old(db.clock)
    ensures IsSqliteInteger(noteId) && FindOwned(old(db.notes), noteId, actor).Some? ==>
      && out == FavoriteToggled(!old(db.notes)[FindOwned(old(db.notes), noteId, actor).value].isFavorite)
      && db.clock == old(db.clock) + 1
      && db.notes == ToggleInTable(old(db.notes), actor, noteId, db.clock)
  {
    if !IsSqliteInteger(noteId) {
      return ToggleServerError;
    }
    var found := FindOwned(db.notes, noteId, actor);
    if found.None? {
      return ToggleNotFound;
    }
    var i := found.value;
    var now := db.Tick();
    var t := Toggled(db.notes[i], now);
    ReplaceAtValid(db.users, db.notes, db.clock, i, t);
    db.notes := db.notes[i := t];
    out := FavoriteToggled(t.isFavorite);
  }

  // ---------------------------------------------------------------------
  // The JSON list
  // ---------------------------------------------------------------------

  /** `[note.to_dict() for note in notes]`; `None` when some note's tags do not decode. */
  function Dicts(notes: seq<Note>): (r: Option<seq<NoteDict>>)
    ensures r.Some? <==> forall i :: 0 <= i < |notes| ==> notes[i].ToDict().Some?
    ensures r.Some? ==> |r.value| == |notes| && forall i :: 0 <= i < |notes| ==> notes[i].ToDict() == Some(r.value[i])
  {
    if notes == [] then Some([])
    else
      match (notes[0].ToDict(), Dicts(notes[1..]))
      case (Some(d), Some(ds)) => Some([d] + ds)
      case (None, _) => None
      case (_, None) =>
        assert forall i :: 1 <= i < |notes| ==> notes[i] == notes[1..][i - 1];
        None
  }

  datatype ApiOutcome = NotesJson(notes: seq<NoteDict>) | ApiServerError

  /**
    `api_notes`: the user's notes as dictionaries, newest first; a 500
    only when some stored tags text does not decode, which a valid store
    rules out.
  */
  method ApiNotes(db: Database, actor: int) returns (out: ApiOutcome)
    ensures var listed := Search.SortNewestFirst(Search.OwnedNotes(db.notes, actor));
      out == (match Dicts(listed) case Some(ds) => NotesJson(ds) case None => ApiServerError)
    ensures db.Valid() ==> out.NotesJson?
    ensures out.NotesJson? ==> forall i, j :: 0 <= i < j < |out.notes| ==> out.notes[i].updatedAt >= out.notes[j].updatedAt
    ensures out.NotesJson? ==> forall i :: 0 <= i < |out.notes| ==>
      exists n :: n in db.notes && n.userId == actor && n.ToDict() == Some(out.notes[i])
  {
    var listed := Search.SortNewestFirst(Search.OwnedNotes(db.notes, actor));
    var ds := Dicts(listed);
    if ds.None? {
      if StoreValid(db.users, db.notes, db.clock) {
        ListedNotesDecode(db.notes, db.users, db.clock, listed);
        assert false;
      }
      return ApiServerError;
    }
    out := NotesJson(ds.value);
    DictsNewestFirst(listed, ds.value);
    DictsOwned(db.notes, actor, listed, ds.value);
  }

  /** The dictionaries of a newest-first listing are newest first. */
  lemma DictsNewestFirst(listed: seq<Note>, ds: seq<NoteDict>)
    requires Search.NewestFirst(listed) && Dicts(listed) == Some(ds)
    ensures forall i, j :: 0 <= i < j < |ds| ==> ds[i].updatedAt >= ds[j].updatedAt
  {
    assert forall i :: 0 <= i < |ds| ==> ds[i].updatedAt == listed[i].updatedAt;
  }

  /** Each dictionary of the sorted owned notes comes from one of the user's own rows. */
  lemma DictsOwned(notes: seq<Note>, actor: int, listed: seq<Note>, ds: seq<NoteDict>)
    requires listed == Search.SortNewestFirst(Search.OwnedNotes(notes, actor)) && Dicts(listed) == Some(ds)
    ensures forall i :: 0 <= i < |ds| ==> exists n :: n in notes && n.userId == actor && n.ToDict() == Some(ds[i])
  {
    forall i | 0 <= i < |ds| ensures exists n :: n in notes && n.userId == actor && n.ToDict() == Some(ds[i]) {
      assert listed[i] in multiset(listed);
      assert listed[i] in Search.OwnedNotes(notes, actor);
    }
  }

  /** Every note drawn from a valid table has tags that decode. */
  lemma ListedNotesDecode(notes: seq<Note>, users: seq<User>, clock: nat, listed: seq<Note>)
    requires NotesValid(notes, users, clock)
    requires forall n :: n in multiset(listed) ==> n in notes
    ensures forall i :: 0 <= i < |listed| ==> listed[i].ToDict().Some?
  {
    forall i | 0 <= i < |listed| ensures listed[i].ToDict().Some? {
      assert listed[i] in multiset(listed);
      var j :| 0 <= j < |notes| && notes[j] == listed[i];
    }
  }
}
