# Flask notes: a verified model of the note store and account logic

This Dafny project models the core of a small Flask note-taking
application. Logged-in users create, search, edit, delete and star notes.
Accounts are created through a signup form and used through a login form.
The SQLite database behind the ORM becomes a class `Store.Database`. It
holds the `user` and `note` tables as sequences of rows in row-id order,
plus a logical clock that stands for `func.now()` and `datetime.utcnow()`.
Each view is a method on that database: for a logged-in user `actor`, the
method decides the HTTP outcome and states the new content of both tables.

The modules follow the application's files:

- `Models` (website/models.py): the `Note` and `User` rows, `set_tags`, `get_tags`, `to_dict`, `get_full_name`.
- `Forms` (website/forms.py): the four WTForms forms, with their validators turned into predicates over the bound data.
- `Tags`: how the comma-separated tags field is parsed, and how the edit form is refilled with tags (website/views.py).
- `Search`: the home page's owner filter, its three search filters and the ordering by `updated_at`.
- `Store`: the tables, the invariant every row keeps, row lookups, id allocation, and the cascade from a user to their notes.
- `Views`: `home`, `view_note`, `edit_note`, `delete_note`, `toggle_favorite` and `api_notes`.
- `Auth`: `login` and `signup`.
- `Text`, `SqlLike`, `Json` and `PasswordHash`: the library behaviour the core depends on.
  - `Text` covers Python's `str.strip`, `split` and `join`.
  - `SqlLike` covers SQLite's `LIKE`, which is what `column.contains(q)` becomes.
  - `Json` covers `json.dumps` and `json.loads` on lists of strings, in the default `ensure_ascii` form.
  - `PasswordHash` covers werkzeug's "method$salt$digest" password hashes. The key-derivation function is a parameter.

Two behaviours of the code are kept exactly as written:

- **Search wildcards and case.** The search query goes into a SQLite `LIKE` pattern without escaping, so `%` and `_` in a query are wildcards. Matching also ignores ASCII case. `SqlLike.UnderscoreIsWildcard` and `SqlLike.CaseInsensitive` show this.
- **The favourites flag.** The `favorites` query argument is converted with `type=bool`, so any non-empty text turns the filter on, including "false" and "0". `Search.FavoritesFlagQuirk` shows this.

## Model

| member | source | states |
|---|---|---|
| Text.Strip | website/views.py:51 | `strip()` leaves no white space at either end and never lengthens the text |
| Text.StripEmptyIffBlank | website/views.py:51 | `tag.strip()` is falsy exactly when the part is all white space, so blank parts are dropped and no others |
| Text.StripUnique | website/views.py:51 | whatever blank text surrounds a text with no white space at either end, `strip()` gives exactly that text |
| Text.StripIdempotent | website/views.py:51 | stripping a stripped tag changes nothing |
| Text.Split | website/views.py:51 | `split(',')` gives at least one part, possibly empty, and no part contains ',' |
| Text.JoinSplit | website/views.py:51 | `split(',')` loses nothing: joining the parts with ',' gives the input back |
| Text.SplitAppend | website/views.py:51 | splitting "a,b" gives the parts of a followed by the parts of b |
| SqlLike.ContainsIsSubstring | website/views.py:31-32 | for a query without `%` or `_`, `contains` matches exactly when the ASCII-case-folded query occurs in the case-folded column |
| SqlLike.EmptyQueryMatchesAll | website/views.py:28-34 | the empty query's pattern `'%%'` matches every value |
| SqlLike.UnderscoreIsWildcard | website/views.py:31-32 | the query "a_b" finds "axb", where it does not occur literally |
| SqlLike.CaseInsensitive | website/views.py:31-32 | the query "groc" finds "Groceries" |
| Json.LoadsDumps | website/models.py:18-26 | `json.loads(json.dumps(xs)) == xs` for every list of strings, including escapes and characters beyond U+FFFF |
| PasswordHash.CheckGeneratedHash | website/auth.py:24 | a generated hash checks against a password exactly when the password has the same digest under the stored method and salt, so the right password always passes |
| Forms.ValidNoteFormFields | website/forms.py:24-35 | a valid note form gives a title of 1 to 200 characters that is not blank, non-blank content and one of the six categories |
| Forms.NoteFormDefaults | website/forms.py:28-37 | with no category and an unticked box, or no form data at all, a new note is "General" and not a favourite |
| Forms.SignupCredentialsPassLogin | website/forms.py:11-22 | valid signup data has a password of at least 8 characters, a first name of 2 to 150 and an email of 1 to 150, and passes the login form |
| Forms.SearchCategoryChoices | website/forms.py:41-49 | the search category accepts "" (all) and exactly the six note categories |
| Models.Note.SetTags | website/models.py:18-20 | `set_tags(xs)` changes only the tags column, and `get_tags()` then returns `xs` in order |
| Models.Note.GetTags | website/models.py:22-26 | unset or empty tags read as the empty list |
| Models.Note.ToDict | website/models.py:28-39 | the dictionary exists exactly when the tags decode |
| Models.ToDictAfterSetTags | website/models.py:28-39 | after `set_tags(xs)` the dictionary copies id, title, content, category, flag and timestamps, with tags `xs` |
| Models.User.FullName | website/models.py:53-57 | the first name, then a space and the last name when there is a non-empty last name, otherwise the first name alone |
| Tags.StripNonBlank | website/views.py:51 | every kept tag is non-empty and has no white space at either end |
| Tags.ParseTags | website/views.py:49-51 | a missing or empty tags field gives no tags; otherwise every parsed tag is non-empty, trimmed and free of commas |
| Tags.ParseTagsAppend | website/views.py:51 | tags keep input order: the tags of "a,b" are those of a followed by those of b |
| Tags.TagsRoundTrip | website/views.py:116 | well-formed tags joined with ", " parse back to the same tags in the same order |
| Tags.PrefillRoundTrip | website/views.py:97-116 | the text the edit form is refilled with parses back to the tags it came from |
| Store.NextNoteId | website/models.py:8 | a new note's row id is larger than every existing id, and 1 in an empty table |
| Store.NextUserId | website/models.py:43 | a new user's row id is larger than every existing id, so not in use, and 1 in an empty table |
| Store.FindOwned | website/views.py:84 | the lookup by id and owner finds the first note with that id owned by that user, and fails exactly when there is none |
| Store.FindOwnedIsolated | website/views.py:91 | a lookup succeeds exactly when the user owns a note with that id, whatever other users own |
| Store.FindUserByEmail | website/auth.py:22 | the lookup by email finds the first row with that email, and fails exactly when there is none |
| Store.RemoveAt | website/views.py:136 | deleting a row drops it and keeps the rows before and after it in their order |
| Store.RemoveAtExactly | website/views.py:136 | with unique ids, deleting a note removes exactly the note with that id and keeps every other note |
| Store.RemoveAtValid | website/views.py:136 | deleting a note keeps every table invariant |
| Store.ReplaceAtValid | website/views.py:101-107 | replacing a note by a valid note with the same id keeps every table invariant |
| Store.AppendValid | website/views.py:53-63 | adding a valid note under the next id keeps every table invariant |
| Store.NotesWithout | website/models.py:51 | the cascade leaves exactly the notes of other users |
| Store.DeleteUserValid | website/models.py:51 | deleting a user with their notes keeps every table invariant, including that every note's owner exists |
| Store.Database.DeleteUser | website/models.py:51 | deleting a user removes that user's row and all their notes, and nothing else |
| Search.FavoritesFlagQuirk | website/views.py:23 | the favourites filter is off only for a missing or empty argument; "false" and "0" turn it on |
| Search.Filter | website/views.py:26-40 | a note is selected exactly when it is the user's own and passes the query, category and favourites filters |
| Search.FilterCounts | website/views.py:26-40 | each selected note occurs in the result as often as in the table, and no other note occurs |
| Search.OwnedNotes | website/views.py:174 | a note is kept exactly when it is the user's own |
| Search.SortNewestFirst | website/views.py:43 | ordering by `updated_at` descending gives a permutation whose timestamps never increase |
| Search.Listing | website/views.py:26-43 | the listing is a permutation of the selected notes, newest first; with Search.FilterCounts, each appears exactly as often as stored |
| Search.ListingSpec | website/views.py:26-43 | a note is listed exactly when it is in the table, is the user's own and passes the query, category and favourites filters |
| Search.ListingIsolated | website/views.py:26 | two tables in which the user owns the same notes in the same order give the same listing |
| Search.NoSearchIsOwned | website/views.py:174 | with no search arguments the filter keeps exactly the user's notes |
| Search.QueryGuardRedundant | website/views.py:28-34 | the query filter holds exactly when the title or the content contains the query, even for the empty query |
| Search.QueryIsSubstring | website/views.py:28-34 | a query without wildcards finds a note exactly when it occurs, ignoring ASCII case, in the title or the content |
| Search.UnknownCategoryListsNothing | website/views.py:36-37 | a category that is neither "" nor a note category lists nothing |
| Views.NewNoteSpec | website/views.py:53-60 | a created note has the form's fields, the parsed tags, both timestamps at now, the user as owner, and is a valid row |
| Views.Home | website/views.py:13-78 | a valid submission appends exactly one new note under the next id; otherwise the page lists the search result and nothing changes |
| Views.ViewNote | website/views.py:80-85 | a 500 exactly when the id is outside SQLite's 64-bit integer range; otherwise the note is returned only when the user owns a note with that id, and a 404 comes exactly when no such note exists; nothing changes |
| Views.EditedNoteSpec | website/views.py:101-105 | an edit keeps id, owner and creation time, takes every field and the parsed tags from the form, and either changes nothing or stamps `updated_at` |
| Views.EditedNoteValid | website/views.py:101-107 | an edited note is still a valid row |
| Views.NoFormDataEdit | website/views.py:92-105 | an edit POST with no form fields keeps the note's title, content, category and favourite flag, and stores the stored tags text parsed as typed tags |
| Views.ResubmitChangesNothing | website/views.py:92-116 | resubmitting the edit form as it was filled in leaves the note exactly as it was |
| Views.EditNote | website/views.py:87-118 | 500 with no change for an id outside SQLite's 64-bit integer range; then 404 unless the user owns the note; a valid submission replaces only that note with its edit; otherwise the form is refilled with the joined tags |
| Views.DeleteNote | website/views.py:120-144 | a non-object body gives 500, a falsy id 400, an integer outside SQLite's 64-bit range 500, an id the user does not own 404, each with no change; an integer id of a note the user owns always deletes exactly that note and answers 200 |
| Views.ToggleTwice | website/views.py:151-157 | toggling the same note twice restores every flag and field except `updated_at`, and a note the user does not own is never changed |
| Views.ToggleChangesOneNote | website/views.py:151-157 | only the user's note with that id can change; when the user owns it, its flag is flipped, its `updated_at` becomes now and no other field changes |
| Views.ToggleFavorite | website/views.py:146-167 | 500 with no change for an id outside SQLite's 64-bit integer range; then 404 with no change unless the user owns the note; otherwise only its flag flips and its `updated_at` is refreshed |
| Views.Dicts | website/views.py:175 | one dictionary per note, in order, and a failure exactly when some note's tags do not decode |
| Views.ApiNotes | website/views.py:169-178 | the user's own notes as dictionaries, newest first; never a 500 on a valid store |
| Auth.LoginSucceedsIff | website/auth.py:22-34 | a login succeeds for an account exactly when the email matches, the password checks and the account is active |
| Auth.LoginRefusals | website/auth.py:22-40 | an unknown email or a wrong password is refused as invalid, and an inactive account never logs in; the password is checked first, so "deactivated" is only reported after the right password |
| Auth.RecordLogin | website/auth.py:30 | recording a login sets that account's `last_login` to now and changes no other column and no other row |
| Auth.RecordLoginValid | website/auth.py:30-31 | recording `last_login` keeps every table invariant |
| Auth.Login | website/auth.py:13-45 | the outcome is the login decision; only a successful login writes, setting that one account's `last_login` to now |
| Auth.NewAccountSpec | website/auth.py:69-74 | a new account has a fresh id, the form's email and names, is active, has never logged in, and stores a hash that checks against the password |
| Auth.NewAccountValid | website/auth.py:69-77 | adding an account with an email not in use keeps every table invariant |
| Auth.Signup | website/auth.py:53-87 | a duplicate email is refused and nothing changes; otherwise exactly one account is appended under the next id |
| Auth.SignupThenLogin | website/auth.py:69-77 | an account just created by signup logs in with the same email and password |

## Left out

- HTTP routing, templates, `flash`, redirects and the `next` redirect after login (website/auth.py:37-38) are not modelled. A view's outcome stands for its response.
- Logout, the Flask-Login session, "remember me", `load_user` and CSRF are not modelled. The logged-in user is the `actor` parameter, and "already logged in" is a boolean parameter.
- Session failures are not modelled: the `except` branches that roll back after a failed commit. Each view applies its whole change or none of it. Three 500 cases are kept:
  - a delete body that is not a JSON object;
  - a note id outside SQLite's 64-bit integer range, which the driver refuses to bind;
  - stored tags that do not decode.
- The `Email()` format validator is not modelled. The other validators are.
- PasswordHash.GeneratePasswordHash: does not model PBKDF2 itself. The key-derivation function and the random salt are parameters, so every result holds for any function and any salt without `$`. The recorded iteration count, 600000, depends on the werkzeug version.
- PasswordHash.CheckPasswordHash: does not model methods other than the one `signup` uses. The method text is passed to the key-derivation function unchanged.
- Json.Loads: accepts only lists of strings in `json.dumps`'s layout: `[`, items separated by ", ", `]`. Within that layout it also reads upper-case hex digits, `\/` and raw non-ASCII characters. Lists of strings are the only JSON the application stores. Other JSON layouts are not modelled.
- Lone surrogates, which a Python string can hold, cannot occur in a Dafny string.
- Timestamps are readings of a logical clock that advances on each write, not calendar times. `isoformat` is not modelled.
- Search.SortNewestFirst: fixes an order for notes with equal `updated_at`: their table order. SQLite leaves that order unspecified. The ordering, multiset and membership properties hold for any order of such notes. Search.ListingIsolated, Views.Home and Views.ApiNotes state their listings as equal to the model's listing, so they hold only up to the order of notes with equal timestamps.
- Store.NextNoteId and Store.NextUserId: do not model SQLite's random choice of id once the largest row id reaches 2^63-1.
- Views.DeleteNote: models the `noteId` as either a JSON integer or some other value that is only truthy or falsy. JSON `true` and `false` count as the integers 1 and 0. Any other truthy value is taken to match no note, so it gives 404. SQLite would instead compare numeric text and whole floats with the id, and the driver would reject arrays and objects with a 500.
- Views.EditNote: has a 500 case, for a stored note whose tags do not decode, that the store invariant rules out. The method requires a valid store, so that case is not reachable in the model.
- Column widths (`String(150)`, `String(200)`) are not modelled, because SQLite does not enforce them. Only the forms' `Length` validators are modelled.
- No view changes `is_active`. An account's flag is whatever the store holds.
- Rows are values in the table sequences. Assigning a field of an ORM object is modelled as replacing its row, so the ORM's identity map is not modelled.
- A missing tags field in an edit submission keeps the stored JSON text as the field's data, and that text is then split on commas. This is modelled as written, through `Forms.Bind` and `Tags.ParseTags`. An edit POST with no form fields at all binds no form data, so every field, the favourite flag included, keeps the note's value; `Views.NoFormDataEdit` states this.
- Forms.Bind: does not model a JSON request body, which Flask-WTF would also accept as form data.
- website/__init__.py is not part of this model: it is application wiring.
- migrate_db.py is not part of this model: it drops and recreates the tables.
- website/static/index.js is not part of this model: it is browser code.
