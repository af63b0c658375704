/**
  The WTForms forms of the application and their validators, as predicates
  over the data each field holds after binding. A text field that was not
  sent at all holds `None`.
*/
module Forms {
  import opened Common
  import opened Text

  /** The choices of the note's category select field. */
  const NoteCategories: seq<string> := ["General", "Work", "Personal", "Ideas", "Learning", "Projects"]

  /** The note category field's default. */
  const DefaultCategory: string := "General"

  /** The choices of the search form's category field: "" stands for all categories. */
  const SearchCategories: seq<string> := [""] + NoteCategories

  /** `DataRequired()`: something other than white space was given. */
  predicate DataRequired(d: Option<string>) {
    d.Some? && !IsBlank(d.value)
  }

  /** `Optional()`: nothing but white space was given, so the remaining validators are skipped. */
  predicate OptionalSkips(d: Option<string>) {
    d.None? || IsBlank(d.value)
  }

  /** `Length(min, max)`, where missing data counts as length 0. */
  predicate LengthWithin(d: Option<string>, min: nat, max: nat) {
    var n := if d.Some? then |d.value| else 0;
    min <= n <= max
  }

  // ---------------------------------------------------------------------
  // NoteForm
  // ---------------------------------------------------------------------

  /**
    A note form submission. `NoFormData` is a POST that carries no form
    fields at all, for which Flask-WTF binds no form data; otherwise the
    fields sent, `None` for one that was not.
  */
  datatype NoteSubmission =
    | NoFormData
    | NoteSubmission(
        title: Option<string>,
        content: Option<string>,
        category: Option<string>,
        tags: Option<string>,
        isFavorite: bool)

  /** The data a `NoteForm` holds once bound. */
  datatype NoteFormData = NoteFormData(
    title: Option<string>,
    content: Option<string>,
    category: string,
    tags: Option<string>,
    isFavorite: bool)

  /** An unbound `NoteForm()`: only the category has a default. */
  const EmptyNoteForm: NoteFormData := NoteFormData(None, None, DefaultCategory, None, false)

  /**
    Binds a submission over the form's starting data (`NoteForm()` or
    `NoteForm(obj=note)`). Without form data every field keeps its
    starting value, the check box included. With form data, a field that
    was sent takes the sent value, a text or select field that was not
    keeps its starting value, and the check box reads as unticked.
  */
  function Bind(s: NoteSubmission, start: NoteFormData): NoteFormData {
    match s
    case NoFormData => start
    case NoteSubmission(title, content, category, tags, isFavorite) =>
      NoteFormData(
        if title.Some? then title else start.title,
        if content.Some? then content else start.content,
        category.GetOr(start.category),
        if tags.Some? then tags else start.tags,
        isFavorite)
  }

  /**
    `NoteForm` validation: a title is required and at most 200 characters,
    content is required, the category must be one of the choices; tags are
    optional.
  */
  predicate NoteFormValid(d: NoteFormData) {
    && DataRequired(d.title) && LengthWithin(d.title, 0, 200)
    && DataRequired(d.content)
    && d.category in NoteCategories
  }

  /** What every note written through a valid form satisfies. */
  predicate NoteFieldsValid(title: string, content: string, category: string) {
    && !IsBlank(title) && |title| <= 200
    && !IsBlank(content)
    && category in NoteCategories
  }

  /** A valid note form gives a title of 1 to 200 characters, non-blank content and a listed category. */
  lemma ValidNoteFormFields(d: NoteFormData)
    requires NoteFormValid(d)
    ensures 1 <= |d.title.value| <= 200
    ensures NoteFieldsValid(d.title.value, d.content.value, d.category)
  {
  }

  /**
    A submission that leaves out the category and the favourite box, or
    carries no form data at all, on a fresh form makes a "General",
    non-favourite note.
  */
  lemma NoteFormDefaults(s: NoteSubmission)
    requires s.NoFormData? || (s.category.None? && !s.isFavorite)
    ensures Bind(s, EmptyNoteForm).category == "General"
    ensures !Bind(s, EmptyNoteForm).isFavorite
    ensures Bind(s, EmptyNoteForm).category in NoteCategories
  {
  }

  // ---------------------------------------------------------------------
  // SignupForm and LoginForm
  // ---------------------------------------------------------------------

  datatype SignupForm = SignupForm(
    email: Option<string>,
    firstName: Option<string>,
    lastName: Option<string>,
    password: Option<string>,
    confirmPassword: Option<string>)

  /**
    `SignupForm` validation (the `Email()` format check aside): email
    required, at most 150; first name required, 2 to 150; last name
    optional, otherwise at most 150; password required, at least 8;
    confirmation required and equal to the password.
  */
  predicate SignupFormValid(f: SignupForm) {
    && DataRequired(f.email) && LengthWithin(f.email, 0, 150)
    && DataRequired(f.firstName) && LengthWithin(f.firstName, 2, 150)
    && (OptionalSkips(f.lastName) || LengthWithin(f.lastName, 0, 150))
    && DataRequired(f.password) && |f.password.value| >= 8
    && DataRequired(f.confirmPassword) && f.confirmPassword == f.password
  }

  datatype LoginForm = LoginForm(email: Option<string>, password: Option<string>, rememberMe: bool)

  /** `LoginForm` validation (the `Email()` format check aside): both fields required. */
  predicate LoginFormValid(f: LoginForm) {
    DataRequired(f.email) && DataRequired(f.password)
  }

  /** The credentials accepted by signup also pass the login form's validation. */
  lemma SignupCredentialsPassLogin(f: SignupForm, remember: bool)
    requires SignupFormValid(f)
    ensures LoginFormValid(LoginForm(f.email, f.password, remember))
    ensures 8 <= |f.password.value| && 2 <= |f.firstName.value| <= 150 && 1 <= |f.email.value| <= 150
  {
  }

  // ---------------------------------------------------------------------
  // SearchForm
  // ---------------------------------------------------------------------

  datatype SearchForm = SearchForm(query: Option<string>, category: Option<string>, showFavoritesOnly: bool)

  /** `SearchForm` validation: the query is optional; the category is "" (all) or a note category. */
  predicate SearchFormValid(f: SearchForm) {
    f.category.GetOr("") in SearchCategories
  }

  /** The search form's categories are the note categories plus "" for all of them. */
  lemma SearchCategoryChoices(f: SearchForm)
    ensures SearchFormValid(f) <==> (f.category.GetOr("") == "" || f.category.GetOr("") in NoteCategories)
  {
  }
}
