/**
  The login and signup views: which account a login attempt reaches and
  what it records, and how a signup adds an account.
*/
module Auth {
  import opened Common
  import opened Models
  import opened Forms
  import opened Store
  import opened PasswordHash

  datatype LoginOutcome =
    | LoginAlreadyAuthenticated  // redirect home
    | LoginPage                  // GET, or a form that does not validate
    | InvalidCredentials         // unknown email or wrong password
    | Deactivated                // right password, inactive account
    | LoggedIn(userId: int)      // `login_user` for that account

  /** What `login` decides from the users table and the request, before it writes anything. */
  function LoginDecision(users: seq<User>, authenticated: bool, form: Option<LoginForm>, kdf: Kdf): LoginOutcome {
    if authenticated then LoginAlreadyAuthenticated
    else if form.None? || !LoginFormValid(form.value) then LoginPage
    else
      match FindUserByEmail(users, form.value.email.value)
      case None => InvalidCredentials
      case Some(i) =>
        if !CheckPasswordHash(kdf, users[i].password, form.value.password.value) then InvalidCredentials
        else if !users[i].isActive then Deactivated
        else LoggedIn(users[i].id)
  }

  /** A user passes the login check: right email, a password that checks, an active account. */
  predicate Admits(u: User, f: LoginForm, kdf: Kdf)
    requires LoginFormValid(f)
  {
    u.email == f.email.value && CheckPasswordHash(kdf, u.password, f.password.value) && u.isActive
  }

  /**
    With unique emails, a login succeeds for an account exactly when that
    account has the given email, the password checks against its stored
    hash and it is active.
  */
  lemma LoginSucceedsIff(users: seq<User>, f: LoginForm, kdf: Kdf, id: int)
    requires UniqueEmails(users) && LoginFormValid(f)
    ensures LoginDecision(users, false, Some(f), kdf) == LoggedIn(id) <==>
      exists i :: 0 <= i < |users| && Admits(users[i], f, kdf) && users[i].id == id
  {
    if exists i :: 0 <= i < |users| && Admits(users[i], f, kdf) && users[i].id == id {
      var i :| 0 <= i < |users| && Admits(users[i], f, kdf) && users[i].id == id;
      assert FindUserByEmail(users, f.email.value).Some?;
    }
  }

  /**
    An inactive account never logs in, and an email no account has, or a
    password that does not check, is turned away as invalid. The password
    is checked before the account's flag: a deactivated account is only
    reported to someone who gave its right password.
  */
  lemma LoginRefusals(users: seq<User>, f: LoginForm, kdf: Kdf)
    requires LoginFormValid(f)
    ensures FindUserByEmail(users, f.email.value).None? ==> LoginDecision(users, false, Some(f), kdf) == InvalidCredentials
    ensures forall i :: 0 <= i < |users| && users[i].email == f.email.value && !users[i].isActive && UniqueEmails(users) ==>
      !LoginDecision(users, false, Some(f), kdf).LoggedIn?
    ensures forall i ::
      (0 <= i < |users| && users[i].email == f.email.value && UniqueEmails(users)
       && !CheckPasswordHash(kdf, users[i].password, f.password.value)) ==>
      LoginDecision(users, false, Some(f), kdf) == InvalidCredentials
    ensures LoginDecision(users, false, Some(f), kdf) == Deactivated ==>
      exists i :: 0 <= i < |users| && users[i].email == f.email.value
        && CheckPasswordHash(kdf, users[i].password, f.password.value) && !users[i].isActive
  {
    forall i | 0 <= i < |users| && users[i].email == f.email.value && UniqueEmails(users)
      ensures FindUserByEmail(users, f.email.value) == Some(i)
    {
      assert FindUserByEmail(users, f.email.value).Some?;
    }
  }

  /** `user.last_login = now` on the row at position `i`: that one column of that one row changes. */
  function RecordLogin(users: seq<User>, i: nat, now: nat): (r: seq<User>)
    requires i < |users|
    ensures |r| == |users|
    ensures r[i].lastLogin == Some(now) && r[i].(lastLogin := users[i].lastLogin) == users[i]
    ensures forall j :: 0 <= j < |users| && j != i ==> r[j] == users[j]
  {
    users[i := users[i].(lastLogin := Some(now))]
  }

  /** Recording a login at the current time keeps the users table valid, and the notes with it. */
  lemma RecordLoginValid(users: seq<User>, notes: seq<Note>, clock: nat, i: nat)
    requires StoreValid(users, notes, clock) && i < |users|
    ensures StoreValid(RecordLogin(users, i, clock), notes, clock)
  {
    var r := RecordLogin(users, i, clock);
    assert UserIds(r) == UserIds(users) by {
      forall id | id in UserIds(users) ensures id in UserIds(r) {
        var u :| u in users && u.id == id;
        var j :| 0 <= j < |users| && users[j] == u;
        assert r[j].id == id;
      }
    }
  }

  /**
    `login`: redirect when already logged in; otherwise, for a valid form,
    look the email up and check the password. An inactive account is
    refused before anything is written; a successful login sets that
    account's `last_login` to now and changes nothing else.
  */
  method Login(db: Database, authenticated: bool, form: Option<LoginForm>, kdf: Kdf) returns (out: LoginOutcome)
    requires db.Valid()
    modifies db
    ensures db.Valid()
    ensures out == LoginDecision(old(db.users), authenticated, form, kdf)
    ensures db.notes == old(db.notes)
    ensures !out.LoggedIn? ==> db.users == old(db.users) && db.clock == old(db.clock)
    ensures out.LoggedIn? ==>
      && db.clock == old(db.clock) + 1
      && db.users == RecordLogin(old(db.users), FindUserByEmail(old(db.users), form.value.email.value).value, db.clock)
  {
    if authenticated {
      return LoginAlreadyAuthenticated;
    }
    if form.None? || !LoginFormValid(form.value) {
      return LoginPage;
    }
    var f := form.value;
    var found := FindUserByEmail(db.users, f.email.value);
    if found.None? || !CheckPasswordHash(kdf, db.users[found.value].password, f.password.value) {
      return InvalidCredentials;
    }
    var i := found.value;
    if !db.users[i].isActive {
      return Deactivated;
    }
    var now := db.Tick();
    RecordLoginValid(db.users, db.notes, db.clock, i);
    db.users := RecordLogin(db.users, i, now);
    out := LoggedIn(db.users[i].id);
  }

  // ---------------------------------------------------------------------
  // Signup
  // ---------------------------------------------------------------------

  datatype SignupOutcome =
    | SignupAlreadyAuthenticated  // redirect home
    | SignupPage                  // GET, or a form that does not validate
    | DuplicateEmail              // an account with that email exists
    | SignedUp(userId: int)       // redirect to login after the account was stored

  /**
    The account `signup` creates: the form's email and names, the password
    stored only as its hash, created now, active, never logged in.
  */
  function NewAccount(users: seq<User>, f: SignupForm, kdf: Kdf, salt: string, now: nat): User
    requires SignupFormValid(f) && '$' !in salt
  {
    NewUser(NextUserId(users), f.email.value, f.firstName.value, f.lastName,
            GeneratePasswordHash(kdf, f.password.value, salt), now)
  }

  /** Adding a new account with a fresh email keeps the store valid. */
  lemma NewAccountValid(users: seq<User>, notes: seq<Note>, clock: nat, f: SignupForm, kdf: Kdf, salt: string)
    requires StoreValid(users, notes, clock)
    requires SignupFormValid(f) && '$' !in salt
    requires FindUserByEmail(users, f.email.value).None?
    ensures StoreValid(users + [NewAccount(users, f, kdf, salt, clock)], notes, clock)
  {
    var u := NewAccount(users, f, kdf, salt, clock);
    var r := users + [u];
    assert UserIds(r) == UserIds(users) + {u.id} by {
      forall id | id in UserIds(users) ensures id in UserIds(r) {
        var v :| v in users && v.id == id;
        assert v in r;
      }
    }
    forall a, b | 0 <= a < b < |r| ensures r[a].id != r[b].id && r[a].email != r[b].email {
      if b == |users| {
        assert r[a] == users[a];
        assert users[a].id in UserIds(users);
      }
    }
  }

  /**
    `signup`: redirect when already logged in; for a valid form, refuse an
    email that is already registered without changing anything, otherwise
    add exactly one account under the next row id.
  */
  method Signup(db: Database, authenticated: bool, form: Option<SignupForm>, kdf: Kdf, salt: string)
    returns (out: SignupOutcome)
    requires db.Valid() && '$' !in salt
    modifies db
    ensures db.Valid()
    ensures db.notes == old(db.notes)
    ensures authenticated ==> out == SignupAlreadyAuthenticated
    ensures !authenticated && (form.None? || !SignupFormValid(form.value)) ==> out == SignupPage
    ensures !authenticated && form.Some? && SignupFormValid(form.value) ==>
      if FindUserByEmail(old(db.users), form.value.email.value).Some? then out == DuplicateEmail
      else out == SignedUp(NextUserId(old(db.users)))
    ensures !out.SignedUp? ==> db.users == old(db.users) && db.clock == old(db.clock)
    ensures out.SignedUp? ==>
      && db.clock == old(db.clock) + 1
      && db.users == old(db.users) + [NewAccount(old(db.users), form.value, kdf, salt, db.clock)]
  {
    if authenticated {
      return SignupAlreadyAuthenticated;
    }
    if form.None? || !SignupFormValid(form.value) {
      return SignupPage;
    }
    var f := form.value;
    if FindUserByEmail(db.users, f.email.value).Some? {
      return DuplicateEmail;
    }
    var now := db.Tick();
    var u := NewAccount(db.users, f, kdf, salt, now);
    NewAccountValid(db.users, db.notes, db.clock, f, kdf, salt);
    db.users := db.users + [u];
    out := SignedUp(u.id);
  }

  /**
    A new account is active and has never logged in; its stored password
    is werkzeug's "method$salt$digest" text, which checks against the
    chosen password.
  */
  lemma NewAccountSpec(users: seq<User>, f: SignupForm, kdf: Kdf, salt: string, now: nat)
    requires SignupFormValid(f) && '$' !in salt
    ensures var u := NewAccount(users, f, kdf, salt, now);
      && u.id !in UserIds(users)
      && u.email == f.email.value && u.firstName == f.firstName.value && u.lastName == f.lastName
      && u.isActive && u.lastLogin.None? && u.createdAt == now
      && u.password[..|Method| + 1] == Method + "$"
      && CheckPasswordHash(kdf, u.password, f.password.value)
  {
    CheckGeneratedHash(kdf, f.password.value, salt, f.password.value);
  }

  /** Looking an email up after appending a row with a new email finds that row. */
  lemma {:induction false} FindAppended(users: seq<User>, u: User)
    requires FindUserByEmail(users, u.email).None?
    ensures FindUserByEmail(users + [u], u.email) == Some(|users|)
  {
    if users == [] {
      assert users + [u] == [u];
    } else {
      assert (users + [u])[0] == users[0];
      assert (users + [u])[1..] == users[1..] + [u];
      FindAppended(users[1..], u);
    }
  }

  /**
    An account just created by signup logs in with the same email and
    password, whatever the key-derivation function and salt.
  */
  lemma SignupThenLogin(users: seq<User>, f: SignupForm, kdf: Kdf, salt: string, now: nat, remember: bool)
    requires SignupFormValid(f) && '$' !in salt
    requires FindUserByEmail(users, f.email.value).None?
    ensures LoginDecision(users + [NewAccount(users, f, kdf, salt, now)], false, Some(LoginForm(f.email, f.password, remember)), kdf)
      == LoggedIn(NextUserId(users))
  {
    var u := NewAccount(users, f, kdf, salt, now);
    SignupCredentialsPassLogin(f, remember);
    FindAppended(users, u);
    CheckGeneratedHash(kdf, f.password.value, salt, f.password.value);
  }
}
