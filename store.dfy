/**
  The SQLite database behind the ORM: the `user` and `note` tables as
  sequences of rows in row-id order, and a logical clock standing for
  `func.now()` / `datetime.utcnow()`. Row lookups are the `filter_by(...)
  .first()` queries of the views; the invariant `StoreValid` is what the
  table definitions and the forms together guarantee about every row.
*/
module Store {
  import opened Common
  import opened Models
  import Forms

  /** The ids of the users' rows. */
  function UserIds(users: seq<User>): set<int> {
    set u | u in users :: u.id
  }

  /** The `unique=True` constraint on the email column. */
  predicate UniqueEmails(users: seq<User>) {
    forall i, j :: 0 <= i < j < |users| ==> users[i].email != users[j].email
  }

  /** Primary keys and unique emails, and no timestamp from the future. */
  predicate UsersValid(users: seq<User>, clock: nat) {
    && (forall i, j :: 0 <= i < j < |users| ==> users[i].id != users[j].id)
    && UniqueEmails(users)
    && (forall i :: 0 <= i < |users| ==> users[i].createdAt <= clock)
    && (forall i :: 0 <= i < |users| ==> users[i].lastLogin.Some? ==> users[i].lastLogin.value <= clock)
  }

  /**
    One note row: its owner exists (the non-null foreign key), its
    timestamps are ordered and not ahead of the clock, its tags text
    decodes, and its fields are what a valid `NoteForm` gives.
  */
  predicate NoteValid(n: Note, users: seq<User>, clock: nat) {
    && n.userId in UserIds(users)
    && n.createdAt <= n.updatedAt <= clock
    && n.GetTags().Some?
    && Forms.NoteFieldsValid(n.title, n.content, n.category)
  }

  predicate NotesValid(notes: seq<Note>, users: seq<User>, clock: nat) {
    && (forall i, j :: 0 <= i < j < |notes| ==> notes[i].id != notes[j].id)
    && (forall i :: 0 <= i < |notes| ==> NoteValid(notes[i], users, clock))
  }

  predicate StoreValid(users: seq<User>, notes: seq<Note>, clock: nat) {
    UsersValid(users, clock) && NotesValid(notes, users, clock)
  }

  /** A later clock reading keeps every row valid. */
  lemma ClockAdvance(users: seq<User>, notes: seq<Note>, clock: nat, later: nat)
    requires StoreValid(users, notes, clock) && clock <= later
    ensures StoreValid(users, notes, later)
  {
  }

  // ---------------------------------------------------------------------
  // Row ids
  // ---------------------------------------------------------------------

  /** The largest id in a table whose rows have ids `id`, 0 for an empty one. */
  function MaxId<T>(rows: seq<T>, id: T -> int): (m: int)
    ensures forall i :: 0 <= i < |rows| ==> id(rows[i]) <= m
    ensures rows == [] ==> m == 0
  {
    if rows == [] then 0
    else
      var rest := MaxId(rows[1..], id);
      if |rows| == 1 || id(rows[0]) > rest then id(rows[0]) else rest
  }

  /** The row id SQLite gives a new note: one more than the largest, 1 in an empty table. */
  function NextNoteId(notes: seq<Note>): (id: int)
    ensures forall i :: 0 <= i < |notes| ==> notes[i].id < id
    ensures notes == [] ==> id == 1
  {
    MaxId(notes, (n: Note) => n.id) + 1
  }

  /** The row id SQLite gives a new user: one more than the largest, 1 in an empty table. */
  function NextUserId(users: seq<User>): (id: int)
    ensures forall i :: 0 <= i < |users| ==> users[i].id < id
    ensures id !in UserIds(users)
    ensures users == [] ==> id == 1
  {
    MaxId(users, (u: User) => u.id) + 1
  }

  // ---------------------------------------------------------------------
  // Queries
  // ---------------------------------------------------------------------

  /**
    A value SQLite can store as an INTEGER: a signed 64-bit number. The
    driver refuses to bind any other Python `int` as a query parameter.
  */
  predicate IsSqliteInteger(k: int) {
    -0x8000_0000_0000_0000 <= k < 0x8000_0000_0000_0000
  }

  /** The note with this id, owned by this user. */
  predicate IsOwned(n: Note, id: int, actor: int) {
    n.id == id && n.userId == actor
  }

  /**
    `Note.query.filter_by(id=id, user_id=actor).first()`: the position of
    the first such row, `None` when the user owns no note with that id.
  */
  function FindOwned(notes: seq<Note>, id: int, actor: int): (r: Option<nat>)
    ensures r.Some? ==> r.value < |notes| && IsOwned(notes[r.value], id, actor)
    ensures r.Some? ==> forall j :: 0 <= j < r.value ==> !IsOwned(notes[j], id, actor)
    ensures r.None? <==> forall j :: 0 <= j < |notes| ==> !IsOwned(notes[j], id, actor)
  {
    if notes == [] then None
    else if IsOwned(notes[0], id, actor) then Some(0)
    else
      match FindOwned(notes[1..], id, actor)
      case None => None
      case Some(k) => Some(k + 1)
  }

  /** `User.query.filter_by(email=email).first()`: the position of the first row with that email. */
  function FindUserByEmail(users: seq<User>, email: string): (r: Option<nat>)
    ensures r.Some? ==> r.value < |users| && users[r.value].email == email
    ensures r.Some? ==> forall j :: 0 <= j < r.value ==> users[j].email != email
    ensures r.None? <==> forall j :: 0 <= j < |users| ==> users[j].email != email
  {
    if users == [] then None
    else if users[0].email == email then Some(0)
    else
      match FindUserByEmail(users[1..], email)
      case None => None
      case Some(k) => Some(k + 1)
  }

  /** A note is found for its owner exactly when it is in the table, whoever else owns notes. */
  lemma FindOwnedIsolated(notes: seq<Note>, id: int, actor: int)
    ensures FindOwned(notes, id, actor).Some? <==> exists n :: n in notes && IsOwned(n, id, actor)
  {
    if FindOwned(notes, id, actor).None? {
      forall n | n in notes ensures !IsOwned(n, id, actor) {
        var j :| 0 <= j < |notes| && notes[j] == n;
      }
    }
  }

  // ---------------------------------------------------------------------
  // Changes to the note table
  // ---------------------------------------------------------------------

  /** `db.session.delete(row)`: the row at position `i` removed, the others kept in order. */
  function RemoveAt<T>(rows: seq<T>, i: nat): (r: seq<T>)
    requires i < |rows|
    ensures |r| == |rows| - 1
    ensures forall j :: 0 <= j < i ==> r[j] == rows[j]
    ensures forall j :: i < j < |rows| ==> r[j - 1] == rows[j]
  {
    rows[..i] + rows[i + 1..]
  }

  /**
    With unique ids, removing the row at `i` removes exactly the note with
    that id: every other note stays.
  */
  lemma RemoveAtExactly(notes: seq<Note>, i: nat)
    requires i < |notes|
    requires forall a, b :: 0 <= a < b < |notes| ==> notes[a].id != notes[b].id
    ensures forall n :: n in RemoveAt(notes, i) <==> n in notes && n.id != notes[i].id
  {
    var r := RemoveAt(notes, i);
    forall n | n in notes && n.id != notes[i].id ensures n in r {
      var j :| 0 <= j < |notes| && notes[j] == n;
      if j < i { assert r[j] == n; } else { assert r[j - 1] == n; }
    }
    forall n | n in r ensures n in notes && n.id != notes[i].id {
      var j :| 0 <= j < |r| && r[j] == n;
      if j < i { assert n == notes[j]; } else { assert n == notes[j + 1]; }
    }
  }

  /** Removing a note keeps the store valid. */
  lemma RemoveAtValid(users: seq<User>, notes: seq<Note>, clock: nat, i: nat)
    requires StoreValid(users, notes, clock) && i < |notes|
    ensures StoreValid(users, RemoveAt(notes, i), clock)
  {
    var r := RemoveAt(notes, i);
    forall a, b | 0 <= a < b < |r| ensures r[a].id != r[b].id {
      var a' := if a < i then a else a + 1;
      var b' := if b < i then b else b + 1;
      assert r[a] == notes[a'] && r[b] == notes[b'];
    }
    forall a | 0 <= a < |r| ensures NoteValid(r[a], users, clock) {
      assert r[a] == notes[if a < i then a else a + 1];
    }
  }

  /** Replacing a row by one with the same id and valid fields keeps the store valid. */
  lemma ReplaceAtValid(users: seq<User>, notes: seq<Note>, clock: nat, i: nat, m: Note)
    requires StoreValid(users, notes, clock) && i < |notes|
    requires m.id == notes[i].id && NoteValid(m, users, clock)
    ensures StoreValid(users, notes[i := m], clock)
  {
  }

  /** Adding a row with a fresh id and valid fields keeps the store valid. */
  lemma AppendValid(users: seq<User>, notes: seq<Note>, clock: nat, m: Note)
    requires StoreValid(users, notes, clock)
    requires m.id == NextNoteId(notes) && NoteValid(m, users, clock)
    ensures StoreValid(users, notes + [m], clock)
  {
  }

  // ---------------------------------------------------------------------
  // Deleting a user: `cascade='all, delete-orphan'`
  // ---------------------------------------------------------------------

  /** The notes left when a user's notes go with the user. */
  function NotesWithout(notes: seq<Note>, owner: int): (r: seq<Note>)
    ensures forall n :: n in r <==> n in notes && n.userId != owner
    ensures |r| <= |notes|
  {
    if notes == [] then []
    else (if notes[0].userId != owner then [notes[0]] else []) + NotesWithout(notes[1..], owner)
  }

  /** The user rows left after removing one keep their keys and emails unique. */
  lemma RemainingUsersValid(users: seq<User>, clock: nat, i: nat)
    requires UsersValid(users, clock) && i < |users|
    ensures UsersValid(RemoveAt(users, i), clock)
  {
    var us := RemoveAt(users, i);
    forall a, b | 0 <= a < b < |us| ensures us[a].id != us[b].id && us[a].email != us[b].email {
      assert us[a] == users[if a < i then a else a + 1];
      assert us[b] == users[if b < i then b else b + 1];
    }
    forall a | 0 <= a < |us| ensures us[a] in users {
      assert us[a] == users[if a < i then a else a + 1];
    }
  }

  /** Removing the row at `i` removes its id, and only that id when ids are unique. */
  lemma RemainingUserIds(users: seq<User>, i: nat)
    requires i < |users|
    requires forall a, b :: 0 <= a < b < |users| ==> users[a].id != users[b].id
    ensures UserIds(RemoveAt(users, i)) == UserIds(users) - {users[i].id}
  {
    OtherUserIdsRemain(users, i);
    RemovedUserIdGone(users, i);
  }

  /** Every id other than the removed row's is still there. */
  lemma OtherUserIdsRemain(users: seq<User>, i: nat)
    requires i < |users|
    ensures UserIds(users) - {users[i].id} <= UserIds(RemoveAt(users, i))
  {
    var us := RemoveAt(users, i);
    forall id | id in UserIds(users) - {users[i].id} ensures id in UserIds(us) {
      var u :| u in users && u.id == id;
      var j :| 0 <= j < |users| && users[j] == u;
      assert u == us[if j < i then j else j - 1];
    }
  }

  /** With unique ids, the removed row's id is gone and no new id appears. */
  lemma RemovedUserIdGone(users: seq<User>, i: nat)
    requires i < |users|
    requires forall a, b :: 0 <= a < b < |users| ==> users[a].id != users[b].id
    ensures UserIds(RemoveAt(users, i)) <= UserIds(users) - {users[i].id}
  {
    var us := RemoveAt(users, i);
    forall id | id in UserIds(us) ensures id in UserIds(users) - {users[i].id} {
      var u :| u in us && u.id == id;
      var j :| 0 <= j < |us| && us[j] == u;
      assert u == users[if j < i then j else j + 1];
    }
  }

  /**
    Deleting a user with its notes leaves a valid store: no note of that
    user is left, every other user's notes are all still there, and the
    other users are untouched.
  */
  lemma DeleteUserValid(users: seq<User>, notes: seq<Note>, clock: nat, i: nat)
    requires StoreValid(users, notes, clock) && i < |users|
    ensures StoreValid(RemoveAt(users, i), NotesWithout(notes, users[i].id), clock)
  {
    var us := RemoveAt(users, i);
    var ns := NotesWithout(notes, users[i].id);
    RemainingUsersValid(users, clock, i);
    RemainingUserIds(users, i);
    NotesWithoutValid(notes, users, clock, users[i].id);
    forall a | 0 <= a < |ns| ensures NoteValid(ns[a], us, clock) {
      assert ns[a] in ns;
    }
  }

  /** The notes left after removing an owner's are rows of the original table, still with unique ids. */
  lemma {:induction false} NotesWithoutValid(notes: seq<Note>, users: seq<User>, clock: nat, owner: int)
    requires NotesValid(notes, users, clock)
    ensures forall a, b :: 0 <= a < b < |NotesWithout(notes, owner)| ==>
      NotesWithout(notes, owner)[a].id != NotesWithout(notes, owner)[b].id
  {
    if notes != [] {
      var tail := notes[1..];
      NotesValidTail(notes, users, clock);
      NotesWithoutValid(tail, users, clock, owner);
      var rest := NotesWithout(tail, owner);
      forall n | n in rest ensures n.id != notes[0].id {
        var j :| 0 <= j < |tail| && tail[j] == n;
        assert n == notes[j + 1];
      }
    }
  }

  /** The rows after the first of a valid notes table form a valid table. */
  lemma NotesValidTail(notes: seq<Note>, users: seq<User>, clock: nat)
    requires NotesValid(notes, users, clock) && notes != []
    ensures NotesValid(notes[1..], users, clock)
  {
    assert forall a :: 0 <= a < |notes| - 1 ==> notes[1..][a] == notes[a + 1];
  }

  // ---------------------------------------------------------------------
  // The database
  // ---------------------------------------------------------------------

  /** The two tables and the clock; rows are replaced, added and removed in place. */
  class Database {
    var users: seq<User>
    var notes: seq<Note>
    var clock: nat

    ghost predicate Valid()
      reads this
    {
      StoreValid(users, notes, clock)
    }

    /** A freshly created database: empty tables. */
    constructor ()
      ensures Valid()
      ensures users == [] && notes == [] && clock == 0
    {
      users := [];
      notes := [];
      clock := 0;
    }

    /** Reads the clock for a write: a reading later than every stored timestamp. */
    method Tick() returns (now: nat)
      requires Valid()
      modifies this
      ensures Valid()
      ensures clock == old(clock) + 1 && now == clock
      ensures users == old(users) && notes == old(notes)
    {
      clock := clock + 1;
      now := clock;
      ClockAdvance(users, notes, clock - 1, clock);
    }

    /**
      `db.session.delete(user)`: the user row goes and, through the
      relationship's cascade, every note it owns; nothing else changes.
    */
    method DeleteUser(i: nat)
      requires Valid() && i < |users|
      modifies this
      ensures Valid()
      ensures users == RemoveAt(old(users), i)
      ensures notes == NotesWithout(old(notes), old(users)[i].id)
      ensures clock == old(clock)
    {
      DeleteUserValid(users, notes, clock, i);
      notes := NotesWithout(notes, users[i].id);
      users := RemoveAt(users, i);
    }
  }
}
