/**
  The two tables of the application, `Note` and `User`, as row values,
  and the methods the ORM classes define on them. Timestamps are readings
  of a logical clock; ids are SQLite integer row ids.
*/
module Models {
  import opened Common
  import Json

  /** A row of the `note` table. `tags` is the JSON text column, `None` for NULL. */
  datatype Note = Note(
    id: int,
    title: string,
    content: string,
    category: string,
    tags: Option<string>,
    isFavorite: bool,
    createdAt: nat,
    updatedAt: nat,
    userId: int)
  {
    /** `set_tags(tags_list)`: store the list as JSON text; no other field changes. */
    function SetTags(tagsList: seq<string>): (n: Note)
      ensures n.GetTags() == Some(tagsList)
      ensures n.(tags := tags) == this
    {
      Json.LoadsDumps(tagsList);
      assert Json.Dumps(tagsList) != "" by { assert Json.Dumps(tagsList)[0] == '['; }
      this.(tags := Some(Json.Dumps(tagsList)))
    }

    /** `get_tags()`: NULL or empty text is the empty list; otherwise `json.loads`, `None` when that fails. */
    function GetTags(): (r: Option<seq<string>>)
      ensures (tags.None? || tags == Some("")) ==> r == Some([])
    {
      if tags.None? || tags.value == "" then Some([]) else Json.Loads(tags.value)
    }

    /** `to_dict()`: `None` when decoding the tags fails (the call raises). */
    function ToDict(): (d: Option<NoteDict>)
      ensures d.Some? <==> GetTags().Some?
    {
      match GetTags()
      case None => None
      case Some(ts) => Some(NoteDict(id, title, content, category, ts, isFavorite, createdAt, updatedAt))
    }
  }

  /** The dictionary `to_dict` returns; the two timestamps stay clock readings instead of ISO-8601 text. */
  datatype NoteDict = NoteDict(
    id: int,
    title: string,
    content: string,
    category: string,
    tags: seq<string>,
    isFavorite: bool,
    createdAt: nat,
    updatedAt: nat)

  /**
    The dictionary of a note whose tags were set from a list copies the
    scalar fields unchanged and gives back exactly that list, in order.
  */
  lemma ToDictAfterSetTags(n: Note, tagsList: seq<string>)
    ensures n.SetTags(tagsList).ToDict()
      == Some(NoteDict(n.id, n.title, n.content, n.category, tagsList, n.isFavorite, n.createdAt, n.updatedAt))
  {
  }

  /** A row of the `user` table; `lastName` and `lastLogin` are `None` for NULL. */
  datatype User = User(
    id: int,
    email: string,
    firstName: string,
    lastName: Option<string>,
    password: string,
    createdAt: nat,
    lastLogin: Option<nat>,
    isActive: bool)
  {
    /** Whether `self.last_name` is truthy. */
    predicate HasLastName() {
      lastName.Some? && lastName.value != ""
    }

    /** `get_full_name()`: the first name, then a space and the last name when there is one. */
    function FullName(): (r: string)
      ensures |firstName| <= |r| && r[..|firstName|] == firstName
      ensures HasLastName() ==>
        (|r| == |firstName| + 1 + |lastName.value| && r[|firstName|] == ' ' && r[|firstName| + 1..] == lastName.value)
      ensures !HasLastName() ==> r == firstName
    {
      if HasLastName() then firstName + " " + lastName.value else firstName
    }
  }

  /** A new `User(...)`: no login yet, active by the column default. */
  function NewUser(id: int, email: string, firstName: string, lastName: Option<string>, password: string, now: nat): User {
    User(id, email, firstName, lastName, password, now, None, true)
  }
}
