/**
  The note listing of the home page and the JSON API: the owner filter,
  the three optional search filters combined with AND, and the ordering
  by `updated_at`, newest first.
*/
module Search {
  import opened Common
  import opened Models
  import SqlLike
  import Forms

  /**
    The query-string arguments: `query` and `category` default to "",
    `favorites` is the raw text when present.
  */
  datatype SearchArgs = SearchArgs(query: string, category: string, favorites: Option<string>)

  /** No search at all: what the JSON API lists. */
  const NoSearch: SearchArgs := SearchArgs("", "", None)

  /**
    `request.args.get('favorites', False, type=bool)`: the raw text passed
    to `bool`, so any non-empty text, "false" and "0" included, turns the
    filter on.
  */
  predicate FavoritesFlag(raw: Option<string>) {
    raw.Some? && raw.value != ""
  }

  /** The flag is off only when the argument is missing or empty. */
  lemma FavoritesFlagQuirk()
    ensures !FavoritesFlag(None) && !FavoritesFlag(Some(""))
    ensures FavoritesFlag(Some("true")) && FavoritesFlag(Some("false")) && FavoritesFlag(Some("0"))
  {
    assert "false" != "";
  }

  /** `if query:` filter on `or_(title.contains(query), content.contains(query))`. */
  predicate QueryMatches(n: Note, q: string) {
    q == "" || SqlLike.Contains(n.title, q) || SqlLike.Contains(n.content, q)
  }

  /** `if category:` filter on the exact category. */
  predicate CategoryMatches(n: Note, c: string) {
    c == "" || n.category == c
  }

  /** `if show_favorites:` filter on `is_favorite`. */
  predicate FavoriteMatches(n: Note, raw: Option<string>) {
    !FavoritesFlag(raw) || n.isFavorite
  }

  /** The conjunction of the owner filter and the three search filters. */
  predicate Matches(n: Note, actor: int, args: SearchArgs) {
    && n.userId == actor
    && QueryMatches(n, args.query)
    && CategoryMatches(n, args.category)
    && FavoriteMatches(n, args.favorites)
  }

  /** The rows the filtered query selects, in table order. */
  function Filter(notes: seq<Note>, actor: int, args: SearchArgs): (r: seq<Note>)
    ensures forall n :: n in r <==> n in notes && Matches(n, actor, args)
    ensures |r| <= |notes|
  {
    if notes == [] then []
    else (if Matches(notes[0], actor, args) then [notes[0]] else []) + Filter(notes[1..], actor, args)
  }

  /** The query selects each matching row as often as the table holds it, and no other row. */
  lemma {:induction false} FilterCounts(notes: seq<Note>, actor: int, args: SearchArgs)
    ensures forall n :: multiset(Filter(notes, actor, args))[n] ==
                        if Matches(n, actor, args) then multiset(notes)[n] else 0
  {
    if notes != [] {
      FilterCounts(notes[1..], actor, args);
      assert notes == [notes[0]] + notes[1..];
    }
  }

  /** `Note.query.filter_by(user_id=actor)`: the user's own notes, in table order. */
  function OwnedNotes(notes: seq<Note>, actor: int): (r: seq<Note>)
    ensures forall n :: n in r <==> n in notes && n.userId == actor
  {
    if notes == [] then []
    else (if notes[0].userId == actor then [notes[0]] else []) + OwnedNotes(notes[1..], actor)
  }

  /** Newest first: `updated_at` never increases along the sequence. */
  predicate NewestFirst(xs: seq<Note>) {
    forall i, j :: 0 <= i < j < |xs| ==> xs[i].updatedAt >= xs[j].updatedAt
  }

  /** Places a note before the first note that is not newer than it. */
  function Insert(n: Note, xs: seq<Note>): (r: seq<Note>)
    requires NewestFirst(xs)
    ensures NewestFirst(r)
    ensures multiset(r) == multiset(xs) + multiset{n}
  {
    if xs == [] || n.updatedAt >= xs[0].updatedAt then
      NewestFirstCons(n, xs);
      [n] + xs
    else
      NewestFirstTail(xs);
      var rest := Insert(n, xs[1..]);
      assert xs == [xs[0]] + xs[1..];
      NoneNewer(rest, xs[1..], n, xs[0].updatedAt);
      NewestFirstCons(xs[0], rest);
      [xs[0]] + rest
  }

  /** Below the head of a newest-first sequence: still newest first, and none newer than the head. */
  lemma NewestFirstTail(xs: seq<Note>)
    requires NewestFirst(xs) && xs != []
    ensures NewestFirst(xs[1..])
    ensures forall i :: 0 <= i < |xs[1..]| ==> xs[1..][i].updatedAt <= xs[0].updatedAt
  {
    assert forall i :: 0 <= i < |xs[1..]| ==> xs[1..][i] == xs[i + 1];
  }

  /** A note no older than every note of a newest-first sequence can go in front of it. */
  lemma NewestFirstCons(n: Note, xs: seq<Note>)
    requires NewestFirst(xs)
    requires forall j :: 0 <= j < |xs| ==> xs[j].updatedAt <= n.updatedAt
    ensures NewestFirst([n] + xs)
  {
    assert forall j :: 0 <= j < |xs| ==> ([n] + xs)[j + 1] == xs[j];
  }

  /** A rearrangement of notes none newer than `t`, plus one more such note, has none newer than `t`. */
  lemma NoneNewer(r: seq<Note>, xs: seq<Note>, n: Note, t: nat)
    requires multiset(r) == multiset(xs) + multiset{n}
    requires forall i :: 0 <= i < |xs| ==> xs[i].updatedAt <= t
    requires n.updatedAt <= t
    ensures forall j :: 0 <= j < |r| ==> r[j].updatedAt <= t
  {
    forall j | 0 <= j < |r| ensures r[j].updatedAt <= t {
      assert r[j] in multiset(r);
      if r[j] != n {
        assert r[j] in multiset(xs);
        var i :| 0 <= i < |xs| && xs[i] == r[j];
      }
    }
  }

  /**
    `order_by(Note.updated_at.desc())`. Rows with equal timestamps keep
    their table order.
  */
  function SortNewestFirst(xs: seq<Note>): (r: seq<Note>)
    ensures NewestFirst(r)
    ensures multiset(r) == multiset(xs)
  {
    if xs == [] then []
    else
      assert xs == [xs[0]] + xs[1..];
      Insert(xs[0], SortNewestFirst(xs[1..]))
  }

  /** The notes the home page lists for these arguments: the selected rows, newest first. */
  function Listing(notes: seq<Note>, actor: int, args: SearchArgs): (r: seq<Note>)
    ensures NewestFirst(r)
    ensures multiset(r) == multiset(Filter(notes, actor, args))
  {
    SortNewestFirst(Filter(notes, actor, args))
  }

  /**
    Every listed note is the user's own and passes all active filters,
    and every such note is listed.
  */
  lemma ListingSpec(notes: seq<Note>, actor: int, args: SearchArgs)
    ensures forall n :: n in Listing(notes, actor, args) <==> n in notes && Matches(n, actor, args)
  {
    var r := Listing(notes, actor, args);
    forall n ensures n in r <==> n in Filter(notes, actor, args) {
      assert n in r <==> n in multiset(r);
    }
  }

  /** Only the user's notes and no one else's affect the listing. */
  lemma {:induction false} FilterOwnedOnly(notes: seq<Note>, actor: int, args: SearchArgs)
    ensures Filter(notes, actor, args) == Filter(OwnedNotes(notes, actor), actor, args)
  {
    if notes != [] {
      FilterOwnedOnly(notes[1..], actor, args);
      var tail := OwnedNotes(notes[1..], actor);
      var first := if Matches(notes[0], actor, args) then [notes[0]] else [];
      if notes[0].userId == actor {
        assert OwnedNotes(notes, actor) == [notes[0]] + tail;
        assert ([notes[0]] + tail)[1..] == tail;
        assert Filter([notes[0]] + tail, actor, args) == first + Filter(tail, actor, args);
      } else {
        assert OwnedNotes(notes, actor) == tail;
        assert first == [];
      }
    }
  }

  /**
    Ownership isolation: two tables in which the user owns the same notes,
    in the same order, give the user the same listing, whatever the other
    users' notes are.
  */
  lemma ListingIsolated(notes1: seq<Note>, notes2: seq<Note>, actor: int, args: SearchArgs)
    requires OwnedNotes(notes1, actor) == OwnedNotes(notes2, actor)
    ensures Listing(notes1, actor, args) == Listing(notes2, actor, args)
  {
    FilterOwnedOnly(notes1, actor, args);
    FilterOwnedOnly(notes2, actor, args);
  }

  /** With no search arguments the filter keeps exactly the user's notes: the JSON API's list. */
  lemma {:induction false} NoSearchIsOwned(notes: seq<Note>, actor: int)
    ensures Filter(notes, actor, NoSearch) == OwnedNotes(notes, actor)
  {
    if notes != [] {
      NoSearchIsOwned(notes[1..], actor);
    }
  }

  /**
    The `if query:` guard changes nothing: the empty query gives the
    pattern '%%', which every title matches.
  */
  lemma QueryGuardRedundant(n: Note, q: string)
    ensures QueryMatches(n, q) <==> SqlLike.Contains(n.title, q) || SqlLike.Contains(n.content, q)
  {
    if q == "" {
      SqlLike.EmptyQueryMatchesAll(n.title);
    }
  }

  /**
    A query without `%` or `_` finds a note exactly when it occurs in the
    title or in the content, ignoring ASCII case.
  */
  lemma QueryIsSubstring(n: Note, q: string)
    requires SqlLike.WildcardFree(q)
    ensures QueryMatches(n, q) <==>
      SqlLike.IsSubstring(SqlLike.FoldAll(q), SqlLike.FoldAll(n.title))
      || SqlLike.IsSubstring(SqlLike.FoldAll(q), SqlLike.FoldAll(n.content))
  {
    QueryGuardRedundant(n, q);
    SqlLike.ContainsIsSubstring(n.title, q);
    SqlLike.ContainsIsSubstring(n.content, q);
  }

  /**
    A category argument that is neither empty nor one of the note
    categories lists nothing when every stored note has a listed category.
  */
  lemma UnknownCategoryListsNothing(notes: seq<Note>, actor: int, args: SearchArgs)
    requires forall i :: 0 <= i < |notes| ==> notes[i].category in Forms.NoteCategories
    requires args.category != "" && args.category !in Forms.NoteCategories
    ensures Listing(notes, actor, args) == []
  {
    FilterNoMatch(notes, actor, args);
  }

  /** When no row matches, the filter selects nothing. */
  lemma {:induction false} FilterNoMatch(notes: seq<Note>, actor: int, args: SearchArgs)
    requires forall i :: 0 <= i < |notes| ==> !Matches(notes[i], actor, args)
    ensures Filter(notes, actor, args) == []
  {
    if notes != [] {
      assert forall i :: 0 <= i < |notes[1..]| ==> notes[1..][i] == notes[i + 1];
      FilterNoMatch(notes[1..], actor, args);
    }
  }
}
