/**
  SQLite's `LIKE` operator, which is what the ORM's `column.contains(q)`
  becomes: `column LIKE '%' || q || '%'`, with no ESCAPE clause.
  `%` matches any run of characters, `_` any single character, and
  letters compare without regard to case for ASCII only (SQLite's default,
  `PRAGMA case_sensitive_like = OFF`).
*/
module SqlLike {

  /** SQLite's case folding for LIKE: ASCII upper-case letters only. */
  function Fold(c: char): char {
    if 'A' <= c <= 'Z' then (c as int + 32) as char else c
  }

  function FoldAll(s: string): (r: string)
    ensures |r| == |s|
    ensures forall i :: 0 <= i < |s| ==> r[i] == Fold(s[i])
  {
    if s == [] then [] else [Fold(s[0])] + FoldAll(s[1..])
  }

  /** `t LIKE p` in SQLite, without an ESCAPE character. */
  function Like(p: string, t: string): bool
    decreases |p| + |t|
  {
    if p == [] then t == []
    else if p[0] == '%' then Like(p[1..], t) || (t != [] && Like(p, t[1..]))
    else t != [] && (p[0] == '_' || Fold(p[0]) == Fold(t[0])) && Like(p[1..], t[1..])
  }

  /** The SQL that `column.contains(q)` produces, evaluated on the column's value. */
  function Contains(field: string, q: string): bool {
    Like("%" + q + "%", field)
  }

  /** `q` occurs in `t` starting at position `i`. */
  predicate OccursAt(q: string, t: string, i: int) {
    0 <= i <= |t| - |q| && t[i..i + |q|] == q
  }

  /** `q` occurs in `t` as a contiguous block. */
  predicate IsSubstring(q: string, t: string) {
    exists i | 0 <= i <= |t| - |q| :: OccursAt(q, t, i)
  }

  /** A query with no LIKE wildcard in it. */
  predicate WildcardFree(q: string) {
    '%' !in q && '_' !in q
  }

  /** A lone `%` matches every text. */
  lemma {:induction false} PercentMatchesAll(t: string)
    ensures Like("%", t)
  {
    if t != [] {
      PercentMatchesAll(t[1..]);
    }
  }

  /** A leading `%` lets the rest of the pattern match any suffix. */
  lemma {:induction false} LeadingPercent(r: string, t: string)
    ensures Like("%" + r, t) <==> exists i :: 0 <= i <= |t| && Like(r, t[i..])
  {
    var p := "%" + r;
    assert p[1..] == r;
    assert t[0..] == t;
    if t != [] {
      LeadingPercent(r, t[1..]);
      if Like(p, t[1..]) {
        var i :| 0 <= i <= |t[1..]| && Like(r, t[1..][i..]);
        assert t[1..][i..] == t[i + 1..];
      }
      if exists i :: 0 <= i <= |t| && Like(r, t[i..]) {
        var i :| 0 <= i <= |t| && Like(r, t[i..]);
        if i > 0 {
          assert t[1..][i - 1..] == t[i..];
        }
      }
    }
  }

  /** A wildcard-free pattern followed by `%` matches exactly the texts it is a case-folded prefix of. */
  lemma {:induction false} PrefixThenPercent(q: string, t: string)
    requires WildcardFree(q)
    ensures Like(q + "%", t) <==> |q| <= |t| && FoldAll(q) == FoldAll(t[..|q|])
  {
    if q == [] {
      PercentMatchesAll(t);
      assert q + "%" == "%";
    } else {
      var p := q + "%";
      assert p[0] == q[0] && p[1..] == q[1..] + "%";
      assert WildcardFree(q[1..]) by {
        assert forall c :: c in q[1..] ==> c in q;
      }
      if t != [] {
        PrefixThenPercent(q[1..], t[1..]);
        if |q| <= |t| {
          assert t[1..][..|q| - 1] == t[..|q|][1..];
          assert FoldAll(q) == [Fold(q[0])] + FoldAll(q[1..]);
          assert FoldAll(t[..|q|]) == [Fold(t[0])] + FoldAll(t[..|q|][1..]);
        }
      }
    }
  }

  /** Folding commutes with taking a slice. */
  lemma FoldAllSlice(t: string, i: int, j: int)
    requires 0 <= i <= j <= |t|
    ensures FoldAll(t[i..j]) == FoldAll(t)[i..j]
  {
  }

  /** A wildcard-free query found by `contains` occurs, case-folded, at some position. */
  lemma ContainsFound(field: string, q: string) returns (i: int)
    requires WildcardFree(q)
    requires Contains(field, q)
    ensures OccursAt(FoldAll(q), FoldAll(field), i)
  {
    assert "%" + q + "%" == "%" + (q + "%");
    LeadingPercent(q + "%", field);
    i :| 0 <= i <= |field| && Like(q + "%", field[i..]);
    PrefixThenPercent(q, field[i..]);
    assert field[i..][..|q|] == field[i..i + |q|];
    FoldAllSlice(field, i, i + |q|);
  }

  /** A case-folded occurrence of a wildcard-free query is found by `contains`. */
  lemma OccurrenceFound(field: string, q: string, i: int)
    requires WildcardFree(q)
    requires OccursAt(FoldAll(q), FoldAll(field), i)
    ensures Contains(field, q)
  {
    assert field[i..][..|q|] == field[i..i + |q|];
    FoldAllSlice(field, i, i + |q|);
    PrefixThenPercent(q, field[i..]);
    LeadingPercent(q + "%", field);
    assert "%" + q + "%" == "%" + (q + "%");
  }

  /**
    For a query without wildcards, `contains` is case-insensitive (ASCII)
    substring containment; both directions.
  */
  lemma ContainsIsSubstring(field: string, q: string)
    requires WildcardFree(q)
    ensures Contains(field, q) <==> IsSubstring(FoldAll(q), FoldAll(field))
  {
    if Contains(field, q) {
      var i := ContainsFound(field, q);
    }
    if IsSubstring(FoldAll(q), FoldAll(field)) {
      var i :| OccursAt(FoldAll(q), FoldAll(field), i);
      OccurrenceFound(field, q, i);
    }
  }

  /** An empty query matches every value: `'%%'` is `LIKE`-true of all text. */
  lemma EmptyQueryMatchesAll(field: string)
    ensures Contains(field, "")
  {
    assert "%" + "" + "%" == "%%";
    assert Like("%", field) by { PercentMatchesAll(field); }
    LeadingPercent("%", field);
    assert field[0..] == field;
  }

  /** `_` in the query is a wildcard: "a_b" is found in "axb", where it does not occur literally. */
  lemma UnderscoreIsWildcard()
    ensures Contains("axb", "a_b")
    ensures !IsSubstring("a_b", "axb")
  {
    assert Like("", "");
    assert Like("%", "");
    assert "b%"[1..] == "%" && "b"[1..] == "";
    assert Like("b%", "b");
    assert "_b%"[1..] == "b%" && "xb"[1..] == "b";
    assert Like("_b%", "xb");
    assert "a_b%"[1..] == "_b%" && "axb"[1..] == "xb";
    assert Like("a_b%", "axb");
    assert "%a_b%"[1..] == "a_b%";
    assert "%" + "a_b" + "%" == "%a_b%";
  }

  /** Matching ignores ASCII case: "groc" is found in "Groceries". */
  lemma CaseInsensitive()
    ensures Contains("Groceries", "groc")
  {
    var t, q := "Groceries", "groc";
    assert t[0..4] == "Groc";
    FoldAllSlice(t, 0, 4);
    assert Fold('G') == 'g';
    FoldAgree("Groc", q);
    OccurrenceFound(t, q, 0);
  }

  /** Texts that agree character by character once folded fold to the same text. */
  lemma FoldAgree(a: string, b: string)
    requires |a| == |b| && forall i :: 0 <= i < |a| ==> Fold(a[i]) == Fold(b[i])
    ensures FoldAll(a) == FoldAll(b)
  {
  }
}
