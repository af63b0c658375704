/**
  The string operations of Python that the application relies on:
  `str.isspace`, `str.strip`, `str.split(sep)` and `sep.join(xs)`.
  Strings are sequences of Unicode code points, as Python's `str` is.
*/
module Text {
  import opened Common

  /** Python's `str.isspace` for one code point. */
  predicate IsSpace(c: char) {
    var k := c as int;
    (9 <= k <= 13) || (28 <= k <= 32) || k == 0x85 || k == 0xA0 || k == 0x1680
    || (0x2000 <= k <= 0x200A) || k == 0x2028 || k == 0x2029 || k == 0x202F
    || k == 0x205F || k == 0x3000
  }

  /** Empty or made of white space only; `s.strip()` is then falsy. */
  predicate IsBlank(s: string) {
    forall i :: 0 <= i < |s| ==> IsSpace(s[i])
  }

  /** Neither starts nor ends with white space. */
  predicate IsTrimmed(s: string) {
    s == [] || (!IsSpace(s[0]) && !IsSpace(s[|s| - 1]))
  }

  /** The first position at or after `i` that does not hold white space, or `|s|`. */
  function SkipSpaces(s: string, i: nat): (k: nat)
    requires i <= |s|
    ensures i <= k <= |s|
    ensures forall m :: i <= m < k ==> IsSpace(s[m])
    ensures k == |s| || !IsSpace(s[k])
    decreases |s| - i
  {
    if i < |s| && IsSpace(s[i]) then SkipSpaces(s, i + 1) else i
  }

  /** The end of the text in `s[lo..j]` once white space is removed from its back. */
  function SkipSpacesBack(s: string, lo: nat, j: nat): (k: nat)
    requires lo <= j <= |s|
    ensures lo <= k <= j
    ensures forall m :: k <= m < j ==> IsSpace(s[m])
    ensures k == lo || !IsSpace(s[k - 1])
  {
    if lo < j && IsSpace(s[j - 1]) then SkipSpacesBack(s, lo, j - 1) else j
  }

  /** Python's `s.strip()`: `s` without the white space at either end. */
  function Strip(s: string): (r: string)
    ensures IsTrimmed(r)
    ensures |r| <= |s|
  {
    var a := SkipSpaces(s, 0);
    s[a..SkipSpacesBack(s, a, |s|)]
  }

  /** The white space removed by `Strip` is all there was around the result. */
  lemma StripInfix(s: string)
    ensures var k := SkipSpaces(s, 0);
      k + |Strip(s)| <= |s| && s[k..k + |Strip(s)|] == Strip(s)
      && IsBlank(s[..k]) && IsBlank(s[k + |Strip(s)|..])
  {
    var a := SkipSpaces(s, 0);
    var b := SkipSpacesBack(s, a, |s|);
    assert forall m :: 0 <= m < a ==> s[..a][m] == s[m];
    assert forall m :: 0 <= m < |s| - b ==> s[b..][m] == s[b + m];
  }

  /**
    Whatever blank text surrounds a trimmed text, stripping gives the
    trimmed text: with `StripInfix`, this pins `Strip` down exactly.
  */
  lemma StripUnique(pre: string, r: string, post: string)
    requires IsBlank(pre) && IsTrimmed(r) && IsBlank(post)
    ensures Strip(pre + r + post) == r
  {
    var s := pre + r + post;
    assert forall m :: 0 <= m < |pre| ==> s[m] == pre[m];
    assert forall m :: |pre| + |r| <= m < |s| ==> s[m] == post[m - |pre| - |r|];
    if r == [] {
      StripAllBlank(s);
    } else {
      assert s[|pre|] == r[0] && s[|pre| + |r| - 1] == r[|r| - 1];
      StripBetween(s, |pre|, |pre| + |r|);
      assert s[|pre|..|pre| + |r|] == r;
    }
  }

  /** A blank text strips to nothing. */
  lemma StripAllBlank(s: string)
    requires forall m :: 0 <= m < |s| ==> IsSpace(s[m])
    ensures Strip(s) == []
  {
    assert SkipSpaces(s, 0) == |s|;
  }

  /** A text whose first and last non-blank characters are at `a` and `b - 1` strips to `s[a..b]`. */
  lemma StripBetween(s: string, a: nat, b: nat)
    requires a < b <= |s|
    requires forall m :: 0 <= m < a ==> IsSpace(s[m])
    requires !IsSpace(s[a]) && !IsSpace(s[b - 1])
    requires forall m :: b <= m < |s| ==> IsSpace(s[m])
    ensures Strip(s) == s[a..b]
  {
    assert SkipSpaces(s, 0) == a;
    assert SkipSpacesBack(s, a, |s|) == b;
  }

  /** `s.strip()` is empty exactly when `s` is blank. */
  lemma StripEmptyIffBlank(s: string)
    ensures Strip(s) == [] <==> IsBlank(s)
  {
    if IsBlank(s) {
      StripAllBlank(s);
    }
  }

  /** A trimmed string is its own strip. */
  lemma StripTrimmed(s: string)
    requires IsTrimmed(s)
    ensures Strip(s) == s
  {
    StripUnique([], s, []);
    assert [] + s + [] == s;
  }

  /** Stripping twice is stripping once. */
  lemma StripIdempotent(s: string)
    ensures Strip(Strip(s)) == Strip(s)
  {
    StripTrimmed(Strip(s));
  }

  /** Position of the first `c` in `s`, or `|s|` when there is none (`str.find`, with "absent" as `|s|`). */
  function IndexOf(s: string, c: char): (r: nat)
    ensures r <= |s|
    ensures r < |s| ==> s[r] == c
    ensures c !in s[..r]
  {
    if s == [] then 0
    else if s[0] == c then 0
    else
      var k := IndexOf(s[1..], c);
      assert s[..k + 1] == [s[0]] + s[1..][..k];
      k + 1
  }

  /** Python's `s.split(sep)` for a one-character separator: always at least one part, possibly empty ones. */
  function Split(s: string, sep: char): (parts: seq<string>)
    ensures |parts| >= 1
    ensures forall i :: 0 <= i < |parts| ==> sep !in parts[i]
    decreases |s|
  {
    var i := IndexOf(s, sep);
    if i == |s| then
      assert s[..i] == s;
      [s]
    else
      [s[..i]] + Split(s[i + 1..], sep)
  }

  /** Python's `sep.join(xs)`. */
  function Join(sep: string, xs: seq<string>): string {
    if |xs| == 0 then ""
    else if |xs| == 1 then xs[0]
    else xs[0] + sep + Join(sep, xs[1..])
  }

  /** Splitting and joining back with the same separator gives the input. */
  lemma {:induction false} JoinSplit(s: string, sep: char)
    ensures Join([sep], Split(s, sep)) == s
    decreases |s|
  {
    var i := IndexOf(s, sep);
    if i == |s| {
      assert s[..i] == s;
    } else {
      JoinSplit(s[i + 1..], sep);
      JoinSplitStep(s, sep, i);
      AroundIndex(s, i);
    }
  }

  /** One step of `JoinSplit`: the first part, the separator, then the rest joined back. */
  lemma JoinSplitStep(s: string, sep: char, i: nat)
    requires i == IndexOf(s, sep) < |s|
    ensures Join([sep], Split(s, sep)) == s[..i] + [sep] + Join([sep], Split(s[i + 1..], sep))
  {
    var rest := Split(s[i + 1..], sep);
    assert Split(s, sep) == [s[..i]] + rest;
    assert ([s[..i]] + rest)[1..] == rest;
  }

  /** Splitting a part with no separator in front of the rest yields that part first. */
  lemma SplitCons(x: string, sep: char, rest: string)
    requires sep !in x
    ensures Split(x + [sep] + rest, sep) == [x] + Split(rest, sep)
  {
    var s := x + [sep] + rest;
    assert s[..|x|] == x;
    assert s[|x|] == sep;
    assert IndexOf(s, sep) == |x|;
    assert s[|x| + 1..] == rest;
  }

  /** Joining parts that do not contain the separator and splitting again gives the parts. */
  lemma {:induction false} SplitJoin(xs: seq<string>, sep: char)
    requires |xs| >= 1
    requires forall i :: 0 <= i < |xs| ==> sep !in xs[i]
    ensures Split(Join([sep], xs), sep) == xs
  {
    if |xs| == 1 {
      var s := xs[0];
      assert s[..|s|] == s;
      assert IndexOf(s, sep) == |s|;
    } else {
      SplitJoin(xs[1..], sep);
      SplitCons(xs[0], sep, Join([sep], xs[1..]));
      assert xs == [xs[0]] + xs[1..];
    }
  }

  /** A string without the separator splits into itself alone. */
  lemma SplitNoSeparator(s: string, sep: char)
    requires sep !in s
    ensures Split(s, sep) == [s]
  {
    assert s[..|s|] == s;
  }

  /** Splitting two texts joined by the separator gives the parts of each, in order. */
  lemma {:induction false} SplitAppend(a: string, sep: char, b: string)
    ensures Split(a + [sep] + b, sep) == Split(a, sep) + Split(b, sep)
    decreases |a|
  {
    var i := IndexOf(a, sep);
    if i == |a| {
      assert a[..i] == a;
      SplitNoSeparator(a, sep);
      SplitCons(a, sep, b);
    } else {
      SplitAppend(a[i + 1..], sep, b);
      AroundIndex(a, i);
      SplitAppendStep(a[..i], sep, a[i + 1..], b);
    }
  }

  /** The step of `SplitAppend`: a first part free of the separator goes in front of both sides. */
  lemma SplitAppendStep(head: string, sep: char, tail: string, b: string)
    requires sep !in head
    requires Split(tail + [sep] + b, sep) == Split(tail, sep) + Split(b, sep)
    ensures Split(head + [sep] + tail + [sep] + b, sep) == Split(head + [sep] + tail, sep) + Split(b, sep)
  {
    calc {
      Split(head + [sep] + tail + [sep] + b, sep);
      == { assert head + [sep] + tail + [sep] + b == head + [sep] + (tail + [sep] + b); }
      Split(head + [sep] + (tail + [sep] + b), sep);
      == { SplitCons(head, sep, tail + [sep] + b); }
      [head] + Split(tail + [sep] + b, sep);
      [head] + (Split(tail, sep) + Split(b, sep));
      ([head] + Split(tail, sep)) + Split(b, sep);
      == { SplitCons(head, sep, tail); }
      Split(head + [sep] + tail, sep) + Split(b, sep);
    }
  }

  /** Stripping keeps only characters of the input. */
  lemma StripSubset(s: string, c: char)
    requires c !in s
    ensures c !in Strip(s)
  {
  }
}
