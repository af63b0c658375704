/**
  The comma-separated tags field of the note forms: how a submitted value
  becomes a list of tags, and how the edit form writes a list back out.
*/
module Tags {
  import opened Common
  import opened Text

  /** Each part stripped, blank parts dropped: `[t.strip() for t in parts if t.strip()]`. */
  function StripNonBlank(parts: seq<string>): (r: seq<string>)
    ensures forall i :: 0 <= i < |r| ==> r[i] != "" && IsTrimmed(r[i])
  {
    if parts == [] then []
    else
      var t := Strip(parts[0]);
      (if t != "" then [t] else []) + StripNonBlank(parts[1..])
  }

  /**
    The tags parsed from the form's tags data: nothing when the field is
    missing or empty; otherwise every tag is non-empty, has no white space
    at either end and contains no comma.
  */
  function ParseTags(data: Option<string>): (r: seq<string>)
    ensures data.None? || data.value == "" ==> r == []
    ensures forall i :: 0 <= i < |r| ==> WellFormedTag(r[i])
  {
    if data.None? || data.value == "" then []
    else
      StripNonBlankCommaFree(Split(data.value, ','));
      StripNonBlank(Split(data.value, ','))
  }

  /** `', '.join(tags)`: the text the edit form is refilled with. */
  function JoinTags(tags: seq<string>): string {
    Join(", ", tags)
  }

  /** A tag that survives a write-out and a re-parse: non-empty, trimmed and free of commas. */
  predicate WellFormedTag(t: string) {
    t != "" && IsTrimmed(t) && ',' !in t
  }

  lemma {:induction false} StripNonBlankAppend(a: seq<string>, b: seq<string>)
    ensures StripNonBlank(a + b) == StripNonBlank(a) + StripNonBlank(b)
  {
    if a == [] {
      assert a + b == b;
    } else {
      StripNonBlankAppend(a[1..], b);
      HeadTail(a);
      StripNonBlankAppendStep(a[0], a[1..], b);
    }
  }

  /** The step of `StripNonBlankAppend`: the first part is kept or dropped on both sides alike. */
  lemma StripNonBlankAppendStep(p: string, rest: seq<string>, b: seq<string>)
    requires StripNonBlank(rest + b) == StripNonBlank(rest) + StripNonBlank(b)
    ensures StripNonBlank([p] + rest + b) == StripNonBlank([p] + rest) + StripNonBlank(b)
  {
    var first: seq<string> := if Strip(p) != "" then [Strip(p)] else [];
    calc {
      StripNonBlank([p] + rest + b);
      == { Assoc([p], rest, b); StripNonBlankFirst(p, rest + b); }
      first + StripNonBlank(rest + b);
      first + (StripNonBlank(rest) + StripNonBlank(b));
      == { Assoc(first, StripNonBlank(rest), StripNonBlank(b)); }
      (first + StripNonBlank(rest)) + StripNonBlank(b);
      == { StripNonBlankFirst(p, rest); }
      StripNonBlank([p] + rest) + StripNonBlank(b);
    }
  }

  /** The first part contributes its strip when that is not empty, and nothing otherwise. */
  lemma StripNonBlankFirst(p: string, parts: seq<string>)
    ensures StripNonBlank([p] + parts) == (if Strip(p) != "" then [Strip(p)] else []) + StripNonBlank(parts)
  {
    assert ([p] + parts)[1..] == parts;
  }

  /** The empty text and a missing field parse alike, so parsing is splitting then stripping. */
  lemma ParseTagsIsSplitStrip(s: string)
    ensures ParseTags(Some(s)) == StripNonBlank(Split(s, ','))
  {
    if s == "" {
      SplitNoSeparator(s, ',');
    }
  }

  lemma StripNonBlankCommaFree(parts: seq<string>)
    requires forall i :: 0 <= i < |parts| ==> ',' !in parts[i]
    ensures forall i :: 0 <= i < |StripNonBlank(parts)| ==> ',' !in StripNonBlank(parts)[i]
  {
    if parts != [] {
      StripSubset(parts[0], ',');
      StripNonBlankCommaFree(parts[1..]);
    }
  }

  /** Tags keep their input order: the tags of "a,b" are the tags of a followed by those of b. */
  lemma ParseTagsAppend(a: string, b: string)
    ensures ParseTags(Some(a + "," + b)) == ParseTags(Some(a)) + ParseTags(Some(b))
  {
    ParseTagsIsSplitStrip(a + "," + b);
    ParseTagsIsSplitStrip(a);
    ParseTagsIsSplitStrip(b);
    SplitAppend(a, ',', b);
    StripNonBlankAppend(Split(a, ','), Split(b, ','));
  }

  /** The first tag, written after a blank text, strips back to itself. */
  lemma FirstTagStrips(pre: string, x: string)
    requires IsBlank(pre) && WellFormedTag(x)
    ensures Strip(pre + x) == x
  {
    StripUnique(pre, x, []);
    assert pre + x + [] == pre + x;
  }

  /** Joined text with two or more tags: the first, a comma, then a space before the rest. */
  lemma JoinTagsCons(pre: string, xs: seq<string>)
    requires |xs| >= 2
    ensures pre + JoinTags(xs) == (pre + xs[0]) + [','] + (" " + JoinTags(xs[1..]))
  {
  }

  /** With a blank text in front, the joined tags parse back to the tags. */
  lemma {:induction false} JoinedTagsParse(pre: string, xs: seq<string>)
    requires IsBlank(pre) && ',' !in pre
    requires |xs| >= 1
    requires forall i :: 0 <= i < |xs| ==> WellFormedTag(xs[i])
    ensures StripNonBlank(Split(pre + JoinTags(xs), ',')) == xs
    decreases |xs|
  {
    FirstTagStrips(pre, xs[0]);
    if |xs| == 1 {
      assert pre + JoinTags(xs) == pre + xs[0];
      SplitNoSeparator(pre + xs[0], ',');
      StripNonBlankFirst(pre + xs[0], []);
    } else {
      WellFormedTail(xs);
      assert IsBlank(" ") by { assert IsSpace(" "[0]); }
      JoinedTagsParse(" ", xs[1..]);
      JoinTagsCons(pre, xs);
      HeadTail(xs);
      JoinedTagsParseStep(pre + xs[0], xs[0], xs[1..]);
    }
  }

  /** The tags after the first are well formed too. */
  lemma WellFormedTail(xs: seq<string>)
    requires |xs| >= 1
    requires forall i :: 0 <= i < |xs| ==> WellFormedTag(xs[i])
    ensures forall i :: 0 <= i < |xs[1..]| ==> WellFormedTag(xs[1..][i])
  {
    forall i | 0 <= i < |xs[1..]| ensures WellFormedTag(xs[1..][i]) {
      assert xs[1..][i] == xs[i + 1];
    }
  }

  /** The step of `JoinedTagsParse`: the first part strips to the first tag, the rest parse as before. */
  lemma JoinedTagsParseStep(first: string, x: string, tail: seq<string>)
    requires ',' !in first && Strip(first) == x && x != ""
    requires StripNonBlank(Split(" " + JoinTags(tail), ',')) == tail
    ensures StripNonBlank(Split(first + [','] + (" " + JoinTags(tail)), ',')) == [x] + tail
  {
    var rest := " " + JoinTags(tail);
    SplitCons(first, ',', rest);
    StripNonBlankFirst(first, Split(rest, ','));
  }

  /**
    Writing well-formed tags out as the edit form does and parsing the
    text again gives the same tags in the same order.
  */
  lemma TagsRoundTrip(xs: seq<string>)
    requires forall i :: 0 <= i < |xs| ==> WellFormedTag(xs[i])
    ensures ParseTags(Some(JoinTags(xs))) == xs
  {
    if xs != [] {
      JoinedTagsParse("", xs);
      assert "" + JoinTags(xs) == JoinTags(xs);
      ParseTagsIsSplitStrip(JoinTags(xs));
    }
  }

  /** The text the edit form is refilled with parses back to the tags it came from. */
  lemma PrefillRoundTrip(data: Option<string>)
    ensures ParseTags(Some(JoinTags(ParseTags(data)))) == ParseTags(data)
  {
    TagsRoundTrip(ParseTags(data));
  }
}
