/**
 * Source/Str.php: string helpers over strings taken as sequences of characters. Case mapping is
 * ASCII-only, as PHP's strtolower, ucfirst, lcfirst and stripos are.
 */
module Str {
  import opened Wrappers

  /** `needle` occurs in `s` at position `i`. */
  predicate OccursAt(s: string, needle: string, i: nat) {
    i + |needle| <= |s| && s[i..i + |needle|] == needle
  }

  lemma OccursAtShift(s: string, needle: string, j: nat)
    requires s != []
    ensures OccursAt(s[1..], needle, j) <==> OccursAt(s, needle, j + 1)
  {
    if j + |needle| <= |s[1..]| {
      assert s[1..][j..j + |needle|] == s[j + 1..j + 1 + |needle|];
    }
  }

  lemma OccursAtPrefix(s: string, needle: string, n: nat, j: nat)
    requires n <= |s|
    ensures OccursAt(s[..n], needle, j) <==> j + |needle| <= n && OccursAt(s, needle, j)
  {
    if j + |needle| <= n {
      assert s[..n][j..j + |needle|] == s[j..j + |needle|];
    }
  }

  /** Position of the first occurrence (strpos, mb_strpos); an empty needle occurs at 0. */
  function FirstOccurrence(s: string, needle: string): (r: Option<nat>)
    ensures r.Some? ==> OccursAt(s, needle, r.value)
    ensures r.Some? ==> forall j | 0 <= j < r.value :: !OccursAt(s, needle, j)
    ensures r.None? ==> forall j :: !OccursAt(s, needle, j)
  {
    if OccursAt(s, needle, 0) then Some(0)
    else if |s| <= |needle| then None
    else
      var rest := FirstOccurrence(s[1..], needle);
      var r: Option<nat> := if rest.Some? then Some(rest.value + 1) else None;
      assert r.Some? ==> forall j | 0 <= j < r.value :: !OccursAt(s, needle, j) by {
        if r.Some? {
          forall j | 0 < j < r.value
            ensures !OccursAt(s, needle, j)
          {
            OccursAtShift(s, needle, j - 1);
          }
        }
      }
      assert r.None? ==> forall j :: !OccursAt(s, needle, j) by {
        if r.None? {
          forall j: nat | 0 < j
            ensures !OccursAt(s, needle, j)
          {
            OccursAtShift(s, needle, j - 1);
          }
        }
      }
      if rest.Some? then OccursAtShift(s, needle, rest.value); r else r
  }

  /** Position of the last occurrence (mb_strrpos). */
  function LastOccurrence(s: string, needle: string): (r: Option<nat>)
    ensures r.Some? ==> OccursAt(s, needle, r.value)
    ensures r.Some? ==> forall j | j > r.value :: !OccursAt(s, needle, j)
    ensures r.None? ==> forall j :: !OccursAt(s, needle, j)
  {
    if |s| < |needle| then None
    else if OccursAt(s, needle, |s| - |needle|) then Some(|s| - |needle|)
    else
      var n := |s| - 1;
      var rest := LastOccurrence(s[..n], needle);
      assert forall j: nat :: OccursAt(s[..n], needle, j) <==> j + |needle| <= n && OccursAt(s, needle, j) by {
        forall j: nat
          ensures OccursAt(s[..n], needle, j) <==> j + |needle| <= n && OccursAt(s, needle, j)
        {
          OccursAtPrefix(s, needle, n, j);
        }
      }
      rest
  }

  /** after_first_occurrence: what follows the first occurrence, or the subject when there is none. */
  function AfterFirstOccurrence(subject: string, needle: string): string {
    var pos := FirstOccurrence(subject, needle);
    if needle == "" || pos.None? then subject else subject[pos.value + |needle|..]
  }

  /** before_first_occurrence: what precedes the first occurrence, or the subject when there is none. */
  function BeforeFirstOccurrence(subject: string, needle: string): string {
    var pos := FirstOccurrence(subject, needle);
    if needle == "" || pos.None? then subject else subject[..pos.value]
  }

  /** after_last_occurrence: what follows the last occurrence, or the subject when there is none. */
  function AfterLastOccurrence(subject: string, needle: string): string {
    var pos := LastOccurrence(subject, needle);
    if needle == "" || pos.None? then subject else subject[pos.value + |needle|..]
  }

  /** before_last_occurrence: what precedes the last occurrence, or the subject when there is none. */
  function BeforeLastOccurrence(subject: string, needle: string): string {
    var pos := LastOccurrence(subject, needle);
    if needle == "" || pos.None? then subject else subject[..pos.value]
  }

  /** `needle` occurs somewhere in `s`. */
  ghost predicate Contains(s: string, needle: string) {
    exists j :: OccursAt(s, needle, j)
  }

  /**
   * Split at the first occurrence: before + needle + after is the subject, and the part before
   * holds no occurrence; with an empty or absent needle both sides are the subject.
   */
  lemma FirstOccurrenceSplit(subject: string, needle: string)
    ensures needle != "" && Contains(subject, needle) ==>
      BeforeFirstOccurrence(subject, needle) + needle + AfterFirstOccurrence(subject, needle) == subject &&
      !Contains(BeforeFirstOccurrence(subject, needle), needle)
    ensures needle == "" || !Contains(subject, needle) ==>
      BeforeFirstOccurrence(subject, needle) == subject && AfterFirstOccurrence(subject, needle) == subject
  {
    var pos := FirstOccurrence(subject, needle);
    if needle != "" && Contains(subject, needle) {
      var p := pos.value;
      var before := subject[..p];
      assert subject[p..p + |needle|] == needle;
      assert before + needle + subject[p + |needle|..] == subject;
      forall j: nat
        ensures !OccursAt(before, needle, j)
      {
        OccursAtPrefix(subject, needle, p, j);
      }
    }
  }

  /**
   * Split at the last occurrence: before + needle + after is the subject, and the part after
   * holds no occurrence; with an empty or absent needle both sides are the subject.
   */
  lemma LastOccurrenceSplit(subject: string, needle: string)
    ensures needle != "" && Contains(subject, needle) ==>
      BeforeLastOccurrence(subject, needle) + needle + AfterLastOccurrence(subject, needle) == subject &&
      !Contains(AfterLastOccurrence(subject, needle), needle)
    ensures needle == "" || !Contains(subject, needle) ==>
      BeforeLastOccurrence(subject, needle) == subject && AfterLastOccurrence(subject, needle) == subject
  {
    var pos := LastOccurrence(subject, needle);
    if needle != "" && Contains(subject, needle) {
      var p := pos.value;
      var start := p + |needle|;
      var after := subject[start..];
      assert subject[p..start] == needle;
      assert subject[..p] + needle + after == subject;
      forall j: nat
        ensures !OccursAt(after, needle, j)
      {
        if j + |needle| <= |after| {
          assert after[j..j + |needle|] == subject[start + j..start + j + |needle|];
          assert !OccursAt(subject, needle, start + j);
        }
      }
    }
  }

  predicate IsLower(c: char) { 'a' <= c <= 'z' }

  predicate IsUpper(c: char) { 'A' <= c <= 'Z' }

  /** ASCII lower-casing of one character; anything but A-Z is left alone. */
  function Lower(c: char): (r: char)
    ensures !IsUpper(r)
    ensures IsUpper(c) ==> IsLower(r) && Upper(r) == c
    ensures !IsUpper(c) ==> r == c
  {
    if IsUpper(c) then (c as int + 32) as char else c
  }

  /** ASCII upper-casing of one character; anything but a-z is left alone. */
  function Upper(c: char): (r: char)
    ensures !IsLower(r)
    ensures IsLower(c) ==> IsUpper(r) && (r as int + 32) as char == c
    ensures !IsLower(c) ==> r == c
  {
    if IsLower(c) then (c as int - 32) as char else c
  }

  /** strtolower. */
  function ToLower(s: string): (r: string)
    ensures |r| == |s|
    ensures forall i | 0 <= i < |s| :: r[i] == Lower(s[i])
    ensures forall i | 0 <= i < |r| :: !IsUpper(r[i])
  {
    seq(|s|, i requires 0 <= i < |s| => Lower(s[i]))
  }

  /** A string without upper-case letters is its own lower-case form. */
  lemma ToLowerOfLower(s: string)
    requires forall i | 0 <= i < |s| :: !IsUpper(s[i])
    ensures ToLower(s) == s
  {
  }

  /** ucfirst. */
  function UcFirst(s: string): (r: string)
    ensures |r| == |s|
    ensures s != [] ==> r[0] == Upper(s[0]) && r[1..] == s[1..]
  {
    if s == [] then s else [Upper(s[0])] + s[1..]
  }

  /** lcfirst. */
  function LcFirst(s: string): (r: string)
    ensures |r| == |s|
    ensures s != [] ==> r[0] == Lower(s[0]) && r[1..] == s[1..]
  {
    if s == [] then s else [Lower(s[0])] + s[1..]
  }

  /** Position of the first ASCII case-insensitive occurrence (stripos). */
  function FirstOccurrenceIgnoringCase(s: string, needle: string): (r: Option<nat>)
    ensures r.Some? ==> r.value + |needle| <= |s| && ToLower(s[r.value..r.value + |needle|]) == ToLower(needle)
    ensures r.Some? ==> forall j | 0 <= j < r.value :: !OccursAt(ToLower(s), ToLower(needle), j)
    ensures r.None? ==> forall j :: !OccursAt(ToLower(s), ToLower(needle), j)
  {
    var r := FirstOccurrence(ToLower(s), ToLower(needle));
    if r.Some? then
      assert ToLower(s)[r.value..r.value + |needle|] == ToLower(s[r.value..r.value + |needle|]);
      r
    else r
  }

  /**
   * between: with an empty delimiter the other one is searched for as by before_first_occurrence
   * or after_first_occurrence. Otherwise the start delimiter is found ignoring case; when it is
   * missing its position `false` reads as 0, so the subject is kept and cut by the delimiter's
   * length all the same; the text after it runs up to the first case-insensitive end delimiter,
   * and a missing end delimiter (a length of `false`, read as 0) gives the empty string.
   */
  function Between(subject: string, start: string, end: string): string {
    if start == "" && end == "" then subject
    else if start == "" then BeforeFirstOccurrence(subject, end)
    else if end == "" then AfterFirstOccurrence(subject, start)
    else BetweenBoth(subject, start, end)
  }

  /** The branch of between taken when both delimiters are non-empty. */
  function BetweenBoth(subject: string, start: string, end: string): string {
    var second := AfterStartDelimiter(subject, start);
    var endPosition := FirstOccurrenceIgnoringCase(second, end);
    if endPosition.Some? then second[..endPosition.value] else ""
  }

  /**
   * The general branch of between, up to the start delimiter: the subject from the first
   * case-insensitive start delimiter on (from position 0 when there is none), less as many
   * characters as the delimiter has. It is always a tail of the subject.
   */
  function AfterStartDelimiter(subject: string, start: string): (r: string)
    ensures |r| <= |subject| && r == subject[|subject| - |r|..]
  {
    var startPosition := FirstOccurrenceIgnoringCase(subject, start);
    var first := subject[if startPosition.Some? then startPosition.value else 0..];
    if |start| <= |first| then first[|start|..] else ""
  }

  lemma ToLowerSlice(s: string, i: nat, j: nat)
    requires i <= j <= |s|
    ensures ToLower(s)[i..j] == ToLower(s[i..j])
  {
  }

  /** `piece` occurs in `subject` directly followed by `end`, ignoring case. */
  ghost predicate FollowedByEnd(subject: string, piece: string, end: string) {
    exists i: nat :: OccursAt(subject, piece, i) && OccursAt(ToLower(subject), ToLower(end), i + |piece|)
  }

  /**
   * between with both delimiters present: the result is a piece of the subject that is directly
   * followed by an end delimiter (ignoring case) and contains no end delimiter itself; when no end
   * delimiter follows, the result is empty.
   */
  lemma BetweenDelimited(subject: string, start: string, end: string)
    requires start != "" && end != ""
    ensures Between(subject, start, end) == "" || FollowedByEnd(subject, Between(subject, start, end), end)
    ensures !Contains(ToLower(Between(subject, start, end)), ToLower(end))
  {
    assert Between(subject, start, end) == BetweenBoth(subject, start, end);
    BothDelimited(subject, start, end);
  }

  lemma BothDelimited(subject: string, start: string, end: string)
    requires end != ""
    ensures BetweenBoth(subject, start, end) == "" || FollowedByEnd(subject, BetweenBoth(subject, start, end), end)
    ensures !Contains(ToLower(BetweenBoth(subject, start, end)), ToLower(end))
  {
    if FirstOccurrenceIgnoringCase(AfterStartDelimiter(subject, start), end).Some? {
      EndDelimiterPresent(subject, start, end);
    } else {
      EndDelimiterMissing(subject, start, end);
    }
  }

  lemma EndDelimiterPresent(subject: string, start: string, end: string)
    requires end != "" && FirstOccurrenceIgnoringCase(AfterStartDelimiter(subject, start), end).Some?
    ensures FollowedByEnd(subject, BetweenBoth(subject, start, end), end)
    ensures !Contains(ToLower(BetweenBoth(subject, start, end)), ToLower(end))
  {
    var q := FirstOccurrenceIgnoringCase(AfterStartDelimiter(subject, start), end).value;
    BetweenBothAt(subject, start, end, q);
    EndDelimiterAt(subject, start, end, q);
  }

  lemma BetweenBothAt(subject: string, start: string, end: string, q: nat)
    requires FirstOccurrenceIgnoringCase(AfterStartDelimiter(subject, start), end) == Some(q)
    ensures q <= |AfterStartDelimiter(subject, start)|
    ensures BetweenBoth(subject, start, end) == AfterStartDelimiter(subject, start)[..q]
  {
  }

  lemma EndDelimiterAt(subject: string, start: string, end: string, q: nat)
    requires end != "" && FirstOccurrenceIgnoringCase(AfterStartDelimiter(subject, start), end) == Some(q)
    ensures q <= |AfterStartDelimiter(subject, start)|
    ensures FollowedByEnd(subject, AfterStartDelimiter(subject, start)[..q], end)
    ensures !Contains(ToLower(AfterStartDelimiter(subject, start)[..q]), ToLower(end))
  {
    EndDelimiterFound(subject, AfterStartDelimiter(subject, start), end, q);
  }

  lemma EndDelimiterMissing(subject: string, start: string, end: string)
    requires FirstOccurrenceIgnoringCase(AfterStartDelimiter(subject, start), end).None?
    ensures BetweenBoth(subject, start, end) == ""
    ensures !Contains(ToLower(BetweenBoth(subject, start, end)), ToLower(end))
  {
    assert ToLower("") == "";
  }

  /** The text up to the first end delimiter of a tail of the subject is followed by it and free of it. */
  lemma EndDelimiterFound(subject: string, second: string, end: string, q: nat)
    requires end != "" && |second| <= |subject| && second == subject[|subject| - |second|..]
    requires q + |end| <= |second| && ToLower(second[q..q + |end|]) == ToLower(end)
    requires forall j | 0 <= j < q :: !OccursAt(ToLower(second), ToLower(end), j)
    ensures FollowedByEnd(subject, second[..q], end)
    ensures !Contains(ToLower(second[..q]), ToLower(end))
  {
    BetweenWitness(subject, |subject| - |second|, second, q, end);
    NoOccurrenceBefore(second, end, q);
  }

  lemma BetweenWitness(subject: string, i: nat, second: string, q: nat, end: string)
    requires i <= |subject| && second == subject[i..]
    requires q + |end| <= |second| && ToLower(second[q..q + |end|]) == ToLower(end)
    ensures FollowedByEnd(subject, second[..q], end)
  {
    assert subject[i..i + q] == second[..q];
    assert subject[i + q..i + q + |end|] == second[q..q + |end|];
    ToLowerSlice(subject, i + q, i + q + |end|);
    assert OccursAt(subject, second[..q], i) && OccursAt(ToLower(subject), ToLower(end), i + |second[..q]|);
  }

  lemma NoOccurrenceBefore(second: string, end: string, q: nat)
    requires end != "" && q <= |second|
    requires forall j | 0 <= j < q :: !OccursAt(ToLower(second), ToLower(end), j)
    ensures !Contains(ToLower(second[..q]), ToLower(end))
  {
    ToLowerSlice(second, 0, q);
    assert ToLower(second[..q]) == ToLower(second)[..q];
    forall j: nat
      ensures !OccursAt(ToLower(second)[..q], ToLower(end), j)
    {
      OccursAtPrefix(ToLower(second), ToLower(end), q, j);
    }
  }

  /** between with an empty delimiter falls back to the one-sided searches. */
  lemma BetweenOneSided(subject: string, start: string, end: string)
    ensures start == "" && end == "" ==> Between(subject, start, end) == subject
    ensures start == "" && end != "" && Contains(subject, end) ==>
      Between(subject, start, end) + end + AfterFirstOccurrence(subject, end) == subject
    ensures start != "" && end == "" && Contains(subject, start) ==>
      BeforeFirstOccurrence(subject, start) + start + Between(subject, start, end) == subject
    ensures (start == "") != (end == "") && !Contains(subject, start + end) ==> Between(subject, start, end) == subject
  {
    FirstOccurrenceSplit(subject, start + end);
    if start == "" {
      assert start + end == end;
    } else if end == "" {
      assert start + end == start;
    }
  }

  /** The characters PHP's trim removes by default: blank, tab, line feed, carriage return, NUL, vertical tab. */
  const TrimmedByDefault: string := " \t\n\r\0\U{0B}"

  /** `s` is made of characters trim removes only. */
  predicate Blank(s: string) {
    forall i | 0 <= i < |s| :: s[i] in TrimmedByDefault
  }

  lemma BlankSlice(s: string, from: nat, to: nat)
    requires Blank(s) && from <= to <= |s|
    ensures Blank(s[from..to])
  {
    assert forall i | 0 <= i < to - from :: s[from..to][i] == s[from + i];
  }

  /** ltrim: the leading characters that belong to `chars` are removed. */
  function TrimStart(s: string, chars: string): (r: string)
    ensures |r| <= |s| && r == s[|s| - |r|..]
    ensures r != [] ==> r[0] !in chars
    ensures forall i | 0 <= i < |s| - |r| :: s[i] in chars
  {
    if s != [] && s[0] in chars then TrimStart(s[1..], chars) else s
  }

  /** rtrim: the trailing characters that belong to `chars` are removed. */
  function TrimEnd(s: string, chars: string): (r: string)
    ensures |r| <= |s| && r == s[..|r|]
    ensures r != [] ==> r[|r| - 1] !in chars
    ensures forall i | |r| <= i < |s| :: s[i] in chars
  {
    if s != [] && s[|s| - 1] in chars then TrimEnd(s[..|s| - 1], chars) else s
  }

  /**
   * trim with the default characters: what is left starts and ends with a character trim keeps,
   * and is empty when the subject holds nothing else.
   */
  function Trim(s: string): (r: string)
    ensures r != [] ==> r[0] !in TrimmedByDefault && r[|r| - 1] !in TrimmedByDefault
    ensures Blank(s) ==> r == ""
    ensures exists k | 0 <= k <= |s| - |r| :: Around(s, k, r)
  {
    var left := TrimStart(s, TrimmedByDefault);
    var r := TrimEnd(left, TrimmedByDefault);
    TrimmedEdges(s, left, r);
    TrimmedEnds(s, left, r);
    r
  }

  /** ltrim and then rtrim leave the text between the leading and the trailing trimmed characters. */
  lemma TrimmedEnds(s: string, left: string, r: string)
    requires |left| <= |s| && left == s[|s| - |left|..]
    requires forall i | 0 <= i < |s| - |left| :: s[i] in TrimmedByDefault
    requires |r| <= |left| && r == left[..|r|]
    requires forall i | |r| <= i < |left| :: left[i] in TrimmedByDefault
    ensures exists k | 0 <= k <= |s| - |r| :: Around(s, k, r)
  {
    TrimmedAround(s, |s| - |left|, left, r);
  }

  /** What trim keeps starts and ends with a character it keeps, and is empty for a blank subject. */
  lemma TrimmedEdges(s: string, left: string, r: string)
    requires |left| <= |s| && left == s[|s| - |left|..]
    requires left != [] ==> left[0] !in TrimmedByDefault
    requires |r| <= |left| && r == left[..|r|]
    requires r != [] ==> r[|r| - 1] !in TrimmedByDefault
    ensures r != [] ==> r[0] !in TrimmedByDefault && r[|r| - 1] !in TrimmedByDefault
    ensures Blank(s) ==> r == ""
  {
    assert r != [] ==> r[0] == left[0];
    assert Blank(s) ==> left == [] by {
      if Blank(s) {
        BlankSlice(s, |s| - |left|, |s|);
      }
    }
  }

  /** `r` stands at position `k` of `s`, with only characters trim removes before and after it. */
  predicate Around(s: string, k: nat, r: string) {
    k + |r| <= |s| &&
    (forall i | 0 <= i < |r| :: r[i] == s[k + i]) &&
    (forall i | 0 <= i < |s| :: i < k || k + |r| <= i ==> s[i] in TrimmedByDefault)
  }

  /** A prefix of a suffix, with trimmed characters before the suffix and after the prefix, stands Around. */
  lemma TrimmedAround(s: string, k: nat, left: string, r: string)
    requires k <= |s| && left == s[k..] && |r| <= |left| && r == left[..|r|]
    requires forall i | 0 <= i < k :: s[i] in TrimmedByDefault
    requires forall i | |r| <= i < |left| :: left[i] in TrimmedByDefault
    ensures Around(s, k, r)
  {
    forall i | 0 <= i < |r|
      ensures r[i] == s[k + i]
    {
      assert r[i] == left[i];
    }
    forall i | 0 <= i < |s| && k + |r| <= i
      ensures s[i] in TrimmedByDefault
    {
      assert s[i] == left[i - k];
    }
  }

  /** Position of the first `c` in `s` (strpos with a one-character needle). */
  function FirstIndexOf(s: string, c: char): (r: Option<nat>)
    ensures r.Some? ==> r.value < |s| && s[r.value] == c
    ensures forall j | 0 <= j < |s| && (r.None? || j < r.value) :: s[j] != c
  {
    if s == [] then None
    else if s[0] == c then Some(0)
    else
      var rest := FirstIndexOf(s[1..], c);
      assert forall j | 1 <= j < |s| :: s[j] == s[1..][j - 1];
      if rest.Some? then Some(rest.value + 1) else None
  }

  /** A one-character needle is found where the general search finds it. */
  lemma FirstIndexOfAgrees(s: string, c: char)
    ensures FirstIndexOf(s, c) == FirstOccurrence(s, [c])
  {
    var r := FirstIndexOf(s, c);
    var q := FirstOccurrence(s, [c]);
    if r.Some? {
      assert s[r.value..r.value + 1] == [c];
    }
    if q.Some? {
      assert s[q.value] == s[q.value..q.value + 1][0];
    }
    forall j | 0 <= j < |s| && OccursAt(s, [c], j)
      ensures s[j] == c
    {
      assert s[j] == s[j..j + 1][0];
    }
    forall j | 0 <= j < |s| && s[j] == c
      ensures OccursAt(s, [c], j)
    {
      assert s[j..j + 1] == [c];
    }
  }

  /** The line first_line keeps: the text after the leading line breaks, up to the next one. */
  function LineBeforeBreak(subject: string): (r: string)
    ensures forall i | 0 <= i < |r| :: r[i] != '\n'
    ensures Blank(subject) ==> Blank(r)
    ensures |r| <= |TrimStart(subject, "\n")| && r == TrimStart(subject, "\n")[..|r|]
    ensures |r| < |TrimStart(subject, "\n")| ==> TrimStart(subject, "\n")[|r|] == '\n'
  {
    var s := TrimStart(subject, "\n");
    var pos := FirstIndexOf(s, '\n');
    var line := if pos.Some? then s[..pos.value] else s;
    LineBeforeBreakIs(subject, s, pos, line);
    line
  }

  /** The line up to the first break of the subject after ltrim. */
  lemma LineBeforeBreakIs(subject: string, s: string, pos: Option<nat>, line: string)
    requires |s| <= |subject| && s == subject[|subject| - |s|..]
    requires pos.Some? ==> pos.value < |s| && s[pos.value] == '\n'
    requires forall j | 0 <= j < |s| && (pos.None? || j < pos.value) :: s[j] != '\n'
    requires line == if pos.Some? then s[..pos.value] else s
    ensures forall i | 0 <= i < |line| :: line[i] != '\n'
    ensures Blank(subject) ==> Blank(line)
    ensures |line| <= |s| && line == s[..|line|]
    ensures |line| < |s| ==> s[|line|] == '\n'
  {
    assert forall i | 0 <= i < |line| :: line[i] == s[i];
    assert Blank(subject) ==> Blank(line) by {
      if Blank(subject) {
        BlankSlice(subject, |subject| - |s|, |subject|);
        BlankSlice(s, 0, |line|);
        assert line == s[0..|line|];
      }
    }
  }

  /**
   * first_line: leading line breaks are dropped, the text up to the next line break is kept and
   * trimmed. PHP_EOL is taken to be "\n".
   */
  function FirstLine(subject: string): string {
    Trim(LineBeforeBreak(subject))
  }

  /** trim only removes characters: one the subject does not hold is not in the result. */
  lemma TrimKeepsOut(s: string, c: char)
    requires forall i | 0 <= i < |s| :: s[i] != c
    ensures forall i | 0 <= i < |Trim(s)| :: Trim(s)[i] != c
  {
    var r := Trim(s);
    var k :| 0 <= k <= |s| - |r| && Around(s, k, r);
    forall i | 0 <= i < |r|
      ensures r[i] != c
    {
      assert r[i] == s[k + i];
    }
  }

  /**
   * The first line holds no line break and no leading or trailing blank, and a subject made of
   * blanks only has an empty first line.
   */
  lemma FirstLineShape(subject: string)
    ensures forall i | 0 <= i < |FirstLine(subject)| :: FirstLine(subject)[i] != '\n'
    ensures FirstLine(subject) != [] ==>
      FirstLine(subject)[0] !in TrimmedByDefault && FirstLine(subject)[|FirstLine(subject)| - 1] !in TrimmedByDefault
    ensures Blank(subject) ==> FirstLine(subject) == ""
  {
    var line := LineBeforeBreak(subject);
    TrimKeepsOut(line, '\n');
    assert Blank(subject) ==> Blank(line);
    assert FirstLine(subject) == Trim(line);
  }

  /** trim removes exactly the blanks around a text that starts and ends with a kept character. */
  lemma TrimOf(pre: string, mid: string, post: string)
    requires Blank(pre) && Blank(post)
    requires mid != [] && mid[0] !in TrimmedByDefault && mid[|mid| - 1] !in TrimmedByDefault
    ensures Trim(pre + mid + post) == mid
  {
    TrimUnique(pre + mid + post, Trim(pre + mid + post), pre, mid, post);
  }

  /** A result with trim's ends, standing around a kept text between blanks, is that text. */
  lemma TrimUnique(s: string, r: string, pre: string, mid: string, post: string)
    requires s == pre + mid + post && Blank(pre) && Blank(post)
    requires mid != [] && mid[0] !in TrimmedByDefault && mid[|mid| - 1] !in TrimmedByDefault
    requires r != [] ==> r[0] !in TrimmedByDefault && r[|r| - 1] !in TrimmedByDefault
    requires exists k | 0 <= k <= |s| - |r| :: Around(s, k, r)
    ensures r == mid
  {
    var k :| 0 <= k <= |s| - |r| && Around(s, k, r);
    AroundFixes(s, k, r, pre, mid, post);
  }

  /** A slice with kept characters at both ends and only blanks around it is the text between the blanks. */
  lemma AroundFixes(s: string, k: nat, r: string, pre: string, mid: string, post: string)
    requires s == pre + mid + post && Blank(pre) && Blank(post)
    requires mid != [] && mid[0] !in TrimmedByDefault && mid[|mid| - 1] !in TrimmedByDefault
    requires Around(s, k, r)
    requires r != [] ==> r[0] !in TrimmedByDefault && r[|r| - 1] !in TrimmedByDefault
    ensures r == mid
  {
    var first, last := |pre|, |pre| + |mid| - 1;
    assert s[first] == mid[0] && s[last] == mid[|mid| - 1];
    assert forall i | 0 <= i < |pre| :: s[i] == pre[i];
    assert forall i | |pre| + |mid| <= i < |s| :: s[i] == post[i - |pre| - |mid|];
    assert r != [];
    assert r[0] == s[k] && r[|r| - 1] == s[k + |r| - 1];
    assert k == first;
    assert k + |r| - 1 == last;
    forall i | 0 <= i < |r|
      ensures r[i] == mid[i]
    {
      assert r[i] == s[k + i];
      assert s[first + i] == mid[i];
    }
  }

  /** The line kept by first_line: after the leading breaks, up to the next break or the end. */
  lemma LineBeforeBreakOf(breaks: string, line: string, rest: string)
    requires forall i | 0 <= i < |breaks| :: breaks[i] == '\n'
    requires line != [] && forall i | 0 <= i < |line| :: line[i] != '\n'
    requires rest == [] || rest[0] == '\n'
    ensures LineBeforeBreak(breaks + line + rest) == line
  {
    var s := breaks + line + rest;
    BreaksStripped(s, TrimStart(s, "\n"), breaks, line, rest);
    LineOfPrefix(TrimStart(s, "\n"), LineBeforeBreak(s), line, rest);
  }

  /** ltrim of the line breaks in front of a line that does not open with one leaves the line and what follows. */
  lemma BreaksStripped(s: string, t: string, breaks: string, line: string, rest: string)
    requires s == breaks + line + rest && forall i | 0 <= i < |breaks| :: breaks[i] == '\n'
    requires line != [] && line[0] != '\n'
    requires |t| <= |s| && t == s[|s| - |t|..]
    requires t != [] ==> t[0] !in "\n"
    requires forall i | 0 <= i < |s| - |t| :: s[i] in "\n"
    ensures t == line + rest
  {
    assert s[|breaks|] == line[0];
    assert forall i | 0 <= i < |breaks| :: s[i] == breaks[i];
    assert |s| - |t| == |breaks|;
    assert s[|breaks|..] == line + rest;
  }

  /** A break-free prefix that stops at a break or at the end is the line before the first break. */
  lemma LineOfPrefix(t: string, r: string, line: string, rest: string)
    requires t == line + rest && forall i | 0 <= i < |line| :: line[i] != '\n'
    requires rest == [] || rest[0] == '\n'
    requires forall i | 0 <= i < |r| :: r[i] != '\n'
    requires |r| <= |t| && r == t[..|r|]
    requires |r| < |t| ==> t[|r|] == '\n'
    ensures r == line
  {
    assert forall i | 0 <= i < |line| :: t[i] == line[i];
    assert forall i | 0 <= i < |r| :: r[i] == t[i];
    assert |t| > |line| ==> t[|line|] == '\n';
    assert |r| == |line|;
    forall i | 0 <= i < |r|
      ensures r[i] == line[i]
    {
      assert r[i] == t[i];
    }
  }

  /** first_line keeps the text between the blanks of the first line after the leading breaks. */
  lemma FirstLineOf(breaks: string, pre: string, mid: string, post: string, rest: string)
    requires forall i | 0 <= i < |breaks| :: breaks[i] == '\n'
    requires Blank(pre) && Blank(post) && '\n' !in pre && '\n' !in post
    requires mid != [] && mid[0] !in TrimmedByDefault && mid[|mid| - 1] !in TrimmedByDefault && '\n' !in mid
    requires rest == [] || rest[0] == '\n'
    ensures FirstLine(breaks + pre + mid + post + rest) == mid
  {
    var line := pre + mid + post;
    assert line != [] && forall i | 0 <= i < |line| :: line[i] != '\n' by {
      forall i | 0 <= i < |line| ensures line[i] != '\n' {
        assert line[i] in pre || line[i] in mid || line[i] in post;
      }
    }
    assert breaks + pre + mid + post + rest == breaks + line + rest;
    LineBeforeBreakOf(breaks, line, rest);
    TrimOf(pre, mid, post);
  }

  /** first_line("This is the first line.\nThis is the second line.") is "This is the first line.". */
  lemma FirstLineExample()
    ensures FirstLine("This is the first line.\nThis is the second line.") == "This is the first line."
  {
    FirstLineExampleText();
    FirstLineOf("", "", "This is the first line.", "", "\nThis is the second line.");
  }

  /** first_line("   This is the first line.   \n   ") is "This is the first line.". */
  lemma FirstLineTrimmedExample()
    ensures FirstLine("   This is the first line.   \n   ") == "This is the first line."
  {
    FirstLineTrimmedExampleText();
    FirstLineOf("", "   ", "This is the first line.", "   ", "\n   ");
  }

  /** The first example's subject, cut into its leading breaks, blanks, line, blanks and rest. */
  lemma FirstLineExampleText()
    ensures "" + "" + "This is the first line." + "" + "\nThis is the second line."
      == "This is the first line.\nThis is the second line."
  {
  }

  /** The second example's subject, cut the same way. */
  lemma FirstLineTrimmedExampleText()
    ensures "" + "   " + "This is the first line." + "   " + "\n   " == "   This is the first line.   \n   "
  {
  }

  /** first_character: the first character, or "" for "". */
  function FirstCharacter(subject: string): (r: string)
    ensures |r| == if subject == "" then 0 else 1
  {
    if subject == "" then "" else subject[..1]
  }

  /** remove_first_character: everything after the first character; together they give back the subject. */
  function RemoveFirstCharacter(subject: string): (r: string)
    ensures FirstCharacter(subject) + r == subject
    ensures |r| == if subject == "" then 0 else |subject| - 1
  {
    if subject == "" then "" else subject[1..]
  }

  /** last_character: the last character, or "" for "". */
  function LastCharacter(subject: string): (r: string)
    ensures |r| == if subject == "" then 0 else 1
  {
    if subject == "" then "" else subject[|subject| - 1..]
  }

  /** remove_last_character: everything before the last character; together they give back the subject. */
  function RemoveLastCharacter(subject: string): (r: string)
    ensures r + LastCharacter(subject) == subject
    ensures |r| == if subject == "" then 0 else |subject| - 1
  {
    if subject == "" then "" else subject[..|subject| - 1]
  }

  /** PHP truthiness of a string: "" and "0" are false. */
  predicate Truthy(s: string) {
    s != "" && s != "0"
  }

  /** prepend_when_exists: the prefix goes in front of a truthy subject; otherwise "". */
  function PrependWhenExists(subject: Option<string>, prefix: string): (r: string)
    ensures subject.Some? && Truthy(subject.value) ==> r == prefix + subject.value && r[|prefix|..] == subject.value
    ensures !(subject.Some? && Truthy(subject.value)) ==> r == ""
  {
    if subject.Some? && Truthy(subject.value) then prefix + subject.value else ""
  }

  /**
   * replace_first_occurrence: the first occurrence of `search` is replaced; an empty search string
   * occurs at position 0, so the replacement is then put in front.
   */
  function ReplaceFirstOccurrence(subject: string, search: string, replace: string): string {
    var pos := FirstOccurrence(subject, search);
    if pos.Some? then subject[..pos.value] + replace + subject[pos.value + |search|..] else subject
  }

  /**
   * Only the first occurrence changes: the text before it, which holds no occurrence, and the text
   * after it are kept; without an occurrence nothing changes; an empty search prepends.
   */
  lemma ReplaceFirstOccurrenceSplit(subject: string, search: string, replace: string)
    ensures search != "" && Contains(subject, search) ==>
      ReplaceFirstOccurrence(subject, search, replace) ==
        BeforeFirstOccurrence(subject, search) + replace + AfterFirstOccurrence(subject, search)
    ensures !Contains(subject, search) ==> ReplaceFirstOccurrence(subject, search, replace) == subject
    ensures search == "" ==> ReplaceFirstOccurrence(subject, search, replace) == replace + subject
  {
    if search == "" {
      assert OccursAt(subject, search, 0);
      assert subject[..0] == "" && subject[0..] == subject;
    }
  }

  /**
   * The first preg_replace of snake_case and kebab_case: an underscore goes between every
   * lower-case letter and the upper-case letter after it.
   */
  function InsertUnderscores(s: string): (r: string)
    ensures |r| >= |s|
    ensures forall c | c in r :: c in s || c == '_'
    ensures (forall i | 0 <= i < |s| :: !IsUpper(s[i])) ==> r == s
  {
    if |s| < 2 then s
    else if IsLower(s[0]) && IsUpper(s[1]) then [s[0], '_', s[1]] + InsertUnderscores(s[2..])
    else [s[0]] + InsertUnderscores(s[1..])
  }

  /** preg_replace of `[...]+` by one character: every maximal run of separators becomes `replacement`. */
  function CollapseRuns(s: string, separator: char -> bool, replacement: char): (r: string)
    ensures forall c | c in r :: c == replacement || (c in s && !separator(c))
    ensures (forall i | 0 <= i < |s| :: !separator(s[i])) ==> r == s
  {
    if s == [] then []
    else if separator(s[0]) then
      if |s| > 1 && separator(s[1]) then CollapseRuns(s[1..], separator, replacement)
      else [replacement] + CollapseRuns(s[1..], separator, replacement)
    else [s[0]] + CollapseRuns(s[1..], separator, replacement)
  }

  predicate IsSnakeSeparator(c: char) { c == ' ' || c == '-' }

  predicate IsKebabSeparator(c: char) { c == ' ' || c == '_' }

  /** snake_case. */
  function SnakeCase(subject: string): string {
    ToLower(CollapseRuns(InsertUnderscores(subject), IsSnakeSeparator, '_'))
  }

  /** kebab_case. */
  function KebabCase(subject: string): string {
    ToLower(CollapseRuns(InsertUnderscores(subject), IsKebabSeparator, '-'))
  }

  /** A character of ToLower(s) that is no letter was already in s. */
  lemma ToLowerKeeps(s: string, c: char)
    requires c in ToLower(s) && !IsLower(c)
    ensures c in s
  {
    var i :| 0 <= i < |s| && ToLower(s)[i] == c;
    assert Lower(s[i]) == c;
  }

  /** snake_case leaves no blank, hyphen or upper-case letter, and applying it twice changes nothing more. */
  lemma SnakeCaseShape(subject: string)
    ensures forall c | c in SnakeCase(subject) :: !IsSnakeSeparator(c) && !IsUpper(c)
    ensures SnakeCase(SnakeCase(subject)) == SnakeCase(subject)
  {
    var collapsed := CollapseRuns(InsertUnderscores(subject), IsSnakeSeparator, '_');
    var r := SnakeCase(subject);
    forall c | c in r
      ensures !IsSnakeSeparator(c) && !IsUpper(c)
    {
      if IsSnakeSeparator(c) {
        ToLowerKeeps(collapsed, c);
      }
    }
    assert InsertUnderscores(r) == r;
    assert CollapseRuns(r, IsSnakeSeparator, '_') == r;
    ToLowerOfLower(r);
  }

  /** kebab_case leaves no blank, underscore or upper-case letter, and applying it twice changes nothing more. */
  lemma KebabCaseShape(subject: string)
    ensures forall c | c in KebabCase(subject) :: !IsKebabSeparator(c) && !IsUpper(c)
    ensures KebabCase(KebabCase(subject)) == KebabCase(subject)
  {
    var collapsed := CollapseRuns(InsertUnderscores(subject), IsKebabSeparator, '-');
    var r := KebabCase(subject);
    forall c | c in r
      ensures !IsKebabSeparator(c) && !IsUpper(c)
    {
      if IsKebabSeparator(c) {
        ToLowerKeeps(collapsed, c);
      }
    }
    assert InsertUnderscores(r) == r;
    assert CollapseRuns(r, IsKebabSeparator, '-') == r;
    ToLowerOfLower(r);
  }

  /** `s` holds no character of `separators`. */
  predicate FreeOf(s: string, separators: string) {
    forall i | 0 <= i < |s| :: s[i] !in separators
  }

  /** The characters of `s` that are not separators, in order. */
  function Strip(s: string, separators: string): (r: string)
    ensures FreeOf(r, separators)
  {
    if s == [] then []
    else if s[0] in separators then Strip(s[1..], separators)
    else [s[0]] + Strip(s[1..], separators)
  }

  /** Concatenation of a list of strings. */
  function Flatten(parts: seq<string>): string {
    if parts == [] then "" else parts[0] + Flatten(parts[1..])
  }

  /**
   * preg_split on `[separators]+` with PREG_SPLIT_NO_EMPTY: the maximal runs of non-separators.
   * `current` is the part of a word read so far.
   */
  function Split(s: string, separators: string, current: string): (r: seq<string>)
    requires FreeOf(current, separators)
    ensures forall k | 0 <= k < |r| :: r[k] != "" && FreeOf(r[k], separators)
    ensures Flatten(r) == current + Strip(s, separators)
  {
    if s == [] then
      if current == "" then [] else assert Flatten([current]) == current + ""; [current]
    else if s[0] in separators then
      var rest := Split(s[1..], separators, "");
      if current == "" then rest else assert Flatten([current] + rest) == current + Flatten(rest); [current] + rest
    else
      var rest := Split(s[1..], separators, current + [s[0]]);
      rest
  }

  /**
   * words: the non-empty pieces between runs of separators. With no separators at all the
   * pattern `[]+` does not compile and there is no result.
   */
  function Words(subject: string, separators: string): (r: Option<seq<string>>)
    ensures r.None? <==> separators == ""
    ensures r.Some? ==> forall k | 0 <= k < |r.value| :: r.value[k] != "" && FreeOf(r.value[k], separators)
    ensures r.Some? ==> Flatten(r.value) == Strip(subject, separators)
  {
    if separators == "" then None else Some(Split(subject, separators, ""))
  }

  /** The default separators of words: blank, tab, carriage return, line feed, form feed, vertical tab. */
  const DefaultSeparators: string := " \t\r\n\U{0C}\U{0B}"

  /** implode. */
  function Join(parts: seq<string>, glue: string): string {
    if parts == [] then ""
    else if |parts| == 1 then parts[0]
    else parts[0] + glue + Join(parts[1..], glue)
  }

  lemma SplitWord(word: string, rest: string, separators: string, current: string)
    requires FreeOf(current, separators) && FreeOf(word, separators)
    ensures FreeOf(current + word, separators)
    ensures Split(word + rest, separators, current) == Split(rest, separators, current + word)
    decreases |word|
  {
    if word != [] {
      assert (word + rest)[0] == word[0] && word[0] !in separators;
      assert (word + rest)[1..] == word[1..] + rest;
      assert current + word == (current + [word[0]]) + word[1..];
      SplitWord(word[1..], rest, separators, current + [word[0]]);
    } else {
      assert word + rest == rest && current + word == current;
    }
  }

  lemma SplitSeparators(glue: string, rest: string, separators: string)
    requires forall i | 0 <= i < |glue| :: glue[i] in separators
    ensures Split(glue + rest, separators, "") == Split(rest, separators, "")
    decreases |glue|
  {
    if glue != [] {
      assert (glue + rest)[0] == glue[0] && glue[0] in separators;
      assert (glue + rest)[1..] == glue[1..] + rest;
      SplitSeparators(glue[1..], rest, separators);
    } else {
      assert glue + rest == rest;
    }
  }

  /**
   * words undoes an implode: words that are not empty and hold no separator, glued with a
   * non-empty string of separators, are split back into the same words.
   */
  lemma {:induction false} WordsOfJoin(parts: seq<string>, glue: string, separators: string)
    requires glue != "" && forall i | 0 <= i < |glue| :: glue[i] in separators
    requires forall k | 0 <= k < |parts| :: parts[k] != "" && FreeOf(parts[k], separators)
    ensures Words(Join(parts, glue), separators) == Some(parts)
  {
    assert glue[0] in separators;
    if parts == [] {
    } else if |parts| == 1 {
      assert parts[0] + "" == parts[0] && "" + parts[0] == parts[0];
      SplitWord(parts[0], "", separators, "");
      assert Split("", separators, parts[0]) == [parts[0]];
      assert Join(parts, glue) == parts[0] && parts == [parts[0]];
    } else {
      WordsOfJoin(parts[1..], glue, separators);
      var tail := Join(parts[1..], glue);
      assert Join(parts, glue) == parts[0] + (glue + tail);
      SplitWord(parts[0], glue + tail, separators, "");
      assert "" + parts[0] == parts[0];
      assert (glue + tail)[1..] == glue[1..] + tail;
      SplitSeparators(glue[1..], tail, separators);
      assert parts == [parts[0]] + parts[1..];
    }
  }

  /** The words separated by the glues: glues[0] + parts[0] + glues[1] + ... + parts[n - 1] + glues[n]. */
  function Interleave(parts: seq<string>, glues: seq<string>): string
    requires |glues| == |parts| + 1
  {
    if parts == [] then glues[0] else glues[0] + parts[0] + Interleave(parts[1..], glues[1..])
  }

  /**
   * The glues around `n` words: `n + 1` runs of separators, those between two words not empty
   * (the first and the last may be).
   */
  predicate Separating(glues: seq<string>, n: nat, separators: string) {
    |glues| == n + 1 &&
    (forall k | 0 <= k < |glues| :: forall i | 0 <= i < |glues[k]| :: glues[k][i] in separators) &&
    (forall k | 0 < k < n :: glues[k] != "")
  }

  /** Text in front of the first glue is text in front of the whole interleaving. */
  lemma InterleaveFront(a: string, parts: seq<string>, glues: seq<string>)
    requires |glues| == |parts| + 1
    ensures Interleave(parts, [a + glues[0]] + glues[1..]) == a + Interleave(parts, glues)
  {
    var g := [a + glues[0]] + glues[1..];
    assert g[0] == a + glues[0] && g[1..] == glues[1..];
    if parts != [] {
      assert Interleave(parts, g) == (a + glues[0]) + parts[0] + Interleave(parts[1..], glues[1..]);
    }
  }

  /** A word is closed by the first separator after it; what follows is split afresh. */
  lemma SplitCloses(glue: string, rest: string, separators: string, current: string)
    requires current != "" && FreeOf(current, separators)
    requires glue != "" && forall i | 0 <= i < |glue| :: glue[i] in separators
    ensures Split(glue + rest, separators, current) == [current] + Split(rest, separators, "")
  {
    assert (glue + rest)[0] == glue[0] && (glue + rest)[1..] == glue[1..] + rest;
    SplitSeparators(glue[1..], rest, separators);
  }

  /** Splitting text made of words between runs of separators gives the words back. */
  lemma {:induction false} SplitInterleave(parts: seq<string>, glues: seq<string>, separators: string)
    requires Separating(glues, |parts|, separators)
    requires forall k | 0 <= k < |parts| :: parts[k] != "" && FreeOf(parts[k], separators)
    ensures Split(Interleave(parts, glues), separators, "") == parts
    decreases |parts|, 1
  {
    if parts == [] {
      assert glues[0] + "" == glues[0];
      SplitSeparators(glues[0], "", separators);
    } else {
      var rest := Interleave(parts[1..], glues[1..]);
      assert Interleave(parts, glues) == glues[0] + (parts[0] + rest);
      SplitSeparators(glues[0], parts[0] + rest, separators);
      SplitWord(parts[0], rest, separators, "");
      assert "" + parts[0] == parts[0];
      SplitAfterWord(parts, glues, separators);
    }
  }

  /** Once the first word is read, the rest is split into the other words. */
  lemma {:induction false} SplitAfterWord(parts: seq<string>, glues: seq<string>, separators: string)
    requires parts != [] && Separating(glues, |parts|, separators)
    requires forall k | 0 <= k < |parts| :: parts[k] != "" && FreeOf(parts[k], separators)
    ensures Split(Interleave(parts[1..], glues[1..]), separators, parts[0]) == parts
    decreases |parts|, 0
  {
    var rest := Interleave(parts[1..], glues[1..]);
    assert glues[1..][0] == glues[1];
    if |parts| == 1 {
      assert rest == glues[1];
      if glues[1] == "" {
        assert Split(rest, separators, parts[0]) == [parts[0]];
      } else {
        assert glues[1] + "" == glues[1];
        SplitCloses(glues[1], "", separators, parts[0]);
      }
    } else {
      SplitInterleave(parts[1..], glues[1..], separators);
      var tail := Interleave(parts[2..], glues[2..]);
      assert parts[1..][1..] == parts[2..] && glues[1..][1..] == glues[2..];
      assert rest == glues[1] + (parts[1] + tail);
      SplitCloses(glues[1], parts[1] + tail, separators, parts[0]);
      SplitSeparators(glues[1], parts[1] + tail, separators);
    }
    assert parts == [parts[0]] + parts[1..];
  }

  /**
   * words gives the maximal runs of non-separators: words that are not empty and hold no
   * separator, with separators before, between (at least one) and after them, come back as they were.
   */
  lemma WordsOfInterleave(parts: seq<string>, glues: seq<string>, separators: string)
    requires separators != "" && Separating(glues, |parts|, separators)
    requires forall k | 0 <= k < |parts| :: parts[k] != "" && FreeOf(parts[k], separators)
    ensures Words(Interleave(parts, glues), separators) == Some(parts)
  {
    SplitInterleave(parts, glues, separators);
  }

  /**
   * Split reads the whole subject: what it returns, interleaved with runs of separators, is the
   * word read so far followed by the rest of the subject. A word being read opens with no glue.
   */
  lemma {:induction false} SplitGlues(s: string, separators: string, current: string) returns (glues: seq<string>)
    requires FreeOf(current, separators)
    ensures Separating(glues, |Split(s, separators, current)|, separators)
    ensures Interleave(Split(s, separators, current), glues) == current + s
    ensures current != "" ==> glues[0] == ""
    decreases |s|, 1
  {
    if s == [] {
      glues := SplitGluesAtEnd(separators, current);
    } else if s[0] in separators {
      glues := SplitGluesAtSeparator(s, separators, current);
    } else {
      glues := SplitGlues(s[1..], separators, current + [s[0]]);
      assert current + [s[0]] + s[1..] == current + s;
    }
  }

  /** At the end of the subject, the word being read, if any, is the last one. */
  lemma SplitGluesAtEnd(separators: string, current: string) returns (glues: seq<string>)
    requires FreeOf(current, separators)
    ensures Separating(glues, |Split("", separators, current)|, separators)
    ensures Interleave(Split("", separators, current), glues) == current
    ensures current != "" ==> glues[0] == ""
  {
    glues := if current == "" then [""] else ["", ""];
    if current != "" {
      var r := Split("", separators, current);
      assert r == [current] && r[1..] == [];
    }
  }

  /** A separator closes the word being read, if any, and opens the glue before the next. */
  lemma {:induction false} SplitGluesAtSeparator(s: string, separators: string, current: string) returns (glues: seq<string>)
    requires FreeOf(current, separators) && s != [] && s[0] in separators
    ensures Separating(glues, |Split(s, separators, current)|, separators)
    ensures Interleave(Split(s, separators, current), glues) == current + s
    ensures current != "" ==> glues[0] == ""
    decreases |s|, 0
  {
    var rest := Split(s[1..], separators, "");
    var g := SplitGlues(s[1..], separators, "");
    assert "" + s[1..] == s[1..];
    var front := GlueFront(s[0], rest, g, s[1..], separators);
    assert [s[0]] + s[1..] == s;
    if current == "" {
      assert Split(s, separators, current) == rest;
      glues := front;
    } else {
      assert Split(s, separators, current) == [current] + rest;
      glues := GlueClose(current, rest, front, s, separators);
    }
  }

  /** A separator in front of the text widens its first glue. */
  lemma GlueFront(c: char, parts: seq<string>, g: seq<string>, t: string, separators: string) returns (glues: seq<string>)
    requires c in separators && Separating(g, |parts|, separators) && Interleave(parts, g) == t
    ensures Separating(glues, |parts|, separators) && Interleave(parts, glues) == [c] + t && glues[0] != ""
  {
    glues := [[c] + g[0]] + g[1..];
    InterleaveFront([c], parts, g);
    assert glues[1..] == g[1..];
    forall k | 0 <= k < |glues| ensures forall i | 0 <= i < |glues[k]| :: glues[k][i] in separators {
      if k == 0 {
        assert forall i | 1 <= i < |glues[0]| :: glues[0][i] == g[0][i - 1];
      } else {
        assert glues[k] == g[k];
      }
    }
  }

  /** A word being read is closed by text that opens with a separator: it comes first, with no glue before it. */
  lemma GlueClose(current: string, parts: seq<string>, g: seq<string>, t: string, separators: string) returns (glues: seq<string>)
    requires Separating(g, |parts|, separators) && Interleave(parts, g) == t && g[0] != ""
    ensures Separating(glues, |[current] + parts|, separators) && Interleave([current] + parts, glues) == current + t
    ensures glues[0] == ""
  {
    glues := [""] + g;
    var r := [current] + parts;
    assert r[0] == current && r[1..] == parts && glues[1..] == g;
    assert Interleave(r, glues) == "" + current + Interleave(parts, g);
    forall k | 0 < k < |r| ensures glues[k] != "" {
      assert glues[k] == g[k - 1];
    }
  }

  /**
   * words returns the maximal runs of non-separators: the subject is exactly its words with runs of
   * separators around and between them. With WordsOfInterleave, this pins the words down.
   */
  lemma WordsMaximal(subject: string, separators: string)
    requires separators != ""
    ensures exists glues :: (Separating(glues, |Words(subject, separators).value|, separators) &&
      Interleave(Words(subject, separators).value, glues) == subject)
  {
    var glues := SplitGlues(subject, separators, "");
    assert "" + subject == subject;
    assert Words(subject, separators).value == Split(subject, separators, "");
    assert Separating(glues, |Words(subject, separators).value|, separators);
    assert Interleave(Words(subject, separators).value, glues) == subject;
  }

  /** words("  Trim   ") is ["Trim"]. */
  lemma WordsTrimExample()
    ensures Words("  Trim   ", DefaultSeparators) == Some(["Trim"])
  {
    var parts := ["Trim"];
    var glues := ["  ", "   "];
    assert Interleave(parts[1..], glues[1..]) == "   ";
    assert Interleave(parts, glues) == "  Trim   ";
    WordsOfInterleave(parts, glues, DefaultSeparators);
  }

  /** words("apple,banana|cherry", ",|") is ["apple", "banana", "cherry"]. */
  lemma WordsCustomExample()
    ensures Words("apple,banana|cherry", ",|") == Some(["apple", "banana", "cherry"])
  {
    var parts := ["apple", "banana", "cherry"];
    var glues := ["", ",", "|", ""];
    assert Interleave(parts[3..], glues[3..]) == "";
    assert Interleave(parts[2..], glues[2..]) == "|cherry";
    assert Interleave(parts[1..], glues[1..]) == ",banana|cherry";
    assert Interleave(parts, glues) == "apple,banana|cherry";
    WordsOfInterleave(parts, glues, ",|");
  }

  /** The strings array_filter keeps: those that are neither null nor falsy. */
  function TruthyOnly(subjects: seq<Option<string>>): (r: seq<string>)
    ensures |r| <= |subjects|
    ensures forall k | 0 <= k < |r| :: Truthy(r[k]) && Some(r[k]) in subjects
    ensures forall k | 0 <= k < |subjects| :: subjects[k].Some? && Truthy(subjects[k].value) ==> subjects[k].value in r
  {
    if subjects == [] then []
    else
      var rest := TruthyOnly(subjects[1..]);
      assert forall k | 1 <= k < |subjects| :: subjects[k] == subjects[1..][k - 1];
      if subjects[0].Some? && Truthy(subjects[0].value) then [subjects[0].value] + rest else rest
  }

  /** concat: the truthy subjects glued with the suffix. */
  function Concat(suffix: string, subjects: seq<Option<string>>): string {
    Join(TruthyOnly(subjects), suffix)
  }

  lemma TruthyOnlyCons(x: Option<string>, rest: seq<Option<string>>)
    ensures TruthyOnly([x] + rest) == (if x.Some? && Truthy(x.value) then [x.value] else []) + TruthyOnly(rest)
  {
    assert ([x] + rest)[0] == x && ([x] + rest)[1..] == rest;
  }

  /** A null or falsy subject anywhere is dropped, so it leaves the result of concat unchanged. */
  lemma ConcatSkipsFalsy(suffix: string, before: seq<Option<string>>, skipped: Option<string>, after: seq<Option<string>>)
    requires skipped.None? || !Truthy(skipped.value)
    ensures TruthyOnly(before + [skipped] + after) == TruthyOnly(before + after)
    ensures Concat(suffix, before + [skipped] + after) == Concat(suffix, before + after)
  {
    TruthyOnlySkipsFalsy(before, skipped, after);
  }

  lemma {:induction false} TruthyOnlySkipsFalsy(before: seq<Option<string>>, skipped: Option<string>, after: seq<Option<string>>)
    requires skipped.None? || !Truthy(skipped.value)
    ensures TruthyOnly(before + [skipped] + after) == TruthyOnly(before + after)
  {
    if before == [] {
      assert before + [skipped] + after == [skipped] + after;
      assert before + after == after;
      TruthyOnlyCons(skipped, after);
    } else {
      TruthyOnlySkipsFalsy(before[1..], skipped, after);
      assert before + [skipped] + after == [before[0]] + (before[1..] + [skipped] + after);
      assert before + after == [before[0]] + (before[1..] + after);
      TruthyOnlyCons(before[0], before[1..] + [skipped] + after);
      TruthyOnlyCons(before[0], before[1..] + after);
    }
  }

  /**
   * words undoes concat: when the suffix is made of separators and no subject holds one, the
   * words of the result are the truthy subjects.
   */
  lemma ConcatThenWords(suffix: string, subjects: seq<Option<string>>, separators: string)
    requires suffix != "" && forall i | 0 <= i < |suffix| :: suffix[i] in separators
    requires forall k | 0 <= k < |subjects| :: subjects[k].Some? ==> FreeOf(subjects[k].value, separators)
    ensures Words(Concat(suffix, subjects), separators) == Some(TruthyOnly(subjects))
  {
    var parts := TruthyOnly(subjects);
    forall k | 0 <= k < |parts|
      ensures parts[k] != "" && FreeOf(parts[k], separators)
    {
      var j :| 0 <= j < |subjects| && subjects[j] == Some(parts[k]);
    }
    WordsOfJoin(parts, suffix, separators);
  }

  /** The characters preg_split's `\s` matches: blank and tab to carriage return. */
  const Whitespace: string := " \t\n\U{0B}\U{0C}\r"

  /** The first str_replace of camel_case: hyphens and underscores become blanks. */
  function DashesToBlanks(s: string): (r: string)
    ensures |r| == |s|
    ensures forall i | 0 <= i < |s| :: r[i] == if s[i] == '-' || s[i] == '_' then ' ' else s[i]
  {
    seq(|s|, i requires 0 <= i < |s| => if s[i] == '-' || s[i] == '_' then ' ' else s[i])
  }

  /** The loop of camel_case: every word with its first letter upper-cased, concatenated. */
  function UcFirstAll(words: seq<string>): string {
    if words == [] then "" else UcFirst(words[0]) + UcFirstAll(words[1..])
  }

  /**
   * camel_case. preg_split keeps an empty piece before a leading and after a trailing run of
   * blanks; such pieces add nothing to the concatenation, so only the words are used.
   */
  function CamelCase(subject: string): string {
    LcFirst(UcFirstAll(Split(DashesToBlanks(subject), Whitespace, "")))
  }

  /** pascal_case. */
  function PascalCase(subject: string): string {
    UcFirst(CamelCase(subject))
  }

  /** What camel_case and pascal_case leave: no blank, hyphen or underscore. */
  predicate IsJoined(c: char) {
    c !in Whitespace && c != '-' && c != '_'
  }

  lemma UcFirstJoined(w: string)
    requires forall c | c in w :: IsJoined(c)
    ensures forall c | c in UcFirst(w) :: IsJoined(c)
  {
    forall c | c in UcFirst(w)
      ensures IsJoined(c)
    {
      var i :| 0 <= i < |w| && UcFirst(w)[i] == c;
      if i > 0 {
        assert c == w[1..][i - 1];
      } else {
        assert w[0] in w;
      }
    }
  }

  lemma UcFirstAllJoined(words: seq<string>)
    requires forall k, c | 0 <= k < |words| && c in words[k] :: IsJoined(c)
    ensures forall c | c in UcFirstAll(words) :: IsJoined(c)
  {
    if words != [] {
      UcFirstAllJoined(words[1..]);
      UcFirstJoined(words[0]);
    }
  }

  lemma WordsJoined(subject: string)
    ensures forall k, c | 0 <= k < |Split(DashesToBlanks(subject), Whitespace, "")| &&
      c in Split(DashesToBlanks(subject), Whitespace, "")[k] :: IsJoined(c)
  {
    var blanks := DashesToBlanks(subject);
    var words := Split(blanks, Whitespace, "");
    forall k, c | 0 <= k < |words| && c in words[k]
      ensures IsJoined(c)
    {
      FlattenHolds(words, k, c);
      StripKeeps(blanks, Whitespace, c);
    }
  }

  lemma CamelCaseJoined(subject: string)
    ensures forall c | c in CamelCase(subject) :: IsJoined(c)
  {
    var words := Split(DashesToBlanks(subject), Whitespace, "");
    WordsJoined(subject);
    UcFirstAllJoined(words);
    var joined := UcFirstAll(words);
    forall c | c in LcFirst(joined)
      ensures IsJoined(c)
    {
      var i :| 0 <= i < |joined| && LcFirst(joined)[i] == c;
      if i > 0 {
        assert c == joined[1..][i - 1];
      } else {
        assert joined[0] in joined;
      }
    }
  }

  lemma StripKeeps(s: string, separators: string, c: char)
    requires c in Strip(s, separators)
    ensures c in s && c !in separators
  {
    if s != [] && c != s[0] {
      StripKeeps(s[1..], separators, c);
    }
  }

  lemma FlattenHolds(parts: seq<string>, k: nat, c: char)
    requires k < |parts| && c in parts[k]
    ensures c in Flatten(parts)
  {
    if k > 0 {
      FlattenHolds(parts[1..], k - 1, c);
    }
  }

  /**
   * camel_case leaves no blank, hyphen or underscore and no upper-case first letter, and
   * applying it to its own result changes nothing.
   */
  lemma CamelCaseShape(subject: string)
    ensures forall c | c in CamelCase(subject) :: IsJoined(c)
    ensures CamelCase(subject) != "" ==> !IsUpper(CamelCase(subject)[0])
    ensures CamelCase(CamelCase(subject)) == CamelCase(subject)
  {
    CamelCaseJoined(subject);
    JoinedIsFixed(CamelCase(subject));
  }

  /** A string without blanks, hyphens or underscores is one word for camel_case. */
  lemma JoinedIsFixed(t: string)
    requires forall c | c in t :: IsJoined(c)
    ensures CamelCase(t) == LcFirst(UcFirst(t))
  {
    assert DashesToBlanks(t) == t by {
      forall i | 0 <= i < |t|
        ensures DashesToBlanks(t)[i] == t[i]
      {
        assert t[i] in t;
      }
    }
    if t == "" {
      assert Split(t, Whitespace, "") == [];
    } else {
      assert Split(t, Whitespace, "") == [t] by {
        assert FreeOf(t, Whitespace) by {
          forall i | 0 <= i < |t|
            ensures t[i] !in Whitespace
          {
            assert t[i] in t;
          }
        }
        SplitWord(t, "", Whitespace, "");
        assert t + "" == t && "" + t == t;
      }
      assert UcFirstAll([t]) == UcFirst(t) by {
        assert [t][1..] == [];
        assert UcFirst(t) + "" == UcFirst(t);
      }
    }
  }

  /**
   * pascal_case is camel_case with an upper-case first letter: lower-casing that letter gives
   * camel_case back, and camel_case of pascal_case is camel_case.
   */
  lemma PascalCaseShape(subject: string)
    ensures forall c | c in PascalCase(subject) :: IsJoined(c)
    ensures PascalCase(subject) != "" ==> !IsLower(PascalCase(subject)[0])
    ensures LcFirst(PascalCase(subject)) == CamelCase(subject)
    ensures CamelCase(PascalCase(subject)) == CamelCase(subject)
  {
    var t := CamelCase(subject);
    var p := PascalCase(subject);
    CamelCaseShape(subject);
    forall c | c in p
      ensures IsJoined(c)
    {
      var i :| 0 <= i < |p| && p[i] == c;
      if i > 0 {
        assert c == t[1..][i - 1];
      }
    }
    assert LcFirst(p) == t;
    JoinedIsFixed(p);
    assert UcFirst(p) == p;
  }
}
