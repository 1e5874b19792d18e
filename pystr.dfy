/** Python's `str` operations that the extractor relies on: the `in` test for a
    substring, `split(sep)` with indexing into its result, and the whitespace
    stripping that `float()` and `int()` apply to their argument. */
module PyStr {
  import opened Results

  /** `sep` occurs in `s` starting at index `j`. */
  predicate OccursAt(s: string, sep: string, j: nat) {
    j + |sep| <= |s| && s[j..j + |sep|] == sep
  }

  /** The first index at or after `from` where `sep` occurs in `s`. */
  function IndexFrom(s: string, sep: string, from: nat): (r: Option<nat>)
    requires from <= |s|
    ensures r.Some? ==> from <= r.value && OccursAt(s, sep, r.value)
    ensures r.Some? ==> forall j: nat :: from <= j < r.value ==> !OccursAt(s, sep, j)
    ensures r.None? ==> forall j: nat :: from <= j ==> !OccursAt(s, sep, j)
    decreases |s| - from
  {
    if from + |sep| > |s| then None
    else if s[from..from + |sep|] == sep then Some(from)
    else IndexFrom(s, sep, from + 1)
  }

  /** `s.find(sep)`: the first occurrence of `sep` in `s`, if any. */
  function IndexOf(s: string, sep: string): (r: Option<nat>)
    ensures r.Some? ==> OccursAt(s, sep, r.value)
    ensures r.Some? ==> forall j: nat :: j < r.value ==> !OccursAt(s, sep, j)
    ensures r.None? ==> forall j: nat :: !OccursAt(s, sep, j)
  {
    IndexFrom(s, sep, 0)
  }

  /** Python's `sep in s`. */
  predicate Contains(s: string, sep: string) {
    IndexOf(s, sep).Some?
  }

  /** `s.split(sep)` for a non-empty separator: the pieces between the
      non-overlapping occurrences of `sep`, found from left to right. */
  function Split(s: string, sep: string): (parts: seq<string>)
    requires |sep| > 0
    ensures |parts| >= 1
    decreases |s|
  {
    match IndexOf(s, sep)
    case None => [s]
    case Some(i) => [s[..i]] + Split(s[i + |sep|..], sep)
  }

  /** `sep.join(parts)`. */
  function Join(parts: seq<string>, sep: string): string {
    if |parts| == 0 then ""
    else if |parts| == 1 then parts[0]
    else parts[0] + sep + Join(parts[1..], sep)
  }

  /** `s.split(sep)[i]`: raises ValueError on an empty separator and
      IndexError when there are fewer than `i + 1` pieces. */
  function Segment(s: string, sep: string, i: nat): (r: Result<string>)
    ensures |sep| == 0 ==> r == Err(ValueError)
    ensures |sep| > 0 && i == 0 ==> r.Ok? && !Contains(r.value, sep) && r.value <= s
    ensures |sep| > 0 && i == 1 ==> (r.Ok? <==> Contains(s, sep))
    ensures r.Err? && |sep| > 0 ==> r.error == IndexError
  {
    if |sep| == 0 then Err(ValueError)
    else
      var parts := Split(s, sep);
      SplitPartsFree(s, sep);
      if i < |parts| then Ok(parts[i]) else Err(IndexError)
  }

  /** `s.split(sep)[0]`, which never raises for a non-empty separator: the text
      before the first occurrence of `sep`, or all of `s`. */
  function SplitHead(s: string, sep: string): (r: string)
    requires |sep| > 0
    ensures Segment(s, sep, 0) == Ok(r)
    ensures r <= s && !Contains(r, sep)
    ensures Contains(s, sep) ==> OccursAt(s, sep, |r|)
  {
    SplitPartsFree(s, sep);
    Split(s, sep)[0]
  }

  /** Splitting and joining again gives back the original string. */
  lemma {:induction false} SplitJoin(s: string, sep: string)
    requires |sep| > 0
    ensures Join(Split(s, sep), sep) == s
    decreases |s|
  {
    var r := IndexOf(s, sep);
    if r.Some? {
      var i := r.value;
      var rest := s[i + |sep|..];
      var parts := Split(rest, sep);
      SplitJoin(rest, sep);
      assert Split(s, sep) == [s[..i]] + parts;
      assert ([s[..i]] + parts)[1..] == parts;
      assert s == s[..i] + sep + rest;
    }
  }

  /** No piece of a split contains the separator; the first piece is a prefix. */
  lemma {:induction false} SplitPartsFree(s: string, sep: string)
    requires |sep| > 0
    ensures Split(s, sep)[0] <= s
    ensures forall k :: 0 <= k < |Split(s, sep)| ==> !Contains(Split(s, sep)[k], sep)
    decreases |s|
  {
    var r := IndexOf(s, sep);
    if r.Some? {
      var i := r.value;
      var head := s[..i];
      var rest := s[i + |sep|..];
      forall j: nat | OccursAt(head, sep, j)
        ensures OccursAt(s, sep, j)
      {
        assert head[j..j + |sep|] == s[j..j + |sep|];
      }
      assert !Contains(head, sep);
      SplitPartsFree(rest, sep);
      assert Split(s, sep) == [head] + Split(rest, sep);
    }
  }

  /** The first piece is everything before the first occurrence of `sep`. */
  lemma SegmentZero(s: string, sep: string)
    requires |sep| > 0
    ensures Segment(s, sep, 0) == Ok(if IndexOf(s, sep).Some? then s[..IndexOf(s, sep).value] else s)
  {
  }

  /** The head of a split ends where the first occurrence of the separator begins. */
  lemma SplitHeadAt(s: string, sep: string, p: nat)
    requires |sep| > 0 && IndexOf(s, sep) == Some(p)
    ensures SplitHead(s, sep) == s[..p]
  {
    SegmentZero(s, sep);
  }

  /** The second piece is the first piece of what follows the first occurrence. */
  lemma SegmentOne(s: string, sep: string, p: nat)
    requires |sep| > 0 && IndexOf(s, sep) == Some(p)
    ensures Segment(s, sep, 1) == Segment(s[p + |sep|..], sep, 0)
  {
  }

  /** A separator whose first character does not occur in `s` does not occur in `s`. */
  lemma AbsentSeparator(s: string, sep: string)
    requires |sep| > 0
    requires forall i :: 0 <= i < |s| ==> s[i] != sep[0]
    ensures IndexOf(s, sep) == None
  {
    forall j: nat
      ensures !OccursAt(s, sep, j)
    {
      if j + |sep| <= |s| {
        assert s[j..j + |sep|][0] == s[j];
      }
    }
  }

  /** No character of `s` is a character of `chars`. */
  predicate NoCharOf(s: string, chars: string) {
    forall i, k :: 0 <= i < |s| && 0 <= k < |chars| ==> s[i] != chars[k]
  }

  /** The first occurrence of `sep` in `a + b + sep + c`, when `a` has none and
      no character of the non-empty `b` is a character of `sep`, is right after `b`. */
  lemma FirstOccurrence(a: string, b: string, sep: string, c: string)
    requires |b| > 0 || |a| == 0
    requires IndexOf(a, sep) == None
    requires NoCharOf(b, sep)
    ensures IndexOf(a + b + sep + c, sep) == Some(|a| + |b|)
  {
    var s := a + b + sep + c;
    assert OccursAt(s, sep, |a| + |b|) by {
      assert s[|a| + |b|..|a| + |b| + |sep|] == sep;
    }
    forall j: nat | j < |a| + |b|
      ensures !OccursAt(s, sep, j)
    {
      if j + |sep| <= |a| {
        assert s[j..j + |sep|] == a[j..j + |sep|];
        assert !OccursAt(a, sep, j);
      } else if j + |sep| <= |s| {
        var p := if j < |a| then |a| else j;
        assert s[p] == b[p - |a|];
        assert b[p - |a|] != sep[p - j];
        assert s[j..j + |sep|][p - j] == s[p];
        assert s[j..j + |sep|] != sep;
      }
    }
  }

  /** Splitting `b + sep + c`, where `b` shares no character with `sep`: the
      first piece is `b` and the second is the first piece of `c`. */
  lemma SplitAfter(s: string, sep: string, b: string, c: string)
    requires |sep| > 0 && s == b + sep + c && NoCharOf(b, sep)
    ensures SplitHead(s, sep) == b
    ensures Segment(s, sep, 1) == Segment(c, sep, 0)
  {
    FirstOccurrence("", b, sep, c);
    assert "" + b + sep + c == s;
    SegmentZero(s, sep);
    SegmentOne(s, sep, |b|);
    assert s[|b| + |sep|..] == c;
  }

  /** Splitting a string that shares no character with `sep` gives it whole. */
  lemma SplitNothing(s: string, sep: string)
    requires |sep| > 0 && NoCharOf(s, sep)
    ensures Segment(s, sep, 0) == Ok(s) && SplitHead(s, sep) == s
  {
    AbsentSeparator(s, sep);
    SegmentZero(s, sep);
  }

  /** Python's whitespace: `str.isspace()`, which `float()` and `int()` strip. */
  predicate IsSpace(c: char) {
    || ('\t' <= c <= '\r')
    || ('\U{1C}' <= c <= '\U{1F}')
    || c == ' ' || c == '\U{85}' || c == '\U{A0}' || c == '\U{1680}'
    || ('\U{2000}' <= c <= '\U{200A}')
    || c == '\U{2028}' || c == '\U{2029}' || c == '\U{202F}' || c == '\U{205F}' || c == '\U{3000}'
  }

  /** `s.lstrip()`: the longest suffix of `s` not starting with whitespace. */
  function TrimStart(s: string): (r: string)
    ensures |r| <= |s| && r == s[|s| - |r|..]
    ensures |r| > 0 ==> !IsSpace(r[0])
    ensures forall i :: 0 <= i < |s| - |r| ==> IsSpace(s[i])
  {
    if |s| > 0 && IsSpace(s[0]) then TrimStart(s[1..]) else s
  }

  /** `s.rstrip()`: the longest prefix of `s` not ending with whitespace. */
  function TrimEnd(s: string): (r: string)
    ensures |r| <= |s| && r == s[..|r|]
    ensures |r| > 0 ==> !IsSpace(r[|r| - 1])
    ensures forall i :: |r| <= i < |s| ==> IsSpace(s[i])
  {
    if |s| > 0 && IsSpace(s[|s| - 1]) then TrimEnd(s[..|s| - 1]) else s
  }

  /** `s.strip()`. */
  function Strip(s: string): (r: string) {
    TrimEnd(TrimStart(s))
  }

  /** Stripping leaves a string that neither starts nor ends with whitespace unchanged. */
  lemma StripUnchanged(s: string)
    requires |s| > 0 ==> !IsSpace(s[0]) && !IsSpace(s[|s| - 1])
    ensures Strip(s) == s
  {
  }
}
