/**
 * The JavaScript string operations the bear page relies on, stated over
 * `seq<char>`: the ECMAScript white-space set (what `\s` matches and what
 * `String.prototype.trim` strips), literal search, `split` with a non-empty
 * string separator, `trim`, and `replace` with a string pattern (which
 * replaces only the first occurrence).
 */
module Text {

  datatype Option<T> = None | Some(value: T)

  /** ECMAScript LineTerminator: what `.` in a regular expression refuses to match. */
  predicate IsLineTerminator(c: char) {
    c == '\n' || c == '\r' || c == '\U{2028}' || c == '\U{2029}'
  }

  /**
   * ECMAScript WhiteSpace plus LineTerminator: the class `\s` and the set of
   * code points `trim` removes. The Unicode "Zs" category is fixed here at
   * the code points it holds in current Unicode versions.
   */
  predicate IsWhitespace(c: char) {
    || c == '\t' || c == '\U{000B}' || c == '\U{000C}' || c == ' '
    || c == '\U{00A0}' || c == '\U{FEFF}' || c == '\U{1680}'
    || ('\U{2000}' <= c <= '\U{200A}')
    || c == '\U{202F}' || c == '\U{205F}' || c == '\U{3000}'
    || IsLineTerminator(c)
  }

  /** `t` occurs in `s` starting at index `i`. */
  predicate OccursAt(s: string, t: string, i: nat) {
    i + |t| <= |s| && s[i..i + |t|] == t
  }

  predicate Contains(s: string, t: string) {
    exists i: nat :: i <= |s| && OccursAt(s, t, i)
  }

  /** `i` is where `t` first occurs in `s`. */
  predicate FirstOccurrence(s: string, t: string, i: nat) {
    OccursAt(s, t, i) && forall j: nat :: j < i ==> !OccursAt(s, t, j)
  }

  /** Every character of `s` is white space. */
  predicate AllWhitespace(s: string) {
    forall k :: 0 <= k < |s| ==> IsWhitespace(s[k])
  }

  /** The index of the first occurrence of `t` in `s` at or after `from` (`indexOf`). */
  function FindFrom(s: string, t: string, from: nat): (r: Option<nat>)
    decreases |s| - from
    ensures r.Some? ==> from <= r.value && OccursAt(s, t, r.value)
    ensures r.Some? ==> forall j: nat :: from <= j < r.value ==> !OccursAt(s, t, j)
    ensures r.None? ==> forall j: nat :: from <= j ==> !OccursAt(s, t, j)
  {
    if from + |t| > |s| then None
    else if OccursAt(s, t, from) then Some(from)
    else FindFrom(s, t, from + 1)
  }

  /**
   * `s.split(sep)` for a non-empty separator: the text between successive
   * leftmost non-overlapping occurrences, including the (possibly empty)
   * text before the first and after the last.
   */
  function Split(s: string, sep: string): (parts: seq<string>)
    requires |sep| > 0
    decreases |s|
    ensures |parts| >= 1
  {
    match FindFrom(s, sep, 0)
    case None => [s]
    case Some(i) => [s[..i]] + Split(s[i + |sep|..], sep)
  }

  /** `parts.join(sep)`. */
  function Join(parts: seq<string>, sep: string): string {
    if |parts| == 0 then ""
    else if |parts| == 1 then parts[0]
    else parts[0] + sep + Join(parts[1..], sep)
  }

  lemma PrefixBeforeFirstIsFree(s: string, sep: string, i: nat)
    requires |sep| > 0 && i <= |s|
    requires forall j: nat :: j < i ==> !OccursAt(s, sep, j)
    ensures !Contains(s[..i], sep)
  {
    forall j: nat | OccursAt(s[..i], sep, j)
      ensures false
    {
      assert s[..i][j..j + |sep|] == s[j..j + |sep|];
      assert OccursAt(s, sep, j);
    }
  }

  /** Splitting loses nothing: joining the pieces with the separator gives the input back. */
  lemma {:induction false} SplitJoin(s: string, sep: string)
    requires |sep| > 0
    decreases |s|
    ensures Join(Split(s, sep), sep) == s
  {
    match FindFrom(s, sep, 0)
    case None =>
    case Some(i) =>
      var rest := s[i + |sep|..];
      var parts := Split(rest, sep);
      SplitJoin(rest, sep);
      assert ([s[..i]] + parts)[1..] == parts;
      assert Join([s[..i]] + parts, sep) == s[..i] + sep + Join(parts, sep);
      assert s[i..i + |sep|] == sep;
      assert s == s[..i] + s[i..i + |sep|] + rest;
  }

  /** No piece of a split contains the separator. */
  lemma {:induction false} SplitPiecesFree(s: string, sep: string)
    requires |sep| > 0
    decreases |s|
    ensures forall k :: 0 <= k < |Split(s, sep)| ==> !Contains(Split(s, sep)[k], sep)
  {
    match FindFrom(s, sep, 0)
    case None =>
      assert Split(s, sep) == [s];
    case Some(i) =>
      var rest := s[i + |sep|..];
      SplitPiecesFree(rest, sep);
      PrefixBeforeFirstIsFree(s, sep, i);
      assert Split(s, sep) == [s[..i]] + Split(rest, sep);
  }

  /** A text without the separator splits into itself alone; in particular `"".split(sep)` is `[""]`. */
  lemma SplitWithoutSeparator(s: string, sep: string)
    requires |sep| > 0
    ensures !Contains(s, sep) ==> Split(s, sep) == [s]
  {
    if FindFrom(s, sep, 0).Some? {
      var i := FindFrom(s, sep, 0).value;
      assert i <= |s| && OccursAt(s, sep, i);
    }
  }

  /** A text whose characters all differ from the first character of `t` holds no occurrence of `t`. */
  lemma NoOccurrenceWithoutFirstChar(s: string, t: string)
    requires |t| > 0 && t[0] !in s
    ensures !Contains(s, t)
  {
    forall i: nat | i <= |s| ensures !OccursAt(s, t, i) {
      if i + |t| <= |s| {
        assert s[i..i + |t|][0] == s[i];
      }
    }
  }

  /** When the separator's first character is not in `pre`, splitting `pre + sep + rest` cuts right after `pre`. */
  lemma SplitAfterFree(pre: string, sep: string, rest: string)
    requires |sep| > 0 && sep[0] !in pre
    ensures Split(pre + sep + rest, sep) == [pre] + Split(rest, sep)
  {
    var s := pre + sep + rest;
    assert s[|pre|..|pre| + |sep|] == sep;
    forall j: nat | j < |pre| ensures !OccursAt(s, sep, j) {
      if j + |sep| <= |s| {
        assert s[j..j + |sep|][0] == pre[j];
      }
    }
    assert OccursAt(s, sep, |pre|);
    var r := FindFrom(s, sep, 0);
    assert r.Some?;
    assert r.value <= |pre|;
    assert r.value == |pre|;
    assert s[..|pre|] == pre && s[|pre| + |sep|..] == rest;
  }

  /**
   * Splitting undoes joining when no part holds the separator's first
   * character: the inverse direction of `SplitJoin`.
   */
  lemma {:induction false} SplitJoinInverse(parts: seq<string>, sep: string)
    requires |parts| >= 1 && |sep| > 0
    requires forall k :: 0 <= k < |parts| ==> sep[0] !in parts[k]
    decreases |parts|
    ensures Split(Join(parts, sep), sep) == parts
  {
    if |parts| == 1 {
      NoOccurrenceWithoutFirstChar(parts[0], sep);
      SplitWithoutSeparator(parts[0], sep);
    } else {
      SplitJoinInverse(parts[1..], sep);
      SplitAfterFree(parts[0], sep, Join(parts[1..], sep));
      assert parts == [parts[0]] + parts[1..];
    }
  }

  /** `s.trimStart()`: drops the white space at the front and nothing else. */
  function TrimStart(s: string): (r: string)
    ensures |r| <= |s| && r == s[|s| - |r|..]
    ensures AllWhitespace(s[..|s| - |r|])
    ensures |r| > 0 ==> !IsWhitespace(r[0])
  {
    if |s| > 0 && IsWhitespace(s[0]) then
      var r := TrimStart(s[1..]);
      var k := |s| - |r|;
      assert s[1..][k - 1..] == s[k..];
      assert forall i :: 1 <= i < k ==> s[i] == s[1..][..k - 1][i - 1];
      r
    else s
  }

  /** `s.trimEnd()`: drops the white space at the back and nothing else. */
  function TrimEnd(s: string): (r: string)
    ensures |r| <= |s| && r == s[..|r|]
    ensures AllWhitespace(s[|r|..])
    ensures |r| > 0 ==> !IsWhitespace(r[|r| - 1])
  {
    if |s| > 0 && IsWhitespace(s[|s| - 1]) then
      var r := TrimEnd(s[..|s| - 1]);
      assert s[..|s| - 1][..|r|] == s[..|r|];
      assert forall i :: |r| <= i < |s| - 1 ==> s[i] == s[..|s| - 1][|r|..][i - |r|];
      r
    else s
  }

  /** `s.trim()`. */
  function Trim(s: string): string {
    TrimEnd(TrimStart(s))
  }

  /**
   * What `trim` keeps is a contiguous slice of the input that neither
   * starts nor ends with white space, and everything it drops is white space.
   */
  lemma TrimSlice(s: string) returns (lead: nat)
    ensures lead + |Trim(s)| <= |s| && Trim(s) == s[lead..lead + |Trim(s)|]
    ensures AllWhitespace(s[..lead]) && AllWhitespace(s[lead + |Trim(s)|..])
    ensures |Trim(s)| > 0 ==> !IsWhitespace(Trim(s)[0]) && !IsWhitespace(Trim(s)[|Trim(s)| - 1])
  {
    var t := TrimStart(s);
    var r := TrimEnd(t);
    lead := |s| - |t|;
    SliceOfSuffix(s, lead, |r|);
  }

  lemma SliceOfSuffix<T>(s: seq<T>, lead: nat, m: nat)
    requires lead + m <= |s|
    ensures s[lead..][m..] == s[lead + m..] && s[lead..][..m] == s[lead..lead + m]
  {
  }

  /** `trim` yields the empty string exactly when every character is white space. */
  lemma TrimEmptyIffAllWhitespace(s: string)
    ensures |Trim(s)| == 0 <==> AllWhitespace(s)
  {
    var lead := TrimSlice(s);
    if |Trim(s)| == 0 {
      assert s == s[..lead] + s[lead..];
      forall k | 0 <= k < |s| ensures IsWhitespace(s[k]) {
        if k < lead { assert s[k] == s[..lead][k]; } else { assert s[k] == s[lead..][k - lead]; }
      }
    } else {
      assert Trim(s)[0] == s[lead];
    }
  }

  /** A text that neither starts nor ends with white space is its own `trim`. */
  lemma TrimKeepsUnpadded(s: string)
    requires |s| > 0 && !IsWhitespace(s[0]) && !IsWhitespace(s[|s| - 1])
    ensures Trim(s) == s
  {
    assert TrimStart(s) == s;
  }

  /**
   * `s.replace(pat, rep)` with a string pattern: only the first occurrence
   * is replaced; a text without the pattern comes back unchanged.
   */
  function ReplaceFirst(s: string, pat: string, rep: string): (r: string)
    ensures !Contains(s, pat) ==> r == s
    ensures forall i: nat :: FirstOccurrence(s, pat, i) ==> r == s[..i] + rep + s[i + |pat|..]
  {
    match FindFrom(s, pat, 0)
    case None => s
    case Some(i) =>
      assert FirstOccurrence(s, pat, i);
      s[..i] + rep + s[i + |pat|..]
  }
}
