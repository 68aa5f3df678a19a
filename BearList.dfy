/**
 * The species extractor behind the "more bears" list: the wikitext of the
 * species tables is cut into table blocks at `{{Species table/end}}` and
 * each block into row fragments at `{{Species table/row`; four regular
 * expressions pull a name, a binomial, an image file name and a range out
 * of every fragment, and a fragment on which all four match becomes one
 * record, its image resolved through an injected `resolve` function.
 *
 * The regular expressions are modelled by what JavaScript's backtracking
 * matcher does (leftmost start position; lazy `.*?`; greedy `[^|]*` giving
 * characters back until the lookahead `(?=\s*\()` holds), and each is
 * proved equal to a declarative description of its capture (`Captures`).
 */
module BearList {
  import opened Text
  import BearImageService

  const TableEnd := "{{Species table/end}}"
  const RowMarker := "{{Species table/row"
  const NameKey := "|name=[["
  const LinkClose := "]]"
  const BinomialKey := "|binomial="
  const ImageKey := "|image="
  const RangeKey := "|range="
  const RangeDefault := "Unknown"

  datatype Bear = Bear(name: string, binomial: string, image: string, range: string)

  /** The shapes of the four regular expressions; each has one capture group. */
  datatype Pattern =
    | WikiLink                // /\|name=\[\[(.*?)\]\]/
    | RestOfLine(key: string) // /\|binomial=(.*?)\n/ and /\|image=(.*?)\n/
    | BeforeParen             // /\|range=([^|]*)(?=\s*\()/

  const NamePattern := WikiLink
  const BinomialPattern := RestOfLine(BinomialKey)
  const ImagePattern := RestOfLine(ImageKey)
  const RangePattern := BeforeParen

  /** The literal text each pattern starts with. */
  function Key(pat: Pattern): string {
    match pat
    case WikiLink => NameKey
    case RestOfLine(key) => key
    case BeforeParen => RangeKey
  }

  /** No line terminator in `s[k..m]`: the stretch `.` can run over. */
  predicate OnOneLine(s: string, k: nat, m: nat)
    requires k <= m <= |s|
  {
    forall j :: k <= j < m ==> !IsLineTerminator(s[j])
  }

  predicate NoLineTerminator(s: string) {
    forall i :: 0 <= i < |s| ==> !IsLineTerminator(s[i])
  }

  // ---------------------------------------------------------------------
  // The matcher

  /**
   * `(.*?)close` with the capture begun at `c` and `s[c..k]` already taken:
   * the lazy quantifier first tries `close`, and only when that fails
   * takes one more character, which must not be a line terminator.
   */
  function LazyUntil(s: string, c: nat, k: nat, close: string): (r: Option<string>)
    requires c <= k <= |s|
    decreases |s| - k
    ensures r.Some? ==> k <= c + |r.value| <= |s| && r.value == s[c..c + |r.value|]
    ensures r.Some? ==> OccursAt(s, close, c + |r.value|) && OnOneLine(s, k, c + |r.value|)
    ensures r.Some? ==> forall j: nat :: k <= j < c + |r.value| ==> !OccursAt(s, close, j)
    ensures r.None? ==> forall m: nat :: k <= m <= |s| && OccursAt(s, close, m) ==> !OnOneLine(s, k, m)
  {
    if OccursAt(s, close, k) then Some(s[c..k])
    else if k < |s| && !IsLineTerminator(s[k]) then LazyUntil(s, c, k + 1, close)
    else None
  }

  /** The lookahead `\s*\(` holds at `k`: white space, then an opening parenthesis. */
  predicate SpacesThenParen(s: string, k: nat)
    decreases |s| - k
  {
    k < |s| && (s[k] == '(' || (IsWhitespace(s[k]) && SpacesThenParen(s, k + 1)))
  }

  /** Where the greedy run `[^|]*` started at `k` stops: the next `|`, or the end. */
  function BarFrom(s: string, k: nat): (e: nat)
    requires k <= |s|
    decreases |s| - k
    ensures k <= e <= |s| && (e < |s| ==> s[e] == '|')
    ensures forall j :: k <= j < e ==> s[j] != '|'
  {
    if k == |s| || s[k] == '|' then k else BarFrom(s, k + 1)
  }

  /**
   * The greedy run `s[c..k]` giving back one character at a time until the
   * lookahead holds: the capture ends at the last position up to `k` where it does.
   */
  function GreedyBack(s: string, c: nat, k: nat): (r: Option<string>)
    requires c <= k <= |s|
    decreases k
    ensures r.Some? ==> c + |r.value| <= k && r.value == s[c..c + |r.value|]
    ensures r.Some? ==> SpacesThenParen(s, c + |r.value|)
    ensures r.Some? ==> forall j: nat :: c + |r.value| < j <= k ==> !SpacesThenParen(s, j)
    ensures r.None? ==> forall j: nat :: c <= j <= k ==> !SpacesThenParen(s, j)
  {
    if SpacesThenParen(s, k) then Some(s[c..k])
    else if k == c then None
    else GreedyBack(s, c, k - 1)
  }

  /** The capture of a match anchored at start position `p`, if the pattern matches there. */
  function MatchAt(pat: Pattern, s: string, p: nat): Option<string>
    requires p <= |s|
  {
    if !OccursAt(s, Key(pat), p) then None
    else
      var c := p + |Key(pat)|;
      match pat
      case WikiLink => LazyUntil(s, c, c, LinkClose)
      case RestOfLine(_) => LazyUntil(s, c, c, "\n")
      case BeforeParen => GreedyBack(s, c, BarFrom(s, c))
  }

  /** The first start position at or after `from` where the pattern matches. */
  function FirstMatchFrom(pat: Pattern, s: string, from: nat): (r: Option<nat>)
    requires from <= |s| + 1
    decreases |s| + 1 - from
    ensures r.Some? ==> from <= r.value <= |s| && MatchAt(pat, s, r.value).Some?
    ensures r.Some? ==> forall q: nat :: from <= q < r.value ==> MatchAt(pat, s, q).None?
    ensures r.None? ==> forall q: nat :: from <= q <= |s| ==> MatchAt(pat, s, q).None?
  {
    if from > |s| then None
    else if MatchAt(pat, s, from).Some? then Some(from)
    else FirstMatchFrom(pat, s, from + 1)
  }

  /** `pattern.exec(s)?.[1]`: the capture of the leftmost match. */
  function Exec(pat: Pattern, s: string): Option<string> {
    match FirstMatchFrom(pat, s, 0)
    case None => None
    case Some(p) => MatchAt(pat, s, p)
  }

  // ---------------------------------------------------------------------
  // What each pattern captures, stated declaratively

  /** Name: `cap` runs to the first `]]` after `c`, and no line ends before it. */
  ghost predicate LinkCapture(s: string, c: nat, cap: string) {
    var m := c + |cap|;
    && OccursAt(s, LinkClose, m) && NoLineTerminator(cap)
    && forall j: nat :: c <= j < m ==> !OccursAt(s, LinkClose, j)
  }

  /** Binomial and image: `cap` is the rest of a line that ends in `\n`. */
  ghost predicate LineCapture(s: string, c: nat, cap: string) {
    var m := c + |cap|;
    m < |s| && s[m] == '\n' && NoLineTerminator(cap)
  }

  /**
   * Range: `cap` holds no `|` and is followed by a `(`, and no `(` comes
   * after that one before the next `|`: the capture ends at the last `(` of the run.
   */
  ghost predicate RangeCapture(s: string, c: nat, cap: string) {
    var m := c + |cap|;
    && '|' !in cap && m < |s| && s[m] == '('
    && forall j :: m < j < |s| && '|' !in s[m + 1..j] ==> s[j] != '('
  }

  /** A match of `pat` starting at `p` captures `cap`. */
  ghost predicate Captures(pat: Pattern, s: string, p: nat, cap: string) {
    var c := p + |Key(pat)|;
    && OccursAt(s, Key(pat) + cap, p)
    && match pat
       case WikiLink => LinkCapture(s, c, cap)
       case RestOfLine(_) => LineCapture(s, c, cap)
       case BeforeParen => RangeCapture(s, c, cap)
  }

  /** `cap` is what the leftmost match of `pat` in `s` captures, and it starts at `p`. */
  ghost predicate LeftmostCapture(pat: Pattern, s: string, p: nat, cap: string) {
    p <= |s| && Captures(pat, s, p, cap) && forall q: nat, other: string :: q < p ==> !Captures(pat, s, q, other)
  }

  /** The pattern matches somewhere in `s`. */
  ghost predicate Matches(pat: Pattern, s: string) {
    exists p: nat, cap: string :: p <= |s| && Captures(pat, s, p, cap)
  }

  lemma KeyThenCapture(s: string, key: string, p: nat, cap: string)
    ensures OccursAt(s, key + cap, p) <==> OccursAt(s, key, p) && OccursAt(s, cap, p + |key|)
  {
    var c := p + |key|;
    if OccursAt(s, key + cap, p) {
      assert s[p..c] == (key + cap)[..|key|];
      assert s[c..c + |cap|] == (key + cap)[|key|..];
    }
    if OccursAt(s, key, p) && OccursAt(s, cap, c) {
      assert s[p..c + |cap|] == s[p..c] + s[c..c + |cap|];
    }
  }

  lemma NoTerminatorInCapture(s: string, c: nat, cap: string)
    requires OccursAt(s, cap, c)
    ensures NoLineTerminator(cap) <==> OnOneLine(s, c, c + |cap|)
  {
    assert forall i :: 0 <= i < |cap| ==> cap[i] == s[c + i];
  }

  lemma LazySound(s: string, c: nat, close: string, cap: string)
    requires c <= |s| && LazyUntil(s, c, c, close) == Some(cap)
    ensures OccursAt(s, cap, c) && OccursAt(s, close, c + |cap|) && NoLineTerminator(cap)
    ensures forall j: nat :: c <= j < c + |cap| ==> !OccursAt(s, close, j)
  {
    NoTerminatorInCapture(s, c, cap);
  }

  lemma LazyComplete(s: string, c: nat, close: string, cap: string)
    requires OccursAt(s, cap, c) && OccursAt(s, close, c + |cap|) && NoLineTerminator(cap)
    requires forall j: nat :: c <= j < c + |cap| ==> !OccursAt(s, close, j)
    ensures LazyUntil(s, c, c, close) == Some(cap)
  {
    NoTerminatorInCapture(s, c, cap);
    var r := LazyUntil(s, c, c, close);
    assert r.Some?;
    assert OccursAt(s, close, c + |r.value|) && OccursAt(s, close, c + |cap|);
  }

  /** The name pattern's lazy part finds exactly the declarative capture. */
  lemma LinkIff(s: string, c: nat, cap: string)
    requires c <= |s|
    ensures LazyUntil(s, c, c, LinkClose) == Some(cap) <==> OccursAt(s, cap, c) && LinkCapture(s, c, cap)
  {
    if LazyUntil(s, c, c, LinkClose) == Some(cap) {
      LazySound(s, c, LinkClose, cap);
    }
    if OccursAt(s, cap, c) && LinkCapture(s, c, cap) {
      LazyComplete(s, c, LinkClose, cap);
    }
  }

  lemma NewlineAt(s: string, m: nat)
    ensures OccursAt(s, "\n", m) <==> m < |s| && s[m] == '\n'
  {
    if m < |s| {
      assert s[m..m + 1] == [s[m]];
    }
  }

  /** The binomial and image patterns' lazy part finds exactly the declarative capture. */
  lemma LineIff(s: string, c: nat, cap: string)
    requires c <= |s|
    ensures LazyUntil(s, c, c, "\n") == Some(cap) <==> OccursAt(s, cap, c) && LineCapture(s, c, cap)
  {
    NewlineAt(s, c + |cap|);
    if LazyUntil(s, c, c, "\n") == Some(cap) {
      LazySound(s, c, "\n", cap);
    }
    if OccursAt(s, cap, c) && LineCapture(s, c, cap) {
      forall j: nat | c <= j < c + |cap|
        ensures !OccursAt(s, "\n", j)
      {
        NewlineAt(s, j);
        assert s[j] == cap[j - c];
      }
      LazyComplete(s, c, "\n", cap);
    }
  }

  lemma NoParenNoLookahead(s: string, k: nat, e: nat)
    requires k <= e <= |s| && (e < |s| ==> s[e] == '|')
    requires forall j :: k <= j < e ==> s[j] != '('
    decreases e - k
    ensures !SpacesThenParen(s, k)
  {
    if k < e {
      NoParenNoLookahead(s, k + 1, e);
    }
  }

  lemma RangeSound(s: string, c: nat, cap: string)
    requires c <= |s| && GreedyBack(s, c, BarFrom(s, c)) == Some(cap)
    ensures OccursAt(s, cap, c) && RangeCapture(s, c, cap)
  {
    var m := c + |cap|;
    var e := BarFrom(s, c);
    assert '|' !in cap by {
      forall i | 0 <= i < |cap| ensures cap[i] != '|' { assert cap[i] == s[c + i]; }
    }
    NoParenNoLookahead(s, e, e);
    assert m < e;
    assert !SpacesThenParen(s, m + 1);
    NoParenBeforeBar(s, m, e);
  }

  /** No lookahead holds after `m` up to the bar at `e`, so no `(` follows `m` before the next bar. */
  lemma NoParenBeforeBar(s: string, m: nat, e: nat)
    requires m < e <= |s| && (e < |s| ==> s[e] == '|')
    requires forall j: nat :: m < j <= e ==> !SpacesThenParen(s, j)
    ensures forall j :: m < j < |s| && '|' !in s[m + 1..j] ==> s[j] != '('
  {
    forall j | m < j < |s| && '|' !in s[m + 1..j]
      ensures s[j] != '('
    {
      forall k | m + 1 <= k < j ensures s[k] != '|' {
        assert s[k] == s[m + 1..j][k - m - 1];
      }
      assert s[j] == '(' ==> SpacesThenParen(s, j);
    }
  }

  lemma RangeComplete(s: string, c: nat, cap: string)
    requires c <= |s| && OccursAt(s, cap, c) && RangeCapture(s, c, cap)
    ensures GreedyBack(s, c, BarFrom(s, c)) == Some(cap)
  {
    var m := c + |cap|;
    var e := BarFrom(s, c);
    forall i | c <= i < m ensures s[i] != '|' {
      assert s[i] == cap[i - c];
    }
    assert m < e;
    assert SpacesThenParen(s, m);
    forall j: nat | m < j <= e
      ensures !SpacesThenParen(s, j)
    {
      forall i | j <= i < e ensures s[i] != '(' {
        assert '|' !in s[m + 1..i];
      }
      NoParenNoLookahead(s, j, e);
    }
    var r := GreedyBack(s, c, e);
    assert c + |r.value| == m;
  }

  /** The matcher and the declarative description agree at every start position. */
  lemma MatchAtIff(pat: Pattern, s: string, p: nat, cap: string)
    requires p <= |s|
    ensures MatchAt(pat, s, p) == Some(cap) <==> Captures(pat, s, p, cap)
  {
    KeyThenCapture(s, Key(pat), p, cap);
    var c := p + |Key(pat)|;
    if OccursAt(s, Key(pat), p) {
      match pat
      case WikiLink => LinkIff(s, c, cap);
      case RestOfLine(_) => LineIff(s, c, cap);
      case BeforeParen =>
        if MatchAt(pat, s, p) == Some(cap) {
          RangeSound(s, c, cap);
        }
        if Captures(pat, s, p, cap) {
          RangeComplete(s, c, cap);
        }
    }
  }

  /** A successful `exec` captures what the leftmost match captures. */
  lemma ExecSound(pat: Pattern, s: string) returns (p: nat)
    requires Exec(pat, s).Some?
    ensures LeftmostCapture(pat, s, p, Exec(pat, s).value)
  {
    p := FirstMatchFrom(pat, s, 0).value;
    MatchAtIff(pat, s, p, Exec(pat, s).value);
    forall q: nat, other: string | q < p
      ensures !Captures(pat, s, q, other)
    {
      MatchAtIff(pat, s, q, other);
    }
  }

  /** The leftmost match is what `exec` reports. */
  lemma ExecComplete(pat: Pattern, s: string, p: nat, cap: string)
    requires LeftmostCapture(pat, s, p, cap)
    ensures Exec(pat, s) == Some(cap)
  {
    MatchAtIff(pat, s, p, cap);
    var r := FirstMatchFrom(pat, s, 0);
    assert r.Some?;
    var f := r.value;
    assert f <= p;
    var other := MatchAt(pat, s, f).value;
    MatchAtIff(pat, s, f, other);
    assert Captures(pat, s, f, other);
    assert f == p;
  }

  /** `exec` fails exactly when the pattern matches nowhere. */
  lemma ExecSomeIffMatches(pat: Pattern, s: string)
    ensures Exec(pat, s).Some? <==> Matches(pat, s)
  {
    if Exec(pat, s).Some? {
      var p := ExecSound(pat, s);
    }
    forall p: nat, cap: string | p <= |s| && Captures(pat, s, p, cap)
      ensures Exec(pat, s).Some?
    {
      MatchAtIff(pat, s, p, cap);
    }
  }

  // ---------------------------------------------------------------------
  // One row fragment

  /** The resolver's argument: the image capture trimmed, then its first `File:` removed. */
  function FileName(capture: string): string {
    ReplaceFirst(Trim(capture), BearImageService.FilePrefix, "")
  }

  /** The record a row fragment yields, if all four patterns match it. */
  function RowBear(row: string, resolve: string -> string): (r: Option<Bear>)
    ensures r.Some? ==> r.value.range != ""
  {
    var name := Exec(NamePattern, row);
    var binomial := Exec(BinomialPattern, row);
    var image := Exec(ImagePattern, row);
    var range := Exec(RangePattern, row);
    if name.Some? && binomial.Some? && image.Some? && range.Some? then
      Some(Bear(name.value, binomial.value, resolve(FileName(image.value)),
                if range.value != "" then range.value else RangeDefault))
    else None
  }

  /** A fragment yields a record exactly when all four patterns match it. */
  lemma RowBearIffAllMatch(row: string, resolve: string -> string)
    ensures RowBear(row, resolve).Some? <==>
      Matches(NamePattern, row) && Matches(BinomialPattern, row) && Matches(ImagePattern, row) && Matches(RangePattern, row)
  {
    ExecSomeIffMatches(NamePattern, row);
    ExecSomeIffMatches(BinomialPattern, row);
    ExecSomeIffMatches(ImagePattern, row);
    ExecSomeIffMatches(RangePattern, row);
  }

  /**
   * The fields of a record are the leftmost captures, copied verbatim; the
   * image is what the resolver returns for the trimmed image capture with
   * its first `File:` removed; an empty range capture becomes `Unknown`.
   */
  lemma RowBearFields(row: string, resolve: string -> string)
    returns (namePos: nat, binomialPos: nat, imagePos: nat, imageCap: string, rangePos: nat, rangeCap: string)
    requires RowBear(row, resolve).Some?
    ensures LeftmostCapture(NamePattern, row, namePos, RowBear(row, resolve).value.name)
    ensures LeftmostCapture(BinomialPattern, row, binomialPos, RowBear(row, resolve).value.binomial)
    ensures LeftmostCapture(ImagePattern, row, imagePos, imageCap)
    ensures RowBear(row, resolve).value.image == resolve(FileName(imageCap))
    ensures LeftmostCapture(RangePattern, row, rangePos, rangeCap)
    ensures RowBear(row, resolve).value.range == if rangeCap == "" then RangeDefault else rangeCap
  {
    namePos := ExecSound(NamePattern, row);
    binomialPos := ExecSound(BinomialPattern, row);
    imagePos := ExecSound(ImagePattern, row);
    imageCap := Exec(ImagePattern, row).value;
    rangePos := ExecSound(RangePattern, row);
    rangeCap := Exec(RangePattern, row).value;
  }

  // ---------------------------------------------------------------------
  // Row fragments and table blocks

  /** The values present in a sequence of optional values, in order. */
  function Present<T>(xs: seq<Option<T>>): seq<T>
    decreases |xs|
  {
    if |xs| == 0 then []
    else Present(xs[..|xs| - 1]) + (match xs[|xs| - 1] case Some(v) => [v] case None => [])
  }

  lemma {:induction false} PresentAppend<T>(a: seq<Option<T>>, b: seq<Option<T>>)
    decreases |b|
    ensures Present(a + b) == Present(a) + Present(b)
  {
    if |b| > 0 {
      var init := b[..|b| - 1];
      PresentAppend(a, init);
      assert (a + b)[..|a + b| - 1] == a + init;
      assert (a + b)[|a + b| - 1] == b[|b| - 1];
    } else {
      assert a + b == a;
    }
  }

  lemma PresentSingle<T>(o: Option<T>)
    ensures Present([o]) == if o.Some? then [o.value] else []
  {
    assert [o][..0] == [];
  }

  lemma PresentSkip<T>(xs: seq<Option<T>>, i: nat)
    requires i < |xs| && xs[i].None?
    ensures Present(xs) == Present(xs[..i] + xs[i + 1..])
  {
    assert xs == xs[..i] + [xs[i]] + xs[i + 1..];
    PresentAppend(xs[..i] + [xs[i]], xs[i + 1..]);
    PresentAppend(xs[..i], [xs[i]]);
    PresentAppend(xs[..i], xs[i + 1..]);
    PresentSingle(xs[i]);
  }

  lemma {:induction false} PresentAtMostOneEach<T>(xs: seq<Option<T>>)
    decreases |xs|
    ensures |Present(xs)| <= |xs|
  {
    if |xs| > 0 {
      PresentAtMostOneEach(xs[..|xs| - 1]);
    }
  }

  lemma {:induction false} PresentFrom<T>(xs: seq<Option<T>>, v: T) returns (i: nat)
    requires v in Present(xs)
    decreases |xs|
    ensures i < |xs| && xs[i] == Some(v)
  {
    var init := xs[..|xs| - 1];
    if v in Present(init) {
      i := PresentFrom(init, v);
      assert xs[i] == init[i];
    } else {
      i := |xs| - 1;
    }
  }

  /** What each fragment yields, fragment by fragment. */
  function RowResults(rows: seq<string>, resolve: string -> string): (r: seq<Option<Bear>>)
    ensures |r| == |rows|
  {
    seq(|rows|, i requires 0 <= i < |rows| => RowBear(rows[i], resolve))
  }

  /** The records of `rows`, in row order. */
  function RowsBears(rows: seq<string>, resolve: string -> string): seq<Bear> {
    Present(RowResults(rows, resolve))
  }

  /** Records of a concatenation of fragment lists are the concatenation of their records. */
  lemma RowsBearsAppend(a: seq<string>, b: seq<string>, resolve: string -> string)
    ensures RowsBears(a + b, resolve) == RowsBears(a, resolve) + RowsBears(b, resolve)
  {
    var ra, rb, rab := RowResults(a, resolve), RowResults(b, resolve), RowResults(a + b, resolve);
    forall i | 0 <= i < |rab| ensures rab[i] == (ra + rb)[i] {
      if i < |a| {
        assert (a + b)[i] == a[i];
      } else {
        assert (a + b)[i] == b[i - |a|];
      }
    }
    assert rab == ra + rb;
    PresentAppend(ra, rb);
  }

  /** The records of a list are those before fragment `j`, then what `j` yields, then those after it. */
  lemma RowsBearsAround(rows: seq<string>, j: nat, resolve: string -> string)
    requires j < |rows|
    ensures RowsBears(rows, resolve)
         == RowsBears(rows[..j], resolve) + Present([RowBear(rows[j], resolve)]) + RowsBears(rows[j + 1..], resolve)
    ensures RowsBears(rows[..j] + rows[j + 1..], resolve) == RowsBears(rows[..j], resolve) + RowsBears(rows[j + 1..], resolve)
  {
    var pre, x, post := rows[..j], rows[j], rows[j + 1..];
    assert rows == pre + [x] + post;
    RowsBearsAppend(pre + [x], post, resolve);
    RowsBearsAppend(pre, [x], resolve);
    RowsBearsAppend(pre, post, resolve);
    assert RowResults([x], resolve) == [RowBear(x, resolve)];
  }

  /** Taking fragment `j` out of a list removes exactly what it yields. */
  lemma RowsBearsRemove(rows: seq<string>, j: nat, resolve: string -> string)
    requires j < |rows|
    ensures multiset(RowsBears(rows, resolve))
         == multiset(RowsBears(rows[..j] + rows[j + 1..], resolve)) + multiset(Present([RowBear(rows[j], resolve)]))
  {
    RowsBearsAround(rows, j, resolve);
  }

  /** Each fragment yields at most one record. */
  lemma RowsBearsAtMostOnePerRow(rows: seq<string>, resolve: string -> string)
    ensures |RowsBears(rows, resolve)| <= |rows|
  {
    PresentAtMostOneEach(RowResults(rows, resolve));
  }

  /** Every record comes from some fragment that yields it. */
  lemma RowsBearsFromRows(rows: seq<string>, resolve: string -> string, b: Bear) returns (i: nat)
    requires b in RowsBears(rows, resolve)
    ensures i < |rows| && RowBear(rows[i], resolve) == Some(b)
  {
    i := PresentFrom(RowResults(rows, resolve), b);
  }

  /** A fragment missing a field adds nothing and leaves the other fragments' records as they are. */
  lemma SkippedRowIsInvisible(rows: seq<string>, i: nat, resolve: string -> string)
    requires i < |rows| && RowBear(rows[i], resolve).None?
    ensures RowsBears(rows, resolve) == RowsBears(rows[..i] + rows[i + 1..], resolve)
  {
    RowsBearsAround(rows, i, resolve);
    PresentSingle(RowBear(rows[i], resolve));
    assert RowsBears(rows[..i], resolve) + [] == RowsBears(rows[..i], resolve);
  }

  /** The row fragments of one table block. */
  function RowsOf(table: string): seq<string> {
    Split(table, RowMarker)
  }

  /** The records of one table block, in row order. */
  function TableBears(table: string, resolve: string -> string): seq<Bear> {
    RowsBears(RowsOf(table), resolve)
  }

  /** The table blocks of a document. */
  function TablesOf(wikitext: string): seq<string> {
    Split(wikitext, TableEnd)
  }

  function Flatten<T>(blocks: seq<seq<T>>): seq<T>
    decreases |blocks|
  {
    if |blocks| == 0 then [] else Flatten(blocks[..|blocks| - 1]) + blocks[|blocks| - 1]
  }

  /** The records of each table, table by table, each in row order. */
  function TableBlocks(tables: seq<string>, resolve: string -> string): (r: seq<seq<Bear>>)
    ensures |r| == |tables|
  {
    seq(|tables|, k requires 0 <= k < |tables| => TableBears(tables[k], resolve))
  }

  /** Block for block, `blocks` holds what `wanted` holds, each block in any order. */
  ghost predicate SameBlocks<T>(blocks: seq<seq<T>>, wanted: seq<seq<T>>) {
    && |blocks| == |wanted|
    && forall k :: 0 <= k < |blocks| ==> multiset(blocks[k]) == multiset(wanted[k])
  }

  /**
   * What the source promises about its output: it is the concatenation of
   * one block per table, in table order, and each block holds the records
   * of that table's fragments in some order (the order the image lookups settle in).
   */
  ghost predicate Admissible(bears: seq<Bear>, wikitext: string, resolve: string -> string) {
    exists blocks: seq<seq<Bear>> :: SameBlocks(blocks, TableBlocks(TablesOf(wikitext), resolve)) && bears == Flatten(blocks)
  }

  /**
   * The block of one table, once every lookup has settled: the record of a
   * fragment is pushed when its lookup completes, and the completion order
   * is arbitrary, so the next fragment to settle is any pending one.
   */
  method SettleRows(rows: seq<string>, resolve: string -> string) returns (block: seq<Bear>)
    ensures multiset(block) == multiset(RowsBears(rows, resolve))
  {
    block := [];
    var pending := rows;
    while pending != []
      invariant multiset(block) + multiset(RowsBears(pending, resolve)) == multiset(RowsBears(rows, resolve))
      decreases |pending|
    {
      var j :| 0 <= j < |pending|;
      var row := pending[j];
      RowsBearsRemove(pending, j, resolve);
      var found := RowBear(row, resolve);
      PresentSingle(found);
      if found.Some? {
        block := block + [found.value];
      }
      pending := pending[..j] + pending[j + 1..];
    }
  }

  /** Settling the next block extends a matching prefix of blocks by one. */
  lemma SameBlocksExtend<T>(blocks: seq<seq<T>>, block: seq<T>, wanted: seq<seq<T>>, t: nat)
    requires t < |wanted| && SameBlocks(blocks, wanted[..t]) && multiset(block) == multiset(wanted[t])
    ensures SameBlocks(blocks + [block], wanted[..t + 1])
    ensures Flatten(blocks + [block]) == Flatten(blocks) + block
  {
    assert (blocks + [block])[..t] == blocks;
  }

  /** `extractBears`: table blocks one after the other, each settled completely before the next. */
  method ExtractBears(wikitext: string, resolve: string -> string) returns (bears: seq<Bear>)
    ensures Admissible(bears, wikitext, resolve)
  {
    var tables := Split(wikitext, TableEnd);
    ghost var wanted := TableBlocks(tables, resolve);
    bears := [];
    ghost var blocks: seq<seq<Bear>> := [];
    for t := 0 to |tables|
      invariant SameBlocks(blocks, wanted[..t]) && bears == Flatten(blocks)
    {
      var rows := Split(tables[t], RowMarker);
      var block := SettleRows(rows, resolve);
      assert wanted[t] == RowsBears(rows, resolve);
      SameBlocksExtend(blocks, block, wanted, t);
      bears := bears + block;
      blocks := blocks + [block];
    }
    assert wanted[..|tables|] == wanted;
  }

  /** The indices below `n`. */
  function Indices(n: nat): (r: set<nat>)
    ensures forall i: nat :: i in r <==> i < n
  {
    if n == 0 then {} else Indices(n - 1) + {n - 1}
  }

  lemma FlattenPrefixStep<T>(blocks: seq<seq<T>>, t: nat)
    requires t < |blocks|
    ensures Flatten(blocks[..t + 1]) == Flatten(blocks[..t]) + blocks[t]
  {
    assert blocks[..t + 1][..t] == blocks[..t];
  }

  /**
   * Settles one pending lookup at a time, in any order, each result stored
   * in the slot of the item it was started for.
   */
  method SettleIntoSlots<T>(items: seq<string>, settle: string -> Option<T>) returns (slots: seq<Option<T>>)
    ensures |slots| == |items| && forall i :: 0 <= i < |items| ==> slots[i] == settle(items[i])
  {
    slots := seq(|items|, i => None);
    var pending := Indices(|items|);
    while pending != {}
      invariant |slots| == |items| && forall i: nat :: i in pending ==> i < |items|
      invariant forall i: nat :: i < |items| && i !in pending ==> slots[i] == settle(items[i])
      decreases |pending|
    {
      var j: nat :| j in pending;
      slots := slots[j := settle(items[j])];
      pending := pending - {j};
    }
  }

  /**
   * One table's block with each lookup's result stored in its fragment's
   * slot, so that the block keeps row order whatever order the lookups
   * settle in.
   */
  method SettleRowsInOrder(rows: seq<string>, resolve: string -> string) returns (block: seq<Bear>)
    ensures block == RowsBears(rows, resolve)
  {
    var slots := SettleIntoSlots(rows, row => RowBear(row, resolve));
    assert slots == RowResults(rows, resolve);
    block := Present(slots);
  }

  /** `extractBears` with row order restored: every outcome is the row-order one. */
  method ExtractBearsInRowOrder(wikitext: string, resolve: string -> string) returns (bears: seq<Bear>)
    ensures bears == SequentialBears(TablesOf(wikitext), resolve)
  {
    var tables := Split(wikitext, TableEnd);
    ghost var wanted := TableBlocks(tables, resolve);
    bears := [];
    for t := 0 to |tables|
      invariant bears == Flatten(wanted[..t])
    {
      var block := SettleRowsInOrder(Split(tables[t], RowMarker), resolve);
      assert wanted[t] == block;
      FlattenPrefixStep(wanted, t);
      bears := bears + block;
    }
    assert wanted[..|tables|] == wanted;
  }

  // ---------------------------------------------------------------------
  // What every admissible outcome has in common

  lemma {:induction false} FlattenSameMultiset<T>(a: seq<seq<T>>, b: seq<seq<T>>)
    requires |a| == |b| && forall k :: 0 <= k < |a| ==> multiset(a[k]) == multiset(b[k])
    decreases |a|
    ensures multiset(Flatten(a)) == multiset(Flatten(b))
  {
    if |a| > 0 {
      FlattenSameMultiset(a[..|a| - 1], b[..|b| - 1]);
    }
  }

  lemma {:induction false} FlattenHolds<T>(blocks: seq<seq<T>>, k: nat)
    requires k < |blocks|
    decreases |blocks|
    ensures multiset(blocks[k]) <= multiset(Flatten(blocks))
  {
    var n := |blocks| - 1;
    if k < n {
      FlattenHolds(blocks[..n], k);
    }
  }

  lemma {:induction false} FlattenFrom<T>(blocks: seq<seq<T>>, v: T) returns (k: nat)
    requires v in Flatten(blocks)
    decreases |blocks|
    ensures k < |blocks| && v in blocks[k]
  {
    var n := |blocks| - 1;
    if v in Flatten(blocks[..n]) {
      k := FlattenFrom(blocks[..n], v);
    } else {
      k := n;
    }
  }

  function Sum(xs: seq<nat>): nat
    decreases |xs|
  {
    if |xs| == 0 then 0 else Sum(xs[..|xs| - 1]) + xs[|xs| - 1]
  }

  lemma {:induction false} FlattenBounded<T>(blocks: seq<seq<T>>, bounds: seq<nat>)
    requires |blocks| == |bounds| && forall k :: 0 <= k < |blocks| ==> |blocks[k]| <= bounds[k]
    decreases |blocks|
    ensures |Flatten(blocks)| <= Sum(bounds)
  {
    if |blocks| > 0 {
      FlattenBounded(blocks[..|blocks| - 1], bounds[..|bounds| - 1]);
    }
  }

  /**
   * The outcome in which every lookup settles in row order: the records of
   * each table in row order, tables one after the other.
   */
  function SequentialBears(tables: seq<string>, resolve: string -> string): seq<Bear> {
    Flatten(TableBlocks(tables, resolve))
  }

  /** The number of row fragments over all tables. */
  function FragmentCount(tables: seq<string>): nat {
    Sum(seq(|tables|, k requires 0 <= k < |tables| => |RowsOf(tables[k])|))
  }

  /** Settling every lookup in row order is one of the outcomes the source can produce. */
  lemma SequentialIsAdmissible(wikitext: string, resolve: string -> string)
    ensures Admissible(SequentialBears(TablesOf(wikitext), resolve), wikitext, resolve)
  {
    var wanted := TableBlocks(TablesOf(wikitext), resolve);
    assert SameBlocks(wanted, wanted);
  }

  /** Whatever order the lookups settle in, the same records come out, each as often. */
  lemma AdmissibleSameRecords(bears: seq<Bear>, wikitext: string, resolve: string -> string)
    requires Admissible(bears, wikitext, resolve)
    ensures multiset(bears) == multiset(SequentialBears(TablesOf(wikitext), resolve))
    ensures |bears| == |SequentialBears(TablesOf(wikitext), resolve)|
  {
    var tables := TablesOf(wikitext);
    var blocks :| SameBlocks(blocks, TableBlocks(tables, resolve)) && bears == Flatten(blocks);
    FlattenSameMultiset(blocks, TableBlocks(tables, resolve));
    assert |multiset(bears)| == |bears|;
  }

  lemma SequentialAtMostOnePerFragment(tables: seq<string>, resolve: string -> string)
    ensures |SequentialBears(tables, resolve)| <= FragmentCount(tables)
  {
    var blocks := TableBlocks(tables, resolve);
    var sizes := seq(|tables|, k requires 0 <= k < |tables| => |RowsOf(tables[k])|);
    forall k | 0 <= k < |blocks| ensures |blocks[k]| <= sizes[k] {
      RowsBearsAtMostOnePerRow(RowsOf(tables[k]), resolve);
    }
    FlattenBounded(blocks, sizes);
  }

  /** No outcome holds more records than the document has row fragments. */
  lemma AdmissibleAtMostOnePerFragment(bears: seq<Bear>, wikitext: string, resolve: string -> string)
    requires Admissible(bears, wikitext, resolve)
    ensures |bears| <= FragmentCount(TablesOf(wikitext))
  {
    AdmissibleSameRecords(bears, wikitext, resolve);
    SequentialAtMostOnePerFragment(TablesOf(wikitext), resolve);
  }

  /** Every record of an outcome is what some row fragment of some table yields. */
  lemma AdmissibleFromFragments(bears: seq<Bear>, wikitext: string, resolve: string -> string, b: Bear)
    returns (k: nat, i: nat)
    requires Admissible(bears, wikitext, resolve) && b in bears
    ensures k < |TablesOf(wikitext)| && i < |RowsOf(TablesOf(wikitext)[k])|
    ensures RowBear(RowsOf(TablesOf(wikitext)[k])[i], resolve) == Some(b)
  {
    var tables := TablesOf(wikitext);
    AdmissibleSameRecords(bears, wikitext, resolve);
    assert b in multiset(bears);
    k := FlattenFrom(TableBlocks(tables, resolve), b);
    i := RowsBearsFromRows(RowsOf(tables[k]), resolve, b);
  }

  /** Conversely, the record of every row fragment of every table is in every outcome. */
  lemma FragmentsInAdmissible(bears: seq<Bear>, wikitext: string, resolve: string -> string, k: nat, i: nat)
    requires Admissible(bears, wikitext, resolve)
    requires k < |TablesOf(wikitext)| && i < |RowsOf(TablesOf(wikitext)[k])|
    requires RowBear(RowsOf(TablesOf(wikitext)[k])[i], resolve).Some?
    ensures RowBear(RowsOf(TablesOf(wikitext)[k])[i], resolve).value in bears
  {
    var tables := TablesOf(wikitext);
    var rows := RowsOf(tables[k]);
    var b := RowBear(rows[i], resolve).value;
    RowsBearsAround(rows, i, resolve);
    PresentSingle(RowBear(rows[i], resolve));
    assert b in TableBears(tables[k], resolve);
    FlattenHolds(TableBlocks(tables, resolve), k);
    assert b in multiset(SequentialBears(tables, resolve));
    AdmissibleSameRecords(bears, wikitext, resolve);
    assert b in multiset(bears);
  }

  /** An empty document yields no records at all. */
  lemma EmptyDocumentHasNoBears(bears: seq<Bear>, resolve: string -> string)
    requires Admissible(bears, "", resolve)
    ensures bears == []
  {
    SplitWithoutSeparator("", TableEnd);
    SplitWithoutSeparator("", RowMarker);
    assert TablesOf("") == [""] && RowsOf("") == [""];
    ExecSomeIffMatches(NamePattern, "");
    assert RowBear("", resolve).None?;
    SkippedRowIsInvisible([""], 0, resolve);
    assert TableBears("", resolve) == [];
    assert TableBlocks([""], resolve) == [[]];
    assert Flatten(TableBlocks([""], resolve)) == [];
    AdmissibleSameRecords(bears, "", resolve);
  }

  /** The image of every record of an outcome is what the resolver returned for some file name. */
  lemma ImagesComeFromResolver(bears: seq<Bear>, wikitext: string, resolve: string -> string, b: Bear)
    returns (fileName: string)
    requires Admissible(bears, wikitext, resolve) && b in bears
    ensures b.image == resolve(fileName)
  {
    var k, i := AdmissibleFromFragments(bears, wikitext, resolve, b);
    var _, _, _, imageCap, _, _ := RowBearFields(RowsOf(TablesOf(wikitext)[k])[i], resolve);
    fileName := FileName(imageCap);
  }

  /**
   * The resolver of `src/services/bearImageService.ts`, answering through
   * `lookup` and `available`, plugged in as the extractor's resolver.
   */
  function ImageService(lookup: BearImageService.ImageQuery -> BearImageService.LookupOutcome,
                        available: string -> bool): string -> string {
    fileName => BearImageService.FetchImageUrl(fileName, lookup, available).image
  }

  /**
   * With that resolver, every record's image is either the
   * placeholder or a URL the availability check accepted.
   */
  lemma ImagesAreAvailableOrPlaceholder(bears: seq<Bear>, wikitext: string,
                                        lookup: BearImageService.ImageQuery -> BearImageService.LookupOutcome,
                                        available: string -> bool, b: Bear)
    requires Admissible(bears, wikitext, ImageService(lookup, available))
    requires b in bears
    ensures b.image == BearImageService.Placeholder || available(b.image)
  {
    var fileName := ImagesComeFromResolver(bears, wikitext, ImageService(lookup, available), b);
    var r := BearImageService.FetchImageUrl(fileName, lookup, available);
    assert b.image == r.image;
  }
}
