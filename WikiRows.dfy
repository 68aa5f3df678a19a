/**
 * Rows and tables written from their fields in one fixed layout, and what
 * the species extractor makes of them: a row written from well-formed
 * fields yields the record of those fields (name and binomial verbatim, the
 * range verbatim unless empty, then `Unknown`, and as image the resolver's
 * answer for the file name), and a table of such rows yields one record per
 * row. A sample polar bear row is an instance.
 */
module WikiRows {
  import opened Text
  import opened BearList
  import BearImageService

  /** The fields of one species row; `note` is the parenthesised remark after the range. */
  datatype RowFields = RowFields(name: string, binomial: string, imageFile: string, range: string, note: string)

  /** Text that neither starts a field nor a marker, nor ends a line. */
  predicate Inline(t: string) {
    '|' !in t && '{' !in t && NoLineTerminator(t)
  }

  /** Fields that the row layout below can carry without changing what the patterns see. */
  predicate WellFormed(f: RowFields) {
    && Inline(f.name) && ']' !in f.name
    && Inline(f.binomial) && Inline(f.imageFile)
    && '|' !in f.range && '{' !in f.range
    && '|' !in f.note && '{' !in f.note && '(' !in f.note
  }

  function NameLine(f: RowFields): string { NameKey + f.name + LinkClose + "\n" }
  function BinomialLine(f: RowFields): string { BinomialKey + f.binomial + "\n" }
  function ImageLine(f: RowFields): string { ImageKey + f.imageFile + "\n" }
  function RangeTail(f: RowFields): string { "(" + f.note + ")\n}}" }
  function RangeLine(f: RowFields): string { RangeKey + f.range + RangeTail(f) }

  /** One row fragment as it follows a row marker. */
  function RowText(f: RowFields): string {
    NameLine(f) + BinomialLine(f) + ImageLine(f) + RangeLine(f)
  }

  /** The record the row written from `f` stands for. */
  function Expected(f: RowFields, resolve: string -> string): Bear {
    Bear(f.name, f.binomial, resolve(FileName(f.imageFile)), if f.range == "" then RangeDefault else f.range)
  }

  // ---------------------------------------------------------------------
  // One row

  /** A key that differs from `s` at offset `d` from `q` does not occur there. */
  lemma DiffersAt(s: string, key: string, q: nat, d: nat)
    requires d < |key| && q + d < |s| && s[q + d] != key[d]
    ensures !OccursAt(s, key, q)
  {
    if q + |key| <= |s| {
      assert s[q..q + |key|][d] != key[d];
    }
  }

  /**
   * A line standing at `o` whose only bar is its first character, followed
   * by a letter other than the key's second one, holds no occurrence of the key.
   */
  lemma LineSkipsKey(s: string, o: nat, line: string, key: string)
    requires 2 <= |line| && 2 <= |key| && o + |line| <= |s| && s[o..o + |line|] == line
    requires key[0] !in line[1..] && line[1] != key[1]
    ensures forall q: nat :: o <= q < o + |line| ==> !OccursAt(s, key, q)
  {
    forall q: nat | o <= q < o + |line| ensures !OccursAt(s, key, q) {
      if q == o {
        assert s[o + 1] == line[1];
        DiffersAt(s, key, q, 1);
      } else {
        assert s[q] == line[1..][q - o - 1];
        DiffersAt(s, key, q, 0);
      }
    }
  }

  lemma LinesHaveOneBar(f: RowFields)
    requires '|' !in f.name && '|' !in f.binomial && '|' !in f.imageFile
    ensures '|' !in NameLine(f)[1..] && NameLine(f)[1] == 'n'
    ensures '|' !in BinomialLine(f)[1..] && BinomialLine(f)[1] == 'b'
    ensures '|' !in ImageLine(f)[1..] && ImageLine(f)[1] == 'i'
  {
    assert NameLine(f)[1..] == NameKey[1..] + f.name + LinkClose + "\n";
    assert BinomialLine(f)[1..] == BinomialKey[1..] + f.binomial + "\n";
    assert ImageLine(f)[1..] == ImageKey[1..] + f.imageFile + "\n";
  }

  /** A capture at the first occurrence of the pattern's key is what `exec` reports. */
  lemma ExecAtFirstKey(pat: Pattern, s: string, p: nat, cap: string)
    requires p <= |s| && Captures(pat, s, p, cap)
    requires forall q: nat :: q < p ==> !OccursAt(s, Key(pat), q)
    ensures Exec(pat, s) == Some(cap)
  {
    forall q: nat, other: string | q < p ensures !Captures(pat, s, q, other) {
      KeyThenCapture(s, Key(pat), q, other);
    }
    ExecComplete(pat, s, p, cap);
  }

  lemma NameCaptured(f: RowFields)
    requires WellFormed(f)
    ensures Exec(NamePattern, RowText(f)) == Some(f.name)
  {
    var s := RowText(f);
    var a := NameKey + f.name;
    assert s == a + LinkClose + ("\n" + BinomialLine(f) + ImageLine(f) + RangeLine(f));
    assert s[..|a|] == a;
    assert s[|a|..|a| + 2] == LinkClose;
    forall j: nat | |NameKey| <= j < |a| ensures !OccursAt(s, LinkClose, j) {
      assert s[j] == f.name[j - |NameKey|];
      DiffersAt(s, LinkClose, j, 0);
    }
    ExecAtFirstKey(NamePattern, s, 0, f.name);
  }

  lemma BinomialCaptured(f: RowFields)
    requires WellFormed(f)
    ensures Exec(BinomialPattern, RowText(f)) == Some(f.binomial)
  {
    var s := RowText(f);
    var p := |NameLine(f)|;
    var a := BinomialKey + f.binomial;
    assert s == NameLine(f) + a + ("\n" + ImageLine(f) + RangeLine(f));
    assert s[p..p + |a|] == a;
    assert s[p + |a|] == '\n';
    assert s[0..p] == NameLine(f);
    LinesHaveOneBar(f);
    LineSkipsKey(s, 0, NameLine(f), BinomialKey);
    ExecAtFirstKey(BinomialPattern, s, p, f.binomial);
  }

  lemma ImageCaptured(f: RowFields)
    requires WellFormed(f)
    ensures Exec(ImagePattern, RowText(f)) == Some(f.imageFile)
  {
    var s := RowText(f);
    var p1 := |NameLine(f)|;
    var p := p1 + |BinomialLine(f)|;
    var a := ImageKey + f.imageFile;
    assert s == NameLine(f) + BinomialLine(f) + a + ("\n" + RangeLine(f));
    assert s[p..p + |a|] == a;
    assert s[p + |a|] == '\n';
    assert s[0..p1] == NameLine(f);
    assert s[p1..p] == BinomialLine(f);
    LinesHaveOneBar(f);
    LineSkipsKey(s, 0, NameLine(f), ImageKey);
    LineSkipsKey(s, p1, BinomialLine(f), ImageKey);
    ExecAtFirstKey(ImagePattern, s, p, f.imageFile);
  }

  function RangeStart(f: RowFields): nat {
    |NameLine(f)| + |BinomialLine(f)| + |ImageLine(f)|
  }

  lemma RangeFits(f: RowFields)
    requires WellFormed(f)
    ensures RangeStart(f) <= |RowText(f)| && Captures(RangePattern, RowText(f), RangeStart(f), f.range)
  {
    var s := RowText(f);
    var a := RangeKey + f.range;
    var tail := RangeTail(f);
    var p := RangeStart(f);
    assert s == NameLine(f) + BinomialLine(f) + ImageLine(f) + a + tail;
    assert s[p..p + |a|] == a;
    var m := p + |a|;
    var after := f.note + ")\n}}";
    assert s[m..] == tail == "(" + after;
    assert '(' !in after;
    SliceOfSuffix(s, m, 1);
    forall j | m < j < |s| ensures s[j] != '(' {
      assert s[j] == after[j - m - 1];
    }
  }

  lemma RangeKeyFirst(f: RowFields)
    requires WellFormed(f)
    ensures forall q: nat :: q < RangeStart(f) ==> !OccursAt(RowText(f), RangeKey, q)
  {
    var s := RowText(f);
    var p1 := |NameLine(f)|;
    var p2 := p1 + |BinomialLine(f)|;
    assert s == NameLine(f) + BinomialLine(f) + ImageLine(f) + RangeLine(f);
    assert s[0..p1] == NameLine(f);
    assert s[p1..p2] == BinomialLine(f);
    assert s[p2..RangeStart(f)] == ImageLine(f);
    LinesHaveOneBar(f);
    LineSkipsKey(s, 0, NameLine(f), RangeKey);
    LineSkipsKey(s, p1, BinomialLine(f), RangeKey);
    LineSkipsKey(s, p2, ImageLine(f), RangeKey);
  }

  lemma RangeCaptured(f: RowFields)
    requires WellFormed(f)
    ensures Exec(RangePattern, RowText(f)) == Some(f.range)
  {
    RangeFits(f);
    RangeKeyFirst(f);
    ExecAtFirstKey(RangePattern, RowText(f), RangeStart(f), f.range);
  }

  /**
   * Round trip of one row: the fragment written from well-formed fields
   * yields exactly the record of those fields.
   */
  lemma RowTextYields(f: RowFields, resolve: string -> string)
    requires WellFormed(f)
    ensures RowBear(RowText(f), resolve) == Some(Expected(f, resolve))
  {
    NameCaptured(f);
    BinomialCaptured(f);
    ImageCaptured(f);
    RangeCaptured(f);
  }

  // ---------------------------------------------------------------------
  // One table

  function RowTexts(fs: seq<RowFields>): (r: seq<string>)
    ensures |r| == |fs|
  {
    seq(|fs|, i requires 0 <= i < |fs| => RowText(fs[i]))
  }

  /** A species table written from `fs`: every row preceded by the row marker. */
  function TableText(fs: seq<RowFields>): string {
    Join([""] + RowTexts(fs), RowMarker)
  }

  /** The records of the rows, in row order. */
  function ExpectedRows(fs: seq<RowFields>, resolve: string -> string): (r: seq<Bear>)
    ensures |r| == |fs|
  {
    seq(|fs|, i requires 0 <= i < |fs| => Expected(fs[i], resolve))
  }

  predicate AllWellFormed(fs: seq<RowFields>) {
    forall i :: 0 <= i < |fs| ==> WellFormed(fs[i])
  }

  lemma NoBraceInRowText(f: RowFields)
    requires WellFormed(f)
    ensures '{' !in RowText(f)
  {
    assert RowText(f) == NameKey + f.name + LinkClose + "\n" + BinomialKey + f.binomial + "\n"
                       + ImageKey + f.imageFile + "\n" + RangeKey + f.range + "(" + f.note + ")\n}}";
  }

  /** The table's fragments are the empty text before the first marker, then the rows. */
  lemma TableRows(fs: seq<RowFields>)
    requires AllWellFormed(fs)
    ensures RowsOf(TableText(fs)) == [""] + RowTexts(fs)
  {
    var parts := [""] + RowTexts(fs);
    forall k | 0 <= k < |parts| ensures RowMarker[0] !in parts[k] {
      if k > 0 {
        NoBraceInRowText(fs[k - 1]);
      }
    }
    SplitJoinInverse(parts, RowMarker);
  }

  /** With every value present, `Present` keeps them all, position for position. */
  lemma {:induction false} PresentAllSome<T>(xs: seq<Option<T>>)
    requires forall i :: 0 <= i < |xs| ==> xs[i].Some?
    decreases |xs|
    ensures |Present(xs)| == |xs| && forall i :: 0 <= i < |xs| ==> Present(xs)[i] == xs[i].value
  {
    if |xs| > 0 {
      var init := xs[..|xs| - 1];
      PresentAllSome(init);
      assert Present(xs) == Present(init) + [xs[|xs| - 1].value];
    }
  }

  /** The empty fragment before the first row marker yields nothing. */
  lemma EmptyFragmentYieldsNothing(resolve: string -> string)
    ensures RowBear("", resolve).None?
  {
    ExecSomeIffMatches(NamePattern, "");
  }

  /** Round trip of one table: its records are the rows' records, in row order. */
  lemma TableTextBears(fs: seq<RowFields>, resolve: string -> string)
    requires AllWellFormed(fs)
    ensures TableBears(TableText(fs), resolve) == ExpectedRows(fs, resolve)
  {
    TableRows(fs);
    var texts := RowTexts(fs);
    RowsBearsAppend([""], texts, resolve);
    EmptyFragmentYieldsNothing(resolve);
    assert RowResults([""], resolve) == [RowBear("", resolve)];
    PresentSingle(RowBear("", resolve));
    RowTextsBears(fs, resolve);
  }

  lemma RowTextsBears(fs: seq<RowFields>, resolve: string -> string)
    requires AllWellFormed(fs)
    ensures RowsBears(RowTexts(fs), resolve) == ExpectedRows(fs, resolve)
  {
    var results := RowResults(RowTexts(fs), resolve);
    forall i | 0 <= i < |fs| ensures results[i] == Some(Expected(fs[i], resolve)) {
      RowTextYields(fs[i], resolve);
    }
    PresentAllSome(results);
  }

  /** `OccursAt` seen from the second part of a concatenation. */
  lemma OccursAtShift(a: string, b: string, key: string, q: nat)
    ensures OccursAt(a + b, key, |a| + q) ==> OccursAt(b, key, q)
  {
    if |a| + q + |key| <= |a + b| {
      assert (a + b)[|a| + q..|a| + q + |key|] == b[q..q + |key|];
    }
  }

  /** Text made of brace-free parts and row markers never holds the table end marker. */
  lemma {:induction false} NoTableEndInRows(parts: seq<string>)
    requires |parts| >= 1 && forall k :: 0 <= k < |parts| ==> '{' !in parts[k]
    decreases |parts|
    ensures forall q: nat :: !OccursAt(Join(parts, RowMarker), TableEnd, q)
  {
    if |parts| == 1 {
      NoOccurrenceWithoutFirstChar(parts[0], TableEnd);
    } else {
      var p0 := parts[0];
      var rest := Join(parts[1..], RowMarker);
      NoTableEndInRows(parts[1..]);
      var s := p0 + RowMarker + rest;
      assert Join(parts, RowMarker) == s;
      var off := |p0| + |RowMarker|;
      assert '{' !in RowMarker[2..];
      forall q: nat ensures !OccursAt(s, TableEnd, q) {
        if q < |p0| {
          assert s[q] == p0[q];
          DiffersAt(s, TableEnd, q, 0);
        } else if q == |p0| {
          assert s[q + 16] == RowMarker[16];
          DiffersAt(s, TableEnd, q, 16);
        } else if q == |p0| + 1 {
          assert s[q + 1] == RowMarker[2];
          DiffersAt(s, TableEnd, q, 1);
        } else if q < off {
          assert s[q] == RowMarker[2..][q - |p0| - 2];
          DiffersAt(s, TableEnd, q, 0);
        } else {
          OccursAtShift(p0 + RowMarker, rest, TableEnd, q - off);
        }
      }
    }
  }

  /** A document holding one written table is a single block. */
  lemma TableIsOneBlock(fs: seq<RowFields>)
    requires AllWellFormed(fs)
    ensures TablesOf(TableText(fs)) == [TableText(fs)]
  {
    var parts := [""] + RowTexts(fs);
    forall k | 0 <= k < |parts| ensures '{' !in parts[k] {
      if k > 0 {
        NoBraceInRowText(fs[k - 1]);
      }
    }
    NoTableEndInRows(parts);
    SplitWithoutSeparator(TableText(fs), TableEnd);
  }

  /** On a single block, any ordering of that block's records is an outcome. */
  lemma AdmissibleOfOneTable(doc: string, resolve: string -> string, block: seq<Bear>)
    requires TablesOf(doc) == [doc] && multiset(block) == multiset(TableBears(doc, resolve))
    ensures Admissible(block, doc, resolve)
  {
    var w := [block];
    assert TableBlocks([doc], resolve) == [TableBears(doc, resolve)];
    assert Flatten(w) == Flatten(w[..0]) + block;
    assert SameBlocks(w, TableBlocks(TablesOf(doc), resolve));
  }

  lemma SequentialOfOneTable(doc: string, resolve: string -> string)
    requires TablesOf(doc) == [doc]
    ensures SequentialBears(TablesOf(doc), resolve) == TableBears(doc, resolve)
  {
    assert TableBlocks([doc], resolve) == [TableBears(doc, resolve)];
    assert Flatten([TableBears(doc, resolve)]) == Flatten([TableBears(doc, resolve)][..0]) + TableBears(doc, resolve);
  }

  /** Settling every lookup in row order lists the rows' records in row order. */
  lemma TableDocumentSequential(fs: seq<RowFields>, resolve: string -> string)
    requires AllWellFormed(fs)
    ensures SequentialBears(TablesOf(TableText(fs)), resolve) == ExpectedRows(fs, resolve)
  {
    TableIsOneBlock(fs);
    SequentialOfOneTable(TableText(fs), resolve);
    TableTextBears(fs, resolve);
  }

  /** Every outcome on a written table holds exactly the rows' records, each once per row, in some order. */
  lemma TableDocumentOutcomes(fs: seq<RowFields>, bears: seq<Bear>, resolve: string -> string)
    requires AllWellFormed(fs) && Admissible(bears, TableText(fs), resolve)
    ensures multiset(bears) == multiset(ExpectedRows(fs, resolve))
  {
    TableDocumentSequential(fs, resolve);
    AdmissibleSameRecords(bears, TableText(fs), resolve);
  }

  /** Conversely, every ordering of the rows' records is an outcome. */
  lemma TableDocumentAnyOrder(fs: seq<RowFields>, bears: seq<Bear>, resolve: string -> string)
    requires AllWellFormed(fs) && multiset(bears) == multiset(ExpectedRows(fs, resolve))
    ensures Admissible(bears, TableText(fs), resolve)
  {
    TableIsOneBlock(fs);
    TableTextBears(fs, resolve);
    AdmissibleOfOneTable(TableText(fs), resolve, bears);
  }

  lemma SingletonMultiset<T>(xs: seq<T>, x: T)
    requires multiset(xs) == multiset([x])
    ensures xs == [x]
  {
    assert |xs| == |multiset(xs)| == 1;
    assert xs[0] in multiset(xs);
  }

  /** A table of one row has that row's record as its only outcome. */
  lemma OneRowDocument(fs: seq<RowFields>, bears: seq<Bear>, resolve: string -> string)
    requires |fs| == 1 && AllWellFormed(fs) && Admissible(bears, TableText(fs), resolve)
    ensures bears == [Expected(fs[0], resolve)]
  {
    TableIsOneBlock(fs);
    TableTextBears(fs, resolve);
    assert ExpectedRows(fs, resolve)[0] == Expected(fs[0], resolve);
    OneRecordOutcome(TableText(fs), bears, resolve);
  }

  /** A single block holding one record has that record as its only outcome. */
  lemma OneRecordOutcome(doc: string, bears: seq<Bear>, resolve: string -> string)
    requires TablesOf(doc) == [doc] && |TableBears(doc, resolve)| == 1 && Admissible(bears, doc, resolve)
    ensures bears == [TableBears(doc, resolve)[0]]
  {
    var rows := TableBears(doc, resolve);
    AdmissibleSameRecords(bears, doc, resolve);
    SequentialOfOneTable(doc, resolve);
    assert rows == [rows[0]];
    SingletonMultiset(bears, rows[0]);
  }

  lemma PairOf<T>(xs: seq<T>)
    requires |xs| == 2
    ensures xs == [xs[0], xs[1]]
  {
  }

  /** A single block of two records: both orders are outcomes, and row order is the sequential one. */
  lemma TwoRowOrders(doc: string, resolve: string -> string)
    requires TablesOf(doc) == [doc] && |TableBears(doc, resolve)| == 2
    ensures var rows := TableBears(doc, resolve);
      && Admissible([rows[1], rows[0]], doc, resolve)
      && SequentialBears(TablesOf(doc), resolve) == [rows[0], rows[1]]
  {
    var rows := TableBears(doc, resolve);
    PairOf(rows);
    SwapSameMultiset(rows[0], rows[1]);
    AdmissibleOfOneTable(doc, resolve, [rows[1], rows[0]]);
    SequentialOfOneTable(doc, resolve);
  }

  lemma SwapSameMultiset<T>(a: T, b: T)
    ensures multiset([b, a]) == multiset([a, b])
  {
    assert [b, a] == [b] + [a] && [a, b] == [a] + [b];
  }

  /**
   * Within one table the source keeps completion order: for a table of two
   * rows, the outcome in which the second row's lookup settles first is
   * possible, while row order puts the first row's record first.
   */
  lemma CompletionOrderCanReverse(f1: RowFields, f2: RowFields, resolve: string -> string)
    requires WellFormed(f1) && WellFormed(f2)
    ensures Admissible([Expected(f2, resolve), Expected(f1, resolve)], TableText([f1, f2]), resolve)
    ensures SequentialBears(TablesOf(TableText([f1, f2])), resolve) == [Expected(f1, resolve), Expected(f2, resolve)]
  {
    TableIsOneBlock([f1, f2]);
    TableTextBears([f1, f2], resolve);
    var rows := ExpectedRows([f1, f2], resolve);
    assert rows[0] == Expected(f1, resolve) && rows[1] == Expected(f2, resolve);
    TwoRowOrders(TableText([f1, f2]), resolve);
  }

  /** The row-order extraction returns the rows' records in row order. */
  method ExtractTableInRowOrder(fs: seq<RowFields>, resolve: string -> string) returns (bears: seq<Bear>)
    requires AllWellFormed(fs)
    ensures bears == ExpectedRows(fs, resolve)
  {
    bears := ExtractBearsInRowOrder(TableText(fs), resolve);
    TableDocumentSequential(fs, resolve);
  }

  // ---------------------------------------------------------------------
  // A sample row: the polar bear

  const PolarFields := RowFields("Polar bear", "Ursus maritimus", "Polar_bear.jpg", "Arctic ", "circumpolar")
  const BrownFields := RowFields("Brown bear", "Ursus arctos", "Brown_bear.jpg", "Eurasia ", "Holarctic")

  /** Letters, digits, spaces, `_`, `.` and `,`: characters no pattern gives a meaning to. */
  predicate PlainChar(c: char) {
    ('a' <= c <= 'z') || ('A' <= c <= 'Z') || ('0' <= c <= '9') || c == ' ' || c == '_' || c == '.' || c == ','
  }

  predicate Plain(t: string) {
    forall i :: 0 <= i < |t| ==> PlainChar(t[i])
  }

  lemma PlainFieldsWellFormed(f: RowFields)
    requires Plain(f.name) && Plain(f.binomial) && Plain(f.imageFile) && Plain(f.range) && Plain(f.note)
    ensures WellFormed(f)
  {
  }

  lemma OneWellFormed(f: RowFields)
    requires WellFormed(f)
    ensures AllWellFormed([f])
  {
  }

  lemma PolarWellFormed()
    ensures WellFormed(PolarFields)
  {
    assert Plain("Polar bear");
    assert Plain("Ursus maritimus");
    assert Plain("Polar_bear.jpg");
    assert Plain("Arctic ");
    assert Plain("circumpolar");
    PlainFieldsWellFormed(PolarFields);
  }

  lemma BrownWellFormed()
    ensures WellFormed(BrownFields)
  {
    assert Plain("Brown bear");
    assert Plain("Ursus arctos");
    assert Plain("Brown_bear.jpg");
    assert Plain("Eurasia ");
    assert Plain("Holarctic");
    PlainFieldsWellFormed(BrownFields);
  }

  /** A plain file name passes through trimming and the `File:` removal unchanged. */
  lemma PlainFileName(name: string)
    requires |name| > 0 && !IsWhitespace(name[0]) && !IsWhitespace(name[|name| - 1]) && 'F' !in name
    ensures FileName(name) == name
  {
    TrimKeepsUnpadded(name);
    NoOccurrenceWithoutFirstChar(name, BearImageService.FilePrefix);
  }

  /**
   * A table of one row whose image file the resolver maps to `u`: the only
   * outcome is the row's record with `u` as its image.
   */
  lemma OneRowWithImage(fs: seq<RowFields>, bears: seq<Bear>, resolve: string -> string, u: string)
    requires |fs| == 1 && AllWellFormed(fs) && resolve(FileName(fs[0].imageFile)) == u
    requires Admissible(bears, TableText(fs), resolve)
    ensures bears == [Bear(fs[0].name, fs[0].binomial, u, if fs[0].range == "" then RangeDefault else fs[0].range)]
  {
    OneRowDocument(fs, bears, resolve);
  }

  /** The `src/services` image resolver finds an available first URL `u` for the polar bear's file. */
  lemma PolarImageResolves(lookup: BearImageService.ImageQuery -> BearImageService.LookupOutcome,
                           available: string -> bool, u: string)
    requires lookup(BearImageService.QueryFor("Polar_bear.jpg"))
          == BearImageService.Pages([BearImageService.Page(Some([BearImageService.ImageInfo(Some(u))] + []))] + [])
    requires available(u)
    ensures ImageService(lookup, available)("Polar_bear.jpg") == u
  {
    BearImageService.FirstUrlAvailable("Polar_bear.jpg", lookup, available, u, [], []);
  }

  /**
   * The polar bear table, with a resolver that maps `Polar_bear.jpg` to `u`
   * (as the `src/services` image resolver does when the lookup finds an available URL, see
   * `PolarImageResolves`): every outcome is the one record, whose range
   * keeps the space before the parenthesis.
   */
  lemma PolarScenario(bears: seq<Bear>, resolve: string -> string, u: string)
    requires resolve("Polar_bear.jpg") == u
    requires Admissible(bears, TableText([PolarFields]), resolve)
    ensures bears == [Bear("Polar bear", "Ursus maritimus", u, "Arctic ")]
  {
    PolarRowFacts();
    OneRowWithImage([PolarFields], bears, resolve, u);
  }

  lemma PolarRowFacts()
    ensures AllWellFormed([PolarFields]) && FileName([PolarFields][0].imageFile) == "Polar_bear.jpg"
  {
    PolarWellFormed();
    OneWellFormed(PolarFields);
    PlainFileName("Polar_bear.jpg");
  }

  /** Polar bear row first, brown bear row second: the reverse order is a possible outcome. */
  lemma ReversedExample(resolve: string -> string)
    ensures var doc := TableText([PolarFields, BrownFields]);
      var reversed := [Expected(BrownFields, resolve), Expected(PolarFields, resolve)];
      Admissible(reversed, doc, resolve) && reversed != SequentialBears(TablesOf(doc), resolve)
  {
    PolarWellFormed();
    BrownWellFormed();
    CompletionOrderCanReverse(PolarFields, BrownFields, resolve);
    assert Expected(BrownFields, resolve).name != Expected(PolarFields, resolve).name;
  }
}
