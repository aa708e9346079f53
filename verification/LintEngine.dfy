/** src/editor/models.py and src/editor/lint_engine.py: positions, line offsets and quick fixes. */
module LintEngine {
  import opened Options
  import opened TextEdits

  // ---- positions and ranges ----

  /** One-based line and column. */
  datatype Position = Position(line: nat, column: nat)

  predicate Before(a: Position, b: Position) {
    a.line < b.line || (a.line == b.line && a.column < b.column)
  }

  /** A half-open range; its constructor refuses a start after the end. */
  datatype Range = Range(start: Position, end: Position)

  predicate ValidRange(r: Range) {
    r.start.line >= 1 && r.start.column >= 1 && r.end.line >= 1 && r.end.column >= 1 && !Before(r.end, r.start)
  }

  predicate Contains(r: Range, p: Position) {
    !Before(p, r.start) && Before(p, r.end)
  }

  function Later(a: Position, b: Position): Position {
    if Before(a, b) then b else a
  }

  function Earlier(a: Position, b: Position): Position {
    if Before(b, a) then b else a
  }

  predicate Overlaps(a: Range, b: Range) {
    Before(Later(a.start, b.start), Earlier(a.end, b.end))
  }

  /** Two ranges overlap exactly when some position lies in both. */
  lemma OverlapsIsShared(a: Range, b: Range)
    ensures Overlaps(a, b) <==> exists p :: Contains(a, p) && Contains(b, p)
  {
    var m := Later(a.start, b.start);
    if Overlaps(a, b) {
      assert Contains(a, m) && Contains(b, m);
    }
  }

  // ---- lines ----

  /** The characters at which Python's splitlines ends a line. */
  predicate Separator(c: char) {
    c in ['\n', '\r', '\U{B}', '\U{C}', '\U{1C}', '\U{1D}', '\U{1E}', '\U{85}', '\U{2028}', '\U{2029}']
  }

  /** How many characters the first line has, with its line break. */
  function FirstLine(s: string): (n: nat)
    requires s != []
    ensures 1 <= n <= |s|
  {
    if s[0] == '\r' && |s| > 1 && s[1] == '\n' then 2
    else if Separator(s[0]) || |s| == 1 then 1
    else 1 + FirstLine(s[1..])
  }

  /** splitlines(keepends=True). */
  function SplitLines(s: string): seq<string> {
    if s == [] then [] else [s[..FirstLine(s)]] + SplitLines(s[FirstLine(s)..])
  }

  function RawLines(s: string): (r: seq<string>)
    ensures r != []
  {
    if s == [] then [""] else SplitLines(s)
  }

  /** The length of a line without the line feeds and carriage returns that apply_quick_fix cuts
      off; a rarer separator stays. */
  function ContentLength(line: string): (n: nat)
    ensures n <= |line|
  {
    var k := |line|;
    if k >= 2 && line[k - 2] == '\r' && line[k - 1] == '\n' then k - 2
    else if k >= 1 && (line[k - 1] == '\r' || line[k - 1] == '\n') then k - 1
    else k
  }

  /** A line break that only splitlines knows. */
  predicate RareBreak(line: string) {
    line != [] && Separator(line[|line|-1]) && ContentLength(line) == |line|
  }

  function LineStart(lines: seq<string>, k: nat): nat
    requires k <= |lines|
  {
    if k == 0 then 0 else LineStart(lines, k - 1) + |lines[k - 1]|
  }

  /** pos_to_offset; None for its IndexError. */
  function OffsetOf(lines: seq<string>, p: Position): Option<nat> {
    if p.line < 1 || p.line > |lines| then None
    else if p.column < 1 || p.column > ContentLength(lines[p.line - 1]) + 1 then None
    else Some(LineStart(lines, p.line - 1) + (p.column - 1))
  }

  lemma {:induction false} LineStartShift(l: string, lines: seq<string>, k: nat)
    requires k <= |lines|
    ensures LineStart([l] + lines, k + 1) == |l| + LineStart(lines, k)
  {
    if k > 0 {
      LineStartShift(l, lines, k - 1);
    } else {
      assert LineStart([l] + lines, 0) == 0;
    }
  }

  /** A line that is not the last ends in a line break. */
  lemma {:induction false} FirstLineBreaks(s: string)
    requires s != [] && FirstLine(s) < |s|
    ensures Separator(s[FirstLine(s) - 1])
  {
    if !Separator(s[0]) {
      FirstLineBreaks(s[1..]);
    }
  }

  /** The lines tile the text, none is empty, and all but the last end in a line break. */
  lemma {:induction false} LinesTile(s: string)
    ensures LineStart(SplitLines(s), |SplitLines(s)|) == |s|
    ensures forall i :: 0 <= i < |SplitLines(s)| ==> SplitLines(s)[i] != []
    ensures forall i :: 0 <= i < |SplitLines(s)| - 1 ==> Separator(SplitLines(s)[i][|SplitLines(s)[i]| - 1])
    decreases |s|
  {
    hide Separator;
    if s != [] {
      var n := FirstLine(s);
      var rest := SplitLines(s[n..]);
      LinesTile(s[n..]);
      LineStartShift(s[..n], rest, |rest|);
      if n < |s| {
        FirstLineBreaks(s);
      }
    }
  }

  lemma {:induction false} LineStartRises(lines: seq<string>, a: nat, b: nat)
    requires a <= b <= |lines|
    ensures LineStart(lines, a) <= LineStart(lines, b)
    ensures a < b && (forall i :: 0 <= i < |lines| ==> lines[i] != []) ==> LineStart(lines, a) < LineStart(lines, b)
  {
    if a < b {
      LineStartRises(lines, a, b - 1);
    }
  }

  /** p is the column behind a rare line break, and q the start of the next line. */
  predicate Meets(lines: seq<string>, p: Position, q: Position) {
    && 1 <= p.line < |lines| && p.column == |lines[p.line - 1]| + 1 && RareBreak(lines[p.line - 1])
    && q == Position(p.line + 1, 1)
  }

  /** Offsets of valid positions lie in the text and never fall; two positions have the same
      offset only around a rare line break. */
  lemma OffsetMonotone(s: string, p: Position, q: Position)
    requires OffsetOf(RawLines(s), p).Some? && OffsetOf(RawLines(s), q).Some? && Before(p, q)
    ensures OffsetOf(RawLines(s), p).value <= OffsetOf(RawLines(s), q).value <= |s|
    ensures OffsetOf(RawLines(s), p) == OffsetOf(RawLines(s), q) <==> Meets(RawLines(s), p, q)
  {
    hide Separator, ContentLength, RareBreak, LineStart, OffsetOf, RawLines;
    var lines := RawLines(s);
    OffsetParts(lines, p);
    OffsetParts(lines, q);
    OffsetInLine(s, p);
    OffsetInLine(s, q);
    if p.line < q.line {
      LinesApart(s, p.line, q.line - 1);
    }
  }

  lemma OffsetParts(lines: seq<string>, p: Position)
    requires OffsetOf(lines, p).Some?
    ensures 1 <= p.line <= |lines| && 1 <= p.column <= |lines[p.line - 1]| + 1
    ensures OffsetOf(lines, p).value == LineStart(lines, p.line - 1) + (p.column - 1)
    ensures LineStart(lines, p.line) == LineStart(lines, p.line - 1) + |lines[p.line - 1]|
  {
    hide ContentLength;
  }

  lemma LinesApart(s: string, a: nat, b: nat)
    requires 1 <= a <= b < |RawLines(s)|
    ensures LineStart(RawLines(s), a) <= LineStart(RawLines(s), b)
    ensures LineStart(RawLines(s), a) == LineStart(RawLines(s), b) <==> a == b
  {
    hide Separator;
    LinesTile(s);
    LineStartRises(RawLines(s), a, b);
  }

  lemma OffsetInLine(s: string, p: Position)
    requires OffsetOf(RawLines(s), p).Some?
    ensures OffsetOf(RawLines(s), p).value <= LineStart(RawLines(s), p.line) <= |s|
    ensures p.line < |RawLines(s)| && OffsetOf(RawLines(s), p).value == LineStart(RawLines(s), p.line)
      ==> p.column == |RawLines(s)[p.line - 1]| + 1 && RareBreak(RawLines(s)[p.line - 1])
  {
    LinesTile(s);
    if s != [] {
      LineStartRises(RawLines(s), p.line, |RawLines(s)|);
    }
  }

  // ---- quick fixes ----

  datatype TextEdit = TextEdit(range: Range, newText: string)

  /** The new text, or one of the three errors of apply_quick_fix. */
  datatype Outcome = Changed(text: string) | Conflict | OutOfBounds | Overlapping

  predicate Clash(a: TextEdit, b: TextEdit) {
    Overlaps(a.range, b.range) || a.range == b.range
  }

  ghost predicate Conflicting(edits: seq<TextEdit>) {
    exists i, j :: 0 <= i < j < |edits| && Clash(edits[i], edits[j])
  }

  predicate InBounds(lines: seq<string>, e: TextEdit) {
    OffsetOf(lines, e.range.start).Some? && OffsetOf(lines, e.range.end).Some?
  }

  function ToOffsets(lines: seq<string>, e: TextEdit): Edit
    requires InBounds(lines, e)
  {
    Edit(OffsetOf(lines, e.range.start).value, OffsetOf(lines, e.range.end).value, e.newText)
  }

  function Offsets(lines: seq<string>, edits: seq<TextEdit>): (r: seq<Edit>)
    requires forall i :: 0 <= i < |edits| ==> InBounds(lines, edits[i])
    ensures |r| == |edits| && forall i :: 0 <= i < |r| ==> r[i] == ToOffsets(lines, edits[i])
  {
    seq(|edits|, i requires 0 <= i < |edits| => ToOffsets(lines, edits[i]))
  }

  predicate Separate(edits: seq<Edit>) {
    forall i :: 0 < i < |edits| ==> edits[i - 1].end <= edits[i].start
  }

  /** What apply_quick_fix answers. */
  ghost function Fixed(s: string, edits: seq<TextEdit>): Outcome {
    var lines := RawLines(s);
    if Conflicting(edits) then Conflict
    else if exists i :: 0 <= i < |edits| && !InBounds(lines, edits[i]) then OutOfBounds
    else
      var sorted := SortAsc(Offsets(lines, edits));
      if !Separate(sorted) then Overlapping else Changed(ApplyAll(s, SortDesc(sorted)))
  }

  predicate StartApart(a: Edit, b: Edit) {
    a.start != b.start
  }

  /** No two edits start at the same offset. */
  predicate StartsDiffer(lines: seq<string>, edits: seq<TextEdit>) {
    forall i, j :: 0 <= i < j < |edits| ==>
      OffsetOf(lines, edits[i].range.start) != OffsetOf(lines, edits[j].range.start)
  }

  predicate ValidRanges(edits: seq<TextEdit>) {
    forall i :: 0 <= i < |edits| ==> ValidRange(edits[i].range)
  }

  /** Without a rare line break this is about the positions alone. */
  lemma StartsDifferPlainly(s: string, edits: seq<TextEdit>)
    requires forall i :: 0 <= i < |edits| ==> InBounds(RawLines(s), edits[i])
    requires forall k :: 0 <= k < |RawLines(s)| ==> !RareBreak(RawLines(s)[k])
    ensures StartsDiffer(RawLines(s), edits) <==>
      forall i, j :: 0 <= i < j < |edits| ==> edits[i].range.start != edits[j].range.start
  {
    hide RawLines, RareBreak, OffsetOf;
    forall i, j | 0 <= i < j < |edits|
      ensures OffsetOf(RawLines(s), edits[i].range.start) == OffsetOf(RawLines(s), edits[j].range.start)
        <==> edits[i].range.start == edits[j].range.start
    {
      var p, q := edits[i].range.start, edits[j].range.start;
      assert InBounds(RawLines(s), edits[i]) && InBounds(RawLines(s), edits[j]);
      if Before(p, q) {
        OffsetMonotone(s, p, q);
      } else if Before(q, p) {
        OffsetMonotone(s, q, p);
      }
    }
  }

  /** The accepted fix is the simultaneous substitution of all its edits. */
  ghost predicate FixRight(s: string, edits: seq<TextEdit>) {
    && (forall i :: 0 <= i < |edits| ==> InBounds(RawLines(s), edits[i]))
    && var sorted := SortAsc(Offsets(RawLines(s), edits));
       Ordered(s, sorted) && Fixed(s, edits) == Changed(Substitute(s, sorted, 0))
  }

  /** An accepted fix has its edits inside the text and, sorted, one behind the other. */
  lemma AcceptedOrdered(s: string, edits: seq<TextEdit>)
    requires ValidRanges(edits) && Fixed(s, edits).Changed?
    ensures forall i :: 0 <= i < |edits| ==> InBounds(RawLines(s), edits[i])
    ensures
      var offs := Offsets(RawLines(s), edits);
      && Ordered(s, SortAsc(offs)) && Ascending(SortAsc(offs))
      && multiset(SortAsc(offs)) == multiset(offs)
  {
    hide SortAsc, SortDesc, ApplyAll, RawLines, OffsetOf, Conflicting;
    var offs := Offsets(RawLines(s), edits);
    forall i | 0 <= i < |offs|
      ensures offs[i].start <= offs[i].end <= |s|
    {
      assert ValidRange(edits[i].range) && InBounds(RawLines(s), edits[i]);
      OffsetsOrdered(s, edits[i].range.start, edits[i].range.end);
    }
    SortAscMembers(offs);
    SortAscKeeps(offs);
    SortAscOrder(offs);
    var sorted := SortAsc(offs);
    forall i | 0 <= i < |sorted|
      ensures sorted[i].start <= sorted[i].end <= |s|
    {
      assert sorted[i] in offs;
    }
  }

  lemma OffsetsOrdered(s: string, p: Position, q: Position)
    requires OffsetOf(RawLines(s), p).Some? && OffsetOf(RawLines(s), q).Some? && !Before(q, p)
    ensures OffsetOf(RawLines(s), p).value <= OffsetOf(RawLines(s), q).value <= |s|
  {
    OffsetInLine(s, q);
    if Before(p, q) {
      OffsetMonotone(s, p, q);
    }
  }

  /** Distinct starts survive the sorting, and are then distinct neighbours. */
  lemma SortedStartsDiffer(s: string, lines: seq<string>, edits: seq<TextEdit>)
    requires forall i :: 0 <= i < |edits| ==> InBounds(lines, edits[i])
    requires Ordered(s, SortAsc(Offsets(lines, edits)))
    ensures StartsDiffer(lines, edits) <==> DistinctStarts(SortAsc(Offsets(lines, edits)))
  {
    hide SortAsc, OffsetOf;
    var offs := Offsets(lines, edits);
    var sorted := SortAsc(offs);
    assert StartsDiffer(lines, edits) <==> Pairwise(offs, StartApart);
    SortAscPairwise(offs, StartApart);
    if DistinctStarts(sorted) {
      forall i, j | 0 <= i < j < |sorted|
        ensures StartApart(sorted[i], sorted[j]) && StartApart(sorted[j], sorted[i])
      {
        StartsRise(s, sorted, i, j - 1);
        StartsRise(s, sorted, j - 1, j);
      }
    }
    if Pairwise(sorted, StartApart) {
      forall i | 0 < i < |sorted|
        ensures sorted[i - 1].start != sorted[i].start
      {
        assert StartApart(sorted[i - 1], sorted[i]);
      }
    }
  }

  /** An accepted fix with pairwise distinct starts is the simultaneous substitution. */
  lemma FixIsSubstitution(s: string, edits: seq<TextEdit>)
    requires ValidRanges(edits) && Fixed(s, edits).Changed? && StartsDiffer(RawLines(s), edits)
    ensures FixRight(s, edits)
  {
    hide SortAsc, SortDesc, ApplyAll, RawLines, InBounds, StartsDiffer, ValidRanges;
    AcceptedOrdered(s, edits);
    SortedStartsDiffer(s, RawLines(s), edits);
    ReverseIsSimultaneous(s, SortAsc(Offsets(RawLines(s), edits)), 0);
    assert s[..0] == "";
  }

  /** The same ranges with other new texts. */
  function Retexted(edits: seq<TextEdit>, texts: seq<string>): (r: seq<TextEdit>)
    requires |edits| == |texts|
    ensures |r| == |edits| && forall i :: 0 <= i < |r| ==> r[i] == TextEdit(edits[i].range, texts[i])
  {
    seq(|edits|, i requires 0 <= i < |edits| => TextEdit(edits[i].range, texts[i]))
  }

  lemma RetextedOffsets(lines: seq<string>, edits: seq<TextEdit>, texts: seq<string>)
    requires |edits| == |texts| && forall i :: 0 <= i < |edits| ==> InBounds(lines, edits[i])
    ensures forall i :: 0 <= i < |edits| ==> InBounds(lines, Retexted(edits, texts)[i])
    ensures Offsets(lines, Retexted(edits, texts)) == WithTexts(Offsets(lines, edits), texts)
  {
    hide OffsetOf;
  }

  /** Whether a fix is accepted does not depend on its texts. */
  lemma RetextedAccepted(s: string, edits: seq<TextEdit>, texts: seq<string>)
    requires |edits| == |texts| && Fixed(s, edits).Changed?
    ensures Fixed(s, Retexted(edits, texts)).Changed?
    ensures StartsDiffer(RawLines(s), Retexted(edits, texts)) == StartsDiffer(RawLines(s), edits)
    ensures ValidRanges(Retexted(edits, texts)) == ValidRanges(edits)
  {
    hide SortAsc, SortDesc, ApplyAll, RawLines, InBounds, ValidRange, OffsetOf;
    var lines, w := RawLines(s), Retexted(edits, texts);
    RetextedOffsets(lines, edits, texts);
    forall i, j | 0 <= i < j < |w| ensures !Clash(w[i], w[j]) {
      assert Clash(w[i], w[j]) == Clash(edits[i], edits[j]);
    }
    var sortedTexts := SortCarries(Offsets(lines, edits), texts);
    assert forall i :: 0 <= i < |edits| ==> w[i].range == edits[i].range;
    assert forall i :: 0 <= i < |edits| ==> ValidRange(w[i].range) == ValidRange(edits[i].range);
  }

  /** Whatever its new texts, an accepted fix is their simultaneous substitution: that holds
      exactly when no two edits start at the same offset. */
  lemma FixRightIffStartsDiffer(s: string, edits: seq<TextEdit>)
    requires ValidRanges(edits) && Fixed(s, edits).Changed?
    ensures StartsDiffer(RawLines(s), edits) <==>
      forall texts: seq<string> :: |texts| == |edits| ==> FixRight(s, Retexted(edits, texts))
  {
    hide SortAsc, SortDesc, ApplyAll, RawLines, InBounds, StartsDiffer, ValidRanges, Fixed, Ordered, FixRight;
    if StartsDiffer(RawLines(s), edits) {
      forall texts: seq<string> | |texts| == |edits|
        ensures FixRight(s, Retexted(edits, texts))
      {
        RetextedAccepted(s, edits, texts);
        FixIsSubstitution(s, Retexted(edits, texts));
      }
    } else {
      var texts := WrongTexts(s, edits);
      assert !FixRight(s, Retexted(edits, texts));
    }
  }

  lemma WrongTexts(s: string, edits: seq<TextEdit>) returns (texts: seq<string>)
    requires ValidRanges(edits) && Fixed(s, edits).Changed? && !StartsDiffer(RawLines(s), edits)
    ensures |texts| == |edits| && !FixRight(s, Retexted(edits, texts))
  {
    hide SortAsc, SortDesc, ApplyAll, RawLines, InBounds, StartsDiffer, ValidRanges, WithTexts;
    var lines := RawLines(s);
    AcceptedOrdered(s, edits);
    SortedStartsDiffer(s, lines, edits);
    var offs := Offsets(lines, edits);
    var sorted := SortAsc(offs);
    SortAscMembers(offs);
    FirstInside(s, sorted);
    var sortedTexts := SomeTextsDrift(s, sorted, 0);
    texts := SortReaches(offs, sortedTexts);
    RetextedOffsets(lines, edits, texts);
    RetextedAccepted(s, edits, texts);
    assert s[..0] == "";
  }

  lemma FirstInside(s: string, sorted: seq<Edit>)
    requires Ordered(s, sorted) && !DistinctStarts(sorted)
    ensures sorted != [] && sorted[0].start <= |s|
  {
  }

  /** A fix of two edits whose ranges start at one offset applies them one after the other. */
  lemma TwoAtOnePlace(s: string, edits: seq<TextEdit>, a: Edit, b: Edit)
    requires |edits| == 2 && !Clash(edits[0], edits[1])
    requires InBounds(RawLines(s), edits[0]) && InBounds(RawLines(s), edits[1])
    requires a == ToOffsets(RawLines(s), edits[0]) && b == ToOffsets(RawLines(s), edits[1])
    requires a.start == a.end == b.start <= b.end
    ensures SortAsc(Offsets(RawLines(s), edits)) == [a, b]
    ensures Fixed(s, edits) == Changed(Apply(Apply(s, a), b))
  {
    hide RawLines, InBounds, Clash, ToOffsets, Apply;
    assert Offsets(RawLines(s), edits) == [a, b];
    TwoSorted(a, b);
    assert [a, b][1..] == [b] && [b][1..] == [];
    var t := Apply(s, a);
    assert ApplyAll(t, [b]) == Apply(t, b);
    assert ApplyAll(s, [a, b]) == ApplyAll(t, [b]);
  }

  const INSERT_AND_DELETE := [
    TextEdit(Range(Position(1, 1), Position(1, 1)), "X"), TextEdit(Range(Position(1, 1), Position(1, 2)), "")]

  /** Inserting X before the a of ab and deleting the a gives ab again instead of Xb: the
      deletion eats the X. */
  lemma DeletionEatsInsertion()
    ensures ValidRanges(INSERT_AND_DELETE) && Fixed("ab", INSERT_AND_DELETE) == Changed("ab")
    ensures
      forall i :: 0 <= i < 2 ==> InBounds(RawLines("ab"), INSERT_AND_DELETE[i])
    ensures
      var sorted := SortAsc(Offsets(RawLines("ab"), INSERT_AND_DELETE));
      Ordered("ab", sorted) && Substitute("ab", sorted, 0) == "Xb"
  {
    hide Fixed, SortAsc, Substitute, Offsets, Ordered, RawLines, OffsetOf, Apply;
    OneLineOffset("ab", 0);
    OneLineOffset("ab", 1);
    TwoAtOnePlace("ab", INSERT_AND_DELETE, Edit(0, 0, "X"), Edit(0, 1, ""));
    EatenText();
    EatenSubstitute();
  }

  lemma EatenText()
    ensures Apply(Apply("ab", Edit(0, 0, "X")), Edit(0, 1, "")) == "ab"
  {
    assert Apply("ab", Edit(0, 0, "X")) == "Xab";
  }

  lemma OneLineOffset(s: string, k: nat)
    requires s != [] && k <= |s| && forall i :: 0 <= i < |s| ==> !Separator(s[i])
    ensures OffsetOf(RawLines(s), Position(1, k + 1)) == Some(k)
  {
    hide FirstLine, SplitLines;
    OneLine(s);
    assert !Separator(s[|s| - 1]);
    assert LineStart([s], 0) == 0;
  }

  lemma EatenSubstitute()
    ensures Ordered("ab", [Edit(0, 0, "X"), Edit(0, 1, "")])
    ensures Substitute("ab", [Edit(0, 0, "X"), Edit(0, 1, "")], 0) == "Xb"
  {
    var a, b := Edit(0, 0, "X"), Edit(0, 1, "");
    var none: seq<Edit> := [];
    assert [a, b][1..] == [b] && [b][1..] == none;
    assert Substitute("ab", none, 1) == "ab"[1..] == "b";
    assert Substitute("ab", [b], 0) == "ab"[0..0] + b.text + Substitute("ab", none, 1) == "b";
    assert "ab"[0..0] + "X" + "b" == "Xb";
  }

  const TWO_INSERTIONS := [
    TextEdit(Range(Position(1, 3), Position(1, 3)), "X"), TextEdit(Range(Position(2, 1), Position(2, 1)), "Y")]

  /** Around a line tabulation two different positions have the same offset, and insertions at
      them come out in the wrong order. */
  lemma RareBreakSwapsInsertions()
    ensures ValidRanges(TWO_INSERTIONS) && Fixed("a\U{B}b", TWO_INSERTIONS) == Changed("a\U{B}YXb")
  {
    hide Fixed, SortAsc, Offsets;
    var s, edits, lines := "a\U{B}b", TWO_INSERTIONS, ["a\U{B}", "b"];
    TabulatedLines();
    assert LineStart(lines, 0) == 0 && LineStart(lines, 1) == 2;
    assert OffsetOf(lines, Position(1, 3)) == Some(2) && OffsetOf(lines, Position(2, 1)) == Some(2);
    var a, b := Edit(2, 2, "X"), Edit(2, 2, "Y");
    TwoAtOnePlace(s, edits, a, b);
    assert Apply(s, a) == "a\U{B}Xb" && Apply("a\U{B}Xb", b) == "a\U{B}YXb";
  }

  lemma TabulatedLines()
    ensures RawLines("a\U{B}b") == ["a\U{B}", "b"]
  {
    var s := "a\U{B}b";
    assert s[1..] == "\U{B}b" && FirstLine("\U{B}b") == 1 && FirstLine(s) == 2;
    assert s[..2] == "a\U{B}" && s[2..] == "b";
    OneLine("b");
  }

  lemma {:induction false} OneLine(s: string)
    requires s != [] && forall i :: 0 <= i < |s| ==> !Separator(s[i])
    ensures FirstLine(s) == |s| && SplitLines(s) == [s]
  {
    if |s| > 1 {
      OneLine(s[1..]);
    }
    assert s[..|s|] == s && s[|s|..] == [];
  }

  lemma TwoSorted(a: Edit, b: Edit)
    requires NotAfter(a, b) && a.start == b.start
    ensures SortAsc([a, b]) == [a, b] && SortDesc([a, b]) == [a, b]
  {
    hide SortDesc;
    var none: seq<Edit> := [];
    assert [a, b][..1] == [a] && [a][..0] == none && [a][1..] == none;
    InsertFirst(a);
    InsertFirst(b);
    var one := [a];
    assert SortAsc(one) == one && one[1..] == none && NotAfter(one[0], b);
    assert InsertAsc(one, b) == [one[0]] + InsertAsc(one[1..], b);
    SortFront([a, b]);
  }

  lemma InsertFirst(e: Edit)
    ensures InsertAsc([], e) == [e]
  {
    assert [e] + [] == [e];
  }

  /** apply_quick_fix. */
  method ApplyQuickFix(s: string, edits: seq<TextEdit>) returns (r: Outcome)
    ensures r == Fixed(s, edits)
  {
    hide SortAsc, SortDesc, ApplyAll;
    var clash := FindConflict(edits);
    if clash {
      return Conflict;
    }
    var lines := RawLines(s);
    var starts := LineStarts(lines);
    var offs: seq<Edit> := [];
    for i := 0 to |edits|
      invariant forall j :: 0 <= j < i ==> InBounds(lines, edits[j])
      invariant offs == Offsets(lines, edits[..i])
    {
      var a := Locate(lines, starts, edits[i].range.start);
      var b := Locate(lines, starts, edits[i].range.end);
      if a.None? || b.None? {
        return OutOfBounds;
      }
      offs := offs + [Edit(a.value, b.value, edits[i].newText)];
    }
    assert edits[..|edits|] == edits;
    var sorted := SortAsc(offs);
    for i := 0 to |sorted|
      invariant forall j :: 0 < j <= i && j < |sorted| ==> sorted[j - 1].end <= sorted[j].start
    {
      if i + 1 < |sorted| && sorted[i].end > sorted[i + 1].start {
        return Overlapping;
      }
    }
    var t := Rewrite(s, SortDesc(sorted));
    r := Changed(t);
  }

  method FindConflict(edits: seq<TextEdit>) returns (found: bool)
    ensures found == Conflicting(edits)
  {
    for i := 0 to |edits|
      invariant forall a, b :: 0 <= a < i && a < b < |edits| ==> !Clash(edits[a], edits[b])
    {
      for j := i + 1 to |edits|
        invariant forall b :: i < b < j ==> !Clash(edits[i], edits[b])
      {
        if Clash(edits[i], edits[j]) {
          return true;
        }
      }
    }
    found := false;
  }

  /** The table of line start offsets. */
  method LineStarts(lines: seq<string>) returns (starts: seq<nat>)
    requires lines != []
    ensures |starts| == |lines| && forall k :: 0 <= k < |lines| ==> starts[k] == LineStart(lines, k)
  {
    starts := [0];
    for i := 1 to |lines|
      invariant |starts| == i && forall k :: 0 <= k < i ==> starts[k] == LineStart(lines, k)
    {
      starts := starts + [starts[i - 1] + |lines[i - 1]|];
    }
  }

  method Locate(lines: seq<string>, starts: seq<nat>, p: Position) returns (r: Option<nat>)
    requires |starts| == |lines| && forall k :: 0 <= k < |lines| ==> starts[k] == LineStart(lines, k)
    ensures r == OffsetOf(lines, p)
  {
    if p.line < 1 || p.line > |lines| {
      return None;
    }
    if p.column < 1 || p.column > ContentLength(lines[p.line - 1]) + 1 {
      return None;
    }
    r := Some(starts[p.line - 1] + (p.column - 1));
  }

  method Rewrite(s: string, order: seq<Edit>) returns (t: string)
    ensures t == ApplyAll(s, order)
  {
    t := s;
    for i := 0 to |order|
      invariant ApplyAll(t, order[i..]) == ApplyAll(s, order)
    {
      t := Apply(t, order[i]);
    }
  }
}
