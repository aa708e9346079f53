/** Which quick fixes are accepted, and which characters end a line, said without the sorting. */
module LintMeaning {
  import opened Options
  import opened TextEdits
  import opened LintEngine

  /** The line separators by their codes: line feed to carriage return, the three information
      separators, next line, and the line and paragraph separators. */
  lemma SeparatorCodes(c: char)
    ensures
      var code := c as int;
      Separator(c) <==> 10 <= code <= 13 || 28 <= code <= 30 || code == 133 || code == 8232 || code == 8233
  {
  }

  /** A line without its line feed, carriage return or both, which is what a column may point into. */
  lemma ContentMeaning(text: string, ending: string)
    requires ending in ["", "\n", "\r", "\r\n"]
    requires text != [] ==> text[|text| - 1] !in "\r\n"
    ensures ContentLength(text + ending) == |text|
  {
    var line := text + ending;
    if ending == [] {
      assert line == text;
    } else {
      assert line[|line| - 1] == ending[|ending| - 1];
      assert |line| >= 2 ==> line[|line| - 2] == if |ending| == 2 then '\r' else text[|text| - 1];
    }
  }

  /** Where a line can end: nowhere but at its last character or at a closing carriage return and
      line feed, which stay together. */
  predicate Unbroken(line: string) {
    && line != []
    && (forall k :: 0 <= k < |line| - 1 && Separator(line[k]) ==> line[k..] == "\r\n")
  }

  predicate LinesOf(s: string, lines: seq<string>) {
    && Joined(lines) == s
    && (forall i :: 0 <= i < |lines| ==> Unbroken(lines[i]))
    && (forall i :: 0 < i < |lines| ==> BreakBetween(lines[i - 1], lines[i]))
  }

  predicate BreakBetween(a: string, b: string) {
    && a != [] && b != [] && Separator(a[|a| - 1]) && !(a[|a| - 1] == '\r' && b[0] == '\n')
  }

  function Joined(lines: seq<string>): string {
    if lines == [] then [] else lines[0] + Joined(lines[1..])
  }

  lemma {:induction false} FirstUnbroken(s: string)
    requires s != []
    ensures Unbroken(s[..FirstLine(s)])
    ensures FirstLine(s) < |s| ==> BreakBetween(s[..FirstLine(s)], s[FirstLine(s)..])
  {
    hide Separator;
    var n := FirstLine(s);
    if s[0] == '\r' && |s| > 1 && s[1] == '\n' {
      assert n == 2 && s[..2] == "\r\n";
      PairUnbroken();
    } else if Separator(s[0]) || |s| == 1 {
      assert n == 1 && s[..1] == [s[0]];
    } else {
      FirstUnbroken(s[1..]);
      assert s[..n] == [s[0]] + s[1..][..n - 1] && s[n..] == s[1..][n - 1..];
      StillUnbroken(s[0], s[1..][..n - 1]);
    }
  }

  lemma PairUnbroken()
    ensures Unbroken("\r\n") && Separator('\n')
  {
    assert "\r\n"[0..] == "\r\n";
  }

  lemma StillUnbroken(c: char, line: string)
    requires !Separator(c) && Unbroken(line)
    ensures Unbroken([c] + line)
  {
    hide Separator;
    var all := [c] + line;
    forall k | 0 <= k < |all| - 1 && Separator(all[k]) ensures all[k..] == "\r\n" {
      assert k > 0 && all[k] == line[k - 1] && all[k..] == line[k - 1..];
    }
  }

  /** A text breaks into the lines that end at its separators, a carriage return and its line feed
      being one. */
  lemma {:induction false} LinesAreLines(s: string)
    ensures LinesOf(s, SplitLines(s))
    decreases |s|
  {
    hide FirstLine, Unbroken, BreakBetween, LinesOf;
    if s == [] {
      NoLines();
    } else {
      var n := FirstLine(s);
      FirstUnbroken(s);
      LinesAreLines(s[n..]);
      assert s == s[..n] + s[n..];
      OneMoreLine(s[..n], s[n..], SplitLines(s[n..]));
    }
  }

  lemma NoLines()
    ensures LinesOf([], [])
  {
  }

  lemma OneMoreLine(a: string, b: string, rest: seq<string>)
    requires Unbroken(a) && LinesOf(b, rest) && (b != [] ==> BreakBetween(a, b))
    ensures LinesOf(a + b, [a] + rest)
  {
    hide Unbroken, BreakBetween;
    var all := [a] + rest;
    assert all[1..] == rest;
    if rest != [] {
      assert Unbroken(rest[0]);
      NotEmpty(rest[0]);
      SameStart(a, b, rest[0]);
    }
    forall i | 0 < i < |all| ensures BreakBetween(all[i - 1], all[i]) {
      assert all[i] == rest[i - 1] && (i > 1 ==> all[i - 1] == rest[i - 2]);
    }
  }

  lemma NotEmpty(line: string)
    requires Unbroken(line)
    ensures line != []
  {
  }

  lemma SameStart(a: string, b: string, c: string)
    requires BreakBetween(a, b) && c != [] && c <= b
    ensures BreakBetween(a, c)
  {
    assert c[0] == b[0];
  }

  lemma {:induction false} JoinedStart(lines: seq<string>, k: nat)
    requires k <= |lines|
    ensures |Joined(lines[..k])| == LineStart(lines, k)
    ensures Joined(lines) == Joined(lines[..k]) + Joined(lines[k..])
  {
    if k > 0 {
      JoinedStart(lines, k - 1);
      JoinedLast(lines[..k]);
      assert lines[..k][..k - 1] == lines[..k - 1] && lines[k - 1..][1..] == lines[k..];
      assert Joined(lines[k - 1..]) == lines[k - 1] + Joined(lines[k..]);
    } else {
      assert lines[..0] == [] && lines[0..] == lines;
    }
  }

  lemma {:induction false} JoinedLast(lines: seq<string>)
    requires lines != []
    ensures Joined(lines) == Joined(lines[..|lines| - 1]) + lines[|lines| - 1]
  {
    if |lines| > 1 {
      JoinedLast(lines[1..]);
      assert lines[1..][..|lines| - 2] == lines[..|lines| - 1][1..];
    }
  }

  /** What lies before the offset of a position: the lines above it and its line up to its column. */
  lemma OffsetMeaning(s: string, p: Position)
    requires s != [] && OffsetOf(SplitLines(s), p).Some?
    ensures 1 <= p.line <= |SplitLines(s)| && 1 <= p.column <= |SplitLines(s)[p.line - 1]| + 1
    ensures OffsetOf(SplitLines(s), p).value <= |s|
    ensures s[..OffsetOf(SplitLines(s), p).value]
         == Joined(SplitLines(s)[..p.line - 1]) + SplitLines(s)[p.line - 1][..p.column - 1]
  {
    hide SplitLines, ContentLength, Unbroken, BreakBetween, Joined, LineStart;
    var lines := SplitLines(s);
    LinesAreLines(s);
    LineBefore(s, lines, p.line - 1, p.column - 1);
  }

  lemma LineBefore(s: string, lines: seq<string>, i: nat, c: nat)
    requires i < |lines| && Joined(lines) == s && c <= |lines[i]|
    ensures LineStart(lines, i) + c <= |s|
    ensures s[..LineStart(lines, i) + c] == Joined(lines[..i]) + lines[i][..c]
  {
    hide Joined, LineStart;
    JoinedStart(lines, i);
    var above, here := Joined(lines[..i]), lines[i];
    var below := Joined(lines[i + 1..]);
    assert Joined(lines[i..]) == here + below by {
      assert lines[i..][1..] == lines[i + 1..];
      JoinedFirst(lines[i..]);
    }
    assert s == above + (here + below);
    assert s[..|above| + c] == above + (here + below)[..c];
    assert (here + below)[..c] == here[..c];
  }

  lemma JoinedFirst(lines: seq<string>)
    requires lines != []
    ensures Joined(lines) == lines[0] + Joined(lines[1..])
  {
  }

  /** One of two edits ends before the other starts. */
  predicate Apart(a: Edit, b: Edit) {
    a.end <= b.start || b.end <= a.start
  }

  predicate Forward(edits: seq<Edit>) {
    forall i :: 0 <= i < |edits| ==> edits[i].start <= edits[i].end
  }

  lemma {:induction false} EndsBefore(edits: seq<Edit>, i: nat, j: nat)
    requires Forward(edits) && Separate(edits) && i < j < |edits|
    ensures edits[i].end <= edits[j].start
    decreases j - i
  {
    if i + 1 < j {
      EndsBefore(edits, i, j - 1);
      assert edits[j - 1].start <= edits[j - 1].end;
    }
    assert edits[j - 1].end <= edits[j].start;
  }

  /** Sorted edits are separate neighbour by neighbour exactly if any two of them are apart. */
  lemma SeparateIffApart(edits: seq<Edit>)
    requires Forward(edits) && Ascending(edits)
    ensures Separate(edits) <==> Pairwise(edits, Apart)
  {
    if Separate(edits) {
      forall i, j | 0 <= i < j < |edits|
        ensures Apart(edits[i], edits[j]) && Apart(edits[j], edits[i])
      {
        EndsBefore(edits, i, j);
      }
    }
    if Pairwise(edits, Apart) {
      forall i | 0 < i < |edits|
        ensures edits[i - 1].end <= edits[i].start
      {
        assert Apart(edits[i - 1], edits[i]) && NotAfter(edits[i - 1], edits[i]);
        assert edits[i].start <= edits[i].end;
      }
    }
  }

  lemma ConflictMeaning(edits: seq<TextEdit>)
    ensures !Conflicting(edits) <==> forall i, j :: 0 <= i < j < |edits| ==>
      edits[i].range != edits[j].range && !Overlaps(edits[i].range, edits[j].range)
  {
    hide Overlaps;
    assert forall i, j :: 0 <= i < j < |edits| ==>
      (Clash(edits[i], edits[j]) <==>
        edits[i].range == edits[j].range || Overlaps(edits[i].range, edits[j].range));
  }

  /** A fix is accepted exactly if no two ranges are equal or overlap, all positions lie in the text,
      and of any two edits one ends before the other starts. */
  lemma AcceptedIff(s: string, edits: seq<TextEdit>)
    requires ValidRanges(edits)
    ensures Fixed(s, edits).Changed? <==>
      && (forall i, j :: 0 <= i < j < |edits| ==>
            edits[i].range != edits[j].range && !Overlaps(edits[i].range, edits[j].range))
      && (forall i :: 0 <= i < |edits| ==> InBounds(RawLines(s), edits[i]))
      && Pairwise(Offsets(RawLines(s), edits), Apart)
  {
    hide SortAsc, SortDesc, ApplyAll, RawLines, Conflicting, InBounds, Pairwise, Separate, Overlaps;
    ConflictMeaning(edits);
    if forall i :: 0 <= i < |edits| ==> InBounds(RawLines(s), edits[i]) {
      var offs := Offsets(RawLines(s), edits);
      OffsetsForward(s, edits);
      SortAscOrder(offs);
      SortAscMembers(offs);
      ForwardSorted(offs, SortAsc(offs));
      SeparateIffApart(SortAsc(offs));
      SortAscPairwise(offs, Apart);
    }
  }

  /** Why a fix is refused: first for equal or overlapping ranges, then for a position outside the
      text, and last for offsets that reach into one another. */
  lemma RefusedWhy(s: string, edits: seq<TextEdit>)
    requires ValidRanges(edits)
    ensures Fixed(s, edits) == Conflict <==> exists i, j ::
      0 <= i < j < |edits| && (edits[i].range == edits[j].range || Overlaps(edits[i].range, edits[j].range))
    ensures Fixed(s, edits) == OutOfBounds <==>
      Fixed(s, edits) != Conflict && exists i :: 0 <= i < |edits| && !InBounds(RawLines(s), edits[i])
    ensures Fixed(s, edits) == Overlapping ==> !Pairwise(Offsets(RawLines(s), edits), Apart)
  {
    hide SortAsc, SortDesc, ApplyAll, RawLines, Conflicting, InBounds, Pairwise, Separate, Overlaps;
    AcceptedIff(s, edits);
    ConflictMeaning(edits);
  }

  lemma ForwardSorted(offs: seq<Edit>, sorted: seq<Edit>)
    requires Forward(offs) && forall x :: x in sorted <==> x in offs
    ensures Forward(sorted)
  {
    forall i | 0 <= i < |sorted| ensures sorted[i].start <= sorted[i].end {
      assert sorted[i] in offs;
    }
  }

  lemma OffsetsForward(s: string, edits: seq<TextEdit>)
    requires ValidRanges(edits) && forall i :: 0 <= i < |edits| ==> InBounds(RawLines(s), edits[i])
    ensures Forward(Offsets(RawLines(s), edits))
  {
    hide RawLines, OffsetOf;
    var offs := Offsets(RawLines(s), edits);
    forall i | 0 <= i < |offs| ensures offs[i].start <= offs[i].end {
      assert ValidRange(edits[i].range) && InBounds(RawLines(s), edits[i]);
      OffsetsOrdered(s, edits[i].range.start, edits[i].range.end);
    }
  }
}
