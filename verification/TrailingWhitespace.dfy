/** The trailing-whitespace rule of src/editor/lint_engine.py and its quick fixes. */
module TrailingWhitespace {
  import opened Options
  import opened TextEdits
  import opened LintEngine
  import opened Sequences

  predicate Blank(c: char) {
    c == ' ' || c == '\t'
  }

  /** rstrip of blanks and tabs. */
  function Stripped(s: string): (r: string)
    ensures r <= s && (r != [] ==> !Blank(r[|r|-1])) && forall i :: |r| <= i < |s| ==> Blank(s[i])
  {
    if s != [] && Blank(s[|s|-1]) then Stripped(s[..|s|-1]) else s
  }

  /** The diagnostic of a line with trailing blanks: the range of the blanks. */
  function BlankRange(line: nat, content: string): Range {
    Range(Position(line, |Stripped(content)| + 1), Position(line, |content| + 1))
  }

  predicate Dirty(content: string) {
    |Stripped(content)| < |content|
  }

  /** A line is dirty exactly if it ends in a space or a tab, and the reported range is the longest
      run of spaces and tabs at its end. */
  lemma DirtyMeaning(line: nat, content: string)
    ensures Dirty(content) <==> content != "" && content[|content| - 1] in " \t"
    ensures
      var r := BlankRange(line, content);
      && r.start.line == r.end.line == line && 1 <= r.start.column <= r.end.column == |content| + 1
      && (forall i :: r.start.column - 1 <= i < |content| ==> content[i] in " \t")
      && (r.start.column > 1 ==> content[r.start.column - 2] !in " \t")
  {
    var kept := Stripped(content);
    assert kept != [] ==> content[|kept| - 1] == kept[|kept| - 1];
    if Dirty(content) {
      assert Blank(content[|content| - 1]);
    }
  }

  /** The length of a line without its line break, whichever it is. */
  function BareLength(line: string): (n: nat)
    ensures n <= |line|
  {
    var k := |line|;
    if k >= 2 && line[k - 2] == '\r' && line[k - 1] == '\n' then k - 2
    else if k >= 1 && Separator(line[k - 1]) then k - 1
    else k
  }

  /** check, from line number `line` on. */
  function DiagnoseFrom(lines: seq<string>, line: nat): seq<Range> {
    if lines == [] then []
    else
      var content := lines[0][..BareLength(lines[0])];
      (if Dirty(content) then [BlankRange(line, content)] else []) + DiagnoseFrom(lines[1..], line + 1)
  }

  function Diagnose(s: string): seq<Range> {
    DiagnoseFrom(SplitLines(s), 1)
  }

  lemma DiagnoseNext(lines: seq<string>, i: nat)
    requires i < |lines|
    ensures
      var content := lines[i][..BareLength(lines[i])];
      DiagnoseFrom(lines[i..], i + 1)
        == (if Dirty(content) then [BlankRange(i + 1, content)] else []) + DiagnoseFrom(lines[i + 1..], i + 2)
  {
    hide BareLength, Dirty, BlankRange;
    assert lines[i..][0] == lines[i] && lines[i..][1..] == lines[i + 1..];
  }

  lemma NoMoreLines(line: nat)
    ensures DiagnoseFrom([], line) == []
  {
  }

  /** TrailingWhitespaceRule.check. */
  method Check(s: string) returns (found: seq<Range>)
    ensures found == Diagnose(s)
  {
    hide Stripped, SplitLines, BlankRange, BareLength, DiagnoseFrom;
    NoMoreLines(|SplitLines(s)| + 1);
    var lines := SplitLines(s);
    found := [];
    for i := 0 to |lines|
      invariant found + DiagnoseFrom(lines[i..], i + 1) == Diagnose(s)
    {
      var content := lines[i][..BareLength(lines[i])];
      DiagnoseNext(lines, i);
      if |Stripped(content)| < |content| {
        found := found + [BlankRange(i + 1, content)];
      }
    }
    assert lines[|lines|..] == [];
  }

  /** Applying the quick fixes of the given diagnostics one after another. */
  ghost function FixAll(s: string, order: seq<Range>): Option<string>
    decreases |order|
  {
    if order == [] then Some(s)
    else
      var r := Fixed(s, [TextEdit(order[0], "")]);
      if r.Changed? then FixAll(r.text, order[1..]) else None
  }

  // ---- documents as lines and what ends them ----

  /** The last line of a document has no ending. */
  datatype Line = Line(text: string, ending: string)

  predicate Plain(p: string) {
    forall i :: 0 <= i < |p| ==> !Separator(p[i])
  }

  predicate Ending(e: string) {
    e == "\r\n" || (|e| == 1 && Separator(e[0]))
  }

  /** A carriage return and the line feed behind it are one line break. */
  predicate Fused(a: Line, b: Line) {
    a.ending == "\r" && b.text == "" && b.ending == "\n"
  }

  predicate Document(ls: seq<Line>) {
    && ls != [] && ls[|ls|-1].ending == ""
    && (forall i :: 0 <= i < |ls| ==> Plain(ls[i].text))
    && (forall i :: 0 <= i < |ls| - 1 ==> Ending(ls[i].ending))
    && (forall i :: 0 < i < |ls| ==> !Fused(ls[i - 1], ls[i]))
  }

  function Join(ls: seq<Line>): string {
    if ls == [] then "" else ls[0].text + (ls[0].ending + Join(ls[1..]))
  }

  function Parse(s: string): (ls: seq<Line>)
    ensures ls != []
    decreases |s|
  {
    if s == [] then [Line("", "")]
    else if s[0] == '\r' && |s| > 1 && s[1] == '\n' then [Line("", "\r\n")] + Parse(s[2..])
    else if Separator(s[0]) then [Line("", [s[0]])] + Parse(s[1..])
    else
      var rest := Parse(s[1..]);
      [rest[0].(text := [s[0]] + rest[0].text)] + rest[1..]
  }

  /** Every text is a document. */
  lemma {:induction false} ParseJoins(s: string)
    ensures Join(Parse(s)) == s && Document(Parse(s))
    decreases |s|
  {
    hide Document, Join, Plain;
    if s == [] {
      EmptyDocument();
    } else {
      if s[0] == '\r' && |s| > 1 && s[1] == '\n' {
        ParseJoins(s[2..]);
        assert s == "" + ("\r\n" + s[2..]);
        Prepend(Line("", "\r\n"), Parse(s[2..]));
      } else if Separator(s[0]) {
        ParseJoins(s[1..]);
        assert s == "" + ([s[0]] + s[1..]);
        StartsFeed(Parse(s[1..]));
        Prepend(Line("", [s[0]]), Parse(s[1..]));
      } else {
        ParseJoins(s[1..]);
        Widen(s[0], Parse(s[1..]));
        assert s == [s[0]] + s[1..];
      }
    }
  }

  lemma EmptyDocument()
    ensures Document([Line("", "")]) && Join([Line("", "")]) == "" && Plain("")
  {
    assert [Line("", "")][1..] == [];
  }

  lemma Prepend(l: Line, ls: seq<Line>)
    requires Document(ls) && Plain(l.text) && Ending(l.ending) && !Fused(l, ls[0])
    ensures Document([l] + ls) && Join([l] + ls) == l.text + (l.ending + Join(ls))
  {
    assert ([l] + ls)[1..] == ls;
  }

  lemma Widen(c: char, ls: seq<Line>)
    requires Document(ls) && !Separator(c)
    ensures
      var ws := [ls[0].(text := [c] + ls[0].text)] + ls[1..];
      Document(ws) && Join(ws) == [c] + Join(ls)
  {
    hide Ending, Separator, Join, Fused, Plain;
    var l := ls[0];
    var w := l.(text := [c] + l.text);
    var ws := [w] + ls[1..];
    PlainCons(c, l.text);
    assert forall i :: 0 < i < |ls| ==> ws[i] == ls[i];
    forall i | 0 < i < |ls| ensures !Fused(ws[i - 1], ws[i]) {
      assert !Fused(ls[i - 1], ls[i]);
      StillApart(c, l, ls[i]);
    }
    JoinWider(c, ls);
  }

  lemma PlainCons(c: char, p: string)
    requires Plain(p) && !Separator(c)
    ensures Plain([c] + p)
  {
    hide Separator;
  }

  lemma StillApart(c: char, l: Line, next: Line)
    ensures Fused(l.(text := [c] + l.text), next) == Fused(l, next)
  {
  }

  lemma JoinWider(c: char, ls: seq<Line>)
    requires ls != []
    ensures Join([ls[0].(text := [c] + ls[0].text)] + ls[1..]) == [c] + Join(ls)
  {
    var ws := [ls[0].(text := [c] + ls[0].text)] + ls[1..];
    assert ws[1..] == ls[1..];
    var t, rest := ls[0].text, ls[0].ending + Join(ls[1..]);
    assert Join(ws) == ([c] + t) + rest && Join(ls) == t + rest;
    ConcatAssociates([c], t, rest);
  }

  lemma ConcatAssociates(a: string, b: string, c: string)
    ensures (a + b) + c == a + (b + c)
  {
  }

  /** The text of a document starts with a line feed only if its first line is empty and ends in one. */
  lemma StartsFeed(ls: seq<Line>)
    requires Document(ls)
    ensures Join(ls) != "" && Join(ls)[0] == '\n' <==> ls[0].text == "" && ls[0].ending == "\n"
  {
    var l := ls[0];
    if l.text != "" {
      assert Join(ls)[0] == l.text[0] && !Separator(l.text[0]);
    } else if |ls| > 1 {
      assert Ending(l.ending) && Join(ls)[0] == l.ending[0];
      assert l.ending[0] == '\n' && |l.ending| == 1 ==> l.ending == "\n";
    } else {
      assert ls[1..] == [];
    }
  }

  /** The lines with their endings; an empty last one is no line. */
  function Lines(ls: seq<Line>): (r: seq<string>)
    requires ls != []
    ensures |r| == if ls[|ls|-1].text == "" && ls[|ls|-1].ending == "" then |ls| - 1 else |ls|
  {
    if |ls| == 1 then (if ls[0].text + ls[0].ending == "" then [] else [ls[0].text + ls[0].ending])
    else [ls[0].text + ls[0].ending] + Lines(ls[1..])
  }

  lemma {:induction false} FirstLineOf(l: Line, rest: string)
    requires Plain(l.text) && (Ending(l.ending) || (l.ending == rest == "" && l.text != ""))
    requires l.ending == "\r" && rest != "" ==> rest[0] != '\n'
    ensures FirstLine(l.text + (l.ending + rest)) == |l.text| + |l.ending|
    decreases |l.text|
  {
    hide FirstLine, Separator;
    var s := l.text + (l.ending + rest);
    if l.text == "" {
      assert s == l.ending + rest;
      FirstLineEnds(s);
      if |l.ending| == 1 && rest != "" {
        assert s[1] == rest[0] && (s[0] == '\r' ==> l.ending == "\r");
      }
    } else {
      var m := l.(text := l.text[1..]);
      assert s[0] == l.text[0] && s[1..] == m.text + (m.ending + rest);
      if m.text != "" || l.ending != "" {
        FirstLineOf(m, rest);
      }
      FirstLineSkips(s);
    }
  }

  lemma FirstLineEnds(s: string)
    ensures s != "" && Separator(s[0]) ==> FirstLine(s) == if s[0] == '\r' && |s| > 1 && s[1] == '\n' then 2 else 1
    ensures Separator('\r')
  {
  }

  lemma FirstLineSkips(s: string)
    requires s != "" && !Separator(s[0])
    ensures FirstLine(s) == if |s| == 1 then 1 else 1 + FirstLine(s[1..])
  {
  }

  lemma DocumentTail(ls: seq<Line>)
    requires Document(ls) && |ls| > 1
    ensures Document(ls[1..])
  {
    var rest := ls[1..];
    assert forall i :: 0 <= i < |rest| ==> rest[i] == ls[i + 1];
    forall i | 0 < i < |rest| ensures !Fused(rest[i - 1], rest[i]) {
      assert rest[i] == ls[i + 1] && rest[i - 1] == ls[i] && !Fused(ls[i + 1 - 1], ls[i + 1]);
    }
  }

  lemma {:induction false} LinesOfJoin(ls: seq<Line>)
    requires Document(ls)
    ensures SplitLines(Join(ls)) == Lines(ls)
    decreases |ls|
  {
    hide FirstLine, Plain, Separator, SplitLines;
    if |ls| == 1 {
      LastLineSplit(ls);
    } else {
      HeadSplit(ls);
      DocumentTail(ls);
      LinesOfJoin(ls[1..]);
    }
  }

  lemma LastLineSplit(ls: seq<Line>)
    requires Document(ls) && |ls| == 1
    ensures SplitLines(Join(ls)) == Lines(ls)
  {
    hide FirstLine, Plain, Separator, SplitLines;
    var t := ls[0].text;
    assert ls[1..] == [] && ls[0].ending == "";
    assert Join(ls) == t + ("" + "") && t + ("" + "") == t && t + "" == t;
    if t != "" {
      FirstLineOf(ls[0], "");
      SplitsAt(t, "");
    }
    EmptySplit();
  }

  lemma EmptySplit()
    ensures SplitLines("") == []
  {
  }

  lemma SplitsAt(a: string, b: string)
    requires a != "" && FirstLine(a + b) == |a|
    ensures SplitLines(a + b) == [a] + SplitLines(b)
  {
    assert (a + b)[..|a|] == a && (a + b)[|a|..] == b;
  }

  lemma HeadSplit(ls: seq<Line>)
    requires Document(ls) && |ls| > 1
    ensures SplitLines(Join(ls)) == [ls[0].text + ls[0].ending] + SplitLines(Join(ls[1..]))
  {
    hide FirstLine, Plain, Separator, SplitLines;
    var l, tail := ls[0], Join(ls[1..]);
    DocumentTail(ls);
    StartsFeed(ls[1..]);
    assert !Fused(ls[1 - 1], ls[1]) && Ending(ls[0].ending);
    FirstLineOf(l, tail);
    ConcatAssociates(l.text, l.ending, tail);
    SplitsAt(l.text + l.ending, tail);
  }

  function StartOf(ls: seq<Line>, k: nat): nat
    requires k <= |ls|
  {
    if k == 0 then 0 else |ls[0].text| + |ls[0].ending| + StartOf(ls[1..], k - 1)
  }

  /** Line k of a document. */
  lemma {:induction false} LineAt(ls: seq<Line>, k: nat)
    requires Document(ls) && k < |ls| && (k == |ls| - 1 ==> ls[k].text != "")
    ensures k < |Lines(ls)| && Lines(ls)[k] == ls[k].text + ls[k].ending && LineStart(Lines(ls), k) == StartOf(ls, k)
    decreases k
  {
    hide Plain, Separator;
    if k == 0 {
      assert LineStart(Lines(ls), 0) == 0;
    } else {
      DocumentTail(ls);
      LineAt(ls[1..], k - 1);
      LineStartShift(ls[0].text + ls[0].ending, Lines(ls[1..]), k - 1);
    }
  }

  /** Both ways of cutting off the line break leave the text; apply_quick_fix may leave more. */
  lemma BareText(ls: seq<Line>, k: nat)
    requires Document(ls) && k < |ls|
    ensures
      var line := ls[k].text + ls[k].ending;
      line[..BareLength(line)] == ls[k].text && ContentLength(line) >= |ls[k].text|
  {
    var t, e := ls[k].text, ls[k].ending;
    var line := t + e;
    assert t != "" ==> !Separator(t[|t| - 1]) && line[|t| - 1] == t[|t| - 1];
    if e != "" {
      assert line[|line| - 1] == e[|e| - 1];
      if |e| == 2 {
        assert line[|line| - 2] == e[0];
      }
    }
    assert line[..|t|] == t;
  }

  /** Cutting line k short is cutting the text. */
  lemma {:induction false} CutLine(ls: seq<Line>, k: nat, a: nat)
    requires k < |ls| && a <= |ls[k].text|
    ensures StartOf(ls, k) + |ls[k].text| <= |Join(ls)|
    ensures Join(ls[k := ls[k].(text := ls[k].text[..a])])
         == Join(ls)[..StartOf(ls, k) + a] + Join(ls)[StartOf(ls, k) + |ls[k].text|..]
    decreases k
  {
    hide Join, StartOf;
    var cut := ls[k].(text := ls[k].text[..a]);
    var qs := ls[k := cut];
    HeadTail(ls, k);
    HeadTail(qs, k);
    if k == 0 {
      assert qs[1..] == ls[1..];
      CutHead(ls[0].text, a, ls[0].ending + Join(ls[1..]));
    } else {
      var head, m := ls[0].text + ls[0].ending, StartOf(ls[1..], k - 1);
      CutLine(ls[1..], k - 1, a);
      assert qs[1..] == ls[1..][k - 1 := cut];
      CutBehind(head, Join(ls[1..]), m + a, m + |ls[k].text|);
    }
  }

  lemma HeadTail(ls: seq<Line>, k: nat)
    requires k < |ls|
    ensures Join(ls) == ls[0].text + (ls[0].ending + Join(ls[1..])) == ls[0].text + ls[0].ending + Join(ls[1..])
    ensures StartOf(ls, k) == if k == 0 then 0 else |ls[0].text| + |ls[0].ending| + StartOf(ls[1..], k - 1)
  {
    ConcatAssociates(ls[0].text, ls[0].ending, Join(ls[1..]));
  }

  lemma CutHead(t: string, a: nat, rest: string)
    requires a <= |t|
    ensures (t + rest)[..a] + (t + rest)[|t|..] == t[..a] + rest
  {
  }

  lemma CutBehind(head: string, t: string, i: nat, j: nat)
    requires i <= j <= |t|
    ensures (head + t)[..|head| + i] + (head + t)[|head| + j..] == head + (t[..i] + t[j..])
  {}

  // ---- one fix ----

  lemma SingleFix(s: string, r: Range)
    requires InBounds(RawLines(s), TextEdit(r, ""))
    ensures Fixed(s, [TextEdit(r, "")]) == Changed(Apply(s, ToOffsets(RawLines(s), TextEdit(r, ""))))
  {
    hide RawLines, InBounds, ToOffsets;
    var edits := [TextEdit(r, "")];
    var e := ToOffsets(RawLines(s), edits[0]);
    var none: seq<Edit> := [];
    assert Offsets(RawLines(s), edits) == [e];
    assert [e][..0] == none && [e][1..] == none && [e] + none == [e];
    assert SortAsc([e]) == [e] && SortDesc([e]) == [e];
    assert ApplyAll(s, [e]) == Apply(s, e);
  }

  /** The document with line k stripped. */
  function Cut(ls: seq<Line>, k: nat): (r: seq<Line>)
    requires k < |ls|
    ensures |r| == |ls|
  {
    ls[k := ls[k].(text := Stripped(ls[k].text))]
  }

  /** The quick fix of a line cuts its blanks and changes nothing else. */
  lemma FixOne(ls: seq<Line>, k: nat)
    requires Document(ls) && k < |ls| && Dirty(ls[k].text)
    ensures Fixed(Join(ls), [TextEdit(BlankRange(k + 1, ls[k].text), "")]) == Changed(Join(Cut(ls, k)))
  {
    hide Fixed, Join, Stripped, Document, BlankRange, StartOf, RawLines, InBounds, ToOffsets, Apply, Cut;
    BlankOffsets(ls, k);
    CutEdit(ls, k);
    SingleFix(Join(ls), BlankRange(k + 1, ls[k].text));
  }

  /** Where the blanks of line k are in the text. */
  lemma BlankOffsets(ls: seq<Line>, k: nat)
    requires Document(ls) && k < |ls| && Dirty(ls[k].text)
    ensures
      var edit := TextEdit(BlankRange(k + 1, ls[k].text), "");
      && InBounds(RawLines(Join(ls)), edit)
      && ToOffsets(RawLines(Join(ls)), edit)
           == Edit(StartOf(ls, k) + |Stripped(ls[k].text)|, StartOf(ls, k) + |ls[k].text|, "")
  {
    hide SplitLines, Join, Stripped, Document, LineStart, StartOf, ContentLength, Lines, BareLength;
    LinesOfJoin(ls);
    LineAt(ls, k);
    BareText(ls, k);
    NotEmpty(ls, k);
  }

  lemma NotEmpty(ls: seq<Line>, k: nat)
    requires k < |ls| && ls[k].text != ""
    ensures Join(ls) != ""
  {
    CutLine(ls, k, 0);
  }

  lemma CutEdit(ls: seq<Line>, k: nat)
    requires k < |ls|
    ensures Apply(Join(ls), Edit(StartOf(ls, k) + |Stripped(ls[k].text)|, StartOf(ls, k) + |ls[k].text|, ""))
         == Join(Cut(ls, k))
  {
    hide Join, StartOf, Stripped, Apply, Cut, Blank, Take, Drop;
    var a := CutIsPrefix(ls, k);
    CutEditAt(ls, k, a);
  }

  lemma CutEditAt(ls: seq<Line>, k: nat, a: nat)
    requires k < |ls| && a <= |ls[k].text|
    ensures Apply(Join(ls), Edit(StartOf(ls, k) + a, StartOf(ls, k) + |ls[k].text|, ""))
         == Join(ls[k := ls[k].(text := ls[k].text[..a])])
  {
    hide Join, StartOf, Apply;
    CutLine(ls, k, a);
    ApplyCut(Join(ls), StartOf(ls, k) + a, StartOf(ls, k) + |ls[k].text|);
  }

  lemma CutIsPrefix(ls: seq<Line>, k: nat) returns (a: nat)
    requires k < |ls|
    ensures a == |Stripped(ls[k].text)| <= |ls[k].text|
    ensures Cut(ls, k) == ls[k := ls[k].(text := ls[k].text[..a])]
  {
    hide Stripped, Blank;
    a := |Stripped(ls[k].text)|;
    assert ls[k].text[..a] == Stripped(ls[k].text);
  }

  lemma ApplyCut(t: string, i: nat, j: nat)
    requires i <= j <= |t|
    ensures Apply(t, Edit(i, j, "")) == t[..i] + t[j..]
  {
  }

  // ---- when a fix leaves the other lines in place ----

  /** A line of blanks between a carriage return and a line feed. */
  predicate Bridges(ls: seq<Line>, k: nat)
    requires k < |ls|
  {
    k > 0 && ls[k - 1].ending == "\r" && ls[k].ending == "\n" && Stripped(ls[k].text) == ""
  }

  /** Cutting a line leaves the number and the content of all others exactly if the line is not
      all that keeps a carriage return from a line feed. */
  lemma FixKeepsLinesIff(ls: seq<Line>, k: nat)
    requires Document(ls) && k < |ls|
    ensures SplitLines(Join(Cut(ls, k))) == Lines(Cut(ls, k)) <==> !Bridges(ls, k)
  {
    hide Join, Lines, Stripped, SplitLines;
    if Bridges(ls, k) {
      Bridged(ls, k);
    } else {
      CutDocument(ls, k);
      LinesOfJoin(Cut(ls, k));
    }
  }

  lemma CutDocument(ls: seq<Line>, k: nat)
    requires Document(ls) && k < |ls| && !Bridges(ls, k)
    ensures Document(Cut(ls, k))
  {
    var qs := Cut(ls, k);
    assert Plain(qs[k].text);
    forall i | 0 < i < |ls| ensures !Fused(qs[i - 1], qs[i]) {
      assert !Fused(ls[i - 1], ls[i]);
    }
  }

  /** The line between them gone, the two line breaks become one. */
  lemma Bridged(ls: seq<Line>, k: nat)
    requires Document(ls) && k < |ls| && Bridges(ls, k)
    ensures |SplitLines(Join(Cut(ls, k)))| == |Lines(Cut(ls, k))| - 1
  {
    hide Join, Stripped, SplitLines, Document, JoinedLine;
    var ms, rest := JoinedLine(ls, k), ls[k + 1..];
    JoinedDocument(ls, k);
    LinesOfJoin(ms);
    BridgedJoin(ls, k);
  }

  function JoinedLine(ls: seq<Line>, k: nat): (ms: seq<Line>)
    requires Document(ls) && k < |ls| && Bridges(ls, k)
    ensures |ms| == |ls| - 1 && ms[|ms| - 1] == ls[|ls| - 1]
  {
    ls[..k - 1] + [ls[k - 1].(ending := "\r\n")] + ls[k + 1..]
  }

  lemma JoinedDocument(ls: seq<Line>, k: nat)
    requires Document(ls) && k < |ls| && Bridges(ls, k)
    ensures Document(JoinedLine(ls, k))
  {
    hide Stripped, Plain, Separator;
    var ms, head := JoinedLine(ls, k), ls[k - 1].(ending := "\r\n");
    assert forall i :: 0 <= i < |ms| ==> ms[i] == if i < k - 1 then ls[i] else if i == k - 1 then head else ls[i + 1];
    forall i | 0 < i < |ms| ensures !Fused(ms[i - 1], ms[i]) {
      assert i < k ==> !Fused(ls[i - 1], ls[i]);
      assert i > k ==> !Fused(ls[i + 1 - 1], ls[i + 1]);
    }
  }

  lemma BridgedJoin(ls: seq<Line>, k: nat)
    requires Document(ls) && k < |ls| && Bridges(ls, k)
    ensures Join(Cut(ls, k)) == Join(JoinedLine(ls, k))
  {
    hide Join, Stripped, Document;
    var a, b, rest := ls[k - 1], Line("", "\n"), ls[k + 1..];
    var head := a.(ending := "\r\n");
    assert Cut(ls, k) == ls[..k - 1] + ([a, b] + rest);
    assert JoinedLine(ls, k) == ls[..k - 1] + ([head] + rest);
    JoinConcat(ls[..k - 1], [a, b] + rest);
    JoinConcat(ls[..k - 1], [head] + rest);
    JoinBridge(a, b, head, rest);
  }

  lemma {:induction false} JoinConcat(a: seq<Line>, b: seq<Line>)
    ensures Join(a + b) == Join(a) + Join(b)
    decreases |a|
  {
    if a == [] {
      assert a + b == b;
    } else {
      assert (a + b)[1..] == a[1..] + b;
      JoinConcat(a[1..], b);
    }
  }

  lemma JoinBridge(a: Line, b: Line, head: Line, rest: seq<Line>)
    requires b == Line("", "\n") && a.ending == "\r" && head == a.(ending := "\r\n")
    ensures Join([a, b] + rest) == Join([head] + rest)
  {
    assert ([a, b] + rest)[1..] == [b] + rest && ([b] + rest)[1..] == rest && ([head] + rest)[1..] == rest;
    assert Join([b] + rest) == "\n" + Join(rest);
    assert "\r" + ("\n" + Join(rest)) == "\r\n" + Join(rest);
  }

  // ---- all fixes, in any order ----

  /** The diagnostics of a document. */
  function DirtyRanges(ls: seq<Line>, line: nat): seq<Range> {
    if ls == [] then []
    else (if Dirty(ls[0].text) then [BlankRange(line, ls[0].text)] else []) + DirtyRanges(ls[1..], line + 1)
  }

  lemma {:induction false} DiagnoseDocument(ls: seq<Line>, line: nat)
    requires Document(ls)
    ensures DiagnoseFrom(Lines(ls), line) == DirtyRanges(ls, line)
    decreases |ls|
  {
    hide BareLength, Dirty, Plain;
    BareText(ls, 0);
    EmptyIsClean();
    if |ls| == 1 {
      assert ls[1..] == [];
      assert DirtyRanges(ls[1..], line + 1) == [];
      if ls[0].text != "" {
        assert Lines(ls)[1..] == [];
      }
    } else {
      DocumentTail(ls);
      DiagnoseDocument(ls[1..], line + 1);
      assert Lines(ls)[1..] == Lines(ls[1..]);
    }
  }

  lemma EmptyIsClean()
    ensures !Dirty("")
  {
  }

  /** r is the diagnostic of one of the lines. */
  predicate Reports(ls: seq<Line>, line: nat, r: Range) {
    && line <= r.start.line < line + |ls| && Dirty(ls[r.start.line - line].text)
    && r == BlankRange(r.start.line, ls[r.start.line - line].text)
  }

  /** Exactly the dirty lines are reported, each once. */
  lemma {:induction false} DirtyRangesFacts(ls: seq<Line>, line: nat)
    ensures forall r :: r in DirtyRanges(ls, line) <==> Reports(ls, line, r)
    ensures NoDup(DirtyRanges(ls, line))
    decreases |ls|
  {
    hide Dirty, BlankRange;
    if ls != [] {
      var rest := DirtyRanges(ls[1..], line + 1);
      DirtyRangesFacts(ls[1..], line + 1);
      forall r
        ensures Reports(ls, line, r) <==> (r == BlankRange(line, ls[0].text) && Dirty(ls[0].text)) || r in rest
      {
        BlankRangeLine(line, ls[0].text);
        if r.start.line > line && r.start.line < line + |ls| {
          assert ls[1..][r.start.line - (line + 1)] == ls[r.start.line - line];
        }
      }
      BlankRangeLine(line, ls[0].text);
      var first := if Dirty(ls[0].text) then [BlankRange(line, ls[0].text)] else [];
      assert DirtyRanges(ls, line) == first + rest;
      assert !Reports(ls[1..], line + 1, BlankRange(line, ls[0].text));
      assert forall i :: 0 <= i < |rest| ==> rest[i] in rest;
      assert NoDup(first + rest);
    }
  }

  lemma BlankRangeLine(line: nat, content: string)
    ensures BlankRange(line, content).start.line == line
  {}

  /** The document with the reported lines stripped. */
  ghost function StripAt(ls: seq<Line>, order: seq<Range>): (qs: seq<Line>)
    ensures |qs| == |ls|
    decreases |order|
  {
    if order == [] then ls
    else
      var k := order[0].start.line - 1;
      StripAt(if 0 <= k < |ls| then Cut(ls, k) else ls, order[1..])
  }

  ghost predicate NoBridge(ls: seq<Line>) {
    forall k :: 0 <= k < |ls| ==> !Bridges(ls, k)
  }

  lemma CutSound(ls: seq<Line>, k: nat)
    requires Document(ls) && NoBridge(ls) && k < |ls|
    ensures Document(Cut(ls, k)) && NoBridge(Cut(ls, k))
  {
    CutDocument(ls, k);
    StrippedTwice(ls[k].text);
    var qs := Cut(ls, k);
    forall j | 0 <= j < |qs| ensures !Bridges(qs, j) {
      assert !Bridges(ls, j);
    }
  }

  /** The fixes of different lines do not disturb each other. */
  lemma {:induction false} FixInOrder(ls: seq<Line>, order: seq<Range>)
    requires Document(ls) && NoBridge(ls) && NoDup(order) && forall r :: r in order ==> Reports(ls, 1, r)
    ensures FixAll(Join(ls), order) == Some(Join(StripAt(ls, order)))
    decreases |order|
  {
    hide Fixed, Join, Dirty, Document, NoBridge;
    if order != [] {
      var r, rest := order[0], order[1..];
      var k := r.start.line - 1;
      assert r in order;
      FixOne(ls, k);
      CutSound(ls, k);
      var qs := Cut(ls, k);
      forall x | x in rest
        ensures Reports(qs, 1, x)
      {
        assert x in order && x != r;
      }
      FixInOrder(qs, rest);
    }
  }

  lemma {:induction false} StripAtEach(ls: seq<Line>, order: seq<Range>, k: nat)
    requires NoDup(order) && k < |ls| && forall r :: r in order ==> Reports(ls, 1, r)
    ensures StripAt(ls, order)[k]
         == if exists r :: r in order && r.start.line == k + 1 then ls[k].(text := Stripped(ls[k].text)) else ls[k]
    decreases |order|
  {
    hide Dirty, Stripped;
    if order != [] {
      var r, rest := order[0], order[1..];
      var j := r.start.line - 1;
      assert r in order;
      var qs := Cut(ls, j);
      forall x | x in rest
        ensures Reports(qs, 1, x) && x.start.line != r.start.line
      {
        assert x in order && x != r;
      }
      StripAtEach(qs, rest, k);
    }
  }

  ghost function StripLines(s: string): string {
    Join(StripParts(Parse(s)))
  }

  function StripParts(ls: seq<Line>): (qs: seq<Line>)
    ensures |qs| == |ls| && forall k :: 0 <= k < |ls| ==> qs[k] == ls[k].(text := Stripped(ls[k].text))
  {
    seq(|ls|, k requires 0 <= k < |ls| => ls[k].(text := Stripped(ls[k].text)))
  }

  /** Whatever line of blanks stands between a carriage return and a line feed, it is the last
      line to be fixed. */
  predicate BridgeLast(ls: seq<Line>) {
    forall k, d :: 0 <= k < d < |ls| && Bridges(ls, k) ==> !Dirty(ls[d].text)
  }

  lemma BridgeIsDirty(ls: seq<Line>, k: nat)
    requires Document(ls) && k < |ls| && Bridges(ls, k)
    ensures Dirty(ls[k].text)
  {
    assert !Fused(ls[k - 1], ls[k]);
  }

  /** With the line of blanks gone, no other such line is left. */
  lemma JoinedHasNoBridge(ls: seq<Line>, k: nat)
    requires Document(ls) && BridgeLast(ls) && k < |ls| && Bridges(ls, k)
    ensures NoBridge(JoinedLine(ls, k))
  {
    hide Stripped, Dirty, Document;
    var ms := JoinedLine(ls, k);
    BridgeIsDirty(ls, k);
    forall j | 0 <= j < |ms| ensures !Bridges(ms, j) {
      if j < k - 1 {
        assert !Bridges(ls, j);
      } else if j > k {
        if Bridges(ls, j + 1) {
          BridgeIsDirty(ls, j + 1);
        }
      }
    }
  }

  /** ms is qs with the empty line k and its carriage return and line feed made one line break. */
  predicate Joins(qs: seq<Line>, ms: seq<Line>, k: nat) {
    && 0 < k < |qs| && qs[k - 1].ending == "\r" && qs[k] == Line("", "\n")
    && ms == qs[..k - 1] + [qs[k - 1].(ending := "\r\n")] + qs[k + 1..]
  }

  lemma JoinsSame(qs: seq<Line>, ms: seq<Line>, k: nat)
    requires Joins(qs, ms, k)
    ensures Join(qs) == Join(ms)
  {
    hide Join;
    var a, rest := qs[k - 1], qs[k + 1..];
    var head := a.(ending := "\r\n");
    assert qs == qs[..k - 1] + ([a, qs[k]] + rest) && ms == qs[..k - 1] + ([head] + rest);
    JoinConcat(qs[..k - 1], [a, qs[k]] + rest);
    JoinConcat(qs[..k - 1], [head] + rest);
    JoinBridge(a, qs[k], head, rest);
  }

  /** Lines before it are stripped alike in both. */
  lemma {:induction false} StripJoins(qs: seq<Line>, ms: seq<Line>, k: nat, order: seq<Range>)
    requires Joins(qs, ms, k) && forall r :: r in order ==> 1 <= r.start.line <= k
    ensures Joins(StripAt(qs, order), StripAt(ms, order), k)
    decreases |order|
  {
    hide Stripped;
    if order != [] {
      assert order[0] in order;
      var j := order[0].start.line - 1;
      assert Joins(Cut(qs, j), Cut(ms, j), k);
      StripJoins(Cut(qs, j), Cut(ms, j), k, order[1..]);
    }
  }

  lemma CutBridgeLast(ls: seq<Line>, k: nat)
    requires Document(ls) && BridgeLast(ls) && k < |ls| && !Bridges(ls, k)
    ensures Document(Cut(ls, k)) && BridgeLast(Cut(ls, k))
  {
    CutDocument(ls, k);
    hide Stripped, Document;
    StrippedTwice(ls[k].text);
    var qs := Cut(ls, k);
    forall j, d | 0 <= j < d < |qs| && Bridges(qs, j) ensures !Dirty(qs[d].text) {
      assert Bridges(ls, j);
    }
  }

  /** The fix of such a line, and the fixes of the lines before it. */
  lemma FixBridge(ls: seq<Line>, order: seq<Range>)
    requires Document(ls) && BridgeLast(ls) && order != [] && NoDup(order)
    requires forall r :: r in order ==> Reports(ls, 1, r)
    requires 0 < order[0].start.line <= |ls| && Bridges(ls, order[0].start.line - 1)
    ensures FixAll(Join(ls), order) == Some(Join(StripAt(ls, order)))
  {
    hide Fixed, Join, Dirty, Document, Stripped, NoBridge, StripAt, BlankRange, JoinedLine;
    var r, rest := order[0], order[1..];
    assert r in order;
    var k := r.start.line - 1;
    var qs, ms := Cut(ls, k), JoinedLine(ls, k);
    FixOne(ls, k);
    BridgedJoin(ls, k);
    JoinedDocument(ls, k);
    JoinedHasNoBridge(ls, k);
    forall x | x in rest
      ensures Reports(ms, 1, x) && 1 <= x.start.line <= k
    {
      assert x in order && x != r;
      JoinedTexts(ls, k, x.start.line - 1);
    }
    FixInOrder(ms, rest);
    JoinedJoins(ls, k);
    StripJoins(qs, ms, k, rest);
    JoinsSame(StripAt(qs, rest), StripAt(ms, rest), k);
    StripFirst(ls, order);
  }

  lemma StripFirst(ls: seq<Line>, order: seq<Range>)
    requires order != [] && 0 < order[0].start.line <= |ls|
    ensures StripAt(ls, order) == StripAt(Cut(ls, order[0].start.line - 1), order[1..])
  {
  }

  lemma JoinedTexts(ls: seq<Line>, k: nat, j: int)
    requires Document(ls) && k < |ls| && Bridges(ls, k)
    ensures 0 <= j < k ==> JoinedLine(ls, k)[j].text == ls[j].text
  {
  }

  lemma JoinedJoins(ls: seq<Line>, k: nat)
    requires Document(ls) && k < |ls| && Bridges(ls, k)
    ensures Joins(Cut(ls, k), JoinedLine(ls, k), k)
  {
    hide Stripped;
  }

  /** The fixes of different lines do not disturb each other, unless one of them takes away a line
      before another. */
  lemma {:induction false} FixAnyOrder(ls: seq<Line>, order: seq<Range>)
    requires Document(ls) && BridgeLast(ls) && NoDup(order) && forall r :: r in order ==> Reports(ls, 1, r)
    ensures FixAll(Join(ls), order) == Some(Join(StripAt(ls, order)))
    decreases |order|
  {
    hide Fixed, Join, Dirty, Document, BridgeLast, Bridges;
    if order != [] {
      var r, rest := order[0], order[1..];
      var k := r.start.line - 1;
      assert r in order;
      if Bridges(ls, k) {
        FixBridge(ls, order);
      } else {
        FixOne(ls, k);
        CutBridgeLast(ls, k);
        var qs := Cut(ls, k);
        forall x | x in rest
          ensures Reports(qs, 1, x)
        {
          assert x in order && x != r;
        }
        FixAnyOrder(qs, rest);
      }
    }
  }

  /** A document with every line stripped has nothing to report. */
  lemma StrippedIsClean(ls: seq<Line>)
    requires Document(ls) && BridgeLast(ls)
    ensures Diagnose(Join(StripParts(ls))) == []
  {
    hide Join, Document, Bridges, BridgeLast, NoBridge, SplitLines, DiagnoseFrom, Stripped;
    if k :| 0 <= k < |ls| && Bridges(ls, k) {
      var js := JoinedLine(ls, k);
      JoinedDocument(ls, k);
      JoinedHasNoBridge(ls, k);
      StrippedJoins(ls, k);
      JoinsSame(StripParts(ls), StripParts(js), k);
      CleanDocument(js);
    } else {
      NoneBridges(ls);
      CleanDocument(ls);
    }
  }

  lemma NoneBridges(ls: seq<Line>)
    requires forall k :: 0 <= k < |ls| ==> !Bridges(ls, k)
    ensures NoBridge(ls)
  {
  }

  lemma StrippedJoins(ls: seq<Line>, k: nat)
    requires Document(ls) && k < |ls| && Bridges(ls, k)
    ensures Joins(StripParts(ls), StripParts(JoinedLine(ls, k)), k)
  {
    hide Stripped, Document;
    var qs, ms := StripParts(ls), StripParts(JoinedLine(ls, k));
    assert |ms| == |qs| - 1;
    assert ms == qs[..k - 1] + [qs[k - 1].(ending := "\r\n")] + qs[k + 1..];
  }

  lemma CleanDocument(ls: seq<Line>)
    requires Document(ls) && NoBridge(ls)
    ensures Diagnose(Join(StripParts(ls))) == []
  {
    hide Join, Document, NoBridge, SplitLines, DiagnoseFrom, Stripped;
    StrippedDocument(ls);
    LinesOfJoin(StripParts(ls));
    DiagnoseDocument(StripParts(ls), 1);
    CleanUnreported(ls, 1);
  }

  /** The reported ranges, applied one by one in any order, strip every line and nothing else, and
      leave nothing to report. */
  lemma AnyOrderStrips(s: string, order: seq<Range>)
    requires multiset(order) == multiset(Diagnose(s)) && BridgeLast(Parse(s))
    ensures FixAll(s, order) == Some(StripLines(s)) && Diagnose(StripLines(s)) == []
  {
    hide FixAll, SplitLines, Fixed, Dirty, Document, BridgeLast, Bridges;
    var ls := Parse(s);
    ReportedRanges(s);
    PermutedNoDup(DirtyRanges(ls, 1), order);
    FixAnyOrder(ls, order);
    var qs := StripParts(ls);
    forall k | 0 <= k < |ls|
      ensures StripAt(ls, order)[k] == qs[k]
    {
      StripAtEach(ls, order, k);
      ReportedOrClean(ls, order, k);
    }
    assert StripAt(ls, order) == qs;
    StrippedIsClean(ls);
  }

  /** What is reported for a text. */
  lemma ReportedRanges(s: string)
    ensures Join(Parse(s)) == s && Document(Parse(s)) && Diagnose(s) == DirtyRanges(Parse(s), 1)
    ensures forall r :: r in Diagnose(s) <==> Reports(Parse(s), 1, r)
    ensures NoDup(Diagnose(s))
  {
    hide SplitLines, Document;
    ParseJoins(s);
    LinesOfJoin(Parse(s));
    DiagnoseDocument(Parse(s), 1);
    DirtyRangesFacts(Parse(s), 1);
  }

  // ---- and otherwise the reported order fails ----

  /** Lines that all have an ending. */
  predicate Complete(ls: seq<Line>) {
    && (forall i :: 0 <= i < |ls| ==> Plain(ls[i].text) && Ending(ls[i].ending))
    && (forall i :: 0 < i < |ls| ==> !Fused(ls[i - 1], ls[i]))
  }

  lemma CompleteTail(ls: seq<Line>)
    requires Complete(ls) && ls != []
    ensures Complete(ls[1..])
  {
    hide Plain, Ending;
    var rest := ls[1..];
    forall i | 0 < i < |rest| ensures !Fused(rest[i - 1], rest[i]) {
      assert rest[i] == ls[i + 1] && rest[i - 1] == ls[i] && !Fused(ls[i + 1 - 1], ls[i + 1]);
    }
  }

  /** The first line of such a text takes the next line feed at most when nothing else follows. */
  lemma FirstOfComplete(ls: seq<Line>, x: string)
    requires Complete(ls) && ls != []
    ensures
      var n := FirstLine(Join(ls) + x);
      var m := |ls[0].text| + |ls[0].ending|;
      m <= n <= m + 1 && (|ls| > 1 ==> n == m)
    ensures Join(ls) + x == ls[0].text + (ls[0].ending + (Join(ls[1..]) + x)) != ""
  {
    hide FirstLine, Plain, Separator;
    var l, rest := ls[0], Join(ls[1..]) + x;
    ConcatAssociates(l.text, l.ending + Join(ls[1..]), x);
    ConcatAssociates(l.ending, Join(ls[1..]), x);
    if |ls| > 1 {
      assert !Fused(ls[1 - 1], ls[1]) && Ending(ls[1].ending);
      StartsOfComplete(ls[1..], x);
    }
    if l.ending == "\r" && rest != "" && rest[0] == '\n' {
      TakesFeed(l.text, rest);
    } else {
      FirstLineOf(l, rest);
    }
  }

  lemma StartsOfComplete(ls: seq<Line>, x: string)
    requires ls != [] && Plain(ls[0].text) && Ending(ls[0].ending)
    ensures (Join(ls) + x)[0] == '\n' ==> ls[0].text == "" && ls[0].ending == "\n"
  {
    var l := ls[0];
    assert Join(ls) == l.text + (l.ending + Join(ls[1..]));
    if l.text != "" {
      assert (Join(ls) + x)[0] == l.text[0] && !Separator(l.text[0]);
    } else {
      assert (Join(ls) + x)[0] == l.ending[0];
      assert l.ending[0] == '\n' && |l.ending| == 1 ==> l.ending == "\n";
    }
  }

  lemma {:induction false} TakesFeed(t: string, rest: string)
    requires Plain(t) && rest != "" && rest[0] == '\n'
    ensures FirstLine(t + ("\r" + rest)) == |t| + 2
    decreases |t|
  {
    var s := t + ("\r" + rest);
    if t == "" {
      assert s[0] == '\r' && s[1] == rest[0];
    } else {
      assert s[0] == t[0] && s[1..] == t[1..] + ("\r" + rest);
      TakesFeed(t[1..], rest);
    }
  }

  /** Lines behind these start behind their text, whatever follows it. */
  lemma {:induction false} BehindComplete(ls: seq<Line>, x: string, r: nat)
    requires Complete(ls) && |ls| <= r <= |SplitLines(Join(ls) + x)|
    ensures LineStart(SplitLines(Join(ls) + x), r) >= |Join(ls)|
    decreases |ls|
  {
    hide FirstLine, Complete;
    if ls != [] {
      FirstOfComplete(ls, x);
      CompleteTail(ls);
      var s, rest := Join(ls) + x, Join(ls[1..]) + x;
      var n, m := FirstLine(s), |ls[0].text| + |ls[0].ending|;
      assert |Join(ls)| == m + |Join(ls[1..])|;
      LineStartShift(s[..n], SplitLines(s[n..]), r - 1);
      if n == m {
        ConcatAssociates(ls[0].text, ls[0].ending, rest);
        assert s[n..] == rest;
        BehindComplete(ls[1..], x, r - 1);
      } else {
        assert ls[1..] == [];
      }
    }
  }

  /** Fixes of lines behind a text leave it in front. */
  lemma {:induction false} FixesStayBehind(ls: seq<Line>, x: string, order: seq<Range>)
    requires Complete(ls) && ls != []
    requires forall r :: r in order ==>
      r.start.line == r.end.line > |ls| && 1 <= r.start.column <= r.end.column
    ensures FixAll(Join(ls) + x, order).Some? ==> Join(ls) <= FixAll(Join(ls) + x, order).value
    decreases |order|
  {
    hide Fixed, Complete, Join;
    if order != [] {
      assert order[0] in order;
      var a, s, e := Join(ls), Join(ls) + x, TextEdit(order[0], "");
      var done := Fixed(s, [e]);
      if done.Changed? {
        FixBehind(ls, x, order[0]);
        var y := done.text[|a|..];
        assert done.text == a + y;
        FixesStayBehind(ls, y, order[1..]);
      }
    }
  }

  lemma FixBehind(ls: seq<Line>, x: string, r: Range)
    requires Complete(ls) && ls != [] && Fixed(Join(ls) + x, [TextEdit(r, "")]).Changed?
    requires r.start.line == r.end.line > |ls| && 1 <= r.start.column <= r.end.column
    ensures Join(ls) <= Fixed(Join(ls) + x, [TextEdit(r, "")]).text
  {
    hide RawLines, Complete, Join, Apply, Fixed, ToOffsets, InBounds;
    var s, e := Join(ls) + x, TextEdit(r, "");
    FixedInBounds(s, e);
    SingleFix(s, r);
    EditBehind(ls, x, r);
    PrefixCut(Join(ls), x, ToOffsets(RawLines(s), e));
  }

  lemma FixedInBounds(s: string, e: TextEdit)
    requires Fixed(s, [e]).Changed?
    ensures InBounds(RawLines(s), e)
  {
    hide RawLines, InBounds, SortAsc, SortDesc, ApplyAll;
    assert InBounds(RawLines(s), [e][0]);
  }

  lemma EditBehind(ls: seq<Line>, x: string, r: Range)
    requires Complete(ls) && ls != [] && InBounds(RawLines(Join(ls) + x), TextEdit(r, ""))
    requires r.start.line == r.end.line > |ls| && 1 <= r.start.column <= r.end.column
    ensures
      var e := ToOffsets(RawLines(Join(ls) + x), TextEdit(r, ""));
      |Join(ls)| <= e.start <= e.end && e.start <= |Join(ls) + x| && e.text == ""
  {
    hide SplitLines, Complete, Join, ContentLength, LineStart;
    NotBlankText(ls, x);
    BehindComplete(ls, x, r.start.line - 1);
    OffsetInLine(Join(ls) + x, r.start);
  }

  lemma NotBlankText(ls: seq<Line>, x: string)
    requires Complete(ls) && ls != []
    ensures Join(ls) + x != ""
  {
    FirstOfComplete(ls, x);
  }

  lemma PrefixCut(a: string, x: string, e: Edit)
    requires |a| <= e.start <= e.end && e.start <= |a + x| && e.text == ""
    ensures a <= Apply(a + x, e)
  {
    assert Take(a + x, e.start)[..|a|] == a;
  }

  /** A blank directly before a line break. */
  predicate BlankBreakAt(s: string, i: nat) {
    i + 1 < |s| && Blank(s[i]) && Separator(s[i + 1])
  }

  lemma {:induction false} StrippedHasNone(ls: seq<Line>, i: nat)
    requires forall k :: 0 <= k < |ls| ==> Plain(ls[k].text) && (ls[k].ending == "" || Ending(ls[k].ending))
    requires forall k :: 0 <= k < |ls| - 1 ==> ls[k].ending != ""
    requires forall k :: 0 <= k < |ls| ==> !Dirty(ls[k].text)
    ensures !BlankBreakAt(Join(ls), i)
    decreases |ls|
  {
    hide Dirty, Stripped, Plain, Ending;
    if ls != [] {
      var l, tail := ls[0], Join(ls[1..]);
      var m := |l.text| + |l.ending|;
      if i >= m {
        StrippedHasNone(ls[1..], i - m);
        ConcatAssociates(l.text, l.ending, tail);
        assert forall j :: m <= j < |Join(ls)| ==> Join(ls)[j] == tail[j - m];
      } else {
        HeadHasNone(l, tail, i);
        if l.ending == "" {
          assert ls[1..] == [];
        }
      }
    }
  }

  lemma HeadHasNone(l: Line, tail: string, i: nat)
    requires Plain(l.text) && (l.ending == tail == "" || Ending(l.ending)) && !Dirty(l.text)
    requires i < |l.text| + |l.ending|
    ensures !BlankBreakAt(l.text + (l.ending + tail), i)
  {
    var s := l.text + (l.ending + tail);
    if i < |l.text| {
      assert s[i] == l.text[i];
      if i + 1 < |l.text| {
        assert s[i + 1] == l.text[i + 1];
      } else {
        LastNotBlank(l.text);
      }
    } else {
      assert s[i] == l.ending[i - |l.text|];
      assert Separator(s[i]);
    }
  }

  lemma LastNotBlank(t: string)
    requires !Dirty(t) && t != ""
    ensures !Blank(t[|t| - 1])
  {
  }

  /** A dirty line with an ending, at the end of the lines before x. */
  lemma BlankBreakStays(ls: seq<Line>, t: string)
    requires ls != [] && Join(ls) <= t && Dirty(ls[|ls| - 1].text) && Ending(ls[|ls| - 1].ending)
    ensures exists i :: BlankBreakAt(t, i)
  {
    hide Join, Ending, Dirty, Blank, Separator, BlankBreakAt;
    var n := |ls| - 1;
    JoinLast(ls);
    LastBlank(ls[n].text);
    EndingBreaks(ls[n].ending);
    BlankBreakAtSeam(Join(ls[..n]), ls[n].text, ls[n].ending, t);
  }

  lemma JoinLast(ls: seq<Line>)
    requires ls != []
    ensures Join(ls) == Join(ls[..|ls|-1]) + (ls[|ls|-1].text + ls[|ls|-1].ending)
  {
    hide Join;
    JoinConcat(ls[..|ls|-1], [ls[|ls|-1]]);
    assert ls == ls[..|ls|-1] + [ls[|ls|-1]];
    JoinOne(ls[|ls|-1]);
  }

  lemma BlankBreakAtSeam(a: string, b: string, c: string, t: string)
    requires b != "" && c != "" && a + (b + c) <= t && Blank(b[|b| - 1]) && Separator(c[0])
    ensures BlankBreakAt(t, |a| + |b| - 1)
  {
    hide Blank, Separator;
    SeamAt(a, b, c, t);
  }

  /** The last character of b and the first of c, in any text that starts with a, b and c. */
  lemma SeamAt(a: string, b: string, c: string, t: string)
    requires b != "" && c != "" && a + (b + c) <= t
    ensures |a| + |b| < |t| && t[|a| + |b| - 1] == b[|b| - 1] && t[|a| + |b|] == c[0]
  {
    var u := a + (b + c);
    assert u[|a| + |b| - 1] == b[|b| - 1] && u[|a| + |b|] == c[0];
    assert t[|a| + |b| - 1] == u[|a| + |b| - 1] && t[|a| + |b|] == u[|a| + |b|];
  }

  lemma JoinOne(l: Line)
    ensures Join([l]) == l.text + l.ending
  {
    assert [l][1..] == [] && l.ending + "" == l.ending;
  }

  lemma LastBlank(t: string)
    requires Dirty(t)
    ensures t != "" && Blank(t[|t| - 1])
  {
  }

  lemma EndingBreaks(e: string)
    requires Ending(e)
    ensures e != "" && Separator(e[0])
  {
  }

  lemma {:induction false} DirtyConcat(a: seq<Line>, b: seq<Line>, line: nat)
    ensures DirtyRanges(a + b, line) == DirtyRanges(a, line) + DirtyRanges(b, line + |a|)
    decreases |a|
  {
    hide Dirty, BlankRange;
    if a == [] {
      assert a + b == b;
    } else {
      assert (a + b)[1..] == a[1..] + b && (a + b)[0] == a[0];
      DirtyConcat(a[1..], b, line + 1);
      var first := if Dirty(a[0].text) then [BlankRange(line, a[0].text)] else [];
      RangesAssociate(first, DirtyRanges(a[1..], line + 1), DirtyRanges(b, line + |a|));
    }
  }

  lemma RangesAssociate(a: seq<Range>, b: seq<Range>, c: seq<Range>)
    ensures (a + b) + c == a + (b + c)
  {
  }

  lemma {:induction false} FixAllConcat(s: string, a: seq<Range>, b: seq<Range>)
    ensures FixAll(s, a + b) == if FixAll(s, a).Some? then FixAll(FixAll(s, a).value, b) else None
    decreases |a|
  {
    hide Fixed;
    if a == [] {
      assert a + b == b;
    } else {
      assert (a + b)[1..] == a[1..] + b;
      var r := Fixed(s, [TextEdit(a[0], "")]);
      if r.Changed? {
        FixAllConcat(r.text, a[1..], b);
      }
    }
  }

  /** Fixes before the first line of blanks between a carriage return and a line feed. */
  lemma {:induction false} FixBefore(ls: seq<Line>, order: seq<Range>, k: nat) returns (qs: seq<Line>)
    requires Document(ls) && k < |ls| && NoDup(order) && forall j :: 0 <= j < k ==> !Bridges(ls, j)
    requires forall r :: r in order ==> Reports(ls, 1, r) && r.start.line <= k
    ensures FixAll(Join(ls), order) == Some(Join(qs)) && Document(qs) && |qs| == |ls| && qs[k..] == ls[k..]
    ensures forall j :: 0 <= j < |ls| ==> qs[j].ending == ls[j].ending
    decreases |order|
  {
    hide Fixed, Join, Dirty, Document, Stripped;
    if order == [] {
      qs := ls;
    } else {
      var r, rest := order[0], order[1..];
      assert r in order;
      var j := r.start.line - 1;
      FixOne(ls, j);
      CutDocument(ls, j);
      StrippedTwice(ls[j].text);
      var cut := Cut(ls, j);
      forall i | 0 <= i < k ensures !Bridges(cut, i) {
        assert !Bridges(ls, i);
      }
      forall x | x in rest
        ensures Reports(cut, 1, x) && x.start.line <= k
      {
        assert x in order && x != r;
      }
      qs := FixBefore(cut, rest, k);
      assert cut[k..] == ls[k..];
    }
  }

  lemma {:induction false} LeastBridge(ls: seq<Line>, top: nat) returns (k: nat)
    requires top < |ls| && Bridges(ls, top)
    ensures k <= top && Bridges(ls, k) && forall j :: 0 <= j < k ==> !Bridges(ls, j)
  {
    if j :| 0 <= j < top && Bridges(ls, j) {
      k := LeastBridge(ls, j);
    } else {
      k := top;
    }
  }

  lemma {:induction false} LeastDirty(ls: seq<Line>, low: nat, top: nat) returns (d: nat)
    requires low <= top < |ls| && Dirty(ls[top].text)
    ensures low <= d < |ls| && Dirty(ls[d].text) && forall j :: low <= j < d ==> !Dirty(ls[j].text)
    decreases top
  {
    hide Dirty;
    if j :| low <= j < top && Dirty(ls[j].text) {
      d := LeastDirty(ls, low, j);
    } else {
      d := top;
    }
  }

  /** The reports behind line k name lines from the next dirty one on. */
  lemma LaterReports(ls: seq<Line>, k: nat, d: nat)
    requires k < d < |ls| && Dirty(ls[d].text) && forall j :: k < j < d ==> !Dirty(ls[j].text)
    ensures DirtyRanges(ls[k + 1..], k + 2) != []
    ensures forall r :: r in DirtyRanges(ls[k + 1..], k + 2) ==>
      r.start.line == r.end.line > d && 1 <= r.start.column <= r.end.column
  {
    hide Dirty, Stripped;
    var rest := ls[k + 1..];
    DirtyRangesFacts(rest, k + 2);
    forall r | r in DirtyRanges(rest, k + 2)
      ensures r.start.line == r.end.line > d && 1 <= r.start.column <= r.end.column
    {
      assert Reports(rest, k + 2, r) && rest[r.start.line - (k + 2)] == ls[r.start.line - 1];
    }
    BlankRangeLine(d + 1, ls[d].text);
    assert rest[d - k - 1] == ls[d] && Reports(rest, k + 2, BlankRange(d + 1, ls[d].text));
  }

  /** When a line is gone, the fix of the last line is refused. */
  lemma LastRefused(ms: seq<Line>, order: seq<Range>)
    requires Document(ms) && |ms| > 0 && order != [] && forall r :: r in order ==> r.start.line > |ms|
    ensures FixAll(Join(ms), order) == None
  {
    hide Join, SplitLines, Document, OffsetOf;
    LinesOfJoin(ms);
    assert order[0] in order;
    var edits := [TextEdit(order[0], "")];
    NoSuchLine(RawLines(Join(ms)), order[0].start);
    assert !InBounds(RawLines(Join(ms)), edits[0]);
  }

  lemma NoSuchLine(lines: seq<string>, p: Position)
    requires p.line > |lines|
    ensures OffsetOf(lines, p) == None
  {
  }

  /** The fixes behind it leave the blanks of the next dirty line. */
  lemma LaterFixesMiss(ms: seq<Line>, d: nat, order: seq<Range>, v: string)
    requires Document(ms) && 0 < d < |ms| && Dirty(ms[d - 1].text) && FixAll(Join(ms), order) == Some(v)
    requires forall r :: r in order ==> r.start.line == r.end.line > d && 1 <= r.start.column <= r.end.column
    ensures exists i :: BlankBreakAt(v, i)
  {
    hide Join, Dirty, FixAll;
    var front, x := ms[..d], Join(ms[d..]);
    assert ms == front + ms[d..];
    JoinConcat(front, ms[d..]);
    FrontComplete(ms, d);
    FixesStayBehind(front, x, order);
    BlankBreakStays(front, v);
  }

  lemma FrontComplete(ms: seq<Line>, d: nat)
    requires Document(ms) && d < |ms|
    ensures Complete(ms[..d])
  {
    hide Plain, Ending;
    forall i | 0 < i < d ensures !Fused(ms[..d][i - 1], ms[..d][i]) {
      assert !Fused(ms[i - 1], ms[i]);
    }
  }

  lemma StrippedHasNoBlankBreak(ls: seq<Line>, i: nat)
    requires Document(ls)
    ensures !BlankBreakAt(Join(StripParts(ls)), i)
  {
    hide Join, Dirty, Separator;
    var qs := StripParts(ls);
    forall k | 0 <= k < |qs| ensures !Dirty(qs[k].text) && Plain(qs[k].text) {
      StrippedClean(ls[k].text);
      assert Plain(ls[k].text);
    }
    StrippedHasNone(qs, i);
  }

  lemma StrippedClean(t: string)
    ensures !Dirty(Stripped(t))
  {
    StrippedTwice(t);
  }

  /** With a dirty line behind a line of blanks between a carriage return and a line feed, applying
      the fixes as they are reported is refused or leaves blanks. */
  lemma ReportedOrderFails(ls: seq<Line>)
    requires Document(ls) && !BridgeLast(ls)
    ensures FixAll(Join(ls), DirtyRanges(ls, 1)) != Some(Join(StripParts(ls)))
  {
    hide Join, Document, FixAll, Fixed, Stripped, Dirty, Bridges, DirtyRanges, BlankRange, JoinedLine;
    var k0, d0 :| 0 <= k0 < d0 < |ls| && Bridges(ls, k0) && Dirty(ls[d0].text);
    var k := LeastBridge(ls, k0);
    var d := LeastDirty(ls, k + 1, d0);
    var d1, r, d2 := DirtyRanges(ls[..k], 1), BlankRange(k + 1, ls[k].text), DirtyRanges(ls[k + 1..], k + 2);
    SplitRanges(ls, k);
    EarlierReports(ls, k);
    var qs := FixBefore(ls, d1, k);
    FixAllConcat(Join(ls), d1, [r] + d2);
    assert qs[k] == qs[k..][0] == ls[k];
    BridgeKept(ls, qs, k);
    FixOne(qs, k);
    BridgedJoin(qs, k);
    JoinedDocument(qs, k);
    var ms := JoinedLine(qs, k);
    FixAllHead(Join(qs), r, d2, Join(ms));
    LaterReports(ls, k, d);
    if d == |ls| - 1 {
      LastRefused(ms, d2);
    } else if FixAll(Join(ms), d2).Some? {
      JoinedAt(qs, k, d);
      assert qs[d] == qs[k..][d - k] == ls[d];
      LaterFixesMiss(ms, d, d2, FixAll(Join(ms), d2).value);
      var i :| BlankBreakAt(FixAll(Join(ms), d2).value, i);
      StrippedHasNoBlankBreak(ls, i);
    }
  }

  lemma SplitRanges(ls: seq<Line>, k: nat)
    requires Document(ls) && k < |ls| && Bridges(ls, k)
    ensures Dirty(ls[k].text)
    ensures DirtyRanges(ls, 1)
         == DirtyRanges(ls[..k], 1) + ([BlankRange(k + 1, ls[k].text)] + DirtyRanges(ls[k + 1..], k + 2))
  {
    hide Document, Dirty, BlankRange, Bridges;
    BridgeIsDirty(ls, k);
    DirtyConcat(ls[..k], ls[k..], 1);
    assert ls == ls[..k] + ls[k..] && ls[k..][1..] == ls[k + 1..];
  }

  lemma EarlierReports(ls: seq<Line>, k: nat)
    requires k < |ls|
    ensures NoDup(DirtyRanges(ls[..k], 1))
    ensures forall r :: r in DirtyRanges(ls[..k], 1) ==> Reports(ls, 1, r) && r.start.line <= k
  {
    hide Dirty, BlankRange;
    DirtyRangesFacts(ls[..k], 1);
  }

  lemma BridgeKept(ls: seq<Line>, qs: seq<Line>, k: nat)
    requires k < |ls| == |qs| && Bridges(ls, k) && qs[k] == ls[k]
    requires forall j :: 0 <= j < |ls| ==> qs[j].ending == ls[j].ending
    ensures Bridges(qs, k)
  {
    hide Stripped;
  }

  lemma FixAllHead(s: string, r: Range, rest: seq<Range>, t: string)
    requires Fixed(s, [TextEdit(r, "")]) == Changed(t)
    ensures FixAll(s, [r] + rest) == FixAll(t, rest)
  {
    hide Fixed;
    assert ([r] + rest)[1..] == rest;
  }

  lemma JoinedAt(qs: seq<Line>, k: nat, d: nat)
    requires Document(qs) && k < d < |qs| && Bridges(qs, k)
    ensures JoinedLine(qs, k)[d - 1] == qs[d]
  {
    hide Document, Bridges;
  }

  /** Applying all reported fixes strips every line, whatever their order, exactly if no line with
      blanks at its end comes behind a line of blanks between a carriage return and a line feed. */
  lemma AnyOrderStripsIff(s: string)
    ensures BridgeLast(Parse(s)) <==>
      forall order :: multiset(order) == multiset(Diagnose(s)) ==> FixAll(s, order) == Some(StripLines(s))
  {
    hide BridgeLast, FixAll, Diagnose;
    if BridgeLast(Parse(s)) {
      forall order | multiset(order) == multiset(Diagnose(s))
        ensures FixAll(s, order) == Some(StripLines(s))
      {
        AnyOrderStrips(s, order);
      }
    } else {
      ReportedRanges(s);
      ReportedOrderFails(Parse(s));
    }
  }

  const BRIDGED := [Line("", "\r"), Line(" ", "\n"), Line("a ", "")]

  /** With blanks alone between a carriage return and a line feed, fixing that line first takes a
      line away, and the fix of the next dirty line is refused. */
  lemma BridgeBreaksOrder()
    ensures Document(BRIDGED) && Join(BRIDGED) == "\r \na "
    ensures Diagnose("\r \na ") == [BlankRange(2, " "), BlankRange(3, "a ")]
    ensures FixAll("\r \na ", Diagnose("\r \na ")) == None
  {
    hide FixAll, Fixed, DiagnoseFrom, SplitLines, Lines;
    var ls, s, rest := BRIDGED, "\r \na ", "\r\na ";
    BridgedText();
    LinesOfJoin(ls);
    DiagnoseDocument(ls, 1);
    BridgedRanges();
    FixOne(ls, 1);
    RefusedFix();
    FixedThenRefused(s, rest, BlankRange(2, " "), BlankRange(3, "a "));
  }

  lemma BridgedText()
    ensures Document(BRIDGED) && Join(BRIDGED) == "\r \na " && Join(Cut(BRIDGED, 1)) == "\r\na "
  {
    hide Stripped, Join, Document;
    var a, b, c := Line("", "\r"), Line(" ", "\n"), Line("a ", "");
    var e := Line("", "\n");
    BridgedDocument();
    JoinThree(a, b, c);
    JoinThree(a, e, c);
    BridgedCut();
    assert "" + ("\r" + (" " + ("\n" + ("a " + "")))) == "\r \na ";
    assert "" + ("\r" + ("" + ("\n" + ("a " + "")))) == "\r\na ";
  }

  lemma BridgedDocument()
    ensures Document(BRIDGED)
  {
  }

  lemma BridgedCut()
    ensures Cut(BRIDGED, 1) == [Line("", "\r"), Line("", "\n"), Line("a ", "")]
  {
    hide Stripped;
    BlanksStripped();
  }

  lemma JoinThree(a: Line, b: Line, c: Line)
    ensures Join([a, b, c]) == a.text + (a.ending + (b.text + (b.ending + (c.text + c.ending))))
  {
    var rest := [b, c];
    assert [a, b, c][1..] == rest && rest[1..] == [c] && [c][1..] == [];
    assert Join([c]) == c.text + (c.ending + "") == c.text + c.ending;
    assert Join(rest) == b.text + (b.ending + (c.text + c.ending));
  }

  lemma BlanksStripped()
    ensures Stripped(" ") == "" && Stripped("a ") == "a" && Stripped("") == ""
  {
    assert " "[..0] == "" && "a "[..1] == "a";
    assert !Blank('a') && Blank(' ');
    assert Stripped("a") == "a";
  }

  lemma BridgedRanges()
    ensures DirtyRanges(BRIDGED, 1) == [BlankRange(2, " "), BlankRange(3, "a ")]
    ensures Dirty(" ")
  {
    hide BlankRange, Stripped;
    BlanksStripped();
    var ls := BRIDGED;
    assert ls[1..][1..] == ls[2..] && ls[2..][1..] == [];
    assert DirtyRanges(ls[2..], 3) == [BlankRange(3, "a ")] + DirtyRanges([], 4);
    assert DirtyRanges(ls[1..], 2) == [BlankRange(2, " ")] + DirtyRanges(ls[2..], 3);
  }

  lemma RefusedFix()
    ensures !Fixed("\r\na ", [TextEdit(BlankRange(3, "a "), "")]).Changed?
  {
    hide SplitLines, Join, Document, Stripped;
    var ls := [Line("", "\r\n"), Line("a ", "")];
    JoinedText();
    LinesOfJoin(ls);
    var edits := [TextEdit(BlankRange(3, "a "), "")];
    assert |RawLines("\r\na ")| == 2;
    assert !InBounds(RawLines("\r\na "), edits[0]);
  }

  lemma JoinedText()
    ensures var ls := [Line("", "\r\n"), Line("a ", "")]; Document(ls) && Join(ls) == "\r\na "
  {
    var ls := [Line("", "\r\n"), Line("a ", "")];
    assert ls[1..][1..] == [] && Join(ls[1..]) == "a ";
    assert "" + ("\r\n" + "a ") == "\r\na ";
  }

  lemma FixedThenRefused(s: string, t: string, a: Range, b: Range)
    requires Fixed(s, [TextEdit(a, "")]) == Changed(t) && !Fixed(t, [TextEdit(b, "")]).Changed?
    ensures FixAll(s, [a, b]) == None
  {
    hide Fixed;
    assert [a, b][1..] == [b];
    assert FixAll(t, [b]) == None;
  }

  lemma StrippedDocument(ls: seq<Line>)
    requires Document(ls) && NoBridge(ls)
    ensures Document(StripParts(ls))
  {
    hide Stripped, Separator;
    var qs := StripParts(ls);
    forall k | 0 <= k < |ls| ensures Plain(qs[k].text) {
      assert Plain(ls[k].text);
    }
    forall k | 0 < k < |ls| ensures !Fused(qs[k - 1], qs[k]) {
      assert !Bridges(ls, k);
    }
  }

  lemma ReportedOrClean(ls: seq<Line>, order: seq<Range>, k: nat)
    requires k < |ls| && forall r :: r in order <==> Reports(ls, 1, r)
    ensures (exists r :: r in order && r.start.line == k + 1) || Stripped(ls[k].text) == ls[k].text
  {
    if Dirty(ls[k].text) {
      var r := BlankRange(k + 1, ls[k].text);
      assert Reports(ls, 1, r) && r in order;
    }
  }

  lemma {:induction false} CleanUnreported(ls: seq<Line>, line: nat)
    ensures DirtyRanges(StripParts(ls), line) == []
    decreases |ls|
  {
    if ls != [] {
      assert StripParts(ls)[1..] == StripParts(ls[1..]);
      CleanUnreported(ls[1..], line + 1);
      StrippedTwice(ls[0].text);
    }
  }

  lemma StrippedTwice(s: string)
    ensures Stripped(Stripped(s)) == Stripped(s)
  {
    var r := Stripped(s);
    assert r != [] ==> !Blank(r[|r| - 1]);
  }
}
