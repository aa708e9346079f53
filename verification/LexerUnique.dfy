/** What the token rules of the Pine lexer determine: the tokens of a text, the place of its error,
    and which texts get wrong positions. */
module LexerUnique {
  import opened LexerSpec

  // ---- numbers ----

  /** The end of the digits that start at i. */
  function DigitsEnd(s: string, i: nat): (j: nat)
    requires i <= |s|
    ensures i <= j <= |s| && !DigitAt(s, j) && forall k :: i <= k < j ==> Digit(s[k])
    decreases |s| - i
  {
    if DigitAt(s, i) then DigitsEnd(s, i + 1) else i
  }

  lemma {:induction false} DigitsEndIs(s: string, i: nat, j: nat)
    requires i <= j <= |s| && !DigitAt(s, j) && forall k :: i <= k < j ==> Digit(s[k])
    ensures DigitsEnd(s, i) == j
    decreases j - i
  {
    if i < j {
      DigitsEndIs(s, i + 1, j);
    }
  }

  function FractionEnd(s: string, g: nat, a: nat): (b: nat)
    requires g <= a <= |s|
    ensures a <= b <= |s|
  {
    if DotAt(s, a) && (a > g ==> !DotAt(s, a + 1)) then DigitsEnd(s, a + 1) else a
  }

  function ExponentEnd(s: string, b: nat): (e: nat)
    requires b <= |s|
    ensures b <= e <= |s|
  {
    if ExponentAt(s, b) then DigitsEnd(s, if SignAt(s, b + 1) then b + 2 else b + 1) else b
  }

  /** Where the number at g ends. */
  function NumberEnd(s: string, g: nat): nat
    requires g <= |s|
  {
    ExponentEnd(s, FractionEnd(s, g, DigitsEnd(s, g)))
  }

  lemma IntegerEnd(s: string, g: nat, end: nat, t: Token)
    requires g < end <= |s| && t.value == s[g..end] && t.kind == Integer && Fits(t) && Maximal(s, end, t)
    ensures end == DigitsEnd(s, g) == NumberEnd(s, g)
  {
    forall k | g <= k < end ensures Digit(s[k]) {
      assert s[k] == t.value[k - g];
    }
    DigitsEndIs(s, g, end);
  }

  lemma FloatEnd(s: string, g: nat, end: nat, t: Token)
    requires g < end <= |s| && t.value == s[g..end] && t.kind == Float && Fits(t) && Maximal(s, end, t)
    ensures end == NumberEnd(s, g) > DigitsEnd(s, g)
    ensures !Digit(s[g]) ==> s[g] == '.' && DigitAt(s, g + 1)
  {
    hide Maximal, Number, NumberEnd, ExponentEnd, FractionEnd, DigitsEnd;
    var a, b := FloatSplit(t);
    FloatDigits(s, g, end, t, a, b);
    FloatFraction(s, g, end, t, a, b);
    FloatExponent(s, g, end, t, a, b);
    NumberEndIs(s, g, a, b);
  }

  lemma FloatSplit(t: Token) returns (a: nat, b: nat)
    requires t.kind == Float && Fits(t)
    ensures Number(t.value, a, b) && a < |t.value|
  {
    hide Number;
    a, b :| Number(t.value, a, b) && a < |t.value|;
  }

  lemma NumberEndIs(s: string, g: nat, a: nat, b: nat)
    requires g <= |s| && DigitsEnd(s, g) == g + a && FractionEnd(s, g, g + a) == g + b
    ensures NumberEnd(s, g) == ExponentEnd(s, g + b)
  {
    hide ExponentEnd, FractionEnd, DigitsEnd;
  }

  lemma FloatDigits(s: string, g: nat, end: nat, t: Token, a: nat, b: nat)
    requires g < end <= |s| && t.value == s[g..end] && Number(t.value, a, b) && a < |t.value|
    ensures DigitsEnd(s, g) == g + a
    ensures if b > a then DotAt(s, g + a) else s[g + a] == 'e' || s[g + a] == 'E'
    ensures !Digit(s[g]) ==> s[g] == '.' && DigitAt(s, g + 1)
  {
    var v := t.value;
    assert s[g + a] == v[a];
    if b > a {
      assert v[a..b][0] == v[a];
      if a == 0 {
        assert v[a..b][1..][0] == v[1] == s[g + 1];
      }
    } else {
      assert v[b..][0] == v[a];
    }
    forall k | g <= k < g + a ensures Digit(s[k]) {
      assert s[k] == v[k - g] == v[..a][k - g];
    }
    DigitsEndIs(s, g, g + a);
    if a > 0 {
      assert Digit(s[g]);
    }
  }

  lemma FloatFraction(s: string, g: nat, end: nat, t: Token, a: nat, b: nat)
    requires g < end <= |s| && t.value == s[g..end] && t.kind == Float && Maximal(s, end, t)
    requires Number(t.value, a, b) && a < |t.value| && DigitsEnd(s, g) == g + a
    requires if b > a then DotAt(s, g + a) else s[g + a] == 'e' || s[g + a] == 'E'
    ensures FractionEnd(s, g, g + a) == g + b
  {
    hide NoExponent, ExponentAt, DigitsEnd;
    var v := t.value;
    if b > a {
      FractionDigits(s, g, end, v, a, b);
      if b < |v| {
        assert v[b..][0] == v[b] == s[g + b];
      } else if b == a + 1 {
        assert v[|v| - 1] == v[a] == s[g + a];
      }
      DigitsEndIs(s, g + a + 1, g + b);
    }
  }

  lemma FractionDigits(s: string, g: nat, end: nat, v: string, a: nat, b: nat)
    requires g < end <= |s| && v == s[g..end] && a < b <= |v| && Fraction(v[a..b])
    ensures forall k :: g + a + 1 <= k < g + b ==> Digit(s[k])
  {
    forall k | g + a + 1 <= k < g + b ensures Digit(s[k]) {
      assert s[k] == v[k - g] == v[a..b][1..][k - g - a - 1];
    }
  }

  lemma FloatExponent(s: string, g: nat, end: nat, t: Token, a: nat, b: nat)
    requires g < end <= |s| && t.value == s[g..end] && t.kind == Float && Maximal(s, end, t)
    requires Number(t.value, a, b) && a < |t.value|
    ensures ExponentEnd(s, g + b) == end
  {
    var v := t.value;
    if b == |v| {
      forall i | 0 <= i < |v| ensures v[i] != 'e' && v[i] != 'E' {
        if i < a {
          assert v[i] == v[..a][i];
        } else if i > a {
          assert v[i] == v[a..b][1..][i - a - 1];
        } else {
          assert v[i] == v[a..b][0];
        }
      }
    } else {
      ExponentShape(s, g, end, v, b);
    }
  }

  lemma ExponentShape(s: string, g: nat, end: nat, v: string, b: nat)
    requires g < end <= |s| && v == s[g..end] && b < |v| && Exponent(v[b..]) && !DigitAt(s, end)
    ensures ExponentAt(s, g + b) && ExponentEnd(s, g + b) == end
  {
    var x := v[b..];
    assert forall i :: 0 <= i < |x| ==> x[i] == s[g + b + i];
    var d := if SignAt(s, g + b + 1) then 2 else 1;
    assert s[g + b + 1] == x[1];
    forall k | g + b + d <= k < end ensures Digit(s[k]) {
      assert s[k] == x[k - g - b] == x[d..][k - g - b - d];
    }
    assert Digit(s[g + b + d]);
    DigitsEndIs(s, g + b + d, end);
  }

  // ---- one token at one place ----

  /** The first character decides between the groups of kinds. */
  lemma FirstOf(s: string, g: nat, end: nat, t: Token)
    requires g < end <= |s| && t.value == s[g..end] && t.kind != EOF && Fits(t) && Maximal(s, end, t)
    ensures t.kind == StringLit <==> Quote(s[g])
    ensures t.kind == Comment <==> s[g] == '/' && g + 1 < |s| && s[g + 1] == '/'
    ensures t.kind in {Boolean, Keyword, Identifier} <==> Letter(s[g])
    ensures t.kind in {Integer, Float} <==> Digit(s[g]) || (s[g] == '.' && DigitAt(s, g + 1))
    ensures t.kind == Operator <==>
      s[g] != '.' && DelimiterKind(s[g]) == EOF && !Quote(s[g]) && !Letter(s[g]) && !Digit(s[g])
      && !(s[g] == '/' && g + 1 < |s| && s[g + 1] == '/')
  {
    hide Maximal, Number, Closes, Exponent, Fraction;
    assert t.value[0] == s[g];
    match t.kind {
      case Comment =>
        assert t.value[1] == s[g + 1];
      case Float =>
        FloatEnd(s, g, end, t);
      case Dot =>
        DotAlone(s, g, end, t);
      case Operator =>
        OperatorFirst(s, g, end, t);
      case _ =>
    }
  }

  lemma DotAlone(s: string, g: nat, end: nat, t: Token)
    requires g < end <= |s| && t.value == s[g..end] && t.kind == Dot && Fits(t) && Maximal(s, end, t)
    ensures s[g] == '.' && !DigitAt(s, g + 1)
  {
    assert t.value[0] == s[g] && end == g + 1;
  }

  lemma OperatorFirst(s: string, g: nat, end: nat, t: Token)
    requires g < end <= |s| && t.value == s[g..end] && t.kind == Operator && Fits(t) && Maximal(s, end, t)
    ensures s[g] in {'?', ':', '+', '-', '*', '/', '%', '<', '>', '=', '!'}
    ensures !(s[g] == '/' && g + 1 < |s| && s[g + 1] == '/')
  {
    var v := t.value;
    assert v[0] == s[g];
    if |v| == 1 {
      assert end < |s| ==> v + [s[end]] == [s[g], s[g + 1]];
    } else {
      assert |v| == 2 && v == [s[g], s[g + 1]];
    }
  }

  /** Two operators at one place: the longer one wins. */
  lemma OperatorOnce(s: string, g: nat, end: nat, t: Token, other: nat, u: Token)
    requires g < end <= |s| && t.value == s[g..end] && t.kind == Operator && Fits(t) && Maximal(s, end, t)
    requires g < other <= |s| && u.value == s[g..other] && u.kind == Operator && Fits(u) && Maximal(s, other, u)
    ensures end == other
  {
    OperatorLonger(s, g, end, t, other, u);
    OperatorLonger(s, g, other, u, end, t);
  }

  lemma OperatorLonger(s: string, g: nat, end: nat, t: Token, other: nat, u: Token)
    requires g < end <= |s| && t.value == s[g..end] && t.kind == Operator && Fits(t) && Maximal(s, end, t)
    requires g < other <= |s| && u.value == s[g..other] && u.kind == Operator && Fits(u)
    ensures other <= end
  {
    assert |t.value| in {1, 2} && |u.value| in {1, 2};
    assert end < |s| ==> t.value + [s[end]] == s[g..end + 1];
  }

  lemma CommentOnce(s: string, g: nat, end: nat, t: Token, other: nat, u: Token)
    requires g < end <= |s| && t.value == s[g..end] && t.kind == Comment && Fits(t) && Maximal(s, end, t)
    requires g < other <= |s| && u.value == s[g..other] && u.kind == Comment && Fits(u)
    ensures other <= end
  {
    forall k | g <= k < other ensures s[k] != '\r' && s[k] != '\n' {
      assert s[k] == u.value[k - g] && u.value[k - g] in u.value;
    }
  }

  lemma WordOnce(s: string, g: nat, end: nat, t: Token, other: nat, u: Token)
    requires g < end <= |s| && t.value == s[g..end] && t.kind in {Boolean, Keyword, Identifier} && Maximal(s, end, t)
    requires g < other <= |s| && u.value == s[g..other] && u.kind in {Boolean, Keyword, Identifier} && Fits(u)
    ensures other <= end
  {
    forall k | g <= k < other ensures Letter(s[k]) || Digit(s[k]) {
      assert s[k] == u.value[k - g];
    }
  }

  lemma LiteralEnd(s: string, g: nat, end: nat, t: Token)
    requires g < end <= |s| && t.value == s[g..end] && t.kind == StringLit && Fits(t)
    ensures Closes(s, s[g], g + 1, end)
  {
    hide Closes;
    assert t.value[0] == s[g];
    ClosesShift(s, s[g], g, g + 1, end);
  }

  /** At most one token fits at one place, in extent and kind. */
  lemma TokenOnce(s: string, g: nat, end: nat, t: Token, other: nat, u: Token, escaped: set<nat>)
    requires TokenAt(s, g, end, t, escaped) && TokenAt(s, g, other, u, escaped)
    ensures end == other && t == u
  {
    hide Maximal, Fits, Closes, At;
    FirstOf(s, g, end, t);
    FirstOf(s, g, other, u);
    if Quote(s[g]) {
      LiteralEnd(s, g, end, t);
      LiteralEnd(s, g, other, u);
      ClosesOnce(s, s[g], g + 1, end, other);
    } else if t.kind == Comment {
      CommentOnce(s, g, end, t, other, u);
      CommentOnce(s, g, other, u, end, t);
    } else if Letter(s[g]) {
      WordOnce(s, g, end, t, other, u);
      WordOnce(s, g, other, u, end, t);
      SameWordKind(t, u);
    } else if t.kind in {Integer, Float} {
      NumberOnce(s, g, end, t);
      NumberOnce(s, g, other, u);
    } else if t.kind == Operator {
      OperatorOnce(s, g, end, t, other, u);
    } else {
      DelimiterOnce(s, g, end, t);
      DelimiterOnce(s, g, other, u);
    }
  }

  lemma SameWordKind(t: Token, u: Token)
    requires t.kind in {Boolean, Keyword, Identifier} && u.kind in {Boolean, Keyword, Identifier}
    requires Fits(t) && Fits(u)
    ensures t.value == u.value ==> t.kind == u.kind
  {
    BooleansNoKeywords();
  }

  lemma BooleansNoKeywords()
    ensures BOOLEANS !! KEYWORDS
  {
    assert "true" !in KEYWORDS && "false" !in KEYWORDS;
  }

  lemma NumberOnce(s: string, g: nat, end: nat, t: Token)
    requires g < end <= |s| && t.value == s[g..end] && t.kind in {Integer, Float} && Fits(t) && Maximal(s, end, t)
    ensures end == NumberEnd(s, g) && (t.kind == Integer <==> NumberEnd(s, g) == DigitsEnd(s, g))
  {
    if t.kind == Integer {
      IntegerEnd(s, g, end, t);
    } else {
      FloatEnd(s, g, end, t);
    }
  }

  lemma DelimiterOnce(s: string, g: nat, end: nat, t: Token)
    requires g < end <= |s| && t.value == s[g..end] && Fits(t)
    requires t.kind !in {Comment, StringLit, Integer, Float, Boolean, Keyword, Identifier, Operator, EOF}
    ensures end == g + 1 && t.kind == DelimiterKind(s[g])
  {
    assert t.value[0] == s[g];
  }

  // ---- one token list for one text ----

  lemma RightHead(s: string, i: nat, tokens: seq<Token>, escaped: set<nat>)
    requires Right(s, i, tokens, escaped) && |tokens| > 1
    ensures
      var g := GapEnd(s, i);
      var end := g + |tokens[0].value|;
      TokenAt(s, g, end, tokens[0], escaped) && Right(s, end, tokens[1..], escaped + EscapesOf(s, g, tokens[0]))
  {
    hide Fits, Maximal, At, EscapesOf;
  }

  /** The rules leave one list of tokens: kinds, values, lines and columns. */
  lemma {:induction false} RightOnce(s: string, i: nat, a: seq<Token>, b: seq<Token>, escaped: set<nat>)
    requires Right(s, i, a, escaped) && Right(s, i, b, escaped)
    ensures a == b
    decreases |a|
  {
    hide TokenAt, EscapesOf, At, Right;
    RightEnd(s, i, a, escaped);
    RightEnd(s, i, b, escaped);
    if GapEnd(s, i) < |s| {
      var g := GapEnd(s, i);
      RightHead(s, i, a, escaped);
      RightHead(s, i, b, escaped);
      TokenInside(s, g, g + |a[0].value|, a[0], escaped);
      TokenOnce(s, g, g + |a[0].value|, a[0], g + |b[0].value|, b[0], escaped);
      RightOnce(s, g + |a[0].value|, a[1..], b[1..], escaped + EscapesOf(s, g, a[0]));
      assert a == [a[0]] + a[1..] && b == [b[0]] + b[1..];
    }
  }

  /** The end of file, and nothing else, stands where only a gap is left. */
  lemma RightEnd(s: string, i: nat, tokens: seq<Token>, escaped: set<nat>)
    requires Right(s, i, tokens, escaped)
    ensures i <= |s| && tokens != [] && (|tokens| == 1 <==> GapEnd(s, i) == |s|)
    ensures |tokens| == 1 ==> var (line, column) := At(s, escaped); tokens == [Token(EOF, "", line, column)]
  {
    hide AllFit, Fits, Maximal, At, EscapesOf, GapEnd;
    assert s[..|s|] == s;
  }

  lemma StuckHasNoToken(s: string, g: nat, end: nat, t: Token, escaped: set<nat>)
    requires Stuck(s, g)
    ensures !TokenAt(s, g, end, t, escaped)
  {
    hide Maximal, Closes, At;
    if TokenAt(s, g, end, t, escaped) {
      assert t.value[0] == s[g] && (|t.value| == 2 ==> t.value == [s[g], s[g + 1]]);
      FirstOf(s, g, end, t);
      if Quote(s[g]) {
        LiteralEnd(s, g, end, t);
      } else if t.kind !in {Comment, Integer, Float, Boolean, Keyword, Identifier, Operator} {
        DelimiterOnce(s, g, end, t);
      }
      assert false;
    }
  }

  /** The error of a text: the tokens before it, and the place where no token starts. */
  ghost predicate FailsAt(s: string, line: nat, column: nat) {
    exists tokens: seq<Token>, j: nat :: FailsBehind(s, tokens, j, line, column)
  }

  ghost predicate FailsBehind(s: string, tokens: seq<Token>, j: nat, line: nat, column: nat) {
    && j <= |s| && LexedTo(s, 0, tokens, j, {})
    && var g := GapEnd(s, j);
       Stuck(s, g) && (line, column) == At(s[..g], AllEscapes(s, 0, tokens))
  }

  lemma {:induction false} NotBoth(s: string, i: nat, before: seq<Token>, j: nat, tokens: seq<Token>, escaped: set<nat>)
    requires LexedTo(s, i, before, j, escaped) && j <= |s| && Stuck(s, GapEnd(s, j))
    ensures !Right(s, i, tokens, escaped)
    decreases |before|
  {
    hide TokenAt, EscapesOf, At, Stuck, AllFit, Counted;
    if Right(s, i, tokens, escaped) {
      var g := GapEnd(s, i);
      StuckInside(s, GapEnd(s, j));
      if |tokens| > 1 {
        RightHead(s, i, tokens, escaped);
      }
      if before == [] {
        if |tokens| > 1 {
          StuckHasNoToken(s, g, g + |tokens[0].value|, tokens[0], escaped);
        }
        assert false;
      } else {
        TokenInside(s, g, g + |before[0].value|, before[0], escaped);
        assert |tokens| > 1;
        TokenOnce(s, g, g + |before[0].value|, before[0], g + |tokens[0].value|, tokens[0], escaped);
        NotBoth(s, g + |before[0].value|, before[1..], j, tokens[1..], escaped + EscapesOf(s, g, before[0]));
        assert false;
      }
    }
  }

  lemma StuckInside(s: string, g: nat)
    requires Stuck(s, g)
    ensures g < |s|
  {
  }

  /** A text that has a right list of tokens has no error. */
  lemma ValidNeverFails(s: string, tokens: seq<Token>, line: nat, column: nat)
    requires Right(s, 0, tokens, {})
    ensures !FailsAt(s, line, column)
  {
    hide Right, LexedTo, Stuck;
    if FailsAt(s, line, column) {
      var before: seq<Token>, j: nat :| FailsBehind(s, before, j, line, column);
      NotBoth(s, 0, before, j, tokens, {});
      assert false;
    }
  }

  lemma {:induction false} StuckOnce(s: string, i: nat, a: seq<Token>, j: nat, b: seq<Token>, k: nat, escaped: set<nat>)
    requires LexedTo(s, i, a, j, escaped) && j <= |s| && Stuck(s, GapEnd(s, j))
    requires LexedTo(s, i, b, k, escaped) && k <= |s| && Stuck(s, GapEnd(s, k))
    ensures a == b && j == k
    decreases |a|
  {
    hide TokenAt, EscapesOf, Stuck;
    var g := GapEnd(s, i);
    if a == [] && b != [] {
      StuckHasNoToken(s, g, g + |b[0].value|, b[0], escaped);
    } else if a != [] && b == [] {
      StuckHasNoToken(s, g, g + |a[0].value|, a[0], escaped);
    } else if a != [] {
      TokenOnce(s, g, g + |a[0].value|, a[0], g + |b[0].value|, b[0], escaped);
      StuckOnce(s, g + |a[0].value|, a[1..], j, b[1..], k, escaped + EscapesOf(s, g, a[0]));
      assert a == [a[0]] + a[1..] && b == [b[0]] + b[1..];
    }
  }

  /** The error of a text has one position. */
  lemma FailsOnce(s: string, line: nat, column: nat, otherLine: nat, otherColumn: nat)
    requires FailsAt(s, line, column) && FailsAt(s, otherLine, otherColumn)
    ensures line == otherLine && column == otherColumn
  {
    hide LexedTo, Stuck, At, AllEscapes;
    var a: seq<Token>, j: nat :| FailsBehind(s, a, j, line, column);
    var b: seq<Token>, k: nat :| FailsBehind(s, b, k, otherLine, otherColumn);
    StuckOnce(s, 0, a, j, b, k, {});
  }

  // ---- which texts get right positions ----

  /** The end of the line in which i stands. */
  function LineEnd(s: string, i: nat): (j: nat)
    requires i <= |s|
    ensures i <= j <= |s|
    decreases |s| - i
  {
    if i < |s| && s[i] != '\r' && s[i] != '\n' then LineEnd(s, i + 1) else i
  }

  lemma {:induction false} LineEndIs(s: string, i: nat, j: nat)
    requires i <= j <= |s| && (j < |s| ==> s[j] == '\r' || s[j] == '\n')
    requires forall k :: i <= k < j ==> s[k] != '\r' && s[k] != '\n'
    ensures LineEnd(s, i) == j
    decreases j - i
  {
    if i < j {
      LineEndIs(s, i + 1, j);
    }
  }

  /** Behind the next quote q that no backslash takes. */
  function QuoteEnd(s: string, q: char, i: nat): (j: nat)
    requires i <= |s|
    ensures i <= j <= |s|
    decreases |s| - i
  {
    if i == |s| then i
    else if s[i] == '\\' then (if i + 2 <= |s| then QuoteEnd(s, q, i + 2) else |s|)
    else if s[i] == q then i + 1
    else QuoteEnd(s, q, i + 1)
  }

  lemma {:induction false} QuoteEndIs(s: string, q: char, i: nat, end: nat)
    requires end <= |s| && Closes(s, q, i, end)
    ensures i <= |s| && QuoteEnd(s, q, i) == end
    decreases end - i
  {
    if s[i] == '\\' {
      QuoteEndIs(s, q, i + 2, end);
    } else if s[i] != q {
      QuoteEndIs(s, q, i + 1, end);
    }
  }

  /** The carriage returns that a backslash takes inside string literals: a scan of the text that
      knows comments and quotes only. */
  function EscapedReturns(s: string, i: nat): set<nat>
    requires i <= |s|
    decreases |s| - i
  {
    if i == |s| then {}
    else if s[i] == '/' && i + 1 < |s| && s[i + 1] == '/' then EscapedReturns(s, LineEnd(s, i + 1))
    else if Quote(s[i]) then
      var end := QuoteEnd(s, s[i], i + 1);
      Escapes(s, i + 1, end) + EscapedReturns(s, end)
    else EscapedReturns(s, i + 1)
  }

  /** What is neither a quote nor a comment is passed over. */
  lemma {:induction false} PassOver(s: string, i: nat, j: nat)
    requires i <= j <= |s|
    requires forall k :: i <= k < j ==> !Quote(s[k]) && !(s[k] == '/' && k + 1 < |s| && s[k + 1] == '/')
    ensures EscapedReturns(s, i) == EscapedReturns(s, j)
    decreases j - i
  {
    if i < j {
      PassOver(s, i + 1, j);
    }
  }

  lemma SoundOfPlain(s: string, g: nat, end: nat, t: Token)
    requires g < end <= |s| && t.value == s[g..end] && t.kind !in {EOF, StringLit, Comment} && Fits(t)
    requires Maximal(s, end, t)
    ensures forall k :: g <= k < end ==> !Quote(s[k]) && !(s[k] == '/' && k + 1 < |s| && s[k + 1] == '/')
  {
    FirstOf(s, g, end, t);
    forall k | g <= k < end
      ensures !Quote(s[k]) && !(s[k] == '/' && k + 1 < |s| && s[k + 1] == '/')
    {
      assert s[k] == t.value[k - g];
      if k > g {
        LaterCharacters(t, k - g);
      }
    }
  }

  /** Behind the first character of such a token there is no quote and no slash. */
  lemma LaterCharacters(t: Token, i: nat)
    requires 0 < i < |t.value| && t.kind !in {EOF, StringLit, Comment} && Fits(t)
    ensures !Quote(t.value[i]) && t.value[i] != '/'
  {
    if t.kind == Float {
      var a, b := FloatSplit(t);
      NumberCharacters(t.value, a, b, i);
    }
  }

  lemma NumberCharacters(v: string, a: nat, b: nat, i: nat)
    requires Number(v, a, b) && i < |v|
    ensures Digit(v[i]) || v[i] in {'.', 'e', 'E', '+', '-'}
  {
    if i < a {
      assert v[i] == v[..a][i];
    } else if i < b {
      FractionCharacters(v[a..b], i - a);
      assert v[i] == v[a..b][i - a];
    } else {
      ExponentCharacters(v[b..], i - b);
      assert v[i] == v[b..][i - b];
    }
  }

  lemma FractionCharacters(x: string, i: nat)
    requires Fraction(x) && i < |x|
    ensures Digit(x[i]) || x[i] == '.'
  {
    if i > 0 {
      assert x[i] == x[1..][i - 1];
    }
  }

  lemma ExponentCharacters(x: string, i: nat)
    requires Exponent(x) && i < |x|
    ensures Digit(x[i]) || x[i] in {'e', 'E', '+', '-'}
  {
    if i > 1 {
      assert x[i] == x[1..][i - 1] == x[2..][i - 2];
    } else if i == 1 {
      assert x[1] == x[1..][0];
    }
  }

  lemma ScanToken(s: string, g: nat, end: nat, t: Token)
    requires g < end <= |s| && t.value == s[g..end] && t.kind != EOF && Fits(t) && Maximal(s, end, t)
    ensures EscapedReturns(s, g) == EscapesOf(s, g, t) + EscapedReturns(s, end)
  {
    hide Closes, Escapes;
    FirstOf(s, g, end, t);
    if t.kind == StringLit {
      LiteralEnd(s, g, end, t);
      QuoteEndIs(s, s[g], g + 1, end);
    } else if t.kind == Comment {
      CommentEnd(s, g, end, t);
    } else {
      SoundOfPlain(s, g, end, t);
      PassOver(s, g, end);
    }
  }

  lemma CommentEnd(s: string, g: nat, end: nat, t: Token)
    requires g < end <= |s| && t.value == s[g..end] && t.kind == Comment && Fits(t) && Maximal(s, end, t)
    ensures LineEnd(s, g + 1) == end
  {
    forall k | g + 1 <= k < end ensures s[k] != '\r' && s[k] != '\n' {
      assert s[k] == t.value[k - g] && t.value[k - g] in t.value;
    }
    LineEndIs(s, g + 1, end);
  }

  /** The scan finds what the tokens hold. */
  lemma {:induction false} ScanTokens(s: string, i: nat, tokens: seq<Token>)
    requires Tiles(s, i, tokens) && AllFit(s, i, tokens)
    ensures EscapedReturns(s, i) == AllEscapes(s, i, tokens)
    decreases |tokens|
  {
    hide Fits, Maximal, EscapesOf;
    var g := GapEnd(s, i);
    PassOver(s, i, g);
    if |tokens| > 1 {
      ScanToken(s, g, g + |tokens[0].value|, tokens[0]);
      ScanTokens(s, g + |tokens[0].value|, tokens[1..]);
    } else {
      EndHasNone(s, tokens[0]);
      assert tokens[1..] == [];
    }
  }

  lemma EndHasNone(s: string, t: Token)
    requires t.kind == EOF
    ensures EscapesOf(s, |s|, t) == {}
  {
  }

  lemma {:induction false} EscapesReturns(s: string, i: nat, tokens: seq<Token>)
    requires Tiles(s, i, tokens) && AllFit(s, i, tokens)
    ensures Returns(s, AllEscapes(s, i, tokens))
    ensures forall k :: k in AllEscapes(s, i, tokens) ==> k > 0 && s[k - 1] == '\\'
    decreases |tokens|
  {
    hide Maximal, Fits, EscapesOf, GapEnd;
    if |tokens| > 1 {
      var g := GapEnd(s, i);
      var end := g + |tokens[0].value|;
      TokenEscapes(s, g, tokens[0]);
      EscapesReturns(s, end, tokens[1..]);
      assert AllEscapes(s, i, tokens) == EscapesOf(s, g, tokens[0]) + AllEscapes(s, end, tokens[1..]);
    } else {
      NoneAtEnd(s, i, tokens);
    }
  }

  /** Those of one token lie inside it. */
  lemma TokenEscapes(s: string, g: nat, t: Token)
    requires g + |t.value| <= |s| && t.value == s[g..g + |t.value|] && Fits(t)
    ensures forall k :: k in EscapesOf(s, g, t) ==>
      g < k && k + 1 < g + |t.value| && s[k - 1] == '\\' && s[k] == '\r' && s[k + 1] != '\n'
  {
    hide Escapes, Closes;
    if t.kind == StringLit {
      LiteralEnd(s, g, g + |t.value|, t);
      EscapesReturn(s, s[g], g + 1, g + |t.value|);
    }
  }

  /** Every token is placed right exactly if no escaped carriage return stands before its end. */
  lemma {:induction false} PlacedIffNone(s: string, i: nat, tokens: seq<Token>, escaped: set<nat>)
    requires Right(s, i, tokens, escaped) && Returns(s, escaped + AllEscapes(s, i, tokens))
    requires forall k :: k in escaped ==> k < i
    ensures Placed(s, i, tokens) <==> escaped + AllEscapes(s, i, tokens) == {}
    decreases |tokens|
  {
    hide EscapesOf, Fits, Maximal, At, Returns, AllEscapes, GapEnd;
    var g := GapEnd(s, i);
    PositionLost(s, g, escaped, AllEscapes(s, i, tokens));
    if |tokens| > 1 {
      var end := g + |tokens[0].value|;
      EscapesBefore(s, g, tokens[0]);
      EscapesRegroup(s, i, tokens, escaped);
      PlacedIffNone(s, end, tokens[1..], escaped + EscapesOf(s, g, tokens[0]));
    } else {
      NoneAtEnd(s, i, tokens);
    }
  }

  /** The position at g is wrong exactly if some escaped carriage return stands before it. */
  lemma PositionLost(s: string, g: nat, escaped: set<nat>, others: set<nat>)
    requires g <= |s| && Returns(s, escaped + others) && forall k :: k in escaped ==> k < g
    ensures At(s[..g], escaped) == At(s[..g], {}) <==> escaped == {}
  {
    assert Returns(s, escaped);
    LinesLost(s, g, escaped);
    if escaped != {} {
      var k :| k in escaped;
      assert k < g;
    }
  }

  lemma NoneAtEnd(s: string, i: nat, tokens: seq<Token>)
    requires Tiles(s, i, tokens) && |tokens| == 1
    ensures AllEscapes(s, i, tokens) == {}
  {
    EndHasNone(s, tokens[0]);
    assert tokens[1..] == [];
  }

  lemma EscapesBefore(s: string, g: nat, t: Token)
    requires g + |t.value| <= |s| && t.value == s[g..g + |t.value|] && Fits(t)
    ensures forall k :: k in EscapesOf(s, g, t) ==> k < g + |t.value|
  {
    hide EscapesOf;
    TokenEscapes(s, g, t);
  }

  /** Every token and the end of file are where the lexer says exactly if no string literal of the
      text escapes a carriage return. */
  lemma PlacedIffNoEscapes(s: string, tokens: seq<Token>)
    requires Right(s, 0, tokens, {})
    ensures Placed(s, 0, tokens) <==> EscapedReturns(s, 0) == {}
  {
    hide AllFit, Counted, Tiles, Placed, AllEscapes, EscapedReturns;
    ScanTokens(s, 0, tokens);
    EscapesReturns(s, 0, tokens);
    assert {} + AllEscapes(s, 0, tokens) == AllEscapes(s, 0, tokens);
    PlacedIffNone(s, 0, tokens, {});
  }

  /** So it is in every text without a backslash directly before a carriage return. */
  lemma PlacedWithoutBackslashReturn(s: string, tokens: seq<Token>)
    requires Right(s, 0, tokens, {}) && forall k :: 0 < k < |s| && s[k] == '\r' ==> s[k - 1] != '\\'
    ensures Placed(s, 0, tokens)
  {
    hide AllFit, Counted, Tiles, Placed, AllEscapes, EscapedReturns;
    ScanTokens(s, 0, tokens);
    EscapesReturns(s, 0, tokens);
    PlacedIffNoEscapes(s, tokens);
  }

  /** The end of file stands behind the gaps, values and escapes of all the tokens. */
  lemma {:induction false} LastStands(s: string, i: nat, tokens: seq<Token>, escaped: set<nat>)
    requires Right(s, i, tokens, escaped)
    ensures
      var eof := tokens[|tokens| - 1];
      eof.kind == EOF && (eof.line, eof.column) == At(s, escaped + AllEscapes(s, i, tokens))
    decreases |tokens|
  {
    hide AllFit, Fits, Maximal, At, EscapesOf, AllEscapes, GapEnd;
    if |tokens| > 1 {
      var g := GapEnd(s, i);
      var rest := tokens[1..];
      RightHead(s, i, tokens, escaped);
      EscapesRegroup(s, i, tokens, escaped);
      LastStands(s, g + |tokens[0].value|, rest, escaped + EscapesOf(s, g, tokens[0]));
      assert rest[|rest| - 1] == tokens[|tokens| - 1];
    } else {
      NoneAtEnd(s, i, tokens);
      assert s[..|s|] == s && escaped + {} == escaped;
    }
  }

  /** The end of file shows every such text: its line is too small exactly if some string literal
      escapes a carriage return. */
  lemma EofShows(s: string, tokens: seq<Token>)
    requires Right(s, 0, tokens, {})
    ensures
      var eof := tokens[|tokens| - 1];
      && eof.kind == EOF && (eof.line, eof.column) == At(s, EscapedReturns(s, 0))
      && (eof.line < At(s, {}).0 <==> EscapedReturns(s, 0) != {})
  {
    hide AllFit, Counted, Tiles, Placed, AllEscapes, EscapedReturns, At;
    ScanTokens(s, 0, tokens);
    EscapesReturns(s, 0, tokens);
    LastStands(s, 0, tokens, {});
    var lost := EscapedReturns(s, 0);
    assert {} + lost == lost && s[..|s|] == s;
    LinesLost(s, |s|, lost);
    if k :| k in lost {
      assert k < |s|;
    }
  }

  /** A quote, a backslash, a carriage return and a quote: one string literal over two lines, and an
      end of file that the lexer puts on the first. */
  const BROKEN_LITERAL := "\"\\\r\""

  lemma BrokenLiteral()
    ensures
      var s, tokens := BROKEN_LITERAL, [Token(StringLit, BROKEN_LITERAL, 1, 1), Token(EOF, "", 1, 5)];
      && Right(s, 0, tokens, {}) && !Placed(s, 0, tokens)
      && At(s, EscapedReturns(s, 0)) == (1, 5) && At(s, {}) == (2, 2)
  {
    hide Right, Placed, At, EscapedReturns;
    var s, tokens := BROKEN_LITERAL, [Token(StringLit, BROKEN_LITERAL, 1, 1), Token(EOF, "", 1, 5)];
    BrokenRight();
    CountBroken({});
    assert tokens[|tokens| - 1] == Token(EOF, "", 1, 5);
    EofShows(s, tokens);
    PlacedIffNoEscapes(s, tokens);
  }

  lemma BrokenRight()
    ensures Right(BROKEN_LITERAL, 0, [Token(StringLit, BROKEN_LITERAL, 1, 1), Token(EOF, "", 1, 5)], {})
  {
    hide At;
    var s, first, rest := BROKEN_LITERAL, Token(StringLit, BROKEN_LITERAL, 1, 1), [Token(EOF, "", 1, 5)];
    BrokenEscapes();
    CountBroken({2});
    assert s[0..4] == s[..4] == s && Closes(s, '"', 1, 4) && {} + EscapesOf(s, 0, first) == {2};
    AtEmpty();
    assert s[..0] == "";
    RightCons(s, 0, first, rest, {});
    assert [first] + rest == [Token(StringLit, BROKEN_LITERAL, 1, 1), Token(EOF, "", 1, 5)];
  }

  lemma AtEmpty()
    ensures At("", {}) == (1, 1)
  {
  }

  lemma BrokenEscapes()
    ensures Escapes(BROKEN_LITERAL, 1, 4) == {2}
  {
    var s := BROKEN_LITERAL;
    assert Escapes(s, 3, 4) == Escapes(s, 4, 4) == {};
  }

  lemma CountBroken(escaped: set<nat>)
    ensures At(BROKEN_LITERAL, escaped) == if 2 in escaped then (1, 5) else (2, 2)
  {
    var s := BROKEN_LITERAL;
    AtNext(s, 0, escaped);
    AtNext(s, 1, escaped);
    AtNext(s, 2, escaped);
    AtNext(s, 3, escaped);
    assert s[..0] == [] && s[..4] == s;
  }
}
