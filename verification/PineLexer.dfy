/** src/pine_lexer/lexer.py: the stateful Pine tokenizer. */
module PineLexers {
  import opened LexerSpec
  import opened LexerUnique

  /** The tokens, or the position of a LexerError. */
  datatype Result = Tokens(tokens: seq<Token>) | LexerError(line: nat, column: nat)

  datatype Step = End | Lexed(token: Token) | Failed(line: nat, column: nat)

  class Lexer {
    var source: string
    var pos: nat
    var line: nat
    var column: nat

    constructor ()
      ensures source == "" && pos == 0 && line == 1 && column == 1
    {
      source, pos, line, column := "", 0, 1, 1;
    }

    /** The counters are those of the text read so far, with the given carriage returns escaped. */
    ghost predicate Reads(escaped: set<nat>)
      reads this
    {
      && pos <= |source| && (forall k :: k in escaped ==> k < pos)
      && (line, column) == At(source[..pos], escaped)
      && (0 < pos < |source| && source[pos - 1] == '\r' ==> source[pos] != '\n')
    }

    predicate IsAtEnd()
      reads this
    {
      pos >= |source|
    }

    /** The character at the given distance, empty past the end. */
    function Peek(offset: nat): string
      reads this
    {
      if pos + offset < |source| then [source[pos + offset]] else ""
    }

    predicate PeekDigit(offset: nat)
      reads this
    {
      pos + offset < |source| && Digit(source[pos + offset])
    }

    predicate PeekIs(offset: nat, c: char)
      reads this
    {
      pos + offset < |source| && source[pos + offset] == c
    }

    method Advance(ghost escaped: set<nat>)
      requires Reads(escaped) && pos < |source| && source[pos] != '\r' && source[pos] != '\n'
      modifies this`pos, this`column
      ensures Reads(escaped) && pos == old(pos) + 1
    {
      AtNext(source, pos, escaped);
      pos := pos + 1;
      column := column + 1;
    }

    /** One line break, CR LF as a whole. */
    method SkipBreak(ghost escaped: set<nat>)
      requires Reads(escaped) && pos < |source| && (source[pos] == '\r' || source[pos] == '\n')
      modifies this`pos, this`line, this`column
      ensures Reads(escaped) && old(pos) < pos <= |source| && forall k :: old(pos) <= k < pos ==> Blank(source[k])
    {
      AtNext(source, pos, escaped);
      if source[pos] == '\r' {
        if PeekIs(1, '\n') {
          AtNext(source, pos + 1, escaped);
          pos := pos + 2;
        } else {
          pos := pos + 1;
        }
      } else {
        pos := pos + 1;
      }
      line := line + 1;
      column := 1;
    }

    method SkipWhitespace(ghost escaped: set<nat>)
      requires Reads(escaped)
      modifies this`pos, this`line, this`column
      ensures Reads(escaped) && pos == GapEnd(source, old(pos))
    {
      ghost var from := pos;
      while !IsAtEnd() && Blank(source[pos])
        invariant Reads(escaped) && from <= pos && forall k :: from <= k < pos ==> Blank(source[k])
        decreases |source| - pos
      {
        if source[pos] == ' ' || source[pos] == '\t' {
          Advance(escaped);
        } else {
          SkipBreak(escaped);
        }
      }
      GapEndIs(source, from, pos);
    }

    /** A token of kind `kind` was read from `from`. */
    ghost predicate Read(from: nat, atLine: nat, atColumn: nat, t: Token, escaped: set<nat>)
      reads this
    {
      && from < pos <= |source| && t.value == source[from..pos] && t.line == atLine && t.column == atColumn
      && Fits(t) && Maximal(source, pos, t) && Reads(escaped + EscapesOf(source, from, t)) && t.kind != EOF
    }

    method LexComment(ghost escaped: set<nat>) returns (t: Token)
      requires Reads(escaped) && PeekIs(0, '/') && PeekIs(1, '/')
      modifies this`pos, this`column
      ensures t.kind == Comment && Read(old(pos), old(line), old(column), t, escaped)
    {
      hide At, Fits, Maximal, EscapesOf;
      var startLine, startCol, startPos := line, column, pos;
      Advance(escaped);
      Advance(escaped);
      while !IsAtEnd() && source[pos] != '\r' && source[pos] != '\n'
        invariant Reads(escaped) && startPos + 2 <= pos
        invariant forall k :: startPos <= k < pos ==> source[k] != '\r' && source[k] != '\n'
        decreases |source| - pos
      {
        Advance(escaped);
      }
      t := Token(Comment, source[startPos..pos], startLine, startCol);
      CommentFits(source, startPos, pos, t);
      NoEscapesIn(source, startPos, t);
    }

    method LexWord(ghost escaped: set<nat>) returns (t: Token)
      requires Reads(escaped) && pos < |source| && Letter(source[pos])
      modifies this`pos, this`column
      ensures t.kind in {Boolean, Keyword, Identifier} && Read(old(pos), old(line), old(column), t, escaped)
    {
      var startLine, startCol, startPos := line, column, pos;
      while !IsAtEnd() && (Letter(source[pos]) || Digit(source[pos]))
        invariant Reads(escaped) && startPos <= pos
        invariant forall k :: startPos <= k < pos ==> Letter(source[k]) || Digit(source[k])
        invariant startPos < |source| && (pos == startPos ==> Letter(source[pos]))
        invariant Letter(source[startPos])
        decreases |source| - pos
      {
        Advance(escaped);
      }
      var val := source[startPos..pos];
      WordRead(source, startPos, pos);
      t := Token(WordKind(val), val, startLine, startCol);
      hide At, WordKind, Word;
      WordFits(t);
      NoEscapesIn(source, startPos, t);
    }
  
    predicate HasExponentAhead()
      reads this
    {
      PeekDigit(1) || ((PeekIs(1, '+') || PeekIs(1, '-')) && PeekDigit(2))
    }

    method SkipDigits(ghost escaped: set<nat>)
      requires Reads(escaped)
      modifies this`pos, this`column
      ensures Reads(escaped) && old(pos) <= pos && AllDigits(source[old(pos)..pos]) && !PeekDigit(0)
      ensures old(PeekDigit(0)) ==> old(pos) < pos
    {
      ghost var from := pos;
      while PeekDigit(0)
        invariant Reads(escaped) && from <= pos && forall k :: from <= k < pos ==> Digit(source[k])
        invariant from < |source| && Digit(source[from]) && pos == from ==> PeekDigit(0)
        decreases |source| - pos
      {
        Advance(escaped);
      }
    }

    method SkipExponent(ghost escaped: set<nat>) returns (has: bool)
      requires Reads(escaped) && !PeekDigit(0)
      modifies this`pos, this`column
      ensures Reads(escaped) && old(pos) <= pos && Exponent(source[old(pos)..pos]) && !PeekDigit(0)
      ensures has == (old(pos) < pos) == ExponentAt(source, old(pos))
    {
      ghost var from := pos;
      has := (PeekIs(0, 'e') || PeekIs(0, 'E')) && HasExponentAhead();
      if has {
        Advance(escaped);
        if PeekIs(0, '+') || PeekIs(0, '-') {
          Advance(escaped);
          SkipDigits(escaped);
          assert source[from..pos][2..] == source[from + 2..pos];
        } else {
          SkipDigits(escaped);
          assert source[from..pos][1..] == source[from + 1..pos];
        }
      }
    }

    /** A number; a dot is not taken when another dot follows the digits. */
    method LexNumber(ghost escaped: set<nat>) returns (t: Token)
      requires Reads(escaped) && (PeekDigit(0) || (PeekIs(0, '.') && PeekDigit(1)))
      modifies this`pos, this`column
      ensures t.kind in {Integer, Float} && Read(old(pos), old(line), old(column), t, escaped)
    {
      hide At, Fits, Maximal, ExponentAt;
      var startLine, startCol, startPos := line, column, pos;
      ghost var a, b;
      var isFloat := true;
      if PeekIs(0, '.') {
        a := pos;
        TakeFraction(escaped);
        b := pos;
        var _ := SkipExponent(escaped);
      } else {
        SkipDigits(escaped);
        a := pos;
        var hasFraction := PeekIs(0, '.') && !PeekIs(1, '.');
        if hasFraction {
          TakeFraction(escaped);
        }
        b := pos;
        var hasExponent := SkipExponent(escaped);
        isFloat := hasFraction || hasExponent;
      }
      var val := source[startPos..pos];
      t := Token(if isFloat then Float else Integer, val, startLine, startCol);
      NumberFits(source, startPos, a, b, pos, t);
      NoEscapesIn(source, startPos, t);
    }

    method TakeFraction(ghost escaped: set<nat>)
      requires Reads(escaped) && PeekIs(0, '.')
      modifies this`pos, this`column
      ensures Reads(escaped) && old(pos) < pos && Fraction(source[old(pos)..pos]) && !PeekDigit(0)
      ensures old(PeekDigit(1)) ==> old(pos) + 1 < pos
    {
      ghost var from := pos;
      Advance(escaped);
      SkipDigits(escaped);
      assert source[from..pos][1..] == source[from + 1..pos];
    }

    /** Operators and delimiters. */
    method LexSymbol(ghost escaped: set<nat>) returns (r: Step)
      requires Reads(escaped) && pos < |source| && !Blank(source[pos])
      requires !(PeekIs(0, '/') && PeekIs(1, '/')) && !(PeekIs(0, '.') && PeekDigit(1))
      modifies this`pos, this`column
      ensures r.Lexed? ==> Read(old(pos), old(line), old(column), r.token, escaped)
      ensures r.Failed? ==> r == Failed(old(line), old(column)) && NoSymbol(source, old(pos))
      ensures !r.End?
    {
      hide At, Fits, Maximal, EscapesOf, Reads;
      var ch := source[pos];
      var twoChar := [ch] + Peek(1);
      assert pos + 1 < |source| ==> twoChar == [source[pos], source[pos + 1]];
      if twoChar in TWO_CHAR_OPERATORS {
        TwoCharacters(twoChar);
        assert source[pos..pos + 2] == twoChar && source[pos] == twoChar[0] && source[pos + 1] == twoChar[1];
        r := TakeSymbol(Operator, 2, escaped);
      } else if DelimiterKind(ch) != EOF {
        r := TakeSymbol(DelimiterKind(ch), 1, escaped);
      } else if ch in SINGLE_CHAR_OPERATORS {
        r := TakeSymbol(Operator, 1, escaped);
      } else {
        r := Failed(line, column);
      }
    }

    /** One or two characters that make a symbol. */
    method TakeSymbol(kind: TokenKind, length: nat, ghost escaped: set<nat>) returns (r: Step)
      requires Reads(escaped) && 1 <= length <= 2 && pos + length <= |source|
      requires forall k :: pos <= k < pos + length ==> source[k] != '\r' && source[k] != '\n'
      requires SymbolAt(source, pos, kind, source[pos..pos + length])
      modifies this`pos, this`column
      ensures r.Lexed? && Read(old(pos), old(line), old(column), r.token, escaped)
    {
      hide At, Fits, Maximal, EscapesOf, SymbolAt;
      var t := Token(kind, source[pos..pos + length], line, column);
      SymbolFits(source, pos, t);
      Advance(escaped);
      if length == 2 {
        Advance(escaped);
      }
      r := Lexed(t);
    }

    /** A string literal. A backslash takes the next character with it; a line feed taken this
        way counts as a line, a carriage return does not. */
    method LexString(ghost escaped: set<nat>) returns (r: Step)
      requires Reads(escaped) && (PeekIs(0, '"') || PeekIs(0, '\''))
      modifies this`pos, this`line, this`column
      ensures r.Lexed? ==> r.token.kind == StringLit && Read(old(pos), old(line), old(column), r.token, escaped)
      ensures r.Failed? ==> r == Failed(old(line), old(column)) && Stuck(source, old(pos))
      ensures !r.End?
    {
      hide Closes, Escapes, At;
      var startLine, startCol, startPos := line, column, pos;
      var quote := source[pos];
      Advance(escaped);
      ghost var found: set<nat> := {};
      assert escaped + found == escaped;
      while !IsAtEnd()
        invariant startPos < pos <= |source|
        invariant Reads(escaped + found) || PeekIs(0, '\n')
        invariant Scanned(source, quote, startPos + 1, pos, found)
        decreases |source| - pos
      {
        if source[pos] == '\\' {
          found := SkipEscape(quote, startPos + 1, escaped, found);
        } else if source[pos] == quote {
          Advance(escaped + found);
          var val := source[startPos..pos];
          ScanEnds(source, quote, startPos, pos, found);
          return Lexed(Token(StringLit, val, startLine, startCol));
        } else if source[pos] == '\r' || source[pos] == '\n' {
          ScanFails(source, startPos, pos, found);
          return Failed(startLine, startCol);
        } else {
          ScanPlain(source, quote, startPos + 1, pos, found);
          Advance(escaped + found);
        }
      }
      ScanFails(source, startPos, pos, found);
      r := Failed(startLine, startCol);
    }

    method SkipEscape(quote: char, ghost from: nat, ghost escaped: set<nat>, ghost found: set<nat>)
      returns (ghost now: set<nat>)
      requires Reads(escaped + found) && PeekIs(0, '\\') && Scanned(source, quote, from, pos, found)
      modifies this`pos, this`line, this`column
      ensures old(pos) < pos <= |source| && (Reads(escaped + now) || PeekIs(0, '\n'))
      ensures Scanned(source, quote, from, pos, now)
    {
      hide Closes, Escapes, Scanned, At;
      ScanEscape(source, quote, from, pos, found);
      Advance(escaped + found);
      now := found;
      if !IsAtEnd() {
        if source[pos] == '\r' {
          now := found + {pos};
          EscapedReturn(source, pos, escaped + found);
          assert escaped + now == escaped + found + {pos};
        } else {
          AtNext(source, pos, escaped + found);
        }
        if source[pos] == '\n' {
          line := line + 1;
          column := 1;
          pos := pos + 1;
        } else {
          pos := pos + 1;
          column := column + 1;
        }
      }
    }

    /** The next token behind a gap. */
    method NextToken(ghost escaped: set<nat>) returns (r: Step)
      requires Reads(escaped)
      modifies this`pos, this`line, this`column
      ensures r.End? ==> Reads(escaped) && pos == |source| == GapEnd(source, old(pos))
      ensures r.Lexed? ==>
        && TokenAt(source, GapEnd(source, old(pos)), pos, r.token, escaped)
        && Reads(escaped + EscapesOf(source, GapEnd(source, old(pos)), r.token))
      ensures !r.Failed? && old(pos) < |source| ==> old(pos) < pos
      ensures r.Failed? ==>
        && Stuck(source, GapEnd(source, old(pos)))
        && (r.line, r.column) == At(source[..GapEnd(source, old(pos))], escaped)
    {
      hide At, Fits, Maximal, EscapesOf;
      SkipWhitespace(escaped);
      if IsAtEnd() {
        return End;
      }
      if PeekIs(0, '/') && PeekIs(1, '/') {
        var t := LexComment(escaped);
        r := Lexed(t);
      } else if PeekIs(0, '"') || PeekIs(0, '\'') {
        r := LexString(escaped);
      } else if (PeekIs(0, '.') && PeekDigit(1)) || PeekDigit(0) {
        var t := LexNumber(escaped);
        r := Lexed(t);
      } else if Letter(source[pos]) {
        var t := LexWord(escaped);
        r := Lexed(t);
      } else {
        r := LexSymbol(escaped);
      }
    }

    /** tokenize: the one right list of tokens, or the tokens up to the place where none starts. */
    method Tokenize(text: string) returns (r: Result)
      modifies this
      ensures source == text
      ensures r.Tokens? ==> Right(text, 0, r.tokens, {})
      ensures r.LexerError? ==> FailsAt(text, r.line, r.column)
    {
      hide Right, TokenAt, EscapesOf, AllEscapes, LexedTo, At, Stuck;
      source, pos, line, column := text, 0, 1, 1;
      var tokens: seq<Token> := [];
      ghost var from: nat, none: set<nat> := 0, {};
      NothingLexed(text);
      assert none + AllEscapes(text, 0, tokens) == {};
      while !IsAtEnd()
        invariant source == text && from <= |text| && Reads(none + AllEscapes(text, 0, tokens))
        invariant LexedTo(text, 0, tokens, from, none) && GapEnd(text, from) == GapEnd(text, pos)
        decreases |text| - pos
      {
        ghost var escaped := none + AllEscapes(text, 0, tokens);
        ghost var g := GapEnd(text, from);
        var step := NextToken(escaped);
        if step.Failed? {
          assert escaped == AllEscapes(text, 0, tokens);
          assert FailsBehind(text, tokens, from, step.line, step.column);
          return LexerError(step.line, step.column);
        }
        if step.Lexed? {
          TokenInside(text, g, pos, step.token, escaped);
          LexedOneMore(text, 0, tokens, from, none, step.token);
          assert escaped + EscapesOf(text, g, step.token)
            == none + (AllEscapes(text, 0, tokens) + EscapesOf(text, g, step.token));
          tokens := tokens + [step.token];
          from := pos;
        } else {
          GapEndIs(text, pos, pos);
        }
      }
      var end := Token(EOF, "", line, column);
      assert text[..pos] == text;
      GapEndIs(text, pos, pos);
      LexedRight(text, 0, tokens, from, none, end);
      r := Tokens(tokens + [end]);
    }
  }

  lemma NothingLexed(s: string)
    ensures LexedTo(s, 0, [], 0, {}) && AllEscapes(s, 0, []) == {} && At(s[..0], {}) == (1, 1)
  {
  }

  /** A backslash makes a carriage return an ordinary character. */
  lemma EscapedReturn(s: string, pos: nat, escaped: set<nat>)
    requires pos < |s| && s[pos] == '\r' && forall k :: k in escaped ==> k < pos
    ensures
      var (line, column) := At(s[..pos], escaped);
      At(s[..pos + 1], escaped + {pos}) == (line, column + 1)
  {
    AtNext(s, pos, escaped + {pos});
    AtAgrees(s[..pos], escaped, {pos});
  }

  lemma CommentFits(s: string, from: nat, end: nat, t: Token)
    requires from + 2 <= end <= |s| && s[from] == s[from + 1] == '/' && t.kind == Comment && t.value == s[from..end]
    requires forall k :: from <= k < end ==> s[k] != '\r' && s[k] != '\n'
    requires end < |s| ==> s[end] == '\r' || s[end] == '\n'
    ensures Fits(t) && Maximal(s, end, t)
  {
  }

  /** A symbol starts at `from`, the two-character operators first; no comment and no number
      does. */
  ghost predicate SymbolAt(s: string, from: nat, kind: TokenKind, v: string)
    requires from < |s|
  {
    && !(s[from] == '/' && from + 1 < |s| && s[from + 1] == '/') && !(s[from] == '.' && DigitAt(s, from + 1))
    && if |v| == 2 then kind == Operator && v in TWO_CHAR_OPERATORS
       else
         && (from + 1 < |s| ==> [s[from], s[from + 1]] !in TWO_CHAR_OPERATORS)
         && (if DelimiterKind(s[from]) != EOF then kind == DelimiterKind(s[from])
             else kind == Operator && s[from] in SINGLE_CHAR_OPERATORS)
  }

  lemma SymbolFits(s: string, from: nat, t: Token)
    requires from < |s| && 1 <= |t.value| <= 2 && from + |t.value| <= |s| && t.value == s[from..from + |t.value|]
    requires SymbolAt(s, from, t.kind, t.value)
    ensures Fits(t) && Maximal(s, from + |t.value|, t) && t.kind != EOF
    ensures forall escaped: set<nat> {:trigger escaped + EscapesOf(s, from, t)} ::
      escaped + EscapesOf(s, from, t) == escaped
  {
    var v, end := t.value, from + |t.value|;
    if |v| == 1 && end < |s| {
      assert v + [s[end]] == [s[from], s[from + 1]];
    }
  }

  lemma TwoCharacters(v: string)
    requires v in TWO_CHAR_OPERATORS
    ensures |v| == 2 && forall k :: 0 <= k < 2 ==> v[k] != '\r' && v[k] != '\n'
  {
  }

  lemma NoEscapesIn(s: string, from: nat, t: Token)
    requires t.kind != StringLit
    ensures forall escaped: set<nat> {:trigger escaped + EscapesOf(s, from, t)} ::
      escaped + EscapesOf(s, from, t) == escaped
  {
  }

  /** Reading from `from` to pos met no closing quote, and found these escaped carriage returns. */
  ghost predicate Scanned(s: string, quote: char, from: nat, pos: nat, found: set<nat>) {
    forall end: nat :: end <= |s| ==>
      && (Closes(s, quote, from, end) <==> Closes(s, quote, pos, end))
      && (Closes(s, quote, pos, end) ==> Escapes(s, from, end) == found + Escapes(s, pos, end))
  }

  lemma ScanPlain(s: string, quote: char, from: nat, pos: nat, found: set<nat>)
    requires Scanned(s, quote, from, pos, found) && pos < |s|
    requires s[pos] != '\\' && s[pos] != quote && s[pos] != '\r' && s[pos] != '\n'
    ensures Scanned(s, quote, from, pos + 1, found)
  {
    forall end: nat | end <= |s|
      ensures Closes(s, quote, from, end) <==> Closes(s, quote, pos + 1, end)
      ensures Closes(s, quote, pos + 1, end) ==> Escapes(s, from, end) == found + Escapes(s, pos + 1, end)
    {
      assert Closes(s, quote, pos, end) <==> Closes(s, quote, pos + 1, end);
    }
  }

  /** A backslash and what it takes with it. */
  lemma ScanEscape(s: string, quote: char, from: nat, pos: nat, found: set<nat>)
    requires Scanned(s, quote, from, pos, found) && pos < |s| && s[pos] == '\\'
    ensures pos + 1 < |s| ==> Scanned(s, quote, from, pos + 2, if s[pos + 1] == '\r' then found + {pos + 1} else found)
    ensures pos + 1 == |s| ==> Scanned(s, quote, from, pos + 1, found)
  {
    var next := pos + 2;
    var more := if pos + 1 < |s| && s[pos + 1] == '\r' then found + {pos + 1} else found;
    forall end: nat | end <= |s|
      ensures Closes(s, quote, from, end) <==> Closes(s, quote, next, end)
      ensures Closes(s, quote, next, end) ==> Escapes(s, from, end) == more + Escapes(s, next, end)
    {
      assert Closes(s, quote, pos, end) <==> Closes(s, quote, next, end);
    }
  }

  lemma ScanFails(s: string, startPos: nat, pos: nat, found: set<nat>)
    requires startPos < pos <= |s| && Quote(s[startPos]) && Scanned(s, s[startPos], startPos + 1, pos, found)
    requires pos < |s| ==> s[pos] == '\r' || s[pos] == '\n'
    ensures Stuck(s, startPos)
  {
    var quote, from := s[startPos], startPos + 1;
    forall end: nat | end <= |s|
      ensures !Closes(s, quote, from, end)
    {
      assert !Closes(s, quote, pos, end);
    }
  }

  lemma ScanEnds(s: string, quote: char, startPos: nat, end: nat, found: set<nat>)
    requires startPos + 1 < end <= |s| && s[startPos] == quote && s[end - 1] == quote && quote != '\\'
    requires Scanned(s, quote, startPos + 1, end - 1, found)
    ensures var v := s[startPos..end]; Closes(v, v[0], 1, |v|)
    ensures Escapes(s, startPos + 1, end) == found
  {
    assert Closes(s, quote, end - 1, end);
    assert Escapes(s, end - 1, end) == {};
    ClosesShift(s, quote, startPos, startPos + 1, end);
  }

  lemma WordRead(s: string, from: nat, end: nat)
    requires from < end <= |s| && Letter(s[from]) && forall k :: from <= k < end ==> Letter(s[k]) || Digit(s[k])
    ensures Word(s[from..end])
  {
  }

  function WordKind(v: string): TokenKind {
    if v in BOOLEANS then Boolean else if v in KEYWORDS then Keyword else Identifier
  }

  lemma WordFits(t: Token)
    requires Word(t.value) && t.kind == WordKind(t.value)
    ensures Fits(t) && t.kind in {Boolean, Keyword, Identifier}
    ensures forall s: string, end: nat :: (end < |s| ==> !Letter(s[end]) && !Digit(s[end])) ==> Maximal(s, end, t)
  {}

  lemma NumberParts(s: string, from: nat, a: nat, b: nat, end: nat)
    requires from <= a <= b <= end <= |s|
    requires AllDigits(s[from..a]) && Fraction(s[a..b]) && Exponent(s[b..end])
    ensures var v := s[from..end];
      v[..a - from] == s[from..a] && v[a - from..b - from] == s[a..b] && v[b - from..] == s[b..end]
  {
    SliceOfSlice(s, from, end, 0, a - from);
    SliceOfSlice(s, from, end, a - from, b - from);
    SliceOfSlice(s, from, end, b - from, end - from);
    var v := s[from..end];
    assert v[..a - from] == v[0..a - from] && v[b - from..] == v[b - from..end - from];
  }

  /** What was read makes an integer or a float that could not have been longer. */
  lemma NumberFits(s: string, from: nat, a: nat, b: nat, end: nat, t: Token)
    requires from <= a <= b <= end <= |s| && t.value == s[from..end]
    requires AllDigits(s[from..a]) && Fraction(s[a..b]) && Exponent(s[b..end]) && !DigitAt(s, end)
    requires (a > from || b > a + 1) && (b < end <==> ExponentAt(s, b))
    requires b > a ==> a == from || !DotAt(s, a + 1)
    requires b == a ==> DotAt(s, a) ==> DotAt(s, a + 1)
    requires t.kind == if end > a then Float else Integer
    ensures Fits(t) && Maximal(s, end, t)
  {
    NumberParts(s, from, a, b, end);
    if end > a {
      assert Number(t.value, a - from, b - from);
      FloatMaximal(s, from, a, b, end, t);
    } else {
      assert t.value[..a - from] == t.value;
    }
  }

  lemma FloatMaximal(s: string, from: nat, a: nat, b: nat, end: nat, t: Token)
    requires from <= a <= b <= end <= |s| && t.value == s[from..end] && t.kind == Float && a < end
    requires Fraction(s[a..b]) && Exponent(s[b..end]) && !DigitAt(s, end)
    requires (a > from || b > a + 1) && (b < end <==> ExponentAt(s, b))
    requires b > a ==> a == from || !DotAt(s, a + 1)
    ensures Maximal(s, end, t)
  {
    var v := t.value;
    if b < end {
      assert v[b - from] == s[b] == s[b..end][0];
      assert v[|v| - 1] == s[end - 1] == s[b..end][end - 1 - b];
      ExponentTail(s[b..end]);
    } else if b > a + 1 {
      assert v[|v| - 1] == s[b - 1] == s[a..b][1..][b - 2 - a];
    }
  }

  /** An exponent ends in a digit. */
  lemma ExponentTail(x: string)
    requires Exponent(x) && x != ""
    ensures Digit(x[|x| - 1])
  {
    if x[1] == '+' || x[1] == '-' {
      assert x[|x| - 1] == x[2..][|x| - 3];
    } else {
      assert x[|x| - 1] == x[1..][|x| - 2];
    }
  }

  lemma SliceOfSlice(s: string, from: nat, end: nat, i: nat, j: nat)
    requires from <= end <= |s| && i <= j <= end - from
    ensures s[from..end][i..j] == s[from + i..from + j]
  {
    assert |s[from..end][i..j]| == |s[from + i..from + j]|;
    forall k | 0 <= k < j - i
      ensures s[from..end][i..j][k] == s[from + i..from + j][k]
    {}
  }
}
