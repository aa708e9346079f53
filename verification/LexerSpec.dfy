/** Tokens, positions and tiling for the Pine lexer of src/pine_lexer/lexer.py. */
module LexerSpec {

  datatype TokenKind =
    | Comment | StringLit | Integer | Float | Boolean | Keyword | Identifier | Operator
    | LParen | RParen | LBracket | RBracket | LBrace | RBrace | Comma | Dot | EOF

  datatype Token = Token(kind: TokenKind, value: string, line: nat, column: nat)

  const KEYWORDS: set<string> := {
    "indicator", "strategy", "library", "var", "varip", "if", "else", "for", "to", "by", "while", "switch",
    "returns", "break", "continue", "import", "export", "type", "method", "int", "float", "bool", "string",
    "color", "line", "linefill", "label", "box", "table", "series", "simple", "const", "input", "and", "or", "not"
  }
  const BOOLEANS: set<string> := {"true", "false"}
  const TWO_CHAR_OPERATORS: set<string> := {":=", "+=", "-=", "*=", "/=", "%=", "==", "!=", "<=", ">=", "=>"}
  const SINGLE_CHAR_OPERATORS: set<char> := {'?', ':', '+', '-', '*', '/', '%', '<', '>', '='}

  predicate Blank(c: char) {
    c == ' ' || c == '\t' || c == '\r' || c == '\n'
  }

  predicate Digit(c: char) {
    '0' <= c <= '9'
  }

  predicate Letter(c: char) {
    'a' <= c <= 'z' || 'A' <= c <= 'Z' || c == '_'
  }

  // ---- positions ----

  /** Line and column after a prefix of the text; CR, LF and CR LF each end one line, but the
      carriage returns at the escaped offsets count as ordinary characters. */
  function At(s: string, escaped: set<nat>): (p: (nat, nat))
    ensures p.0 >= 1 && p.1 >= 1
  {
    if s == [] then (1, 1)
    else
      var n := |s| - 1;
      var (line, column) := At(s[..n], escaped);
      if s[n] == '\r' && n !in escaped then (line + 1, 1)
      else if s[n] == '\n' then (if n > 0 && s[n - 1] == '\r' && n - 1 !in escaped then line else line + 1, 1)
      else (line, column + 1)
  }

  /** One more character. */
  lemma AtNext(s: string, i: nat, escaped: set<nat>)
    requires i < |s|
    ensures
      var (line, column) := At(s[..i], escaped);
      At(s[..i + 1], escaped) ==
        if s[i] == '\r' && i !in escaped then (line + 1, 1)
        else if s[i] == '\n' then (if i > 0 && s[i - 1] == '\r' && i - 1 !in escaped then line else line + 1, 1)
        else (line, column + 1)
  {
    assert s[..i + 1][..i] == s[..i];
  }

  /** Offsets behind the prefix do not matter. */
  lemma {:induction false} AtAgrees(s: string, escaped: set<nat>, others: set<nat>)
    requires forall k :: k in others ==> k >= |s|
    ensures At(s, escaped + others) == At(s, escaped)
    decreases |s|
  {
    if s != [] {
      AtAgrees(s[..|s|-1], escaped, others);
    }
  }

  /** The offsets are carriage returns in the text, none of them before a line feed. */
  predicate Returns(s: string, escaped: set<nat>) {
    forall k :: k in escaped ==> k + 1 < |s| && s[k] == '\r' && s[k + 1] != '\n'
  }

  /** Each escaped carriage return before the end of the prefix is a line too few. */
  lemma {:induction false} LinesLost(s: string, n: nat, escaped: set<nat>)
    requires n <= |s| && Returns(s, escaped)
    ensures At(s[..n], escaped).0 <= At(s[..n], {}).0
    ensures (exists k :: k in escaped && k < n) ==> At(s[..n], escaped).0 < At(s[..n], {}).0
    ensures (forall k :: k in escaped ==> k >= n) ==> At(s[..n], escaped) == At(s[..n], {})
  {
    if n > 0 {
      hide At;
      LinesLost(s, n - 1, escaped);
      AtNext(s, n - 1, escaped);
      AtNext(s, n - 1, {});
    }
  }

  // ---- tiling ----

  /** The end of the gap that starts at i. */
  function GapEnd(s: string, i: nat): (j: nat)
    requires i <= |s|
    ensures i <= j <= |s| && (j < |s| ==> !Blank(s[j])) && forall k :: i <= k < j ==> Blank(s[k])
    decreases |s| - i
  {
    if i < |s| && Blank(s[i]) then GapEnd(s, i + 1) else i
  }

  lemma {:induction false} GapEndIs(s: string, i: nat, j: nat)
    requires i <= j <= |s| && (j < |s| ==> !Blank(s[j])) && forall k :: i <= k < j ==> Blank(s[k])
    ensures GapEnd(s, i) == j
    decreases j - i
  {
    if i < j {
      GapEndIs(s, i + 1, j);
    }
  }

  /** From offset i on, the text is gaps and token values in turn, up to the end of file. */
  predicate Tiles(s: string, i: nat, tokens: seq<Token>)
    decreases |tokens|
  {
    && i <= |s| && tokens != []
    && var g := GapEnd(s, i);
       var v := tokens[0].value;
       if |tokens| == 1 then tokens[0].kind == EOF && v == "" && g == |s|
       else
         && tokens[0].kind != EOF && v != "" && g + |v| <= |s| && s[g..g + |v|] == v
         && Tiles(s, g + |v|, tokens[1..])
  }

  /** Every token stands where the text before it says. */
  predicate Placed(s: string, i: nat, tokens: seq<Token>)
    requires Tiles(s, i, tokens)
    decreases |tokens|
  {
    var g := GapEnd(s, i);
    && (tokens[0].line, tokens[0].column) == At(s[..g], {})
    && (|tokens| > 1 ==> Placed(s, g + |tokens[0].value|, tokens[1..]))
  }

  // ---- escaped carriage returns ----

  /** The carriage returns between i and end that a backslash takes with it. */
  function Escapes(s: string, i: nat, end: nat): set<nat>
    requires end <= |s|
    decreases end - i
  {
    if i >= end then {}
    else if s[i] == '\\' && i + 1 < end then (if s[i + 1] == '\r' then {i + 1} else {}) + Escapes(s, i + 2, end)
    else Escapes(s, i + 1, end)
  }

  /** Those in the token that stands at g. */
  function EscapesOf(s: string, g: nat, t: Token): set<nat> {
    if t.kind == StringLit && g + |t.value| <= |s| then Escapes(s, g + 1, g + |t.value|) else {}
  }

  /** Those in all the tokens from offset i on. */
  function AllEscapes(s: string, i: nat, tokens: seq<Token>): set<nat>
    decreases |tokens|
  {
    if tokens == [] || i > |s| then {}
    else
      var g := GapEnd(s, i);
      EscapesOf(s, g, tokens[0]) + AllEscapes(s, g + |tokens[0].value|, tokens[1..])
  }

  lemma EscapesRegroup(s: string, i: nat, tokens: seq<Token>, escaped: set<nat>)
    requires tokens != [] && i <= |s|
    ensures
      var g := GapEnd(s, i);
      escaped + EscapesOf(s, g, tokens[0]) + AllEscapes(s, g + |tokens[0].value|, tokens[1..])
        == escaped + AllEscapes(s, i, tokens)
  {
    hide EscapesOf;
  }

  /** The line and column of each token, when some escaped carriage returns stand before it. */
  predicate Counted(s: string, i: nat, tokens: seq<Token>, escaped: set<nat>)
    requires Tiles(s, i, tokens)
    decreases |tokens|
  {
    var g := GapEnd(s, i);
    && (tokens[0].line, tokens[0].column) == At(s[..g], escaped)
    && (|tokens| > 1 ==> Counted(s, g + |tokens[0].value|, tokens[1..], escaped + EscapesOf(s, g, tokens[0])))
  }

  // ---- what each kind of token looks like ----

  predicate AllDigits(v: string) {
    forall i :: 0 <= i < |v| ==> Digit(v[i])
  }

  /** A string literal from index i on: escapes are pairs, no bare line break, and the quote q
      closes it just before end. */
  predicate Closes(s: string, q: char, i: nat, end: nat)
    requires end <= |s|
    decreases end - i
  {
    i < end &&
    if s[i] == '\\' then Closes(s, q, i + 2, end)
    else if s[i] == q then i == end - 1
    else s[i] != '\r' && s[i] != '\n' && Closes(s, q, i + 1, end)
  }

  lemma {:induction false} ClosesShift(s: string, q: char, from: nat, i: nat, end: nat)
    requires from <= i && from <= end <= |s|
    ensures Closes(s[from..end], q, i - from, end - from) == Closes(s, q, i, end)
    decreases end - i
  {
    if i < end {
      ClosesShift(s, q, from, i + 2, end);
      ClosesShift(s, q, from, i + 1, end);
    }
  }

  /** A literal closes at one place only. */
  lemma {:induction false} ClosesOnce(s: string, q: char, i: nat, end: nat, other: nat)
    requires end <= |s| && other <= |s| && Closes(s, q, i, end) && Closes(s, q, i, other)
    ensures end == other
    decreases end - i
  {
    if s[i] == '\\' {
      ClosesOnce(s, q, i + 2, end, other);
    } else if s[i] != q {
      ClosesOnce(s, q, i + 1, end, other);
    }
  }

  /** No escaped carriage return of a closed literal is followed by a line feed. */
  lemma {:induction false} EscapesReturn(s: string, q: char, i: nat, end: nat)
    requires end <= |s| && Closes(s, q, i, end) && q != '\n'
    ensures forall k :: k in Escapes(s, i, end) ==>
      i < k && k + 1 < end && s[k - 1] == '\\' && s[k] == '\r' && s[k + 1] != '\n'
    decreases end - i
  {
    if s[i] == '\\' {
      EscapesReturn(s, q, i + 2, end);
    } else if s[i] != q {
      EscapesReturn(s, q, i + 1, end);
    }
  }

  predicate Fraction(v: string) {
    v == "" || (v[0] == '.' && AllDigits(v[1..]))
  }

  predicate Exponent(v: string) {
    v == "" || ((v[0] == 'e' || v[0] == 'E') &&
                (if |v| > 1 && (v[1] == '+' || v[1] == '-') then |v| > 2 && AllDigits(v[2..])
                 else |v| > 1 && AllDigits(v[1..])))
  }

  /** Digits up to a, a fraction up to b, an exponent behind it. */
  predicate Number(v: string, a: nat, b: nat) {
    && a <= b <= |v| && AllDigits(v[..a]) && Fraction(v[a..b]) && Exponent(v[b..])
    && (a > 0 || b > 1)
  }

  function DelimiterKind(c: char): TokenKind {
    if c == '(' then LParen else if c == ')' then RParen
    else if c == '[' then LBracket else if c == ']' then RBracket
    else if c == '{' then LBrace else if c == '}' then RBrace
    else if c == ',' then Comma else if c == '.' then Dot
    else EOF
  }

  /** The value of a token is right for its kind. */
  ghost predicate Fits(t: Token) {
    var v := t.value;
    match t.kind
    case Comment => |v| >= 2 && v[0] == '/' && v[1] == '/' && '\r' !in v && '\n' !in v
    case StringLit => |v| >= 2 && (v[0] == '"' || v[0] == '\'') && Closes(v, v[0], 1, |v|)
    case Integer => v != "" && AllDigits(v)
    case Float => exists a: nat, b: nat :: Number(v, a, b) && a < |v|
    case Boolean => Word(v) && v in BOOLEANS
    case Keyword => Word(v) && v in KEYWORDS
    case Identifier => Word(v) && v !in KEYWORDS && v !in BOOLEANS
    case Operator => v in TWO_CHAR_OPERATORS || (|v| == 1 && v[0] in SINGLE_CHAR_OPERATORS)
    case EOF => v == ""
    case _ => |v| == 1 && DelimiterKind(v[0]) == t.kind
  }

  predicate Word(v: string) {
    v != "" && Letter(v[0]) && forall i :: 0 <= i < |v| ==> Letter(v[i]) || Digit(v[i])
  }

  predicate DigitAt(s: string, i: nat) {
    i < |s| && Digit(s[i])
  }

  predicate DotAt(s: string, i: nat) {
    i < |s| && s[i] == '.'
  }

  predicate SignAt(s: string, i: nat) {
    i < |s| && (s[i] == '+' || s[i] == '-')
  }

  /** An exponent starts at i: the letter, at most one sign, and a digit. */
  predicate ExponentAt(s: string, i: nat) {
    i < |s| && (s[i] == 'e' || s[i] == 'E') && (DigitAt(s, i + 1) || (SignAt(s, i + 1) && DigitAt(s, i + 2)))
  }

  predicate NoExponent(v: string) {
    forall i :: 0 <= i < |v| ==> v[i] != 'e' && v[i] != 'E'
  }

  /** The token could not have been longer, nor the start of another kind. A dot belongs to the
      digits before it unless another dot follows. */
  predicate Maximal(s: string, end: nat, t: Token) {
    end < |s| ==>
      match t.kind
      case Comment => s[end] == '\r' || s[end] == '\n'
      case Integer => !Digit(s[end]) && (s[end] == '.' ==> DotAt(s, end + 1)) && !ExponentAt(s, end)
      case Float =>
        && !Digit(s[end]) && (NoExponent(t.value) ==> !ExponentAt(s, end))
        && (t.value != "" && t.value[|t.value| - 1] == '.' ==> s[end] != '.')
      case Boolean => !Letter(s[end]) && !Digit(s[end])
      case Keyword => !Letter(s[end]) && !Digit(s[end])
      case Identifier => !Letter(s[end]) && !Digit(s[end])
      case Dot => !Digit(s[end])
      case Operator => |t.value| == 1 ==> t.value + [s[end]] !in TWO_CHAR_OPERATORS && t.value + [s[end]] != "//"
      case _ => true
  }

  ghost predicate AllFit(s: string, i: nat, tokens: seq<Token>)
    requires Tiles(s, i, tokens)
    decreases |tokens|
  {
    var end := GapEnd(s, i) + |tokens[0].value|;
    Fits(tokens[0]) && Maximal(s, end, tokens[0]) && (|tokens| > 1 ==> AllFit(s, end, tokens[1..]))
  }

  /** A right sequence of tokens from offset i on, when some escaped carriage returns stand
      before it. */
  ghost predicate Right(s: string, i: nat, tokens: seq<Token>, escaped: set<nat>) {
    Tiles(s, i, tokens) && Counted(s, i, tokens, escaped) && AllFit(s, i, tokens)
  }

  /** A token of the given text read between g and end. */
  ghost predicate TokenAt(s: string, g: nat, end: nat, t: Token, escaped: set<nat>) {
    && g < end <= |s| && t.value == s[g..end] && t.kind != EOF && Fits(t) && Maximal(s, end, t)
    && (t.line, t.column) == At(s[..g], escaped)
  }

  /** The tokens between the offsets i and j, without an end of file. */
  ghost predicate LexedTo(s: string, i: nat, tokens: seq<Token>, j: nat, escaped: set<nat>)
    decreases |tokens|
  {
    && i <= |s|
    && if tokens == [] then j == i
       else
         var g := GapEnd(s, i);
         var end := g + |tokens[0].value|;
         && TokenAt(s, g, end, tokens[0], escaped)
         && LexedTo(s, end, tokens[1..], j, escaped + EscapesOf(s, g, tokens[0]))
  }

  /** One more token. */
  lemma {:induction false} LexedOneMore(s: string, i: nat, tokens: seq<Token>, j: nat, escaped: set<nat>, t: Token)
    requires LexedTo(s, i, tokens, j, escaped) && j <= |s|
    requires TokenAt(s, GapEnd(s, j), GapEnd(s, j) + |t.value|, t, escaped + AllEscapes(s, i, tokens))
    ensures LexedTo(s, i, tokens + [t], GapEnd(s, j) + |t.value|, escaped)
    ensures AllEscapes(s, i, tokens + [t]) == AllEscapes(s, i, tokens) + EscapesOf(s, GapEnd(s, j), t)
    decreases |tokens|
  {
    hide TokenAt, EscapesOf, GapEnd;
    var all := tokens + [t];
    if tokens == [] {
      assert all == [t] && all[1..] == [];
      assert escaped + {} == escaped;
      TokenInside(s, GapEnd(s, i), GapEnd(s, i) + |t.value|, t, escaped);
    } else {
      var g := GapEnd(s, i);
      var now := escaped + EscapesOf(s, g, tokens[0]);
      assert all[0] == tokens[0] && all[1..] == tokens[1..] + [t];
      EscapesRegroup(s, i, tokens, escaped);
      LexedOneMore(s, g + |tokens[0].value|, tokens[1..], j, now, t);
    }
  }

  lemma TokenInside(s: string, g: nat, end: nat, t: Token, escaped: set<nat>)
    requires TokenAt(s, g, end, t, escaped)
    ensures end <= |s| && |t.value| == end - g > 0
  {
  }

  /** With the end of file behind them, the tokens are a right sequence. */
  lemma {:induction false} LexedRight(s: string, i: nat, tokens: seq<Token>, j: nat, escaped: set<nat>, t: Token)
    requires LexedTo(s, i, tokens, j, escaped) && j <= |s| && GapEnd(s, j) == |s| && t.kind == EOF && t.value == ""
    requires (t.line, t.column) == At(s, escaped + AllEscapes(s, i, tokens))
    ensures Right(s, i, tokens + [t], escaped)
    decreases |tokens|
  {
    hide TokenAt, EscapesOf, At, GapEnd;
    if tokens == [] {
      assert tokens + [t] == [t] && escaped + {} == escaped && s[..|s|] == s;
    } else {
      var g := GapEnd(s, i);
      var now := escaped + EscapesOf(s, g, tokens[0]);
      assert (tokens + [t])[1..] == tokens[1..] + [t];
      EscapesRegroup(s, i, tokens, escaped);
      LexedRight(s, g + |tokens[0].value|, tokens[1..], j, now, t);
      RightCons(s, i, tokens[0], tokens[1..] + [t], escaped);
      assert tokens + [t] == [tokens[0]] + (tokens[1..] + [t]);
    }
  }

  /** A token in front of a right sequence. */
  lemma RightCons(s: string, i: nat, t: Token, tokens: seq<Token>, escaped: set<nat>)
    requires i <= |s| && TokenAt(s, GapEnd(s, i), GapEnd(s, i) + |t.value|, t, escaped)
    requires Right(s, GapEnd(s, i) + |t.value|, tokens, escaped + EscapesOf(s, GapEnd(s, i), t))
    ensures Right(s, i, [t] + tokens, escaped)
  {
    hide Fits, Maximal, At, EscapesOf;
    assert ([t] + tokens)[1..] == tokens;
  }

  predicate Quote(c: char) {
    c == '"' || c == '\''
  }

  ghost predicate Unclosed(s: string, q: char, from: nat) {
    forall end: nat :: end <= |s| ==> !Closes(s, q, from, end)
  }

  /** No token starts at i: the character is none the lexer knows, or a string is never closed. */
  ghost predicate Stuck(s: string, i: nat) {
    && i < |s| && !Blank(s[i])
    && if Quote(s[i]) then Unclosed(s, s[i], i + 1)
       else NoSymbol(s, i) && !Letter(s[i]) && !Digit(s[i])
  }

  predicate NoSymbol(s: string, i: nat)
    requires i < |s|
  {
    && DelimiterKind(s[i]) == EOF && s[i] !in SINGLE_CHAR_OPERATORS
    && (i + 1 < |s| ==> [s[i], s[i + 1]] !in TWO_CHAR_OPERATORS)
  }
}
