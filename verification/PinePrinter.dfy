/** Writing an expression tree of the Pine sandbox as tokens, with as few parentheses as the
    parser of PineSyntax allows. */
module PinePrinter {
  import opened Options
  import opened PineSyntax

  /** Names that the parser reads as a literal or a keyword. */
  const RESERVED := ["true", "false", "undefined", "null", "new"]

  /** Values that parse_unary takes for a prefix operator, whatever the token's type. */
  predicate Prefix(v: string) {
    v == "typeof" || v in UNARY_OPS
  }

  predicate Atom(e: Expr) {
    e.Number? || e.Text? || e.Bool? || e.Nothing? || e.Ident?
  }

  function AtomToken(e: Expr): Token
    requires Atom(e)
  {
    match e
    case Number(text) => Token("NUMBER", text)
    case Text(text) => Token("STRING", text)
    case Bool(b) => Token("IDENT", if b then "true" else "false")
    case Nothing(name) => Token("IDENT", name)
    case Ident(name) => Token("IDENT", name)
  }

  /** The trees without a name, number, string or operator that the parser would read as something
      else. A string literal counts by its contents: one that says - or typeof is taken for that
      operator wherever it stands. */
  predicate Parsable(e: Expr) {
    match e
    case Number(text) => !Prefix(text)
    case Text(text) => !Prefix(text)
    case Bool(_) => true
    case Nothing(name) => name == "undefined" || name == "null"
    case Ident(name) => !Prefix(name) && name !in RESERVED
    case New(_, args) => AllParsable(args)
    case Unary(op, x) => op in UNARY_OPS && Parsable(x)
    case TypeOf(x) => Parsable(x)
    case Bin(op, l, r) => OpLevel(op) < LEVELS && Parsable(l) && Parsable(r)
    case Assign(op, target, x) => op in ASSIGN_OPS && Parsable(target) && Parsable(x)
    case Ternary(cond, yes, no) => Parsable(cond) && Parsable(yes) && Parsable(no)
    case Member(x, _) => Parsable(x)
    case Call(x, args) => Parsable(x) && AllParsable(args)
    case Index(x, at) => Parsable(x) && Parsable(at)
    case PostInc(x) => Parsable(x)
    case PostDec(x) => Parsable(x)
    case ArrayLit(args) => AllParsable(args)
  }

  predicate AllParsable(es: seq<Expr>) {
    forall i :: 0 <= i < |es| ==> Parsable(es[i])
  }

  function OpLevel(op: string): (k: nat)
    ensures k <= LEVELS && (k < LEVELS ==> op in Ops(k))
  {
    if op in Ops(0) then 0 else if op in Ops(1) then 1 else if op in Ops(2) then 2
    else if op in Ops(3) then 3 else if op in Ops(4) then 4 else if op in Ops(5) then 5 else LEVELS
  }

  /** The level of parse_postfix; LEVELS is the level of parse_unary. */
  const OPERAND: nat := LEVELS + 1

  /** How tightly the outermost operator binds; assignments and ternaries bind less than all. */
  function Tightness(e: Expr): (k: int)
    ensures -1 <= k <= OPERAND
  {
    if e.Assign? || e.Ternary? then -1
    else if e.Bin? then OpLevel(e.op)
    else if e.Unary? || e.TypeOf? then LEVELS
    else OPERAND
  }

  function Op(op: string): Token {
    Token("OP", op)
  }

  function Punct(p: string): Token {
    Token("PUNCT", p)
  }

  const EOF := Token("EOF", "")

  function Parens(inner: seq<Token>): seq<Token> {
    [Punct("(")] + inner + [Punct(")")]
  }

  function Brackets(inner: seq<Token>): seq<Token> {
    [Punct("[")] + inner + [Punct("]")]
  }

  /** The atom would be taken for the token that ends an empty list. */
  predicate AtStop(e: Expr, stop: Option<string>) {
    Atom(e) && stop == Some(AtomToken(e).value)
  }

  predicate Wrapped(e: Expr, level: nat, stop: Option<string>) {
    Tightness(e) < level || AtStop(e, stop)
  }

  /** The forms of parse_postfix with a left operand. */
  predicate Postfix(e: Expr) {
    e.Member? || e.Call? || e.Index? || e.PostInc? || e.PostDec?
  }

  /** What is written behind the left operand of a postfix form. */
  function Suffix(e: Expr): seq<Token>
    requires Postfix(e)
    decreases e, 0
  {
    match e
    case Member(_, name) => [Punct("."), Token("IDENT", name)]
    case Call(_, args) => Parens(PrintItems(args, Some(")")))
    case Index(_, at) => Brackets(PrintAll(at, None))
    case PostInc(_) => [Op("++")]
    case PostDec(_) => [Op("--")]
  }

  /** The tokens of e where an operand of the given level is wanted, not starting with the value
      to stop at. Parentheses appear only around an operator that binds less tightly and around
      an atom at the stop; both operands of a level's own operator may be at that level only on
      the left. */
  function Print(e: Expr, level: nat, stop: Option<string>): seq<Token>
    requires level <= OPERAND
    decreases e, if Wrapped(e, level, stop) then 3 else 1
  {
    if Wrapped(e, level, stop) then Parens(PrintAll(e, None))
    else if Atom(e) then [AtomToken(e)]
    else if Postfix(e) then Print(e.e, OPERAND, stop) + Suffix(e)
    else match e
      case Unary(op, x) => [Op(op)] + Print(x, LEVELS, None)
      case TypeOf(x) => [Token("IDENT", "typeof")] + Print(x, LEVELS, None)
      case Bin(op, l, r) => Print(l, OpLevel(op), stop) + [Op(op)] + Print(r, OpLevel(op) + 1, None)
      case New(ctor, args) =>
        [Token("IDENT", "new"), Token("IDENT", ctor)] + Parens(PrintItems(args, Some(")")))
      case ArrayLit(args) => Brackets(PrintItems(args, Some("]")))
  }

  /** The tokens of e where a whole expression is wanted. */
  function PrintAll(e: Expr, stop: Option<string>): seq<Token>
    decreases e, if AtStop(e, stop) then 4 else 2
  {
    match e
    case Assign(op, target, x) => Print(target, 0, stop) + [Op(op)] + PrintAll(x, None)
    case Ternary(cond, yes, no) =>
      Print(cond, 0, stop) + [Punct("?")] + (PrintAll(yes, None) + [Punct(":")] + PrintAll(no, None))
    case _ => Print(e, 0, stop)
  }

  function PrintItems(es: seq<Expr>, stop: Option<string>): seq<Token> {
    if es == [] then []
    else PrintAll(es[0], stop) + if |es| == 1 then [] else [Punct(",")] + PrintItems(es[1..], None)
  }

  /** A whole token list. */
  function Written(e: Expr): seq<Token> {
    PrintAll(e, None) + [EOF]
  }

  function Max(a: nat, b: nat): nat {
    if a > b then a else b
  }

  function SuffixNesting(e: Expr): nat
    requires Postfix(e)
    decreases e, 0, 0
  {
    if e.Call? then NestingItems(e.args, Some(")")) else if e.Index? then NestingAll(e.at, None) else 0
  }

  /** How much deeper than its caller the parser goes while reading Print(e, level, stop). */
  function Nesting(e: Expr, level: nat, stop: Option<string>): nat
    requires level <= OPERAND
    decreases e, if Wrapped(e, level, stop) then 3 else 1, OPERAND - level
  {
    if level < OPERAND then
      if Wrapped(e, level, stop) || Tightness(e) == OPERAND then 1 + Nesting(e, OPERAND, stop)
      else if e.Bin? then Max(Nesting(e.left, OpLevel(e.op), stop), Nesting(e.right, OpLevel(e.op) + 1, None))
      else 1 + Nesting(e.e, LEVELS, None)
    else if Wrapped(e, level, stop) then 1 + NestingAll(e, None)
    else if Postfix(e) then Max(Nesting(e.e, OPERAND, stop), SuffixNesting(e))
    else if e.New? then 1 + NestingItems(e.args, Some(")"))
    else if e.ArrayLit? then 1 + NestingItems(e.args, Some("]"))
    else 1
  }

  function NestingAll(e: Expr, stop: Option<string>): nat
    decreases e, if AtStop(e, stop) then 4 else 2, 0
  {
    match e
    case Assign(_, target, x) => 1 + Max(Nesting(target, 0, stop), NestingAll(x, None))
    case Ternary(cond, yes, no) => 1 + Max(Nesting(cond, 0, stop), Max(NestingAll(yes, None), NestingAll(no, None)))
    case _ => 1 + Nesting(e, 0, stop)
  }

  function NestingItems(es: seq<Expr>, stop: Option<string>): nat {
    if es == [] then 0 else Max(NestingAll(es[0], stop), NestingItems(es[1..], None))
  }

  /** How deep the parser goes for the whole list. */
  function Depth(e: Expr): nat {
    NestingAll(e, None)
  }
}
