/** The expression grammar of src/services/pine_worker_sandbox.py: what its recursive-descent
    parser computes, as functions of the token list, the cursor and the nesting depth. */
module PineSyntax {

  /** kind is the tokenizer's type name, for example "NUMBER", "IDENT", "OP", "PUNCT". */
  datatype Token = Token(kind: string, value: string)

  datatype Expr =
    | Number(text: string)
    | Text(text: string)
    | Bool(b: bool)
    | Nothing(name: string)
    | Ident(name: string)
    | New(ctor: string, args: seq<Expr>)
    | Unary(op: string, e: Expr)
    | TypeOf(e: Expr)
    | Bin(op: string, left: Expr, right: Expr)
    | Assign(op: string, target: Expr, e: Expr)
    | Ternary(cond: Expr, yes: Expr, no: Expr)
    | Member(e: Expr, name: string)
    | Call(e: Expr, args: seq<Expr>)
    | Index(e: Expr, at: Expr)
    | PostInc(e: Expr)
    | PostDec(e: Expr)
    | ArrayLit(args: seq<Expr>)

  /** A parsed value and the cursor after it, or one of the two exceptions. */
  datatype Outcome<+T> = Done(value: T, pos: nat) | BadSyntax | TooDeep {
    predicate IsFailure() { !Done? }

    function PropagateFailure<U>(): Outcome<U>
      requires IsFailure()
    {
      if TooDeep? then TooDeep else BadSyntax
    }

    function Extract(): (T, nat)
      requires Done?
    {
      (value, pos)
    }
  }

  const MAX_DEPTH := 80

  /** The six binary levels, loosest first: parse_logical_or .. parse_multiplicative. */
  const LEVELS: nat := 6

  function Ops(level: nat): seq<string> {
    if level == 0 then ["||"]
    else if level == 1 then ["&&"]
    else if level == 2 then ["===", "!==", "==", "!="]
    else if level == 3 then ["<", "<=", ">", ">="]
    else if level == 4 then ["+", "-"]
    else if level == 5 then ["*", "/", "%"]
    else []
  }

  const ASSIGN_OPS := ["=", "+=", "-=", "*=", "/="]
  const UNARY_OPS := ["-", "!", "+"]

  /** Token lists end with the EOF token the tokenizer appends. */
  predicate Ended(ts: seq<Token>) {
    ts != [] && ts[|ts|-1] == Token("EOF", "")
  }

  /** Parser.match on one alternative: by type or by value. */
  predicate Is(t: Token, expected: string) {
    t.kind == expected || t.value == expected
  }

  predicate At(ts: seq<Token>, p: nat) {
    Ended(ts) && p < |ts|
  }

  function Assignment(ts: seq<Token>, p: nat, d: int): (r: Outcome<Expr>)
    requires At(ts, p)
    ensures r.Done? ==> p < r.pos < |ts|
    decreases |ts| - p, 10
  {
    if d + 1 > MAX_DEPTH then TooDeep else
    var (e, q) :- TernaryExpr(ts, p, d + 1);
    if ts[q].value in ASSIGN_OPS then
      var (rhs, q') :- Assignment(ts, q + 1, d + 1);
      Done(Assign(ts[q].value, e, rhs), q')
    else Done(e, q)
  }

  function TernaryExpr(ts: seq<Token>, p: nat, d: int): (r: Outcome<Expr>)
    requires At(ts, p)
    ensures r.Done? ==> p < r.pos < |ts|
    decreases |ts| - p, 9
  {
    var (e, q) :- Binary(0, ts, p, d);
    if Is(ts[q], "?") then
      var (yes, q1) :- Assignment(ts, q + 1, d);
      if Is(ts[q1], ":") then
        var (no, q2) :- Assignment(ts, q1 + 1, d);
        Done(Ternary(e, yes, no), q2)
      else BadSyntax
    else Done(e, q)
  }

  function Binary(level: nat, ts: seq<Token>, p: nat, d: int): (r: Outcome<Expr>)
    requires At(ts, p) && level <= LEVELS
    ensures r.Done? ==> p < r.pos < |ts|
    decreases |ts| - p, 8 - level
  {
    if level == LEVELS then UnaryExpr(ts, p, d) else
    var (e, q) :- Binary(level + 1, ts, p, d);
    BinaryRest(level, ts, q, d, e)
  }

  /** The loop of a binary level, with the left operand parsed so far. */
  function BinaryRest(level: nat, ts: seq<Token>, p: nat, d: int, left: Expr): (r: Outcome<Expr>)
    requires At(ts, p) && level < LEVELS
    ensures r.Done? ==> p <= r.pos < |ts|
    decreases |ts| - p, 8 - level
  {
    if ts[p].value in Ops(level) then
      var (e, q) :- Binary(level + 1, ts, p + 1, d);
      BinaryRest(level, ts, q, d, Bin(ts[p].value, left, e))
    else Done(left, p)
  }

  function UnaryExpr(ts: seq<Token>, p: nat, d: int): (r: Outcome<Expr>)
    requires At(ts, p)
    ensures r.Done? ==> p < r.pos < |ts|
    decreases |ts| - p, 1
  {
    if d + 1 > MAX_DEPTH then TooDeep
    else if ts[p].value == "typeof" then
      var (e, q) :- UnaryExpr(ts, p + 1, d + 1);
      Done(TypeOf(e), q)
    else if ts[p].value in UNARY_OPS then
      var (e, q) :- UnaryExpr(ts, p + 1, d + 1);
      Done(Unary(ts[p].value, e), q)
    else
      var (e, q) :- Primary(ts, p, d + 1);
      PostfixRest(ts, q, d + 1, e)
  }

  /** The loop of parse_postfix. */
  function PostfixRest(ts: seq<Token>, p: nat, d: int, e: Expr): (r: Outcome<Expr>)
    requires At(ts, p)
    ensures r.Done? ==> p <= r.pos < |ts|
    decreases |ts| - p, 0
  {
    if ts[p].value == "." then
      if Is(ts[p + 1], "IDENT") then PostfixRest(ts, p + 2, d, Member(e, ts[p + 1].value)) else BadSyntax
    else if ts[p].value == "(" then
      var (args, q) :- Args(ts, p + 1, d);
      if Is(ts[q], ")") then PostfixRest(ts, q + 1, d, Call(e, args)) else BadSyntax
    else if ts[p].value == "[" then
      var (i, q) :- Assignment(ts, p + 1, d);
      if Is(ts[q], "]") then PostfixRest(ts, q + 1, d, Index(e, i)) else BadSyntax
    else if ts[p].value == "++" then PostfixRest(ts, p + 1, d, PostInc(e))
    else if ts[p].value == "--" then PostfixRest(ts, p + 1, d, PostDec(e))
    else Done(e, p)
  }

  /** parse_arg_list: possibly empty, up to the closing parenthesis. */
  function Args(ts: seq<Token>, p: nat, d: int): (r: Outcome<seq<Expr>>)
    requires At(ts, p)
    ensures r.Done? ==> p <= r.pos < |ts|
    decreases |ts| - p, 12
  {
    if ts[p].value == ")" then Done([], p) else Items(ts, p, d, [])
  }

  /** One or more comma-separated expressions, after those in acc. */
  function Items(ts: seq<Token>, p: nat, d: int, acc: seq<Expr>): (r: Outcome<seq<Expr>>)
    requires At(ts, p)
    ensures r.Done? ==> p < r.pos < |ts|
    decreases |ts| - p, 11
  {
    var (e, q) :- Assignment(ts, p, d);
    if Is(ts[q], ",") then Items(ts, q + 1, d, acc + [e]) else Done(acc + [e], q)
  }

  function Primary(ts: seq<Token>, p: nat, d: int): (r: Outcome<Expr>)
    requires At(ts, p)
    ensures r.Done? ==> p < r.pos < |ts|
    decreases |ts| - p, 0
  {
    var t := ts[p];
    if d + 1 > MAX_DEPTH then TooDeep
    else if t.kind == "NUMBER" then Done(Number(t.value), p + 1)
    else if t.kind == "STRING" then Done(Text(t.value), p + 1)
    else if t.kind == "IDENT" then
      if t.value == "true" then Done(Bool(true), p + 1)
      else if t.value == "false" then Done(Bool(false), p + 1)
      else if t.value in ["undefined", "null"] then Done(Nothing(t.value), p + 1)
      else if t.value == "new" then
        if !Is(ts[p + 1], "IDENT") then BadSyntax
        else if !Is(ts[p + 2], "(") then BadSyntax
        else
          var (args, q) :- Args(ts, p + 3, d + 1);
          if Is(ts[q], ")") then Done(New(ts[p + 1].value, args), q + 1) else BadSyntax
      else Done(Ident(t.value), p + 1)
    else if t.value == "(" then
      var (e, q) :- Assignment(ts, p + 1, d + 1);
      if Is(ts[q], ")") then Done(e, q + 1) else BadSyntax
    else if t.value == "[" then
      if ts[p + 1].value == "]" then
        Done(ArrayLit([]), p + 2)
      else
        var (es, q) :- Items(ts, p + 1, d + 1, []);
        if Is(ts[q], "]") then Done(ArrayLit(es), q + 1) else BadSyntax
    else BadSyntax
  }

}
