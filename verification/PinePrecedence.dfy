/** Which operators of the Pine sandbox bind tighter, and which associate to the right. */
module PinePrecedence {
  import opened Options
  import opened PineSyntax
  import opened PinePrinter
  import opened PineRoundTrip
  import opened PineBounds

  /** The six ranks of binary operators, from the loosest; -1 is no binary operator. */
  function Rank(op: string): int {
    if op == "||" then 0
    else if op == "&&" then 1
    else if op == "===" || op == "!==" || op == "==" || op == "!=" then 2
    else if op == "<" || op == "<=" || op == ">" || op == ">=" then 3
    else if op == "+" || op == "-" then 4
    else if op == "*" || op == "/" || op == "%" then 5
    else -1
  }

  predicate Assigns(op: string) {
    op == "=" || op == "+=" || op == "-=" || op == "*=" || op == "/="
  }

  predicate Negates(op: string) {
    op == "-" || op == "!" || op == "+"
  }

  /** The ranks are the levels of the parser. */
  lemma RankIsLevel(op: string)
    ensures Rank(op) >= 0 ==> OpLevel(op) == Rank(op)
    ensures Rank(op) < 0 ==> OpLevel(op) == LEVELS
  {
  }

  /** An operand that no operator has made needs no parentheses anywhere. */
  predicate Operand(e: Expr) {
    Parsable(e) && Tightness(e) == OPERAND
  }

  /** The tokens of such an operand. */
  function Tokens(e: Expr): seq<Token> {
    Print(e, OPERAND, None)
  }

  lemma {:induction false} OperandAnywhere(e: Expr, level: nat)
    requires Operand(e) && level <= OPERAND
    ensures Print(e, level, None) == Tokens(e)
    decreases OPERAND - level
  {
    hide Print, Nesting, Parsable;
    if level < LEVELS {
      SameNext(e, level, None);
      OperandAnywhere(e, level + 1);
    } else if level == LEVELS {
      NoPrefix(e, None);
    }
  }

  lemma BinWritten(op: string, l: Expr, r: Expr, level: nat)
    requires LEVELS > Rank(op) >= level && Parsable(l) && Parsable(r)
    ensures Parsable(Bin(op, l, r)) && Tightness(Bin(op, l, r)) == Rank(op)
    ensures Print(Bin(op, l, r), level, None) == Print(l, Rank(op), None) + [Op(op)] + Print(r, Rank(op) + 1, None)
    ensures Nesting(Bin(op, l, r), level, None) == Max(Nesting(l, Rank(op), None), Nesting(r, Rank(op) + 1, None))
  {
    RankIsLevel(op);
    RankBelow(op);
    hide Rank, OpLevel, Print, Nesting;
    PrintedBin(Bin(op, l, r), level, None);
  }

  /** What the whole list reads as, when nothing is nested too deeply. */
  predicate ReadsAs(ts: seq<Token>, e: Expr) {
    Assignment(ts + [EOF], 0, 0) == if Depth(e) <= MAX_DEPTH then Done(e, |ts|) else TooDeep
  }

  lemma WrittenReadsAs(e: Expr, ts: seq<Token>)
    requires Parsable(e) && PrintAll(e, None) == ts
    ensures Ended(ts + [EOF]) && ReadsAs(ts, e)
  {
    hide Parsable, PrintAll, NestingAll, Assignment;
    WrittenEnds(ts);
    RoundTrip(e);
  }

  lemma RightTighter(p: string, q: string, a: Expr, b: Expr, c: Expr)
    requires 0 <= Rank(p) < Rank(q) && Operand(a) && Operand(b) && Operand(c)
    ensures ReadsAs(Tokens(a) + [Op(p)] + Tokens(b) + [Op(q)] + Tokens(c), Bin(p, a, Bin(q, b, c)))
  {
    hide Rank, Print, Parsable, ReadsAs, Tightness, PrintAll, NestingAll, Nesting;
    assert Parsable(b) && Parsable(c);
    var x, y, z := Tokens(a), Tokens(b), Tokens(c);
    RankBelow(q);
    var right, inner := Bin(q, b, c), y + [Op(q)] + z;
    OperandAnywhere(b, Rank(q));
    OperandAnywhere(c, Rank(q) + 1);
    BinWritten(q, b, c, Rank(p) + 1);
    assert Print(right, Rank(p) + 1, None) == inner;
    FirstOperand(p, a, right, inner);
    assert x + [Op(p)] + inner == x + [Op(p)] + y + [Op(q)] + z;
  }

  lemma FirstOperand(p: string, a: Expr, right: Expr, inner: seq<Token>)
    requires 0 <= Rank(p) < LEVELS && Operand(a) && Parsable(right) && Print(right, Rank(p) + 1, None) == inner
    ensures ReadsAs(Tokens(a) + [Op(p)] + inner, Bin(p, a, right))
  {
    hide Rank, Print, Parsable, ReadsAs, Tightness, PrintAll, NestingAll, Nesting;
    assert Parsable(a);
    OperandAnywhere(a, Rank(p));
    BinWritten(p, a, right, 0);
    PlainParts(Bin(p, a, right), None);
    WrittenReadsAs(Bin(p, a, right), Tokens(a) + [Op(p)] + inner);
  }

  lemma LeftTighter(p: string, q: string, a: Expr, b: Expr, c: Expr)
    requires 0 <= Rank(q) <= Rank(p) && Operand(a) && Operand(b) && Operand(c)
    ensures ReadsAs(Tokens(a) + [Op(p)] + Tokens(b) + [Op(q)] + Tokens(c), Bin(q, Bin(p, a, b), c))
  {
    hide Rank, Print, Parsable, ReadsAs, Tightness, PrintAll, NestingAll, Nesting;
    assert Parsable(a) && Parsable(b);
    var x, y := Tokens(a), Tokens(b);
    RankBelow(p);
    var left, inner := Bin(p, a, b), x + [Op(p)] + y;
    OperandAnywhere(a, Rank(p));
    OperandAnywhere(b, Rank(p) + 1);
    BinWritten(p, a, b, Rank(q));
    assert Print(left, Rank(q), None) == inner;
    LastOperand(q, left, c, inner);
  }

  lemma LastOperand(q: string, left: Expr, c: Expr, inner: seq<Token>)
    requires Rank(q) >= 0 && Parsable(left) && Operand(c) && Print(left, Rank(q), None) == inner
    ensures ReadsAs(inner + [Op(q)] + Tokens(c), Bin(q, left, c))
  {
    hide Rank, Print, Parsable, ReadsAs, Tightness, PrintAll, NestingAll, Nesting;
    RankBelow(q);
    assert Parsable(c);
    OperandAnywhere(c, Rank(q) + 1);
    BinWritten(q, left, c, 0);
    PlainParts(Bin(q, left, c), None);
    WrittenReadsAs(Bin(q, left, c), inner + [Op(q)] + Tokens(c));
  }

  /** Of two binary operators in a row the one of the higher rank binds tighter, and at equal rank
      the left one. */
  lemma Precedence(p: string, q: string, a: Expr, b: Expr, c: Expr)
    requires Rank(p) >= 0 && Rank(q) >= 0 && Operand(a) && Operand(b) && Operand(c)
    ensures
      var e := if Rank(q) > Rank(p) then Bin(p, a, Bin(q, b, c)) else Bin(q, Bin(p, a, b), c);
      ReadsAs(Tokens(a) + [Op(p)] + Tokens(b) + [Op(q)] + Tokens(c), e)
  {
    hide Rank, Print, Parsable, ReadsAs, Tightness, PrintAll, NestingAll, Nesting;
    if Rank(q) > Rank(p) {
      RightTighter(p, q, a, b, c);
    } else {
      LeftTighter(p, q, a, b, c);
    }
  }

  lemma RankBelow(op: string)
    ensures Rank(op) < LEVELS
  {
  }

  /** Said of names, numbers and the other atoms, which are one token each. */
  lemma AtomPrecedence(p: string, q: string, a: Expr, b: Expr, c: Expr)
    requires Rank(p) >= 0 && Rank(q) >= 0
    requires Atom(a) && Atom(b) && Atom(c) && Parsable(a) && Parsable(b) && Parsable(c)
    ensures
      Assignment([AtomToken(a), Op(p), AtomToken(b), Op(q), AtomToken(c), EOF], 0, 0)
      == Done(if Rank(q) > Rank(p) then Bin(p, a, Bin(q, b, c)) else Bin(q, Bin(p, a, b), c), 5)
  {
    hide Rank, Print, Parsable, Nesting, AtomToken, Tokens, Depth, Assignment;
    Precedence(p, q, a, b, c);
    TokensOfAtom(a);
    TokensOfAtom(b);
    TokensOfAtom(c);
    AtomsDepth(p, q, a, b, c);
    var ts := [AtomToken(a)] + [Op(p)] + [AtomToken(b)] + [Op(q)] + [AtomToken(c)];
    assert ts + [EOF] == [AtomToken(a), Op(p), AtomToken(b), Op(q), AtomToken(c), EOF];
  }

  lemma TokensOfAtom(e: Expr)
    requires Atom(e)
    ensures Tokens(e) == [AtomToken(e)]
  {
    OneAtom(e);
  }

  lemma AtomsDepth(p: string, q: string, a: Expr, b: Expr, c: Expr)
    requires Rank(p) >= 0 && Rank(q) >= 0
    requires Atom(a) && Atom(b) && Atom(c) && Parsable(a) && Parsable(b) && Parsable(c)
    ensures Depth(if Rank(q) > Rank(p) then Bin(p, a, Bin(q, b, c)) else Bin(q, Bin(p, a, b), c)) == 3
  {
    hide Rank, Print, Parsable, Nesting, AtomToken, NestingAll;
    RankBelow(p);
    RankBelow(q);
    if Rank(q) > Rank(p) {
      AtomsNesting(q, b, c, Rank(p) + 1);
      BinWritten(p, a, Bin(q, b, c), 0);
      AtomNesting(a, Rank(p));
      PlainParts(Bin(p, a, Bin(q, b, c)), None);
    } else {
      AtomsNesting(p, a, b, Rank(q));
      BinWritten(q, Bin(p, a, b), c, 0);
      AtomNesting(c, Rank(q) + 1);
      PlainParts(Bin(q, Bin(p, a, b), c), None);
    }
  }

  lemma AtomsNesting(op: string, a: Expr, b: Expr, level: nat)
    requires LEVELS > Rank(op) >= level && Atom(a) && Atom(b) && Parsable(a) && Parsable(b)
    ensures Parsable(Bin(op, a, b)) && Nesting(Bin(op, a, b), level, None) == 2
  {
    hide Rank, Print, Nesting;
    BinWritten(op, a, b, level);
    AtomNesting(a, Rank(op));
    AtomNesting(b, Rank(op) + 1);
  }

  lemma AtomNesting(e: Expr, level: nat)
    requires Atom(e) && level < OPERAND
    ensures Nesting(e, level, None) == 2
  {
  }

  // ---- the other operators ----

  /** Assignments associate to the right and bind less than every binary operator. */
  lemma AssignmentsLoose(p: string, q: string, a: Expr, b: Expr, c: Expr)
    requires Assigns(q) && Operand(a) && Operand(b) && Operand(c)
    ensures Assigns(p) ==> ReadsAs(Tokens(a) + [Op(p)] + Tokens(b) + [Op(q)] + Tokens(c), Assign(p, a, Assign(q, b, c)))
    ensures Rank(p) >= 0 ==>
      && ReadsAs(Tokens(a) + [Op(p)] + Tokens(b) + [Op(q)] + Tokens(c), Assign(q, Bin(p, a, b), c))
      && ReadsAs(Tokens(a) + [Op(q)] + Tokens(b) + [Op(p)] + Tokens(c), Assign(q, a, Bin(p, b, c)))
  {
    hide Rank, Print, Parsable, ReadsAs, Tightness, Assigns, PrintAll, NestingAll;
    assert Parsable(a) && Parsable(b) && Parsable(c);
    if Assigns(p) {
      AssignWritten(q, b, c);
      AssignWritten(p, a, Assign(q, b, c));
      OperandWhole(a);
      OperandWhole(b);
      OperandWhole(c);
      var x, y, z := Tokens(a), Tokens(b), Tokens(c);
      assert x + [Op(p)] + (y + [Op(q)] + z) == x + [Op(p)] + y + [Op(q)] + z;
      WrittenReadsAs(Assign(p, a, Assign(q, b, c)), x + [Op(p)] + y + [Op(q)] + z);
    }
    if Rank(p) >= 0 {
      AssignBin(p, q, a, b, c);
    }
  }

  lemma OperandWhole(e: Expr)
    requires Operand(e)
    ensures Print(e, 0, None) == PrintAll(e, None) == Tokens(e)
  {
    OperandAnywhere(e, 0);
    PlainParts(e, None);
  }

  lemma AssignWritten(op: string, l: Expr, r: Expr)
    requires Assigns(op) && Parsable(l) && Parsable(r)
    ensures Parsable(Assign(op, l, r))
    ensures PrintAll(Assign(op, l, r), None) == Print(l, 0, None) + [Op(op)] + PrintAll(r, None)
  {
    hide Print;
  }

  lemma AssignBin(p: string, q: string, a: Expr, b: Expr, c: Expr)
    requires Rank(p) >= 0 && Assigns(q) && Operand(a) && Operand(b) && Operand(c)
    ensures ReadsAs(Tokens(a) + [Op(p)] + Tokens(b) + [Op(q)] + Tokens(c), Assign(q, Bin(p, a, b), c))
    ensures ReadsAs(Tokens(a) + [Op(q)] + Tokens(b) + [Op(p)] + Tokens(c), Assign(q, a, Bin(p, b, c)))
  {
    hide Rank, Print, Parsable, ReadsAs, Tightness, Assigns, PrintAll, NestingAll;
    assert Parsable(a) && Parsable(b) && Parsable(c);
    OperandWhole(a);
    OperandWhole(c);
    BinTokens(p, a, b);
    BinTokens(p, b, c);
    AssignWritten(q, Bin(p, a, b), c);
    AssignWritten(q, a, Bin(p, b, c));
    var x, y, z := Tokens(a), Tokens(b), Tokens(c);
    WrittenReadsAs(Assign(q, Bin(p, a, b), c), x + [Op(p)] + y + [Op(q)] + z);
    assert x + [Op(q)] + (y + [Op(p)] + z) == x + [Op(q)] + y + [Op(p)] + z;
    WrittenReadsAs(Assign(q, a, Bin(p, b, c)), x + [Op(q)] + y + [Op(p)] + z);
  }

  lemma BinTokens(p: string, a: Expr, b: Expr)
    requires Rank(p) >= 0 && Operand(a) && Operand(b)
    ensures Parsable(Bin(p, a, b))
    ensures Print(Bin(p, a, b), 0, None) == PrintAll(Bin(p, a, b), None) == Tokens(a) + [Op(p)] + Tokens(b)
  {
    hide Rank, Print, Parsable;
    RankBelow(p);
    assert Parsable(a) && Parsable(b);
    BinWritten(p, a, b, 0);
    OperandAnywhere(a, Rank(p));
    OperandAnywhere(b, Rank(p) + 1);
    PlainParts(Bin(p, a, b), None);
  }

  /** A prefix operator binds tighter than every binary one, and looser than the postfix forms. */
  lemma PrefixTight(u: string, q: string, a: Expr, b: Expr)
    requires Negates(u) && Rank(q) >= 0 && Operand(a) && Operand(b)
    ensures ReadsAs([Op(u)] + Tokens(a) + [Op(q)] + Tokens(b), Bin(q, Unary(u, a), b))
    ensures ReadsAs(Tokens(a) + [Op(q)] + [Op(u)] + Tokens(b), Bin(q, a, Unary(u, b)))
    ensures ReadsAs([Op(u)] + Tokens(a), Unary(u, a))
    ensures ReadsAs([Token("IDENT", "typeof")] + Tokens(a) + [Op(q)] + Tokens(b), Bin(q, TypeOf(a), b))
  {
    hide Rank, Print, Parsable, ReadsAs, Tightness, PrintAll, NestingAll, Negates, Nesting;
    TypeOfTight(q, a, b);
    PrefixLeft(u, q, a, b);
    PrefixRight(u, q, a, b);
    PrefixWritten(u, a, 0);
    PlainParts(Unary(u, a), None);
    WrittenReadsAs(Unary(u, a), [Op(u)] + Tokens(a));
  }

  lemma PrefixLeft(u: string, q: string, a: Expr, b: Expr)
    requires Negates(u) && Rank(q) >= 0 && Operand(a) && Operand(b)
    ensures ReadsAs([Op(u)] + Tokens(a) + [Op(q)] + Tokens(b), Bin(q, Unary(u, a), b))
  {
    hide Rank, Print, Parsable, ReadsAs, Tightness, PrintAll, NestingAll, Negates, Nesting;
    assert Parsable(b);
    RankBelow(q);
    PrefixWritten(u, a, Rank(q));
    BinWritten(q, Unary(u, a), b, 0);
    OperandAnywhere(b, Rank(q) + 1);
    PlainParts(Bin(q, Unary(u, a), b), None);
    WrittenReadsAs(Bin(q, Unary(u, a), b), [Op(u)] + Tokens(a) + [Op(q)] + Tokens(b));
  }

  lemma PrefixRight(u: string, q: string, a: Expr, b: Expr)
    requires Negates(u) && Rank(q) >= 0 && Operand(a) && Operand(b)
    ensures ReadsAs(Tokens(a) + [Op(q)] + [Op(u)] + Tokens(b), Bin(q, a, Unary(u, b)))
  {
    hide Rank, Print, Parsable, ReadsAs, Tightness, PrintAll, NestingAll, Negates, Nesting;
    assert Parsable(a);
    RankBelow(q);
    PrefixWritten(u, b, Rank(q) + 1);
    BinWritten(q, a, Unary(u, b), 0);
    OperandAnywhere(a, Rank(q));
    PlainParts(Bin(q, a, Unary(u, b)), None);
    var x, y := Tokens(a), Tokens(b);
    assert x + [Op(q)] + ([Op(u)] + y) == x + [Op(q)] + [Op(u)] + y;
    WrittenReadsAs(Bin(q, a, Unary(u, b)), x + [Op(q)] + [Op(u)] + y);
  }

  lemma TypeOfTight(q: string, a: Expr, b: Expr)
    requires Rank(q) >= 0 && Operand(a) && Operand(b)
    ensures ReadsAs([Token("IDENT", "typeof")] + Tokens(a) + [Op(q)] + Tokens(b), Bin(q, TypeOf(a), b))
  {
    hide Rank, Print, Parsable, ReadsAs, Tightness, PrintAll, NestingAll;
    assert Parsable(a) && Parsable(b);
    RankBelow(q);
    TypeOfWritten(a, Rank(q));
    BinWritten(q, TypeOf(a), b, 0);
    OperandAnywhere(b, Rank(q) + 1);
    PlainParts(Bin(q, TypeOf(a), b), None);
    WrittenReadsAs(Bin(q, TypeOf(a), b), [Token("IDENT", "typeof")] + Tokens(a) + [Op(q)] + Tokens(b));
  }

  lemma TypeOfWritten(a: Expr, level: nat)
    requires Operand(a) && level <= LEVELS
    ensures Parsable(TypeOf(a)) && Print(TypeOf(a), level, None) == [Token("IDENT", "typeof")] + Tokens(a)
  {
    hide Print;
    PrefixParts(TypeOf(a), level, None);
    OperandAnywhere(a, LEVELS);
  }

  lemma PrefixWritten(u: string, a: Expr, level: nat)
    requires Negates(u) && Operand(a) && level <= LEVELS
    ensures Parsable(Unary(u, a)) && Print(Unary(u, a), level, None) == [Op(u)] + Tokens(a)
  {
    hide Print;
    PrefixParts(Unary(u, a), level, None);
    OperandAnywhere(a, LEVELS);
  }

  /** The ternary binds less than the binary operators and nests to the right. */
  lemma TernaryLoose(p: string, a: Expr, b: Expr, c: Expr, d: Expr, e: Expr)
    requires Rank(p) >= 0 && Operand(a) && Operand(b) && Operand(c) && Operand(d) && Operand(e)
    ensures ReadsAs(Tokens(a) + [Op(p)] + Tokens(b) + Choice(Tokens(c), Tokens(d)), Ternary(Bin(p, a, b), c, d))
    ensures ReadsAs(Tokens(a) + Choice(Tokens(b), Tokens(c) + Choice(Tokens(d), Tokens(e))),
                    Ternary(a, b, Ternary(c, d, e)))
  {
    hide Rank, Print, Parsable, ReadsAs, Tightness, PrintAll, NestingAll;
    assert Parsable(a) && Parsable(b) && Parsable(c) && Parsable(d) && Parsable(e);
    BinTokens(p, a, b);
    OperandWhole(a);
    OperandWhole(b);
    OperandWhole(c);
    OperandWhole(d);
    OperandWhole(e);
    TernaryWritten(Bin(p, a, b), c, d);
    TernaryWritten(c, d, e);
    TernaryWritten(a, b, Ternary(c, d, e));
    WrittenReadsAs(Ternary(Bin(p, a, b), c, d), Tokens(a) + [Op(p)] + Tokens(b) + Choice(Tokens(c), Tokens(d)));
    WrittenReadsAs(Ternary(a, b, Ternary(c, d, e)),
                   Tokens(a) + Choice(Tokens(b), Tokens(c) + Choice(Tokens(d), Tokens(e))));
  }

  /** The tokens of both branches with their marks. */
  function Choice(yes: seq<Token>, no: seq<Token>): seq<Token> {
    [Punct("?")] + (yes + [Punct(":")] + no)
  }

  lemma TernaryWritten(c: Expr, y: Expr, n: Expr)
    requires Parsable(c) && Parsable(y) && Parsable(n)
    ensures Parsable(Ternary(c, y, n))
    ensures PrintAll(Ternary(c, y, n), None) == Print(c, 0, None) + Choice(PrintAll(y, None), PrintAll(n, None))
  {
    hide Print;
    var x, z := Print(c, 0, None), PrintAll(y, None) + [Punct(":")] + PrintAll(n, None);
    assert x + [Punct("?")] + z == x + ([Punct("?")] + z);
  }

  // ---- nothing else is an operator ----

  /** Behind an atom every token that is no operator, bracket, point or question mark ends the
      expression. */
  lemma OthersEnd(a: Expr, t: Token, rest: seq<Token>)
    requires Atom(a) && Parsable(a) && Rank(t.value) < 0 && !Assigns(t.value)
    requires t.value != "." && t.value != "(" && t.value != "[" && t.value != "++" && t.value != "--"
    requires t.value != "?" && t.kind != "?"
    ensures
      var ts := [AtomToken(a), t] + rest + [EOF];
      Ended(ts) && Assignment(ts, 0, 0) == Done(a, 1)
  {
    var ts := [AtomToken(a), t] + rest + [EOF];
    assert Ended(ts) && ts[0] == AtomToken(a) && ts[1] == t;
    NoOperator(t);
    hide Rank, Assigns, Primary, PostfixRest, UnaryExpr, Assignment;
    AtomStep(a, ts, 0, 2);
    StopsPostfix(ts, 1, 2, a);
    UnaryUnfold(ts, 0, 1);
    UnaryEnds(ts, 0, 0, a, 1);
  }

  lemma NoOperator(t: Token)
    requires Rank(t.value) < 0 && !Assigns(t.value)
    requires t.value != "." && t.value != "(" && t.value != "[" && t.value != "++" && t.value != "--"
    requires t.value != "?" && t.kind != "?"
    ensures Closes(t)
  {
    forall k | 0 <= k < LEVELS
      ensures t.value !in Ops(k)
    {
      if t.value in Ops(k) {
        LevelRank(t.value, k);
      }
    }
  }

  lemma LevelRank(op: string, k: nat)
    requires k < LEVELS && op in Ops(k)
    ensures Rank(op) == k
  {
  }

  /** Every number and string is read as itself, unless it says one of the four prefix operators;
      so is every name that is no literal and not new. */
  lemma PlainAtoms(text: string)
    requires !Negates(text) && text != "typeof"
    ensures Parsable(Number(text)) && Parsable(Text(text))
    ensures text != "true" && text != "false" && text != "undefined" && text != "null" && text != "new" ==>
      Parsable(Ident(text))
  {
  }
}
