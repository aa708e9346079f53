/** What the Pine sandbox parser can return: which trees, from how few tokens and how shallow; and
    how many tokens the depth guard lets through whatever they are. */
module PineBounds {
  import opened Options
  import opened PineSyntax
  import opened PinePrinter
  import opened PineRoundTrip

  // ---- what a written tree costs ----

  /** The tree can be written as an operand with so many tokens and so much nesting. */
  predicate Within(e: Expr, level: nat, stop: Option<string>, tokens: int, room: int)
    requires level <= OPERAND
  {
    Parsable(e) && |Print(e, level, stop)| <= tokens && Nesting(e, level, stop) <= room
  }

  predicate AllWithin(e: Expr, stop: Option<string>, tokens: int, room: int) {
    Parsable(e) && |PrintAll(e, stop)| <= tokens && NestingAll(e, stop) <= room
  }

  predicate ItemsWithin(es: seq<Expr>, stop: Option<string>, tokens: int, room: int) {
    AllParsable(es) && |PrintItems(es, stop)| <= tokens && NestingItems(es, stop) <= room
  }

  /** A stop costs at most one pair of parentheses, around the leading atom. */
  lemma {:induction false} StopCosts(e: Expr, level: nat, stop: Option<string>)
    requires Parsable(e) && level <= OPERAND
    ensures |Print(e, level, stop)| <= |Print(e, level, None)| + 2
    ensures Nesting(e, level, stop) <= Nesting(e, level, None) + 3
    decreases e
  {
    hide Print, Nesting, Parsable, OpLevel;
    if Atom(e) {
      AtomCosts(e, level, stop);
    } else if !Wrapped(e, level, None) && e.Bin? {
      PrintedBin(e, level, stop);
      PrintedBin(e, level, None);
      StopCosts(e.left, OpLevel(e.op), stop);
    } else if Postfix(e) {
      PrintedPostfix(e, level, stop);
      PrintedPostfix(e, level, None);
      StopCosts(e.e, OPERAND, stop);
    } else {
      NoStop(e, level, stop);
    }
  }

  /** Parentheses, a prefix operator, new or a bracket stand at the front whatever the stop. */
  lemma NoStop(e: Expr, level: nat, stop: Option<string>)
    requires level <= OPERAND && !Atom(e)
    requires Wrapped(e, level, None) || e.Unary? || e.TypeOf? || e.New? || e.ArrayLit?
    ensures Print(e, level, stop) == Print(e, level, None) && Nesting(e, level, stop) == Nesting(e, level, None)
  {
    hide PrintAll, NestingAll, PrintItems, NestingItems;
  }

  lemma AtomCosts(e: Expr, level: nat, stop: Option<string>)
    requires Atom(e) && level <= OPERAND
    ensures |Print(e, level, None)| == 1 && |Print(e, level, stop)| <= 3
    ensures Nesting(e, level, stop) <= Nesting(e, level, None) + 3
  {
    assert PrintAll(e, None) == Print(e, 0, None) == [AtomToken(e)];
    assert NestingAll(e, None) == 1 + Nesting(e, 0, None) == 3;
  }

  lemma StopCostsAll(e: Expr, stop: Option<string>)
    requires Parsable(e)
    ensures |PrintAll(e, stop)| <= |PrintAll(e, None)| + 2 && NestingAll(e, stop) <= NestingAll(e, None) + 3
  {
    hide Print, Nesting, PrintAll, NestingAll, Parsable;
    if e.Assign? {
      AssignParts(e, stop);
      AssignParts(e, None);
      StopCosts(e.target, 0, stop);
    } else if e.Ternary? {
      TernaryParts(e, stop);
      TernaryParts(e, None);
      StopCosts(e.cond, 0, stop);
    } else {
      PlainParts(e, stop);
      PlainParts(e, None);
      StopCosts(e, 0, stop);
    }
  }

  /** A looser place costs no more. */
  lemma Looser(e: Expr, level: nat, stop: Option<string>, tokens: int, room: int)
    requires level < LEVELS && Within(e, level + 1, stop, tokens, room)
    ensures Within(e, level, stop, tokens, room)
  {
    hide PrintAll, NestingAll, Print, Nesting, Parsable;
    if Tightness(e) == level {
      WrappedParts(e, level + 1, stop);
      PlainCosts(e, level);
      StopCosts(e, level, stop);
    } else {
      SameNext(e, level, stop);
    }
  }

  lemma WrappedParts(e: Expr, level: nat, stop: Option<string>)
    requires level <= LEVELS && Wrapped(e, level, stop)
    ensures Print(e, level, stop) == Parens(PrintAll(e, None))
    ensures Nesting(e, level, stop) == NestingAll(e, None) + 2
  {
    hide PrintAll, NestingAll;
  }

  lemma PlainCosts(e: Expr, level: nat)
    requires level < LEVELS && Tightness(e) == level
    ensures |Print(e, level, None)| == |PrintAll(e, None)| && Nesting(e, level, None) + 1 == NestingAll(e, None)
  {
    hide OpLevel;
  }

  lemma OperandCosts(e: Expr, stop: Option<string>, tokens: int, room: int)
    requires Within(e, OPERAND, stop, tokens, room)
    ensures Within(e, LEVELS, stop, tokens, room + 1)
  {
    hide Print, Nesting, Parsable;
    if e.Unary? || e.TypeOf? {
      PrefixParts(e, LEVELS, stop);
      PrefixWrapped(e, stop);
    } else {
      NoPrefix(e, stop);
    }
  }

  lemma PrefixWrapped(e: Expr, stop: Option<string>)
    requires Parsable(e) && (e.Unary? || e.TypeOf?)
    ensures |Print(e, OPERAND, stop)| == |Print(e.e, LEVELS, None)| + 3
    ensures Nesting(e, OPERAND, stop) == Nesting(e.e, LEVELS, None) + 3
  {
    PrefixParts(e, 0, None);
    hide Print, Nesting;
    PlainParts(e, None);
    ParensCosts(e, stop);
  }

  lemma ParensCosts(e: Expr, stop: Option<string>)
    requires Wrapped(e, OPERAND, stop)
    ensures |Print(e, OPERAND, stop)| == |PrintAll(e, None)| + 2
    ensures Nesting(e, OPERAND, stop) == NestingAll(e, None) + 1
  {
    hide PrintAll, NestingAll;
  }

  /** As a whole expression, too, a tree costs no more than as an operand. */
  lemma WholeCosts(e: Expr, stop: Option<string>, tokens: int, room: int)
    requires Within(e, 0, stop, tokens, room)
    ensures AllWithin(e, stop, tokens, room + 1)
  {
    hide Print, Nesting, PrintAll, NestingAll, Parsable;
    if e.Assign? || e.Ternary? {
      WrappedParts(e, 0, stop);
      StopCostsAll(e, stop);
    } else {
      PlainParts(e, stop);
    }
  }

  lemma OperandAlone(e: Expr)
    requires Tightness(e) == OPERAND
    ensures Print(e, 0, None) == Print(e, OPERAND, None) && Nesting(e, 0, None) == 1 + Nesting(e, OPERAND, None)
  {
    hide PrintAll, NestingAll, PrintItems, NestingItems, Suffix, SuffixNesting;
  }

  /** A parenthesised expression, as an operand. */
  lemma ParensWithin(e: Expr, stop: Option<string>, tokens: int, room: int)
    requires AllWithin(e, None, tokens, room)
    ensures Within(e, OPERAND, stop, tokens + 2, room + 1)
  {
    hide Print, Nesting, PrintAll, NestingAll, Parsable;
    if Wrapped(e, OPERAND, stop) {
      ParensCosts(e, stop);
    } else {
      PlainParts(e, None);
      OperandAlone(e);
      StopCosts(e, OPERAND, stop);
    }
  }

  // ---- the cost of each form ----

  lemma BinWithin(op: string, l: Expr, r: Expr, level: nat, stop: Option<string>, a: int, b: int, room: int)
    requires level < LEVELS && op in Ops(level)
    requires Within(l, level, stop, a, room) && Within(r, level + 1, None, b, room)
    ensures Within(Bin(op, l, r), level, stop, a + 1 + b, room)
  {
    LevelOfOp(op, level);
    hide Ops, OpLevel, Print, Nesting;
    PrintedBin(Bin(op, l, r), level, stop);
  }

  lemma LevelOfOp(op: string, level: nat)
    requires level < LEVELS && op in Ops(level)
    ensures OpLevel(op) == level
  {
  }

  lemma PrefixWithin(e: Expr, stop: Option<string>, tokens: int, room: int)
    requires (e.Unary? && e.op in UNARY_OPS) || e.TypeOf?
    requires Within(e.e, LEVELS, None, tokens, room)
    ensures Within(e, LEVELS, stop, tokens + 1, room + 1)
  {
    hide Print, Nesting;
    PrefixParts(e, LEVELS, stop);
  }

  lemma PostfixWithin(e: Expr, stop: Option<string>, tokens: int, room: int)
    requires Postfix(e) && Parsable(e) && Within(e.e, OPERAND, stop, tokens, room) && SuffixNesting(e) <= room
    ensures Within(e, OPERAND, stop, tokens + |Suffix(e)|, room)
  {
    hide Print, Nesting, Parsable, Suffix, SuffixNesting;
    PrintedPostfix(e, OPERAND, stop);
  }

  lemma AtomWithin(e: Expr, stop: Option<string>, room: int)
    requires Atom(e) && Parsable(e) && !AtStop(e, stop) && room >= 1
    ensures Within(e, OPERAND, stop, 1, room)
  {
    hide Parsable, AtStop;
  }

  lemma NewWithin(ctor: string, args: seq<Expr>, stop: Option<string>, tokens: int, room: int)
    requires ItemsWithin(args, Some(")"), tokens, room)
    ensures Within(New(ctor, args), OPERAND, stop, tokens + 4, room + 1)
  {
    hide PrintItems, NestingItems, AllParsable;
  }

  lemma ArrayWithin(args: seq<Expr>, stop: Option<string>, tokens: int, room: int)
    requires ItemsWithin(args, Some("]"), tokens, room)
    ensures Within(ArrayLit(args), OPERAND, stop, tokens + 2, room + 1)
  {
    hide PrintItems, NestingItems, AllParsable;
  }

  lemma AssignWithin(op: string, l: Expr, r: Expr, stop: Option<string>, a: int, b: int, room: int)
    requires op in ASSIGN_OPS && Within(l, 0, stop, a, room) && AllWithin(r, None, b, room)
    ensures AllWithin(Assign(op, l, r), stop, a + 1 + b, room + 1)
  {
    AssignParts(Assign(op, l, r), stop);
    hide Print, Nesting, PrintAll, NestingAll;
  }

  lemma TernaryWithin(c: Expr, y: Expr, n: Expr, stop: Option<string>, a: int, b: int, k: int, room: int)
    requires Within(c, 0, stop, a, room) && AllWithin(y, None, b, room) && AllWithin(n, None, k, room)
    ensures AllWithin(Ternary(c, y, n), stop, a + b + k + 2, room + 1)
  {
    TernaryParts(Ternary(c, y, n), stop);
    hide Print, Nesting, PrintAll, NestingAll;
  }

  lemma NoItemsWithin(stop: Option<string>, room: int)
    requires room >= 0
    ensures ItemsWithin([], stop, 0, room)
  {
  }

  lemma ItemsConsWithin(es: seq<Expr>, stop: Option<string>, a: int, b: int, room: int)
    requires es != [] && AllWithin(es[0], stop, a, room)
    requires |es| > 1 ==> ItemsWithin(es[1..], None, b, room)
    ensures ItemsWithin(es, stop, if |es| == 1 then a else a + 1 + b, room)
  {
    hide PrintItems, NestingItems, PrintAll, NestingAll, Parsable;
    ItemsParts(es, stop);
    forall i | 0 <= i < |es| ensures Parsable(es[i]) {
      assert i > 0 ==> es[i] == es[1..][i - 1];
    }
  }

  // ---- every parsed tree can be written from its own tokens ----

  /** What parse_assignment returns, was read from at least as many tokens and at least as deep as
      its written form needs; and it has left no assignment unread. */
  lemma {:induction false} ParsedAssignment(ts: seq<Token>, p: nat, d: int, stop: Option<string>)
    requires At(ts, p) && Assignment(ts, p, d).Done? && stop != Some(ts[p].value)
    ensures
      var r := Assignment(ts, p, d);
      AllWithin(r.value, stop, r.pos - p, MAX_DEPTH - d) && ts[r.pos].value !in ASSIGN_OPS
    decreases |ts| - p, 10
  {
    hide TernaryExpr, AllWithin, Within;
    var t := TernaryExpr(ts, p, d + 1);
    ParsedTernary(ts, p, d + 1, stop);
    if ts[t.pos].value in ASSIGN_OPS {
      var rhs := Assignment(ts, t.pos + 1, d + 1);
      ParsedAssignment(ts, t.pos + 1, d + 1, None);
      AssignWithin(ts[t.pos].value, t.value, rhs.value, stop, t.pos - p, rhs.pos - t.pos - 1, MAX_DEPTH - d - 1);
    }
  }

  lemma {:induction false} ParsedTernary(ts: seq<Token>, p: nat, d: int, stop: Option<string>)
    requires At(ts, p) && TernaryExpr(ts, p, d).Done? && stop != Some(ts[p].value)
    ensures
      var r := TernaryExpr(ts, p, d);
      && AllWithin(r.value, stop, r.pos - p, MAX_DEPTH - d + 1)
      && (ts[r.pos].value in ASSIGN_OPS ==> Within(r.value, 0, stop, r.pos - p, MAX_DEPTH - d))
    decreases |ts| - p, 9
  {
    hide Binary, Assignment, AllWithin, Within;
    var c := Binary(0, ts, p, d);
    ParsedBinary(0, ts, p, d, stop);
    if Is(ts[c.pos], "?") {
      var y := Assignment(ts, c.pos + 1, d);
      ParsedAssignment(ts, c.pos + 1, d, None);
      var n := Assignment(ts, y.pos + 1, d);
      ParsedAssignment(ts, y.pos + 1, d, None);
      TernaryWithin(c.value, y.value, n.value, stop, c.pos - p, y.pos - c.pos - 1, n.pos - y.pos - 1, MAX_DEPTH - d);
    } else {
      WholeCosts(c.value, stop, c.pos - p, MAX_DEPTH - d);
    }
  }

  lemma {:induction false} ParsedBinary(level: nat, ts: seq<Token>, p: nat, d: int, stop: Option<string>)
    requires level <= LEVELS && At(ts, p) && Binary(level, ts, p, d).Done? && stop != Some(ts[p].value)
    ensures
      var r := Binary(level, ts, p, d);
      Within(r.value, level, stop, r.pos - p, MAX_DEPTH - d)
    decreases |ts| - p, 8 - level
  {
    hide UnaryExpr, BinaryRest, Ops, Within;
    if level == LEVELS {
      ParsedUnary(ts, p, d, stop);
    } else {
      var first := Binary(level + 1, ts, p, d);
      ParsedBinary(level + 1, ts, p, d, stop);
      Looser(first.value, level, stop, first.pos - p, MAX_DEPTH - d);
      ParsedRest(level, ts, p, first.pos, d, first.value, stop);
    }
  }

  /** The loop of a binary level, whose left operand started at from. */
  lemma {:induction false} ParsedRest(level: nat, ts: seq<Token>, from: nat, p: nat, d: int, left: Expr,
                                      stop: Option<string>)
    requires level < LEVELS && At(ts, p) && BinaryRest(level, ts, p, d, left).Done?
    requires Within(left, level, stop, p - from, MAX_DEPTH - d)
    ensures
      var r := BinaryRest(level, ts, p, d, left);
      Within(r.value, level, stop, r.pos - from, MAX_DEPTH - d)
    decreases |ts| - p, 8 - level
  {
    hide Binary, Ops, Within;
    if ts[p].value in Ops(level) {
      var right := Binary(level + 1, ts, p + 1, d);
      ParsedBinary(level + 1, ts, p + 1, d, None);
      BinWithin(ts[p].value, left, right.value, level, stop, p - from, right.pos - p - 1, MAX_DEPTH - d);
      ParsedRest(level, ts, from, right.pos, d, Bin(ts[p].value, left, right.value), stop);
    }
  }

  lemma {:induction false} ParsedUnary(ts: seq<Token>, p: nat, d: int, stop: Option<string>)
    requires At(ts, p) && UnaryExpr(ts, p, d).Done? && stop != Some(ts[p].value)
    ensures
      var r := UnaryExpr(ts, p, d);
      Within(r.value, LEVELS, stop, r.pos - p, MAX_DEPTH - d)
    decreases |ts| - p, 1
  {
    hide Primary, PostfixRest, Within;
    if Prefix(ts[p].value) {
      var x := UnaryExpr(ts, p + 1, d + 1);
      ParsedUnary(ts, p + 1, d + 1, None);
      PrefixWithin(UnaryExpr(ts, p, d).value, stop, x.pos - p - 1, MAX_DEPTH - d - 1);
    } else {
      var first := Primary(ts, p, d + 1);
      ParsedPrimary(ts, p, d + 1, stop);
      ParsedPostfix(ts, p, first.pos, d + 1, first.value, stop);
      var r := PostfixRest(ts, first.pos, d + 1, first.value);
      OperandCosts(r.value, stop, r.pos - p, MAX_DEPTH - d - 1);
    }
  }

  /** The loop of parse_postfix, whose left operand started at from. */
  lemma {:induction false} ParsedPostfix(ts: seq<Token>, from: nat, p: nat, d: int, left: Expr, stop: Option<string>)
    requires At(ts, p) && PostfixRest(ts, p, d, left).Done? && d <= MAX_DEPTH
    requires Within(left, OPERAND, stop, p - from, MAX_DEPTH - d)
    ensures
      var r := PostfixRest(ts, p, d, left);
      Within(r.value, OPERAND, stop, r.pos - from, MAX_DEPTH - d)
    decreases |ts| - p, 1
  {
    hide PostfixRest, Within;
    if ts[p].value in POSTFIX {
      var next, at := ParsedForm(ts, from, p, d, left, stop);
      ParsedPostfix(ts, from, at, d, next, stop);
    } else {
      StopsPostfix(ts, p, d, left);
    }
  }

  lemma {:induction false} ParsedForm(ts: seq<Token>, from: nat, p: nat, d: int, left: Expr, stop: Option<string>)
    returns (next: Expr, at: nat)
    requires At(ts, p) && ts[p].value in POSTFIX && PostfixRest(ts, p, d, left).Done? && d <= MAX_DEPTH
    requires Within(left, OPERAND, stop, p - from, MAX_DEPTH - d)
    ensures p < at < |ts| && PostfixRest(ts, p, d, left) == PostfixRest(ts, at, d, next)
    ensures Within(next, OPERAND, stop, at - from, MAX_DEPTH - d)
    decreases |ts| - p, 0
  {
    hide Args, Assignment, Within;
    if ts[p].value == "." {
      next, at := Member(left, ts[p + 1].value), p + 2;
    } else if ts[p].value == "(" {
      var args := Args(ts, p + 1, d);
      ParsedArgs(ts, p + 1, d);
      next, at := Call(left, args.value), args.pos + 1;
    } else if ts[p].value == "[" {
      var i := Assignment(ts, p + 1, d);
      ParsedAssignment(ts, p + 1, d, None);
      next, at := Index(left, i.value), i.pos + 1;
    } else if ts[p].value == "++" {
      next, at := PostInc(left), p + 1;
    } else {
      next, at := PostDec(left), p + 1;
    }
    SuffixWithin(next, stop, p - from, at - p, MAX_DEPTH - d);
  }

  lemma SuffixWithin(e: Expr, stop: Option<string>, a: int, b: int, room: int)
    requires Postfix(e) && Within(e.e, OPERAND, stop, a, room) && room >= 0
    requires e.Member? ==> b == 2
    requires e.Call? ==> ItemsWithin(e.args, Some(")"), b - 2, room)
    requires e.Index? ==> AllWithin(e.at, None, b - 2, room)
    requires e.PostInc? || e.PostDec? ==> b == 1
    ensures Within(e, OPERAND, stop, a + b, room)
  {
    hide Print, Nesting, PrintAll, NestingAll, PrintItems, NestingItems, AllParsable;
    PostfixWithin(e, stop, a, room);
  }

  lemma {:induction false} ParsedArgs(ts: seq<Token>, p: nat, d: int)
    requires At(ts, p) && Args(ts, p, d).Done? && d <= MAX_DEPTH
    ensures
      var r := Args(ts, p, d);
      ItemsWithin(r.value, Some(")"), r.pos - p, MAX_DEPTH - d)
    decreases |ts| - p, 12
  {
    hide Items, ItemsWithin;
    if ts[p].value == ")" {
      NoItemsWithin(Some(")"), MAX_DEPTH - d);
    } else {
      ParsedItems(ts, p, d, [], Some(")"));
    }
  }

  lemma {:induction false} ParsedItems(ts: seq<Token>, p: nat, d: int, acc: seq<Expr>, stop: Option<string>)
    requires At(ts, p) && Items(ts, p, d, acc).Done? && stop != Some(ts[p].value)
    ensures
      var r := Items(ts, p, d, acc);
      |acc| < |r.value| && acc == r.value[..|acc|] && ItemsWithin(r.value[|acc|..], stop, r.pos - p, MAX_DEPTH - d)
    decreases |ts| - p, 11
  {
    hide Assignment, ItemsWithin, AllWithin;
    var e, r := Assignment(ts, p, d), Items(ts, p, d, acc);
    ParsedAssignment(ts, p, d, stop);
    var now := acc + [e.value];
    if Is(ts[e.pos], ",") {
      ParsedItems(ts, e.pos + 1, d, now, None);
      assert r.value[|acc|..] == [e.value] + r.value[|now|..];
      assert r.value[|acc|..][1..] == r.value[|now|..];
      assert acc == now[..|acc|];
      ItemsConsWithin(r.value[|acc|..], stop, e.pos - p, r.pos - e.pos - 1, MAX_DEPTH - d);
    } else {
      assert r.value[|acc|..] == [e.value];
      ItemsConsWithin([e.value], stop, e.pos - p, 0, MAX_DEPTH - d);
    }
  }

  lemma {:induction false} ParsedPrimary(ts: seq<Token>, p: nat, d: int, stop: Option<string>)
    requires At(ts, p) && Primary(ts, p, d).Done? && stop != Some(ts[p].value) && !Prefix(ts[p].value)
    ensures
      var r := Primary(ts, p, d);
      Within(r.value, OPERAND, stop, r.pos - p, MAX_DEPTH - d) && d < MAX_DEPTH
    decreases |ts| - p, 0
  {
    hide Assignment, Items, Args, Within, AllWithin, ItemsWithin;
    var t, r := ts[p], Primary(ts, p, d);
    if t.kind == "IDENT" && t.value == "new" {
      var args := Args(ts, p + 3, d + 1);
      ParsedArgs(ts, p + 3, d + 1);
      NewWithin(ts[p + 1].value, args.value, stop, args.pos - p - 3, MAX_DEPTH - d - 1);
    } else if Atom(r.value) && t.kind in ["NUMBER", "STRING", "IDENT"] {
      AtomWithin(r.value, stop, MAX_DEPTH - d);
    } else if t.value == "(" {
      var e := Assignment(ts, p + 1, d + 1);
      ParsedAssignment(ts, p + 1, d + 1, None);
      ParensWithin(e.value, stop, e.pos - p - 1, MAX_DEPTH - d - 1);
    } else if ts[p + 1].value == "]" {
      NoItemsWithin(Some("]"), MAX_DEPTH - d - 1);
      ArrayWithin([], stop, 0, MAX_DEPTH - d - 1);
    } else {
      var es := Items(ts, p + 1, d + 1, []);
      ParsedItems(ts, p + 1, d + 1, [], Some("]"));
      assert es.value[0..] == es.value;
      ArrayWithin(es.value, stop, es.pos - p - 1, MAX_DEPTH - d - 1);
    }
  }

  // ---- exactly what the parser returns ----

  /** The whole list reads as e. */
  predicate Reads(ts: seq<Token>, e: Expr) {
    Ended(ts) && Assignment(ts, 0, 0) == Done(e, |ts| - 1)
  }

  /** Whatever list a tree was read from, its written form reads as the same tree, is no longer and
      goes no deeper than the guard allows: the written parentheses are the fewest. */
  lemma PrintIsShortest(ts: seq<Token>, e: Expr)
    requires Reads(ts, e)
    ensures Parsable(e) && Depth(e) <= MAX_DEPTH && |Written(e)| <= |ts| && Reads(Written(e), e)
  {
    hide Parsable, PrintAll, NestingAll, Assignment;
    ParsedAssignment(ts, 0, 0, None);
    RoundTrip(e);
    WrittenEnds(PrintAll(e, None));
  }

  lemma WrittenEnds(part: seq<Token>)
    ensures Ended(part + [EOF])
  {
  }

  /** The trees that some token list reads as are the parsable ones within the depth guard. */
  lemma ReadableIff(e: Expr)
    ensures (exists ts :: Reads(ts, e)) <==> Parsable(e) && Depth(e) <= MAX_DEPTH
  {
    hide Parsable, Depth, Reads, Written;
    if ts :| Reads(ts, e) {
      PrintIsShortest(ts, e);
    }
    if Parsable(e) && Depth(e) <= MAX_DEPTH {
      WrittenReads(e);
    }
  }

  lemma WrittenReads(e: Expr)
    requires Parsable(e) && Depth(e) <= MAX_DEPTH
    ensures Reads(Written(e), e)
  {
    hide Parsable, PrintAll, NestingAll, Assignment;
    RoundTrip(e);
    WrittenEnds(PrintAll(e, None));
  }

  // ---- string literals that are taken for operators ----

  predicate Holds(e: Expr, text: string) {
    match e
    case Text(t) => t == text
    case New(_, args) => SomeHolds(args, text)
    case Unary(_, x) => Holds(x, text)
    case TypeOf(x) => Holds(x, text)
    case Bin(_, l, r) => Holds(l, text) || Holds(r, text)
    case Assign(_, target, x) => Holds(target, text) || Holds(x, text)
    case Ternary(cond, yes, no) => Holds(cond, text) || Holds(yes, text) || Holds(no, text)
    case Member(x, _) => Holds(x, text)
    case Call(x, args) => Holds(x, text) || SomeHolds(args, text)
    case Index(x, at) => Holds(x, text) || Holds(at, text)
    case PostInc(x) => Holds(x, text)
    case PostDec(x) => Holds(x, text)
    case ArrayLit(args) => SomeHolds(args, text)
    case _ => false
  }

  predicate SomeHolds(es: seq<Expr>, text: string) {
    exists i :: 0 <= i < |es| && Holds(es[i], text)
  }

  /** A string literal that says -, !, + or typeof is never read as a string: no token list reads
      as a tree that holds one. */
  lemma OperatorTextUnreadable(ts: seq<Token>, e: Expr, text: string)
    requires Reads(ts, e) && Prefix(text)
    ensures !Holds(e, text)
  {
    PrintIsShortest(ts, e);
    ParsableHoldsNone(e, text);
  }

  lemma {:induction false} ParsableHoldsNone(e: Expr, text: string)
    requires Parsable(e) && Prefix(text)
    ensures !Holds(e, text)
  {
    match e {
      case Unary(_, x) => ParsableHoldsNone(x, text);
      case TypeOf(x) => ParsableHoldsNone(x, text);
      case Bin(_, l, r) => ParsableHoldsNone(l, text); ParsableHoldsNone(r, text);
      case Assign(_, target, x) => ParsableHoldsNone(target, text); ParsableHoldsNone(x, text);
      case Ternary(cond, yes, no) =>
        ParsableHoldsNone(cond, text); ParsableHoldsNone(yes, text); ParsableHoldsNone(no, text);
      case Member(x, _) => ParsableHoldsNone(x, text);
      case Call(x, args) => ParsableHoldsNone(x, text); NoItemHolds(args, text);
      case Index(x, at) => ParsableHoldsNone(x, text); ParsableHoldsNone(at, text);
      case PostInc(x) => ParsableHoldsNone(x, text);
      case PostDec(x) => ParsableHoldsNone(x, text);
      case New(_, args) => NoItemHolds(args, text);
      case ArrayLit(args) => NoItemHolds(args, text);
      case _ =>
    }
  }

  lemma {:induction false} NoItemHolds(es: seq<Expr>, text: string)
    requires AllParsable(es) && Prefix(text)
    ensures !SomeHolds(es, text)
  {
    forall i | 0 <= i < |es| ensures !Holds(es[i], text) {
      ParsableHoldsNone(es[i], text);
    }
  }

  /** A string literal that says ) as the only argument ends the argument list: f(")") reads as the
      call f() and leaves the rest behind. In parentheses of its own it is read. */
  lemma ClosingText()
    ensures
      var f, open, close := Token("IDENT", "f"), Punct("("), Punct(")");
      var text := Token("STRING", ")");
      && Assignment([f, open, text, close, EOF], 0, 0) == Done(Call(Ident("f"), []), 3)
      && Reads([f, open, open, text, close, close, EOF], Call(Ident("f"), [Text(")")]))
  {
    hide Primary, PostfixRest, UnaryExpr, Assignment, Reads, Parsable, Depth, Written, Print, Nesting;
    var f := Ident("f");
    var ts := [Token("IDENT", "f"), Punct("("), Token("STRING", ")"), Punct(")"), EOF];
    ReadsF(ts);
    CallStep(ts, 1, 2, f, [], 2);
    StopsPostfix(ts, 3, 2, Call(f, []));
    UnaryUnfold(ts, 0, 1);
    EndsClose(ts[3]);
    UnaryEnds(ts, 0, 0, Call(f, []), 3);
    ClosingWritten();
    WrittenReads(Call(f, [Text(")")]));
  }

  lemma ReadsF(ts: seq<Token>)
    requires Ended(ts) && |ts| == 5 && ts[0] == Token("IDENT", "f") && ts[1] == Punct("(") && ts[2].value == ")"
    ensures Primary(ts, 0, 2) == Done(Ident("f"), 1) && Args(ts, 2, 2) == Done([], 2) && !Prefix(ts[0].value)
  {
    AtomStep(Ident("f"), ts, 0, 2);
  }

  lemma ClosingWritten()
    ensures
      var e := Call(Ident("f"), [Text(")")]);
      && Written(e) == [Token("IDENT", "f"), Punct("("), Punct("("), Token("STRING", ")"), Punct(")"), Punct(")"), EOF]
      && Parsable(e) && Depth(e) <= MAX_DEPTH
  {
    hide Print, Nesting, PrintAll, NestingAll, PrintItems, NestingItems;
    var f, t := Ident("f"), Text(")");
    var e := Call(f, [t]);
    assert Parsable(f) && Parsable(t) && AllParsable([t]);
    OneAtom(f);
    WrappedItem(t);
    PlainParts(e, None);
    PrintedPostfix(e, 0, None);
  }

  lemma OneAtom(e: Expr)
    requires Atom(e)
    ensures Print(e, OPERAND, None) == PrintAll(e, None) == [AtomToken(e)]
    ensures Nesting(e, OPERAND, None) == 1 && NestingAll(e, None) == 3
  {
    OperandAlone(e);
    PlainParts(e, None);
  }

  lemma WrappedItem(e: Expr)
    requires Atom(e) && AtomToken(e).value == ")"
    ensures PrintItems([e], Some(")")) == [Punct("("), AtomToken(e), Punct(")")]
    ensures NestingItems([e], Some(")")) == 6
  {
    hide Print, Nesting, PrintAll, NestingAll, PrintItems, NestingItems;
    OneAtom(e);
    PlainParts(e, Some(")"));
    WrappedParts(e, 0, Some(")"));
    ItemsParts([e], Some(")"));
    assert [e][1..] == [];
  }

  /** An operand with the end of an expression behind it is the whole expression. */
  lemma UnaryEnds(ts: seq<Token>, p: nat, d: int, e: Expr, q: nat)
    requires At(ts, p) && d + 1 <= MAX_DEPTH && UnaryExpr(ts, p, d + 1) == Done(e, q) && q < |ts| && Closes(ts[q])
    ensures Assignment(ts, p, d) == Done(e, q)
  {
    hide UnaryExpr, BinaryRest, Ops;
    BinaryEnds(0, ts, p, d + 1, e, q);
  }

  lemma {:induction false} BinaryEnds(level: nat, ts: seq<Token>, p: nat, d: int, e: Expr, q: nat)
    requires level <= LEVELS && At(ts, p) && UnaryExpr(ts, p, d) == Done(e, q) && q < |ts| && Stops(ts[q], 0)
    ensures Binary(level, ts, p, d) == Done(e, q)
    decreases LEVELS - level
  {
    hide UnaryExpr, BinaryRest, Ops;
    if level < LEVELS {
      BinaryEnds(level + 1, ts, p, d, e, q);
      StopsTighter(ts[q], 0, level);
      StopsRest(level, ts, q, d, e);
    }
  }

  // ---- token lists too short for the guard ----

  /** At most three levels are entered for each token. */
  predicate Shallow(ts: seq<Token>, p: nat, d: int, spent: nat) {
    d + 3 * (|ts| - p) - spent <= MAX_DEPTH
  }

  lemma {:induction false} AssignmentFits(ts: seq<Token>, p: nat, d: int)
    requires At(ts, p) && Shallow(ts, p, d, 0)
    ensures !Assignment(ts, p, d).TooDeep?
    decreases |ts| - p, 10
  {
    hide TernaryExpr;
    TernaryFits(ts, p, d + 1);
    var r := TernaryExpr(ts, p, d + 1);
    if r.Done? && ts[r.pos].value in ASSIGN_OPS {
      NotLast(ts, r.pos);
      AssignmentFits(ts, r.pos + 1, d + 1);
    }
  }

  lemma NotLast(ts: seq<Token>, p: nat)
    requires At(ts, p) && ts[p] != EOF
    ensures p + 1 < |ts|
  {
  }

  lemma {:induction false} TernaryFits(ts: seq<Token>, p: nat, d: int)
    requires At(ts, p) && Shallow(ts, p, d, 1)
    ensures !TernaryExpr(ts, p, d).TooDeep?
    decreases |ts| - p, 9
  {
    hide Binary, Assignment;
    BinaryFits(0, ts, p, d);
    var r := Binary(0, ts, p, d);
    if r.Done? && Is(ts[r.pos], "?") {
      AssignmentFits(ts, r.pos + 1, d);
      var yes := Assignment(ts, r.pos + 1, d);
      if yes.Done? && Is(ts[yes.pos], ":") {
        AssignmentFits(ts, yes.pos + 1, d);
      }
    }
  }

  lemma {:induction false} BinaryFits(level: nat, ts: seq<Token>, p: nat, d: int)
    requires At(ts, p) && level <= LEVELS && Shallow(ts, p, d, 1)
    ensures !Binary(level, ts, p, d).TooDeep?
    decreases |ts| - p, 8 - level
  {
    hide UnaryExpr, BinaryRest, Ops;
    if level == LEVELS {
      UnaryFits(ts, p, d);
    } else {
      BinaryFits(level + 1, ts, p, d);
      var r := Binary(level + 1, ts, p, d);
      if r.Done? {
        RestFits(level, ts, r.pos, d, r.value);
      }
    }
  }

  lemma {:induction false} RestFits(level: nat, ts: seq<Token>, p: nat, d: int, left: Expr)
    requires At(ts, p) && level < LEVELS && Shallow(ts, p, d, 1)
    ensures !BinaryRest(level, ts, p, d, left).TooDeep?
    decreases |ts| - p, 8 - level
  {
    hide Binary;
    if ts[p].value in Ops(level) {
      BinaryFits(level + 1, ts, p + 1, d);
      var r := Binary(level + 1, ts, p + 1, d);
      if r.Done? {
        RestFits(level, ts, r.pos, d, Bin(ts[p].value, left, r.value));
      }
    }
  }

  lemma {:induction false} UnaryFits(ts: seq<Token>, p: nat, d: int)
    requires At(ts, p) && Shallow(ts, p, d, 1)
    ensures !UnaryExpr(ts, p, d).TooDeep?
    decreases |ts| - p, 1
  {
    hide Primary, PostfixRest;
    if ts[p].value == "typeof" || ts[p].value in UNARY_OPS {
      UnaryFits(ts, p + 1, d + 1);
    } else {
      PrimaryFits(ts, p, d + 1);
      var r := Primary(ts, p, d + 1);
      if r.Done? {
        PostfixFits(ts, r.pos, d + 1, r.value);
      }
    }
  }

  lemma {:induction false} PostfixFits(ts: seq<Token>, p: nat, d: int, e: Expr)
    requires At(ts, p) && Shallow(ts, p, d, 2)
    ensures !PostfixRest(ts, p, d, e).TooDeep?
    decreases |ts| - p, 0
  {
    hide Args, Assignment;
    var v := ts[p].value;
    if v == "." && Is(ts[p + 1], "IDENT") {
      PostfixFits(ts, p + 2, d, Member(e, ts[p + 1].value));
    } else if v == "(" {
      ArgsFit(ts, p + 1, d);
      var args := Args(ts, p + 1, d);
      if args.Done? && Is(ts[args.pos], ")") {
        PostfixFits(ts, args.pos + 1, d, Call(e, args.value));
      }
    } else if v == "[" {
      AssignmentFits(ts, p + 1, d);
      var i := Assignment(ts, p + 1, d);
      if i.Done? && Is(ts[i.pos], "]") {
        PostfixFits(ts, i.pos + 1, d, Index(e, i.value));
      }
    } else if v == "++" {
      PostfixFits(ts, p + 1, d, PostInc(e));
    } else if v == "--" {
      PostfixFits(ts, p + 1, d, PostDec(e));
    }
  }

  lemma {:induction false} ArgsFit(ts: seq<Token>, p: nat, d: int)
    requires At(ts, p) && Shallow(ts, p, d, 0)
    ensures !Args(ts, p, d).TooDeep?
    decreases |ts| - p, 12
  {
    hide Items;
    ItemsFit(ts, p, d, []);
  }

  lemma {:induction false} ItemsFit(ts: seq<Token>, p: nat, d: int, acc: seq<Expr>)
    requires At(ts, p) && Shallow(ts, p, d, 0)
    ensures !Items(ts, p, d, acc).TooDeep?
    decreases |ts| - p, 11
  {
    hide Assignment;
    AssignmentFits(ts, p, d);
    var r := Assignment(ts, p, d);
    if r.Done? && Is(ts[r.pos], ",") {
      ItemsFit(ts, r.pos + 1, d, acc + [r.value]);
    }
  }

  lemma {:induction false} PrimaryFits(ts: seq<Token>, p: nat, d: int)
    requires At(ts, p) && Shallow(ts, p, d, 2)
    ensures !Primary(ts, p, d).TooDeep?
    decreases |ts| - p, 0
  {
    hide Assignment, Items, Args;
    var t := ts[p];
    if t.kind == "NUMBER" || t.kind == "STRING" {
    } else if t.kind == "IDENT" {
      if t.value == "new" && Is(ts[p + 1], "IDENT") && Is(ts[p + 2], "(") {
        ArgsFit(ts, p + 3, d + 1);
      }
    } else if t.value == "(" {
      AssignmentFits(ts, p + 1, d + 1);
    } else if t.value == "[" && ts[p + 1].value != "]" {
      ItemsFit(ts, p + 1, d + 1, []);
    }
  }

  /** A list of at most 26 tokens, the end included, never trips the guard. */
  lemma ShortNeverTooDeep(ts: seq<Token>)
    requires Ended(ts) && |ts| <= 26
    ensures !Assignment(ts, 0, 0).TooDeep?
  {
    AssignmentFits(ts, 0, 0);
  }

  function Opens(n: nat): seq<Token> {
    seq(n, i => Punct("(")) + [EOF]
  }

  /** Opening parentheses at depth d, from the p-th on. */
  lemma {:induction false} OpensTooDeep(n: nat, p: nat, d: int)
    requires p <= n && d <= MAX_DEPTH
    ensures Assignment(Opens(n), p, d) == if d + 3 * (n - p) + 3 > MAX_DEPTH then TooDeep else BadSyntax
    decreases n - p
  {
    hide Assignment, UnaryExpr, Ops;
    var ts := Opens(n);
    ToUnary(ts, p, d);
    if p < n {
      if d + 3 <= MAX_DEPTH {
        OpensTooDeep(n, p + 1, d + 3);
      }
      OpenUnary(ts, p, d + 1);
    } else {
      EndUnary(ts, p, d + 1);
    }
  }

  /** An expression is too deep where its first operand is, or fails with it. */
  lemma ToUnary(ts: seq<Token>, p: nat, d: int)
    requires At(ts, p)
    ensures d + 1 > MAX_DEPTH ==> Assignment(ts, p, d).TooDeep?
    ensures d + 1 <= MAX_DEPTH && !UnaryExpr(ts, p, d + 1).Done? ==> Assignment(ts, p, d) == UnaryExpr(ts, p, d + 1)
  {
    hide UnaryExpr, BinaryRest, Ops;
    var r := UnaryExpr(ts, p, d + 1);
    if !r.Done? {
      assert Binary(6, ts, p, d + 1) == r;
      assert Binary(5, ts, p, d + 1) == r;
      assert Binary(4, ts, p, d + 1) == r;
      assert Binary(3, ts, p, d + 1) == r;
      assert Binary(2, ts, p, d + 1) == r;
      assert Binary(1, ts, p, d + 1) == r;
      assert Binary(0, ts, p, d + 1) == r;
    }
  }

  lemma OpenUnary(ts: seq<Token>, p: nat, d: int)
    requires At(ts, p) && ts[p] == Punct("(") && p + 1 < |ts|
    ensures d + 2 > MAX_DEPTH ==> UnaryExpr(ts, p, d).TooDeep?
    ensures d + 2 <= MAX_DEPTH && !Assignment(ts, p + 1, d + 2).Done? ==>
      UnaryExpr(ts, p, d) == Assignment(ts, p + 1, d + 2)
  {
    hide Assignment, PostfixRest, Items, Args;
  }

  lemma EndUnary(ts: seq<Token>, p: nat, d: int)
    requires At(ts, p) && ts[p] == EOF
    ensures UnaryExpr(ts, p, d) == if d + 2 > MAX_DEPTH then TooDeep else BadSyntax
  {
    hide Assignment, PostfixRest, Items, Args;
  }

  /** The bound is exact: 26 opening parentheses, 27 tokens, trip the guard. */
  lemma ParensTripGuard(n: nat)
    ensures |Opens(n)| == n + 1 && (Assignment(Opens(n), 0, 0).TooDeep? <==> n >= 26)
  {
    OpensTooDeep(n, 0, 0);
  }
}
