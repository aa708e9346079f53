/** Parsing a written expression tree back. */
module PineRoundTrip {
  import opened Options
  import opened PineSyntax
  import opened PinePrinter

  const POSTFIX := [".", "(", "[", "++", "--"]

  /** t ends an operand of the given level: no postfix operator, and no binary operator of
      this or a tighter level. */
  predicate Stops(t: Token, level: nat) {
    t.value !in POSTFIX && forall k :: level <= k < LEVELS ==> t.value !in Ops(k)
  }

  /** t ends a whole expression. */
  predicate Closes(t: Token) {
    Stops(t, 0) && !Is(t, "?") && t.value !in ASSIGN_OPS
  }

  /** part stands in ts at p, with something after it. */
  predicate Stands(ts: seq<Token>, p: nat, part: seq<Token>) {
    Ended(ts) && p + |part| < |ts| && ts[p..p + |part|] == part
  }

  lemma StandsConcat(ts: seq<Token>, p: nat, a: seq<Token>, b: seq<Token>)
    requires Stands(ts, p, a + b)
    ensures Stands(ts, p, a) && Stands(ts, p + |a|, b) && p + |a| + |b| < |ts| && Ended(ts)
    ensures a != [] ==> ts[p] == a[0]
    ensures b != [] ==> ts[p + |a|] == b[0]
  {
    var s := ts[p..p + |a + b|];
    assert s[..|a|] == a && s[|a|..] == b;
    assert ts[p..p + |a|] == s[..|a|] && ts[p + |a|..p + |a| + |b|] == s[|a|..];
    assert a != [] ==> ts[p] == s[0];
    assert b != [] ==> ts[p + |a|] == s[|a|];
  }

  lemma StandsInside(ts: seq<Token>, p: nat, part: seq<Token>)
    requires Stands(ts, p, part)
    ensures p + |part| < |ts| && Ended(ts)
  {
  }

  lemma StandsFirst(ts: seq<Token>, p: nat, part: seq<Token>)
    requires Stands(ts, p, part) && part != []
    ensures p < |ts| && ts[p] == part[0]
  {
    assert ts[p] == ts[p..p + |part|][0];
  }

  lemma ThreeParts(ts: seq<Token>, p: nat, left: seq<Token>, op: Token, right: seq<Token>)
    requires Stands(ts, p, left + [op] + right)
    ensures p + |left| + 1 + |right| < |ts| && Ended(ts)
    ensures Stands(ts, p, left) && ts[p + |left|] == op && Stands(ts, p + |left| + 1, right)
  {
    hide Stands, Ended;
    StandsConcat(ts, p, left + [op], right);
    StandsConcat(ts, p, left, [op]);
  }

  /** Brackets of either kind. */
  lemma Enclosed(ts: seq<Token>, p: nat, open: Token, inner: seq<Token>, close: Token)
    requires Stands(ts, p, [open] + inner + [close])
    ensures p + 1 + |inner| + 1 < |ts| && Ended(ts)
    ensures ts[p] == open && Stands(ts, p + 1, inner) && ts[p + 1 + |inner|] == close
  {
    hide Stands, Ended;
    StandsConcat(ts, p, [open] + inner, [close]);
    StandsConcat(ts, p, [open], inner);
  }

  // ---- what ends what ----

  /** An operator of one level stops every tighter operand. */
  lemma OpStops(op: string)
    requires OpLevel(op) < LEVELS
    ensures Stops(Op(op), OpLevel(op) + 1) && op in Ops(OpLevel(op))
  {
    hide OpLevel;
    forall k | OpLevel(op) + 1 <= k < LEVELS ensures op !in Ops(k) {
      OneLevel(op, OpLevel(op), k);
    }
    OneLevel(op, OpLevel(op), OpLevel(op));
  }

  /** No operator has two levels, and none is a postfix operator. */
  lemma OneLevel(op: string, j: nat, k: nat)
    requires j < LEVELS && k < LEVELS && op in Ops(j)
    ensures op in Ops(k) ==> j == k
    ensures op !in POSTFIX
  {
  }

  lemma StopsTighter(t: Token, level: nat, tighter: nat)
    requires Stops(t, level) && (level <= tighter || LEVELS <= tighter)
    ensures Stops(t, tighter)
  {
  }

  /** The tokens that end an expression where one is written. */
  const ENDS: seq<string> := [")", "]", ",", ":", ""]

  lemma EndsClose(t: Token)
    requires t.value in ENDS && t.kind != "?"
    ensures Closes(t)
  {
  }

  /** What follows the first operand of an assignment or a ternary. */
  lemma LooseOps(op: string)
    requires op in ASSIGN_OPS || op == "?"
    ensures Stops(Op(op), 0) && Stops(Punct(op), 0) && (Is(Op(op), "?") <==> op == "?")
  {
  }

  lemma StopsRest(level: nat, ts: seq<Token>, p: nat, d: int, e: Expr)
    requires At(ts, p) && level < LEVELS && Stops(ts[p], level)
    ensures BinaryRest(level, ts, p, d, e) == Done(e, p)
  {
  }

  lemma StopsPostfix(ts: seq<Token>, p: nat, d: int, e: Expr)
    requires At(ts, p) && ts[p].value !in POSTFIX
    ensures PostfixRest(ts, p, d, e) == Done(e, p)
  {
  }

  // ---- how a written tree starts ----

  predicate Stop(stop: Option<string>) {
    stop.None? || stop == Some(")") || stop == Some("]")
  }

  lemma Stopping()
    ensures Stop(None) && Stop(Some(")"))
  {
  }

  /** It never starts with the value to stop at, and an operand not with a prefix operator. */
  lemma {:induction false} Leads(e: Expr, level: nat, stop: Option<string>)
    requires Parsable(e) && level <= OPERAND && Stop(stop)
    ensures
      var w := Print(e, level, stop);
      w != [] && stop != Some(w[0].value) && (level == OPERAND ==> !Prefix(w[0].value))
    decreases e
  {
    hide OpLevel, PrintAll, PrintItems, Print, Parsable;
    if Wrapped(e, level, stop) {
      LeadsWrapped(e, level, stop);
    } else if e.Bin? {
      PrintedBin(e, level, stop);
      Leads(e.left, OpLevel(e.op), stop);
    } else if Postfix(e) {
      PrintedPostfix(e, level, stop);
      Leads(e.e, OPERAND, stop);
    } else {
      LeadsPlain(e, level, stop);
    }
  }

  lemma LeadsWrapped(e: Expr, level: nat, stop: Option<string>)
    requires level <= OPERAND && Wrapped(e, level, stop)
    ensures Print(e, level, stop) != [] && Print(e, level, stop)[0] == Punct("(")
  {
    hide PrintAll;
  }

  lemma LeadsPlain(e: Expr, level: nat, stop: Option<string>)
    requires Parsable(e) && level <= OPERAND && Stop(stop) && !Wrapped(e, level, stop)
    requires Atom(e) || e.New? || e.ArrayLit? || e.Unary? || e.TypeOf?
    ensures
      var w := Print(e, level, stop);
      w != [] && stop != Some(w[0].value) && (level == OPERAND ==> !Prefix(w[0].value))
  {
    hide PrintAll, PrintItems;
  }

  lemma PrintedBin(e: Expr, level: nat, stop: Option<string>)
    requires Parsable(e) && e.Bin? && level <= OPERAND && !Wrapped(e, level, stop)
    ensures Parsable(e.left) && Parsable(e.right) && level <= OpLevel(e.op) < LEVELS
    ensures
      var k := OpLevel(e.op);
      && Print(e, level, stop) == Print(e.left, k, stop) + [Op(e.op)] + Print(e.right, k + 1, None)
      && Nesting(e, level, stop) == Max(Nesting(e.left, k, stop), Nesting(e.right, k + 1, None))
  {
    hide OpLevel, Ops, PrintAll, NestingAll;
  }

  lemma PrintedPostfix(e: Expr, level: nat, stop: Option<string>)
    requires Parsable(e) && level <= OPERAND && Postfix(e)
    ensures Parsable(e.e) && Print(e, level, stop) == Print(e.e, OPERAND, stop) + Suffix(e)
    ensures
      var n := Max(Nesting(e.e, OPERAND, stop), SuffixNesting(e));
      Nesting(e, level, stop) == if level < OPERAND then 1 + n else n
  {
    hide Suffix, SuffixNesting;
  }

  lemma LeadsAll(e: Expr, stop: Option<string>)
    requires Parsable(e) && Stop(stop)
    ensures PrintAll(e, stop) != [] && stop != Some(PrintAll(e, stop)[0].value)
  {
    hide Print;
    match e {
      case Assign(_, target, _) => Leads(target, 0, stop);
      case Ternary(cond, _, _) => Leads(cond, 0, stop);
      case _ => Leads(e, 0, stop);
    }
  }

  // ---- parse_postfix ----

  /** parse_postfix, without the nesting that parse_unary adds. */
  function PostfixExpr(ts: seq<Token>, p: nat, d: int): Outcome<Expr>
    requires At(ts, p)
  {
    var (e, q) :- Primary(ts, p, d);
    PostfixRest(ts, q, d, e)
  }

  /** What parse_postfix makes of a written operand: it arrives at its own loop with e in hand,
      unless the depth guard stops it. */
  function Continues(e: Expr, stop: Option<string>, ts: seq<Token>, p: nat, d: int): Outcome<Expr>
    requires At(ts, p)
  {
    if d + Nesting(e, OPERAND, stop) > MAX_DEPTH then TooDeep else PostfixRest(ts, p, d, e)
  }

  /** Four of the five postfix forms, read on from the left operand. */
  lemma MemberStep(ts: seq<Token>, p: nat, d: int, x: Expr)
    requires At(ts, p) && ts[p].value == "." && p + 2 < |ts| && ts[p + 1].kind == "IDENT"
    ensures PostfixRest(ts, p, d, x) == PostfixRest(ts, p + 2, d, Member(x, ts[p + 1].value))
  {
    hide Args, Assignment;
  }

  lemma CallStep(ts: seq<Token>, p: nat, d: int, x: Expr, args: seq<Expr>, q: nat)
    requires At(ts, p) && ts[p].value == "(" && p + 1 < |ts|
    ensures Args(ts, p + 1, d).TooDeep? ==> PostfixRest(ts, p, d, x) == TooDeep
    ensures Args(ts, p + 1, d) == Done(args, q) && ts[q].value == ")" && q + 1 < |ts| ==>
      PostfixRest(ts, p, d, x) == PostfixRest(ts, q + 1, d, Call(x, args))
  {
    hide Args, Assignment;
  }

  lemma IndexStep(ts: seq<Token>, p: nat, d: int, x: Expr, i: Expr, q: nat)
    requires At(ts, p) && ts[p].value == "[" && p + 1 < |ts|
    ensures Assignment(ts, p + 1, d).TooDeep? ==> PostfixRest(ts, p, d, x) == TooDeep
    ensures Assignment(ts, p + 1, d) == Done(i, q) && ts[q].value == "]" && q + 1 < |ts| ==>
      PostfixRest(ts, p, d, x) == PostfixRest(ts, q + 1, d, Index(x, i))
  {
    hide Args, Assignment;
  }

  lemma CountStep(ts: seq<Token>, p: nat, d: int, x: Expr)
    requires At(ts, p) && (ts[p].value == "++" || ts[p].value == "--") && p + 1 < |ts|
    ensures PostfixRest(ts, p, d, x)
         == PostfixRest(ts, p + 1, d, if ts[p].value == "++" then PostInc(x) else PostDec(x))
  {
    hide Args, Assignment;
  }

  /** The forms of parse_primary. */
  lemma AtomStep(e: Expr, ts: seq<Token>, p: nat, d: int)
    requires Atom(e) && Parsable(e) && At(ts, p) && ts[p] == AtomToken(e) && p + 1 < |ts|
    ensures Primary(ts, p, d) == if d + 1 > MAX_DEPTH then TooDeep else Done(e, p + 1)
  {
    hide Args, Assignment, Items;
  }

  lemma ParensStep(ts: seq<Token>, p: nat, d: int, e: Expr, q: nat)
    requires At(ts, p) && ts[p] == Punct("(") && p + 1 < |ts|
    ensures d + 1 > MAX_DEPTH || Assignment(ts, p + 1, d + 1).TooDeep? ==> Primary(ts, p, d) == TooDeep
    ensures d + 1 <= MAX_DEPTH && Assignment(ts, p + 1, d + 1) == Done(e, q) && ts[q].value == ")" && q + 1 < |ts| ==>
      Primary(ts, p, d) == Done(e, q + 1)
  {
    hide Args, Assignment, Items;
  }

  lemma NewStep(ts: seq<Token>, p: nat, d: int, args: seq<Expr>, q: nat)
    requires At(ts, p) && ts[p] == Token("IDENT", "new") && p + 3 < |ts|
    requires ts[p + 1].kind == "IDENT" && ts[p + 2] == Punct("(")
    ensures d + 1 > MAX_DEPTH || Args(ts, p + 3, d + 1).TooDeep? ==> Primary(ts, p, d) == TooDeep
    ensures d + 1 <= MAX_DEPTH && Args(ts, p + 3, d + 1) == Done(args, q) && ts[q].value == ")" && q + 1 < |ts| ==>
      Primary(ts, p, d) == Done(New(ts[p + 1].value, args), q + 1)
  {
    hide Args, Assignment, Items;
  }

  lemma ArrayStep(ts: seq<Token>, p: nat, d: int, args: seq<Expr>, q: nat)
    requires At(ts, p) && ts[p] == Punct("[") && p + 1 < |ts|
    ensures d + 1 > MAX_DEPTH ==> Primary(ts, p, d) == TooDeep
    ensures d + 1 <= MAX_DEPTH && ts[p + 1].value == "]" && p + 2 < |ts| ==>
      Primary(ts, p, d) == Done(ArrayLit([]), p + 2)
    ensures d + 1 <= MAX_DEPTH && ts[p + 1].value != "]" ==>
      var r := Items(ts, p + 1, d + 1, []);
      && (r.TooDeep? ==> Primary(ts, p, d) == TooDeep)
      && (r == Done(args, q) && ts[q].value == "]" && q + 1 < |ts| ==> Primary(ts, p, d) == Done(ArrayLit(args), q + 1))
  {
    hide Args, Assignment, Items;
  }

  /** A written operand. */
  lemma {:induction false} ReadsPostfix(e: Expr, stop: Option<string>, ts: seq<Token>, p: nat, d: int)
    requires Parsable(e) && Stop(stop) && Stands(ts, p, Print(e, OPERAND, stop)) && d <= MAX_DEPTH
    ensures PostfixExpr(ts, p, d) == Continues(e, stop, ts, p + |Print(e, OPERAND, stop)|, d)
    decreases e, if Wrapped(e, OPERAND, stop) then 2 else 0, 3
  {
    hide Parsable, Stop, Stands, Print, PostfixExpr, Continues;
    if Wrapped(e, OPERAND, stop) {
      ReadsParens(e, stop, ts, p, d);
    } else if Atom(e) {
      ReadsAtom(e, stop, ts, p, d);
    } else if e.New? {
      ReadsNew(e, stop, ts, p, d);
    } else if e.ArrayLit? {
      ReadsArray(e, stop, ts, p, d);
    } else {
      ReadsForm(e, stop, ts, p, d);
    }
  }

  lemma {:induction false} ReadsParens(e: Expr, stop: Option<string>, ts: seq<Token>, p: nat, d: int)
    requires Parsable(e) && Wrapped(e, OPERAND, stop)
    requires Stands(ts, p, Print(e, OPERAND, stop)) && d <= MAX_DEPTH
    ensures PostfixExpr(ts, p, d) == Continues(e, stop, ts, p + |Print(e, OPERAND, stop)|, d)
    decreases e, 2, 0
  {
    hide Parsable, Stands, PrintAll, NestingAll, Primary, PostfixRest, Closes, Wrapped, Assignment;
    var inner := PrintAll(e, None);
    assert Print(e, OPERAND, stop) == Parens(inner);
    Enclosed(ts, p, Punct("("), inner, Punct(")"));
    EndsClose(Punct(")"));
    if d + 1 <= MAX_DEPTH {
      ReadsAll(e, None, ts, p + 1, d + 1);
    }
    ParensStep(ts, p, d, e, p + 1 + |inner|);
  }

  lemma ReadsAtom(e: Expr, stop: Option<string>, ts: seq<Token>, p: nat, d: int)
    requires Parsable(e) && Atom(e) && !Wrapped(e, OPERAND, stop)
    requires Stands(ts, p, Print(e, OPERAND, stop)) && d <= MAX_DEPTH
    ensures PostfixExpr(ts, p, d) == Continues(e, stop, ts, p + |Print(e, OPERAND, stop)|, d)
  {
    hide Parsable, Stands, Primary, PostfixRest, AtomToken, Wrapped;
    assert Print(e, OPERAND, stop) == [AtomToken(e)] == [AtomToken(e)] + [];
    StandsConcat(ts, p, [AtomToken(e)], []);
    AtomStep(e, ts, p, d);
  }

  /** A left operand and what is written behind it. */
  lemma {:induction false} ReadsForm(e: Expr, stop: Option<string>, ts: seq<Token>, p: nat, d: int)
    requires Parsable(e) && Stop(stop) && Postfix(e)
    requires Stands(ts, p, Print(e, OPERAND, stop)) && d <= MAX_DEPTH
    ensures PostfixExpr(ts, p, d) == Continues(e, stop, ts, p + |Print(e, OPERAND, stop)|, d)
    decreases e, 0, 2
  {
    hide Parsable, Stop, Stands, PostfixRest, PostfixExpr, Print, Nesting, Suffix, SuffixNesting;
    var left := Print(e.e, OPERAND, stop);
    PrintedPostfix(e, OPERAND, stop);
    StandsConcat(ts, p, left, Suffix(e));
    ReadsPostfix(e.e, stop, ts, p, d);
    ReadsSuffix(e, ts, p + |left|, d);
  }

  lemma {:induction false} ReadsSuffix(e: Expr, ts: seq<Token>, p: nat, d: int)
    requires Parsable(e) && Postfix(e) && Stands(ts, p, Suffix(e)) && d <= MAX_DEPTH
    ensures PostfixRest(ts, p, d, e.e) ==
      if d + SuffixNesting(e) > MAX_DEPTH then TooDeep else PostfixRest(ts, p + |Suffix(e)|, d, e)
    decreases e, 0, 1
  {
    hide Stands, PostfixRest, PrintItems, PrintAll;
    if e.Call? {
      ReadsCall(e, ts, p, d);
    } else if e.Index? {
      ReadsIndex(e, ts, p, d);
    } else if e.Member? {
      assert Suffix(e) == [Punct(".")] + [Token("IDENT", e.name)];
      StandsConcat(ts, p, [Punct(".")], [Token("IDENT", e.name)]);
      MemberStep(ts, p, d, e.e);
    } else {
      StandsFirst(ts, p, Suffix(e));
      StandsInside(ts, p, Suffix(e));
      CountStep(ts, p, d, e.e);
    }
  }

  lemma {:induction false} ReadsCall(e: Expr, ts: seq<Token>, p: nat, d: int)
    requires Parsable(e) && e.Call? && Stands(ts, p, Suffix(e)) && d <= MAX_DEPTH
    ensures PostfixRest(ts, p, d, e.e) ==
      if d + SuffixNesting(e) > MAX_DEPTH then TooDeep else PostfixRest(ts, p + |Suffix(e)|, d, e)
    decreases e, 0, 0
  {
    hide Stands, PostfixRest, Args, PrintItems, NestingItems;
    var inner := PrintItems(e.args, Some(")"));
    Enclosed(ts, p, Punct("("), inner, Punct(")"));
    ReadsArgs(e.args, ts, p + 1, d);
    CallStep(ts, p, d, e.e, e.args, p + 1 + |inner|);
  }

  lemma {:induction false} ReadsIndex(e: Expr, ts: seq<Token>, p: nat, d: int)
    requires Parsable(e) && e.Index? && Stands(ts, p, Suffix(e)) && d <= MAX_DEPTH
    ensures PostfixRest(ts, p, d, e.e) ==
      if d + SuffixNesting(e) > MAX_DEPTH then TooDeep else PostfixRest(ts, p + |Suffix(e)|, d, e)
    decreases e, 0, 0
  {
    hide Stands, PostfixRest, Assignment, PrintAll, NestingAll, Closes;
    var inner := PrintAll(e.at, None);
    Enclosed(ts, p, Punct("["), inner, Punct("]"));
    EndsClose(Punct("]"));
    Stopping();
    ReadsAll(e.at, None, ts, p + 1, d);
    IndexStep(ts, p, d, e.e, e.at, p + 1 + |inner|);
  }

  lemma {:induction false} ReadsNew(e: Expr, stop: Option<string>, ts: seq<Token>, p: nat, d: int)
    requires Parsable(e) && e.New?
    requires Stands(ts, p, Print(e, OPERAND, stop)) && d <= MAX_DEPTH
    ensures PostfixExpr(ts, p, d) == Continues(e, stop, ts, p + |Print(e, OPERAND, stop)|, d)
    decreases e, 0, 0
  {
    hide Stands, PostfixRest, Primary, PrintItems, NestingItems, Args;
    var first, ctor := Token("IDENT", "new"), Token("IDENT", e.ctor);
    var inner := PrintItems(e.args, Some(")"));
    assert Print(e, OPERAND, stop) == [first, ctor] + Parens(inner) && [first, ctor] == [first] + [ctor];
    StandsConcat(ts, p, [first, ctor], Parens(inner));
    StandsConcat(ts, p, [first], [ctor]);
    Enclosed(ts, p + 2, Punct("("), inner, Punct(")"));
    if d + 1 <= MAX_DEPTH {
      ReadsArgs(e.args, ts, p + 3, d + 1);
    }
    NewStep(ts, p, d, e.args, p + 3 + |inner|);
  }

  lemma {:induction false} ReadsArray(e: Expr, stop: Option<string>, ts: seq<Token>, p: nat, d: int)
    requires Parsable(e) && e.ArrayLit?
    requires Stands(ts, p, Print(e, OPERAND, stop)) && d <= MAX_DEPTH
    ensures PostfixExpr(ts, p, d) == Continues(e, stop, ts, p + |Print(e, OPERAND, stop)|, d)
    decreases e, 0, 0
  {
    hide Stands, PostfixRest, Primary, PrintAll, NestingAll, Items, Closes;
    var inner := PrintItems(e.args, Some("]"));
    assert Print(e, OPERAND, stop) == Brackets(inner);
    Enclosed(ts, p, Punct("["), inner, Punct("]"));
    EndsClose(Punct("]"));
    if e.args != [] {
      LeadsItems(e.args, Some("]"));
      StandsFirst(ts, p + 1, inner);
      if d + 1 <= MAX_DEPTH {
        ReadsItems(e.args, Some("]"), ts, p + 1, d + 1, []);
        assert [] + e.args == e.args;
      }
    }
    ArrayStep(ts, p, d, e.args, p + 1 + |inner|);
  }

  lemma LeadsItems(es: seq<Expr>, stop: Option<string>)
    requires es != [] && AllParsable(es) && Stop(stop)
    ensures PrintItems(es, stop) != [] && stop != Some(PrintItems(es, stop)[0].value)
  {
    LeadsAll(es[0], stop);
  }

  /** parse_arg_list on a written list, with the closing parenthesis behind it. */
  lemma {:induction false} ReadsArgs(es: seq<Expr>, ts: seq<Token>, p: nat, d: int)
    requires AllParsable(es) && Stands(ts, p, PrintItems(es, Some(")"))) && d <= MAX_DEPTH
    requires ts[p + |PrintItems(es, Some(")"))|] == Punct(")")
    ensures Args(ts, p, d) ==
      if d + NestingItems(es, Some(")")) > MAX_DEPTH then TooDeep else Done(es, p + |PrintItems(es, Some(")"))|)
    decreases es, 1, 0
  {
    hide Items, PrintAll, NestingAll, AllParsable, Closes, Stop;
    if es != [] {
      var inner := PrintItems(es, Some(")"));
      Stopping();
      LeadsItems(es, Some(")"));
      StandsFirst(ts, p, inner);
      EndsClose(Punct(")"));
      ReadsItems(es, Some(")"), ts, p, d, []);
      assert [] + es == es;
    }
  }

  /** The comma separated expressions of a written list. */
  lemma {:induction false} ReadsItems(es: seq<Expr>, stop: Option<string>, ts: seq<Token>, p: nat, d: int,
                                      acc: seq<Expr>)
    requires es != [] && AllParsable(es) && Stop(stop) && Stands(ts, p, PrintItems(es, stop)) && d <= MAX_DEPTH
    requires
      var t := ts[p + |PrintItems(es, stop)|];
      Closes(t) && !Is(t, ",")
    ensures Items(ts, p, d, acc) ==
      if d + NestingItems(es, stop) > MAX_DEPTH then TooDeep else Done(acc + es, p + |PrintItems(es, stop)|)
    decreases es, 0, 0
  {
    hide Items, Assignment, PrintAll, NestingAll, PrintItems, NestingItems, Parsable, Stands, Closes, Stop;
    var first, rest := PrintAll(es[0], stop), es[1..];
    var q := p + |first|;
    ItemsParts(es, stop);
    StandsInside(ts, p, PrintItems(es, stop));
    Stopping();
    if rest == [] {
      ReadsAll(es[0], stop, ts, p, d);
      ItemsStep(ts, p, d, acc);
      assert es == [es[0]];
    } else {
      ThreeParts(ts, p, first, Punct(","), PrintItems(rest, None));
      EndsClose(Punct(","));
      ReadsAll(es[0], stop, ts, p, d);
      ItemsStep(ts, p, d, acc);
      if d + NestingAll(es[0], stop) <= MAX_DEPTH {
        ReadsItems(rest, None, ts, q + 1, d, acc + [es[0]]);
        assert acc + [es[0]] + rest == acc + es;
      }
    }
  }

  lemma ItemsParts(es: seq<Expr>, stop: Option<string>)
    requires es != []
    ensures
      var first, rest := PrintAll(es[0], stop), es[1..];
      && PrintItems(es, stop) == (if rest == [] then first else first + [Punct(",")] + PrintItems(rest, None))
      && NestingItems(es, stop) ==
         if rest == [] then NestingAll(es[0], stop) else Max(NestingAll(es[0], stop), NestingItems(rest, None))
  {
    hide PrintAll, NestingAll;
    if |es| == 1 {
      assert es[1..] == [];
    } else {
      var first, more := PrintAll(es[0], stop), PrintItems(es[1..], None);
      assert first + ([Punct(",")] + more) == first + [Punct(",")] + more;
    }
  }

  lemma ItemsStep(ts: seq<Token>, p: nat, d: int, acc: seq<Expr>)
    requires At(ts, p)
    ensures
      var r := Assignment(ts, p, d);
      && (r.TooDeep? ==> Items(ts, p, d, acc) == TooDeep)
      && (r.Done? && !Is(ts[r.pos], ",") ==> Items(ts, p, d, acc) == Done(acc + [r.value], r.pos))
      && (r.Done? && Is(ts[r.pos], ",") && r.pos + 1 < |ts| ==>
          Items(ts, p, d, acc) == Items(ts, r.pos + 1, d, acc + [r.value]))
  {
    hide Assignment;
  }

  // ---- prefix and binary operators ----

  lemma UnaryUnfold(ts: seq<Token>, p: nat, d: int)
    requires At(ts, p) && !Prefix(ts[p].value)
    ensures UnaryExpr(ts, p, d) == if d + 1 > MAX_DEPTH then TooDeep else PostfixExpr(ts, p, d + 1)
  {
    hide Primary, PostfixRest;
  }

  lemma ReadsPrefix(ts: seq<Token>, p: nat, d: int)
    requires At(ts, p) && p + 1 < |ts| && Prefix(ts[p].value)
    ensures d + 1 > MAX_DEPTH ==> UnaryExpr(ts, p, d) == TooDeep
    ensures d + 1 <= MAX_DEPTH ==>
      var r := UnaryExpr(ts, p + 1, d + 1);
      UnaryExpr(ts, p, d) ==
        if r.Done? then
          Done(if ts[p].value == "typeof" then TypeOf(r.value) else Unary(ts[p].value, r.value), r.pos)
        else r
  {
    hide Primary, PostfixRest;
  }

  /** What Binary(level) makes of Print(e, level): it arrives at its own loop with e in hand,
      unless the depth guard stops it. */
  function Arrives(e: Expr, level: nat, stop: Option<string>, ts: seq<Token>, p: nat, d: int): Outcome<Expr>
    requires level <= LEVELS && At(ts, p)
  {
    if d + Nesting(e, level, stop) > MAX_DEPTH then TooDeep
    else if level == LEVELS then Done(e, p)
    else BinaryRest(level, ts, p, d, e)
  }

  /** Levels that are not its own make no difference to a tree. */
  lemma SameNext(e: Expr, level: nat, stop: Option<string>)
    requires level < LEVELS && Tightness(e) != level
    ensures Print(e, level, stop) == Print(e, level + 1, stop)
    ensures Nesting(e, level, stop) == Nesting(e, level + 1, stop)
  {
    hide OpLevel, PrintAll, NestingAll, PrintItems, NestingItems, Suffix, SuffixNesting;
  }

  lemma BinaryIs(level: nat, ts: seq<Token>, p: nat, d: int)
    requires level <= LEVELS && At(ts, p)
    ensures level == LEVELS ==> Binary(level, ts, p, d) == UnaryExpr(ts, p, d)
    ensures level < LEVELS ==>
      var r := Binary(level + 1, ts, p, d);
      Binary(level, ts, p, d) == if r.Done? then BinaryRest(level, ts, r.pos, d, r.value) else r
  {
    hide UnaryExpr, BinaryRest;
  }

  lemma {:induction false} ReadsBinary(e: Expr, level: nat, stop: Option<string>, ts: seq<Token>, p: nat, d: int)
    requires Parsable(e) && Stop(stop) && level <= LEVELS && Stands(ts, p, Print(e, level, stop)) && d <= MAX_DEPTH
    requires Stops(ts[p + |Print(e, level, stop)|], level + 1)
    ensures Binary(level, ts, p, d) == Arrives(e, level, stop, ts, p + |Print(e, level, stop)|, d)
    decreases e, if Wrapped(e, level, stop) then 2 else 0, 11 - level
  {
    hide Binary, UnaryExpr, BinaryRest, Ops, OpLevel, Print, Nesting, Parsable, Stop, Stands, Stops;
    var q := p + |Print(e, level, stop)|;
    StandsInside(ts, p, Print(e, level, stop));
    BinaryIs(level, ts, p, d);
    if level == LEVELS {
      StopsTighter(ts[q], LEVELS + 1, LEVELS);
      ReadsUnary(e, stop, ts, p, d);
    } else if Tightness(e) == level {
      ReadsOwnLevel(e, stop, ts, p, d);
    } else {
      SameNext(e, level, stop);
      StopsTighter(ts[q], level + 1, level + 2);
      ReadsBinary(e, level + 1, stop, ts, p, d);
      if level + 1 < LEVELS {
        StopsRest(level + 1, ts, q, d, e);
      }
    }
  }

  lemma LoopStep(level: nat, ts: seq<Token>, p: nat, d: int, left: Expr)
    requires At(ts, p) && level < LEVELS && ts[p].value in Ops(level) && p + 1 < |ts|
    ensures
      var r := Binary(level + 1, ts, p + 1, d);
      BinaryRest(level, ts, p, d, left) ==
        if r.Done? then BinaryRest(level, ts, r.pos, d, Bin(ts[p].value, left, r.value)) else r
  {
    hide Ops, UnaryExpr, Binary;
  }

  /** e is an operator of exactly this level: left operand, operator, right operand. */
  lemma {:induction false} ReadsOwnLevel(e: Expr, stop: Option<string>, ts: seq<Token>, p: nat, d: int)
    requires Parsable(e) && e.Bin? && Stop(stop) && Tightness(e) < LEVELS && d <= MAX_DEPTH
    requires Stands(ts, p, Print(e, Tightness(e), stop))
    requires Stops(ts[p + |Print(e, Tightness(e), stop)|], Tightness(e) + 1)
    ensures Binary(Tightness(e), ts, p, d)
         == Arrives(e, Tightness(e), stop, ts, p + |Print(e, Tightness(e), stop)|, d)
    decreases e, 0, 0
  {
    hide Stands, Stops, Ops, OpLevel, Binary, BinaryRest, Print, Nesting, Parsable, Stop;
    PrintedBin(e, Tightness(e), stop);
    var k := Tightness(e);
    var left, right := Print(e.left, k, stop), Print(e.right, k + 1, None);
    var q := p + |left|;
    var end := q + 1 + |right|;
    ThreeParts(ts, p, left, Op(e.op), right);
    OpStops(e.op);
    StopsTighter(ts[end], k + 1, k + 2);
    ReadsBinary(e.left, k, stop, ts, p, d);
    if d + Nesting(e.left, k, stop) <= MAX_DEPTH {
      LoopStep(k, ts, q, d, e.left);
      Stopping();
      ReadsBinary(e.right, k + 1, None, ts, q + 1, d);
      if k + 1 < LEVELS {
        StopsRest(k + 1, ts, end, d, e.right);
      }
    }
  }

  /** parse_unary on a prefix operator or an operand. */
  lemma {:induction false} ReadsUnary(e: Expr, stop: Option<string>, ts: seq<Token>, p: nat, d: int)
    requires Parsable(e) && Stop(stop) && Stands(ts, p, Print(e, LEVELS, stop)) && d <= MAX_DEPTH
    requires Stops(ts[p + |Print(e, LEVELS, stop)|], LEVELS)
    ensures UnaryExpr(ts, p, d) == Arrives(e, LEVELS, stop, ts, p + |Print(e, LEVELS, stop)|, d)
    decreases e, if Wrapped(e, LEVELS, stop) then 2 else 0, 4
  {
    hide UnaryExpr, PostfixExpr, PostfixRest, BinaryRest, Parsable, Stop, OpLevel, Print, Nesting;
    if e.Unary? || e.TypeOf? {
      ReadsPrefixed(e, stop, ts, p, d);
    } else {
      NoPrefix(e, stop);
      Leads(e, OPERAND, stop);
      StandsFirst(ts, p, Print(e, OPERAND, stop));
      UnaryUnfold(ts, p, d);
      if d + 1 <= MAX_DEPTH {
        ReadsPostfix(e, stop, ts, p, d + 1);
        StopsPostfix(ts, p + |Print(e, OPERAND, stop)|, d + 1, e);
      }
    }
  }

  lemma NoPrefix(e: Expr, stop: Option<string>)
    requires Parsable(e) && !e.Unary? && !e.TypeOf?
    ensures Wrapped(e, LEVELS, stop) == Wrapped(e, OPERAND, stop)
    ensures Print(e, LEVELS, stop) == Print(e, OPERAND, stop)
    ensures Nesting(e, LEVELS, stop) == 1 + Nesting(e, OPERAND, stop)
  {
    hide PrintAll, NestingAll, PrintItems, NestingItems, Ops;
  }

  function PrefixToken(e: Expr): Token
    requires e.Unary? || e.TypeOf?
  {
    if e.Unary? then Op(e.op) else Token("IDENT", "typeof")
  }

  lemma PrefixParts(e: Expr, level: nat, stop: Option<string>)
    requires Parsable(e) && (e.Unary? || e.TypeOf?) && level <= LEVELS
    ensures Parsable(e.e) && Prefix(PrefixToken(e).value) && (e.Unary? ==> e.op != "typeof")
    ensures Print(e, level, stop) == [PrefixToken(e)] + Print(e.e, LEVELS, None)
    ensures Nesting(e, level, stop) == 1 + Nesting(e.e, LEVELS, None)
  {
  }

  /** A prefix operator and its operand. */
  lemma {:induction false} ReadsPrefixed(e: Expr, stop: Option<string>, ts: seq<Token>, p: nat, d: int)
    requires Parsable(e) && (e.Unary? || e.TypeOf?) && Stands(ts, p, Print(e, LEVELS, stop)) && d <= MAX_DEPTH
    requires Stops(ts[p + |Print(e, LEVELS, stop)|], LEVELS)
    ensures UnaryExpr(ts, p, d) == Arrives(e, LEVELS, stop, ts, p + |Print(e, LEVELS, stop)|, d)
    decreases e, 0, 0
  {
    hide UnaryExpr, BinaryRest, Stops, Stands, OpLevel, Print, Nesting, Parsable;
    PrefixParts(e, LEVELS, stop);
    StandsConcat(ts, p, [PrefixToken(e)], Print(e.e, LEVELS, None));
    Stopping();
    ReadsPrefix(ts, p, d);
    if d < MAX_DEPTH {
      ReadsUnary(e.e, None, ts, p + 1, d + 1);
    }
  }

  // ---- whole expressions ----

  /** A written operand where the loosest binary level starts and ends. */
  lemma {:induction false} ReadsOperand(e: Expr, stop: Option<string>, ts: seq<Token>, p: nat, d: int)
    requires Parsable(e) && Stop(stop) && Stands(ts, p, Print(e, 0, stop)) && d <= MAX_DEPTH
    requires Stops(ts[p + |Print(e, 0, stop)|], 0)
    ensures Binary(0, ts, p, d) ==
      if d + Nesting(e, 0, stop) > MAX_DEPTH then TooDeep else Done(e, p + |Print(e, 0, stop)|)
    decreases e, if Wrapped(e, 0, stop) then 2 else 0, 19
  {
    hide Binary, BinaryRest, Print, Nesting, Parsable, Stop, Stands, Stops, Wrapped;
    var q := p + |Print(e, 0, stop)|;
    StandsInside(ts, p, Print(e, 0, stop));
    StopsTighter(ts[q], 0, 1);
    ReadsBinary(e, 0, stop, ts, p, d);
    StopsRest(0, ts, q, d, e);
  }

  function Whole(e: Expr, stop: Option<string>, q: nat, d: int): Outcome<Expr> {
    if d + NestingAll(e, stop) > MAX_DEPTH then TooDeep else Done(e, q)
  }

  /** parse_expression on a written tree followed by a token that ends it. */
  lemma {:induction false} ReadsAll(e: Expr, stop: Option<string>, ts: seq<Token>, p: nat, d: int)
    requires Parsable(e) && Stop(stop) && Stands(ts, p, PrintAll(e, stop)) && d <= MAX_DEPTH
    requires Closes(ts[p + |PrintAll(e, stop)|])
    ensures Assignment(ts, p, d) == Whole(e, stop, p + |PrintAll(e, stop)|, d)
    decreases e, if AtStop(e, stop) then 3 else 1, 20
  {
    hide Assignment, Parsable, Stop, Stands, Stops, Print, PrintAll, Nesting, NestingAll, Whole;
    if e.Assign? {
      ReadsAssign(e, stop, ts, p, d);
    } else if e.Ternary? {
      ReadsTernary(e, stop, ts, p, d);
    } else {
      ReadsPlain(e, stop, ts, p, d);
    }
  }

  lemma PlainParts(e: Expr, stop: Option<string>)
    requires !e.Assign? && !e.Ternary?
    ensures PrintAll(e, stop) == Print(e, 0, stop) && NestingAll(e, stop) == 1 + Nesting(e, 0, stop)
  {
    hide Print, Nesting;
  }

  lemma {:induction false} ReadsPlain(e: Expr, stop: Option<string>, ts: seq<Token>, p: nat, d: int)
    requires Parsable(e) && Stop(stop) && Stands(ts, p, PrintAll(e, stop)) && d <= MAX_DEPTH
    requires Closes(ts[p + |PrintAll(e, stop)|]) && !e.Assign? && !e.Ternary?
    ensures Assignment(ts, p, d) == Whole(e, stop, p + |PrintAll(e, stop)|, d)
    decreases e, if AtStop(e, stop) then 3 else 1, 19
  {
    hide Binary, Parsable, Stop, Stands, Stops, Print, Nesting, PrintAll, NestingAll;
    PlainParts(e, stop);
    if d + 1 <= MAX_DEPTH {
      ReadsOperand(e, stop, ts, p, d + 1);
    }
  }

  lemma {:induction false} ReadsAssign(e: Expr, stop: Option<string>, ts: seq<Token>, p: nat, d: int)
    requires Parsable(e) && Stop(stop) && Stands(ts, p, PrintAll(e, stop)) && d <= MAX_DEPTH
    requires Closes(ts[p + |PrintAll(e, stop)|]) && e.Assign?
    ensures Assignment(ts, p, d) == Whole(e, stop, p + |PrintAll(e, stop)|, d)
    decreases e, 0, 0
  {
    hide Stop, Stands, Stops, Closes, Binary, Print, Nesting, PrintAll, NestingAll, Parsable;
    var left, right := Print(e.target, 0, stop), PrintAll(e.e, None);
    var q := p + |left|;
    AssignParts(e, stop);
    ThreeParts(ts, p, left, Op(e.op), right);
    LooseOps(e.op);
    if d + 1 <= MAX_DEPTH {
      ReadsOperand(e.target, stop, ts, p, d + 1);
      Stopping();
      ReadsAll(e.e, None, ts, q + 1, d + 1);
      AssignStep(ts, p, d, e.target, q);
    }
  }

  lemma AssignParts(e: Expr, stop: Option<string>)
    requires e.Assign? && Parsable(e)
    ensures Parsable(e.target) && Parsable(e.e) && e.op in ASSIGN_OPS
    ensures PrintAll(e, stop) == Print(e.target, 0, stop) + [Op(e.op)] + PrintAll(e.e, None)
    ensures NestingAll(e, stop) == 1 + Max(Nesting(e.target, 0, stop), NestingAll(e.e, None))
  {
    hide Print, Nesting;
  }

  lemma AssignStep(ts: seq<Token>, p: nat, d: int, x: Expr, q: nat)
    requires At(ts, p) && d + 1 <= MAX_DEPTH && q + 1 < |ts|
    requires ts[q].kind == "OP" && ts[q].value in ASSIGN_OPS
    ensures Binary(0, ts, p, d + 1).TooDeep? ==> Assignment(ts, p, d) == TooDeep
    ensures Binary(0, ts, p, d + 1) == Done(x, q) ==>
      var r := Assignment(ts, q + 1, d + 1);
      Assignment(ts, p, d) == if r.Done? then Done(Assign(ts[q].value, x, r.value), r.pos) else r
  {
    hide Binary;
  }

  lemma {:induction false} ReadsTernary(e: Expr, stop: Option<string>, ts: seq<Token>, p: nat, d: int)
    requires Parsable(e) && Stop(stop) && Stands(ts, p, PrintAll(e, stop)) && d <= MAX_DEPTH
    requires Closes(ts[p + |PrintAll(e, stop)|]) && e.Ternary?
    ensures Assignment(ts, p, d) == Whole(e, stop, p + |PrintAll(e, stop)|, d)
    decreases e, 0, 0
  {
    hide Stop, Stands, Stops, Binary, Assignment, Print, Nesting, PrintAll, NestingAll, Parsable;
    var left, yes, no := Print(e.cond, 0, stop), PrintAll(e.yes, None), PrintAll(e.no, None);
    var branches := yes + [Punct(":")] + no;
    var q := p + |left|;
    var r := q + 1 + |yes|;
    TernaryParts(e, stop);
    ThreeParts(ts, p, left, Punct("?"), branches);
    GuardFirst(ts, p, d);
    ThreeParts(ts, q + 1, yes, Punct(":"), no);
    LooseOps("?");
    EndsClose(Punct(":"));
    if d + 1 <= MAX_DEPTH {
      Stopping();
      ReadsOperand(e.cond, stop, ts, p, d + 1);
      ReadsAll(e.yes, None, ts, q + 1, d + 1);
      ReadsAll(e.no, None, ts, r + 1, d + 1);
      TernaryStep(ts, p, d, e.cond, q, e.yes, r);
    }
  }

  lemma GuardFirst(ts: seq<Token>, p: nat, d: int)
    requires At(ts, p)
    ensures d + 1 > MAX_DEPTH ==> Assignment(ts, p, d) == TooDeep
  {
  }

  lemma TernaryParts(e: Expr, stop: Option<string>)
    requires e.Ternary? && Parsable(e)
    ensures Parsable(e.cond) && Parsable(e.yes) && Parsable(e.no)
    ensures
      var branches := PrintAll(e.yes, None) + [Punct(":")] + PrintAll(e.no, None);
      PrintAll(e, stop) == Print(e.cond, 0, stop) + [Punct("?")] + branches
    ensures NestingAll(e, stop)
         == 1 + Max(Nesting(e.cond, 0, stop), Max(NestingAll(e.yes, None), NestingAll(e.no, None)))
  {
    hide Print, Nesting;
  }

  lemma TernaryStep(ts: seq<Token>, p: nat, d: int, cond: Expr, q: nat, yes: Expr, r: nat)
    requires At(ts, p) && d + 1 <= MAX_DEPTH && q + 1 < |ts| && r + 1 < |ts|
    requires ts[q] == Punct("?") && ts[r] == Punct(":")
    requires Binary(0, ts, p, d + 1).TooDeep? || Binary(0, ts, p, d + 1) == Done(cond, q)
    requires Assignment(ts, q + 1, d + 1).TooDeep? || Assignment(ts, q + 1, d + 1) == Done(yes, r)
    ensures Binary(0, ts, p, d + 1).TooDeep? || Assignment(ts, q + 1, d + 1).TooDeep? ==>
      Assignment(ts, p, d) == TooDeep
    ensures Binary(0, ts, p, d + 1).Done? && Assignment(ts, q + 1, d + 1).Done? ==>
      var no := Assignment(ts, r + 1, d + 1);
      && (no.TooDeep? ==> Assignment(ts, p, d) == TooDeep)
      && (no.Done? && ts[no.pos].value !in ASSIGN_OPS ==>
          Assignment(ts, p, d) == Done(Ternary(cond, yes, no.value), no.pos))
  {
    hide Binary;
  }

  /** The written form of e stands at p, with a token behind it that ends an expression. */
  predicate Stated(ts: seq<Token>, p: nat, e: Expr) {
    Parsable(e) && Stands(ts, p, PrintAll(e, None)) && Closes(ts[p + |PrintAll(e, None)|])
  }

  lemma ReadsExpression(e: Expr, ts: seq<Token>, p: nat, d: int)
    requires Stated(ts, p, e) && d <= MAX_DEPTH
    ensures Assignment(ts, p, d) ==
      if d + Depth(e) > MAX_DEPTH then TooDeep else Done(e, p + |PrintAll(e, None)|)
  {
    ReadsAll(e, None, ts, p, d);
  }

  /** Writing and parsing back: the same tree with the cursor on EOF, exactly when the nesting stays
      within the depth guard, and the guard's exception otherwise. */
  lemma RoundTrip(e: Expr)
    requires Parsable(e)
    ensures
      var ts := Written(e);
      Assignment(ts, 0, 0) == if Depth(e) <= MAX_DEPTH then Done(e, |ts| - 1) else TooDeep
  {
    hide Parsable, PrintAll, NestingAll, Assignment;
    WrittenStands(PrintAll(e, None));
    EndsClose(EOF);
    ReadsExpression(e, Written(e), 0, 0);
  }

  lemma WrittenStands(part: seq<Token>)
    ensures Stands(part + [EOF], 0, part) && (part + [EOF])[|part|] == EOF
  {
  }

  /** Two trees within the guard are never written alike. */
  lemma WrittenInjective(a: Expr, b: Expr)
    requires Parsable(a) && Parsable(b) && Written(a) == Written(b) && Depth(a) <= MAX_DEPTH
    ensures a == b
  {
    hide Parsable, Written, Depth, Assignment;
    RoundTrip(a);
    RoundTrip(b);
  }

  /** n minus signs before the number 1. */
  function Negations(n: nat): (e: Expr)
    ensures Parsable(e) && Tightness(e) >= LEVELS
  {
    if n == 0 then Number("1") else Unary("-", Negations(n - 1))
  }

  /** The guard does trip: 78 minus signs are one too many. The parser then leaves its depth
      counter one too high (see Parser.Leaves). */
  lemma {:induction false} GuardTrips(n: nat)
    ensures Assignment(Written(Negations(n)), 0, 0).TooDeep? <==> n > 77
  {
    NegationsNesting(n);
    RoundTrip(Negations(n));
  }

  lemma {:induction false} NegationsNesting(n: nat)
    ensures Nesting(Negations(n), LEVELS, None) == Nesting(Negations(n), 0, None) == n + 2
  {
    hide Nesting;
    if n > 0 {
      NegationsNesting(n - 1);
      NestingUnary("-", Negations(n - 1));
    } else {
      NestingNumber("1");
    }
  }

  lemma NestingUnary(op: string, x: Expr)
    ensures Nesting(Unary(op, x), LEVELS, None) == Nesting(Unary(op, x), 0, None) == 1 + Nesting(x, LEVELS, None)
  {
  }

  lemma NestingNumber(text: string)
    ensures Nesting(Number(text), LEVELS, None) == Nesting(Number(text), 0, None) == 2
  {
  }
}
