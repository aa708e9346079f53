/** How every form of the Pine sandbox's expressions looks as tokens. */
module PineForms {
  import opened Options
  import opened PineSyntax
  import opened PinePrinter
  import opened PineRoundTrip
  import opened PinePrecedence

  function Punctuation(p: string): seq<Token> {
    [Token("PUNCT", p)]
  }

  lemma FormReads(e: Expr, ts: seq<Token>)
    requires Operand(e) && Tokens(e) == ts
    ensures ReadsAs(ts, e)
  {
    hide Print, Parsable, ReadsAs, Tightness, PrintAll, NestingAll;
    assert Parsable(e);
    OperandWhole(e);
    WrittenReadsAs(e, ts);
  }

  lemma AtomReads(e: Expr)
    requires Atom(e) && Parsable(e)
    ensures ReadsAs([AtomToken(e)], e)
  {
    hide ReadsAs, AtomToken;
    FormReads(e, [AtomToken(e)]);
  }

  /** Numbers, strings and names, the two truth values and the two empty ones. */
  lemma AtomForms(text: string)
    requires !Negates(text) && text != "typeof"
    ensures ReadsAs([Token("NUMBER", text)], Number(text)) && ReadsAs([Token("STRING", text)], Text(text))
    ensures text !in ["true", "false", "undefined", "null", "new"] ==> ReadsAs([Token("IDENT", text)], Ident(text))
    ensures ReadsAs([Token("IDENT", "true")], Bool(true)) && ReadsAs([Token("IDENT", "false")], Bool(false))
    ensures text in ["undefined", "null"] ==> ReadsAs([Token("IDENT", text)], Nothing(text))
  {
    hide ReadsAs, Negates;
    PlainAtoms(text);
    AtomReads(Number(text));
    AtomReads(Text(text));
    AtomReads(Bool(true));
    AtomReads(Bool(false));
    if text !in ["true", "false", "undefined", "null", "new"] {
      AtomReads(Ident(text));
    }
    if text in ["undefined", "null"] {
      AtomReads(Nothing(text));
    }
  }

  lemma PostfixReads(e: Expr, ts: seq<Token>)
    requires Postfix(e) && Parsable(e) && Operand(e.e) && ts == Tokens(e.e) + Suffix(e)
    ensures ReadsAs(ts, e)
  {
    hide ReadsAs, Suffix, Parsable;
    FormReads(e, ts);
  }

  /** Behind an operand: a point and a name, two round brackets, an index in square ones, and the two
      counting operators. */
  lemma PostfixForms(a: Expr, b: Expr, name: string)
    requires Operand(a) && Operand(b)
    ensures ReadsAs(Tokens(a) + Punctuation(".") + [Token("IDENT", name)], Member(a, name))
    ensures ReadsAs(Tokens(a) + Punctuation("(") + Punctuation(")"), Call(a, []))
    ensures ReadsAs(Tokens(a) + Punctuation("[") + Tokens(b) + Punctuation("]"), Index(a, b))
    ensures ReadsAs(Tokens(a) + [Token("OP", "++")], PostInc(a))
    ensures ReadsAs(Tokens(a) + [Token("OP", "--")], PostDec(a))
  {
    hide ReadsAs, Print, PrintAll, Tightness;
    assert Parsable(a) && Parsable(b);
    OperandWhole(b);
    var x, y := Tokens(a), Tokens(b);
    assert x + Punctuation(".") + [Token("IDENT", name)] == x + [Punct("."), Token("IDENT", name)];
    PostfixReads(Member(a, name), x + Punctuation(".") + [Token("IDENT", name)]);
    NoItems(a);
    assert x + Punctuation("(") + Punctuation(")") == x + [Punct("("), Punct(")")];
    PostfixReads(Call(a, []), x + Punctuation("(") + Punctuation(")"));
    assert x + Punctuation("[") + y + Punctuation("]") == x + Brackets(y);
    PostfixReads(Index(a, b), x + Punctuation("[") + y + Punctuation("]"));
    PostfixReads(PostInc(a), x + [Token("OP", "++")]);
    PostfixReads(PostDec(a), x + [Token("OP", "--")]);
  }

  lemma NoItems(a: Expr)
    requires Parsable(a)
    ensures Parsable(Call(a, [])) && Suffix(Call(a, [])) == [Punct("("), Punct(")")]
  {
    var none: seq<Expr> := [];
    assert PrintItems(none, Some(")")) == [];
    assert AllParsable(none);
  }

  function Between(b: Expr, c: Expr): seq<Token> {
    Tokens(b) + Punctuation(",") + Tokens(c)
  }

  /** The text of the first token. */
  predicate StartsWith(e: Expr, text: string) {
    Tokens(e) != [] && Tokens(e)[0].value == text
  }

  /** The stop only matters where the operand starts with it. */
  lemma {:induction false} NotStopped(e: Expr, stop: string)
    requires !StartsWith(e, stop)
    ensures Print(e, OPERAND, Some(stop)) == Tokens(e)
  {
    if Tightness(e) < OPERAND || Atom(e) || e.New? || e.ArrayLit? {
    } else {
      assert Tokens(e) == Tokens(e.e) + Suffix(e);
      NotStopped(e.e, stop);
    }
  }

  lemma TwoItems(b: Expr, c: Expr, stop: string)
    requires Operand(b) && Operand(c) && !StartsWith(b, stop)
    ensures PrintItems([b, c], Some(stop)) == Between(b, c) && AllParsable([b, c])
  {
    hide Print, PrintAll, Parsable, Tightness;
    assert Parsable(b) && Parsable(c);
    OperandWhole(c);
    NotStopped(b, stop);
    FirstItem(b, stop);
    var last := [c];
    assert [b, c][1..] == last && PrintItems(last, None) == PrintAll(c, None) + [] == Tokens(c);
    assert PrintItems([b, c], Some(stop)) == PrintAll(b, Some(stop)) + ([Punct(",")] + Tokens(c));
    assert Tokens(b) + ([Punct(",")] + Tokens(c)) == Between(b, c);
  }

  lemma FirstItem(b: Expr, stop: string)
    requires Operand(b)
    ensures PrintAll(b, Some(stop)) == Print(b, OPERAND, Some(stop))
  {
    PlainParts(b, Some(stop));
    SamePrint(b, 0, Some(stop));
  }

  /** An operand is written alike at every level. */
  lemma {:induction false} SamePrint(e: Expr, level: nat, stop: Option<string>)
    requires Operand(e) && level <= OPERAND
    ensures Print(e, level, stop) == Print(e, OPERAND, stop)
  {
  }

  /** Arguments and elements between commas; a first one that starts with the closing bracket as the
      text of an atom needs parentheses. */
  lemma ListForms(a: Expr, b: Expr, c: Expr, ctor: string)
    requires Operand(a) && Operand(b) && Operand(c) && !StartsWith(b, ")") && !StartsWith(b, "]")
    ensures ReadsAs(Tokens(a) + Punctuation("(") + Between(b, c) + Punctuation(")"), Call(a, [b, c]))
    ensures ReadsAs([Token("IDENT", "new"), Token("IDENT", ctor)] + Punctuation("(") + Between(b, c) + Punctuation(")"),
                    New(ctor, [b, c]))
    ensures ReadsAs(Punctuation("[") + Between(b, c) + Punctuation("]"), ArrayLit([b, c]))
  {
    hide ReadsAs, Tightness, Between, PrintItems, AllParsable, StartsWith, Print;
    assert Parsable(a);
    TwoItems(b, c, ")");
    TwoItems(b, c, "]");
    var items := Between(b, c);
    assert Tokens(a) + Punctuation("(") + items + Punctuation(")") == Tokens(a) + Parens(items);
    PostfixReads(Call(a, [b, c]), Tokens(a) + Punctuation("(") + items + Punctuation(")"));
    NewReads(ctor, [b, c], items);
    ArrayReads([b, c], items);
    var n := [Token("IDENT", "new"), Token("IDENT", ctor)];
    assert n + Punctuation("(") + items + Punctuation(")") == n + Parens(items);
  }

  lemma NewReads(ctor: string, args: seq<Expr>, items: seq<Token>)
    requires AllParsable(args) && PrintItems(args, Some(")")) == items
    ensures ReadsAs([Token("IDENT", "new"), Token("IDENT", ctor)] + Parens(items), New(ctor, args))
  {
    hide ReadsAs, PrintItems, AllParsable;
    FormReads(New(ctor, args), [Token("IDENT", "new"), Token("IDENT", ctor)] + Parens(items));
  }

  lemma ArrayReads(args: seq<Expr>, items: seq<Token>)
    requires AllParsable(args) && PrintItems(args, Some("]")) == items
    ensures ReadsAs(Punctuation("[") + items + Punctuation("]"), ArrayLit(args))
  {
    hide ReadsAs, PrintItems, AllParsable;
    FormReads(ArrayLit(args), Punctuation("[") + items + Punctuation("]"));
  }

  /** Parentheses make an operand of the looser operator. */
  lemma ParenForms(p: string, q: string, a: Expr, b: Expr, c: Expr)
    requires 0 <= Rank(p) < Rank(q) && Operand(a) && Operand(b) && Operand(c)
    ensures
      var inner := Punctuation("(") + Tokens(a) + [Token("OP", p)] + Tokens(b) + Punctuation(")");
      && ReadsAs(inner + [Token("OP", q)] + Tokens(c), Bin(q, Bin(p, a, b), c))
      && ReadsAs(Tokens(c) + [Token("OP", q)] + inner, Bin(q, c, Bin(p, a, b)))
  {
    hide ReadsAs, Rank, Print, PrintAll, Parsable, Tightness;
    assert Parsable(a) && Parsable(b) && Parsable(c);
    RankBelow(q);
    RankBelow(p);
    BinTokens(p, a, b);
    BinTightness(p, a, b);
    OperandAnywhere(c, Rank(q));
    OperandAnywhere(c, Rank(q) + 1);
    var inner := Punctuation("(") + Tokens(a) + [Token("OP", p)] + Tokens(b) + Punctuation(")");
    var within := Tokens(a) + [Op(p)] + Tokens(b);
    assert inner == Parens(within);
    Parenthesised(Bin(p, a, b), Rank(q));
    Parenthesised(Bin(p, a, b), Rank(q) + 1);
    BinWritten(q, Bin(p, a, b), c, 0);
    BinWritten(q, c, Bin(p, a, b), 0);
    PlainParts(Bin(q, Bin(p, a, b), c), None);
    PlainParts(Bin(q, c, Bin(p, a, b)), None);
    WrittenReadsAs(Bin(q, Bin(p, a, b), c), inner + [Token("OP", q)] + Tokens(c));
    WrittenReadsAs(Bin(q, c, Bin(p, a, b)), Tokens(c) + [Token("OP", q)] + inner);
  }

  lemma BinTightness(p: string, a: Expr, b: Expr)
    requires Rank(p) >= 0
    ensures Tightness(Bin(p, a, b)) == Rank(p)
  {
    hide Rank, OpLevel;
    RankIsLevel(p);
  }

  lemma Parenthesised(e: Expr, level: nat)
    requires Tightness(e) < level <= OPERAND
    ensures Print(e, level, None) == Parens(PrintAll(e, None))
  {
    hide PrintAll, Tightness;
  }
}
