/** The Parser class of src/services/pine_worker_sandbox.py, expression part: a cursor and a
    depth counter moved by mutually recursive methods, against the functions of PineSyntax. */
module PineParsers {
  import opened PineSyntax
  import Options
  import PineBounds
  import PinePrinter
  import PineRoundTrip

  function AssignTo(ts: seq<Token>, p: nat, d: int, target: Expr): Outcome<Expr>
    requires PineSyntax.At(ts, p) && ts[p].value in ASSIGN_OPS
  {
    var r := Assignment(ts, p + 1, d);
    if r.Done? then Done(Assign(ts[p].value, target, r.value), r.pos) else r
  }

  lemma AssignmentIs(ts: seq<Token>, p: nat, d: int)
    requires PineSyntax.At(ts, p)
    ensures Assignment(ts, p, d) ==
      if d + 1 > MAX_DEPTH then TooDeep
      else
        var l := TernaryExpr(ts, p, d + 1);
        if l.Done? && ts[l.pos].value in ASSIGN_OPS then AssignTo(ts, l.pos, d + 1, l.value) else l
  {}

  lemma BinaryIs(level: nat, ts: seq<Token>, p: nat, d: int)
    requires PineSyntax.At(ts, p) && level <= LEVELS
    ensures Binary(level, ts, p, d) ==
      if level == LEVELS then UnaryExpr(ts, p, d)
      else
        var l := Binary(level + 1, ts, p, d);
        if l.Done? then BinaryRest(level, ts, l.pos, d, l.value) else l
  {}

  lemma RestIs(level: nat, ts: seq<Token>, p: nat, d: int, left: Expr)
    requires PineSyntax.At(ts, p) && level < LEVELS
    ensures BinaryRest(level, ts, p, d, left) ==
      if ts[p].value !in Ops(level) then Done(left, p)
      else
        var r := Binary(level + 1, ts, p + 1, d);
        if r.Done? then BinaryRest(level, ts, r.pos, d, Bin(ts[p].value, left, r.value)) else r
  {}

  lemma ItemsIs(ts: seq<Token>, p: nat, d: int, acc: seq<Expr>)
    requires PineSyntax.At(ts, p)
    ensures Items(ts, p, d, acc) ==
      var e := Assignment(ts, p, d);
      if !e.Done? then e.PropagateFailure()
      else if Is(ts[e.pos], ",") then Items(ts, e.pos + 1, d, acc + [e.value]) else Done(acc + [e.value], e.pos)
  {
    hide Assignment;
  }

  class Parser {
    const tokens: seq<Token>
    var pos: nat
    var depth: int

    constructor (tokens: seq<Token>)
      ensures this.tokens == tokens && pos == 0 && depth == 0
    {
      this.tokens := tokens;
      pos, depth := 0, 0;
    }

    /** The cursor stands on a token: it has not passed the EOF token. */
    predicate Valid()
      reads this
    {
      PineSyntax.At(tokens, pos)
    }

    /** Where a call that gave r leaves the parser. The depth is restored, except that the
        depth guard raises between _enter and the try block: then it stays one too high. */
    twostate predicate Leaves<T>(new r: Outcome<T>)
      reads this
    {
      && Valid() && old(pos) <= pos
      && (r.Done? ==> pos == r.pos)
      && depth == old(depth) + if r.TooDeep? then 1 else 0
    }

    method Match(expected: string) returns (found: bool)
      requires Valid() && expected != "EOF" && expected != ""
      modifies this`pos
      ensures Valid() && found == Is(tokens[old(pos)], expected) && pos == old(pos) + if found then 1 else 0
    {
      found := Is(tokens[pos], expected);
      if found {
        pos := pos + 1;
      }
    }

    /** parse_expression. On a written tree the guard's depth error depends on the tree's nesting
        alone, and a short rest of the token list rules it out. What it returns can be written with
        no more tokens than it read. */
    method ParseExpression() returns (r: Outcome<Expr>)
      requires Valid()
      modifies this
      ensures r == Assignment(tokens, old(pos), old(depth)) && Leaves(r)
      ensures forall e :: PineRoundTrip.Stated(tokens, old(pos), e) && old(depth) <= MAX_DEPTH ==>
        depth == old(depth) + if old(depth) + PinePrinter.Depth(e) > MAX_DEPTH then 1 else 0
      ensures old(depth) + 3 * (|tokens| - old(pos)) <= MAX_DEPTH ==> depth == old(depth)
      ensures r.Done? ==>
        PineBounds.AllWithin(r.value, Options.None, pos - old(pos), MAX_DEPTH - depth)
    {
      hide Assignment, PinePrinter.Depth, PineRoundTrip.Stated, PineBounds.AllWithin;
      ghost var p, d := pos, depth;
      if d + 3 * (|tokens| - p) <= MAX_DEPTH {
        PineBounds.AssignmentFits(tokens, p, d);
      }
      forall e | PineRoundTrip.Stated(tokens, p, e) && d <= MAX_DEPTH
        ensures Assignment(tokens, p, d).TooDeep? <==> d + PinePrinter.Depth(e) > MAX_DEPTH
      {
        PineRoundTrip.ReadsExpression(e, tokens, p, d);
      }
      if Assignment(tokens, p, d).Done? {
        PineBounds.ParsedAssignment(tokens, p, d, Options.None);
      }
      r := ParseAssignment();
    }

    method ParseAssignment() returns (r: Outcome<Expr>)
      requires Valid()
      modifies this
      ensures r == Assignment(tokens, old(pos), old(depth)) && Leaves(r)
      decreases |tokens| - pos, 10
    {
      hide TernaryExpr, Assignment;
      AssignmentIs(tokens, pos, depth);
      depth := depth + 1;
      if depth > MAX_DEPTH {
        return TooDeep;
      }
      r := ParseTernary();
      if r.Done? && tokens[pos].value in ASSIGN_OPS {
        r := ParseAssigned(r.value);
      }
      depth := depth - 1;
    }

    /** The operator and the right-hand side. */
    method ParseAssigned(target: Expr) returns (r: Outcome<Expr>)
      requires Valid() && tokens[pos].value in ASSIGN_OPS
      modifies this
      ensures r == AssignTo(tokens, old(pos), old(depth), target) && Leaves(r)
      decreases |tokens| - pos, 9
    {
      hide Assignment;
      var op := tokens[pos].value;
      pos := pos + 1;
      r := ParseAssignment();
      if r.Done? {
        r := Done(Assign(op, target, r.value), pos);
      }
    }

    method ParseTernary() returns (r: Outcome<Expr>)
      requires Valid()
      modifies this
      ensures r == TernaryExpr(tokens, old(pos), old(depth)) && Leaves(r)
      decreases |tokens| - pos, 9
    {
      hide Assignment, Binary;
      r := ParseBinary(0);
      if !r.Done? {
        return;
      }
      var cond := r.value;
      var question := Match("?");
      if question {
        r := ParseAssignment();
        if !r.Done? {
          return;
        }
        var yes := r.value;
        var colon := Match(":");
        if !colon {
          return BadSyntax;
        }
        r := ParseAssignment();
        if r.Done? {
          r := Done(Ternary(cond, yes, r.value), pos);
        }
      }
    }

    /** parse_logical_or (level 0) down to parse_multiplicative (level 5); LEVELS is parse_unary. */
    method ParseBinary(level: nat) returns (r: Outcome<Expr>)
      requires Valid() && level <= LEVELS
      modifies this
      ensures r == Binary(level, tokens, old(pos), old(depth)) && Leaves(r)
      decreases |tokens| - pos, 8 - level
    {
      hide UnaryExpr, Binary, BinaryRest;
      BinaryIs(level, tokens, pos, depth);
      if level == LEVELS {
        r := ParseUnary();
        return;
      }
      r := ParseBinary(level + 1);
      while r.Done? && tokens[pos].value in Ops(level)
        invariant Leaves(r)
        invariant r.Done? ==> old(pos) < pos
        invariant Binary(level, tokens, old(pos), old(depth))
               == if r.Done? then BinaryRest(level, tokens, pos, depth, r.value) else r
        decreases |tokens| - pos, r.Done?
      {
        var left, op := r.value, tokens[pos].value;
        RestIs(level, tokens, pos, depth, left);
        pos := pos + 1;
        r := ParseBinary(level + 1);
        if r.Done? {
          r := Done(Bin(op, left, r.value), pos);
        }
      }
      if r.Done? {
        RestIs(level, tokens, pos, depth, r.value);
      }
    }

    method ParseUnary() returns (r: Outcome<Expr>)
      requires Valid()
      modifies this
      ensures r == UnaryExpr(tokens, old(pos), old(depth)) && Leaves(r)
      decreases |tokens| - pos, 1
    {
      depth := depth + 1;
      if depth > MAX_DEPTH {
        return TooDeep;
      }
      var op := tokens[pos].value;
      if op == "typeof" {
        pos := pos + 1;
        r := ParseUnary();
        if r.Done? {
          r := Done(TypeOf(r.value), pos);
        }
      } else if op in UNARY_OPS {
        pos := pos + 1;
        r := ParseUnary();
        if r.Done? {
          r := Done(Unary(op, r.value), pos);
        }
      } else {
        r := ParsePostfix();
      }
      depth := depth - 1;
    }

    method ParsePostfix() returns (r: Outcome<Expr>)
      requires Valid()
      modifies this
      ensures var e := Primary(tokens, old(pos), old(depth));
        r == if e.Done? then PostfixRest(tokens, e.pos, old(depth), e.value) else e
      ensures Leaves(r)
      decreases |tokens| - pos, 1, 0
    {
      r := ParsePrimary();
      while r.Done? && tokens[pos].value in [".", "(", "[", "++", "--"]
        invariant Leaves(r)
        invariant r.Done? ==> old(pos) < pos
        invariant var e := Primary(tokens, old(pos), old(depth));
          (if e.Done? then PostfixRest(tokens, e.pos, old(depth), e.value) else e)
          == if r.Done? then PostfixRest(tokens, pos, depth, r.value) else r
        decreases |tokens| - pos, r.Done?
      {
        r := ParseSuffix(r.value);
      }
    }

    /** One round of the loop of parse_postfix. */
    method ParseSuffix(e: Expr) returns (r: Outcome<Expr>)
      requires Valid() && tokens[pos].value in [".", "(", "[", "++", "--"]
      modifies this
      ensures Leaves(r) && (r.Done? ==> old(pos) < pos)
      ensures PostfixRest(tokens, old(pos), old(depth), e)
           == if r.Done? then PostfixRest(tokens, pos, depth, r.value) else r
      decreases |tokens| - pos, 0
    {
      var tok := tokens[pos].value;
      pos := pos + 1;
      if tok == "." {
        var name := tokens[pos].value;
        var found := Match("IDENT");
        r := if found then Done(Member(e, name), pos) else BadSyntax;
      } else if tok == "(" {
        var args := ParseArgList();
        if !args.Done? {
          return args.PropagateFailure();
        }
        var found := Match(")");
        r := if found then Done(Call(e, args.value), pos) else BadSyntax;
      } else if tok == "[" {
        r := ParseAssignment();
        if !r.Done? {
          return;
        }
        var at := r.value;
        var found := Match("]");
        r := if found then Done(Index(e, at), pos) else BadSyntax;
      } else if tok == "++" {
        r := Done(PostInc(e), pos);
      } else {
        r := Done(PostDec(e), pos);
      }
    }

    method ParseArgList() returns (r: Outcome<seq<Expr>>)
      requires Valid()
      modifies this
      ensures r == Args(tokens, old(pos), old(depth)) && Leaves(r)
      decreases |tokens| - pos, 12
    {
      if tokens[pos].value == ")" {
        return Done([], pos);
      }
      r := ParseItems();
    }

    /** Expressions separated by commas: the loop of parse_arg_list and of array literals. */
    method ParseItems() returns (r: Outcome<seq<Expr>>)
      requires Valid()
      modifies this
      ensures r == Items(tokens, old(pos), old(depth), []) && Leaves(r)
      decreases |tokens| - pos, 11
    {
      hide Assignment, Items;
      ItemsIs(tokens, pos, depth, []);
      var e := ParseAssignment();
      if !e.Done? {
        return e.PropagateFailure();
      }
      var items := [e.value];
      assert [] + [e.value] == items;
      var more := Match(",");
      while more
        invariant Valid() && old(pos) < pos && depth == old(depth)
        invariant Items(tokens, old(pos), old(depth), [])
               == if more then Items(tokens, pos, depth, items) else Done(items, pos)
        decreases |tokens| - pos, more
      {
        ItemsIs(tokens, pos, depth, items);
        e := ParseAssignment();
        if !e.Done? {
          return e.PropagateFailure();
        }
        items := items + [e.value];
        more := Match(",");
      }
      r := Done(items, pos);
    }

    method ParsePrimary() returns (r: Outcome<Expr>)
      requires Valid()
      modifies this
      ensures r == Primary(tokens, old(pos), old(depth)) && Leaves(r)
      decreases |tokens| - pos, 0
    {
      depth := depth + 1;
      if depth > MAX_DEPTH {
        return TooDeep;
      }
      r := ParseAtom();
      depth := depth - 1;
    }

    /** The try block of parse_primary. */
    method ParseAtom() returns (r: Outcome<Expr>)
      requires Valid() && depth <= MAX_DEPTH
      modifies this
      ensures r == Primary(tokens, old(pos), old(depth) - 1) && Leaves(r)
      decreases |tokens| - pos, 0, 0
    {
      var tok := tokens[pos];
      if tok.kind == "NUMBER" {
        pos := pos + 1;
        r := Done(Number(tok.value), pos);
      } else if tok.kind == "STRING" {
        pos := pos + 1;
        r := Done(Text(tok.value), pos);
      } else if tok.kind == "IDENT" {
        pos := pos + 1;
        if tok.value == "true" {
          r := Done(Bool(true), pos);
        } else if tok.value == "false" {
          r := Done(Bool(false), pos);
        } else if tok.value in ["undefined", "null"] {
          r := Done(Nothing(tok.value), pos);
        } else if tok.value == "new" {
          r := ParseNew();
        } else {
          r := Done(Ident(tok.value), pos);
        }
      } else if tok.value == "(" {
        pos := pos + 1;
        r := ParseAssignment();
        if !r.Done? {
          return;
        }
        var e := r.value;
        var found := Match(")");
        r := if found then Done(e, pos) else BadSyntax;
      } else if tok.value == "[" {
        pos := pos + 1;
        r := ParseArray();
      } else {
        r := BadSyntax;
      }
    }

    /** parse_primary after the keyword new. */
    method ParseNew() returns (r: Outcome<Expr>)
      requires Valid() && 0 < pos && depth <= MAX_DEPTH && tokens[pos - 1] == Token("IDENT", "new")
      modifies this
      ensures r == Primary(tokens, old(pos) - 1, old(depth) - 1) && Leaves(r)
      decreases |tokens| - pos, 13
    {
      var ctor := tokens[pos].value;
      var found := Match("IDENT");
      if !found {
        return BadSyntax;
      }
      found := Match("(");
      if !found {
        return BadSyntax;
      }
      var args := ParseArgList();
      if !args.Done? {
        return args.PropagateFailure();
      }
      found := Match(")");
      r := if found then Done(New(ctor, args.value), pos) else BadSyntax;
    }

    /** parse_primary after an opening bracket. */
    method ParseArray() returns (r: Outcome<Expr>)
      requires Valid() && 0 < pos && depth <= MAX_DEPTH && tokens[pos - 1].value == "["
      requires tokens[pos - 1].kind !in ["NUMBER", "STRING", "IDENT"]
      modifies this
      ensures r == Primary(tokens, old(pos) - 1, old(depth) - 1) && Leaves(r)
      decreases |tokens| - pos, 13
    {
      var elements: Outcome<seq<Expr>> := Done([], pos);
      if tokens[pos].value != "]" {
        elements := ParseItems();
        if !elements.Done? {
          return elements.PropagateFailure();
        }
      }
      var found := Match("]");
      r := if found then Done(ArrayLit(elements.value), pos) else BadSyntax;
    }
  }

}
