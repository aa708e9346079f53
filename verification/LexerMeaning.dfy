/** The character classes and positions of the Pine lexer, said by character codes and line breaks. */
module LexerMeaning {
  import opened LexerSpec

  /** Digits are the codes of 0 to 9; letters those of A to Z, a to z and the underscore; blanks the
      space, the tabulation and both line breaks. */
  lemma CharacterClasses(c: char)
    ensures Digit(c) <==> 48 <= c as int <= 57
    ensures Letter(c) <==> 65 <= c as int <= 90 || 97 <= c as int <= 122 || c as int == 95
    ensures Blank(c) <==> c as int == 32 || c as int == 9 || c as int == 13 || c as int == 10
    ensures Quote(c) <==> c as int == 34 || c as int == 39
  {
  }

  predicate Numerals(v: string) {
    forall i :: 0 <= i < |v| ==> 48 <= v[i] as int <= 57
  }

  /** An exponent: the letter, at most one sign, and digits. */
  predicate ExponentForm(x: string, letter: char, sign: string, digits: string) {
    && x == [letter] + sign + digits && (letter == 'e' || letter == 'E')
    && (sign == "" || sign == "+" || sign == "-") && digits != "" && Numerals(digits)
  }

  /** The eight delimiters by their character codes. */
  lemma DelimiterCodes(c: char)
    ensures DelimiterKind(c) == match c as int
      case 40 => LParen
      case 41 => RParen
      case 44 => Comma
      case 46 => Dot
      case 91 => LBracket
      case 93 => RBracket
      case 123 => LBrace
      case 125 => RBrace
      case _ => EOF
  {
  }

  /** An operator is one of ? : + - * / % < > = alone, one of : + - * / % = ! < > before an equals
      sign, or an arrow. */
  lemma OperatorForms(v: string)
    ensures Fits(Token(Operator, v, 1, 1)) <==>
      || (|v| == 1 && v[0] in "?:+-*/%<>=")
      || (|v| == 2 && v[0] in ":+-*/%=!<>" && v[1] == '=')
      || v == "=>"
  {
    if |v| == 2 {
      assert v == [v[0], v[1]];
    }
  }

  lemma ExponentMeaning(x: string, letter: char, sign: string, digits: string)
    requires ExponentForm(x, letter, sign, digits)
    ensures Exponent(x)
  {
    if sign == "" {
      assert x == [letter] + digits && x[1] == digits[0] && x[1..] == digits;
    } else {
      assert x == [letter] + sign + digits && x[1] == sign[0] && x[2..] == digits;
    }
  }

  /** A float: digits with a point among them, at either end too, or with an exponent, or both. */
  lemma FloatForms(a: string, b: string, x: string, letter: char, sign: string, digits: string)
    requires Numerals(a) && Numerals(b) && ExponentForm(x, letter, sign, digits)
    ensures a != "" || b != "" ==> Fits(Token(Float, a + "." + b, 1, 1)) && Fits(Token(Float, a + "." + b + x, 1, 1))
    ensures a != "" ==> Fits(Token(Float, a + x, 1, 1)) && Fits(Token(Integer, a, 1, 1))
  {
    hide Exponent, ExponentForm, Fits, Numerals;
    ExponentMeaning(x, letter, sign, digits);
    if a != "" || b != "" {
      PointForms(a, b, x);
    }
    if a != "" {
      ExponentLonger(x, letter, sign, digits);
      NumberParts(a, "", x);
      assert a + "" + x == a + x;
      IntegerForm(a);
    }
  }

  lemma PointForms(a: string, b: string, x: string)
    requires Numerals(a) && Numerals(b) && (a != "" || b != "") && Exponent(x)
    ensures Fits(Token(Float, a + "." + b, 1, 1)) && Fits(Token(Float, a + "." + b + x, 1, 1))
  {
    hide Exponent, Fits, Numerals;
    EmptyExponent();
    var f := "." + b;
    assert f[1..] == b;
    NumberParts(a, f, "");
    assert a + f + "" == a + "." + b;
    NumberParts(a, f, x);
    assert a + f + x == a + "." + b + x;
  }

  lemma IntegerForm(a: string)
    requires Numerals(a) && a != ""
    ensures Fits(Token(Integer, a, 1, 1))
  {
  }

  lemma ExponentLonger(x: string, letter: char, sign: string, digits: string)
    requires ExponentForm(x, letter, sign, digits)
    ensures x != ""
  {
  }

  lemma EmptyExponent()
    ensures Exponent("")
  {
  }

  lemma NumberParts(a: string, f: string, x: string)
    requires Numerals(a) && (f == "" || (f[0] == '.' && Numerals(f[1..]))) && Exponent(x)
    requires a != "" || |f| > 1
    requires f != "" || x != ""
    ensures Fits(Token(Float, a + f + x, 1, 1))
  {
    hide Exponent;
    var v := a + f + x;
    assert v[..|a|] == a && v[|a|..|a| + |f|] == f && v[|a| + |f|..] == x;
    assert Number(v, |a|, |a| + |f|) && |a| < |v|;
  }

  /** One character of a string literal, or a backslash with whatever follows it. */
  predicate Unit(u: string, q: char) {
    || (|u| == 1 && u[0] != q && u[0] != '\\' && u[0] as int != 13 && u[0] as int != 10)
    || (|u| == 2 && u[0] == '\\')
  }

  function Spelled(units: seq<string>): string {
    if units == [] then "" else units[0] + Spelled(units[1..])
  }

  lemma {:induction false} UnitsClose(s: string, q: char, i: nat, units: seq<string>)
    requires forall k :: 0 <= k < |units| ==> Unit(units[k], q)
    requires i <= |s| && s[i..] == Spelled(units) + [q] && q != '\\'
    ensures Closes(s, q, i, |s|)
    decreases |units|
  {
    assert i < |s| && s[i] == s[i..][0];
    if units == [] {
      assert |s[i..]| == 1;
    } else {
      var u := units[0];
      var n := |u|;
      assert s[i..] == u + (Spelled(units[1..]) + [q]);
      assert s[i + n..] == s[i..][n..] == Spelled(units[1..]) + [q];
      assert s[i] == u[0];
      UnitsClose(s, q, i + n, units[1..]);
    }
  }

  /** A string literal: a quote, any such units, and the same quote again. */
  lemma StringForms(q: char, units: seq<string>)
    requires q as int == 34 || q as int == 39
    requires forall k :: 0 <= k < |units| ==> Unit(units[k], q)
    ensures Fits(Token(StringLit, [q] + Spelled(units) + [q], 1, 1))
  {
    hide Closes, Spelled, Unit, Fits;
    var body := Spelled(units);
    var v := [q] + body + [q];
    assert v[1..] == body + [q] && v[0] == q;
    UnitsClose(v, q, 1, units);
    ClosedFits(v, q);
  }

  lemma ClosedFits(v: string, q: char)
    requires |v| >= 2 && v[0] == q && (q as int == 34 || q as int == 39) && Closes(v, q, 1, |v|)
    ensures Fits(Token(StringLit, v, 1, 1))
  {
    hide Closes;
  }
}
