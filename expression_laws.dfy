/** How the expression parser groups binary operators, and where it reports
    input it cannot read: an unclosed '(', input left over after a whole
    expression, and input with nothing but whitespace. */
module ExpressionLaws {
  import opened Wrappers
  import opened ExpressionParser
  import opened ExpressionForms
  import opened ExpressionProperties

  /** The loop of parseBinaryOp stops before an operator weaker than its
      minimum precedence. */
  lemma ClimbAtWeaker(s: string, left: Expression, m: nat, minPrecedence: int, op: Operator)
    requires OperatorAtPos(s, m, op) && op.Precedence() < minPrecedence
    ensures Climb(s, left, m, minPrecedence) == Ok(left, m)
  {
    PeekAtSymbol(s, m, op);
    ClimbStop(s, left, m, minPrecedence);
  }

  /** Where the pieces of x c1 y c2 z sit in the whole. */
  lemma Layout(s: string, x: string, c1: char, y: string, c2: char, z: string)
    requires s == x + [c1] + y + [c2] + z
    ensures |s| == |x| + 1 + |y| + 1 + |z|
    ensures At(s, 0, x) && s[|x|] == c1
    ensures At(s, |x| + 1, y) && s[|x| + 1 + |y|] == c2
    ensures At(s, |x| + 2 + |y|, z)
    ensures |y| > 0 ==> s[|x| + 1] == y[0]
    ensures |z| > 0 ==> s[|x| + 2 + |y|] == z[0]
  {
    assert s[0..|x|] == x;
    assert s[|x| + 1..|x| + 1 + |y|] == y;
    assert s[|x| + 2 + |y|..|s|] == z;
  }

  /** Three numbers with a binary operator between each pair, all of whose
      pieces are where Layout puts them. */
  predicate Operands(s: string, x: string, op1: Operator, y: string, op2: Operator, z: string, m1: nat, m2: nat)
  {
    NumberLexeme(x) && NumberLexeme(y) && NumberLexeme(z) &&
    OperatorAtPos(s, m1, op1) && OperatorAtPos(s, m2, op2) &&
    m1 == |x| && m2 == m1 + 1 + |y| && |s| == m2 + 1 + |z| &&
    At(s, 0, x) && At(s, m1 + 1, y) && At(s, m2 + 1, z)
  }

  /** Each of the three numbers is read up to the operator or the end after it. */
  lemma OperandsRead(s: string, x: string, op1: Operator, y: string, op2: Operator, z: string, m1: nat, m2: nat)
    requires Operands(s, x, op1, y, op2, z, m1, m2)
    ensures Unary(s, 0) == Ok(Number(x), m1)
    ensures Unary(s, m1 + 1) == Ok(Number(y), m2)
    ensures Unary(s, m2 + 1) == Ok(Number(z), |s|)
  {
    SymbolOperator(op1);
    SymbolOperator(op2);
    UnaryOfNumber(s, 0, x);
    UnaryOfNumber(s, m1 + 1, y);
    UnaryOfNumber(s, m2 + 1, z);
  }

  /** The loop of parseBinaryOp consumes a last operator and the right
      operand that runs to the end of the input. */
  lemma ClimbLast(s: string, left: Expression, m: nat, minPrecedence: int, op: Operator, b: Expression)
    requires OperatorAtPos(s, m, op) && op.Precedence() >= minPrecedence
    requires Binary(s, m + 1, RightPrecedence(op)) == Ok(b, |s|)
    ensures Climb(s, left, m, minPrecedence) == Ok(ArithmeticExpression(left, op, b), |s|)
  {
    ClimbAtSymbol(s, left, m, minPrecedence, op, b, |s|);
    ClimbAtClose(s, ArithmeticExpression(left, op, b), |s|, minPrecedence);
  }

  /** When the second operator binds at least as tightly as the first's
      right operand demands, it is taken into that operand. */
  lemma RightGrouped(s: string, a: Expression, op1: Operator, b: Expression, op2: Operator, c: Expression, m1: nat, m2: nat)
    requires OperatorAtPos(s, m1, op1) && OperatorAtPos(s, m2, op2)
    requires Unary(s, 0) == Ok(a, m1) && Unary(s, m1 + 1) == Ok(b, m2) && Unary(s, m2 + 1) == Ok(c, |s|)
    requires op2.Precedence() >= RightPrecedence(op1)
    ensures Binary(s, 0, 0) == Ok(ArithmeticExpression(a, op1, ArithmeticExpression(b, op2, c)), |s|)
  {
    BinaryAtClose(s, m2 + 1, RightPrecedence(op2), c, |s|);
    ClimbLast(s, b, m2, RightPrecedence(op1), op2, c);
    ClimbLast(s, a, m1, 0, op1, ArithmeticExpression(b, op2, c));
  }

  /** Otherwise the first operation is complete before the second operator,
      and becomes its left operand. */
  lemma LeftGrouped(s: string, a: Expression, op1: Operator, b: Expression, op2: Operator, c: Expression, m1: nat, m2: nat)
    requires OperatorAtPos(s, m1, op1) && OperatorAtPos(s, m2, op2)
    requires Unary(s, 0) == Ok(a, m1) && Unary(s, m1 + 1) == Ok(b, m2) && Unary(s, m2 + 1) == Ok(c, |s|)
    requires op2.Precedence() < RightPrecedence(op1)
    ensures Binary(s, 0, 0) == Ok(ArithmeticExpression(ArithmeticExpression(a, op1, b), op2, c), |s|)
  {
    ClimbAtWeaker(s, b, m2, RightPrecedence(op1), op2);
    ClimbAtSymbol(s, a, m1, 0, op1, b, m2);
    BinaryAtClose(s, m2 + 1, RightPrecedence(op2), c, |s|);
    ClimbLast(s, ArithmeticExpression(a, op1, b), m2, 0, op2, c);
  }

  /** x op1 y op2 z groups to the right exactly when op2 reaches the minimum
      precedence of op1's right operand: op1 + 1, or op1 itself for ^. */
  lemma Grouping(x: string, op1: Operator, y: string, op2: Operator, z: string)
    requires NumberLexeme(x) && NumberLexeme(y) && NumberLexeme(z)
    requires op1 != UnaryMinusOperator && op2 != UnaryMinusOperator
    ensures Parsed(x + op1.Symbol() + y + op2.Symbol() + z) ==
      Success(
        if op2.Precedence() >= RightPrecedence(op1) then
          ArithmeticExpression(Number(x), op1, ArithmeticExpression(Number(y), op2, Number(z)))
        else
          ArithmeticExpression(ArithmeticExpression(Number(x), op1, Number(y)), op2, Number(z)))
  {
    var s := x + op1.Symbol() + y + op2.Symbol() + z;
    var c1, c2 := op1.Symbol()[0], op2.Symbol()[0];
    assert op1.Symbol() == [c1] && op2.Symbol() == [c2];
    Layout(s, x, c1, y, c2, z);
    var m1, m2 := |x|, |x| + 1 + |y|;
    assert Operands(s, x, op1, y, op2, z, m1, m2);
    OperandsRead(s, x, op1, y, op2, z, m1, m2);
    if op2.Precedence() >= RightPrecedence(op1) {
      RightGrouped(s, Number(x), op1, Number(y), op2, Number(z), m1, m2);
    } else {
      LeftGrouped(s, Number(x), op1, Number(y), op2, Number(z), m1, m2);
    }
  }

  /** An operator of higher precedence binds its operands first, on either
      side of one of lower precedence. */
  lemma HigherPrecedenceFirst(x: string, op1: Operator, y: string, op2: Operator, z: string)
    requires NumberLexeme(x) && NumberLexeme(y) && NumberLexeme(z)
    requires op1 != UnaryMinusOperator && op2 != UnaryMinusOperator
    ensures op1.Precedence() < op2.Precedence() ==>
      Parsed(x + op1.Symbol() + y + op2.Symbol() + z) ==
      Success(ArithmeticExpression(Number(x), op1, ArithmeticExpression(Number(y), op2, Number(z))))
    ensures op1.Precedence() > op2.Precedence() ==>
      Parsed(x + op1.Symbol() + y + op2.Symbol() + z) ==
      Success(ArithmeticExpression(ArithmeticExpression(Number(x), op1, Number(y)), op2, Number(z)))
  {
    Grouping(x, op1, y, op2, z);
  }

  /** + - * / of equal precedence group to the left; ^ groups to the right. */
  lemma Associativity(x: string, op1: Operator, y: string, op2: Operator, z: string)
    requires NumberLexeme(x) && NumberLexeme(y) && NumberLexeme(z)
    requires op1 != UnaryMinusOperator && op2 != UnaryMinusOperator
    requires op1.Precedence() == op2.Precedence()
    ensures op1 != Pow ==>
      Parsed(x + op1.Symbol() + y + op2.Symbol() + z) ==
      Success(ArithmeticExpression(ArithmeticExpression(Number(x), op1, Number(y)), op2, Number(z)))
    ensures op1 == Pow ==> op2 == Pow
    ensures op1 == Pow ==>
      Parsed(x + op1.Symbol() + y + op2.Symbol() + z) ==
      Success(ArithmeticExpression(Number(x), op1, ArithmeticExpression(Number(y), op2, Number(z))))
  {
    Grouping(x, op1, y, op2, z);
  }

  /** An opening parenthesis whose expression runs to the end of the input
      is reported missing its ')' at the end. */
  lemma UnclosedAt(s: string, e: Expression)
    requires 0 < |s| && s[0] == '(' && Binary(s, 1, 0) == Ok(e, |s|)
    ensures Parsed(s) == Failure(ExpectedClosingParenthesis(|s|))
  {
    assert SkipWs(s, 0) == 0;
    assert Unary(s, 0) == Primary(s, 0);
  }

  lemma UnclosedParenthesis(e: Expression)
    requires WellFormed(e)
    ensures Parsed("(" + Show(e)) == Failure(ExpectedClosingParenthesis(1 + |Show(e)|))
  {
    var s := "(" + Show(e);
    assert s[1..] == Show(e) + [];
    UnaryShow(s, 1, e, []);
    BinaryAtClose(s, 1, 0, e, |s|);
    UnclosedAt(s, e);
  }

  /** parse fails at the first character that parseExpression leaves:
      here a ')' after a whole expression, whatever comes after it. */
  lemma TrailingInput(e: Expression, t: string)
    requires WellFormed(e)
    ensures Parsed(Show(e) + ")" + t) == Failure(UnexpectedCharacter(')', |Show(e)|))
  {
    var s := Show(e) + ")" + t;
    assert s[0..] == Show(e) + (")" + t);
    UnaryShow(s, 0, e, ")" + t);
    assert s[|Show(e)|] == ')';
    BinaryAtClose(s, 0, 0, e, |Show(e)|);
  }

  /** Input of whitespace only, the empty input among it, fails where peek
      returns NUL past the end. */
  lemma BlankInput(s: string)
    requires forall i | 0 <= i < |s| :: IsWhitespace(s[i])
    ensures Parsed(s) == Failure(UnexpectedCharacter('\0', |s|))
  {
    SkipWsSkips(s, 0);
    assert SkipWs(s, 0) == |s|;
    assert Unary(s, 0) == Primary(s, |s|);
  }
}
