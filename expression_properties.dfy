/** The parser read back against a printer: an expression the parser can
    build, written with every binary operation in parentheses, parses to
    itself. The lemmas here say, step by step, what each parsing routine
    reads from a position where such text starts. */
module ExpressionProperties {
  import opened Wrappers
  import opened ExpressionParser
  import opened ExpressionForms

  /** t occurs in s from position p. */
  predicate At(s: string, p: nat, t: string)
  {
    p + |t| <= |s| && s[p..p + |t|] == t
  }

  /** A position where an operand ends: the end of the input, a ')' or an
      operator. */
  predicate Delimits(s: string, q: nat)
  {
    q == |s| || (q < |s| && (s[q] == ')' || OperatorOfChar(s[q]).Some?))
  }

  /** The binary operator op is written at m, and an operand follows it
      directly. */
  predicate OperatorAtPos(s: string, m: nat, op: Operator)
  {
    m + 1 < |s| && op != UnaryMinusOperator && s[m] == op.Symbol()[0] && !IsWhitespace(s[m + 1])
  }

  /** q is the end of the input or a ')'. */
  predicate Closes(s: string, q: nat)
  {
    q == |s| || (q < |s| && s[q] == ')')
  }

  /** The binary operator is found where its symbol is. */
  lemma PeekAtSymbol(s: string, m: nat, op: Operator)
    requires OperatorAtPos(s, m, op)
    ensures PeekOp(s, m) == (Some(op), m)
  {
    assert SkipWs(s, m) == m;
  }

  /** parseBinaryOp's loop stops at a ')' or at the end of the input. */
  lemma ClimbAtClose(s: string, left: Expression, q: nat, minPrecedence: int)
    requires Closes(s, q)
    ensures Climb(s, left, q, minPrecedence) == Ok(left, q)
  {
    assert SkipWs(s, q) == q;
    ClimbStop(s, left, q, minPrecedence);
  }

  /** The loop of parseBinaryOp consumes the binary operator at m. */
  lemma ClimbAtSymbol(s: string, left: Expression, m: nat, minPrecedence: int, op: Operator, b: Expression, q: nat)
    requires OperatorAtPos(s, m, op) && op.Precedence() >= minPrecedence
    requires Binary(s, m + 1, RightPrecedence(op)) == Ok(b, q)
    ensures Climb(s, left, m, minPrecedence) == Climb(s, ArithmeticExpression(left, op, b), q, minPrecedence)
  {
    PeekAtSymbol(s, m, op);
    assert SkipWs(s, m + 1) == m + 1;
    ClimbStep(s, left, m, minPrecedence, op, m, Ok(b, q));
  }

  /** An operand followed by a ')' or the end is all parseBinaryOp reads. */
  lemma BinaryAtClose(s: string, p: nat, minPrecedence: int, e: Expression, q: nat)
    requires p <= |s| && Unary(s, p) == Ok(e, q) && Closes(s, q)
    ensures Binary(s, p, minPrecedence) == Ok(e, q)
  {
    ClimbAtClose(s, e, q, minPrecedence);
  }

  /** parseNumber reads a run of number characters up to the first other one. */
  lemma {:induction false} NumberEndRun(s: string, p: nat, q: nat)
    requires p <= q <= |s|
    requires forall i | p <= i < q :: IsNumberChar(s[i])
    requires q == |s| || !IsNumberChar(s[q])
    ensures NumberEnd(s, p) == q
    decreases q - p
  {
    if p < q {
      NumberEndRun(s, p + 1, q);
    }
  }

  /** parseNumber's run from p is exactly a number lexeme written there. */
  lemma LexemeRun(s: string, p: nat, l: string)
    requires NumberLexeme(l) && At(s, p, l) && Delimits(s, p + |l|)
    ensures NumberEnd(s, p) == p + |l|
  {
    forall i | p <= i < p + |l|
      ensures IsNumberChar(s[i])
    {
      assert s[i] == s[p..p + |l|][i - p];
    }
    NumberEndRun(s, p, p + |l|);
  }

  lemma UnaryOfNumber(s: string, p: nat, l: string)
    requires NumberLexeme(l) && At(s, p, l) && Delimits(s, p + |l|)
    ensures Unary(s, p) == Ok(Number(l), p + |l|)
  {
    assert s[p] == s[p..p + |l|][0];
    assert SkipWs(s, p) == p;
    LexemeRun(s, p, l);
    assert Unary(s, p) == Primary(s, p);
  }

  lemma UnaryOfMinus(s: string, p: nat, x: Expression, q: nat)
    requires p + 1 < |s| && s[p] == '-' && !IsWhitespace(s[p + 1])
    requires Unary(s, p + 1) == Ok(x, q)
    ensures Unary(s, p) == Ok(UnaryMinus(UnaryMinusOperator, x), q)
  {
    assert SkipWs(s, p) == p;
    assert SkipWs(s, p + 1) == p + 1;
  }

  lemma PrimaryOfParens(s: string, p: nat, e: Expression, q: nat)
    requires q < |s| && s[q] == ')'
    requires p < |s| && s[p] == '(' && Binary(s, p + 1, 0) == Ok(e, q)
    ensures Unary(s, p) == Ok(e, q + 1)
  {
    assert SkipWs(s, p) == p;
    assert SkipWs(s, q) == q;
    assert Unary(s, p) == Primary(s, p);
  }

  /** The loop of parseBinaryOp(0) after a left operand reads one binary
      operation up to a ')' or the end. */
  lemma ClimbPair(s: string, a: Expression, op: Operator, b: Expression, m: nat, q: nat)
    requires OperatorAtPos(s, m, op) && Unary(s, m + 1) == Ok(b, q) && Closes(s, q)
    ensures Climb(s, a, m, 0) == Ok(ArithmeticExpression(a, op, b), q)
  {
    BinaryAtClose(s, m + 1, RightPrecedence(op), b, q);
    ClimbAtSymbol(s, a, m, 0, op, b, q);
    ClimbAtClose(s, ArithmeticExpression(a, op, b), q, 0);
  }

  /** A parenthesised binary operation, as parsePrimary reads it. */
  lemma ParensPair(s: string, p: nat, a: Expression, op: Operator, b: Expression, m: nat, q: nat)
    requires p < |s| && s[p] == '(' && Unary(s, p + 1) == Ok(a, m)
    requires Climb(s, a, m, 0) == Ok(ArithmeticExpression(a, op, b), q) && q < |s| && s[q] == ')'
    ensures Unary(s, p) == Ok(ArithmeticExpression(a, op, b), q + 1)
  {
    assert Binary(s, p + 1, 0) == Ok(ArithmeticExpression(a, op, b), q);
    PrimaryOfParens(s, p, ArithmeticExpression(a, op, b), q);
  }

  /** What may follow an operand: nothing, a ')' or an operator. */
  predicate Follows(rest: string)
  {
    rest == [] || rest[0] == ')' || OperatorOfChar(rest[0]).Some?
  }

  lemma DropPrefix(s: string, p: nat, t: string, u: string)
    requires p <= |s| && s[p..] == t + u
    ensures p + |t| <= |s| && s[p + |t|..] == u
  {
    assert s[p + |t|..] == s[p..][|t|..];
  }

  lemma FirstAt(s: string, p: nat, t: string)
    requires p <= |s| && s[p..] == t && |t| > 0
    ensures p < |s| && s[p] == t[0]
  {
    assert s[p] == s[p..][0];
  }

  lemma RestDelimits(s: string, q: nat, rest: string)
    requires q <= |s| && s[q..] == rest && Follows(rest)
    ensures Delimits(s, q)
  {
    if rest != [] {
      FirstAt(s, q, rest);
    }
  }

  /** The written form of a well-formed expression starts with a digit, '-'
      or '(', never with whitespace. */
  lemma ShowStart(e: Expression)
    requires WellFormed(e)
    ensures |Show(e)| > 0 && !IsWhitespace(Show(e)[0])
  {
  }

  lemma SymbolOperator(op: Operator)
    requires op != UnaryMinusOperator
    ensures OperatorOfChar(op.Symbol()[0]) == Some(op)
  {
  }

  lemma ShowNumber(s: string, p: nat, l: string, rest: string)
    requires NumberLexeme(l) && Follows(rest)
    requires p <= |s| && s[p..] == l + rest
    ensures Unary(s, p) == Ok(Number(l), p + |l|)
  {
    assert s[p..p + |l|] == s[p..][..|l|] == (l + rest)[..|l|] == l;
    DropPrefix(s, p, l, rest);
    RestDelimits(s, p + |l|, rest);
    UnaryOfNumber(s, p, l);
  }

  lemma MinusParts(s: string, p: nat, x: Expression, rest: string)
    requires WellFormed(x)
    requires p <= |s| && s[p..] == Show(UnaryMinus(UnaryMinusOperator, x)) + rest
    ensures p + 1 < |s| && s[p] == '-' && !IsWhitespace(s[p + 1]) && s[p + 1..] == Show(x) + rest
  {
    assert s[p..] == "-" + (Show(x) + rest);
    FirstAt(s, p, "-" + (Show(x) + rest));
    DropPrefix(s, p, "-", Show(x) + rest);
    ShowStart(x);
    FirstAt(s, p + 1, Show(x) + rest);
  }

  /** The pieces of "(" + y + [c] + u + ")" + rest occurring from p. */
  lemma Wrapped(s: string, p: nat, y: string, c: char, u: string, rest: string)
    requires p <= |s| && s[p..] == "(" + y + [c] + u + ")" + rest
    ensures p < |s| && s[p] == '('
    ensures s[p + 1..] == y + ([c] + u + ")" + rest)
    ensures p + 1 + |y| < |s| && s[p + 1 + |y|] == c
    ensures s[p + 2 + |y|..] == u + (")" + rest)
    ensures p + 2 + |y| + |u| < |s| && s[p + 2 + |y| + |u|] == ')'
  {
    var t := [c] + u + ")" + rest;
    assert s[p..] == "(" + (y + t);
    FirstAt(s, p, "(" + (y + t));
    DropPrefix(s, p, "(", y + t);
    DropPrefix(s, p + 1, y, t);
    assert t == [c] + (u + (")" + rest));
    FirstAt(s, p + 1 + |y|, t);
    DropPrefix(s, p + 1 + |y|, [c], u + (")" + rest));
    DropPrefix(s, p + 2 + |y|, u, ")" + rest);
    FirstAt(s, p + 2 + |y| + |u|, ")" + rest);
  }

  /** The written form of a binary operation opens with '(' and then
      holds the left operand followed by the operator. */
  lemma LeftParts(s: string, p: nat, a: Expression, op: Operator, b: Expression, rest: string)
    requires op != UnaryMinusOperator
    requires p <= |s| && s[p..] == Show(ArithmeticExpression(a, op, b)) + rest
    ensures p < |s| && s[p] == '('
    ensures s[p + 1..] == Show(a) + (op.Symbol() + Show(b) + ")" + rest)
    ensures Follows(op.Symbol() + Show(b) + ")" + rest)
  {
    var c := op.Symbol()[0];
    assert op.Symbol() == [c];
    Wrapped(s, p, Show(a), c, Show(b), rest);
    SymbolOperator(op);
  }

  /** The right operand of a written binary operation starts after the
      operator at m. */
  lemma RightOperandAt(s: string, p: nat, a: Expression, op: Operator, b: Expression, rest: string, m: nat)
    requires op != UnaryMinusOperator
    requires p <= |s| && s[p..] == Show(ArithmeticExpression(a, op, b)) + rest
    requires m == p + 1 + |Show(a)|
    ensures m + 1 <= |s| && s[m + 1..] == Show(b) + (")" + rest)
  {
    var c := op.Symbol()[0];
    assert op.Symbol() == [c];
    Wrapped(s, p, Show(a), c, Show(b), rest);
  }

  /** After the left operand of a written binary operation come the
      operator at m, the right operand and the ')' at q. */
  lemma RightParts(s: string, p: nat, a: Expression, op: Operator, b: Expression, rest: string, m: nat, q: nat)
    requires WellFormed(ArithmeticExpression(a, op, b))
    requires p <= |s| && s[p..] == Show(ArithmeticExpression(a, op, b)) + rest
    requires m == p + 1 + |Show(a)| && q == m + 1 + |Show(b)|
    ensures OperatorAtPos(s, m, op)
    ensures m + 1 <= |s| && s[m + 1..] == Show(b) + (")" + rest)
    ensures q < |s| && s[q] == ')'
    ensures q + 1 == p + |Show(ArithmeticExpression(a, op, b))|
  {
    var c := op.Symbol()[0];
    assert op.Symbol() == [c];
    Wrapped(s, p, Show(a), c, Show(b), rest);
    ShowStart(b);
    FirstAt(s, m + 1, Show(b) + (")" + rest));
  }

  /** parsePrimary reads '(' a op b ')' once it reads both operands. */
  lemma ParensOfOperands(s: string, p: nat, a: Expression, op: Operator, b: Expression, m: nat, q: nat)
    requires p < |s| && s[p] == '(' && Unary(s, p + 1) == Ok(a, m)
    requires OperatorAtPos(s, m, op) && Unary(s, m + 1) == Ok(b, q)
    requires q < |s| && s[q] == ')'
    ensures Unary(s, p) == Ok(ArithmeticExpression(a, op, b), q + 1)
  {
    ClimbPair(s, a, op, b, m, q);
    ParensPair(s, p, a, op, b, m, q);
  }

  /** parseUnaryOp reads exactly the written form of e, when an operator, a
      ')' or the end follows it. */
  lemma {:induction false} UnaryShow(s: string, p: nat, e: Expression, rest: string)
    requires WellFormed(e) && Follows(rest)
    requires p <= |s| && s[p..] == Show(e) + rest
    ensures Unary(s, p) == Ok(e, p + |Show(e)|)
    decreases e, 2
  {
    match e
    case Number(l) =>
      ShowNumber(s, p, l, rest);
    case UnaryMinus(_, x) =>
      UnaryShowMinus(s, p, x, rest);
    case ArithmeticExpression(a, op, b) =>
      UnaryShowParens(s, p, a, op, b, rest);
  }

  lemma {:induction false} UnaryShowMinus(s: string, p: nat, x: Expression, rest: string)
    requires WellFormed(x) && Follows(rest)
    requires p <= |s| && s[p..] == Show(UnaryMinus(UnaryMinusOperator, x)) + rest
    ensures Unary(s, p) == Ok(UnaryMinus(UnaryMinusOperator, x), p + |Show(UnaryMinus(UnaryMinusOperator, x))|)
    decreases x, 3
  {
    MinusParts(s, p, x, rest);
    UnaryShow(s, p + 1, x, rest);
    UnaryOfMinus(s, p, x, p + 1 + |Show(x)|);
  }

  lemma {:induction false} UnaryShowParens(s: string, p: nat, a: Expression, op: Operator, b: Expression, rest: string)
    requires WellFormed(ArithmeticExpression(a, op, b)) && Follows(rest)
    requires p <= |s| && s[p..] == Show(ArithmeticExpression(a, op, b)) + rest
    ensures Unary(s, p) == Ok(ArithmeticExpression(a, op, b), p + |Show(ArithmeticExpression(a, op, b))|)
    decreases ArithmeticExpression(a, op, b), 1
  {
    var m := p + 1 + |Show(a)|;
    var q := m + 1 + |Show(b)|;
    LeftParts(s, p, a, op, b, rest);
    RightOperandAt(s, p, a, op, b, rest, m);
    LeftOperand(s, a, op, b, p + 1, op.Symbol() + Show(b) + ")" + rest);
    RightOperand(s, a, op, b, m, ")" + rest);
    ParensOfShown(s, p, a, op, b, rest, m, q);
  }

  /** The left operand of a written binary operation is read. */
  lemma {:induction false} LeftOperand(s: string, a: Expression, op: Operator, b: Expression, pa: nat, afterA: string)
    requires WellFormed(a) && Follows(afterA)
    requires pa <= |s| && s[pa..] == Show(a) + afterA
    ensures Unary(s, pa) == Ok(a, pa + |Show(a)|)
    decreases ArithmeticExpression(a, op, b), 0
  {
    UnaryShow(s, pa, a, afterA);
  }

  /** The right operand of a written binary operation is read. */
  lemma {:induction false} RightOperand(s: string, a: Expression, op: Operator, b: Expression, m: nat, afterB: string)
    requires WellFormed(b) && Follows(afterB)
    requires m + 1 <= |s| && s[m + 1..] == Show(b) + afterB
    ensures Unary(s, m + 1) == Ok(b, m + 1 + |Show(b)|)
    decreases ArithmeticExpression(a, op, b), 0
  {
    UnaryShow(s, m + 1, b, afterB);
  }

  /** The written form of a binary operation is read once both operands
      are. */
  lemma ParensOfShown(s: string, p: nat, a: Expression, op: Operator, b: Expression, rest: string, m: nat, q: nat)
    requires WellFormed(ArithmeticExpression(a, op, b))
    requires p <= |s| && s[p..] == Show(ArithmeticExpression(a, op, b)) + rest
    requires m == p + 1 + |Show(a)| && q == m + 1 + |Show(b)|
    requires Unary(s, p + 1) == Ok(a, m) && Unary(s, m + 1) == Ok(b, q)
    ensures Unary(s, p) == Ok(ArithmeticExpression(a, op, b), p + |Show(ArithmeticExpression(a, op, b))|)
  {
    LeftParts(s, p, a, op, b, rest);
    RightParts(s, p, a, op, b, rest, m, q);
    ParensOfOperands(s, p, a, op, b, m, q);
  }

  /** parse returns every well-formed expression from its written form. */
  lemma ParseShow(e: Expression)
    requires WellFormed(e)
    ensures Parsed(Show(e)) == Success(e)
  {
    var s := Show(e);
    assert s[0..] == s + [];
    UnaryShow(s, 0, e, []);
    BinaryAtClose(s, 0, 0, e, |s|);
  }
}
