module ExpressionForms {
  import opened Wrappers
  import opened ExpressionParser

  /** A lexeme parseNumber reads and toDouble accepts: a digit, then digits
      and dots, with at most one dot. */
  predicate NumberLexeme(l: string)
  {
    |l| > 0 && IsDigit(l[0]) && (forall i | 0 <= i < |l| :: IsNumberChar(l[i])) && ToDoubleAccepts(l)
  }

  /** How many nodes of e the parser never builds: a number whose lexeme
      it does not accept, a binary operation on UNARY_MINUS, or a negation
      tagged with another operator. */
  function Faults(e: Expression): nat
  {
    match e
    case Number(l) => if NumberLexeme(l) then 0 else 1
    case ArithmeticExpression(a, op, b) => (if op == UnaryMinusOperator then 1 else 0) + Faults(a) + Faults(b)
    case UnaryMinus(op, x) => (if op == UnaryMinusOperator then 0 else 1) + Faults(x)
  }

  /** The expressions the parser builds. */
  predicate WellFormed(e: Expression)
  {
    Faults(e) == 0
  }

  /** The expression written out with every binary operation in parentheses. */
  function Show(e: Expression): string
  {
    match e
    case Number(l) => l
    case ArithmeticExpression(a, op, b) => "(" + Show(a) + op.Symbol() + Show(b) + ")"
    case UnaryMinus(_, x) => "-" + Show(x)
  }

  /** Every expression the parser builds is well-formed: parse succeeds
      only with a WellFormed expression. */
  lemma ParsedWellFormed(s: string)
    ensures Parsed(s).Success? ==> WellFormed(Parsed(s).value)
  {
    BinaryWellFormed(s, 0, 0);
  }

  /** parseNumber's lexeme, when toDouble accepts it, is a NumberLexeme. */
  lemma NumberWellFormed(s: string, q: nat)
    requires q < |s| && IsDigit(s[q])
    ensures NumberFrom(s, q).Ok? ==> WellFormed(NumberFrom(s, q).expr)
  {
    NumberEndStops(s, q);
    var l := s[q..NumberEnd(s, q)];
    assert forall i | 0 <= i < |l| :: l[i] == s[q + i];
  }

  lemma {:induction false} PrimaryWellFormed(s: string, p: nat)
    requires p <= |s|
    ensures Primary(s, p).Ok? ==> WellFormed(Primary(s, p).expr)
    decreases |s| - p, 0
  {
    var q := SkipWs(s, p);
    if PeekAt(s, q) == '(' {
      BinaryWellFormed(s, q + 1, 0);
    } else if IsDigit(PeekAt(s, q)) {
      NumberWellFormed(s, q);
    }
  }

  lemma {:induction false} UnaryWellFormed(s: string, p: nat)
    requires p <= |s|
    ensures Unary(s, p).Ok? ==> WellFormed(Unary(s, p).expr)
    decreases |s| - p, 1
  {
    var peeked := PeekOp(s, SkipWs(s, p));
    if peeked.0 == Some(Minus) {
      UnaryWellFormed(s, SkipWs(s, peeked.1 + |Minus.Symbol()|));
    } else {
      PrimaryWellFormed(s, peeked.1);
    }
  }

  lemma {:induction false} BinaryWellFormed(s: string, p: nat, minPrecedence: int)
    requires p <= |s|
    ensures Binary(s, p, minPrecedence).Ok? ==> WellFormed(Binary(s, p, minPrecedence).expr)
    decreases |s| - p, 2
  {
    UnaryWellFormed(s, p);
    var first := Unary(s, p);
    if first.Ok? {
      ClimbWellFormed(s, first.expr, first.next, minPrecedence);
    }
  }

  lemma {:induction false} ClimbWellFormed(s: string, left: Expression, p: nat, minPrecedence: int)
    requires p <= |s| && WellFormed(left)
    ensures Climb(s, left, p, minPrecedence).Ok? ==> WellFormed(Climb(s, left, p, minPrecedence).expr)
    decreases |s| - p, 0
  {
    var peeked := PeekOp(s, p);
    if peeked.0.Some? && peeked.0.value.Precedence() >= minPrecedence {
      var op := peeked.0.value;
      assert op != UnaryMinusOperator;
      var q := SkipWs(s, peeked.1 + |op.Symbol()|);
      BinaryWellFormed(s, q, RightPrecedence(op));
      var right := Binary(s, q, RightPrecedence(op));
      if right.Ok? {
        ClimbWellFormed(s, ArithmeticExpression(left, op, right.expr), right.next, minPrecedence);
      }
    }
  }
}
