/** The arithmetic expression parser of the Kotlin example: precedence
    climbing over a string with a mutable cursor. The functions below give
    the result of each parsing routine from a position, as the position it
    leaves and the expression or the exception it throws; the Parser class
    is the cursor-based code, proved to follow them. Numbers keep their
    lexeme (the conversion to a double is not modelled). */
module ExpressionParser {
  import opened Wrappers

  /** Expression.Operator, in declaration order. */
  datatype Operator = Plus | Minus | Times | Div | Pow | UnaryMinusOperator
  {
    function Symbol(): (s: string)
      ensures |s| == 1
    {
      match this
      case Plus => "+"
      case Minus => "-"
      case Times => "*"
      case Div => "/"
      case Pow => "^"
      case UnaryMinusOperator => "-"
    }

    function Precedence(): nat
    {
      match this
      case Plus => 1
      case Minus => 1
      case Times => 2
      case Div => 2
      case Pow => 3
      case UnaryMinusOperator => 4
    }
  }

  /** Operator.values(). */
  const Operators: seq<Operator> := [Plus, Minus, Times, Div, Pow, UnaryMinusOperator]

  datatype Expression =
    | Number(lexeme: string)
    | ArithmeticExpression(left: Expression, operator: Operator, right: Expression)
    | UnaryMinus(operator: Operator, expr: Expression)

  /** The IllegalArgumentExceptions parse throws, and the
      NumberFormatException of the conversion of a number. */
  datatype ParseError =
    | UnexpectedCharacter(c: char, position: nat)
    | ExpectedClosingParenthesis(position: nat)
    | MalformedNumber(lexeme: string)

  /** The first of ops whose symbol is `symbol`. */
  function FindSymbol(ops: seq<Operator>, symbol: string): (r: Option<Operator>)
    ensures r.None? <==> forall i | 0 <= i < |ops| :: ops[i].Symbol() != symbol
    ensures r.Some? ==>
      exists i | 0 <= i < |ops| :: (ops[i] == r.value && ops[i].Symbol() == symbol &&
        forall j | 0 <= j < i :: ops[j].Symbol() != symbol)
  {
    if ops == [] then None
    else if ops[0].Symbol() == symbol then Some(ops[0])
    else
      var r := FindSymbol(ops[1..], symbol);
      assert forall i | 0 < i < |ops| :: ops[i] == ops[1..][i - 1];
      r
  }

  /** Operator.fromSymbol. */
  function FromSymbol(symbol: string): (r: Option<Operator>)
    ensures r.Some? ==> r.value.Symbol() == symbol
    ensures r.None? <==> forall i | 0 <= i < |Operators| :: Operators[i].Symbol() != symbol
  {
    FindSymbol(Operators, symbol)
  }

  /** fromSymbol inverts symbol, except that "-" always names the binary
      MINUS, which comes first. */
  lemma FromSymbolOfSymbol(op: Operator)
    ensures FromSymbol(op.Symbol()) == Some(if op == UnaryMinusOperator then Minus else op)
  {
    var r := FromSymbol(op.Symbol());
    var k := match op case Plus => 0 case Minus => 1 case Times => 2 case Div => 3 case Pow => 4
      case UnaryMinusOperator => 5;
    assert Operators[k] == op;
    var i :| 0 <= i < |Operators| && Operators[i] == r.value && Operators[i].Symbol() == op.Symbol() &&
      forall j | 0 <= j < i :: Operators[j].Symbol() != op.Symbol();
    assert i <= k;
    if op == Minus || op == UnaryMinusOperator {
      assert Operators[1].Symbol() == op.Symbol();
      assert i <= 1;
    }
  }

  /** Char.isWhitespace: the ASCII controls tab to carriage return and file
      to unit separator, and the Unicode space, line and paragraph
      separators. */
  predicate IsWhitespace(c: char)
  {
    ('\t' <= c <= '\r') || ('\U{1C}' <= c <= ' ') || c == '\U{A0}' || c == '\U{1680}' ||
    ('\U{2000}' <= c <= '\U{200A}') || c == '\U{2028}' || c == '\U{2029}' || c == '\U{202F}' ||
    c == '\U{205F}' || c == '\U{3000}'
  }

  predicate IsDigit(c: char)
  {
    '0' <= c <= '9'
  }

  predicate IsNumberChar(c: char)
  {
    IsDigit(c) || c == '.'
  }

  /** peek: the character at p, or NUL past the end. */
  function PeekAt(s: string, p: nat): (c: char)
    ensures c != '\0' ==> p < |s|
  {
    if p < |s| then s[p] else '\0'
  }

  /** The position skipWhitespace leaves: the first non-whitespace at or
      after p. */
  function SkipWs(s: string, p: nat): (q: nat)
    requires p <= |s|
    ensures p <= q <= |s|
    decreases |s| - p
  {
    if p < |s| && IsWhitespace(s[p]) then SkipWs(s, p + 1) else p
  }

  /** What skipWhitespace passes over is whitespace, and it stops at the
      end or at a character that is not. */
  lemma {:induction false} SkipWsSkips(s: string, p: nat)
    requires p <= |s|
    ensures forall i | p <= i < SkipWs(s, p) :: IsWhitespace(s[i])
    ensures SkipWs(s, p) == |s| || !IsWhitespace(s[SkipWs(s, p)])
    decreases |s| - p
  {
    if p < |s| && IsWhitespace(s[p]) {
      SkipWsSkips(s, p + 1);
    }
  }

  /** input.startsWith(symbol, p). */
  predicate StartsWithAt(s: string, symbol: string, p: nat)
  {
    p + |symbol| <= |s| && s[p..p + |symbol|] == symbol
  }

  /** The first of ops whose symbol starts at p. */
  function FindOp(s: string, p: nat, ops: seq<Operator>): (r: Option<Operator>)
    ensures r.None? <==> forall i | 0 <= i < |ops| :: !StartsWithAt(s, ops[i].Symbol(), p)
    ensures r.Some? ==>
      StartsWithAt(s, r.value.Symbol(), p) &&
      exists i | 0 <= i < |ops| :: (ops[i] == r.value && forall j | 0 <= j < i :: !StartsWithAt(s, ops[j].Symbol(), p))
  {
    if ops == [] then None
    else if StartsWithAt(s, ops[0].Symbol(), p) then Some(ops[0])
    else
      var r := FindOp(s, p, ops[1..]);
      assert forall i | 0 < i < |ops| :: ops[i] == ops[1..][i - 1];
      r
  }

  lemma FindOpFirst(s: string, p: nat, ops: seq<Operator>, i: nat)
    requires i < |ops| && StartsWithAt(s, ops[i].Symbol(), p)
    requires forall j | 0 <= j < i :: !StartsWithAt(s, ops[j].Symbol(), p)
    ensures FindOp(s, p, ops) == Some(ops[i])
  {
    if i > 0 {
      FindOpFirst(s, p, ops[1..], i - 1);
    }
  }

  /** The operator whose one-character symbol is c, the binary MINUS for
      '-' (it comes before UNARY_MINUS in declaration order). */
  function OperatorOfChar(c: char): Option<Operator>
  {
    match c
    case '+' => Some(Plus)
    case '-' => Some(Minus)
    case '*' => Some(Times)
    case '/' => Some(Div)
    case '^' => Some(Pow)
    case _ => None
  }

  /** The operator found at q: that of the character there. */
  function OperatorAt(s: string, q: nat): Option<Operator>
  {
    if q < |s| then OperatorOfChar(s[q]) else None
  }

  /** A one-character symbol starts at q exactly when it is the character
      there. */
  lemma StartsWithOne(s: string, symbol: string, q: nat)
    requires |symbol| == 1
    ensures StartsWithAt(s, symbol, q) <==> q < |s| && s[q] == symbol[0]
  {
    if q < |s| {
      assert s[q..q + 1] == [s[q]];
    }
  }

  /** Searching the symbols in declaration order finds the operator of the
      character at q; MINUS shadows UNARY_MINUS, which is never found. */
  lemma FindOpAt(s: string, q: nat)
    ensures FindOp(s, q, Operators) == OperatorAt(s, q)
    ensures FindOp(s, q, Operators) != Some(UnaryMinusOperator)
  {
    forall i | 0 <= i < |Operators|
      ensures StartsWithAt(s, Operators[i].Symbol(), q) <==> q < |s| && s[q] == Operators[i].Symbol()[0]
    {
      StartsWithOne(s, Operators[i].Symbol(), q);
    }
    var i := if q >= |s| then 6 else match s[q] case '+' => 0 case '-' => 1 case '*' => 2 case '/' => 3
      case '^' => 4 case _ => 6;
    if i < 6 {
      FindOpFirst(s, q, Operators, i);
    }
  }

  /** peekOperator: the operator found after the whitespace at p, and the
      position after that whitespace. */
  function PeekOp(s: string, p: nat): (r: (Option<Operator>, nat))
    requires p <= |s|
    ensures r.1 == SkipWs(s, p)
    ensures r.0.Some? ==> r.1 + |r.0.value.Symbol()| <= |s|
  {
    var q := SkipWs(s, p);
    (OperatorAt(s, q), q)
  }

  /** The end of the longest run of digits and dots from p. */
  function NumberEnd(s: string, p: nat): (q: nat)
    requires p <= |s|
    ensures p <= q <= |s|
    decreases |s| - p
  {
    if p < |s| && IsNumberChar(s[p]) then NumberEnd(s, p + 1) else p
  }

  /** parseNumber's run holds only number characters and stops at the
      first other character or at the end. */
  lemma {:induction false} NumberEndStops(s: string, p: nat)
    requires p <= |s|
    ensures forall i | p <= i < NumberEnd(s, p) :: IsNumberChar(s[i])
    ensures NumberEnd(s, p) == |s| || !IsNumberChar(s[NumberEnd(s, p)])
    decreases |s| - p
  {
    if p < |s| && IsNumberChar(s[p]) {
      NumberEndStops(s, p + 1);
    }
  }

  /** String.toDouble on a run of digits and dots that starts with a digit:
      accepted exactly when it has at most one dot. */
  predicate ToDoubleAccepts(lexeme: string)
  {
    multiset(lexeme)['.'] <= 1
  }

  /** A parsing routine's outcome from a position: the expression and the
      position it leaves, or the exception. */
  datatype Outcome =
    | Ok(expr: Expression, next: nat)
    | Throws(error: ParseError)

  /** parseNumber from p. */
  function NumberFrom(s: string, p: nat): (r: Outcome)
    requires p <= |s|
  {
    var q := NumberEnd(s, p);
    if ToDoubleAccepts(s[p..q]) then Ok(Number(s[p..q]), q) else Throws(MalformedNumber(s[p..q]))
  }

  /** The rest of parsePrimary after a parenthesised expression: the
      closing parenthesis after optional whitespace. */
  function CloseParen(s: string, inner: Outcome): (r: Outcome)
    requires inner.Ok? ==> inner.next <= |s|
    ensures r.Ok? ==> inner.Ok? && inner.next < r.next <= |s|
  {
    if inner.Throws? then inner
    else
      var q := SkipWs(s, inner.next);
      if PeekAt(s, q) != ')' then Throws(ExpectedClosingParenthesis(q)) else Ok(inner.expr, q + 1)
  }

  /** parsePrimary from p. */
  function Primary(s: string, p: nat): (r: Outcome)
    requires p <= |s|
    ensures r.Ok? ==> p < r.next <= |s|
    decreases |s| - p, 0
  {
    var q := SkipWs(s, p);
    if PeekAt(s, q) == '(' then CloseParen(s, Binary(s, q + 1, 0))
    else if IsDigit(PeekAt(s, q)) then NumberFrom(s, q)
    else Throws(UnexpectedCharacter(PeekAt(s, q), q))
  }

  /** parseUnaryOp from p. */
  function Unary(s: string, p: nat): (r: Outcome)
    requires p <= |s|
    ensures r.Ok? ==> p < r.next <= |s|
    decreases |s| - p, 1
  {
    var peeked := PeekOp(s, SkipWs(s, p));
    if peeked.0 == Some(Minus) then
      var operand := Unary(s, SkipWs(s, peeked.1 + |Minus.Symbol()|));
      if operand.Throws? then operand
      else Ok(UnaryMinus(UnaryMinusOperator, operand.expr), operand.next)
    else
      Primary(s, peeked.1)
  }

  /** parseBinaryOp(minPrecedence) from p. */
  function Binary(s: string, p: nat, minPrecedence: int): (r: Outcome)
    requires p <= |s|
    ensures r.Ok? ==> p < r.next <= |s|
    decreases |s| - p, 2
  {
    var first := Unary(s, p);
    if first.Throws? then first else Climb(s, first.expr, first.next, minPrecedence)
  }

  /** The right operand's minimum precedence: ^ is right-associative, the
      others left-associative. */
  function RightPrecedence(op: Operator): int
  {
    if op == Pow then op.Precedence() else op.Precedence() + 1
  }

  /** The right operand of `op` read at q: parsed after the symbol and the
      whitespace that follows it, at the operator's right precedence. */
  function OperandAfter(s: string, q: nat, op: Operator): Outcome
    requires q + |op.Symbol()| <= |s|
  {
    Binary(s, SkipWs(s, q + |op.Symbol()|), RightPrecedence(op))
  }

  /** The loop of parseBinaryOp from p with `left` parsed so far. */
  function Climb(s: string, left: Expression, p: nat, minPrecedence: int): (r: Outcome)
    requires p <= |s|
    ensures r.Ok? ==> p <= r.next <= |s|
    decreases |s| - p, 0
  {
    var peeked := PeekOp(s, p);
    if peeked.0.None? || peeked.0.value.Precedence() < minPrecedence then Ok(left, peeked.1)
    else
      var op := peeked.0.value;
      var right := Binary(s, SkipWs(s, peeked.1 + |op.Symbol()|), RightPrecedence(op));
      if right.Throws? then right
      else Climb(s, ArithmeticExpression(left, op, right.expr), right.next, minPrecedence)
  }

  /** One iteration of the loop of parseBinaryOp that consumes an operator:
      it fails with the right operand, or goes on with the combined left. */
  lemma ClimbStep(s: string, left: Expression, p: nat, minPrecedence: int, op: Operator, q: nat, right: Outcome)
    requires p <= |s| && PeekOp(s, p) == (Some(op), q) && op.Precedence() >= minPrecedence
    requires q + |op.Symbol()| <= |s|
    requires right == Binary(s, SkipWs(s, q + |op.Symbol()|), RightPrecedence(op))
    ensures right.Throws? ==> Climb(s, left, p, minPrecedence) == right
    ensures right.Ok? ==>
      Climb(s, left, p, minPrecedence) == Climb(s, ArithmeticExpression(left, op, right.expr), right.next, minPrecedence)
  {
    assert Climb(s, left, p, minPrecedence) ==
      if right.Throws? then right else Climb(s, ArithmeticExpression(left, op, right.expr), right.next, minPrecedence);
  }

  lemma ClimbStop(s: string, left: Expression, p: nat, minPrecedence: int)
    requires p <= |s|
    requires PeekOp(s, p).0.None? || PeekOp(s, p).0.value.Precedence() < minPrecedence
    ensures Climb(s, left, p, minPrecedence) == Ok(left, PeekOp(s, p).1)
  {
  }

  /** parse: the whole input must be consumed. */
  function Parsed(s: string): (r: Result<Expression, ParseError>)
  {
    match Binary(s, 0, 0)
    case Throws(e) => Failure(e)
    case Ok(e, q) => if q < |s| then Failure(UnexpectedCharacter(s[q], q)) else Success(e)
  }

  /** An outcome without its position. */
  function Value(r: Outcome): Result<Expression, ParseError>
  {
    match r
    case Throws(e) => Failure(e)
    case Ok(e, _) => Success(e)
  }

  /** Parser(input): the input and the cursor. */
  class Parser {
    const input: string
    var pos: nat

    ghost predicate Valid()
      reads this
    {
      pos <= |input|
    }

    constructor (input: string)
      ensures this.input == input && pos == 0 && Valid()
    {
      this.input := input;
      pos := 0;
    }

    method SkipWhitespace()
      requires Valid()
      modifies this
      ensures Valid() && pos == SkipWs(input, old(pos))
    {
      while pos < |input| && IsWhitespace(input[pos])
        invariant Valid() && old(pos) <= pos
        invariant SkipWs(input, pos) == SkipWs(input, old(pos))
        decreases |input| - pos
      {
        pos := pos + 1;
      }
    }

    /** The first operator in declaration order whose symbol starts at the
        cursor, after skipping whitespace. */
    method PeekOperator() returns (op: Option<Operator>)
      requires Valid()
      modifies this
      ensures Valid() && (op, pos) == PeekOp(input, old(pos))
    {
      SkipWhitespace();
      for i := 0 to |Operators|
        invariant Valid() && pos == SkipWs(input, old(pos))
        invariant forall j | 0 <= j < i :: !StartsWithAt(input, Operators[j].Symbol(), pos)
      {
        if StartsWithAt(input, Operators[i].Symbol(), pos) {
          FindOpFirst(input, pos, Operators, i);
          FindOpAt(input, pos);
          return Some(Operators[i]);
        }
      }
      FindOpAt(input, pos);
      return None;
    }

    method ParseNumber() returns (r: Result<Expression, ParseError>)
      requires Valid()
      modifies this
      ensures Valid() && pos == NumberEnd(input, old(pos))
      ensures r == Value(NumberFrom(input, old(pos)))
    {
      var start := pos;
      while pos < |input| && (IsDigit(input[pos]) || input[pos] == '.')
        invariant Valid() && start <= pos
        invariant NumberEnd(input, pos) == NumberEnd(input, start)
        decreases |input| - pos
      {
        pos := pos + 1;
      }
      var numberStr := input[start..pos];
      if ToDoubleAccepts(numberStr) {
        r := Success(Number(numberStr));
      } else {
        r := Failure(MalformedNumber(numberStr));
      }
    }

    method ParsePrimary() returns (r: Result<Expression, ParseError>)
      requires Valid()
      modifies this
      ensures Valid() && old(pos) <= pos
      ensures r == Value(Primary(input, old(pos)))
      ensures r.Success? ==> pos == Primary(input, old(pos)).next
      decreases |input| - pos, 0
    {
      ghost var start := pos;
      SkipWhitespace();
      if PeekAt(input, pos) == '(' {
        ghost var b := Binary(input, pos + 1, 0);
        assert Primary(input, start) == CloseParen(input, b);
        pos := pos + 1;
        var inner := ParseExpression();
        if inner.Failure? {
          return inner;
        }
        SkipWhitespace();
        if PeekAt(input, pos) != ')' {
          return Failure(ExpectedClosingParenthesis(pos));
        }
        pos := pos + 1;
        return inner;
      } else if IsDigit(PeekAt(input, pos)) {
        assert Primary(input, start) == NumberFrom(input, pos);
        r := ParseNumber();
      } else {
        return Failure(UnexpectedCharacter(PeekAt(input, pos), pos));
      }
    }

    method ParseUnaryOp() returns (r: Result<Expression, ParseError>)
      requires Valid()
      modifies this
      ensures Valid() && old(pos) <= pos
      ensures r == Value(Unary(input, old(pos)))
      ensures r.Success? ==> pos == Unary(input, old(pos)).next
      decreases |input| - pos, 1
    {
      ghost var start := pos;
      SkipWhitespace();
      ghost var here := pos;
      var op := PeekOperator();
      ghost var peeked := PeekOp(input, here);
      assert op == peeked.0 && pos == peeked.1;
      if op == Some(Minus) {
        var after := pos + |op.value.Symbol()|;
        pos := after;
        SkipWhitespace();
        assert pos == SkipWs(input, after);
        ghost var operandOutcome := Unary(input, pos);
        assert Unary(input, start) == if operandOutcome.Throws? then operandOutcome
          else Ok(UnaryMinus(UnaryMinusOperator, operandOutcome.expr), operandOutcome.next);
        var operand := ParseUnaryOp();
        if operand.Failure? {
          return operand;
        }
        return Success(UnaryMinus(UnaryMinusOperator, operand.value));
      }
      assert Unary(input, start) == Primary(input, pos);
      r := ParsePrimary();
    }

    /** The body of the loop of parseBinaryOp after an operator is peeked:
        consume it and the whitespace after it, then parse the right operand
        with the precedence that makes ^ right-associative. */
    method ParseRightOperand(op: Operator) returns (right: Result<Expression, ParseError>)
      requires Valid() && pos + |op.Symbol()| <= |input|
      modifies this
      ensures Valid() && old(pos) < pos
      ensures right == Value(OperandAfter(input, old(pos), op))
      ensures right.Success? ==> pos == OperandAfter(input, old(pos), op).next
      decreases |input| - pos, 3
    {
      ghost var start := pos;
      var after := pos + |op.Symbol()|;
      pos := after;
      SkipWhitespace();
      assert pos == SkipWs(input, after);
      ghost var operand := Binary(input, pos, RightPrecedence(op));
      assert operand == OperandAfter(input, start, op);
      if op == Pow {
        right := ParseBinaryOp(op.Precedence());
      } else {
        right := ParseBinaryOp(op.Precedence() + 1);
      }
    }

    /** One iteration of the loop of parseBinaryOp with `left` parsed so
        far: stop before a missing or weaker operator, or consume it and
        its right operand, or throw what parsing the operand throws. */
    method ParseOperator(left: Expression, minPrecedence: int) returns (stop: bool, next: Result<Expression, ParseError>)
      requires Valid()
      modifies this
      ensures Valid() && old(pos) <= pos
      ensures stop ==> next == Value(Climb(input, left, old(pos), minPrecedence))
      ensures stop && next.Success? ==> pos == Climb(input, left, old(pos), minPrecedence).next
      ensures !stop ==> old(pos) < pos && next.Success?
      ensures !stop ==> Climb(input, left, old(pos), minPrecedence) == Climb(input, next.value, pos, minPrecedence)
      decreases |input| - pos, 4
    {
      ghost var here := pos;
      var op := PeekOperator();
      if op.None? || op.value.Precedence() < minPrecedence {
        ClimbStop(input, left, here, minPrecedence);
        return true, Success(left);
      }
      ClimbStep(input, left, here, minPrecedence, op.value, pos, OperandAfter(input, pos, op.value));
      var right := ParseRightOperand(op.value);
      if right.Failure? {
        return true, right;
      }
      return false, Success(ArithmeticExpression(left, op.value, right.value));
    }

    method ParseBinaryOp(minPrecedence: int) returns (r: Result<Expression, ParseError>)
      requires Valid()
      modifies this
      ensures Valid() && old(pos) <= pos
      ensures r == Value(Binary(input, old(pos), minPrecedence))
      ensures r.Success? ==> pos == Binary(input, old(pos), minPrecedence).next
      decreases |input| - pos, 2
    {
      ghost var start := pos;
      var first := ParseUnaryOp();
      if first.Failure? {
        return first;
      }
      var left := first.value;
      ghost var climb := Binary(input, start, minPrecedence);
      while true
        invariant Valid() && start < pos
        invariant Climb(input, left, pos, minPrecedence) == climb
        decreases |input| - pos
      {
        var stop, next := ParseOperator(left, minPrecedence);
        if stop {
          return next;
        }
        left := next.value;
      }
    }

    method ParseExpression() returns (r: Result<Expression, ParseError>)
      requires Valid()
      modifies this
      ensures Valid() && old(pos) <= pos
      ensures r == Value(Binary(input, old(pos), 0))
      ensures r.Success? ==> pos == Binary(input, old(pos), 0).next
      decreases |input| - pos, 5
    {
      r := ParseBinaryOp(0);
    }

    method Parse() returns (r: Result<Expression, ParseError>)
      requires Valid() && pos == 0
      modifies this
      ensures r == Parsed(input)
    {
      var expr := ParseExpression();
      if expr.Failure? {
        return expr;
      }
      if pos < |input| {
        return Failure(UnexpectedCharacter(input[pos], pos));
      }
      return expr;
    }
  }

  /** parseArithmeticExpression. */
  method ParseArithmeticExpression(expression: string) returns (r: Result<Expression, ParseError>)
    ensures r == Parsed(expression)
  {
    var parser := new Parser(expression);
    r := parser.Parse();
  }
}
