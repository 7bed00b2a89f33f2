/** The two-stack expression parser of src/codegen/inja.hpp: what one turn of
    Parser::parse_expression does, as functions on the parser's state. */
module InjaMachine {

  datatype Option<+T> = None | Some(value: T)

  datatype Infix = And | Or | In | Equal | NotEqual | Greater | GreaterEqual | Less | LessEqual
                 | Add | Subtract | Multiplication | Division | Power | Modulo | AtId

  /** The operation of a FunctionNode; an opening parenthesis is one too. */
  datatype Op = Binary(infix: Infix) | Not | Paren | Call(name: string)

  function InfixPrecedence(i: Infix): nat {
    match i
    case And => 1
    case Or => 1
    case In => 2
    case Equal => 2
    case NotEqual => 2
    case Greater => 2
    case GreaterEqual => 2
    case Less => 2
    case LessEqual => 2
    case Add => 3
    case Subtract => 3
    case Multiplication => 4
    case Division => 4
    case Power => 5
    case Modulo => 4
    case AtId => 8
  }

  function Precedence(o: Op): nat {
    match o
    case Binary(i) => InfixPrecedence(i)
    case Not => 4
    case Paren => 1
    case Call(_) => 8
  }

  predicate LeftAssociative(o: Op) {
    o != Binary(Power)
  }

  datatype Token =
    | Text(text: string)        // String or Number
    | Id(name: string)
    | Symbol(infix: Infix)      // Equal, NotEqual, ..., Percent, Dot
    | LeftBracket | RightBracket | LeftBrace | RightBrace
    | LeftParen | RightParen | Comma | Colon

  datatype Expr =
    | Literal(tokens: seq<Token>)
    | Variable(name: string)
    | Node(op: Op, args: seq<Expr>)

  /** A FunctionNode on the operator stack, with number_args. */
  datatype Entry = Entry(op: Op, args: nat)

  /** An element of function_stack: where its node lies on the operator stack, and the
      parenthesis level of its call. */
  datatype Frame = Frame(index: nat, level: nat)

  datatype State = State(
    arguments: seq<Expr>,
    operators: seq<Entry>,      // the top is the last element
    functions: seq<Frame>,
    paren: nat,
    bracket: nat,
    brace: nat,
    literal: seq<Token>)        // the tokens since json_literal_start

  /** Error is a ParserError; Crash is what C++ leaves undefined: taking from an empty
      arguments vector, or a count kept in a node that is no longer on the stack. */
  datatype Outcome = Ok(state: State) | Error | Crash

  const SIZE_MAX: nat := 0xFFFF_FFFF_FFFF_FFFF

  const START := State([], [], [], 0, 0, 0, [])

  // ---------------------------------------------------------------- operators

  /** add_operator: the top operator takes its arguments and becomes one. */
  function AddOperator(s: State): Outcome
    requires s.operators != []
  {
    var e := s.operators[|s.operators| - 1];
    if e.args > |s.arguments| then Crash
    else
      var k := |s.arguments| - e.args;
      Ok(s.(arguments := s.arguments[..k] + [Node(e.op, s.arguments[k..])],
            operators := s.operators[..|s.operators| - 1]))
  }

  /** Why operators are taken off the stack. */
  datatype Cause = Arriving(op: Op) | Closing | Ending

  predicate Yields(e: Entry, c: Cause) {
    match c
    case Arriving(o) =>
      && (Precedence(e.op) > Precedence(o) || (Precedence(e.op) == Precedence(o) && LeftAssociative(o)))
      && e.op != Paren
    case Closing => e.op != Paren
    case Ending => true
  }

  function PopWhile(s: State, c: Cause): Outcome
    decreases |s.operators|
  {
    if s.operators == [] || !Yields(s.operators[|s.operators| - 1], c) then Ok(s)
    else
      match AddOperator(s)
      case Ok(s') => PopWhile(s', c)
      case Error => Error
      case Crash => Crash
  }

  // ---------------------------------------------------------------- one token

  function OperatorWord(name: string): Option<Op> {
    if name == "and" then Some(Binary(And))
    else if name == "or" then Some(Binary(Or))
    else if name == "in" then Some(Binary(In))
    else if name == "not" then Some(Not)
    else None
  }

  predicate LiteralWord(name: string) {
    name == "true" || name == "false" || name == "null"
  }

  predicate Plainly(s: State) {
    s.bracket == 0 && s.brace == 0
  }

  /** Pushes an operator once those that bind tighter have been applied. */
  function PushOperator(s: State, o: Op): Outcome {
    match PopWhile(s, Arriving(o))
    case Ok(s') => Ok(s'.(operators := s'.operators + [Entry(o, if o == Not then 1 else 2)]))
    case Error => Error
    case Crash => Crash
  }

  /** A scalar: an argument of its own unless inside an array or object. */
  function Scalar(s: State, t: Token): State {
    if Plainly(s) then s.(arguments := s.arguments + [Literal([t])]) else s.(literal := s.literal + [t])
  }

  function Open(s: State, t: Token): State {
    if Plainly(s) then s.(literal := [t]) else s.(literal := s.literal + [t])
  }

  function Close(s: State): State {
    if Plainly(s) then s.(arguments := s.arguments + [Literal(s.literal)]) else s
  }

  /** Changes number_args of the innermost open call. */
  function Recount(s: State, k: nat): Outcome
    requires s.functions != []
  {
    var i := s.functions[|s.functions| - 1].index;
    if i < |s.operators| && s.operators[i].op.Call? then Ok(s.(operators := s.operators[i := s.operators[i].(args := k)]))
    else Crash
  }

  function NextArgument(s: State): Outcome {
    if !Plainly(s) then Ok(s.(literal := s.literal + [Comma]))
    else if s.functions == [] then Error
    else
      var i := s.functions[|s.functions| - 1].index;
      if i < |s.operators| then Recount(s, s.operators[i].args + 1) else Crash
  }

  function OpenParen(s: State, closesAtOnce: bool): Outcome {
    var s' := s.(paren := s.paren + 1, operators := s.operators + [Entry(Paren, 1)]);
    if closesAtOnce && s.functions != [] && s.functions[|s.functions| - 1].level == s.paren
    then Recount(s', 0) else Ok(s')
  }

  /** Names and argument counts find_function knows. */
  type Known = set<(string, nat)>

  /** The end of a call, if the closed parenthesis is one's. */
  function EndCall(s: State, known: Known): Outcome {
    if s.functions == [] || s.functions[|s.functions| - 1].level != s.paren then Ok(s)
    else
      var i := s.functions[|s.functions| - 1].index;
      if i >= |s.operators| || !s.operators[i].op.Call? then Crash
      else if (s.operators[i].op.name, s.operators[i].args) !in known then Error
      else
        match AddOperator(s)
        case Ok(s') => Ok(s'.(functions := s'.functions[..|s'.functions| - 1]))
        case Error => Error
        case Crash => Crash
  }

  function CloseParen(s: State, known: Known): Outcome {
    var s0 := s.(paren := if s.paren == 0 then SIZE_MAX else s.paren - 1);
    match PopWhile(s0, Closing)
    case Error => Error
    case Crash => Crash
    case Ok(s1) =>
      var s2 := if s1.operators != [] && s1.operators[|s1.operators| - 1].op == Paren
                then s1.(operators := s1.operators[..|s1.operators| - 1]) else s1;
      EndCall(s2, known)
  }

  function Name(s: State, name: string, called: bool): Outcome {
    if LiteralWord(name) then Ok(Scalar(s, Id(name)))
    else
      match OperatorWord(name)
      case Some(o) => PushOperator(s, o)
      case None =>
        if called then
          Ok(s.(operators := s.operators + [Entry(Call(name), 1)],
                functions := s.functions + [Frame(|s.operators|, s.paren)]))
        else Ok(s.(arguments := s.arguments + [Variable(name)]))
  }

  /** One turn of the loop: ts are the tokens from the current one to the closing one. */
  function Step(s: State, ts: seq<Token>, known: Known): Outcome
    requires ts != []
  {
    match ts[0]
    case Text(_) => Ok(Scalar(s, ts[0]))
    case LeftBracket => Ok(Open(s, ts[0]).(bracket := s.bracket + 1))
    case LeftBrace => Ok(Open(s, ts[0]).(brace := s.brace + 1))
    case RightBracket =>
      if s.bracket == 0 then Error
      else Ok(Close(s.(bracket := s.bracket - 1, literal := s.literal + [ts[0]])))
    case RightBrace =>
      if s.brace == 0 then Error
      else Ok(Close(s.(brace := s.brace - 1, literal := s.literal + [ts[0]])))
    case Id(name) => Name(s, name, |ts| > 1 && ts[1] == LeftParen)
    case Symbol(i) => PushOperator(s, Binary(i))
    case Comma => NextArgument(s)
    case Colon => if Plainly(s) then Error else Ok(s.(literal := s.literal + [Colon]))
    case LeftParen => OpenParen(s, |ts| > 1 && ts[1] == RightParen)
    case RightParen => CloseParen(s, known)
  }

  function Run(s: State, ts: seq<Token>, known: Known): Outcome
    decreases |ts|
  {
    if ts == [] then Ok(s)
    else
      match Step(s, ts, known)
      case Ok(s') => Run(s', ts[1..], known)
      case Error => Error
      case Crash => Crash
  }

  /** What parse_expression leaves: an expression, none for no tokens at all, or failure. */
  datatype Parsed = Tree(expr: Expr) | Empty | Malformed | Undefined

  function Finish(o: Outcome): Parsed {
    match o
    case Error => Malformed
    case Crash => Undefined
    case Ok(s) =>
      match PopWhile(s, Ending)
      case Error => Malformed
      case Crash => Undefined
      case Ok(s') =>
        if |s'.arguments| == 1 then Tree(s'.arguments[0])
        else if s'.arguments == [] then Empty
        else Malformed
  }

  function Parse(ts: seq<Token>, known: Known): Parsed {
    Finish(Run(START, ts, known))
  }
}
