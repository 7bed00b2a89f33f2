/** Parser::parse_expression itself: the loop over tokens and the two loops that take
    operators off the stack, on the fields they update. */
module InjaParser {
  import opened InjaMachine
  import opened InjaSyntax
  import opened InjaRoundTrip

  /** Throws is a ParserError, Broken what C++ leaves undefined. */
  datatype Status = Fine | Throws | Broken

  /** The step that was specified is the step that was taken. */
  predicate Did(o: Outcome, st: Status, s: State) {
    match o
    case Ok(s') => st == Fine && s == s'
    case Error => st == Throws
    case Crash => st == Broken
  }

  lemma {:induction false} EndTakesAll(s: State)
    requires InjaMachine.PopWhile(s, Ending).Ok?
    ensures InjaMachine.PopWhile(s, Ending).state.operators == []
    decreases |s.operators|
  {
    if s.operators != [] { EndTakesAll(InjaMachine.AddOperator(s).state); }
  }

  class Parser {
    var arguments: seq<Expr>
    var operatorStack: seq<Entry>
    var functionStack: seq<Frame>
    var parenLevel: nat
    var bracketLevel: nat
    var braceLevel: nat
    var literal: seq<Token>
    const known: Known

    constructor (known: Known)
      ensures Snapshot() == START && this.known == known
    {
      arguments, operatorStack, functionStack := [], [], [];
      parenLevel, bracketLevel, braceLevel, literal := 0, 0, 0, [];
      this.known := known;
    }

    ghost function Snapshot(): State
      reads this
    {
      State(arguments, operatorStack, functionStack, parenLevel, bracketLevel, braceLevel, literal)
    }

    method AddOperator() returns (st: Status)
      requires operatorStack != []
      modifies this
      ensures Did(InjaMachine.AddOperator(old(Snapshot())), st, Snapshot())
    {
      var function_ := operatorStack[|operatorStack| - 1];
      operatorStack := operatorStack[..|operatorStack| - 1];
      var args, i := [], 0;
      ghost var s0 := old(Snapshot());
      ghost var xs, n := s0.arguments, |s0.arguments|;
      while i < function_.args
        invariant i <= function_.args && i <= n
        invariant args == xs[n - i..] && arguments == xs[..n - i]
        invariant Snapshot() == s0.(arguments := arguments, operators := operatorStack)
        invariant operatorStack == s0.operators[..|s0.operators| - 1]
      {
        if arguments == [] { return Broken; }
        args := [arguments[|arguments| - 1]] + args;
        arguments := arguments[..|arguments| - 1];
        i := i + 1;
      }
      arguments := arguments + [Node(function_.op, args)];
      return Fine;
    }

    method PopWhile(c: Cause) returns (st: Status)
      modifies this
      ensures Did(InjaMachine.PopWhile(old(Snapshot()), c), st, Snapshot())
    {
      st := Fine;
      while operatorStack != [] && Yields(operatorStack[|operatorStack| - 1], c)
        invariant st == Fine
        invariant InjaMachine.PopWhile(old(Snapshot()), c) == InjaMachine.PopWhile(Snapshot(), c)
        decreases |operatorStack|
      {
        ghost var before := Snapshot();
        st := AddOperator();
        if st != Fine { return; }
        assert Snapshot() == InjaMachine.AddOperator(before).state;
      }
    }

    method PushOperator(o: Op) returns (st: Status)
      modifies this
      ensures Did(InjaMachine.PushOperator(old(Snapshot()), o), st, Snapshot())
    {
      st := PopWhile(Arriving(o));
      if st == Fine {
        operatorStack := operatorStack + [Entry(o, if o == Not then 1 else 2)];
      }
    }

    method Open(t: Token)
      modifies this`literal
      ensures Snapshot() == InjaMachine.Open(old(Snapshot()), t)
    {
      if braceLevel == 0 && bracketLevel == 0 {
        literal := [t];
      } else {
        literal := literal + [t];
      }
    }

    /** add_json_literal, once no array or object is open. */
    method Close()
      modifies this`arguments
      ensures Snapshot() == InjaMachine.Close(old(Snapshot()))
    {
      if braceLevel == 0 && bracketLevel == 0 {
        arguments := arguments + [Literal(literal)];
      }
    }

    method Scalar(t: Token)
      modifies this
      ensures Snapshot() == InjaMachine.Scalar(old(Snapshot()), t)
    {
      if braceLevel == 0 && bracketLevel == 0 {
        arguments := arguments + [Literal([t])];
      } else {
        literal := literal + [t];
      }
    }

    method Name(name: string, called: bool) returns (st: Status)
      modifies this
      ensures Did(InjaMachine.Name(old(Snapshot()), name, called), st, Snapshot())
    {
      st := Fine;
      if LiteralWord(name) {
        Scalar(Id(name));
      } else if OperatorWord(name).Some? {
        st := PushOperator(OperatorWord(name).value);
      } else if called {
        functionStack := functionStack + [Frame(|operatorStack|, parenLevel)];
        operatorStack := operatorStack + [Entry(Call(name), 1)];
      } else {
        arguments := arguments + [Variable(name)];
      }
    }

    /** Changes number_args of the innermost open call. */
    method Recount(i: nat, k: nat) returns (st: Status)
      requires functionStack != [] && functionStack[|functionStack| - 1].index == i
      modifies this`operatorStack
      ensures Did(InjaMachine.Recount(old(Snapshot()), k), st, Snapshot())
    {
      if i < |operatorStack| && operatorStack[i].op.Call? {
        operatorStack := operatorStack[i := operatorStack[i].(args := k)];
        st := Fine;
      } else {
        st := Broken;
      }
    }

    method NextArgument() returns (st: Status)
      modifies this
      ensures Did(InjaMachine.NextArgument(old(Snapshot())), st, Snapshot())
    {
      if braceLevel != 0 || bracketLevel != 0 {
        literal := literal + [Comma];
        return Fine;
      }
      if functionStack == [] { return Throws; }
      var i := functionStack[|functionStack| - 1].index;
      if i >= |operatorStack| { return Broken; }
      st := Recount(i, operatorStack[i].args + 1);
    }

    method OpenParen(closesAtOnce: bool) returns (st: Status)
      modifies this
      ensures Did(InjaMachine.OpenParen(old(Snapshot()), closesAtOnce), st, Snapshot())
    {
      parenLevel := parenLevel + 1;
      operatorStack := operatorStack + [Entry(Paren, 1)];
      st := Fine;
      if closesAtOnce && functionStack != [] && functionStack[|functionStack| - 1].level == parenLevel - 1 {
        st := Recount(functionStack[|functionStack| - 1].index, 0);
      }
    }

    method EndCall() returns (st: Status)
      modifies this
      ensures Did(InjaMachine.EndCall(old(Snapshot()), known), st, Snapshot())
    {
      if functionStack == [] || functionStack[|functionStack| - 1].level != parenLevel { return Fine; }
      var i := functionStack[|functionStack| - 1].index;
      if i >= |operatorStack| || !operatorStack[i].op.Call? { return Broken; }
      if (operatorStack[i].op.name, operatorStack[i].args) !in known { return Throws; }
      st := AddOperator();
      if st == Fine {
        functionStack := functionStack[..|functionStack| - 1];
      }
    }

    method CloseParen() returns (st: Status)
      modifies this
      ensures Did(InjaMachine.CloseParen(old(Snapshot()), known), st, Snapshot())
    {
      parenLevel := if parenLevel == 0 then SIZE_MAX else parenLevel - 1;
      st := PopWhile(Closing);
      if st != Fine { return; }
      if operatorStack != [] && operatorStack[|operatorStack| - 1].op == Paren {
        operatorStack := operatorStack[..|operatorStack| - 1];
      }
      st := EndCall();
    }

    /** The body of the loop: tok is tokens[i] and peek_tok the one after it. */
    method Turn(tokens: seq<Token>, i: nat) returns (st: Status)
      requires i < |tokens|
      modifies this
      ensures Did(Step(old(Snapshot()), tokens[i..], known), st, Snapshot())
    {
      st := Fine;
      match tokens[i] {
        case Text(_) => Scalar(tokens[i]);
        case LeftBracket =>
          Open(tokens[i]);
          bracketLevel := bracketLevel + 1;
        case LeftBrace =>
          Open(tokens[i]);
          braceLevel := braceLevel + 1;
        case RightBracket =>
          if bracketLevel == 0 { return Throws; }
          bracketLevel, literal := bracketLevel - 1, literal + [tokens[i]];
          Close();
        case RightBrace =>
          if braceLevel == 0 { return Throws; }
          braceLevel, literal := braceLevel - 1, literal + [tokens[i]];
          Close();
        case Id(name) => st := Name(name, i + 1 < |tokens| && tokens[i + 1] == LeftParen);
        case Symbol(infix) => st := PushOperator(Binary(infix));
        case Comma => st := NextArgument();
        case Colon =>
          if braceLevel == 0 && bracketLevel == 0 { return Throws; }
          literal := literal + [Colon];
        case LeftParen => st := OpenParen(i + 1 < |tokens| && tokens[i + 1] == RightParen);
        case RightParen => st := CloseParen();
      }
    }

    /** tokens are those up to the closing token or the end of the template. */
    method ParseExpression(tokens: seq<Token>) returns (p: Parsed)
      requires Snapshot() == START
      modifies this
      ensures p == Parse(tokens, known)
      ensures forall x :: Sound(x, known) && Spelling(x) == tokens ==> p.Tree? && (p == Tree(Meaning(x)) <==> Apart(x))
      ensures p.Tree? || p.Empty? ==> arguments == [] && operatorStack == []
    {
      forall x | Sound(x, known) && Spelling(x) == tokens
        ensures Parse(tokens, known).Tree? && (Parse(tokens, known) == Tree(Meaning(x)) <==> Apart(x))
      {
        ParsesExactly(x, known);
      }
      hide Step, Sound, Spelling, Meaning, Apart, InjaMachine.PopWhile;
      var i, st := 0, Fine;
      while i < |tokens|
        invariant i <= |tokens| && st == Fine
        invariant Run(START, tokens, known) == Run(Snapshot(), tokens[i..], known)
      {
        assert tokens[i..][1..] == tokens[i + 1..];
        st := Turn(tokens, i);
        if st != Fine { return if st == Throws then Malformed else Undefined; }
        i := i + 1;
      }
      assert Run(START, tokens, known) == Ok(Snapshot());
      if InjaMachine.PopWhile(Snapshot(), Ending).Ok? { EndTakesAll(Snapshot()); }
      st := PopWhile(Ending);
      if st != Fine { return if st == Throws then Malformed else Undefined; }
      if |arguments| == 1 {
        p := Tree(arguments[0]);
        arguments := [];
      } else {
        p := if |arguments| > 1 then Malformed else Empty;
      }
    }
  }
}
