/** Token sequences that are no expressions, and what the parser makes of them. */
module InjaErrors {
  import opened InjaMachine
  import opened InjaSyntax
  import opened InjaProof
  import opened InjaRoundTrip

  /** Tokens that cannot follow an expression that stands alone. */
  predicate Stray(t: Token) {
    t in {RightBracket, RightBrace, Comma, Colon}
  }

  /** A bracket or brace that closes nothing, or a comma or colon outside of anything, is an
      error. */
  lemma StrayToken(x: Syntax, t: Token, rest: seq<Token>, known: Known)
    requires Sound(x, known) && Stray(t)
    ensures Parse(Spelling(x) + ([t] + rest), known) == Malformed
  {
    assert START.operators + [] == START.operators;
    var s, xs, v := Parses(x, START, [], [], [t] + rest, known);
    hide Run;
    assert Step(s, [t] + rest, known) == Error;
    RunStep(s, t, rest, known);
  }

  /** So is a call of a function that is not known with that many arguments. */
  lemma UnknownCall(name: string, args: seq<Syntax>, rest: seq<Token>, known: Known)
    requires IsName(name) && AllSound(args, known) && (name, |args|) !in known
    ensures Parse(Spelling(SCall(name, args)) + rest, known) == Malformed
  {
    hide Run, PopWhile, LeftArguments, Weights, Need, Sound, Yields;
    var after := [RightParen] + rest;
    assert Spelling(SCall(name, args)) + rest == [Id(name), LeftParen] + (ArgumentSpelling(args) + after);
    var s := CallOpens(START, name, args, rest, known);
    assert START.operators == [];
    if args == [] {
      assert ArgumentSpelling(args) + after == after;
      NoArguments(s, [], name);
      EndsUnknown(s, [], name, 0, rest, known);
    } else {
      var s2, mine, vs := ArgumentsParse(args, s, [], name, 1, after, known);
      EndsUnknown(s2, mine, name, |args|, rest, known) by { InCall(args, s, s2, name, mine, vs); }
    }
  }

  /** The arguments are in the frame of the call. */
  lemma InCall(args: seq<Syntax>, s: State, s': State, name: string, mine: seq<Entry>, vs: seq<Expr>)
    requires LeftArguments(args, s, s', CallBase([], name, |args|), mine, vs) && s.arguments == []
    requires s == START.(operators := s.operators, paren := 1, functions := [Frame(0, 0)])
    ensures InFrame(s', CallBase([], name, |args|), mine, 0) && |s'.arguments| == |args| + Need(mine)
    ensures s'.paren == 1 && s'.functions == [Frame(0, 0)]
  {
  }

  lemma EndsUnknown(s: State, mine: seq<Entry>, name: string, n: nat, rest: seq<Token>, known: Known)
    requires InFrame(s, CallBase([], name, n), mine, 0) && (n > 0 || mine == []) && |s.arguments| == n + Need(mine)
    requires s.paren == 1 && s.functions == [Frame(0, 0)] && (name, n) !in known
    ensures Run(s, [RightParen] + rest, known) == Error
  {
    hide Weights, Run, PopWhile, InFrame;
    var called := [Entry(Call(name), n)];
    assert [] + called == called;
    var s1 := FrameCloses(s, called, mine, 0, n);
    ClosingIgnoresLevel(s, 0);
    assert (called + [Entry(Paren, 1)])[..1] == called;
    assert CloseParen(s, known) == EndCall(s1.(operators := called, paren := 0), known) == Error;
    RunStep(s, RightParen, rest, known);
  }

  /** No tokens are no expression, which is no error. */
  lemma NoTokens(known: Known)
    ensures Parse([], known) == Empty
  {
  }

  /** A value behind an expression is one too many. */
  lemma StrayValue(x: Syntax, text: string, known: Known)
    requires Sound(x, known)
    ensures Parse(Spelling(x) + [Text(text)], known) == Malformed
  {
    assert START.operators + [] == START.operators;
    var s, xs, v := Parses(x, START, [], [], [Text(text)], known);
    hide Run, Weight;
    var s' := s.(arguments := s.arguments + [Literal([Text(text)])]);
    assert [Text(text)] + [] == [Text(text)];
    RunStep(s, Text(text), [], known);
    assert Run(s', [], known) == Ok(s') by { NothingRun(s', known); }
    assert START.arguments + xs == xs && START.operators + Pending(x) == Pending(x);
    PendingArePlain(x, known);
    Ends(s');
  }

  lemma NothingRun(s: State, known: Known)
    ensures Run(s, [], known) == Ok(s)
  {
  }

  lemma PendingArePlain(x: Syntax, known: Known)
    requires Sound(x, known)
    ensures Plain(Pending(x))
  {
  }

  /** At the end every operator takes what it needs. */
  lemma {:induction false} Ends(s: State)
    requires Plain(s.operators) && |s.arguments| >= 1 + Need(s.operators)
    ensures PopWhile(s, Ending).Ok? && |PopWhile(s, Ending).state.arguments| == |s.arguments| - Need(s.operators)
    decreases |s.operators|
  {
    hide Need;
    if s.operators == [] {
      NeedNothing();
    } else {
      var less, last := s.operators[..|s.operators| - 1], s.operators[|s.operators| - 1];
      assert s.operators == less + [last];
      NeedIsNat(less);
      NeedLast(less, last);
      InjaProof.Applied(s, [], less, last);
      assert [] + (less + [last]) == less + [last] && [] + less == less;
      Ends(AddOperator(s).state);
    }
  }

  lemma NeedNothing()
    ensures Need([]) == 0
  {
  }

  lemma NeedLast(less: seq<Entry>, last: Entry)
    ensures Need(less + [last]) == Need(less) + last.args - 1
  {
    assert (less + [last])[..|less|] == less;
  }
}
