/** What every written expression keeps, in whatever frame it is parsed: what is out of reach
    stays, nothing is lost, and no stack runs empty. */
module InjaProof {
  import opened InjaMachine
  import opened InjaSyntax

  // ---------------------------------------------------------------- running

  function Then(o: Outcome, ts: seq<Token>, known: Known): Outcome {
    if o.Ok? then Run(o.state, ts, known) else o
  }

  /** Entries as PushOperator makes them: no parentheses, no calls. */
  predicate Plain(es: seq<Entry>) {
    forall i :: 0 <= i < |es| ==>
      (es[i].op.Binary? && es[i].args == 2) || (es[i].op == Not && es[i].args == 1)
  }

  /** Nothing below the open frame is taken: it is the bottom, or starts at a parenthesis. */
  predicate Fenced(base: seq<Entry>) {
    base == [] || base[|base| - 1].op == Paren
  }

  /** How many arguments pending operators will use up. */
  function Need(es: seq<Entry>): int {
    if es == [] then 0 else Need(es[..|es| - 1]) + es[|es| - 1].args - 1
  }

  /** The size of an expression: one for every operand and operator. */
  function Weight(e: Expr): nat {
    match e
    case Node(_, args) => 1 + Weights(args)
    case _ => 1
  }

  function Weights(es: seq<Expr>): nat {
    if es == [] then 0 else Weights(es[..|es| - 1]) + Weight(es[|es| - 1])
  }

  lemma {:induction false} WeightsConcat(a: seq<Expr>, b: seq<Expr>)
    ensures Weights(a + b) == Weights(a) + Weights(b)
  {
    if b == [] {
      assert a + b == a;
    } else {
      WeightsConcat(a, b[..|b| - 1]);
      assert (a + b)[..|a + b| - 1] == a + b[..|b| - 1];
    }
  }

  lemma {:induction false} NeedConcat(a: seq<Entry>, b: seq<Entry>)
    ensures Need(a + b) == Need(a) + Need(b)
  {
    if b == [] {
      assert a + b == a;
    } else {
      NeedConcat(a, b[..|b| - 1]);
      assert (a + b)[..|a + b| - 1] == a + b[..|b| - 1];
    }
  }

  lemma {:induction false} NeedIsNat(es: seq<Entry>)
    requires Plain(es)
    ensures 0 <= Need(es) <= |es|
  {
    if es != [] {
      NeedIsNat(es[..|es| - 1]);
    }
  }

  // ---------------------------------------------------------------- what popping keeps

  /** A state in the middle of a frame: `base` lies below, `mine` are the frame's pending
      operators, and the first `fixed` arguments are out of their reach. */
  predicate InFrame(s: State, base: seq<Entry>, mine: seq<Entry>, fixed: nat) {
    && s.operators == base + mine
    && Fenced(base) && Plain(mine) && Plainly(s)
    && |s.arguments| >= fixed + Need(mine)
  }

  /** The innermost open call was opened at a lower level of parentheses. */
  predicate Levels(s: State) {
    s.functions != [] ==> s.functions[|s.functions| - 1].level < s.paren
  }

  /** What changes within a frame. The size of everything pending and built is counted. */
  predicate SameFrame(s: State, mine: seq<Entry>, s': State, mine': seq<Entry>, fixed: nat, grown: int, heavier: int) {
    && s' == s.(arguments := s'.arguments, operators := s'.operators, literal := s'.literal)
    && |s.arguments| >= fixed && |s'.arguments| >= fixed
    && s'.arguments[..fixed] == s.arguments[..fixed]
    && |s'.arguments| - Need(mine') == |s.arguments| - Need(mine) + grown
    && Weights(s'.arguments) + |mine'| == Weights(s.arguments) + |mine| + heavier
  }

  lemma NothingChanges(s: State, mine: seq<Entry>, fixed: nat)
    requires |s.arguments| >= fixed
    ensures SameFrame(s, mine, s, mine, fixed, 0, 0)
  {
  }

  lemma FramesCompose(s: State, a: seq<Entry>, s1: State, b: seq<Entry>, s2: State, c: seq<Entry>, fixed: nat,
                      g1: int, h1: int, g2: int, h2: int)
    requires SameFrame(s, a, s1, b, fixed, g1, h1) && SameFrame(s1, b, s2, c, fixed, g2, h2)
    ensures SameFrame(s, a, s2, c, fixed, g1 + g2, h1 + h2)
  {
  }

  lemma Applied(s: State, base: seq<Entry>, less: seq<Entry>, last: Entry)
    requires s.operators == base + (less + [last]) && last.args <= |s.arguments|
    ensures var n := |s.arguments| - last.args;
            AddOperator(s) == Ok(s.(arguments := s.arguments[..n] + [Node(last.op, s.arguments[n..])], operators := base + less))
  {
    assert s.operators[|s.operators| - 1] == last;
    assert s.operators[..|s.operators| - 1] == base + less;
  }

  lemma NeedLast(less: seq<Entry>, last: Entry)
    ensures Need(less + [last]) == Need(less) + last.args - 1
  {
    assert (less + [last])[..|less|] == less;
  }

  /** Applying the top operator. */
  lemma ApplyKeeps(s: State, base: seq<Entry>, less: seq<Entry>, last: Entry, fixed: nat)
    requires InFrame(s, base, less + [last], fixed)
    requires |s.arguments| >= fixed + 1 + Need(less + [last])
    ensures AddOperator(s).Ok?
    ensures InFrame(AddOperator(s).state, base, less, fixed)
    ensures |AddOperator(s).state.arguments| >= fixed + 1 + Need(less)
    ensures SameFrame(s, less + [last], AddOperator(s).state, less, fixed, 0, 0)
    ensures AddOperator(s).state.literal == s.literal
  {
    hide Weights, Need, AddOperator;
    assert (less + [last])[|less|] == last;
    assert forall i :: 0 <= i < |less| ==> (less + [last])[i] == less[i];
    assert Plain(less);
    NeedIsNat(less);
    NeedLast(less, last);
    var n := |s.arguments| - last.args;
    ApplyWeighs(s.arguments, n, last.op);
    Applied(s, base, less, last);
    assert (s.arguments[..n] + [Node(last.op, s.arguments[n..])])[..fixed] == s.arguments[..fixed];
  }

  lemma ApplyWeighs(args: seq<Expr>, n: nat, o: Op)
    requires n <= |args|
    ensures Weights(args[..n] + [Node(o, args[n..])]) == Weights(args) + 1
  {
    assert args == args[..n] + args[n..];
    WeightsConcat(args[..n], args[n..]);
    WeightsConcat(args[..n], [Node(o, args[n..])]);
    assert Weights([Node(o, args[n..])]) == Weights([]) + Weight(Node(o, args[n..]));
  }

  /** Applying pending operators: with one argument to spare, none out of reach is taken, and
      nothing is lost. */
  lemma {:induction false} PopKeeps(s: State, c: Cause, base: seq<Entry>, mine: seq<Entry>, fixed: nat) returns (k: nat)
    requires InFrame(s, base, mine, fixed) && !c.Ending?
    requires |s.arguments| >= fixed + 1 + Need(mine) || mine == [] || !Yields(mine[|mine| - 1], c)
    requires base != [] ==> !Yields(base[|base| - 1], c)
    ensures PopWhile(s, c).Ok?
    ensures k <= |mine| && InFrame(PopWhile(s, c).state, base, mine[..k], fixed)
    ensures SameFrame(s, mine, PopWhile(s, c).state, mine[..k], fixed, 0, 0)
    ensures forall i :: k <= i < |mine| ==> Yields(mine[i], c)
    ensures k > 0 ==> !Yields(mine[k - 1], c)
    ensures PopWhile(s, c).state.literal == s.literal
    decreases |mine|
  {
    hide Yields, AddOperator, Weights, Need, SameFrame, PopWhile, InFrame;
    if mine == [] || !Yields(mine[|mine| - 1], c) {
      NothingPopped(s, c, base, mine, fixed);
      k := |mine|;
    } else {
      var less, last := mine[..|mine| - 1], mine[|mine| - 1];
      assert mine == less + [last];
      OnePopped(s, c, base, less, last, fixed);
      var s' := AddOperator(s).state;
      k := PopKeeps(s', c, base, less, fixed);
      assert less[..k] == mine[..k];
      FramesCompose(s, mine, s', less, PopWhile(s', c).state, mine[..k], fixed, 0, 0, 0, 0);
    }
  }

  lemma NothingPopped(s: State, c: Cause, base: seq<Entry>, mine: seq<Entry>, fixed: nat)
    requires InFrame(s, base, mine, fixed) && (mine == [] || !Yields(mine[|mine| - 1], c))
    requires base != [] ==> !Yields(base[|base| - 1], c)
    ensures PopWhile(s, c) == Ok(s) && mine[..|mine|] == mine && SameFrame(s, mine, s, mine[..|mine|], fixed, 0, 0)
  {
    hide Yields, AddOperator, Weights, Need;
    NeedIsNat(mine);
    NothingChanges(s, mine, fixed);
    assert mine[..|mine|] == mine;
    assert mine == [] ==> s.operators == base;
    assert mine != [] ==> s.operators[|s.operators| - 1] == mine[|mine| - 1];
  }

  lemma OnePopped(s: State, c: Cause, base: seq<Entry>, less: seq<Entry>, last: Entry, fixed: nat)
    requires InFrame(s, base, less + [last], fixed) && Yields(last, c) && |s.arguments| >= fixed + 1 + Need(less + [last])
    ensures s.operators != [] && AddOperator(s).Ok? && PopWhile(s, c) == PopWhile(AddOperator(s).state, c)
    ensures InFrame(AddOperator(s).state, base, less, fixed)
    ensures |AddOperator(s).state.arguments| >= fixed + 1 + Need(less)
    ensures SameFrame(s, less + [last], AddOperator(s).state, less, fixed, 0, 0)
    ensures AddOperator(s).state.literal == s.literal
  {
    hide Yields, Weights, Need, AddOperator, SameFrame;
    ApplyKeeps(s, base, less, last, fixed);
    assert s.operators[|s.operators| - 1] == last;
  }

  // ---------------------------------------------------------------- tokens

  /** The token after an operand is not an opening parenthesis. */
  predicate Follows(rest: seq<Token>) {
    rest == [] || rest[0] != LeftParen
  }

  lemma RunStep(s: State, t: Token, rest: seq<Token>, known: Known)
    ensures Run(s, [t] + rest, known) == Then(Step(s, [t] + rest, known), rest, known)
  {
    assert ([t] + rest)[1..] == rest;
  }

  lemma {:induction false} SpellingStarts(x: Syntax, known: Known)
    requires Sound(x, known)
    ensures Spelling(x) != [] && Spelling(x)[0] != RightParen
  {
    if x.SInfix? { SpellingStarts(x.left, known); }
  }

  lemma {:induction false} ArgumentsStart(ss: seq<Syntax>, known: Known)
    requires AllSound(ss, known) && ss != []
    ensures ArgumentSpelling(ss) != [] && ArgumentSpelling(ss)[0] != RightParen
  {
    SpellingStarts(ss[0], known);
  }

  lemma {:induction false} AstrayStays(ts: seq<Token>)
    ensures !Closes(Astray, ts)
    decreases |ts|
  {
    if ts != [] { AstrayStays(ts[1..]); }
  }

  /** Inside an array or object, tokens only lengthen the literal. */
  lemma {:induction false} InsideRuns(s: State, ts: seq<Token>, rest: seq<Token>, known: Known)
    requires Depth(s.bracket, s.brace) != LEVEL && Closes(Depth(s.bracket, s.brace), ts)
    ensures Run(s, ts + rest, known)
         == Run(s.(bracket := 0, brace := 0, literal := s.literal + ts, arguments := s.arguments + [Literal(s.literal + ts)]),
                rest, known)
    decreases |ts|
  {
    var t, more := ts[0], ts[1..];
    assert ts + rest == [t] + (more + rest);
    RunStep(s, t, more + rest, known);
    var d := Deeper(Depth(s.bracket, s.brace), t);
    if d.Astray? { AstrayStays(more); }
    var s1 := s.(bracket := d.bracket, brace := d.brace, literal := s.literal + [t]);
    assert s.literal + [t] + more == s.literal + ts;
    if d == LEVEL {
      assert more == [];
      assert ts == [t] && more + rest == rest;
    } else {
      assert Step(s, [t] + (more + rest), known) == Ok(s1);
      InsideRuns(s1, more, rest, known);
    }
  }

  lemma LiteralRuns(s: State, ts: seq<Token>, rest: seq<Token>, known: Known) returns (s': State)
    requires Plainly(s) && IsLiteral(ts)
    ensures Run(s, ts + rest, known) == Run(s', rest, known)
    ensures s' == s.(arguments := s.arguments + [Literal(ts)], literal := s'.literal)
  {
    var t, more := ts[0], ts[1..];
    assert ts + rest == [t] + (more + rest);
    RunStep(s, t, more + rest, known);
    if more == [] && !t.LeftBracket? && !t.LeftBrace? {
      assert ts == [t] && more + rest == rest;
      s' := Scalar(s, t);
    } else {
      var s1 := Step(s, [t] + (more + rest), known).state;
      InsideRuns(s1, more, rest, known);
      s' := s1.(bracket := 0, brace := 0, literal := s1.literal + more, arguments := s1.arguments + [Literal(s1.literal + more)]);
      assert s1.literal + more == ts;
    }
  }

  // ---------------------------------------------------------------- what any expression keeps

  /** An expression that starts with `not` binds no tighter than `not`. */
  lemma {:induction false} NotLeads(x: Syntax, known: Known)
    requires Sound(x, known) && StartsWithNot(x)
    ensures Root(x).Some? && Precedence(Root(x).value) <= Precedence(Not)
  {
    if x.SInfix? { NotLeads(x.left, known); }
  }

  /** `not` at the start of x does not take operators already pending. */
  predicate Quiet(mine: seq<Entry>, x: Syntax) {
    StartsWithNot(x) && mine != [] ==> !Yields(mine[|mine| - 1], Arriving(Not))
  }

  lemma QuietOperand(mine: seq<Entry>, o: Op, n: nat, x: Syntax, known: Known)
    requires Sound(x, known) && RightFits(o, x)
    ensures Quiet(mine + [Entry(o, n)], x)
  {
    if StartsWithNot(x) {
      NotLeads(x, known);
      assert (mine + [Entry(o, n)])[|mine|] == Entry(o, n);
    }
  }

  /** An operator arrives in a frame that has an argument to spare, or takes nothing. */
  lemma Pushed(s: State, o: Op, base: seq<Entry>, mine: seq<Entry>, fixed: nat) returns (s': State, mine': seq<Entry>)
    requires InFrame(s, base, mine, fixed) && (o.Binary? || o == Not)
    requires |s.arguments| >= fixed + 1 + Need(mine) || mine == [] || !Yields(mine[|mine| - 1], Arriving(o))
    ensures PushOperator(s, o) == Ok(s')
    ensures |s.arguments| >= fixed + 1 + Need(mine) || o == Not ==> InFrame(s', base, mine' + [OpEntry(o)], fixed)
    ensures SameFrame(s, mine, s', mine' + [OpEntry(o)], fixed, if o == Not then 0 else -1, 1)
  {
    hide Yields, Weights, Need;
    FenceHolds(base, Arriving(o));
    var k := PopKeeps(s, Arriving(o), base, mine, fixed);
    var s1 := PopWhile(s, Arriving(o)).state;
    mine' := mine[..k];
    s' := s1.(operators := s1.operators + [OpEntry(o)]);
    assert s'.operators == base + (mine' + [OpEntry(o)]);
    NeedLast(mine', OpEntry(o));
  }

  function OpEntry(o: Op): Entry {
    Entry(o, if o == Not then 1 else 2)
  }

  function OpToken(o: Op): Token
    requires o.Binary? || o == Not
  {
    if o == Not then Id("not") else InfixToken(o.infix)
  }

  lemma OperatorRuns(s: State, o: Op, rest: seq<Token>, known: Known)
    requires o.Binary? || o == Not
    ensures Run(s, [OpToken(o)] + rest, known) == Then(PushOperator(s, o), rest, known)
  {
    hide PushOperator, Run;
    assert Step(s, [OpToken(o)] + rest, known) == PushOperator(s, o);
    RunStep(s, OpToken(o), rest, known);
  }

  lemma FenceHolds(base: seq<Entry>, c: Cause)
    requires Fenced(base) && !c.Ending?
    ensures base != [] ==> !Yields(base[|base| - 1], c)
  {
  }

  /** A closing parenthesis applies what is pending in its frame. */
  lemma FrameCloses(s: State, below: seq<Entry>, mine: seq<Entry>, fixed: nat, n: nat) returns (s': State)
    requires InFrame(s, below + [Entry(Paren, 1)], mine, fixed)
    requires |s.arguments| == fixed + n + Need(mine) && (n > 0 || mine == [])
    ensures PopWhile(s, Closing) == Ok(s')
    ensures s' == s.(arguments := s'.arguments, operators := below + [Entry(Paren, 1)])
    ensures fixed <= |s.arguments| && |s'.arguments| == fixed + n && s'.arguments[..fixed] == s.arguments[..fixed]
    ensures Weights(s'.arguments) == Weights(s.arguments) + |mine|
  {
    hide Weights;
    NeedIsNat(mine);
    var base := below + [Entry(Paren, 1)];
    FenceHolds(base, Closing);
    var k := PopKeeps(s, Closing, base, mine, fixed);
    s' := PopWhile(s, Closing).state;
    assert k == 0;
    assert base + mine[..0] == base;
  }

  function AtLevel(o: Outcome, p: nat): Outcome {
    if o.Ok? then Ok(o.state.(paren := p)) else o
  }

  lemma {:induction false} ClosingIgnoresLevel(s: State, p: nat)
    ensures PopWhile(s.(paren := p), Closing) == AtLevel(PopWhile(s, Closing), p)
    decreases |s.operators|
  {
    hide Yields;
    if s.operators != [] && Yields(s.operators[|s.operators| - 1], Closing) {
      assert AddOperator(s.(paren := p)) == AtLevel(AddOperator(s), p);
      if AddOperator(s).Ok? { ClosingIgnoresLevel(AddOperator(s).state, p); }
    }
  }

  /** The parenthesis of a group closes. */
  lemma GroupCloses(s: State, below: seq<Entry>, mine: seq<Entry>, fixed: nat, rest: seq<Token>, known: Known)
    returns (s': State)
    requires InFrame(s, below + [Entry(Paren, 1)], mine, fixed) && |s.arguments| == fixed + 1 + Need(mine)
    requires s.paren > 0 && (s.functions != [] ==> s.functions[|s.functions| - 1].level < s.paren - 1)
    ensures Run(s, [RightParen] + rest, known) == Run(s', rest, known)
    ensures s' == s.(arguments := s'.arguments, operators := below, paren := s.paren - 1)
    ensures fixed <= |s.arguments| && |s'.arguments| == fixed + 1 && s'.arguments[..fixed] == s.arguments[..fixed]
    ensures Weights(s'.arguments) == Weights(s.arguments) + |mine|
  {
    hide Weights, Run, PopWhile, InFrame;
    var s1 := FrameCloses(s, below, mine, fixed, 1);
    ClosingIgnoresLevel(s, s.paren - 1);
    s' := s1.(operators := below, paren := s.paren - 1);
    assert (below + [Entry(Paren, 1)])[..|below|] == below;
    assert CloseParen(s, known) == Ok(s');
    RunStep(s, RightParen, rest, known);
  }

  /** The stack below the arguments of an open call. */
  function CallBase(below: seq<Entry>, name: string, k: nat): seq<Entry> {
    below + [Entry(Call(name), k)] + [Entry(Paren, 1)]
  }

  /** The parenthesis of a call closes: its arguments become one. */
  lemma CallCloses(s: State, below: seq<Entry>, name: string, mine: seq<Entry>, fixed: nat, n: nat,
                   functions: seq<Frame>, rest: seq<Token>, known: Known)
    returns (s': State)
    requires InFrame(s, CallBase(below, name, n), mine, fixed) && (n > 0 || mine == [])
    requires |s.arguments| == fixed + n + Need(mine)
    requires s.paren > 0 && s.functions == functions + [Frame(|below|, s.paren - 1)] && (name, n) in known
    ensures Run(s, [RightParen] + rest, known) == Run(s', rest, known)
    ensures s' == s.(arguments := s'.arguments, operators := below, paren := s.paren - 1, functions := functions)
    ensures fixed <= |s.arguments| && |s'.arguments| == fixed + 1 && s'.arguments[..fixed] == s.arguments[..fixed]
    ensures s'.arguments[fixed].Node? && s'.arguments[fixed].op == Call(name) && |s'.arguments[fixed].args| == n
    ensures PopWhile(s, Closing).Ok? && |PopWhile(s, Closing).state.arguments| == fixed + n
    ensures s'.arguments[..fixed] == PopWhile(s, Closing).state.arguments[..fixed]
    ensures s'.arguments[fixed].args == PopWhile(s, Closing).state.arguments[fixed..]
    ensures Weights(s'.arguments) == Weights(s.arguments) + |mine| + 1
  {
    hide Weights, Run, PopWhile, InFrame;
    var called := below + [Entry(Call(name), n)];
    var s1 := FrameCloses(s, called, mine, fixed, n);
    ClosingIgnoresLevel(s, s.paren - 1);
    var s2 := s1.(operators := called, paren := s.paren - 1);
    assert (called + [Entry(Paren, 1)])[..|called|] == called;
    assert CloseParen(s, known) == EndCall(s2, known);
    assert called[|below|] == Entry(Call(name), n) && called[..|below|] == below;
    ApplyWeighs(s1.arguments, fixed, Call(name));
    s' := s.(arguments := s1.arguments[..fixed] + [Node(Call(name), s1.arguments[fixed..])], operators := below,
             paren := s.paren - 1, functions := functions);
    assert s.functions[..|s.functions| - 1] == functions;
    assert EndCall(s2, known) == Ok(s');
    RunStep(s, RightParen, rest, known);
  }

  /** A call opens: its name and parenthesis, with no argument counted if none follows. */
  lemma CallOpens(s: State, name: string, args: seq<Syntax>, rest: seq<Token>, known: Known) returns (s': State)
    requires IsName(name) && AllSound(args, known)
    ensures var ts := ArgumentSpelling(args) + ([RightParen] + rest);
            Run(s, [Id(name), LeftParen] + ts, known) == Run(s', ts, known)
    ensures s' == s.(operators := CallBase(s.operators, name, if args == [] then 0 else 1), paren := s.paren + 1,
                     functions := s.functions + [Frame(|s.operators|, s.paren)])
  {
    hide Run;
    var ts := ArgumentSpelling(args) + ([RightParen] + rest);
    var s1 := s.(operators := s.operators + [Entry(Call(name), 1)],
                 functions := s.functions + [Frame(|s.operators|, s.paren)]);
    assert [Id(name), LeftParen] + ts == [Id(name)] + ([LeftParen] + ts);
    assert ([Id(name)] + ([LeftParen] + ts))[1] == LeftParen;
    RunStep(s, Id(name), [LeftParen] + ts, known);
    RunStep(s1, LeftParen, ts, known);
    assert ([LeftParen] + ts)[1] == ts[0];
    if args != [] { ArgumentsStart(args, known); }
    assert (ts[0] == RightParen) == (args == []);
    s' := s.(operators := CallBase(s.operators, name, if args == [] then 0 else 1), paren := s.paren + 1,
             functions := s.functions + [Frame(|s.operators|, s.paren)]);
    assert OpenParen(s1, args == []) == Ok(s');
  }

  /** A comma counts one more argument and leaves pending operators where they are. */
  lemma CommaCounts(s: State, below: seq<Entry>, name: string, k: nat, mine: seq<Entry>, rest: seq<Token>, known: Known)
    requires Plainly(s) && s.operators == CallBase(below, name, k) + mine
    requires s.functions != [] && s.functions[|s.functions| - 1].index == |below|
    ensures Run(s, [Comma] + rest, known) == Run(s.(operators := CallBase(below, name, k + 1) + mine), rest, known)
  {
    hide Run;
    var s' := s.(operators := CallBase(below, name, k + 1) + mine);
    assert s.operators[|below|] == Entry(Call(name), k);
    assert s.operators[|below| := Entry(Call(name), k + 1)] == s'.operators;
    RunStep(s, Comma, rest, known);
  }

  // ---------------------------------------------------------------- any expression, in any frame

  /** Whatever is pending around it, an expression adds one argument's worth to its frame:
      nothing out of reach is touched, nothing is lost, and the parser does not fail. */
  lemma {:induction false} Conserves(x: Syntax, s: State, base: seq<Entry>, mine: seq<Entry>, fixed: nat,
                                     rest: seq<Token>, known: Known)
    returns (s': State, mine': seq<Entry>)
    requires Sound(x, known) && Follows(rest) && Levels(s)
    requires InFrame(s, base, mine, fixed)
    requires |s.arguments| >= fixed + 1 + Need(mine) || Quiet(mine, x)
    ensures Run(s, Spelling(x) + rest, known) == Run(s', rest, known)
    ensures InFrame(s', base, mine', fixed)
    ensures SameFrame(s, mine, s', mine', fixed, 1, Weight(Meaning(x)))
    decreases x, 2
  {
    hide InFrame, SameFrame, Run, Quiet, Need, Weights;
    match x
    case SLiteral(ts) => s', mine' := LiteralConserved(s, ts, base, mine, fixed, rest, known);
    case SVariable(n) => s', mine' := VariableConserved(s, n, base, mine, fixed, rest, known);
    case SInfix(_, _, _) => s', mine' := InfixConserved(x, s, base, mine, fixed, rest, known);
    case SNot(_) => s', mine' := NotConserved(x, s, base, mine, fixed, rest, known);
    case SParen(_) => s', mine' := GroupConserved(x, s, base, mine, fixed, rest, known);
    case SCall(_, _) => s', mine' := CallConserved(x, s, base, mine, fixed, rest, known);
  }

  lemma OneMore(s: State, e: Expr, l: seq<Token>, base: seq<Entry>, mine: seq<Entry>, fixed: nat)
    requires InFrame(s, base, mine, fixed)
    ensures var s' := s.(arguments := s.arguments + [e], literal := l);
            InFrame(s', base, mine, fixed) && SameFrame(s, mine, s', mine, fixed, 1, Weight(e))
  {
    NeedIsNat(mine);
    WeightsConcat(s.arguments, [e]);
    assert Weights([e]) == Weights([]) + Weight(e);
    assert (s.arguments + [e])[..fixed] == s.arguments[..fixed];
  }

  lemma LiteralConserved(s: State, ts: seq<Token>, base: seq<Entry>, mine: seq<Entry>, fixed: nat, rest: seq<Token>, known: Known)
    returns (s': State, mine': seq<Entry>)
    requires IsLiteral(ts) && InFrame(s, base, mine, fixed)
    ensures Run(s, ts + rest, known) == Run(s', rest, known)
    ensures InFrame(s', base, mine', fixed) && SameFrame(s, mine, s', mine', fixed, 1, 1)
  {
    s' := LiteralRuns(s, ts, rest, known);
    mine' := mine;
    OneMore(s, Literal(ts), s'.literal, base, mine, fixed);
  }

  lemma VariableConserved(s: State, n: string, base: seq<Entry>, mine: seq<Entry>, fixed: nat, rest: seq<Token>, known: Known)
    returns (s': State, mine': seq<Entry>)
    requires IsName(n) && InFrame(s, base, mine, fixed) && Follows(rest)
    ensures Run(s, [Id(n)] + rest, known) == Run(s', rest, known)
    ensures InFrame(s', base, mine', fixed) && SameFrame(s, mine, s', mine', fixed, 1, 1)
  {
    hide InFrame, SameFrame, Run;
    s', mine' := s.(arguments := s.arguments + [Variable(n)]), mine;
    RunStep(s, Id(n), rest, known);
    OneMore(s, Variable(n), s.literal, base, mine, fixed);
  }

  lemma {:induction false} InfixConserved(x: Syntax, s: State, base: seq<Entry>, mine: seq<Entry>, fixed: nat,
                                          rest: seq<Token>, known: Known)
    returns (s': State, mine': seq<Entry>)
    requires x.SInfix? && Sound(x, known) && Follows(rest) && Levels(s)
    requires InFrame(s, base, mine, fixed)
    requires |s.arguments| >= fixed + 1 + Need(mine) || Quiet(mine, x)
    ensures Run(s, Spelling(x) + rest, known) == Run(s', rest, known)
    ensures InFrame(s', base, mine', fixed)
    ensures SameFrame(s, mine, s', mine', fixed, 1, Weight(Meaning(x)))
    decreases x, 1
  {
    hide Run, Need, Weights, Yields;
    var SInfix(i, l, r) := x;
    var o := Binary(i);
    var after := Spelling(r) + rest;
    assert Spelling(x) + rest == Spelling(l) + ([OpToken(o)] + after);
    var s1, mine1 := Conserves(l, s, base, mine, fixed, [OpToken(o)] + after, known);
    var s2, mine2 := Pushed(s1, o, base, mine1, fixed);
    OperatorRuns(s1, o, after, known);
    QuietOperand(mine2, o, 2, r, known);
    s', mine' := Conserves(r, s2, base, mine2 + [OpEntry(o)], fixed, rest, known);
    InfixWeighs(i, Meaning(l), Meaning(r));
  }

  lemma InfixWeighs(i: Infix, l: Expr, r: Expr)
    ensures Weight(Node(Binary(i), [l, r])) == 1 + Weight(l) + Weight(r)
  {
    assert [l, r][..1] == [l];
    assert Weights([l]) == Weights([]) + Weight(l);
  }

  lemma {:induction false} NotConserved(x: Syntax, s: State, base: seq<Entry>, mine: seq<Entry>, fixed: nat,
                                        rest: seq<Token>, known: Known)
    returns (s': State, mine': seq<Entry>)
    requires x.SNot? && Sound(x, known) && Follows(rest) && Levels(s)
    requires InFrame(s, base, mine, fixed)
    requires |s.arguments| >= fixed + 1 + Need(mine) || Quiet(mine, x)
    ensures Run(s, Spelling(x) + rest, known) == Run(s', rest, known)
    ensures InFrame(s', base, mine', fixed)
    ensures SameFrame(s, mine, s', mine', fixed, 1, Weight(Meaning(x)))
    decreases x, 1
  {
    hide Run, Need, Weights, Yields;
    var y := x.operand;
    var after := Spelling(y) + rest;
    assert Spelling(x) + rest == [OpToken(Not)] + after;
    var s1, mine1 := Pushed(s, Not, base, mine, fixed);
    OperatorRuns(s, Not, after, known);
    QuietOperand(mine1, Not, 1, y, known);
    s', mine' := Conserves(y, s1, base, mine1 + [OpEntry(Not)], fixed, rest, known);
    NotWeighs(Meaning(y));
  }

  lemma NotWeighs(e: Expr)
    ensures Weight(Node(Not, [e])) == 1 + Weight(e)
  {
    assert Weights([e]) == Weights([]) + Weight(e);
  }

  lemma {:induction false} GroupConserved(x: Syntax, s: State, base: seq<Entry>, mine: seq<Entry>, fixed: nat,
                                          rest: seq<Token>, known: Known)
    returns (s': State, mine': seq<Entry>)
    requires x.SParen? && Sound(x, known) && Follows(rest) && Levels(s)
    requires InFrame(s, base, mine, fixed)
    ensures Run(s, Spelling(x) + rest, known) == Run(s', rest, known)
    ensures InFrame(s', base, mine', fixed)
    ensures SameFrame(s, mine, s', mine', fixed, 1, Weight(Meaning(x)))
    decreases x, 1
  {
    hide Run, Weights, Yields;
    var y := x.inner;
    var after := [RightParen] + rest;
    assert Spelling(x) + rest == [LeftParen] + (Spelling(y) + after);
    var s1 := GroupOpens(s, y, after, known);
    var s2, mine2 := Conserves(y, s1, s.operators + [Entry(Paren, 1)], [], |s.arguments|, after, known);
    var s3 := GroupCloses(s2, s.operators, mine2, |s.arguments|, rest, known);
    s', mine' := s3, mine;
    NeedIsNat(mine);
    Grown(s, s3, base, mine, fixed, Weight(Meaning(y)));
  }

  lemma GroupOpens(s: State, y: Syntax, after: seq<Token>, known: Known) returns (s': State)
    requires Sound(y, known)
    ensures Run(s, [LeftParen] + (Spelling(y) + after), known) == Run(s', Spelling(y) + after, known)
    ensures s' == s.(paren := s.paren + 1, operators := s.operators + [Entry(Paren, 1)])
  {
    hide Run;
    SpellingStarts(y, known);
    var ts := Spelling(y) + after;
    assert ([LeftParen] + ts)[1] == ts[0] == Spelling(y)[0];
    s' := s.(paren := s.paren + 1, operators := s.operators + [Entry(Paren, 1)]);
    RunStep(s, LeftParen, ts, known);
  }

  /** One more argument on top of everything that was there. */
  lemma Grown(s: State, s': State, base: seq<Entry>, mine: seq<Entry>, fixed: nat, w: nat)
    requires InFrame(s, base, mine, fixed)
    requires s' == s.(arguments := s'.arguments, literal := s'.literal)
    requires |s'.arguments| == |s.arguments| + 1 && s'.arguments[..|s.arguments|] == s.arguments
    requires Weights(s'.arguments) == Weights(s.arguments) + w
    ensures InFrame(s', base, mine, fixed) && SameFrame(s, mine, s', mine, fixed, 1, w)
  {
    NeedIsNat(mine);
    assert s'.arguments[..fixed] == s'.arguments[..|s.arguments|][..fixed];
  }

  lemma {:induction false} CallConserved(x: Syntax, s: State, base: seq<Entry>, mine: seq<Entry>, fixed: nat,
                                         rest: seq<Token>, known: Known)
    returns (s': State, mine': seq<Entry>)
    requires x.SCall? && Sound(x, known) && Follows(rest) && Levels(s)
    requires InFrame(s, base, mine, fixed)
    ensures Run(s, Spelling(x) + rest, known) == Run(s', rest, known)
    ensures InFrame(s', base, mine', fixed)
    ensures SameFrame(s, mine, s', mine', fixed, 1, Weight(Meaning(x)))
    decreases x, 1
  {
    hide Run, Weights, Yields;
    var SCall(name, args) := x;
    var after := [RightParen] + rest;
    assert Spelling(x) + rest == [Id(name), LeftParen] + (ArgumentSpelling(args) + after);
    var s1 := CallOpens(s, name, args, rest, known);
    var n := |s.arguments|;
    var s2, mine2 := s1, [];
    if args == [] {
      assert ArgumentSpelling(args) + after == after;
      NothingWeighs();
    } else {
      s2, mine2 := ArgumentsConserved(args, s1, s.operators, name, 1, [], n, after, known);
    }
    var s3 := CallCloses(s2, s.operators, name, mine2, n, |args|, s.functions, rest, known);
    s', mine' := s3, mine;
    Grown(s, s3, base, mine, fixed, 1 + Weights(Meanings(args)));
  }

  lemma NothingWeighs()
    ensures Weights([]) == 0 && Need([]) == 0
  {
  }

  lemma {:induction false} ArgumentsConserved(args: seq<Syntax>, s: State, below: seq<Entry>, name: string, k: nat,
                                              mine: seq<Entry>, fixed: nat, rest: seq<Token>, known: Known)
    returns (s': State, mine': seq<Entry>)
    requires args != [] && AllSound(args, known) && rest != [] && rest[0] == RightParen && Levels(s)
    requires InFrame(s, CallBase(below, name, k), mine, fixed)
    requires s.functions != [] && s.functions[|s.functions| - 1].index == |below|
    requires |s.arguments| >= fixed + 1 + Need(mine) || Quiet(mine, args[0])
    ensures Run(s, ArgumentSpelling(args) + rest, known) == Run(s', rest, known)
    ensures InFrame(s', CallBase(below, name, k + |args| - 1), mine', fixed)
    ensures SameFrame(s, mine, s', mine', fixed, |args|, Weights(Meanings(args)))
    decreases args, 0
  {
    hide Run, Weights, Yields, Need, Meaning, Spelling, InFrame, SameFrame, CallBase, Sound;
    if |args| == 1 {
      s', mine' := Conserves(args[0], s, CallBase(below, name, k), mine, fixed, rest, known);
      OneWeighs(args);
    } else {
      var more := args[1..];
      FirstSpelt(args, rest);
      var s1, mine1 := Conserves(args[0], s, CallBase(below, name, k), mine, fixed, [Comma] + (ArgumentSpelling(more) + rest), known);
      var s2 := PastComma(s, mine, s1, below, name, k, mine1, fixed, Weight(Meaning(args[0])), ArgumentSpelling(more) + rest, known);
      s', mine' := ArgumentsConserved(more, s2, below, name, k + 1, mine1, fixed, rest, known);
      FramesCompose(s, mine, s2, mine1, s', mine', fixed, 1, Weight(Meaning(args[0])), |more|, Weights(Meanings(more)));
      FirstWeighs(args);
    }
  }

  /** After an argument the comma counts the next one; nothing else in the frame changes. */
  lemma PastComma(s: State, mine: seq<Entry>, s1: State, below: seq<Entry>, name: string, k: nat, mine1: seq<Entry>,
                  fixed: nat, heavier: int, rest: seq<Token>, known: Known)
    returns (s2: State)
    requires InFrame(s, CallBase(below, name, k), mine, fixed) && InFrame(s1, CallBase(below, name, k), mine1, fixed)
    requires SameFrame(s, mine, s1, mine1, fixed, 1, heavier) && Levels(s)
    requires s.functions != [] && s.functions[|s.functions| - 1].index == |below|
    ensures Run(s1, [Comma] + rest, known) == Run(s2, rest, known)
    ensures InFrame(s2, CallBase(below, name, k + 1), mine1, fixed) && Levels(s2)
    ensures SameFrame(s, mine, s2, mine1, fixed, 1, heavier)
    ensures s2.functions == s.functions && |s2.arguments| >= fixed + 1 + Need(mine1)
  {
    hide Run, Weights, Yields, Need;
    CommaCounts(s1, below, name, k, mine1, rest, known);
    s2 := s1.(operators := CallBase(below, name, k + 1) + mine1);
  }

  lemma FirstSpelt(args: seq<Syntax>, rest: seq<Token>)
    requires |args| > 1
    ensures ArgumentSpelling(args) + rest == Spelling(args[0]) + ([Comma] + (ArgumentSpelling(args[1..]) + rest))
  {
  }

  lemma OneWeighs(args: seq<Syntax>)
    requires |args| == 1
    ensures Weights(Meanings(args)) == Weight(Meaning(args[0]))
  {
    FirstWeighs(args);
    NothingWeighs();
  }

  lemma FirstWeighs(args: seq<Syntax>)
    requires args != []
    ensures Weights(Meanings(args)) == Weight(Meaning(args[0])) + Weights(Meanings(args[1..]))
  {
    WeightsConcat([Meaning(args[0])], Meanings(args[1..]));
    assert Weights([Meaning(args[0])]) == Weights([]) + Weight(Meaning(args[0]));
  }
}
