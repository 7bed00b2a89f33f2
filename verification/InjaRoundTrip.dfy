/** What parse_expression builds from a written expression: exactly what is meant, if and
    only if the arguments of its calls are separated. */
module InjaRoundTrip {
  import opened InjaMachine
  import opened InjaSyntax
  import opened InjaProof

  // ---------------------------------------------------------------- pending operators

  /** The operators still pending after an expression: its right spine. */
  function Pending(x: Syntax): (es: seq<Entry>)
    ensures es == [] <==> Root(x).None?
    ensures es != [] ==> es[0] == OpEntry(Root(x).value)
    ensures Plain(es)
  {
    match x
    case SInfix(i, _, r) => [OpEntry(Binary(i))] + Pending(r)
    case SNot(y) => [OpEntry(Not)] + Pending(y)
    case _ => []
  }

  /** The last arguments become one. */
  function Gathered(xs: seq<Expr>, e: Entry): seq<Expr>
    requires e.args <= |xs|
  {
    var k := |xs| - e.args;
    xs[..k] + [Node(e.op, xs[k..])]
  }

  /** What the operators es make of the arguments xs, if that is one expression. */
  function Applied(xs: seq<Expr>, es: seq<Entry>): Option<Expr>
    decreases |es|
  {
    if es == [] then if |xs| == 1 then Some(xs[0]) else None
    else if es[|es| - 1].args > |xs| then None
    else Applied(Gathered(xs, es[|es| - 1]), es[..|es| - 1])
  }

  lemma AppliedLast(xs: seq<Expr>, less: seq<Entry>, e: Entry)
    ensures Applied(xs, less + [e]) ==
            if e.args > |xs| then None else Applied(Gathered(xs, e), less)
  {
    hide Gathered;
    assert (less + [e])[|less|] == e && (less + [e])[..|less|] == less;
  }

  lemma AppliedAlone(xs: seq<Expr>, v: Expr, left: seq<Expr>, o: Op)
    requires Applied(xs, []) == Some(v) && OpEntry(o).args == |left| + 1
    ensures Applied(left + xs, [OpEntry(o)]) == Some(Node(o, left + [v]))
  {
    var ys := left + xs;
    assert xs == [v] && ys == left + [v];
    assert [] + [OpEntry(o)] == [OpEntry(o)];
    AppliedLast(ys, [], OpEntry(o));
    assert ys[..0] + [Node(o, ys[0..])] == [Node(o, ys)];
  }

  lemma {:induction false} AppliedUnder(xs: seq<Expr>, es: seq<Entry>, v: Expr, left: seq<Expr>, o: Op)
    requires Applied(xs, es) == Some(v) && Plain(es)
    requires OpEntry(o).args == |left| + 1
    ensures Applied(left + xs, [OpEntry(o)] + es) == Some(Node(o, left + [v]))
    decreases |es|
  {
    hide Applied, OpEntry;
    if es == [] {
      AppliedAlone(xs, v, left, o);
      assert [OpEntry(o)] + es == [OpEntry(o)];
    } else {
      var e, less := es[|es| - 1], es[..|es| - 1];
      assert es == less + [e];
      AppliedLast(xs, less, e);
      AppliedUnder(Gathered(xs, e), less, v, left, o);
      assert [OpEntry(o)] + es == ([OpEntry(o)] + less) + [e];
      AppliedLast(left + xs, [OpEntry(o)] + less, e);
      GatheredUnder(left, xs, e);
    }
  }

  lemma GatheredUnder(left: seq<Expr>, xs: seq<Expr>, e: Entry)
    requires e.args <= |xs|
    ensures Gathered(left + xs, e) == left + Gathered(xs, e)
  {
    var k := |xs| - e.args;
    assert (left + xs)[..|left| + k] == left + xs[..k] && (left + xs)[|left| + k..] == xs[k..];
  }

  /** The right spine binds at least as tightly as its root. */
  lemma {:induction false} SpineBinds(x: Syntax, known: Known)
    requires Sound(x, known)
    ensures forall i :: 0 <= i < |Pending(x)| ==> Precedence(Pending(x)[i].op) >= Precedence(Pending(x)[0].op)
    ensures forall i :: 0 <= i < |Pending(x)| ==> Pending(x)[i].op.Binary? || Pending(x)[i].op == Not
  {
    match x
    case SInfix(_, _, r) => SpineBinds(r, known);
    case SNot(y) => SpineBinds(y, known);
    case _ =>
  }

  /** Pending operators that all yield are all applied. */
  lemma {:induction false} AllApplied(s: State, c: Cause, below: seq<Entry>, es: seq<Entry>, args: seq<Expr>, xs: seq<Expr>, v: Expr)
    requires s.operators == below + es && s.arguments == args + xs
    requires Applied(xs, es) == Some(v)
    requires forall i :: 0 <= i < |es| ==> Yields(es[i], c)
    requires below != [] ==> !Yields(below[|below| - 1], c)
    ensures PopWhile(s, c) == Ok(s.(arguments := args + [v], operators := below))
    decreases |es|
  {
    hide Yields;
    if es == [] {
      assert below + es == below;
      assert xs == [v];
    } else {
      var e, less := es[|es| - 1], es[..|es| - 1];
      var k := |xs| - e.args;
      assert s.operators[|s.operators| - 1] == e;
      assert s.operators[..|s.operators| - 1] == below + less;
      assert s.arguments[..|args| + k] == args + xs[..k] && s.arguments[|args| + k..] == xs[k..];
      var ys := xs[..k] + [Node(e.op, xs[k..])];
      assert args + xs[..k] + [Node(e.op, xs[k..])] == args + ys;
      var s1 := s.(arguments := args + ys, operators := below + less);
      assert AddOperator(s) == Ok(s1);
      AllApplied(s1, c, below, less, args, ys, v);
    }
  }

  /** No operator of x takes what is pending before it. */
  predicate Clean(mine: seq<Entry>, x: Syntax) {
    mine != [] && Root(x).Some? ==> !Yields(mine[|mine| - 1], Arriving(Root(x).value))
  }

  lemma CleanRight(mine: seq<Entry>, o: Op, x: Syntax)
    requires RightFits(o, x)
    ensures Clean(mine + [OpEntry(o)], x)
  {
  }

  lemma CleanLeft(mine: seq<Entry>, o: Op, x: Syntax)
    requires LeftFits(x, o) && (mine != [] ==> !Yields(mine[|mine| - 1], Arriving(o)))
    ensures Clean(mine, x)
  {
  }

  lemma LeftYields(x: Syntax, o: Op, known: Known)
    requires Sound(x, known) && LeftFits(x, o)
    ensures forall i :: 0 <= i < |Pending(x)| ==> Yields(Pending(x)[i], Arriving(o))
  {
    SpineBinds(x, known);
  }

  // ---------------------------------------------------------------- what is built

  /** A place where an expression may start. */
  predicate Ready(s: State, base: seq<Entry>, mine: seq<Entry>) {
    s.operators == base + mine && Fenced(base) && Plain(mine) && Plainly(s) && Levels(s)
  }

  /** What parsing x has left: the arguments xs and operators that together are v. */
  predicate Left(x: Syntax, s: State, s': State, xs: seq<Expr>, v: Expr) {
    && s' == s.(arguments := s.arguments + xs, operators := s.operators + Pending(x), literal := s'.literal)
    && Applied(xs, Pending(x)) == Some(v)
    && |xs| == 1 + Need(Pending(x))
    && (v == Meaning(x) <==> Apart(x))
    && Weight(v) == Weight(Meaning(x))
    && (Pending(x) != [] ==> Weight(xs[0]) < Weight(v))
  }

  /** An expression with nothing pending is an argument of its own. */
  lemma Alone(x: Syntax, s: State, s': State, v: Expr)
    requires Pending(x) == [] && (v == Meaning(x) <==> Apart(x)) && Weight(v) == Weight(Meaning(x))
    requires s' == s.(arguments := s.arguments + [v], literal := s'.literal)
    ensures Left(x, s, s', [v], v)
  {
    hide Weight;
    assert s.operators + [] == s.operators;
    assert Applied([v], []) == Some(v);
    NothingWeighs();
  }

  lemma {:induction false} Parses(x: Syntax, s: State, base: seq<Entry>, mine: seq<Entry>, rest: seq<Token>, known: Known)
    returns (s': State, xs: seq<Expr>, v: Expr)
    requires Sound(x, known) && Follows(rest) && Ready(s, base, mine) && Clean(mine, x)
    ensures Run(s, Spelling(x) + rest, known) == Run(s', rest, known)
    ensures Left(x, s, s', xs, v)
    decreases x, 2
  {
    hide Run, Ready, Clean, Left;
    match x
    case SLiteral(_) => s', xs, v := AtomParses(x, s, base, mine, rest, known);
    case SVariable(_) => s', xs, v := AtomParses(x, s, base, mine, rest, known);
    case SInfix(_, _, _) => s', xs, v := InfixParses(x, s, base, mine, rest, known);
    case SNot(_) => s', xs, v := NotParses(x, s, base, mine, rest, known);
    case SParen(_) => s', xs, v := GroupParses(x, s, base, mine, rest, known);
    case SCall(_, _) => s', xs, v := CallParses(x, s, base, mine, rest, known);
  }

  lemma AtomParses(x: Syntax, s: State, base: seq<Entry>, mine: seq<Entry>, rest: seq<Token>, known: Known)
    returns (s': State, xs: seq<Expr>, v: Expr)
    requires (x.SLiteral? || x.SVariable?) && Sound(x, known) && Follows(rest) && Ready(s, base, mine)
    ensures Run(s, Spelling(x) + rest, known) == Run(s', rest, known)
    ensures Left(x, s, s', xs, v)
  {
    hide Run, Left;
    v := Meaning(x);
    xs := [v];
    match x {
      case SLiteral(ts) =>
        s' := LiteralRuns(s, ts, rest, known);
      case SVariable(n) =>
        s' := s.(arguments := s.arguments + [v]);
        RunStep(s, Id(n), rest, known);
    }
    Alone(x, s, s', v);
  }

  lemma {:induction false} InfixParses(x: Syntax, s: State, base: seq<Entry>, mine: seq<Entry>, rest: seq<Token>, known: Known)
    returns (s': State, xs: seq<Expr>, v: Expr)
    requires x.SInfix? && Sound(x, known) && Follows(rest) && Ready(s, base, mine) && Clean(mine, x)
    ensures Run(s, Spelling(x) + rest, known) == Run(s', rest, known)
    ensures Left(x, s, s', xs, v)
    decreases x, 1
  {
    hide Run, Yields, Weight, Weights, Need, Applied, Left, Meaning, Apart, Spelling, Ready, Clean;
    var o := Binary(x.infix);
    var s2, vl := LeftOperandParses(x, s, base, mine, rest, known);
    CleanRight(mine, o, x.right);
    ReadyRight(s, s2, base, mine, o);
    var xr, vr;
    s', xr, vr := Parses(x.right, s2, base, mine + [OpEntry(o)], rest, known);
    xs, v := [vl] + xr, Node(o, [vl] + [vr]);
    InfixLeft(x, s, s2, s', vl, xr, vr);
  }

  lemma ReadyRight(s: State, s': State, base: seq<Entry>, mine: seq<Entry>, o: Op)
    requires Ready(s, base, mine) && (o.Binary? || o == Not)
    requires s' == s.(arguments := s'.arguments, operators := s.operators + [OpEntry(o)], literal := s'.literal)
    ensures Ready(s', base, mine + [OpEntry(o)])
  {
    assert s'.operators == base + (mine + [OpEntry(o)]);
  }

  /** What the right operand has left, its operator on top of the left operand. */
  lemma InfixLeft(x: Syntax, s: State, s2: State, s': State, vl: Expr, xr: seq<Expr>, vr: Expr)
    requires x.SInfix?
    requires s2 == s.(arguments := s.arguments + [vl], operators := s.operators + [OpEntry(Binary(x.infix))], literal := s2.literal)
    requires (vl == Meaning(x.left) <==> Apart(x.left)) && Weight(vl) == Weight(Meaning(x.left))
    requires Left(x.right, s2, s', xr, vr)
    ensures Left(x, s, s', [vl] + xr, Node(Binary(x.infix), [vl] + [vr]))
  {
    hide Weight, Need, Applied, Meaning, Apart;
    var o, es := Binary(x.infix), Pending(x.right);
    AppliedUnder(xr, es, vr, [vl], o);
    NeedConcat([OpEntry(o)], es);
    NeedOne(o);
    assert s2.arguments + xr == s.arguments + ([vl] + xr);
    assert s2.operators + es == s.operators + Pending(x);
    InfixBuilt(x, vl, vr);
  }

  lemma {:induction false} LeftOperandParses(x: Syntax, s: State, base: seq<Entry>, mine: seq<Entry>, rest: seq<Token>, known: Known)
    returns (s': State, v: Expr)
    requires x.SInfix? && Sound(x, known) && Follows(rest) && Ready(s, base, mine) && Clean(mine, x)
    ensures Run(s, Spelling(x) + rest, known) == Run(s', Spelling(x.right) + rest, known)
    ensures s' == s.(arguments := s.arguments + [v], operators := s.operators + [OpEntry(Binary(x.infix))], literal := s'.literal)
    ensures (v == Meaning(x.left) <==> Apart(x.left)) && Weight(v) == Weight(Meaning(x.left))
    decreases x, 0
  {
    hide Run, Yields, Weight, Weights, Need, Applied, PopWhile, Meaning, Apart;
    var l, o := x.left, Binary(x.infix);
    var after := Spelling(x.right) + rest;
    assert Spelling(x) + rest == Spelling(l) + ([OpToken(o)] + after);
    CleanLeft(mine, o, l);
    var s1, xl;
    s1, xl, v := Parses(l, s, base, mine, [OpToken(o)] + after, known);
    LeftYields(l, o, known);
    TopStays(base, mine, o);
    AllApplied(s1, Arriving(o), s.operators, Pending(l), s.arguments, xl, v);
    s' := s1.(arguments := s.arguments + [v], operators := s.operators + [OpEntry(o)]);
    OperatorRuns(s1, o, after, known);
  }

  lemma InfixBuilt(x: Syntax, vl: Expr, vr: Expr)
    requires x.SInfix?
    requires (vl == Meaning(x.left) <==> Apart(x.left)) && (vr == Meaning(x.right) <==> Apart(x.right))
    requires Weight(vl) == Weight(Meaning(x.left)) && Weight(vr) == Weight(Meaning(x.right))
    ensures var v := Node(Binary(x.infix), [vl] + [vr]);
            (v == Meaning(x) <==> Apart(x)) && Weight(v) == Weight(Meaning(x)) && Weight(vl) < Weight(v)
  {
    hide Weight;
    var v := Node(Binary(x.infix), [vl] + [vr]);
    assert [vl] + [vr] == [vl, vr];
    assert v.args[0] == vl && v.args[1] == vr;
    assert Meaning(x).args[0] == Meaning(x.left) && Meaning(x).args[1] == Meaning(x.right);
    InfixWeighs(x.infix, vl, vr);
    InfixWeighs(x.infix, Meaning(x.left), Meaning(x.right));
  }

  lemma NeedOne(o: Op)
    ensures Need([OpEntry(o)]) == OpEntry(o).args - 1
  {
    assert [OpEntry(o)][..0] == [];
  }

  lemma TopStays(base: seq<Entry>, mine: seq<Entry>, o: Op)
    requires Fenced(base) && (mine != [] ==> !Yields(mine[|mine| - 1], Arriving(o)))
    ensures var ops := base + mine; ops != [] ==> !Yields(ops[|ops| - 1], Arriving(o))
  {
    FenceHolds(base, Arriving(o));
  }

  lemma {:induction false} NotParses(x: Syntax, s: State, base: seq<Entry>, mine: seq<Entry>, rest: seq<Token>, known: Known)
    returns (s': State, xs: seq<Expr>, v: Expr)
    requires x.SNot? && Sound(x, known) && Follows(rest) && Ready(s, base, mine) && Clean(mine, x)
    ensures Run(s, Spelling(x) + rest, known) == Run(s', rest, known)
    ensures Left(x, s, s', xs, v)
    decreases x, 1
  {
    hide Run, Yields, Weight, Weights, Need, Applied, Left, Meaning, Apart;
    var y := x.operand;
    var after := Spelling(y) + rest;
    assert Spelling(x) + rest == [OpToken(Not)] + after;
    TopStays(base, mine, Not);
    assert PopWhile(s, Arriving(Not)) == Ok(s);
    var s1 := s.(operators := s.operators + [OpEntry(Not)]);
    OperatorRuns(s, Not, after, known);
    CleanRight(mine, Not, y);
    assert s1.operators == base + (mine + [OpEntry(Not)]);
    var xy, vy;
    s', xy, vy := Parses(y, s1, base, mine + [OpEntry(Not)], rest, known);
    xs, v := xy, Node(Not, [vy]);
    NotLeft(x, s, s1, s', xy, vy);
  }

  lemma NotLeft(x: Syntax, s: State, s1: State, s': State, xs: seq<Expr>, v: Expr)
    requires x.SNot? && s1 == s.(operators := s.operators + [OpEntry(Not)])
    requires Left(x.operand, s1, s', xs, v)
    ensures Left(x, s, s', xs, Node(Not, [v]))
  {
    hide Weight, Need, Applied, Meaning, Apart;
    var es := Pending(x.operand);
    AppliedUnder(xs, es, v, [], Not);
    assert [] + xs == xs && [] + [v] == [v];
    NotNeedsNone(es);
    NeedIsNat(es);
    NotBuilt(x, xs, v);
    assert s1.operators + es == s.operators + Pending(x);
  }

  lemma NotBuilt(x: Syntax, xs: seq<Expr>, v: Expr)
    requires x.SNot? && (v == Meaning(x.operand) <==> Apart(x.operand)) && Weight(v) == Weight(Meaning(x.operand))
    requires Applied(xs, Pending(x.operand)) == Some(v)
    requires Pending(x.operand) != [] ==> xs != [] && Weight(xs[0]) < Weight(v)
    ensures (Node(Not, [v]) == Meaning(x) <==> Apart(x)) && Weight(Node(Not, [v])) == Weight(Meaning(x))
    ensures xs != [] && Weight(xs[0]) < Weight(Node(Not, [v]))
  {
    hide Weight;
    NotWeighs(v);
    NotWeighs(Meaning(x.operand));
    if Pending(x.operand) == [] { SingleApplied(xs, v); }
  }

  lemma NotNeedsNone(es: seq<Entry>)
    ensures Need([OpEntry(Not)] + es) == Need(es)
  {
    NeedConcat([OpEntry(Not)], es);
    NeedOne(Not);
  }

  lemma SingleApplied(xs: seq<Expr>, v: Expr)
    requires Applied(xs, []) == Some(v)
    ensures xs == [v]
  {
  }

  lemma {:induction false} GroupParses(x: Syntax, s: State, base: seq<Entry>, mine: seq<Entry>, rest: seq<Token>, known: Known)
    returns (s': State, xs: seq<Expr>, v: Expr)
    requires x.SParen? && Sound(x, known) && Follows(rest) && Ready(s, base, mine)
    ensures Run(s, Spelling(x) + rest, known) == Run(s', rest, known)
    ensures Left(x, s, s', xs, v)
    decreases x, 1
  {
    hide Run, Yields, Weight, Need;
    var y := x.inner;
    var after := [RightParen] + rest;
    assert Spelling(x) + rest == [LeftParen] + (Spelling(y) + after);
    var s1 := GroupOpens(s, y, after, known);
    assert s1.operators + [] == s1.operators;
    var s2, xy, vy := Parses(y, s1, s1.operators, [], after, known);
    AllYieldToClosing(y, known);
    AllApplied(s2, Closing, s1.operators, Pending(y), s.arguments, xy, vy);
    s' := s2.(arguments := s.arguments + [vy], operators := s.operators, paren := s.paren);
    GroupEnds(s2, s', s.operators, rest, known);
    xs, v := [vy], vy;
    Alone(x, s, s', v);
  }

  lemma AllYieldToClosing(x: Syntax, known: Known)
    requires Sound(x, known)
    ensures forall i :: 0 <= i < |Pending(x)| ==> Yields(Pending(x)[i], Closing) && Yields(Pending(x)[i], Ending)
    ensures !Yields(Entry(Paren, 1), Closing)
  {
    SpineBinds(x, known);
  }

  lemma GroupEnds(s: State, s': State, below: seq<Entry>, rest: seq<Token>, known: Known)
    requires PopWhile(s, Closing) == Ok(s'.(operators := below + [Entry(Paren, 1)], paren := s.paren))
    requires s.paren > 0 && s'.paren == s.paren - 1 && s'.operators == below && Levels(s')
    ensures Run(s, [RightParen] + rest, known) == Run(s', rest, known)
  {
    hide Run, PopWhile;
    ClosingIgnoresLevel(s, s.paren - 1);
    assert (below + [Entry(Paren, 1)])[..|below|] == below;
    assert CloseParen(s, known) == Ok(s');
    RunStep(s, RightParen, rest, known);
  }

  lemma {:induction false} AppliedWeighs(xs: seq<Expr>, es: seq<Entry>, v: Expr)
    requires Applied(xs, es) == Some(v)
    ensures Weight(v) == Weights(xs) + |es|
    decreases |es|
  {
    if es == [] {
      assert xs == [v];
      NothingWeighs();
    } else {
      var e := es[|es| - 1];
      ApplyWeighs(xs, |xs| - e.args, e.op);
      AppliedWeighs(xs[..|xs| - e.args] + [Node(e.op, xs[|xs| - e.args..])], es[..|es| - 1], v);
    }
  }

  // ---------------------------------------------------------------- arguments

  lemma {:induction false} PopTwice(s: State, c: Cause)
    requires PopWhile(s, c).Ok?
    ensures PopWhile(PopWhile(s, c).state, c) == PopWhile(s, c)
    decreases |s.operators|
  {
    hide Yields;
    if s.operators != [] && Yields(s.operators[|s.operators| - 1], c) {
      PopTwice(AddOperator(s).state, c);
    }
  }

  lemma {:induction false} StartsWithNotToken(x: Syntax, known: Known)
    requires Sound(x, known) && StartsWithNot(x)
    ensures Spelling(x) != [] && Spelling(x)[0] == Id("not")
  {
    if x.SInfix? { StartsWithNotToken(x.left, known); }
  }

  /** A leading `not` applies what yields to it before anything else happens. */
  lemma LeadingNot(s: State, x: Syntax, more: seq<Token>, known: Known)
    requires Sound(x, known) && StartsWithNot(x) && PopWhile(s, Arriving(Not)).Ok?
    ensures Run(s, Spelling(x) + more, known) == Run(PopWhile(s, Arriving(Not)).state, Spelling(x) + more, known)
  {
    hide Run, PopWhile, Yields;
    StartsWithNotToken(x, known);
    var ts := Spelling(x) + more;
    assert ts == [Id("not")] + ts[1..];
    PopTwice(s, Arriving(Not));
    OperatorRuns(s, Not, ts[1..], known);
    OperatorRuns(PopWhile(s, Arriving(Not)).state, Not, ts[1..], known);
  }

  /** When the bottom pending operator is infix and stays, so does its left operand. */
  lemma {:induction false} BottomStays(s: State, base: seq<Entry>, es: seq<Entry>, args: seq<Expr>, xs: seq<Expr>)
    returns (k: nat, ys: seq<Expr>)
    requires s.operators == base + es && s.arguments == args + xs
    requires Plain(es) && es != [] && es[0].args == 2 && |xs| == 1 + Need(es)
    requires !Yields(es[0], Arriving(Not))
    ensures 0 < k <= |es| && |ys| == 1 + Need(es[..k]) && |ys| > 0 && |xs| > 0 && ys[0] == xs[0]
    ensures PopWhile(s, Arriving(Not)) == Ok(s.(arguments := args + ys, operators := base + es[..k]))
    ensures !Yields(es[k - 1], Arriving(Not))
    ensures Weights(args + ys) + k == Weights(args + xs) + |es|
    decreases |es|
  {
    hide Yields, Weights, Need, PopWhile, AddOperator;
    NeedIsNat(es);
    if !Yields(es[|es| - 1], Arriving(Not)) {
      k, ys := |es|, xs;
      assert es[..k] == es;
      StaysAsIs(s, es[|es| - 1]);
    } else {
      var e, less := es[|es| - 1], es[..|es| - 1];
      assert es == less + [e] && less[0] == es[0];
      var s1, zs := BottomApplied(s, base, less, e, args, xs);
      k, ys := BottomStays(s1, base, less, args, zs);
      assert less[..k] == es[..k];
    }
  }

  lemma StaysAsIs(s: State, e: Entry)
    requires s.operators != [] && s.operators[|s.operators| - 1] == e && !Yields(e, Arriving(Not))
    ensures PopWhile(s, Arriving(Not)) == Ok(s)
  {
  }

  /** The top one of several is applied. */
  lemma BottomApplied(s: State, base: seq<Entry>, less: seq<Entry>, e: Entry, args: seq<Expr>, xs: seq<Expr>)
    returns (s1: State, zs: seq<Expr>)
    requires s.operators == base + (less + [e]) && s.arguments == args + xs
    requires Plain(less + [e]) && less != [] && less[0].args == 2 && |xs| == 1 + Need(less + [e]) && Yields(e, Arriving(Not))
    ensures s1 == s.(arguments := args + zs, operators := base + less) && Plain(less)
    ensures |zs| == 1 + Need(less) && |zs| > 0 && |xs| > 0 && zs[0] == xs[0]
    ensures PopWhile(s, Arriving(Not)) == PopWhile(s1, Arriving(Not))
    ensures Weights(args + zs) == Weights(args + xs) + 1
  {
    hide Yields, Weights, Need, AddOperator;
    assert forall i :: 0 <= i < |less| ==> (less + [e])[i] == less[i];
    assert (less + [e])[|less|] == e;
    NeedLast(less, e);
    NeedBottom(less);
    var n := |xs| - e.args;
    zs := xs[..n] + [Node(e.op, xs[n..])];
    assert s.arguments[..|args| + n] == args + xs[..n] && s.arguments[|args| + n..] == xs[n..];
    assert args + xs[..n] + [Node(e.op, xs[n..])] == args + zs;
    ApplyWeighs(s.arguments, |args| + n, e.op);
    InjaProof.Applied(s, base, less, e);
    s1 := s.(arguments := args + zs, operators := base + less);
    assert AddOperator(s) == Ok(s1);
  }

  lemma {:induction false} NeedBottom(es: seq<Entry>)
    requires Plain(es) && es != [] && es[0].args == 2
    ensures Need(es) >= 1
    decreases |es|
  {
    if |es| == 1 {
      assert es[..0] == [];
    } else {
      NeedBottom(es[..|es| - 1]);
    }
  }

  /** What the arguments of a call have left, and what they are once its parenthesis closes. */
  predicate LeftArguments(ss: seq<Syntax>, s: State, s': State, base: seq<Entry>, mine: seq<Entry>, vs: seq<Expr>) {
    && s' == s.(arguments := s'.arguments, operators := s'.operators, literal := s'.literal)
    && InFrame(s', base, mine, |s.arguments|)
    && |s'.arguments| == |s.arguments| + |ss| + Need(mine)
    && PopWhile(s', Closing).Ok? && PopWhile(s', Closing).state.arguments == s.arguments + vs
    && |vs| == |ss| && (vs == Meanings(ss) <==> AllApart(ss))
    && Weights(s'.arguments) + |mine| == Weights(s.arguments) + Weights(Meanings(ss))
  }

  lemma {:induction false} ArgumentsParse(ss: seq<Syntax>, s: State, below: seq<Entry>, name: string, k: nat,
                                          rest: seq<Token>, known: Known)
    returns (s': State, mine: seq<Entry>, vs: seq<Expr>)
    requires ss != [] && AllSound(ss, known) && rest != [] && rest[0] == RightParen
    requires Levels(s) && Plainly(s) && s.operators == CallBase(below, name, k)
    requires s.functions != [] && s.functions[|s.functions| - 1].index == |below|
    ensures Run(s, ArgumentSpelling(ss) + rest, known) == Run(s', rest, known)
    ensures LeftArguments(ss, s, s', CallBase(below, name, k + |ss| - 1), mine, vs)
    decreases ss, 0
  {
    hide Run, LeftArguments, LeftFirst, CallBase, Fenced, Levels, Plainly, AllSound, Need, Weights, Separated;
    if |ss| == 1 {
      CallIsFence(below, name, k);
      s', mine, vs := OnlyArgument(ss, s, rest, known);
    } else {
      var s2, xs, v := FirstArgument(ss, s, below, name, k, rest, known);
      if Separated(ss[0], ss[1]) {
        var s3 := s2.(arguments := s.arguments + [v], operators := CallBase(below, name, k + 1));
        StillInCall(ss, s, s2, s3, below, name, k, xs, v, known);
        NextStarts(ss, s, s2, s3, CallBase(below, name, k + 1), xs, v, rest, known);
        var ws;
        s', mine, ws := ArgumentsParse(ss[1..], s3, below, name, k + 1, rest, known);
        vs := [v] + ws;
        SeparatedArguments(ss, s, s3, s', CallBase(below, name, k + |ss| - 1), mine, v, ws);
      } else {
        s', mine, vs := UnseparatedArguments(ss, s, s2, below, name, k, xs, v, rest, known);
      }
    }
  }

  lemma CallIsFence(below: seq<Entry>, name: string, k: nat)
    ensures Fenced(CallBase(below, name, k))
  {
  }

  lemma {:induction false} OnlyArgument(ss: seq<Syntax>, s: State, rest: seq<Token>, known: Known)
    returns (s': State, mine: seq<Entry>, vs: seq<Expr>)
    requires |ss| == 1 && AllSound(ss, known) && rest != [] && rest[0] == RightParen
    requires Levels(s) && Plainly(s) && Fenced(s.operators)
    ensures Run(s, ArgumentSpelling(ss) + rest, known) == Run(s', rest, known)
    ensures LeftArguments(ss, s, s', s.operators, mine, vs)
    decreases ss[0], 3
  {
    hide Run, LeftArguments, Left, Yields, Need, Weights, Applied, PopWhile;
    assert s.operators + [] == s.operators;
    var xs, v;
    s', xs, v := Parses(ss[0], s, s.operators, [], rest, known);
    mine, vs := LastArgument(ss, s, s', xs, v, known);
  }

  /** After a separated argument the call's arguments go on as they began. */
  lemma StillInCall(ss: seq<Syntax>, s: State, s2: State, s3: State, below: seq<Entry>, name: string, k: nat,
                    xs: seq<Expr>, v: Expr, known: Known)
    requires |ss| > 1 && AllSound(ss, known) && Levels(s) && Plainly(s)
    requires LeftFirst(ss[0], s, s2, CallBase(below, name, k + 1), xs, v)
    requires s3 == s2.(arguments := s.arguments + [v], operators := CallBase(below, name, k + 1))
    ensures Fenced(CallBase(below, name, k + 1)) && AllSound(ss[1..], known)
    ensures Levels(s3) && Plainly(s3) && s3.functions == s.functions
    ensures s3 == s.(arguments := s.arguments + [v], operators := s3.operators, literal := s3.literal)
    ensures (v == Meaning(ss[0]) <==> Apart(ss[0])) && Weight(v) == Weight(Meaning(ss[0]))
  {
    hide Weight, Applied, Apart, Meaning, Need;
  }

  /** What is left once an argument and its comma are read. */
  predicate LeftFirst(x: Syntax, s: State, s': State, base: seq<Entry>, xs: seq<Expr>, v: Expr) {
    && s' == s.(arguments := s.arguments + xs, operators := base + Pending(x), literal := s'.literal)
    && Applied(xs, Pending(x)) == Some(v)
    && |xs| == 1 + Need(Pending(x))
    && (v == Meaning(x) <==> Apart(x))
    && Weight(v) == Weight(Meaning(x))
    && (Pending(x) != [] ==> Weight(xs[0]) < Weight(v))
  }

  lemma {:induction false} FirstArgument(ss: seq<Syntax>, s: State, below: seq<Entry>, name: string, k: nat,
                                         rest: seq<Token>, known: Known)
    returns (s': State, xs: seq<Expr>, v: Expr)
    requires |ss| > 1 && AllSound(ss, known)
    requires Levels(s) && Plainly(s) && s.operators == CallBase(below, name, k)
    requires s.functions != [] && s.functions[|s.functions| - 1].index == |below|
    ensures Run(s, ArgumentSpelling(ss) + rest, known) == Run(s', ArgumentSpelling(ss[1..]) + rest, known)
    ensures LeftFirst(ss[0], s, s', CallBase(below, name, k + 1), xs, v)
    decreases ss[0], 3
  {
    hide Run, Need, Weight, Applied, Apart, Meaning, Pending;
    var x := ss[0];
    assert s.operators + [] == s.operators;
    var after := ArgumentSpelling(ss[1..]) + rest;
    assert ArgumentSpelling(ss) + rest == Spelling(x) + ([Comma] + after);
    var s1;
    s1, xs, v := Parses(x, s, s.operators, [], [Comma] + after, known);
    CommaCounts(s1, below, name, k, Pending(x), after, known);
    s' := s1.(operators := CallBase(below, name, k + 1) + Pending(x));
  }

  /** The argument after a separated one starts with the separated one built. */
  lemma NextStarts(ss: seq<Syntax>, s: State, s2: State, s3: State, base: seq<Entry>, xs: seq<Expr>, v: Expr,
                   rest: seq<Token>, known: Known)
    requires |ss| > 1 && AllSound(ss, known) && Separated(ss[0], ss[1])
    requires LeftFirst(ss[0], s, s2, base, xs, v) && Fenced(base)
    requires s3 == s2.(arguments := s.arguments + [v], operators := base)
    ensures Run(s2, ArgumentSpelling(ss[1..]) + rest, known) == Run(s3, ArgumentSpelling(ss[1..]) + rest, known)
    ensures (v == Meaning(ss[0]) <==> Apart(ss[0])) && Weight(v) == Weight(Meaning(ss[0]))
  {
    hide Run, Separated, Applied, PopWhile, Need, Apart, Weight;
    var more := ss[1..];
    SeparatedArgument(ss[0], more[0], s, s2, s3, base, xs, v, known);
    if Pending(ss[0]) != [] {
      MoreStartsWith(more, rest);
      LeadingNot(s2, more[0], AfterFirst(more, rest), known);
    }
  }

  lemma LastArgument(ss: seq<Syntax>, s: State, s': State, xs: seq<Expr>, v: Expr, known: Known)
    returns (mine: seq<Entry>, vs: seq<Expr>)
    requires |ss| == 1 && Sound(ss[0], known) && Left(ss[0], s, s', xs, v)
    requires Plainly(s) && Fenced(s.operators)
    ensures LeftArguments(ss, s, s', s.operators, mine, vs)
  {
    hide Yields, Weights;
    mine, vs := Pending(ss[0]), [v];
    NeedIsNat(mine);
    AllYieldToClosing(ss[0], known);
    FenceHolds(s.operators, Closing);
    AllApplied(s', Closing, s.operators, mine, s.arguments, xs, v);
    AppliedWeighs(xs, mine, v);
    WeightsConcat(s.arguments, xs);
    OneWeighs(ss);
    assert Meanings(ss) == [Meaning(ss[0])];
    assert AllApart(ss) == Apart(ss[0]);
  }

  /** What follows the first argument. */
  function AfterFirst(ss: seq<Syntax>, rest: seq<Token>): seq<Token>
    requires ss != []
  {
    if |ss| == 1 then rest else [Comma] + (ArgumentSpelling(ss[1..]) + rest)
  }

  lemma MoreStartsWith(ss: seq<Syntax>, rest: seq<Token>)
    requires ss != []
    ensures ArgumentSpelling(ss) + rest == Spelling(ss[0]) + AfterFirst(ss, rest)
  {
  }

  /** A separated argument is one expression by the time the next one starts. */
  lemma SeparatedArgument(x: Syntax, next: Syntax, s: State, s2: State, s3: State, base: seq<Entry>, xs: seq<Expr>, v: Expr, known: Known)
    requires Sound(x, known) && Separated(x, next)
    requires s2.operators == base + Pending(x) && s2.arguments == s.arguments + xs
    requires Applied(xs, Pending(x)) == Some(v) && Fenced(base)
    requires s3 == s2.(arguments := s.arguments + [v], operators := base)
    ensures if Pending(x) == [] then s2 == s3 else StartsWithNot(next) && PopWhile(s2, Arriving(Not)) == Ok(s3)
  {
    if Pending(x) == [] {
      SingleApplied(xs, v);
      assert base + [] == base;
    } else {
      SpineBinds(x, known);
      FenceHolds(base, Arriving(Not));
      AllApplied(s2, Arriving(Not), base, Pending(x), s.arguments, xs, v);
    }
  }

  lemma SeparatedArguments(ss: seq<Syntax>, s: State, s3: State, s': State, base: seq<Entry>, mine: seq<Entry>, v: Expr, ws: seq<Expr>)
    requires |ss| > 1 && Separated(ss[0], ss[1])
    requires s3 == s.(arguments := s.arguments + [v], operators := s3.operators, literal := s3.literal)
    requires (v == Meaning(ss[0]) <==> Apart(ss[0])) && Weight(v) == Weight(Meaning(ss[0]))
    requires LeftArguments(ss[1..], s3, s', base, mine, ws)
    ensures LeftArguments(ss, s, s', base, mine, [v] + ws)
  {
    hide Weights, PopWhile, Apart, Need;
    var more := ss[1..];
    assert s3.arguments + ws == s.arguments + ([v] + ws);
    assert Meanings(ss) == [Meaning(ss[0])] + Meanings(more);
    assert ([v] + ws)[0] == v && ([v] + ws)[1..] == ws;
    assert Meanings(ss)[0] == Meaning(ss[0]) && Meanings(ss)[1..] == Meanings(more);
    FirstWeighs(ss);
    WeightsConcat(s.arguments, [v]);
    OneExprWeighs(v);
  }

  lemma OneExprWeighs(v: Expr)
    ensures Weights([v]) == Weight(v)
  {
    assert [v][..0] == [];
    NothingWeighs();
  }

  /** An operator pending across a comma takes operands of the wrong argument: the first
      argument that is not separated ends up as its own leftmost operand. */
  lemma UnseparatedArguments(ss: seq<Syntax>, s: State, s2: State, below: seq<Entry>, name: string, k: nat,
                             xs: seq<Expr>, v: Expr, rest: seq<Token>, known: Known)
    returns (s': State, mine: seq<Entry>, vs: seq<Expr>)
    requires |ss| > 1 && AllSound(ss, known) && !Separated(ss[0], ss[1]) && rest != [] && rest[0] == RightParen
    requires Levels(s) && Plainly(s) && s.operators == CallBase(below, name, k)
    requires s.functions != [] && s.functions[|s.functions| - 1].index == |below|
    requires LeftFirst(ss[0], s, s2, CallBase(below, name, k + 1), xs, v)
    ensures Run(s2, ArgumentSpelling(ss[1..]) + rest, known) == Run(s', rest, known)
    ensures LeftArguments(ss, s, s', CallBase(below, name, k + |ss| - 1), mine, vs)
  {
    hide Run, Weights, Yields, Need, Applied, PopWhile;
    var x, more, es := ss[0], ss[1..], Pending(ss[0]);
    var base, fixed := CallBase(below, name, k + 1), |s.arguments| + 1;
    var s3, mine3, ys := StartUnseparated(x, more, s, s2, base, xs, v, rest, known);
    s', mine := ArgumentsConserved(more, s3, below, name, k + 1, mine3, fixed, rest, known);
    var s4 := FrameCloses(s', below + [Entry(Call(name), k + |ss| - 1)], mine, fixed, |ss| - 1);
    vs := s4.arguments[|s.arguments|..];
    assert s4.arguments[..fixed] == s3.arguments[..fixed];
    assert s3.arguments[..|s.arguments|] == s.arguments;
    assert s4.arguments[..|s.arguments|] == s4.arguments[..fixed][..|s.arguments|] == s.arguments;
    assert s4.arguments == s.arguments + vs;
    assert vs[0] == s4.arguments[..fixed][|s.arguments|] == ys[0];
    assert vs[0] != Meaning(x);
    assert Meanings(ss)[0] == Meaning(x);
    FirstWeighs(ss);
  }

  /** The state in which the argument after an unseparated one starts to make itself felt. */
  lemma StartUnseparated(x: Syntax, more: seq<Syntax>, s: State, s2: State, base: seq<Entry>, xs: seq<Expr>, v: Expr,
                         rest: seq<Token>, known: Known)
    returns (s3: State, mine: seq<Entry>, ys: seq<Expr>)
    requires more != [] && AllSound(more, known) && Sound(x, known) && !Separated(x, more[0])
    requires s2 == s.(arguments := s.arguments + xs, operators := base + Pending(x), literal := s2.literal)
    requires Plainly(s) && Fenced(base) && |xs| == 1 + Need(Pending(x)) && Applied(xs, Pending(x)) == Some(v)
    requires Weight(v) == Weight(Meaning(x)) && (Pending(x) != [] ==> Weight(xs[0]) < Weight(v))
    ensures Run(s2, ArgumentSpelling(more) + rest, known) == Run(s3, ArgumentSpelling(more) + rest, known)
    ensures s3 == s.(arguments := s.arguments + ys, operators := base + mine, literal := s3.literal)
    ensures InFrame(s3, base, mine, |s.arguments| + 1) && |s3.arguments| == |s.arguments| + 1 + Need(mine)
    ensures Quiet(mine, more[0])
    ensures |ys| > 0 && ys[0] != Meaning(x)
    ensures Weights(s3.arguments) + |mine| == Weights(s.arguments) + Weight(Meaning(x))
  {
    hide Run, Weights, Applied, PopWhile;
    var es := Pending(x);
    AppliedWeighs(xs, es, v);
    WeightsConcat(s.arguments, xs);
    NeedIsNat(es);
    SpineBinds(x, known);
    if StartsWithNot(more[0]) {
      var k;
      k, ys := BottomStays(s2, base, es, s.arguments, xs);
      mine := es[..k];
      s3 := s2.(arguments := s.arguments + ys, operators := base + mine);
      MoreStartsWith(more, rest);
      LeadingNot(s2, more[0], AfterFirst(more, rest), known);
    } else {
      s3, mine, ys := s2, es, xs;
    }
    NeedIsNat(mine);
  }

  // ---------------------------------------------------------------- calls

  lemma {:induction false} CallParses(x: Syntax, s: State, base: seq<Entry>, mine: seq<Entry>, rest: seq<Token>, known: Known)
    returns (s': State, xs: seq<Expr>, v: Expr)
    requires x.SCall? && Sound(x, known) && Follows(rest) && Ready(s, base, mine)
    ensures Run(s, Spelling(x) + rest, known) == Run(s', rest, known)
    ensures Left(x, s, s', xs, v)
    decreases x, 1
  {
    hide Run, Yields, Weight, Weights, Need, PopWhile, LeftArguments, Left;
    var SCall(name, args) := x;
    var after := [RightParen] + rest;
    assert Spelling(x) + rest == [Id(name), LeftParen] + (ArgumentSpelling(args) + after);
    var s1 := CallOpens(s, name, args, rest, known);
    var s2, mine2, vs := s1, [], [];
    if args == [] {
      assert ArgumentSpelling(args) + after == after;
      NoArguments(s1, s.operators, name);
    } else {
      s2, mine2, vs := ArgumentsParse(args, s1, s.operators, name, 1, after, known);
    }
    s' := CallEnds(x, s, s1, s2, mine2, vs, rest, known);
    v := Node(Call(name), vs);
    xs := [v];
  }

  lemma CallEnds(x: Syntax, s: State, s1: State, s2: State, mine: seq<Entry>, vs: seq<Expr>, rest: seq<Token>, known: Known)
    returns (s': State)
    requires x.SCall? && Sound(x, known)
    requires s1 == s.(operators := s1.operators, paren := s.paren + 1, functions := s.functions + [Frame(|s.operators|, s.paren)])
    requires LeftArguments(x.args, s1, s2, CallBase(s.operators, x.name, |x.args|), mine, vs)
    requires x.args == [] ==> mine == []
    ensures Run(s2, [RightParen] + rest, known) == Run(s', rest, known)
    ensures Left(x, s, s', [Node(Call(x.name), vs)], Node(Call(x.name), vs))
  {
    assert (x.name, |x.args|) in known;
    hide Run, Yields, Weights, Need, PopWhile, Left, Sound;
    var n, v := |s.arguments|, Node(Call(x.name), vs);
    s' := CallCloses(s2, s.operators, x.name, mine, n, |x.args|, s.functions, rest, known);
    var built := PopWhile(s2, Closing).state.arguments;
    assert built[..n] == s.arguments && built[n..] == vs;
    assert s'.arguments == s.arguments + [v];
    WeightsConcat(s.arguments, [v]);
    OneExprWeighs(v);
    Alone(x, s, s', v);
  }

  lemma NoArguments(s: State, below: seq<Entry>, name: string)
    requires Plainly(s) && s.operators == CallBase(below, name, 0)
    ensures LeftArguments([], s, s, CallBase(below, name, 0), [], [])
  {
    assert PopWhile(s, Closing) == Ok(s);
    assert s.arguments + [] == s.arguments;
    assert CallBase(below, name, 0) + [] == CallBase(below, name, 0);
    NothingWeighs();
  }

  // ---------------------------------------------------------------- whole expressions

  /** Every written expression parses, to what is meant exactly if the arguments of its calls
      are separated. */
  lemma ParsesExactly(x: Syntax, known: Known)
    requires Sound(x, known)
    ensures Parse(Spelling(x), known).Tree?
    ensures Parse(Spelling(x), known) == Tree(Meaning(x)) <==> Apart(x)
  {
    assert Spelling(x) + [] == Spelling(x);
    assert START.operators + [] == START.operators;
    var s, xs, v := Parses(x, START, [], [], [], known);
    AllYieldToClosing(x, known);
    assert START.arguments + xs == xs && START.operators + Pending(x) == Pending(x);
    AllApplied(s, Ending, [], Pending(x), [], xs, v);
    assert Run(s, [], known) == Ok(s);
  }

  /** Parsing inverts the spelling with fewest parentheses, for every expression tree. */
  lemma MinimalRoundTrip(e: Expr, known: Known)
    requires Buildable(e, known)
    ensures Parse(Spelling(Minimal(e, known)), known) == Tree(e)
  {
    MinimalIsSound(e, known);
    ParsesExactly(Minimal(e, known), known);
  }
}
