/** The grammar of expressions, level by level, and that the parser follows it. */
module InjaGrammar {
  import opened InjaMachine
  import opened InjaSyntax
  import opened InjaRoundTrip

  const LOGICAL: set<Infix> := {And, Or}
  const COMPARING: set<Infix> := {In, Equal, NotEqual, Greater, GreaterEqual, Less, LessEqual}
  const ADDING: set<Infix> := {Add, Subtract}
  const MULTIPLYING: set<Infix> := {Multiplication, Division, Modulo}

  /** A logical operator has another logical expression on its left and a comparison on its
      right, and so on down the levels. */
  predicate IsExpression(s: Syntax, known: Known)
    decreases s, 6
  {
    || (s.SInfix? && s.infix in LOGICAL && IsExpression(s.left, known) && IsComparison(s.right, known))
    || IsComparison(s, known)
  }

  predicate IsComparison(s: Syntax, known: Known)
    decreases s, 5
  {
    || (s.SInfix? && s.infix in COMPARING && IsComparison(s.left, known) && IsSum(s.right, known))
    || IsSum(s, known)
  }

  predicate IsSum(s: Syntax, known: Known)
    decreases s, 4
  {
    || (s.SInfix? && s.infix in ADDING && IsSum(s.left, known) && IsProduct(s.right, known))
    || IsProduct(s, known)
  }

  /** `not` stands on this level too, but only in front of a product. */
  predicate IsProduct(s: Syntax, known: Known)
    decreases s, 3
  {
    || (s.SInfix? && s.infix in MULTIPLYING && IsProduct(s.left, known) && IsPower(s.right, known))
    || (s.SNot? && IsPower(s.operand, known))
    || IsPower(s, known)
  }

  /** Powers go on to the right. */
  predicate IsPower(s: Syntax, known: Known)
    decreases s, 2
  {
    || (s.SInfix? && s.infix == Power && IsMember(s.left, known) && IsPower(s.right, known))
    || IsMember(s, known)
  }

  predicate IsMember(s: Syntax, known: Known)
    decreases s, 1
  {
    || (s.SInfix? && s.infix == AtId && IsMember(s.left, known) && IsAtom(s.right, known))
    || IsAtom(s, known)
  }

  predicate IsAtom(s: Syntax, known: Known)
    decreases s, 0
  {
    match s
    case SLiteral(ts) => IsLiteral(ts)
    case SVariable(n) => IsName(n)
    case SParen(x) => IsExpression(x, known)
    case SCall(n, args) => IsName(n) && (n, |args|) in known && forall i :: 0 <= i < |args| ==> IsExpression(args[i], known)
    case _ => false
  }

  /** An argument ends before the next one begins if it is an atom, or a product and the next
      one begins with `not`. */
  predicate EndsBefore(s: Syntax, next: Syntax, known: Known) {
    IsAtom(s, known) || (IsProduct(s, known) && StartsWithNot(next))
  }

  /** So do all arguments of calls but the last. */
  predicate ArgumentsEnd(s: Syntax, known: Known) {
    match s
    case SLiteral(_) => true
    case SVariable(_) => true
    case SInfix(_, l, r) => ArgumentsEnd(l, known) && ArgumentsEnd(r, known)
    case SNot(x) => ArgumentsEnd(x, known)
    case SParen(x) => ArgumentsEnd(x, known)
    case SCall(_, args) =>
      && (forall i :: 0 <= i < |args| ==> ArgumentsEnd(args[i], known))
      && forall i :: 0 < i < |args| ==> EndsBefore(args[i - 1], args[i], known)
  }

  // ---------------------------------------------------------------- the parser follows it

  /** The levels an expression can stand on, from what is open in it. */
  ghost predicate Stands(s: Syntax, known: Known) {
    && (IsExpression(s, known) <==> Sound(s, known))
    && (IsComparison(s, known) <==> Sound(s, known) && Above(s, 1))
    && (IsSum(s, known) <==> Sound(s, known) && Above(s, 2))
    && (IsProduct(s, known) <==> Sound(s, known) && Above(s, 3))
    && (IsPower(s, known) <==> Sound(s, known) && Above(s, 4))
    && (IsMember(s, known) <==> Sound(s, known) && Above(s, 5))
    && (IsAtom(s, known) <==> Sound(s, known) && Root(s).None?)
  }

  predicate Above(s: Syntax, level: nat) {
    Root(s).Some? ==> Precedence(Root(s).value) > level
  }

  /** The grammar's expressions are those whose operands have the parentheses they need. */
  lemma {:induction false} GrammarIsSound(s: Syntax, known: Known)
    ensures Stands(s, known)
  {
    match s
    case SLiteral(_) => AtomStands(s, known);
    case SVariable(_) => AtomStands(s, known);
    case SInfix(i, l, r) =>
      GrammarIsSound(l, known);
      GrammarIsSound(r, known);
      InfixStands(i, l, r, known);
    case SNot(x) =>
      GrammarIsSound(x, known);
      NotStands(x, known);
    case SParen(x) =>
      GrammarIsSound(x, known);
      AtomStands(s, known);
    case SCall(_, args) =>
      forall i | 0 <= i < |args| ensures Stands(args[i], known) { GrammarIsSound(args[i], known); }
      AtomStands(s, known);
  }

  /** What an operator asks of its operands, level by level. */
  predicate Joins(i: Infix, l: Syntax, r: Syntax, known: Known) {
    if i in LOGICAL then IsExpression(l, known) && IsComparison(r, known)
    else if i in COMPARING then IsComparison(l, known) && IsSum(r, known)
    else if i in ADDING then IsSum(l, known) && IsProduct(r, known)
    else if i in MULTIPLYING then IsProduct(l, known) && IsPower(r, known)
    else if i == Power then IsMember(l, known) && IsPower(r, known)
    else IsMember(l, known) && IsAtom(r, known)
  }

  lemma Table(i: Infix)
    ensures if i in LOGICAL then InfixPrecedence(i) == 1
            else if i in COMPARING then InfixPrecedence(i) == 2
            else if i in ADDING then InfixPrecedence(i) == 3
            else if i in MULTIPLYING then InfixPrecedence(i) == 4
            else if i == Power then InfixPrecedence(i) == 5
            else InfixPrecedence(i) == 8
  {
  }

  lemma RootTable(s: Syntax)
    ensures Root(s).Some? ==>
              var p := Precedence(Root(s).value); 1 <= p <= 8 && (p > 5 ==> p == 8) && (p == 5 <==> Root(s).value == Binary(Power))
  {
    if s.SInfix? { Table(s.infix); }
  }

  lemma JoinsIsSound(i: Infix, l: Syntax, r: Syntax, known: Known)
    requires Stands(l, known) && Stands(r, known)
    ensures Joins(i, l, r, known) <==> Sound(SInfix(i, l, r), known)
  {
    hide IsExpression, IsComparison, IsSum, IsProduct, IsPower, IsMember, IsAtom, InfixPrecedence, Root;
    Table(i);
    RootTable(l);
    RootTable(r);
  }

  /** An infix expression stands on the level of its operator and on those above. */
  lemma JoinsStands(i: Infix, l: Syntax, r: Syntax, known: Known)
    ensures var s, here := SInfix(i, l, r), Joins(i, l, r, known);
            && !IsAtom(s, known) && (IsMember(s, known) <==> here && i == AtId)
            && (IsPower(s, known) <==> here && (i == AtId || i == Power))
            && (IsProduct(s, known) <==> here && (i == AtId || i == Power || i in MULTIPLYING))
            && (IsSum(s, known) <==> here && i !in LOGICAL && i !in COMPARING)
            && (IsComparison(s, known) <==> here && i !in LOGICAL)
            && (IsExpression(s, known) <==> here)
  {
  }

  lemma InfixStands(i: Infix, l: Syntax, r: Syntax, known: Known)
    requires Stands(l, known) && Stands(r, known)
    ensures Stands(SInfix(i, l, r), known)
  {
    JoinsIsSound(i, l, r, known);
    JoinsStands(i, l, r, known);
    hide Sound, IsExpression, IsComparison, IsSum, IsProduct, IsPower, IsMember, IsAtom, Joins;
  }

  lemma NotStands(x: Syntax, known: Known)
    requires Stands(x, known)
    ensures Stands(SNot(x), known)
  {
    var s := SNot(x);
    assert !IsMember(s, known) && !IsPower(s, known);
    assert IsProduct(s, known) <==> IsPower(x, known);
    assert IsSum(s, known) <==> IsPower(x, known);
    assert IsComparison(s, known) <==> IsPower(x, known);
  }

  lemma AtomStands(s: Syntax, known: Known)
    requires Root(s).None? && (IsAtom(s, known) <==> Sound(s, known))
    ensures Stands(s, known)
  {
    assert IsPower(s, known) <==> IsAtom(s, known);
    assert IsSum(s, known) <==> IsAtom(s, known);
  }

  lemma {:induction false} ArgumentsEndApart(s: Syntax, known: Known)
    requires Sound(s, known)
    ensures ArgumentsEnd(s, known) <==> Apart(s)
    decreases s, 1
  {
    match s
    case SLiteral(_) =>
    case SVariable(_) =>
    case SInfix(_, l, r) =>
      ArgumentsEndApart(l, known);
      ArgumentsEndApart(r, known);
    case SNot(x) => ArgumentsEndApart(x, known);
    case SParen(x) => ArgumentsEndApart(x, known);
    case SCall(_, args) => AllEndApart(args, known);
  }

  lemma {:induction false} AllEndApart(ss: seq<Syntax>, known: Known)
    requires AllSound(ss, known)
    ensures (forall i :: 0 <= i < |ss| ==> ArgumentsEnd(ss[i], known)) && (forall i :: 0 < i < |ss| ==> EndsBefore(ss[i - 1], ss[i], known))
       <==> AllApart(ss)
    decreases ss, 0
  {
    if ss != [] {
      ArgumentsEndApart(ss[0], known);
      AllEndApart(ss[1..], known);
      GrammarIsSound(ss[0], known);
      if |ss| > 1 { assert EndsBefore(ss[0], ss[1], known) <==> Separated(ss[0], ss[1]); }
      AllEndRest(ss, known);
    }
  }

  lemma AllEndRest(ss: seq<Syntax>, known: Known)
    requires ss != []
    ensures (forall i :: 0 <= i < |ss| ==> ArgumentsEnd(ss[i], known))
       <==> ArgumentsEnd(ss[0], known) && forall i :: 0 <= i < |ss[1..]| ==> ArgumentsEnd(ss[1..][i], known)
    ensures (forall i :: 0 < i < |ss| ==> EndsBefore(ss[i - 1], ss[i], known))
       <==> (|ss| > 1 ==> EndsBefore(ss[0], ss[1], known))
            && forall i :: 0 < i < |ss[1..]| ==> EndsBefore(ss[1..][i - 1], ss[1..][i], known)
  {
    hide ArgumentsEnd, EndsBefore;
    var more := ss[1..];
    if forall i :: 0 < i < |more| ==> EndsBefore(more[i - 1], more[i], known) {
      forall i | 1 < i < |ss| ensures EndsBefore(ss[i - 1], ss[i], known) {
        assert EndsBefore(more[i - 2], more[i - 1], known);
      }
    }
    if forall i :: 0 < i < |ss| ==> EndsBefore(ss[i - 1], ss[i], known) {
      forall i | 0 < i < |more| ensures EndsBefore(more[i - 1], more[i], known) {
        assert EndsBefore(ss[i], ss[i + 1], known);
      }
    }
    assert forall i :: 0 < i < |ss| ==> ss[i] == more[i - 1];
  }

  /** Every expression of the grammar is parsed to a tree, and to the tree the grammar gives it
      exactly if the arguments of its calls end in time. */
  lemma GrammarIsParsed(s: Syntax, known: Known)
    requires IsExpression(s, known)
    ensures Parse(Spelling(s), known).Tree?
    ensures Parse(Spelling(s), known) == Tree(Meaning(s)) <==> ArgumentsEnd(s, known)
  {
    GrammarIsSound(s, known);
    ArgumentsEndApart(s, known);
    ParsesExactly(s, known);
  }

  // ---------------------------------------------------------------- two operators

  /** Which of two operators in a row takes what stands between them, name by name. */
  predicate LeftTakes(o: Infix, p: Infix) {
    match o
    case And => p in {And, Or}
    case Or => p in {And, Or}
    case In => p in LOGICAL + COMPARING
    case Equal => p in LOGICAL + COMPARING
    case NotEqual => p in LOGICAL + COMPARING
    case Greater => p in LOGICAL + COMPARING
    case GreaterEqual => p in LOGICAL + COMPARING
    case Less => p in LOGICAL + COMPARING
    case LessEqual => p in LOGICAL + COMPARING
    case Add => p in LOGICAL + COMPARING + ADDING
    case Subtract => p in LOGICAL + COMPARING + ADDING
    case Multiplication => p != Power && p != AtId
    case Division => p != Power && p != AtId
    case Modulo => p != Power && p != AtId
    case Power => p != Power && p != AtId
    case AtId => true
  }

  lemma AtomIsAll(a: Syntax, known: Known)
    requires IsAtom(a, known)
    ensures IsMember(a, known) && IsPower(a, known) && IsProduct(a, known) && IsSum(a, known) && IsComparison(a, known)
    ensures IsExpression(a, known)
  {
    assert IsPower(a, known);
    assert IsSum(a, known);
  }

  function Grouped(a: Syntax, o: Infix, b: Syntax, p: Infix, c: Syntax): Syntax {
    if LeftTakes(o, p) then SInfix(p, SInfix(o, a, b), c) else SInfix(o, a, SInfix(p, b, c))
  }

  lemma GroupedIsExpression(a: Syntax, o: Infix, b: Syntax, p: Infix, c: Syntax, known: Known)
    requires IsAtom(a, known) && IsAtom(b, known) && IsAtom(c, known)
    ensures IsExpression(Grouped(a, o, b, p, c), known)
  {
    AtomIsAll(a, known);
    AtomIsAll(b, known);
    AtomIsAll(c, known);
    hide IsExpression, IsComparison, IsSum, IsProduct, IsPower, IsMember, IsAtom;
    JoinsStands(o, a, b, known);
    JoinsStands(p, b, c, known);
    JoinsStands(p, SInfix(o, a, b), c, known);
    JoinsStands(o, a, SInfix(p, b, c), known);
  }

  /** a o b p c for every pair of operators. */
  lemma TwoOperators(a: Syntax, o: Infix, b: Syntax, p: Infix, c: Syntax, known: Known)
    requires IsAtom(a, known) && IsAtom(b, known) && IsAtom(c, known)
    requires ArgumentsEnd(a, known) && ArgumentsEnd(b, known) && ArgumentsEnd(c, known)
    ensures var ts := Spelling(a) + ([InfixToken(o)] + (Spelling(b) + ([InfixToken(p)] + Spelling(c))));
            Parse(ts, known) ==
            Tree(if LeftTakes(o, p) then Node(Binary(p), [Node(Binary(o), [Meaning(a), Meaning(b)]), Meaning(c)])
                 else Node(Binary(o), [Meaning(a), Node(Binary(p), [Meaning(b), Meaning(c)])]))
  {
    GroupedIsExpression(a, o, b, p, c, known);
    hide IsExpression, IsAtom, Parse, LeftTakes;
    GrammarIsParsed(Grouped(a, o, b, p, c), known);
    SpeltAlike(a, o, b, p, c);
  }

  lemma SpeltAlike(a: Syntax, o: Infix, b: Syntax, p: Infix, c: Syntax)
    ensures Spelling(SInfix(p, SInfix(o, a, b), c)) == Spelling(SInfix(o, a, SInfix(p, b, c)))
    ensures Spelling(SInfix(o, a, SInfix(p, b, c))) ==
            Spelling(a) + ([InfixToken(o)] + (Spelling(b) + ([InfixToken(p)] + Spelling(c))))
  {
  }

  // ---------------------------------------------------------------- words

  /** Seven words are no names. */
  lemma NamesAre(n: string)
    ensures IsName(n) <==> n !in {"true", "false", "null", "and", "or", "in", "not"}
  {
  }

  /** Three of them are values, as they stand; a name is a variable. */
  lemma WordsAre(w: string, known: Known)
    ensures w in {"true", "false", "null"} ==> Parse([Id(w)], known) == Tree(Literal([Id(w)]))
    ensures IsName(w) ==> Parse([Id(w)], known) == Tree(Variable(w))
  {
    if IsName(w) {
      AtomIsAll(SVariable(w), known);
      GrammarIsParsed(SVariable(w), known);
    } else if w in {"true", "false", "null"} {
      AtomIsAll(SLiteral([Id(w)]), known);
      GrammarIsParsed(SLiteral([Id(w)]), known);
    }
  }
}
