/** Written expressions: what they mean, how they are spelt in tokens, and when their
    parentheses say what is meant. */
module InjaSyntax {
  import opened InjaMachine

  /** An expression as written, with the parentheses that were put in. */
  datatype Syntax =
    | SLiteral(tokens: seq<Token>)
    | SVariable(name: string)
    | SInfix(infix: Infix, left: Syntax, right: Syntax)
    | SNot(operand: Syntax)
    | SParen(inner: Syntax)
    | SCall(name: string, args: seq<Syntax>)

  function Meaning(s: Syntax): Expr {
    match s
    case SLiteral(ts) => Literal(ts)
    case SVariable(n) => Variable(n)
    case SInfix(i, l, r) => Node(Binary(i), [Meaning(l), Meaning(r)])
    case SNot(x) => Node(Not, [Meaning(x)])
    case SParen(x) => Meaning(x)
    case SCall(n, args) => Node(Call(n), Meanings(args))
  }

  function Meanings(ss: seq<Syntax>): (es: seq<Expr>)
    ensures |es| == |ss|
  {
    if ss == [] then [] else [Meaning(ss[0])] + Meanings(ss[1..])
  }

  function InfixToken(i: Infix): Token {
    match i
    case And => Id("and")
    case Or => Id("or")
    case In => Id("in")
    case _ => Symbol(i)
  }

  function Spelling(s: Syntax): seq<Token> {
    match s
    case SLiteral(ts) => ts
    case SVariable(n) => [Id(n)]
    case SInfix(i, l, r) => Spelling(l) + ([InfixToken(i)] + Spelling(r))
    case SNot(x) => [Id("not")] + Spelling(x)
    case SParen(x) => [LeftParen] + (Spelling(x) + [RightParen])
    case SCall(n, args) => [Id(n), LeftParen] + (ArgumentSpelling(args) + [RightParen])
  }

  function ArgumentSpelling(ss: seq<Syntax>): seq<Token> {
    if ss == [] then []
    else if |ss| == 1 then Spelling(ss[0])
    else Spelling(ss[0]) + ([Comma] + ArgumentSpelling(ss[1..]))
  }

  // ---------------------------------------------------------------- well-formedness

  /** The levels of brackets and braces after a token inside an array or object; such a
      token leaves the rest of the parser alone. */
  datatype Depth = Depth(bracket: nat, brace: nat) | Astray

  function Deeper(d: Depth, t: Token): Depth {
    if d.Astray? then Astray
    else
      match t
      case LeftBracket => d.(bracket := d.bracket + 1)
      case LeftBrace => d.(brace := d.brace + 1)
      case RightBracket => if d.bracket == 0 then Astray else d.(bracket := d.bracket - 1)
      case RightBrace => if d.brace == 0 then Astray else d.(brace := d.brace - 1)
      case Text(_) => d
      case Comma => d
      case Colon => d
      case Id(n) => if LiteralWord(n) then d else Astray
      case _ => Astray
  }

  const LEVEL := Depth(0, 0)

  /** The tokens close what is open at depth d, and not before their end. */
  predicate Closes(d: Depth, ts: seq<Token>)
    decreases |ts|
  {
    if ts == [] then d == LEVEL else d != LEVEL && Closes(Deeper(d, ts[0]), ts[1..])
  }

  predicate IsLiteral(ts: seq<Token>) {
    && ts != []
    && (match ts[0]
        case Text(_) => |ts| == 1
        case Id(n) => LiteralWord(n) && |ts| == 1
        case LeftBracket => Closes(Depth(1, 0), ts[1..])
        case LeftBrace => Closes(Depth(0, 1), ts[1..])
        case _ => false)
  }

  predicate IsName(n: string) {
    !LiteralWord(n) && OperatorWord(n).None?
  }

  /** The operator that is open on the right of an expression, if any. */
  function Root(s: Syntax): Option<Op> {
    match s
    case SInfix(i, _, _) => Some(Binary(i))
    case SNot(_) => Some(Not)
    case _ => None
  }

  /** An operand left of operator o needs no more parentheses than it has. */
  predicate LeftFits(s: Syntax, o: Op) {
    match Root(s)
    case None => true
    case Some(r) => Precedence(r) > Precedence(o) || (Precedence(r) == Precedence(o) && LeftAssociative(o))
  }

  predicate RightFits(o: Op, s: Syntax) {
    match Root(s)
    case None => true
    case Some(r) => Precedence(r) > Precedence(o) || (Precedence(r) == Precedence(o) && !LeftAssociative(r))
  }

  /** Every operand is parenthesised if it has to be, and every call is of a known function. */
  predicate Sound(s: Syntax, known: Known) {
    match s
    case SLiteral(ts) => IsLiteral(ts)
    case SVariable(n) => IsName(n)
    case SInfix(i, l, r) => Sound(l, known) && Sound(r, known) && LeftFits(l, Binary(i)) && RightFits(Binary(i), r)
    case SNot(x) => Sound(x, known) && RightFits(Not, x)
    case SParen(x) => Sound(x, known)
    case SCall(n, args) => IsName(n) && (n, |args|) in known && AllSound(args, known)
  }

  predicate AllSound(ss: seq<Syntax>, known: Known) {
    forall i :: 0 <= i < |ss| ==> Sound(ss[i], known)
  }

  predicate StartsWithNot(s: Syntax) {
    match s
    case SNot(_) => true
    case SInfix(_, l, _) => StartsWithNot(l)
    case _ => false
  }

  /** A comma does not apply pending operators. They are applied in time only if the argument
      leaves none, or if the next one starts with `not` and none of them yields to it. */
  predicate Separated(s: Syntax, next: Syntax) {
    match Root(s)
    case None => true
    case Some(r) => Precedence(r) >= Precedence(Not) && StartsWithNot(next)
  }

  /** Every call's arguments are separated. */
  predicate Apart(s: Syntax) {
    match s
    case SLiteral(_) => true
    case SVariable(_) => true
    case SInfix(_, l, r) => Apart(l) && Apart(r)
    case SNot(x) => Apart(x)
    case SParen(x) => Apart(x)
    case SCall(_, args) => AllApart(args)
  }

  predicate AllApart(ss: seq<Syntax>) {
    if ss == [] then true
    else Apart(ss[0]) && (|ss| > 1 ==> Separated(ss[0], ss[1])) && AllApart(ss[1..])
  }

  // ---------------------------------------------------------------- the minimal spelling

  /** Trees the parser can build. */
  predicate Buildable(e: Expr, known: Known) {
    match e
    case Literal(ts) => IsLiteral(ts)
    case Variable(n) => IsName(n)
    case Node(o, args) =>
      && AllBuildable(args, known)
      && (match o
          case Binary(_) => |args| == 2
          case Not => |args| == 1
          case Paren => false
          case Call(n) => IsName(n) && (n, |args|) in known)
  }

  predicate AllBuildable(es: seq<Expr>, known: Known) {
    forall i :: 0 <= i < |es| ==> Buildable(es[i], known)
  }

  function Wrap(s: Syntax, bare: bool): Syntax {
    if bare then s else SParen(s)
  }

  /** The spelling with the fewest parentheses around operands; arguments other than the last
      are parenthesised if they are operator expressions. */
  function Minimal(e: Expr, known: Known): Syntax
    requires Buildable(e, known)
    decreases e
  {
    match e
    case Literal(ts) => SLiteral(ts)
    case Variable(n) => SVariable(n)
    case Node(o, args) =>
      assert AllBuildable(args, known);
      match o
      case Binary(i) =>
        var l, r := Minimal(args[0], known), Minimal(args[1], known);
        SInfix(i, Wrap(l, LeftFits(l, o)), Wrap(r, RightFits(o, r)))
      case Not =>
        var x := Minimal(args[0], known);
        SNot(Wrap(x, RightFits(Not, x)))
      case Call(n) => SCall(n, MinimalArguments(args, known))
  }

  function MinimalArguments(es: seq<Expr>, known: Known): (ss: seq<Syntax>)
    requires AllBuildable(es, known)
    ensures |ss| == |es|
    decreases es
  {
    if es == [] then []
    else
      var s := Minimal(es[0], known);
      [Wrap(s, |es| == 1 || Root(s).None?)] + MinimalArguments(es[1..], known)
  }

  lemma {:induction false} MinimalIsSound(e: Expr, known: Known)
    requires Buildable(e, known)
    ensures Sound(Minimal(e, known), known) && Apart(Minimal(e, known)) && Meaning(Minimal(e, known)) == e
    decreases e, 1
  {
    match e
    case Literal(_) =>
    case Variable(_) =>
    case Node(o, args) =>
      match o
      case Binary(_) =>
        MinimalIsSound(args[0], known);
        MinimalIsSound(args[1], known);
        assert args == [args[0], args[1]];
      case Not =>
        MinimalIsSound(args[0], known);
        assert args == [args[0]];
      case Call(_) => MinimalArgumentsAreSound(args, known);
  }

  lemma {:induction false} MinimalArgumentsAreSound(es: seq<Expr>, known: Known)
    requires AllBuildable(es, known)
    ensures var ss := MinimalArguments(es, known); AllSound(ss, known) && AllApart(ss) && Meanings(ss) == es
    decreases es, 0
  {
    if es != [] {
      MinimalIsSound(es[0], known);
      MinimalArgumentsAreSound(es[1..], known);
      assert MinimalArguments(es, known)[1..] == MinimalArguments(es[1..], known);
    }
  }

  // ---------------------------------------------------------------- no spelling has fewer

  /** The parentheses around operands. */
  function OperandParens(s: Syntax): nat
    decreases s, 0
  {
    match s
    case SLiteral(_) => 0
    case SVariable(_) => 0
    case SInfix(_, l, r) => Around(l) + Around(r)
    case SNot(x) => Around(x)
    case SParen(x) => OperandParens(x)
    case SCall(_, args) => ArgumentParens(args)
  }

  /** Those around and in an operand. */
  function Around(s: Syntax): nat
    decreases s, 1
  {
    if s.SParen? then 1 + OperandParens(s.inner) else OperandParens(s)
  }

  function ArgumentParens(ss: seq<Syntax>): nat
    decreases ss, 0
  {
    if ss == [] then 0 else OperandParens(ss[0]) + ArgumentParens(ss[1..])
  }

  lemma {:induction false} SoundIsBuildable(s: Syntax, known: Known)
    requires Sound(s, known)
    ensures Buildable(Meaning(s), known)
    decreases s, 1
  {
    match s
    case SLiteral(_) =>
    case SVariable(_) =>
    case SInfix(_, l, r) =>
      SoundIsBuildable(l, known);
      SoundIsBuildable(r, known);
    case SNot(x) => SoundIsBuildable(x, known);
    case SParen(x) => SoundIsBuildable(x, known);
    case SCall(_, args) => SoundAreBuildable(args, known);
  }

  lemma {:induction false} SoundAreBuildable(ss: seq<Syntax>, known: Known)
    requires AllSound(ss, known)
    ensures AllBuildable(Meanings(ss), known)
    decreases ss, 0
  {
    if ss != [] {
      SoundIsBuildable(ss[0], known);
      SoundAreBuildable(ss[1..], known);
    }
  }

  /** What is open on the right is what the expression is, if it is not in parentheses. */
  lemma RootOfMeaning(s: Syntax, known: Known)
    requires Buildable(Meaning(s), known)
    ensures !Minimal(Meaning(s), known).SParen?
    ensures !s.SParen? ==> Root(Minimal(Meaning(s), known)) == Root(s)
  {
  }

  lemma OperandNeedsNoMore(s: Syntax, fits: bool, known: Known)
    requires Buildable(Meaning(s), known) && OperandParens(Minimal(Meaning(s), known)) <= OperandParens(s)
    requires !fits ==> s.SParen?
    ensures Around(Wrap(Minimal(Meaning(s), known), fits)) <= Around(s)
  {
    RootOfMeaning(s, known);
  }

  /** No spelling that says what is meant has fewer parentheses around operands. */
  lemma {:induction false} NoneHasFewer(s: Syntax, known: Known)
    requires Sound(s, known)
    ensures Buildable(Meaning(s), known) && OperandParens(Minimal(Meaning(s), known)) <= OperandParens(s)
    decreases s, 1
  {
    SoundIsBuildable(s, known);
    match s
    case SLiteral(_) =>
    case SVariable(_) =>
    case SInfix(i, l, r) =>
      NoneHasFewer(l, known);
      NoneHasFewer(r, known);
      RootOfMeaning(l, known);
      RootOfMeaning(r, known);
      OperandNeedsNoMore(l, LeftFits(Minimal(Meaning(l), known), Binary(i)), known);
      OperandNeedsNoMore(r, RightFits(Binary(i), Minimal(Meaning(r), known)), known);
    case SNot(x) =>
      NoneHasFewer(x, known);
      RootOfMeaning(x, known);
      OperandNeedsNoMore(x, RightFits(Not, Minimal(Meaning(x), known)), known);
    case SParen(x) => NoneHasFewer(x, known);
    case SCall(_, args) => NoArgumentsHaveFewer(args, known);
  }

  lemma {:induction false} NoArgumentsHaveFewer(ss: seq<Syntax>, known: Known)
    requires AllSound(ss, known)
    ensures AllBuildable(Meanings(ss), known) && ArgumentParens(MinimalArguments(Meanings(ss), known)) <= ArgumentParens(ss)
    decreases ss, 0
  {
    if ss != [] {
      SoundAreBuildable(ss, known);
      NoneHasFewer(ss[0], known);
      NoArgumentsHaveFewer(ss[1..], known);
      var es := Meanings(ss);
      assert es[1..] == Meanings(ss[1..]);
      assert MinimalArguments(es, known)[1..] == MinimalArguments(es[1..], known);
    }
  }
}
