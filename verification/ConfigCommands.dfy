/** What the commands that show_commands prints say, and what executing them brings about. */
module ConfigCommands {
  import opened ConfigTree
  import opened ConfigByName
  import opened ConfigLines

  type Path = seq<string>

  /** A command names a node by its path from below the root. */
  datatype Command = Make(path: Path) | Set(path: Path, value: string) | Remove(path: Path)

  // ---------------------------------------------------------------- what is printed

  function Script(ts: seq<Tree>, above: Path): seq<Command>
    decreases ts, 0
  {
    if ts == [] then [] else ScriptNode(ts[0], above) + Script(ts[1..], above)
  }

  /** A deleted node is removed with all that is in it; a block is made before what is in it;
      an item is set if it has a value. */
  function ScriptNode(t: Tree, above: Path): seq<Command>
    decreases t, 1
  {
    var p := above + [t.name];
    if t.isTemplate || t.name == "" || t.kind == OtherKind then []
    else if t.status == Deleted then [Remove(p)]
    else if t.kind == Block then [Make(p)] + Script(t.children, p)
    else if t.newValue == "" then []
    else [Set(p, t.newValue)]
  }

  /** The names of a path, each with a space behind it. */
  function Words(p: Path): string {
    if p == [] then "" else Words(p[..|p| - 1]) + p[|p| - 1] + " "
  }

  function Last(p: Path): string {
    if p == [] then "" else p[|p| - 1]
  }

  function Init(p: Path): Path {
    if p == [] then [] else p[..|p| - 1]
  }

  function Spell(c: Command): string {
    match c
    case Make(p) => "set " + Words(Init(p)) + "!" + Last(p) + "\n"
    case Set(p, v) => "set " + Words(Init(p)) + Last(p) + " \"" + v + "\"\n"
    case Remove(p) => "delete " + Words(Init(p)) + Last(p) + "\n"
  }

  function Text(cs: seq<Command>): string {
    if cs == [] then "" else Spell(cs[0]) + Text(cs[1..])
  }

  /** The way from a node up to the root. */
  function Upwards(above: Path): Path {
    if above == [] then ["ROOT"] else [above[|above| - 1]] + Upwards(above[..|above| - 1])
  }

  lemma UpwardsFrom(above: Path, n: string)
    ensures Upwards(above + [n]) == [n] + Upwards(above)
  {
    assert (above + [n])[..|above|] == above;
  }

  /** No block called like the root has anything to print in it. */
  predicate OneRoot(ts: seq<Tree>) {
    forall i :: 0 <= i < |ts| ==> OneRootNode(ts[i])
  }

  predicate OneRootNode(t: Tree) {
    !t.isTemplate && t.name != "" && t.kind == Block && t.status != Deleted ==>
      OneRoot(t.children) && (t.name == "ROOT" ==> Script(t.children, []) == [])
  }

  /** A prefix stops at the root; at a block of that name it stops short. */
  lemma {:induction false} PrefixIs(above: Path)
    ensures |Prefix(Upwards(above))| <= |Words(above)|
    ensures "ROOT" !in above ==> Prefix(Upwards(above)) == Words(above)
    ensures "ROOT" in above ==> |Prefix(Upwards(above))| < |Words(above)|
    decreases |above|
  {
    if above != [] {
      var init, last := above[..|above| - 1], above[|above| - 1];
      PrefixIs(init);
      assert Upwards(above)[1..] == Upwards(init);
      assert above == init + [last];
    }
  }

  lemma {:induction false} TextConcat(a: seq<Command>, b: seq<Command>)
    ensures Text(a + b) == Text(a) + Text(b)
    decreases |a|
  {
    hide Spell;
    if a == [] {
      assert a + b == b;
    } else {
      assert (a + b)[0] == a[0] && (a + b)[1..] == a[1..] + b;
      TextConcat(a[1..], b);
    }
  }

  /** Whether a script is empty does not depend on where the nodes stand. */
  lemma {:induction false} SameScript(ts: seq<Tree>, a: Path, b: Path)
    ensures Script(ts, a) == [] <==> Script(ts, b) == []
    decreases ts
  {
    if ts != [] { SameScript(ts[1..], a, b); }
  }

  /** What is printed of the nodes below above is shorter than what their commands say exactly
      if a block on the way has the root's name. */
  ghost predicate Printed(text: string, cs: seq<Command>, right: bool) {
    if right then text == Text(cs) else |text| < |Text(cs)|
  }

  lemma {:induction false} Prints(ts: seq<Tree>, above: Path)
    ensures Printed(Commands(ts, Upwards(above)), Script(ts, above), OneRoot(ts) && ("ROOT" !in above || Script(ts, above) == []))
    ensures |Commands(ts, Upwards(above))| <= |Text(Script(ts, above))|
    decreases ts, 0
  {
    hide CommandsNode, ScriptNode, OneRootNode, Upwards;
    if ts != [] {
      PrintsNode(ts[0], above);
      Prints(ts[1..], above);
      TextConcat(ScriptNode(ts[0], above), Script(ts[1..], above));
      assert OneRoot(ts) <==> OneRootNode(ts[0]) && OneRoot(ts[1..]);
    }
  }

  lemma {:induction false} PrintsNode(t: Tree, above: Path)
    ensures Printed(CommandsNode(t, Upwards(above)), ScriptNode(t, above), OneRootNode(t) && ("ROOT" !in above || ScriptNode(t, above) == []))
    ensures |CommandsNode(t, Upwards(above))| <= |Text(ScriptNode(t, above))|
    decreases t, 1
  {
    hide Commands, Script, OneRoot, Prefix, Words, Upwards;
    PrefixIs(above);
    var p := above + [t.name];
    assert Init(p) == above && Last(p) == t.name;
    if t.isTemplate || t.name == "" || t.kind == OtherKind {
      NoText();
    } else if t.status == Deleted {
      OneText(Remove(p));
    } else if t.kind == Block {
      Prints(t.children, p);
      SameScript(t.children, p, []);
      UpwardsFrom(above, t.name);
      TextConcat([Make(p)], Script(t.children, p));
      OneText(Make(p));
    } else if t.newValue != "" {
      OneText(Set(p, t.newValue));
    } else {
      NoText();
    }
  }

  lemma NoText()
    ensures Text([]) == ""
  {
  }

  lemma OneText(c: Command)
    ensures Text([c]) == Spell(c)
  {
    assert [c][1..] == [];
    assert Text([c][1..]) == "";
  }

  /** show_commands prints the commands for the nodes of a tree exactly if no block with anything
      to print in it is called like the root. */
  lemma PrintsExactly(ts: seq<Tree>)
    ensures Commands(ts, ["ROOT"]) == Text(Script(ts, [])) <==> OneRoot(ts)
  {
    assert Upwards([]) == ["ROOT"];
    Prints(ts, []);
  }

  // ---------------------------------------------------------------- what they bring about

  /** A block that is there, or an item with a value. */
  datatype Fact = ABlock | AnItem(value: string)

  type State = map<Path, Fact>

  predicate Below(q: Path, p: Path) {
    |p| <= |q| && q[..|p|] == p
  }

  function Step(s: State, c: Command): State {
    match c
    case Make(p) => s[p := ABlock]
    case Set(p, v) => s[p := AnItem(v)]
    case Remove(p) => map q | q in s && !Below(q, p) :: s[q]
  }

  function Run(s: State, cs: seq<Command>): State
    decreases |cs|
  {
    if cs == [] then s else Run(Step(s, cs[0]), cs[1..])
  }

  /** What a reader sees of a configuration, path by path; nodes without a name have none. */
  function Facts(vs: seq<View>, above: Path): State
    decreases vs, 0
  {
    if vs == [] then map[] else Facts(vs[1..], above) + FactsNode(vs[0], above)
  }

  function FactsNode(v: View, above: Path): State
    decreases v, 1
  {
    var p := above + [v.name];
    if v.name == "" then map[]
    else
      match v.kind
      case Block => Facts(v.children, p)[p := ABlock]
      case Item => if v.value == "" then map[] else map[p := AnItem(v.value)]
      case OtherKind => map[]
  }

  function At(s: State, q: Path): Option<Fact> {
    if q in s then Some(s[q]) else None
  }

  /** Something deleted is at q or above it. */
  predicate Taken(ts: seq<Tree>, above: Path, q: Path) {
    exists i :: 0 <= i < |ts| && TakenBy(ts[i], above, q)
  }

  predicate TakenBy(t: Tree, above: Path, q: Path) {
    var p := above + [t.name];
    !t.isTemplate && t.name != "" && Below(q, p) && (t.status == Deleted || (t.kind == Block && Taken(t.children, p, q)))
  }

  /** What the commands make of what was at q. */
  function Outcome(ts: seq<Tree>, above: Path, q: Path, was: Option<Fact>): Option<Fact> {
    var facts := Facts(Pending(ts), above);
    if q in facts then Some(facts[q]) else if Taken(ts, above, q) then None else was
  }

  function OutcomeNode(t: Tree, above: Path, q: Path, was: Option<Fact>): Option<Fact> {
    var facts := Facts(PendingHere(t), above);
    if q in facts then Some(facts[q]) else if TakenBy(t, above, q) then None else was
  }

  lemma {:induction false} RunConcat(s: State, a: seq<Command>, b: seq<Command>)
    ensures Run(s, a + b) == Run(Run(s, a), b)
    decreases |a|
  {
    hide Step;
    if a == [] {
      assert a + b == b;
    } else {
      assert (a + b)[0] == a[0] && (a + b)[1..] == a[1..] + b;
      RunConcat(Step(s, a[0]), a[1..], b);
    }
  }

  lemma {:induction false} FactsBelow(vs: seq<View>, above: Path, q: Path)
    ensures q in Facts(vs, above) ==> exists i :: 0 <= i < |vs| && vs[i].name != "" && Below(q, above + [vs[i].name])
    decreases vs, 0
  {
    hide FactsNode;
    if vs != [] && q in Facts(vs, above) {
      FactsBelowNode(vs[0], above, q);
      if q !in FactsNode(vs[0], above) {
        FactsBelow(vs[1..], above, q);
        var i :| 0 <= i < |vs[1..]| && vs[1..][i].name != "" && Below(q, above + [vs[1..][i].name]);
        assert vs[i + 1] == vs[1..][i];
      }
    }
  }

  lemma {:induction false} FactsBelowNode(v: View, above: Path, q: Path)
    ensures q in FactsNode(v, above) ==> v.name != "" && Below(q, above + [v.name])
    decreases v, 1
  {
    var p := above + [v.name];
    if v.kind == Block && q in FactsNode(v, above) && q != p {
      FactsBelow(v.children, p, q);
      var i :| 0 <= i < |v.children| && v.children[i].name != "" && Below(q, p + [v.children[i].name]);
      assert q[..|p|] == q[..|p| + 1][..|p|];
    }
  }

  lemma FactsOne(v: View, above: Path)
    ensures Facts([v], above) == FactsNode(v, above)
  {
    assert [v][1..] == [];
  }

  lemma FactsFirst(ts: seq<Tree>, above: Path)
    requires ts != []
    ensures Facts(Pending(ts), above) == Facts(Pending(ts[1..]), above) + Facts(PendingHere(ts[0]), above)
  {
    hide Pending, PendingNode, FactsNode;
    PendingCons(ts);
    if Stays(ts[0]) {
      FactsOne(PendingNode(ts[0]), above);
      assert Pending(ts)[0] == PendingNode(ts[0]) && Pending(ts)[1..] == Pending(ts[1..]);
    } else {
      assert [] + Pending(ts[1..]) == Pending(ts[1..]);
    }
  }

  lemma {:induction false} PendingFrom(ts: seq<Tree>, i: nat) returns (j: nat)
    requires i < |Pending(ts)|
    ensures j < |ts| && !ts[j].isTemplate && Pending(ts)[i].name == ts[j].name
    decreases |ts|
  {
    var n := |PendingHere(ts[0])|;
    assert Pending(ts) == PendingHere(ts[0]) + Pending(ts[1..]);
    if i < n {
      SameName(ts[0]);
      j := 0;
    } else {
      j := PendingFrom(ts[1..], i - n);
      j := j + 1;
    }
  }

  /** Where q is not below any of the nodes, nothing is pending or deleted. */
  lemma NotConcerned(ts: seq<Tree>, above: Path, q: Path)
    requires forall j :: 0 <= j < |ts| && !ts[j].isTemplate && ts[j].name != "" ==> !Below(q, above + [ts[j].name])
    ensures q !in Facts(Pending(ts), above) && !Taken(ts, above, q)
  {
    hide Facts, Pending;
    FactsBelow(Pending(ts), above, q);
    if q in Facts(Pending(ts), above) {
      var i :| 0 <= i < |Pending(ts)| && Pending(ts)[i].name != "" && Below(q, above + [Pending(ts)[i].name]);
      var j := PendingFrom(ts, i);
      assert false;
    }
  }

  lemma OneNodeOnly(t: Tree, above: Path, q: Path)
    ensures q in Facts(PendingHere(t), above) || TakenBy(t, above, q) ==> !t.isTemplate && t.name != "" && Below(q, above + [t.name])
  {
    hide PendingNode, FactsNode;
    if Stays(t) {
      FactsOne(PendingNode(t), above);
      FactsBelowNode(PendingNode(t), above, q);
      SameName(t);
    }
  }

  lemma SameName(t: Tree)
    ensures PendingNode(t).name == t.name
  {
  }

  /** The node first, then its siblings. */
  lemma OutcomeFirst(ts: seq<Tree>, above: Path, q: Path, was: Option<Fact>)
    requires Unique(ts) && ts != []
    ensures Outcome(ts, above, q, was) == Outcome(ts[1..], above, q, OutcomeNode(ts[0], above, q, was))
  {
    hide Facts, Pending, PendingHere, TakenBy;
    var t, rest := ts[0], ts[1..];
    FactsFirst(ts, above);
    OneNodeOnly(t, above, q);
    assert Taken(ts, above, q) <==> TakenBy(t, above, q) || Taken(rest, above, q) by { TakenFirst(ts, above, q); }
    if !t.isTemplate && t.name != "" && Below(q, above + [t.name]) {
      forall j | 0 <= j < |rest| && !rest[j].isTemplate && rest[j].name != "" ensures !Below(q, above + [rest[j].name]) {
        assert rest[j] == ts[j + 1];
        DifferentNames(q, above, t.name, rest[j].name);
      }
      NotConcerned(rest, above, q);
    }
  }

  lemma DifferentNames(q: Path, above: Path, a: string, b: string)
    requires Below(q, above + [a]) && a != b
    ensures !Below(q, above + [b])
  {
    NameAt(q, above, a);
    if Below(q, above + [b]) { NameAt(q, above, b); }
  }

  lemma NameAt(q: Path, above: Path, n: string)
    requires Below(q, above + [n])
    ensures |q| > |above| && q[|above|] == n && Below(q, above)
  {
    assert q[..|above| + 1][|above|] == q[|above|] && (above + [n])[|above|] == n;
    assert q[..|above|] == q[..|above| + 1][..|above|];
  }

  lemma TakenFirst(ts: seq<Tree>, above: Path, q: Path)
    requires ts != []
    ensures Taken(ts, above, q) <==> TakenBy(ts[0], above, q) || Taken(ts[1..], above, q)
  {
    hide TakenBy;
    assert ts == [ts[0]] + ts[1..];
    if i :| 1 <= i < |ts| && TakenBy(ts[i], above, q) { assert TakenBy(ts[1..][i - 1], above, q); }
  }

  lemma {:induction false} RunAt(ts: seq<Tree>, above: Path, s: State, q: Path)
    requires WellFormed(ts) && Unique(ts)
    ensures At(Run(s, Script(ts, above)), q) == Outcome(ts, above, q, At(s, q))
    decreases ts, 0
  {
    hide WellFormedNode, Unique, ScriptNode, Run, Outcome, OutcomeNode, At;
    if ts == [] {
      NothingRun(s, above, q);
    } else {
      UniqueFirst(ts);
      OutcomeFirst(ts, above, q, At(s, q));
      RunConcat(s, ScriptNode(ts[0], above), Script(ts[1..], above));
      RunNodeAt(ts[0], above, s, q);
      RunAt(ts[1..], above, Run(s, ScriptNode(ts[0], above)), q);
    }
  }

  lemma UniqueFirst(ts: seq<Tree>)
    requires Unique(ts) && ts != []
    ensures Unique(ts[1..]) && Unique(ts[0].children)
  {
  }

  lemma NothingRun(s: State, above: Path, q: Path)
    ensures At(Run(s, Script([], above)), q) == Outcome([], above, q, At(s, q))
  {
  }

  lemma {:induction false} RunNodeAt(t: Tree, above: Path, s: State, q: Path)
    requires WellFormedNode(t) && Unique(t.children)
    ensures At(Run(s, ScriptNode(t, above)), q) == OutcomeNode(t, above, q, At(s, q))
    decreases t, 1
  {
    hide WellFormed, Unique, Script, Facts, Pending, Taken;
    var p := above + [t.name];
    NoFacts(above);
    if Stays(t) { FactsOne(PendingNode(t), above); }
    if t.isTemplate || t.name == "" {
      assert Run(s, []) == s;
    } else if t.status == Deleted {
      RunOne(s, Remove(p));
    } else if t.kind == Block {
      RunConcat(s, [Make(p)], Script(t.children, p));
      RunOne(s, Make(p));
      RunAt(t.children, p, s[p := ABlock], q);
      NotItself(t.children, p);
      FurtherBelow(t.children, p, q);
    } else if t.newValue != "" {
      RunOne(s, Set(p, t.newValue));
    } else {
      assert Run(s, []) == s;
    }
  }

  lemma NoFacts(above: Path)
    ensures Facts([], above) == map[]
  {
  }

  lemma RunOne(s: State, c: Command)
    ensures Run(s, [c]) == Step(s, c)
  {
    assert [c][1..] == [];
    assert Run(Step(s, c), [c][1..]) == Step(s, c);
  }

  lemma NotItself(ts: seq<Tree>, p: Path)
    ensures p !in Facts(Pending(ts), p) && !Taken(ts, p, p)
  {
    NotConcerned(ts, p, p);
  }

  lemma FurtherBelow(ts: seq<Tree>, p: Path, q: Path)
    ensures q in Facts(Pending(ts), p) || Taken(ts, p, q) ==> Below(q, p)
  {
    if !Below(q, p) {
      forall j | 0 <= j < |ts| ensures !Below(q, p + [ts[j].name]) {
        if Below(q, p + [ts[j].name]) { NameAt(q, p, ts[j].name); }
      }
      NotConcerned(ts, p, q);
    }
  }

  /** Executed on nothing, the commands bring about all that is pending. */
  lemma CommandsBringAbout(ts: seq<Tree>)
    requires WellFormed(ts) && Unique(ts)
    ensures Run(map[], Script(ts, [])) == Facts(Pending(ts), [])
  {
    hide WellFormed, Unique, Script, Run, Facts, Pending, Taken;
    var a, b := Run(map[], Script(ts, [])), Facts(Pending(ts), []);
    forall q ensures At(a, q) == At(b, q) { RunAt(ts, [], map[], q); }
    SameStates(a, b);
  }

  lemma SameStates(a: State, b: State)
    requires forall q :: At(a, q) == At(b, q)
    ensures a == b
  {
    forall q ensures (q in a <==> q in b) && (q in a ==> a[q] == b[q]) { assert At(a, q) == At(b, q); }
  }

  // ---------------------------------------------------------------- on top of what is in force

  /** No item in force is about to lose its value without being deleted; nodes without a name do
      not count. */
  predicate NoneEmptied(ts: seq<Tree>) {
    forall i :: 0 <= i < |ts| ==> NoneEmptiedNode(ts[i])
  }

  predicate NoneEmptiedNode(t: Tree) {
    InForce(t) && t.name != "" && t.status != Deleted ==>
      (t.kind == Item && t.value != "" ==> t.newValue != "") && (t.kind == Block ==> NoneEmptied(t.children))
  }

  /** What is in force at q is neither pending nor deleted. */
  predicate Stale(ts: seq<Tree>, above: Path, q: Path) {
    q in Facts(Committed(ts), above) && q !in Facts(Pending(ts), above) && !Taken(ts, above, q)
  }

  predicate StaleNode(t: Tree, above: Path, q: Path) {
    q in Facts(CommittedHere(t), above) && q !in Facts(PendingHere(t), above) && !TakenBy(t, above, q)
  }

  lemma ForceFirst(ts: seq<Tree>, above: Path)
    requires ts != []
    ensures Facts(Committed(ts), above) == Facts(Committed(ts[1..]), above) + Facts(CommittedHere(ts[0]), above)
  {
    hide Committed, CommittedNode, FactsNode;
    CommittedCons(ts);
    if InForce(ts[0]) {
      FactsOne(CommittedNode(ts[0]), above);
      assert Committed(ts)[0] == CommittedNode(ts[0]) && Committed(ts)[1..] == Committed(ts[1..]);
    } else {
      assert [] + Committed(ts[1..]) == Committed(ts[1..]);
    }
  }

  lemma {:induction false} ForceBelow(ts: seq<Tree>, above: Path, q: Path)
    requires forall j :: 0 <= j < |ts| && !ts[j].isTemplate && ts[j].name != "" ==> !Below(q, above + [ts[j].name])
    ensures q !in Facts(Committed(ts), above)
    decreases |ts|
  {
    hide Facts, Committed;
    if ts == [] {
      NothingThere();
      NoFacts(above);
    } else {
      ForceFirst(ts, above);
      ForceNodeBelow(ts[0], above, q);
      assert forall j :: 0 <= j < |ts[1..]| ==> ts[1..][j] == ts[j + 1];
      ForceBelow(ts[1..], above, q);
    }
  }

  lemma ForceNodeBelow(t: Tree, above: Path, q: Path)
    ensures q in Facts(CommittedHere(t), above) ==> !t.isTemplate && t.name != "" && Below(q, above + [t.name])
  {
    hide CommittedNode, FactsNode;
    if InForce(t) {
      FactsOne(CommittedNode(t), above);
      FactsBelowNode(CommittedNode(t), above, q);
      CommittedNodeName(t);
    }
  }

  lemma StaleFirst(ts: seq<Tree>, above: Path, q: Path)
    requires Unique(ts) && ts != []
    ensures Stale(ts, above, q) <==> StaleNode(ts[0], above, q) || Stale(ts[1..], above, q)
  {
    hide Facts, Pending, PendingHere, Committed, CommittedHere, TakenBy, Taken;
    var t, rest := ts[0], ts[1..];
    FactsFirst(ts, above);
    ForceFirst(ts, above);
    OneNodeOnly(t, above, q);
    ForceNodeBelow(t, above, q);
    TakenFirst(ts, above, q);
    if !t.isTemplate && t.name != "" && Below(q, above + [t.name]) {
      forall j | 0 <= j < |rest| && !rest[j].isTemplate && rest[j].name != "" ensures !Below(q, above + [rest[j].name]) {
        assert rest[j] == ts[j + 1];
        DifferentNames(q, above, t.name, rest[j].name);
      }
      NotConcerned(rest, above, q);
      ForceBelow(rest, above, q);
    }
  }

  lemma {:induction false} StaleIs(ts: seq<Tree>, above: Path)
    requires WellFormed(ts) && Unique(ts)
    ensures NoneEmptied(ts) <==> forall q :: !Stale(ts, above, q)
    decreases ts, 0
  {
    hide WellFormedNode, Unique, NoneEmptiedNode, Stale, StaleNode;
    if ts == [] {
      NothingStale(above);
    } else {
      UniqueFirst(ts);
      StaleNodeIs(ts[0], above);
      StaleIs(ts[1..], above);
      forall q ensures Stale(ts, above, q) <==> StaleNode(ts[0], above, q) || Stale(ts[1..], above, q) { StaleFirst(ts, above, q); }
      assert NoneEmptied(ts) <==> NoneEmptiedNode(ts[0]) && NoneEmptied(ts[1..]);
    }
  }

  lemma NothingStale(above: Path)
    ensures forall q :: !Stale([], above, q)
  {
    NoFacts(above);
    NothingThere();
  }

  lemma {:induction false} StaleNodeIs(t: Tree, above: Path)
    requires WellFormedNode(t) && Unique(t.children)
    ensures NoneEmptiedNode(t) <==> forall q :: !StaleNode(t, above, q)
    decreases t, 1
  {
    var p := above + [t.name];
    hide WellFormed, Unique, Facts, Pending, Committed, NoneEmptied, Taken;
    NoFacts(above);
    if InForce(t) {
      FactsOne(CommittedNode(t), above);
      if Stays(t) { FactsOne(PendingNode(t), above); }
      if t.kind == Block {
        StaleIs(t.children, p);
        NotItself(t.children, p);
        NotItselfInForce(t.children, p);
        BlockStale(t, above);
      } else {
        ItemStale(t, above);
      }
    }
  }

  lemma NotItselfInForce(ts: seq<Tree>, p: Path)
    ensures p !in Facts(Committed(ts), p)
  {
    ForceBelow(ts, p, p);
  }

  lemma BlockStale(t: Tree, above: Path)
    requires t.kind == Block && InForce(t) && Facts(CommittedHere(t), above) == FactsNode(CommittedNode(t), above)
    requires Stays(t) ==> Facts(PendingHere(t), above) == FactsNode(PendingNode(t), above)
    requires var p := above + [t.name];
             p !in Facts(Pending(t.children), p) && !Taken(t.children, p, p) && p !in Facts(Committed(t.children), p)
    ensures var p := above + [t.name];
            if t.status == Deleted || t.name == "" then forall q :: !StaleNode(t, above, q)
            else forall q :: StaleNode(t, above, q) <==> Stale(t.children, p, q)
  {
    hide Facts, Pending, Committed, Taken;
    var p := above + [t.name];
    forall q ensures if t.status == Deleted || t.name == "" then !StaleNode(t, above, q) else StaleNode(t, above, q) <==> Stale(t.children, p, q) {
      ForceNodeBelow(t, above, q);
      FurtherBelow(t.children, p, q);
      ForceFurtherBelow(t.children, p, q);
    }
  }

  lemma ForceFurtherBelow(ts: seq<Tree>, p: Path, q: Path)
    ensures q in Facts(Committed(ts), p) ==> Below(q, p)
  {
    if !Below(q, p) {
      forall j | 0 <= j < |ts| ensures !Below(q, p + [ts[j].name]) {
        if Below(q, p + [ts[j].name]) { NameAt(q, p, ts[j].name); }
      }
      ForceBelow(ts, p, q);
    }
  }

  lemma ItemStale(t: Tree, above: Path)
    requires t.kind == Item && InForce(t) && Stays(t) && Facts(CommittedHere(t), above) == FactsNode(CommittedNode(t), above)
    requires Facts(PendingHere(t), above) == FactsNode(PendingNode(t), above)
    ensures NoneEmptiedNode(t) <==> forall q :: !StaleNode(t, above, q)
  {
    hide Facts, Pending, Committed;
    var p := above + [t.name];
    assert Below(p, p);
    if !NoneEmptiedNode(t) { assert StaleNode(t, above, p); }
  }

  /** Executed on what is in force, they bring about all that is pending exactly if no item in
      force is about to lose its value without being deleted: of such an item nothing is
      printed. */
  lemma CommandsUpdate(ts: seq<Tree>)
    requires WellFormed(ts) && Unique(ts)
    ensures Run(Facts(Committed(ts), []), Script(ts, [])) == Facts(Pending(ts), []) <==> NoneEmptied(ts)
  {
    hide WellFormed, Unique, Script, Run, Facts, Pending, Committed, Taken, NoneEmptied;
    var was, b := Facts(Committed(ts), []), Facts(Pending(ts), []);
    var a := Run(was, Script(ts, []));
    forall q ensures At(a, q) == (if q in b then At(b, q) else if Stale(ts, [], q) then At(was, q) else None) { RunAt(ts, [], was, q); }
    StaleIs(ts, []);
    if NoneEmptied(ts) {
      SameStates(a, b);
    } else {
      var q :| Stale(ts, [], q);
      assert At(a, q) != At(b, q);
    }
  }
}
