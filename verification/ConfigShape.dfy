/** commit, discard, replace_prepare and reset keep the shape of the tree and the names of
    siblings apart. */
module ConfigShape {
  import opened ConfigTree
  import opened ConfigMerge
  import opened ConfigByName
  import opened ConfigHidden
  import opened ConfigAnnounce

  // ---------------------------------------------------------------- replace_prepare and reset

  /** Where the first template stands. */
  function FirstTemplate(ts: seq<Tree>): (i: nat)
    ensures i <= |ts| && (i < |ts| ==> ts[i].isTemplate)
    ensures forall j :: 0 <= j < i ==> !ts[j].isTemplate
  {
    if ts == [] || ts[0].isTemplate then 0 else 1 + FirstTemplate(ts[1..])
  }

  /** replace_prepare: items are marked deleted; at a template everything behind the first
      child is, and nothing below it. */
  function ReplacePrepare(ts: seq<Tree>): (us: seq<Tree>)
    ensures |us| == |ts|
    decreases ts, 0
  {
    var i := FirstTemplate(ts);
    seq(|ts|, j requires 0 <= j < |ts| =>
      var t := if j < i then PrepareNode(ts[j]) else ts[j];
      if i < |ts| && j > 0 then t.(status := Deleted) else t)
  }

  function PrepareNode(t: Tree): Tree
    decreases t, 1
  {
    if t.kind == Item then t.(status := Deleted) else t.(children := ReplacePrepare(t.children))
  }

  /** reset: behind a template nothing is left, and no value anywhere. */
  function Reset(ts: seq<Tree>): seq<Tree>
    decreases ts, 0
  {
    if Dynamic(ts) then [ts[0].(children := Reset(ts[0].children))]
    else seq(|ts|, j requires 0 <= j < |ts| => ResetNode(ts[j]))
  }

  function ResetNode(t: Tree): Tree
    decreases t, 1
  {
    t.(value := "", newValue := "", status := Ready, children := Reset(t.children))
  }

  /** The configuration with no values: what is fixed, and nothing made from a template. */
  function Blank(bs: seq<Bone>): seq<View> {
    if bs == [] || bs[0].isTemplate then [] else [BlankNode(bs[0])] + Blank(bs[1..])
  }

  function BlankNode(b: Bone): View {
    View(b.name, b.typ, b.kind, "", Blank(b.children))
  }

  // ---------------------------------------------------------------- levels

  lemma LevelIs(ts: seq<Tree>)
    requires Sane(ts)
    ensures if Dynamic(ts) then FirstTemplate(ts) == 0 else FirstTemplate(ts) == |ts|
  {
    hide SaneNode;
    assert !Dynamic(ts) ==> forall i :: 0 <= i < |ts| ==> Fixed(ts[i]);
  }

  lemma PreparedAt(ts: seq<Tree>, j: nat)
    requires Sane(ts) && j < |ts|
    ensures ReplacePrepare(ts)[j] ==
            if Dynamic(ts) then (if j == 0 then ts[0] else ts[j].(status := Deleted)) else PrepareNode(ts[j])
  {
    LevelIs(ts);
  }

  /** Marking keeps the shape. */
  lemma {:induction false} PrepareKeepsShape(ts: seq<Tree>)
    requires Sane(ts)
    ensures Sane(ReplacePrepare(ts)) && Skeleton(ReplacePrepare(ts)) == Skeleton(ts)
    decreases ts, 0
  {
    hide SaneNode, BoneOf, ReplacePrepare;
    var us := ReplacePrepare(ts);
    forall j | 0 <= j < |ts| ensures KeptWell(ts, us, j) {
      PrepareOneKeepsShape(ts, j);
    }
    assert Dynamic(us) == Dynamic(ts) by { if ts != [] { assert KeptWell(ts, us, 0); } }
    SaneLike(ts, us);
  }

  /** What one child is after an operation that keeps the shape. */
  predicate KeptWell(ts: seq<Tree>, us: seq<Tree>, j: nat)
    requires j < |ts| == |us|
  {
    SaneNode(us[j]) && BoneOf(us[j]) == BoneOf(ts[j]) && us[j].isTemplate == ts[j].isTemplate
    && (!Dynamic(ts) ==> Fixed(us[j]))
  }

  lemma SaneLike(ts: seq<Tree>, us: seq<Tree>)
    requires Sane(ts) && |us| == |ts| && Dynamic(us) == Dynamic(ts)
    requires forall j :: 0 <= j < |ts| ==> KeptWell(ts, us, j)
    ensures Sane(us) && Skeleton(us) == Skeleton(ts)
  {
    hide SaneNode, BoneOf;
    forall j | 1 <= j < |ts| && Dynamic(ts) ensures MadeFrom(us[0], us[j]) {
      assert KeptWell(ts, us, 0) && KeptWell(ts, us, j);
      SameBones(us[0], ts[0]);
      SameBones(us[j], ts[j]);
      assert MadeFrom(ts[0], ts[j]);
    }
    assert forall j :: 0 <= j < |ts| ==> KeptWell(ts, us, j);
    assert Skeleton(us) == Skeleton(ts);
  }

  lemma {:induction false} PrepareOneKeepsShape(ts: seq<Tree>, j: nat)
    requires Sane(ts) && j < |ts|
    ensures KeptWell(ts, ReplacePrepare(ts), j)
    decreases ts, 0, 0
  {
    hide ReplacePrepare, Skeleton, Sane;
    PreparedAt(ts, j);
    TargetLevel(ts, j);
    ChildrenAreSane(ts[j]);
    if !Dynamic(ts) && ts[j].kind == Block {
      PrepareKeepsShape(ts[j].children);
      hide SaneNode, BoneOf;
      Regrown(ts[j], ReplacePrepare(ts[j].children));
    }
  }

  // ---------------------------------------------------------------- commit, pretend, discard

  datatype Sweep = Committing | Pretending | Discarding

  function Swept(op: Sweep, ts: seq<Tree>): seq<Tree> {
    match op
    case Committing => Commit(ts)
    case Pretending => Pretend(ts)
    case Discarding => Discard(ts)
  }

  function SweptNode(op: Sweep, t: Tree): seq<Tree> {
    match op
    case Committing => CommitNode(t)
    case Pretending => [PretendNode(t)]
    case Discarding => DiscardNode(t)
  }

  lemma SweptCons(op: Sweep, ts: seq<Tree>)
    ensures Swept(op, ts) == if ts == [] then [] else SweptNode(op, ts[0]) + Swept(op, ts[1..])
  {
  }

  lemma TemplateStays(op: Sweep, t: Tree)
    requires t.isTemplate
    ensures SweptNode(op, t) == [t]
  {
  }

  /** A node goes, or stays the node it was. */
  predicate SweptWell(t: Tree, us: seq<Tree>) {
    && |us| <= 1 && (Fixed(t) ==> |us| == 1)
    && (us != [] ==> SaneNode(us[0]) && BoneOf(us[0]) == BoneOf(t) && !us[0].isTemplate && (Fixed(t) ==> Fixed(us[0])))
  }

  /** The same node with other values and states. */
  predicate Revalued(t: Tree, u: Tree) {
    && u == t.(value := u.value, newValue := u.newValue, status := u.status, isNew := u.isNew)
    && u.status != OtherStatus && (u.isNew ==> u.kind == Block)
    && (u.kind == Item && u.status == Ready ==> u.value == u.newValue)
  }

  lemma SweptNodeIs(op: Sweep, t: Tree)
    requires WellFormedNode(t) && !t.isTemplate
    ensures var us := SweptNode(op, t);
            && |us| <= 1 && (Fixed(t) ==> |us| == 1)
            && (us != [] ==> Revalued(t, us[0]) || Revalued(t.(children := Swept(op, t.children)), us[0]))
            && (us != [] && Fixed(t) ==> Fixed(us[0]))
  {
    hide WellFormed, Commit, Pretend, Discard;
  }

  lemma {:induction false} SweptNodeKeeps(op: Sweep, t: Tree)
    requires SaneNode(t) && !t.isTemplate
    ensures SweptWell(t, SweptNode(op, t))
    decreases t, 1
  {
    ChildrenAreSane(t);
    SweepKeepsShape(op, t.children);
    SweptNothing(op);
    Regrown(t, Swept(op, t.children));
    SweptNodeIs(op, t);
    hide WellFormedNode, DisciplinedNode, Swept, SweptNode, BoneOf, Revalued, Fixed;
    var us := SweptNode(op, t);
    if us != [] {
      if Revalued(t, us[0]) {
        Cleared(t, us[0]);
      } else {
        Cleared(t.(children := Swept(op, t.children)), us[0]);
      }
    }
  }

  lemma SweptNothing(op: Sweep)
    ensures Swept(op, []) == []
  {
  }

  /** Values and states do not matter for the shape. */
  lemma Cleared(t: Tree, u: Tree)
    requires SaneNode(t) && !t.isTemplate && Revalued(t, u)
    ensures SaneNode(u) && BoneOf(u) == BoneOf(t) && !u.isTemplate
  {
  }

  /** Behind a template: what stays was made from it. */
  lemma {:induction false} SweptBehind(op: Sweep, template: Tree, ts: seq<Tree>)
    requires forall i :: 0 <= i < |ts| ==> SaneNode(ts[i]) && MadeFrom(template, ts[i])
    ensures forall i :: 0 <= i < |Swept(op, ts)| ==> SaneNode(Swept(op, ts)[i]) && MadeFrom(template, Swept(op, ts)[i])
    decreases ts, 0
  {
    hide SaneNode, MadeFrom, Swept, SweptNode;
    SweptCons(op, ts);
    if ts != [] {
      SweptBehind(op, template, ts[1..]);
      MadeFromSwept(op, template, ts[0]);
    }
  }

  lemma {:induction false} MadeFromSwept(op: Sweep, template: Tree, t: Tree)
    requires SaneNode(t) && MadeFrom(template, t)
    ensures forall i :: 0 <= i < |SweptNode(op, t)| ==> SaneNode(SweptNode(op, t)[i]) && MadeFrom(template, SweptNode(op, t)[i])
    decreases t, 2
  {
    hide SaneNode, SweptNode, BoneOf;
    SweptNodeKeeps(op, t);
    if SweptNode(op, t) != [] { SameBones(SweptNode(op, t)[0], t); }
  }

  /** Where nothing is made from a template: every node stays in its place. */
  lemma {:induction false} SweptFixed(op: Sweep, ts: seq<Tree>)
    requires forall i :: 0 <= i < |ts| ==> SaneNode(ts[i]) && Fixed(ts[i])
    ensures |Swept(op, ts)| == |ts|
    ensures forall i :: 0 <= i < |ts| ==> SweptWell(ts[i], [Swept(op, ts)[i]])
    decreases ts, 0
  {
    hide SaneNode, BoneOf, Swept, SweptNode;
    SweptCons(op, ts);
    if ts != [] {
      SweptFixed(op, ts[1..]);
      SweptNodeKeeps(op, ts[0]);
      assert Swept(op, ts)[1..] == Swept(op, ts[1..]);
      assert SweptNode(op, ts[0]) == [Swept(op, ts)[0]];
    }
  }

  lemma {:induction false} SweepKeepsShape(op: Sweep, ts: seq<Tree>)
    requires Sane(ts)
    ensures Sane(Swept(op, ts)) && Skeleton(Swept(op, ts)) == Skeleton(ts)
    decreases ts, 1
  {
    hide SaneNode, BoneOf, Swept, SweptNode, MadeFrom, Fixed;
    var us := Swept(op, ts);
    if Dynamic(ts) {
      SweptCons(op, ts);
      TemplateStays(op, ts[0]);
      SweptBehind(op, ts[0], ts[1..]);
      assert us[0] == ts[0] && us[1..] == Swept(op, ts[1..]);
      BehindIsSane(ts[0], us);
      assert Skeleton(us) == Skeleton(ts);
    } else {
      SweptFixed(op, ts);
      forall j | 0 <= j < |ts| ensures KeptWell(ts, us, j) {
        assert SweptWell(ts[j], [us[j]]);
        FixedIs(ts[j]);
      }
      assert Dynamic(us) == Dynamic(ts) by { if ts != [] { assert KeptWell(ts, us, 0); } }
      SaneLike(ts, us);
    }
  }

  lemma FixedIs(t: Tree)
    requires Fixed(t)
    ensures !t.isTemplate
  {
  }

  lemma BehindIsSane(template: Tree, us: seq<Tree>)
    requires us != [] && us[0] == template && template.isTemplate && SaneNode(template)
    requires forall i :: 0 <= i < |us[1..]| ==> SaneNode(us[1..][i]) && MadeFrom(template, us[1..][i])
    ensures Sane(us)
  {
    hide SaneNode, MadeFrom;
    forall i | 1 <= i < |us| ensures SaneNode(us[i]) && MadeFrom(template, us[i]) {
      assert us[i] == us[1..][i - 1];
    }
  }

  // ---------------------------------------------------------------- names

  /** Every child left goes back to one that was there. */
  lemma {:induction false} SweptFrom(op: Sweep, ts: seq<Tree>, k: nat) returns (i: nat)
    requires k < |Swept(op, ts)|
    ensures i < |ts| && Swept(op, ts)[k].name == ts[i].name && Swept(op, ts)[k].isTemplate == ts[i].isTemplate
    ensures Swept(op, ts)[k].children == ts[i].children || Swept(op, ts)[k].children == Swept(op, ts[i].children)
    decreases ts
  {
    hide Swept, SweptNode;
    SweptCons(op, ts);
    SweptNodeName(op, ts[0]);
    var n := |SweptNode(op, ts[0])|;
    if k < n {
      i := 0;
    } else {
      assert Swept(op, ts)[k] == Swept(op, ts[1..])[k - n];
      i := SweptFrom(op, ts[1..], k - n);
      i := i + 1;
    }
  }

  lemma SweptNodeName(op: Sweep, t: Tree)
    ensures |SweptNode(op, t)| <= 1
    ensures var us := SweptNode(op, t); us != [] ==>
              us[0].name == t.name && us[0].isTemplate == t.isTemplate
              && (us[0].children == t.children || us[0].children == Swept(op, t.children))
  {
    hide Commit, Pretend, Discard;
  }

  lemma {:induction false} SweepKeepsNames(op: Sweep, ts: seq<Tree>)
    requires Unique(ts)
    ensures Unique(Swept(op, ts))
    decreases ts
  {
    var us := Swept(op, ts);
    if ts != [] {
      SweptCons(op, ts);
      SweptNodeName(op, ts[0]);
      UniqueRest(ts);
      SweepKeepsNames(op, ts[1..]);
      SweepKeepsNames(op, ts[0].children);
      hide Swept, SweptNode, Unique;
      forall k | 0 <= k < |Swept(op, ts[1..])| ensures !Swept(op, ts[1..])[k].isTemplate && !ts[0].isTemplate ==> Swept(op, ts[1..])[k].name != ts[0].name {
        var i := SweptFrom(op, ts[1..], k);
        FirstNameOnce(ts, i);
      }
      UniqueJoin(SweptNode(op, ts[0]), Swept(op, ts[1..]));
    } else {
      SweptNothing(op);
    }
  }

  lemma FirstNameOnce(ts: seq<Tree>, i: nat)
    requires Unique(ts) && ts != [] && i < |ts[1..]|
    ensures !ts[0].isTemplate && !ts[1..][i].isTemplate ==> ts[1..][i].name != ts[0].name
  {
    assert ts[1..][i] == ts[i + 1];
  }

  lemma UniqueJoin(a: seq<Tree>, b: seq<Tree>)
    requires |a| <= 1 && (a != [] ==> Unique(a[0].children)) && Unique(b)
    requires a != [] ==> forall k :: 0 <= k < |b| && !b[k].isTemplate && !a[0].isTemplate ==> b[k].name != a[0].name
    ensures Unique(a + b)
  {
    var c := a + b;
    if a == [] {
      assert c == b;
    } else {
      assert c[0] == a[0] && forall k :: 1 <= k < |c| ==> c[k] == b[k - 1];
    }
  }

  lemma {:induction false} PrepareKeepsNames(ts: seq<Tree>)
    requires Sane(ts) && Unique(ts)
    ensures Unique(ReplacePrepare(ts))
    decreases ts
  {
    hide ReplacePrepare, Sane, SaneNode;
    var us := ReplacePrepare(ts);
    forall j | 0 <= j < |ts|
      ensures us[j].name == ts[j].name && us[j].isTemplate == ts[j].isTemplate && Unique(us[j].children)
    {
      PreparedAt(ts, j);
      TargetLevel(ts, j);
      ChildrenAreSane(ts[j]);
      PrepareKeepsNames(ts[j].children);
    }
  }

  // ---------------------------------------------------------------- reset

  lemma {:induction false} ResetUntouched(ts: seq<Tree>)
    requires Untouched(ts)
    ensures Untouched(Reset(ts))
    decreases ts
  {
    var us := Reset(ts);
    forall i | 0 <= i < |us| ensures us[i].status == Ready && !us[i].isNew && Untouched(us[i].children) {
      ResetUntouched(ts[i].children);
    }
  }

  lemma {:induction false} ResetKeepsShape(ts: seq<Tree>)
    requires Sane(ts)
    ensures Sane(Reset(ts)) && Skeleton(Reset(ts)) == Skeleton(ts)
    decreases ts, 0
  {
    hide SaneNode, BoneOf, ResetNode;
    var us := Reset(ts);
    if Dynamic(ts) {
      TargetLevel(ts, 0);
      ResetTemplate(ts[0]);
      hide Reset;
      assert us == [us[0]];
      assert Skeleton(us) == Skeleton(ts);
    } else {
      forall j | 0 <= j < |ts| ensures KeptWell(ts, us, j) {
        TargetLevel(ts, j);
        ResetNodeKeeps(ts[j]);
      }
      hide Reset;
      assert Dynamic(us) == Dynamic(ts) by { if ts != [] { assert KeptWell(ts, us, 0); } }
      SaneLike(ts, us);
    }
  }

  lemma {:induction false} ResetTemplate(t: Tree)
    requires SaneNode(t) && t.isTemplate
    ensures var u := t.(children := Reset(t.children)); SaneNode(u) && BoneOf(u) == BoneOf(t)
    decreases t, 1
  {
    ChildrenAreSane(t);
    ResetKeepsShape(t.children);
    ResetUntouched(t.children);
    SaneIs(Reset(t.children));
    hide Reset, Sane, Untouched, WellFormed, Disciplined;
    if t.kind == Item { NothingToReset(); }
  }

  lemma NothingToReset()
    ensures Reset([]) == []
  {
  }

  lemma {:induction false} ResetNodeKeeps(t: Tree)
    requires SaneNode(t) && Fixed(t)
    ensures SaneNode(ResetNode(t)) && BoneOf(ResetNode(t)) == BoneOf(t) && Fixed(ResetNode(t))
    decreases t, 1
  {
    ChildrenAreSane(t);
    ResetKeepsShape(t.children);
    NothingToReset();
    Regrown(t, Reset(t.children));
    Cleared(t.(children := Reset(t.children)), ResetNode(t)) by {
      assert WellFormedNode(t);
    }
  }

  lemma {:induction false} ResetKeepsNames(ts: seq<Tree>)
    requires Unique(ts)
    ensures Unique(Reset(ts))
    decreases ts
  {
    forall j | 0 <= j < |ts| ensures Unique(Reset(ts[j].children)) {
      ResetKeepsNames(ts[j].children);
    }
  }

  // ---------------------------------------------------------------- an empty configuration

  lemma {:induction false} BlankFixed(ts: seq<Tree>, vs: seq<View>)
    requires Sane(ts) && !Dynamic(ts) && |vs| == |ts|
    requires forall i :: 0 <= i < |ts| ==> vs[i] == BlankNode(BoneOf(ts[i]))
    ensures vs == Blank(Skeleton(ts))
  {
    BlankList(Skeleton(ts), vs) by {
      forall i | 0 <= i < |ts| ensures !ts[i].isTemplate {
        TargetLevel(ts, i);
      }
    }
  }

  lemma {:induction false} BlankList(bs: seq<Bone>, vs: seq<View>)
    requires |vs| == |bs| && forall i :: 0 <= i < |bs| ==> !bs[i].isTemplate && vs[i] == BlankNode(bs[i])
    ensures vs == Blank(bs)
  {
    if bs != [] {
      BlankList(bs[1..], vs[1..]);
      assert vs == [vs[0]] + vs[1..];
    }
  }

  /** Where every node is shown, the reading of a list is the list of readings. */
  lemma {:induction false} PendingList(ts: seq<Tree>)
    requires forall i :: 0 <= i < |ts| ==> Stays(ts[i])
    ensures |Pending(ts)| == |ts| && forall i :: 0 <= i < |ts| ==> Pending(ts)[i] == PendingNode(ts[i])
  {
    if ts != [] {
      PendingList(ts[1..]);
      PendingCons(ts);
      assert Pending(ts)[1..] == Pending(ts[1..]);
    }
  }

  lemma {:induction false} NoneStays(ts: seq<Tree>)
    requires forall i :: 0 <= i < |ts| ==> !Stays(ts[i])
    ensures Pending(ts) == []
  {
    if ts != [] { NoneStays(ts[1..]); }
  }

  /** Before anything is merged, replace_prepare leaves no value and no block pending that the
      definition does not fix. */
  lemma {:induction false} PreparedIsBlank(ts: seq<Tree>)
    requires Sane(ts)
    ensures Pending(ReplacePrepare(ts)) == Blank(Skeleton(ts))
    decreases ts
  {
    hide ReplacePrepare, Sane, SaneNode, Pending, BoneOf;
    var us := ReplacePrepare(ts);
    if Dynamic(ts) {
      forall i | 0 <= i < |us| ensures !Stays(us[i]) {
        PreparedAt(ts, i);
        TargetLevel(ts, i);
      }
      NoneStays(us);
      BoneAt(ts, 0);
    } else {
      forall i | 0 <= i < |us| ensures Stays(us[i]) && PendingNode(us[i]) == BlankNode(BoneOf(ts[i])) {
        PreparedAt(ts, i);
        TargetLevel(ts, i);
        ChildrenAreSane(ts[i]);
        PreparedIsBlank(ts[i].children);
        PreparedNodeIsBlank(ts[i]);
      }
      PendingList(us);
      BlankFixed(ts, Pending(us));
    }
  }

  lemma PreparedNodeIsBlank(t: Tree)
    requires SaneNode(t) && Fixed(t) && Pending(ReplacePrepare(t.children)) == Blank(Skeleton(t.children))
    ensures Stays(PrepareNode(t)) && PendingNode(PrepareNode(t)) == BlankNode(BoneOf(t))
  {
    hide ReplacePrepare, DisciplinedNode;
    if t.kind == Item {
      assert t.children == [] && Skeleton(t.children) == [];
    }
  }

  lemma {:induction false} CommittedAlike(ts: seq<Tree>, us: seq<Tree>)
    requires |us| == |ts| && forall i :: 0 <= i < |ts| ==> CommittedHere(us[i]) == CommittedHere(ts[i])
    ensures Committed(us) == Committed(ts)
  {
    if ts != [] {
      CommittedAlike(ts[1..], us[1..]);
      CommittedCons(ts);
      CommittedCons(us);
    }
  }

  /** Marking changes nothing that is in force. */
  lemma {:induction false} PrepareKeepsForce(ts: seq<Tree>)
    requires Sane(ts)
    ensures Committed(ReplacePrepare(ts)) == Committed(ts)
    decreases ts
  {
    hide ReplacePrepare, Sane, SaneNode, Committed;
    var us := ReplacePrepare(ts);
    forall i | 0 <= i < |ts| ensures CommittedHere(us[i]) == CommittedHere(ts[i]) {
      PreparedAt(ts, i);
      TargetLevel(ts, i);
      ChildrenAreSane(ts[i]);
      PrepareKeepsForce(ts[i].children);
    }
    CommittedAlike(ts, us);
  }

  lemma {:induction false} CommittedList(ts: seq<Tree>)
    requires forall i :: 0 <= i < |ts| ==> InForce(ts[i])
    ensures |Committed(ts)| == |ts| && forall i :: 0 <= i < |ts| ==> Committed(ts)[i] == CommittedNode(ts[i])
  {
    if ts != [] {
      CommittedList(ts[1..]);
      CommittedCons(ts);
      assert Committed(ts)[1..] == Committed(ts[1..]);
    }
  }

  /** reset leaves nothing but that, in force and pending. */
  lemma {:induction false} ResetIsBlank(ts: seq<Tree>)
    requires Sane(ts)
    ensures Pending(Reset(ts)) == Blank(Skeleton(ts)) && Committed(Reset(ts)) == Blank(Skeleton(ts))
    decreases ts
  {
    hide Sane, SaneNode, Pending, Committed, BoneOf, ResetNode;
    var us := Reset(ts);
    if Dynamic(ts) {
      OnlyTemplate(us);
      BoneAt(ts, 0);
    } else {
      forall i | 0 <= i < |us|
        ensures Stays(us[i]) && PendingNode(us[i]) == BlankNode(BoneOf(ts[i]))
        ensures InForce(us[i]) && CommittedNode(us[i]) == BlankNode(BoneOf(ts[i]))
      {
        TargetLevel(ts, i);
        ChildrenAreSane(ts[i]);
        ResetIsBlank(ts[i].children);
        ResetNodeIsBlank(ts[i]);
      }
      PendingList(us);
      CommittedList(us);
      BlankFixed(ts, Pending(us));
      BlankFixed(ts, Committed(us));
    }
  }

  lemma OnlyTemplate(ts: seq<Tree>)
    requires |ts| == 1 && ts[0].isTemplate
    ensures Pending(ts) == [] && Committed(ts) == []
  {
  }

  lemma ResetNodeIsBlank(t: Tree)
    requires Fixed(t)
    requires Pending(Reset(t.children)) == Blank(Skeleton(t.children))
    requires Committed(Reset(t.children)) == Blank(Skeleton(t.children))
    ensures Stays(ResetNode(t)) && PendingNode(ResetNode(t)) == BlankNode(BoneOf(t))
    ensures InForce(ResetNode(t)) && CommittedNode(ResetNode(t)) == BlankNode(BoneOf(t))
  {
    hide Reset;
  }

  /** Committing right after replace_prepare leaves in force what reset would. */
  lemma PrepareAndCommitIsReset(ts: seq<Tree>)
    requires Sane(ts)
    ensures Committed(Commit(ReplacePrepare(ts))) == Committed(Reset(ts))
  {
    PrepareKeepsShape(ts);
    SaneIs(ReplacePrepare(ts));
    CommitPutsInForce(ReplacePrepare(ts));
    PreparedIsBlank(ts);
    ResetIsBlank(ts);
  }
}
