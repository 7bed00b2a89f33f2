/** What holds after any sequence of operations on the configuration tree. */
module ConfigHistory {
  import opened ConfigTree
  import opened ConfigMerge
  import opened ConfigByName
  import opened ConfigHidden
  import opened ConfigStopped
  import opened ConfigAnnounce
  import opened ConfigShape
  import opened ConfigSort
  import opened ConfigQuiet

  // ---------------------------------------------------------------- definitions

  /** validate_definition: a template is an only child. */
  predicate ValidDefinition(ts: seq<Tree>) {
    forall i :: 0 <= i < |ts| ==> (ts[i].isTemplate ==> |ts| == 1) && ValidDefinition(ts[i].children)
  }

  /** A definition as parsed: no values changed, only templates are sorted by a node. */
  predicate Parsed(ts: seq<Tree>) {
    forall i :: 0 <= i < |ts| ==> ParsedNode(ts[i])
  }

  predicate ParsedNode(t: Tree) {
    && t.status == Ready && !t.isNew && t.kind != OtherKind && t.value == t.newValue
    && (t.kind == Item ==> t.children == [])
    && (t.kind == Block && !t.isTemplate ==> t.sortNode == None)
    && Parsed(t.children)
  }

  /** A definition validate_definition accepts has the shape all operations keep. */
  lemma {:induction false} DefinitionIsSane(ts: seq<Tree>)
    requires Parsed(ts) && ValidDefinition(ts)
    ensures Sane(ts) && Untouched(ts)
    decreases ts
  {
    forall i | 0 <= i < |ts| ensures SaneNode(ts[i]) && Untouched(ts[i].children) {
      assert ParsedNode(ts[i]);
      DefinitionIsSane(ts[i].children);
      SaneIs(ts[i].children);
    }
    assert forall i :: 0 <= i < |ts| ==> ParsedNode(ts[i]);
  }

  /** Nothing stands behind a template. */
  predicate TemplatesAlone(ts: seq<Tree>) {
    (Dynamic(ts) ==> |ts| == 1) && forall i :: 0 <= i < |ts| ==> TemplatesAlone(ts[i].children)
  }

  /** And it accepts no more and no less than that: what is parsed is accepted exactly if it has
      that shape and nothing made from a template in it. */
  lemma {:induction false} DefinitionsExactly(ts: seq<Tree>)
    requires Parsed(ts)
    ensures ValidDefinition(ts) <==> Sane(ts) && TemplatesAlone(ts)
    decreases ts
  {
    hide Sane;
    forall i | 0 <= i < |ts| ensures ValidDefinition(ts[i].children) <==> Sane(ts[i].children) && TemplatesAlone(ts[i].children) {
      assert ParsedNode(ts[i]);
      DefinitionsExactly(ts[i].children);
    }
    if ValidDefinition(ts) { DefinitionIsSane(ts); }
    if Sane(ts) && TemplatesAlone(ts) {
      forall i | 0 <= i < |ts| ensures (ts[i].isTemplate ==> |ts| == 1) && ValidDefinition(ts[i].children) {
        TargetLevel(ts, i);
        ChildrenAreSane(ts[i]);
      }
    }
  }

  // ---------------------------------------------------------------- any sequence of operations

  datatype Op =
    | DoCommit
    | DoPretend                             // commit(.., true)
    | DoDiscard
    | DoMerge(contents: seq<Tree>)          // merge(.., true)
    | DoLoad(contents: seq<Tree>)           // merge(.., false)
    | DoPrepare                             // replace_prepare
    | DoReset
    | DoSort                                // sort

  function Do(ts: seq<Tree>, op: Op, r: Rules): seq<Tree> {
    match op
    case DoCommit => Commit(ts)
    case DoPretend => Pretend(ts)
    case DoDiscard => Discard(ts)
    case DoMerge(cs) => Merge(ts, cs, true, r).children
    case DoLoad(cs) => Merge(ts, cs, false, r).children
    case DoPrepare => ReplacePrepare(ts)
    case DoReset => Reset(ts)
    case DoSort => SortAll(ts, r.arrange)
  }

  function Run(ts: seq<Tree>, ops: seq<Op>, r: Rules): seq<Tree>
    decreases |ops|
  {
    if ops == [] then ts else Run(Do(ts, ops[0], r), ops[1..], r)
  }

  /** What no operation changes. */
  predicate Kept(ts: seq<Tree>, us: seq<Tree>) {
    Sane(us) && Unique(us) && Skeleton(us) == Skeleton(ts)
  }

  lemma SweepKeeps(ts: seq<Tree>, sweep: Sweep)
    requires Sane(ts) && Unique(ts)
    ensures Kept(ts, Swept(sweep, ts))
  {
    hide Sane, Unique, Skeleton, Swept;
    SweepKeepsShape(sweep, ts);
    SweepKeepsNames(sweep, ts);
  }

  lemma MergeKeeps(ts: seq<Tree>, cs: seq<Tree>, r: Rules)
    requires Sane(ts) && Unique(ts)
    ensures Kept(ts, Merge(ts, cs, true, r).children)
  {
    hide Sane, Unique, Skeleton, Merge;
    MergeKeepsShape(ts, cs, true, r);
    Grows(ts, cs, r);
  }

  lemma PrepareOrResetKeeps(ts: seq<Tree>)
    requires Sane(ts) && Unique(ts)
    ensures Kept(ts, ReplacePrepare(ts)) && Kept(ts, Reset(ts))
  {
    hide Sane, Unique, Skeleton, ReplacePrepare, Reset;
    PrepareKeepsShape(ts);
    PrepareKeepsNames(ts);
    ResetKeepsShape(ts);
    ResetKeepsNames(ts);
  }

  /** What is loaded, as far as the load gets, makes no block of a name that is there already. */
  predicate LoadsApart(ts: seq<Tree>, op: Op, r: Rules) {
    op.DoLoad? ==> Apart(ts, Reached(ts, op.contents, false, r), r)
  }

  predicate AllLoadsApart(ts: seq<Tree>, ops: seq<Op>, r: Rules)
    decreases |ops|
  {
    ops == [] || (LoadsApart(ts, ops[0], r) && AllLoadsApart(Do(ts, ops[0], r), ops[1..], r))
  }

  lemma LoadKeeps(ts: seq<Tree>, cs: seq<Tree>, r: Rules)
    requires Sane(ts) && Unique(ts) && Apart(ts, Reached(ts, cs, false, r), r)
    ensures Kept(ts, Merge(ts, cs, false, r).children)
  {
    hide Sane, Unique, Skeleton, Merge;
    MergeKeepsShape(ts, cs, false, r);
    QuietKeepsNames(ts, cs, r);
  }

  lemma OneKeeps(ts: seq<Tree>, op: Op, r: Rules)
    requires Sane(ts) && Unique(ts) && LoadsApart(ts, op, r)
    ensures Kept(ts, Do(ts, op, r))
  {
    hide Sane, Unique, Skeleton, Commit, Pretend, Discard, ReplacePrepare, Reset, Merge, SortAll;
    match op
    case DoCommit => SweepKeeps(ts, Committing);
    case DoPretend => SweepKeeps(ts, Pretending);
    case DoDiscard => SweepKeeps(ts, Discarding);
    case DoMerge(cs) => MergeKeeps(ts, cs, r);
    case DoLoad(cs) => LoadKeeps(ts, cs, r);
    case DoPrepare => PrepareOrResetKeeps(ts);
    case DoReset => PrepareOrResetKeeps(ts);
    case DoSort => SortAllKeeps(ts, r.arrange);
  }

  /** Over any sequence of operations, merges that stop half way among them: a template is only
      ever a first child, only blocks made from it are new or deleted, each of them keeps its
      structure, and the shape of the whole tree never changes. */
  lemma {:induction false} RunKeepsShape(ts: seq<Tree>, ops: seq<Op>, r: Rules)
    requires Sane(ts)
    ensures Sane(Run(ts, ops, r)) && Skeleton(Run(ts, ops, r)) == Skeleton(ts)
    decreases |ops|
  {
    hide Sane, Skeleton, Do;
    if ops != [] {
      OneKeepsShape(ts, ops[0], r);
      RunKeepsShape(Do(ts, ops[0], r), ops[1..], r);
    }
  }

  lemma OneKeepsShape(ts: seq<Tree>, op: Op, r: Rules)
    requires Sane(ts)
    ensures Sane(Do(ts, op, r)) && Skeleton(Do(ts, op, r)) == Skeleton(ts)
  {
    hide Sane, Skeleton, Commit, Pretend, Discard, ReplacePrepare, Reset, Merge, SortAll;
    match op
    case DoCommit => SweepKeepsShape(Committing, ts);
    case DoPretend => SweepKeepsShape(Pretending, ts);
    case DoDiscard => SweepKeepsShape(Discarding, ts);
    case DoMerge(cs) => MergeKeepsShape(ts, cs, true, r);
    case DoLoad(cs) => MergeKeepsShape(ts, cs, false, r);
    case DoPrepare => PrepareKeepsShape(ts);
    case DoReset => ResetKeepsShape(ts);
    case DoSort => SortAllKeeps(ts, r.arrange);
  }

  /** And as long as what is loaded makes no block of a name that is there already, the names
      of siblings stay apart. */
  lemma {:induction false} RunKeeps(ts: seq<Tree>, ops: seq<Op>, r: Rules)
    requires Sane(ts) && Unique(ts) && AllLoadsApart(ts, ops, r)
    ensures Kept(ts, Run(ts, ops, r))
    decreases |ops|
  {
    hide Sane, Unique, Skeleton, Do, LoadsApart;
    if ops != [] {
      OneKeeps(ts, ops[0], r);
      RunKeeps(Do(ts, ops[0], r), ops[1..], r);
    }
  }

  // ---------------------------------------------------------------- a session of edits

  /** An operation that leaves in force what is: not a commit, and no merge that lists, as far as
      it gets, a block twice that is not there yet in the tree it meets. */
  ghost predicate Guarded(ts: seq<Tree>, op: Op, r: Rules) {
    match op
    case DoDiscard => true
    case DoPrepare => true
    case DoSort => true
    case DoMerge(cs) => OnlyNew(ts, NewIn(ts, Reached(ts, cs, true, r), r))
    case _ => false
  }

  ghost predicate Session(ts: seq<Tree>, ops: seq<Op>, r: Rules)
    decreases |ops|
  {
    ops == [] || (Guarded(ts, ops[0], r) && Session(Do(ts, ops[0], r), ops[1..], r))
  }

  lemma OneHides(ts: seq<Tree>, op: Op, r: Rules)
    requires Sane(ts) && Unique(ts) && Guarded(ts, op, r)
    ensures InForceByName(Do(ts, op, r)) == InForceByName(ts)
  {
    hide Sane, Unique, Discard, ReplacePrepare, Merge, InForceByName, OnlyNew, NewIn, Reached;
    if op.DoDiscard? {
      SaneIs(ts);
      DiscardRestores(ts);
      SameForce(ts, Discard(ts));
    } else if op.DoMerge? {
      ForceStays(ts, op.contents, r);
    } else if op.DoPrepare? {
      PrepareKeepsForce(ts);
      SameForce(ts, ReplacePrepare(ts));
    } else {
      SortAllKeeps(ts, r.arrange);
    }
  }

  /** Whatever is done in a session, what is in force stays; a discard then leaves nothing else
      pending, and a commit puts in force what the session made pending. */
  lemma {:induction false} SessionHides(ts: seq<Tree>, ops: seq<Op>, r: Rules)
    requires Sane(ts) && Unique(ts) && Session(ts, ops, r)
    ensures var us := Run(ts, ops, r);
            && InForceByName(us) == InForceByName(ts)
            && ByName(Pending(Discard(us))) == InForceByName(ts) && Clean(Discard(us))
            && Committed(Commit(us)) == Pending(us) && Clean(Commit(us))
    decreases |ops|
  {
    assert ops == [] || LoadsApart(ts, ops[0], r);
    hide Sane, Unique, Skeleton, Do, Guarded, LoadsApart, Discard, Commit, Committed, Pending, ByName;
    if ops == [] {
      SaneIs(ts);
      DiscardRestores(ts);
      CommitPutsInForce(ts);
    } else {
      OneKeeps(ts, ops[0], r);
      OneHides(ts, ops[0], r);
      SessionHides(Do(ts, ops[0], r), ops[1..], r);
    }
  }

  /** Announcing new contents, replacing the old ones or not, then discarding them: whether the
      merge succeeds or stops half way, what was in force stays, and is all that is left,
      exactly if the contents it reached list no block twice that is not there yet; if all of
      them list none twice it does. */
  lemma AnnounceAndDiscard(ts: seq<Tree>, cs: seq<Tree>, replace: bool, r: Rules)
    requires Sane(ts) && Unique(ts) && Clean(ts)
    ensures var us := Merge(if replace then ReplacePrepare(ts) else ts, cs, true, r).children;
            && (InForceByName(us) == InForceByName(ts) <==> NoneTwice(NewIn(ts, Reached(ts, cs, true, r), r)))
            && (NoneTwice(NewIn(ts, cs, r)) ==> InForceByName(us) == InForceByName(ts))
            && ByName(Pending(Discard(us))) == InForceByName(us) && Clean(Discard(us))
  {
    hide Sane, Unique, Skeleton, InForceByName, ReplacePrepare, Discard, Merge, Fresh, Reached;
    var ps, ds := if replace then ReplacePrepare(ts) else ts, Reached(ts, cs, true, r);
    if replace {
      PrepareKeepsShape(ts);
      PrepareKeepsNames(ts);
      SameForce(ts, ps) by { PrepareKeepsForce(ts); }
      SameReached(ts, ps, cs, true, r);
    }
    assert NewIn(ps, ds, r) == NewIn(ts, ds, r) && NewIn(ps, cs, r) == NewIn(ts, cs, r);
    forall p ensures !Fresh(ps, p) {
      NothingFresh(ts, p);
      if replace { PrepareKeepsFresh(ts, p); }
    }
    ForceStays(ps, cs, r);
    if NoneTwice(NewIn(ts, cs, r)) { Hidden(ps, cs, r); }
    MergeKeepsShape(ps, cs, true, r);
    var us := Merge(ps, cs, true, r).children;
    SaneIs(us);
    DiscardRestores(us);
    SameForce(us, Discard(us));
    ForceIs(us);
  }

  lemma SameForce(ts: seq<Tree>, us: seq<Tree>)
    requires Committed(us) == Committed(ts)
    ensures InForceByName(us) == InForceByName(ts)
  {
  }

  lemma ForceIs(ts: seq<Tree>)
    ensures InForceByName(ts) == ByName(Committed(ts))
  {
  }

  lemma {:induction false} PrepareKeepsFresh(ts: seq<Tree>, p: Path)
    requires Sane(ts)
    ensures Fresh(ReplacePrepare(ts), p) <==> Fresh(ts, p)
    decreases |p|
  {
    hide ReplacePrepare, Sane, SaneNode;
    var us := ReplacePrepare(ts);
    if p != [] {
      forall j | 0 <= j < |ts|
        ensures us[j].name == ts[j].name && us[j].isTemplate == ts[j].isTemplate && InForce(us[j]) == InForce(ts[j])
      {
        PreparedAt(ts, j);
      }
      SameFind(ts, us, p[0]);
      var k := Find(ts, p[0]);
      if k < |ts| {
        PreparedAt(ts, k);
        TargetLevel(ts, k);
        ChildrenAreSane(ts[k]);
        PrepareKeepsFresh(ts[k].children, p[1..]);
      }
    }
  }

  lemma SameFind(ts: seq<Tree>, us: seq<Tree>, name: string)
    requires |us| == |ts|
    requires forall j :: 0 <= j < |ts| ==> us[j].name == ts[j].name && us[j].isTemplate == ts[j].isTemplate
    ensures Find(us, name) == Find(ts, name)
  {
    var j, k := Find(ts, name), Find(us, name);
  }

  /** replace_prepare replaces nothing inside a block that the new contents list again: listing
      it alone makes it pending with everything that was in it. */
  lemma ListedAgainKeepsInside(ts: seq<Tree>, k: nat, c: Tree, r: Rules)
    requires Sane(ts) && Unique(ts) && Dynamic(ts) && 1 <= k < |ts|
    requires c.kind == Block && c.children == [] && r.check(ts[0].typ, c.name) == Some(ts[k].name)
    ensures var m := Merge(ReplacePrepare(ts), [c], true, r);
            m.ok && k < |m.children| && m.children[k] == ts[k].(status := Modified, isNew := false)
  {
    hide Sane, SaneNode, Unique, Skeleton, ReplacePrepare;
    var us := ReplacePrepare(ts);
    PrepareKeepsShape(ts);
    PrepareKeepsNames(ts);
    PreparedAt(ts, 0);
    PreparedAt(ts, k);
    TargetLevel(ts, k);
    FindIs(us, k, ts[k].name);
    TargetFound(us, ts[k].name);
    var d := us[k].(status := Modified, isNew := false);
    assert Merge(d.children, [], true, r) == Merged(d.children, true);
    assert MergeInto(us, k, d, c, true, r) == Merged(us[k := d], true);
    TargetFound(us, c.name);
    assert MergeOne(us, c, true, r) == Merged(us[k := d], true);
    MergeLast(us, us[k := d], c, r);
  }

  lemma MergeLast(us: seq<Tree>, vs: seq<Tree>, c: Tree, r: Rules)
    requires MergeOne(us, c, true, r) == Merged(vs, true)
    ensures Merge(us, [c], true, r) == Merged(vs, true)
  {
    hide MergeOne;
    assert [c][1..] == [] && Merge(vs, [], true, r) == Merged(vs, true);
  }
}
