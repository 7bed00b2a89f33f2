/** The exact condition under which a merge that announces its values leaves in force what is. */
module ConfigAnnounce {
  import opened ConfigTree
  import opened ConfigMerge
  import opened ConfigByName
  import opened ConfigHidden
  import opened ConfigStopped
  import opened ConfigValidate

  // ---------------------------------------------------------------- what one entry lists

  lemma BelowEntry(ts: seq<Tree>, k: nat)
    requires Unique(ts) && k < |ts| && InForce(ts[k])
    ensures ts[k].name in InForceByName(ts)
    ensures InForceByName(ts)[ts[k].name].below == InForceByName(ts[k].children)
  {
    hide Unique, InForceByName, CommittedNode, EntryOf;
    FindIs(ts, k, ts[k].name);
    ByNameAt(ts, ts[k].name);
    EntryIs(ts[k]);
  }

  lemma ListsFixed(ts: seq<Tree>, c: Tree, r: Rules) returns (j: nat)
    requires Sane(ts) && Unique(ts) && !Dynamic(ts)
    ensures j == Find(ts, c.name)
    ensures j < |ts| ==> InForce(ts[j]) && NewInOne(ts, c, r) == Prefixed(c.name, NewIn(ts[j].children, c.children, r))
  {
    hide Sane, Unique, InForceByName, Listed, Skeleton, Prefixed;
    j := Find(ts, c.name);
    TargetFound(ts, c.name);
    if j < |ts| {
      BelowEntry(ts, j);
      BoneAt(ts, j);
    }
  }

  lemma ListsDynamic(ts: seq<Tree>, n: string, c: Tree, r: Rules) returns (k: nat)
    requires Sane(ts) && Unique(ts) && Dynamic(ts) && c.kind == Block && r.check(ts[0].typ, c.name) == Some(n)
    ensures k == Find(ts, n)
    ensures NewInOne(ts, c, r) ==
            if k < |ts| && InForce(ts[k]) then Prefixed(n, NewIn(ts[k].children, c.children, r)) else [[n]]
  {
    hide Sane, Unique, InForceByName, Listed, Skeleton, Prefixed;
    k := Find(ts, n);
    BoneAt(ts, 0);
    ByNameAt(ts, n);
    if k < |ts| && InForce(ts[k]) {
      BelowEntry(ts, k);
      BoneAt(ts, k);
    }
  }

  // ---------------------------------------------------------------- nothing comes into force

  /** ps are the paths that came to lead to new blocks. */
  ghost predicate Joined(ts: seq<Tree>, us: seq<Tree>, ps: seq<Path>) {
    forall p :: Fresh(us, p) <==> Fresh(ts, p) || p in ps
  }

  /** What a merge did out of sight. */
  ghost predicate Unseen(ts: seq<Tree>, m: Merged, ps: seq<Path>) {
    InForceByName(m.children) == InForceByName(ts) && (m.ok ==> Joined(ts, m.children, ps))
  }

  lemma {:induction false} Hidden(ts: seq<Tree>, cs: seq<Tree>, r: Rules)
    requires Sane(ts) && Unique(ts) && OnlyNew(ts, NewIn(ts, cs, r))
    ensures Unseen(ts, Merge(ts, cs, true, r), NewIn(ts, cs, r))
    decreases cs, 0
  {
    hide Sane, Unique, InForceByName, MergeOne, NewIn, NewInOne, OnlyNew, Fresh;
    NewInIs(ts, cs, r);
    if cs != [] {
      var ps, qs := NewInOne(ts, cs[0], r), NewIn(ts, cs[1..], r);
      OnlyNewParts(ts, ps, qs);
      HiddenOne(ts, cs[0], r);
      var m := MergeOne(ts, cs[0], true, r);
      if m.ok {
        MergeOneKeepsShape(ts, cs[0], true, r);
        GrowsOne(ts, cs[0], r);
        StillOnlyNew(ts, m.children, ps, qs);
        NewInSame(ts, m.children, cs[1..], r);
        Hidden(m.children, cs[1..], r);
        JoinedThrough(ts, m, Merge(m.children, cs[1..], true, r), ps, qs);
      }
    }
  }

  lemma NewInIs(ts: seq<Tree>, cs: seq<Tree>, r: Rules)
    ensures NewIn(ts, cs, r) == if cs == [] then [] else NewInOne(ts, cs[0], r) + NewIn(ts, cs[1..], r)
  {
  }

  lemma NewInSame(ts: seq<Tree>, us: seq<Tree>, cs: seq<Tree>, r: Rules)
    requires Skeleton(ts) == Skeleton(us) && InForceByName(ts) == InForceByName(us)
    ensures NewIn(ts, cs, r) == NewIn(us, cs, r)
  {
  }

  lemma JoinedThrough(ts: seq<Tree>, m: Merged, n: Merged, ps: seq<Path>, qs: seq<Path>)
    requires Unseen(ts, m, ps) && m.ok && Unseen(m.children, n, qs)
    ensures Unseen(ts, n, ps + qs)
  {
    hide InForceByName, Fresh;
  }

  lemma StillOnlyNew(ts: seq<Tree>, us: seq<Tree>, ps: seq<Path>, qs: seq<Path>)
    requires Joined(ts, us, ps)
    ensures OnlyNew(us, qs) <==> OnlyNew(ts, qs) && forall p :: p in ps ==> p !in qs
  {
    hide Fresh;
  }

  lemma {:induction false} HiddenOne(ts: seq<Tree>, c: Tree, r: Rules)
    requires Sane(ts) && Unique(ts) && OnlyNew(ts, NewInOne(ts, c, r))
    ensures Unseen(ts, MergeOne(ts, c, true, r), NewInOne(ts, c, r))
    decreases c, 3
  {
    hide Sane, Unique, InForceByName, MergeItem, MergeInto, MergeBehind, NewInOne, OnlyNew, Joined, Prefixed;
    var j := Target(ts, c.name);
    if j == |ts| { return; }
    TargetFound(ts, c.name);
    TargetLevel(ts, j);
    if ts[j].isTemplate {
      HiddenBehind(ts, c, r);
    } else {
      j := ListsFixed(ts, c, r);
      if c.kind == Item {
        HiddenItem(ts, j, c, r);
      } else {
        HiddenInto(ts, j, ts[j], c, r);
      }
    }
  }

  lemma {:induction false} HiddenItem(ts: seq<Tree>, i: nat, c: Tree, r: Rules)
    requires Sane(ts) && Unique(ts) && i < |ts| && InForce(ts[i])
    requires OnlyNew(ts, Prefixed(ts[i].name, NewIn(ts[i].children, c.children, r)))
    ensures Unseen(ts, MergeItem(ts, i, c, true, r), Prefixed(ts[i].name, NewIn(ts[i].children, c.children, r)))
    decreases c, 2
  {
    hide Sane, Unique, InForceByName, MergeInto, OnlyNew, Joined, Prefixed, NewIn;
    var v := r.check(ts[i].typ, c.value);
    if v.Some? {
      HiddenInto(ts, i, Overwritten(ts[i], v.value, true), c, r);
    }
  }

  lemma {:induction false} HiddenInto(ts: seq<Tree>, i: nat, d: Tree, c: Tree, r: Rules)
    requires Sane(ts) && Unique(ts) && i < |ts| && InForce(ts[i])
    requires d == ts[i].(newValue := d.newValue, status := d.status)
    requires OnlyNew(ts, Prefixed(d.name, NewIn(ts[i].children, c.children, r)))
    ensures Unseen(ts, MergeInto(ts, i, d, c, true, r), Prefixed(d.name, NewIn(ts[i].children, c.children, r)))
    decreases c, 1
  {
    hide Sane, Unique, InForceByName, Merge, OnlyNew, Joined, Prefixed, NewIn;
    var ps := NewIn(ts[i].children, c.children, r);
    OnlyNewPrefixed(ts, i, d.name, ps);
    TargetLevel(ts, i);
    ChildrenAreSane(ts[i]);
    UniqueBelow(ts, i);
    Hidden(d.children, c.children, r);
    Grows(d.children, c.children, r);
    var m := Merge(d.children, c.children, true, r);
    var e := d.(children := m.children);
    SameView(ts, i, e);
    if m.ok { JoinedInto(ts, i, e, ps); }
  }

  lemma SameView(ts: seq<Tree>, i: nat, d: Tree)
    requires Unique(ts) && Unique(d.children) && i < |ts| && InForce(ts[i])
    requires d == ts[i].(newValue := d.newValue, status := d.status, children := d.children)
    requires InForceByName(d.children) == InForceByName(ts[i].children)
    ensures InForceByName(ts[i := d]) == InForceByName(ts)
  {
    hide Unique, InForceByName;
    ViewInto(ts, i, d);
    var m := InForceByName(ts);
    assert m[d.name := m[d.name]] == m;
  }

  lemma JoinedInto(ts: seq<Tree>, i: nat, d: Tree, ps: seq<Path>)
    requires Unique(ts) && Unique(d.children) && i < |ts| && InForce(ts[i]) && InForce(d) && d.name == ts[i].name
    requires Joined(ts[i].children, d.children, ps)
    ensures Joined(ts, ts[i := d], Prefixed(d.name, ps))
  {
    hide Unique, Prefixed, Joined;
    var us := ts[i := d];
    UniqueReplaced(ts, i, d);
    forall p ensures Fresh(us, p) <==> Fresh(ts, p) || p in Prefixed(d.name, ps) {
      JoinedAt(ts, i, d, ps, p);
    }
    JoinedIf(ts, us, Prefixed(d.name, ps));
  }

  lemma JoinedIf(ts: seq<Tree>, us: seq<Tree>, ps: seq<Path>)
    requires forall p :: Fresh(us, p) <==> Fresh(ts, p) || p in ps
    ensures Joined(ts, us, ps)
  {
  }

  lemma JoinedAt(ts: seq<Tree>, i: nat, d: Tree, ps: seq<Path>, p: Path)
    requires Unique(ts) && Unique(d.children) && i < |ts| && InForce(ts[i]) && InForce(d) && d.name == ts[i].name
    requires Joined(ts[i].children, d.children, ps) && Unique(ts[i := d])
    ensures Fresh(ts[i := d], p) <==> Fresh(ts, p) || p in Prefixed(d.name, ps)
  {
    hide Unique;
    var us := ts[i := d];
    var qs := Prefixed(d.name, ps);
    if p != [] && p[0] == d.name {
      assert p == [d.name] + p[1..];
      FreshBelow(ts, i, p[1..]);
      FreshBelow(us, i, p[1..]);
      if p[1..] in ps {
        var n :| 0 <= n < |ps| && ps[n] == p[1..];
        assert qs[n] == p;
      }
      if p in qs {
        var n :| 0 <= n < |qs| && qs[n] == p;
        assert qs[n][1..] == ps[n];
      }
    } else {
      forall n | 0 <= n < |qs| ensures qs[n] != p {
        assert qs[n][0] == d.name;
      }
      if p != [] { FindReplaced(ts, i, d, p[0]); }
    }
  }

  lemma {:induction false} HiddenBehind(ts: seq<Tree>, c: Tree, r: Rules)
    requires Sane(ts) && Unique(ts) && Dynamic(ts) && OnlyNew(ts, NewInOne(ts, c, r))
    ensures Unseen(ts, MergeBehind(ts, ts[0], c, true, r), NewInOne(ts, c, r))
    decreases c, 2
  {
    hide Sane, Unique, InForceByName, MergeInto, MergeNew, NewInOne, OnlyNew, Joined, Prefixed, Instantiated;
    var name := r.check(ts[0].typ, c.name);
    if c.kind != Block || name.None? { return; }
    TargetFound(ts, name.value);
    var k := ListsDynamic(ts, name.value, c, r);
    if k == |ts| {
      HiddenNew(ts, name.value, c, r);
    } else {
      TargetLevel(ts, k);
      if InForce(ts[k]) {
        HiddenInto(ts, k, ts[k].(status := Modified, isNew := false), c, r);
      } else {
        ThereAlready(ts, k);
      }
    }
  }

  lemma ThereAlready(ts: seq<Tree>, k: nat)
    requires k < |ts| && k == Find(ts, ts[k].name) && !InForce(ts[k])
    ensures !OnlyNew(ts, [[ts[k].name]])
  {
    var p := [ts[k].name];
    assert Fresh(ts, p) && p in [p];
  }

  lemma {:induction false} HiddenNew(ts: seq<Tree>, name: string, c: Tree, r: Rules)
    requires Sane(ts) && Unique(ts) && Dynamic(ts) && Find(ts, name) == |ts|
    ensures Unseen(ts, MergeNew(ts, Instantiated(ts[0], name, true), c, true, r), [[name]])
    decreases c, 1
  {
    hide Sane, Unique, InForceByName, Merge, Placed, Instantiated, Joined;
    NewGrows(ts, name, c, r);
    TargetLevel(ts, 0);
    ChildrenAreSane(ts[0]);
    UniqueBelow(ts, 0);
    InstantiatedIsSane(ts[0], name, true);
    var d := Instantiated(ts[0], name, true);
    Grows(d.children, c.children, r);
    var m := Merge(d.children, c.children, true, r);
    if m.ok {
      NewIsHidden(ts[0], name, m.children);
      JoinedPlaced(ts, d.(children := m.children), r);
    }
  }

  lemma JoinedPlaced(ts: seq<Tree>, d: Tree, r: Rules)
    requires Unique(ts) && Unique(d.children) && ts != []
    requires !d.isTemplate && !InForce(d) && Find(ts, d.name) == |ts|
    ensures Joined(ts, Placed(ts, d, r), [[d.name]])
  {
    hide Unique, Placed, Joined, Fresh;
    forall p ensures Fresh(Placed(ts, d, r), p) <==> Fresh(ts, p) || p in [[d.name]] {
      JoinedPlacedAt(ts, d, r, p);
    }
    JoinedIf(ts, Placed(ts, d, r), [[d.name]]);
  }

  lemma JoinedPlacedAt(ts: seq<Tree>, d: Tree, r: Rules, p: Path)
    requires Unique(ts) && Unique(d.children) && ts != []
    requires !d.isTemplate && !InForce(d) && Find(ts, d.name) == |ts|
    ensures Fresh(Placed(ts, d, r), p) <==> Fresh(ts, p) || p == [d.name]
  {
    hide Unique, Placed, Find;
    if p != [] {
      FindPlaced(ts, d, r, p[0]);
      if |p| == 1 { assert p == [p[0]]; }
    }
  }

  // ---------------------------------------------------------------- something comes into force

  lemma {:induction false} Exposed(ts: seq<Tree>, cs: seq<Tree>, r: Rules)
    requires Sane(ts) && Unique(ts) && Merge(ts, cs, true, r).ok && !OnlyNew(ts, NewIn(ts, cs, r))
    ensures InForceByName(Merge(ts, cs, true, r).children) != InForceByName(ts)
    decreases cs, 0
  {
    hide Sane, Unique, InForceByName, MergeOne, Skeleton, OnlyNew, ListedOne, Fresh, Within;
    if cs == [] {
      NothingListed(ts);
    } else {
      var ps, qs := NewInOne(ts, cs[0], r), NewIn(ts, cs[1..], r);
      var us := MergeOne(ts, cs[0], true, r).children;
      MergeOneKeepsShape(ts, cs[0], true, r);
      GrowsOne(ts, cs[0], r);
      Grows(us, cs[1..], r);
      OnlyNewParts(ts, ps, qs);
      if OnlyNew(ts, ps) {
        HiddenOne(ts, cs[0], r);
        StillOnlyNew(ts, us, ps, qs);
        Exposed(us, cs[1..], r);
      } else {
        ExposedOne(ts, cs[0], r);
        GrownStays(InForceByName(ts), InForceByName(us), InForceByName(Merge(us, cs[1..], true, r).children));
      }
    }
  }

  lemma NothingListed(ts: seq<Tree>)
    ensures OnlyNew(ts, [])
  {
  }

  lemma {:induction false} ExposedOne(ts: seq<Tree>, c: Tree, r: Rules)
    requires Sane(ts) && Unique(ts) && MergeOne(ts, c, true, r).ok && !OnlyNew(ts, NewInOne(ts, c, r))
    ensures InForceByName(MergeOne(ts, c, true, r).children) != InForceByName(ts)
    decreases c, 3
  {
    hide Sane, Unique, InForceByName, MergeItem, MergeInto, MergeBehind, NewInOne, OnlyNew, Prefixed;
    var j := Target(ts, c.name);
    TargetFound(ts, c.name);
    TargetLevel(ts, j);
    if ts[j].isTemplate {
      ExposedBehind(ts, c, r);
    } else {
      j := ListsFixed(ts, c, r);
      if c.kind == Item {
        ExposedItem(ts, j, c, r);
      } else {
        ExposedInto(ts, j, ts[j], c, r);
      }
    }
  }

  lemma {:induction false} ExposedItem(ts: seq<Tree>, i: nat, c: Tree, r: Rules)
    requires Sane(ts) && Unique(ts) && i < |ts| && InForce(ts[i]) && MergeItem(ts, i, c, true, r).ok
    requires !OnlyNew(ts, Prefixed(ts[i].name, NewIn(ts[i].children, c.children, r)))
    ensures InForceByName(MergeItem(ts, i, c, true, r).children) != InForceByName(ts)
    decreases c, 2
  {
    hide Sane, Unique, InForceByName, MergeInto, OnlyNew, Prefixed, NewIn;
    ExposedInto(ts, i, Overwritten(ts[i], r.check(ts[i].typ, c.value).value, true), c, r);
  }

  lemma {:induction false} ExposedInto(ts: seq<Tree>, i: nat, d: Tree, c: Tree, r: Rules)
    requires Sane(ts) && Unique(ts) && i < |ts| && InForce(ts[i])
    requires d == ts[i].(newValue := d.newValue, status := d.status)
    requires MergeInto(ts, i, d, c, true, r).ok
    requires !OnlyNew(ts, Prefixed(d.name, NewIn(ts[i].children, c.children, r)))
    ensures InForceByName(MergeInto(ts, i, d, c, true, r).children) != InForceByName(ts)
    decreases c, 1
  {
    hide Sane, Unique, InForceByName, Merge, OnlyNew, Prefixed, NewIn;
    OnlyNewPrefixed(ts, i, d.name, NewIn(ts[i].children, c.children, r));
    TargetLevel(ts, i);
    ChildrenAreSane(ts[i]);
    UniqueBelow(ts, i);
    Exposed(d.children, c.children, r);
    Grows(d.children, c.children, r);
    OtherView(ts, i, d.(children := Merge(d.children, c.children, true, r).children));
  }

  lemma OtherView(ts: seq<Tree>, i: nat, d: Tree)
    requires Unique(ts) && Unique(d.children) && i < |ts| && InForce(ts[i])
    requires d == ts[i].(newValue := d.newValue, status := d.status, children := d.children)
    requires InForceByName(d.children) != InForceByName(ts[i].children)
    ensures InForceByName(ts[i := d]) != InForceByName(ts)
  {
    hide Unique, InForceByName;
    ViewInto(ts, i, d);
  }

  lemma {:induction false} ExposedBehind(ts: seq<Tree>, c: Tree, r: Rules)
    requires Sane(ts) && Unique(ts) && Dynamic(ts) && !OnlyNew(ts, NewInOne(ts, c, r))
    requires MergeBehind(ts, ts[0], c, true, r).ok
    ensures InForceByName(MergeBehind(ts, ts[0], c, true, r).children) != InForceByName(ts)
    decreases c, 2
  {
    hide Sane, Unique, InForceByName, MergeInto, MergeNew, NewInOne, OnlyNew, Prefixed, Instantiated;
    var n := r.check(ts[0].typ, c.name).value;
    TargetFound(ts, n);
    var k := ListsDynamic(ts, n, c, r);
    if k == |ts| {
      NotThereYet(ts, n);
    } else {
      TargetLevel(ts, k);
      if InForce(ts[k]) {
        ExposedInto(ts, k, ts[k].(status := Modified, isNew := false), c, r);
      } else {
        ComesIntoForce(ts, k, c, r);
      }
    }
  }

  lemma NotThereYet(ts: seq<Tree>, n: string)
    requires Find(ts, n) == |ts|
    ensures OnlyNew(ts, [[n]])
  {
  }

  /** A new block listed again is no longer new. */
  lemma ComesIntoForce(ts: seq<Tree>, k: nat, c: Tree, r: Rules)
    requires Sane(ts) && Unique(ts) && k < |ts| && !ts[k].isTemplate && !InForce(ts[k])
    ensures InForceByName(MergeInto(ts, k, ts[k].(status := Modified, isNew := false), c, true, r).children) != InForceByName(ts)
  {
    hide Sane, Unique, InForceByName, Merge, SaneNode;
    TargetLevel(ts, k);
    ChildrenAreSane(ts[k]);
    UniqueBelow(ts, k);
    var d := ts[k].(status := Modified, isNew := false);
    Grows(d.children, c.children, r);
    ViewInto(ts, k, d.(children := Merge(d.children, c.children, true, r).children));
  }

  // ---------------------------------------------------------------- the condition

  /** A tree without changes has no new blocks. */
  lemma {:induction false} NothingFresh(ts: seq<Tree>, p: Path)
    requires Clean(ts)
    ensures !Fresh(ts, p)
    decreases |p|
  {
    if p != [] && Find(ts, p[0]) < |ts| { NothingFresh(ts[Find(ts, p[0])].children, p[1..]); }
  }

  /** An announcing merge, whether it succeeds or stops half way, leaves what is in force exactly
      if the contents it reached list no block twice that is not in force, and none that is
      there already without being in force. */
  lemma ForceStays(ts: seq<Tree>, cs: seq<Tree>, r: Rules)
    requires Sane(ts) && Unique(ts)
    ensures InForceByName(Merge(ts, cs, true, r).children) == InForceByName(ts)
       <==> OnlyNew(ts, NewIn(ts, Reached(ts, cs, true, r), r))
  {
    hide Sane, Unique, InForceByName, Merge, NewIn, OnlyNew, Reached;
    var ds := Reached(ts, cs, true, r);
    StopsThere(ts, cs, true, r);
    if OnlyNew(ts, NewIn(ts, ds, r)) {
      Hidden(ts, ds, r);
    } else {
      Exposed(ts, ds, r);
    }
  }

  /** From a tree without changes, an announcing merge leaves what is in force exactly if the
      contents it reached list no block twice that is not there yet. If it succeeds, it reached
      all of them; whatever comes of it, contents that list none twice leave it. */
  lemma AnnouncingKeepsForce(ts: seq<Tree>, cs: seq<Tree>, r: Rules)
    requires Sane(ts) && Unique(ts) && Clean(ts)
    ensures var m := Merge(ts, cs, true, r);
            && (InForceByName(m.children) == InForceByName(ts) <==> NoneTwice(NewIn(ts, Reached(ts, cs, true, r), r)))
            && (m.ok ==> Reached(ts, cs, true, r) == cs)
            && (NoneTwice(NewIn(ts, cs, r)) ==> InForceByName(m.children) == InForceByName(ts))
  {
    hide Sane, Unique, InForceByName, Merge, NewIn, Fresh, Reached;
    forall p ensures !Fresh(ts, p) {
      NothingFresh(ts, p);
    }
    ForceStays(ts, cs, r);
    MergeSucceeds(ts, cs, true, r);
    if Merge(ts, cs, true, r).ok { AllReached(ts, cs, true, r); }
    if NoneTwice(NewIn(ts, cs, r)) { Hidden(ts, cs, r); }
  }

  /** A definition with one template, and contents that list the same block twice. */
  const LIST: seq<Tree> := [Tree("*", "", "", "", Block, Ready, true, false, false, None, [])]

  const TWICE: Tree := Tree("x", "", "", "", Block, Ready, false, false, false, None, [])

  /** Merging them announces the block, and then puts it in force. */
  lemma ListedTwice(r: Rules)
    requires r.check("", "x") == Some("x")
    ensures Sane(LIST) && Unique(LIST) && Clean(LIST)
    ensures var m := Merge(LIST, [TWICE, TWICE], true, r);
            m.ok && "x" in InForceByName(m.children) && "x" !in InForceByName(LIST)
  {
    hide Merge, MergeOne, Sane, InForceByName;
    var d := Instantiated(LIST[0], "x", true);
    var e := d.(status := Modified, isNew := false);
    ListIsSane();
    ListedOnce(r);
    ListedAgain(r);
    MergeTwice(LIST, TWICE, [LIST[0], d], [LIST[0], e], r);
    ByNameAt([LIST[0], e], "x");
    ByNameAt(LIST, "x");
  }

  /** An entry that fits no template stops a merge; on which side of the others it stands decides
      whether the block comes into force. */
  lemma StoppedBeforeOrAfter(r: Rules)
    requires r.check("", "x") == Some("x")
    ensures var bad := TWICE.(kind := Item);
            && InForceByName(Merge(LIST, [bad, TWICE, TWICE], true, r).children) == InForceByName(LIST)
            && InForceByName(Merge(LIST, [TWICE, TWICE, bad], true, r).children) != InForceByName(LIST)
  {
    hide Merge, MergeOne, Sane, InForceByName;
    var bad, d := TWICE.(kind := Item), Instantiated(LIST[0], "x", true);
    var us, vs := [LIST[0], d], [LIST[0], d.(status := Modified, isNew := false)];
    ListedTwice(r);
    ListedOnce(r);
    ListedAgain(r);
    MergeTwice(LIST, TWICE, us, vs, r);
    ItemStops(LIST, bad, r);
    ItemStops(vs, bad, r);
    MergeFirst(LIST, bad, [TWICE, TWICE], true, r);
    MergeFirst(LIST, TWICE, [TWICE, bad], true, r);
    MergeFirst(us, TWICE, [bad], true, r);
    MergeFirst(vs, bad, [], true, r);
    assert [bad] + [TWICE, TWICE] == [bad, TWICE, TWICE] && [TWICE] + [TWICE, bad] == [TWICE, TWICE, bad];
    assert [TWICE] + [bad] == [TWICE, bad] && [bad] + [] == [bad];
  }

  lemma ItemStops(ts: seq<Tree>, c: Tree, r: Rules)
    requires Dynamic(ts) && c.kind == Item
    ensures MergeOne(ts, c, true, r) == Merged(ts, false)
  {
  }

  lemma ListIsSane()
    ensures Sane(LIST) && Unique(LIST) && Clean(LIST)
  {
  }

  lemma MergeTwice(ts: seq<Tree>, c: Tree, us: seq<Tree>, vs: seq<Tree>, r: Rules)
    requires MergeOne(ts, c, true, r) == Merged(us, true) && MergeOne(us, c, true, r) == Merged(vs, true)
    ensures Merge(ts, [c, c], true, r) == Merged(vs, true)
  {
    hide MergeOne;
    assert [c, c][1..] == [c] && [c][1..] == [];
    assert Merge(vs, [], true, r) == Merged(vs, true);
    assert Merge(us, [c], true, r) == Merged(vs, true);
  }

  lemma ListedOnce(r: Rules)
    requires r.check("", "x") == Some("x")
    ensures MergeOne(LIST, TWICE, true, r) == Merged([LIST[0], Instantiated(LIST[0], "x", true)], true)
  {
    var d := Instantiated(LIST[0], "x", true);
    assert d.(children := []) == d && Merge([], [], true, r) == Merged([], true);
    assert Behind(LIST, d) == [d];
    OnlyOrder([d], r.arrange);
    assert Placed(LIST, d, r) == [LIST[0], d];
    assert MergeNew(LIST, d, TWICE, true, r) == Merged([LIST[0], d], true);
  }

  lemma ListedAgain(r: Rules)
    requires r.check("", "x") == Some("x")
    ensures var d := Instantiated(LIST[0], "x", true);
            MergeOne([LIST[0], d], TWICE, true, r) == Merged([LIST[0], d.(status := Modified, isNew := false)], true)
  {
    var d := Instantiated(LIST[0], "x", true);
    var us, e := [LIST[0], d], d.(status := Modified, isNew := false);
    assert Named(us, 1, "x") == 1;
    assert e.(children := []) == e && Merge([], [], true, r) == Merged([], true);
    assert MergeInto(us, 1, e, TWICE, true, r) == Merged([LIST[0], e], true);
  }

  lemma OnlyOrder(ts: seq<Tree>, f: Arrangement)
    requires |ts| == 1
    ensures Sorted(ts, f) == ts
  {
    var us := Sorted(ts, f);
    var i := Arranged(ts, us, 0);
    Permuted(us, ts);
    assert us[0] == ts[0];
  }
}
