/** A merge that stops half way comes to merging the part of the contents it reached. */
module ConfigStopped {
  import opened ConfigTree
  import opened ConfigMerge
  import opened ConfigByName
  import opened ConfigHidden
  import opened ConfigValidate

  /** The contents up to the first entry that does not validate or whose names do not fit, that
      entry cut in the same way inside. This depends only on the shape of the tree. */
  function Reached(ts: seq<Tree>, cs: seq<Tree>, loud: bool, r: Rules): seq<Tree>
    decreases cs, 0
  {
    if cs == [] then []
    else if ValidateOne(ts, cs[0], r) && NamesFitOne(ts, cs[0], r) then [cs[0]] + Reached(ts, cs[1..], loud, r)
    else ReachedOne(ts, cs[0], loud, r)
  }

  function ReachedOne(ts: seq<Tree>, c: Tree, loud: bool, r: Rules): seq<Tree>
    decreases c, 1
  {
    var j := Target(ts, c.name);
    if j == |ts| || !Enters(ts[j], c, loud, r) then []
    else [c.(children := Reached(ts[j].children, c.children, loud, r))]
  }

  /** The merge comes to what the entry contains. What goes into a block that is made for it is
      lost with the block, but a merge that announces may find the block there. */
  predicate Enters(t: Tree, c: Tree, loud: bool, r: Rules) {
    if t.isTemplate then loud && c.kind == Block && r.check(t.typ, c.name).Some?
    else c.kind == Item ==> r.check(t.typ, c.value).Some?
  }

  lemma {:induction false} SameReached(ts: seq<Tree>, us: seq<Tree>, cs: seq<Tree>, loud: bool, r: Rules)
    requires Sane(ts) && Sane(us) && Skeleton(ts) == Skeleton(us)
    ensures Reached(ts, cs, loud, r) == Reached(us, cs, loud, r)
    decreases cs, 0
  {
    hide Sane, Skeleton, ValidateOne, NamesFitOne, ReachedOne;
    if cs != [] {
      SameVerdictOne(ts, us, cs[0], r);
      SameReachedOne(ts, us, cs[0], loud, r);
      SameReached(ts, us, cs[1..], loud, r);
    }
  }

  lemma {:induction false} SameReachedOne(ts: seq<Tree>, us: seq<Tree>, c: Tree, loud: bool, r: Rules)
    requires Sane(ts) && Sane(us) && Skeleton(ts) == Skeleton(us)
    ensures ReachedOne(ts, c, loud, r) == ReachedOne(us, c, loud, r)
    decreases c, 1
  {
    hide Sane, SaneNode, Skeleton, Reached, BoneOf;
    var j := SameTarget(ts, us, c.name);
    if j < |ts| {
      SameBones(ts[j], us[j]);
      ChildrenAreSane(ts[j]);
      ChildrenAreSane(us[j]);
      SameReached(ts[j].children, us[j].children, c.children, loud, r);
    }
  }

  /** Nothing is cut off if the merge succeeds. */
  lemma {:induction false} AllReached(ts: seq<Tree>, cs: seq<Tree>, loud: bool, r: Rules)
    requires Validate(ts, cs, r) && NamesFit(ts, cs, r)
    ensures Reached(ts, cs, loud, r) == cs
  {
    hide ValidateOne, NamesFitOne;
    if cs != [] { AllReached(ts, cs[1..], loud, r); }
  }

  // ---------------------------------------------------------------- what a stopped merge leaves

  /** Trees that read the same, or for a merge that does not announce are the same. */
  ghost predicate Alike(us: seq<Tree>, vs: seq<Tree>, loud: bool) {
    if loud then InForceByName(us) == InForceByName(vs) else us == vs
  }

  /** Whether it stops or not, a merge leaves what merging the part reached does. */
  lemma {:induction false} StopsThere(ts: seq<Tree>, cs: seq<Tree>, loud: bool, r: Rules)
    requires Sane(ts) && (loud ==> Unique(ts))
    ensures var m := Merge(ts, Reached(ts, cs, loud, r), loud, r);
            m.ok && Alike(m.children, Merge(ts, cs, loud, r).children, loud)
    decreases cs, 0
  {
    hide Sane, Unique, Skeleton, MergeOne, ValidateOne, NamesFitOne, ReachedOne, InForceByName;
    if cs != [] {
      MergeOneSucceeds(ts, cs[0], loud, r);
      var m := MergeOne(ts, cs[0], loud, r);
      if m.ok {
        MergeOneKeepsShape(ts, cs[0], loud, r);
        if loud { GrowsOne(ts, cs[0], r); }
        StopsThere(m.children, cs[1..], loud, r);
        SameReached(ts, m.children, cs[1..], loud, r);
        MergeFirst(ts, cs[0], Reached(ts, cs[1..], loud, r), loud, r);
      } else {
        StopsInside(ts, cs[0], loud, r);
      }
    }
  }

  lemma MergeFirst(ts: seq<Tree>, c: Tree, cs: seq<Tree>, loud: bool, r: Rules)
    ensures var m := MergeOne(ts, c, loud, r);
            Merge(ts, [c] + cs, loud, r) == if m.ok then Merge(m.children, cs, loud, r) else m
  {
    hide MergeOne;
    assert ([c] + cs)[1..] == cs;
  }

  lemma MergeNone(ts: seq<Tree>, loud: bool, r: Rules)
    ensures Merge(ts, [], loud, r) == Merged(ts, true)
  {
  }

  lemma {:induction false} StopsInside(ts: seq<Tree>, c: Tree, loud: bool, r: Rules)
    requires Sane(ts) && (loud ==> Unique(ts)) && !MergeOne(ts, c, loud, r).ok
    ensures var m := Merge(ts, ReachedOne(ts, c, loud, r), loud, r);
            m.ok && Alike(m.children, MergeOne(ts, c, loud, r).children, loud)
    decreases c, 3
  {
    hide Sane, Unique, Merge, MergeInto, MergeBehind, Reached, InForceByName;
    MergeNone(ts, loud, r);
    var j := Target(ts, c.name);
    if j == |ts| { return; }
    TargetLevel(ts, j);
    var c' := c.(children := Reached(ts[j].children, c.children, loud, r));
    MergeSingle(ts, c', loud, r);
    if ts[j].isTemplate {
      StopsBehind(ts, c, loud, r);
      assert MergeOne(ts, c', loud, r) == MergeBehind(ts, ts[0], c', loud, r);
    } else if c.kind != Item {
      StopsInto(ts, j, ts[j], c, loud, r);
      assert MergeOne(ts, c', loud, r) == MergeInto(ts, j, ts[j], c', loud, r);
    } else if r.check(ts[j].typ, c.value).Some? {
      var d := Overwritten(ts[j], r.check(ts[j].typ, c.value).value, loud);
      StopsInto(ts, j, d, c, loud, r);
      assert MergeOne(ts, c', loud, r) == MergeInto(ts, j, d, c', loud, r);
    }
  }

  lemma MergeSingle(ts: seq<Tree>, c: Tree, loud: bool, r: Rules)
    ensures MergeOne(ts, c, loud, r).ok ==> Merge(ts, [c], loud, r) == MergeOne(ts, c, loud, r)
  {
    hide MergeOne;
    assert [c][1..] == [];
    MergeNone(MergeOne(ts, c, loud, r).children, loud, r);
  }

  lemma {:induction false} StopsInto(ts: seq<Tree>, i: nat, d: Tree, c: Tree, loud: bool, r: Rules)
    requires Sane(ts) && (loud ==> Unique(ts)) && i < |ts| && !ts[i].isTemplate && (loud ==> InForce(d))
    requires d == ts[i].(value := d.value, newValue := d.newValue, status := d.status, isNew := d.isNew)
    ensures var m := MergeInto(ts, i, d, c.(children := Reached(ts[i].children, c.children, loud, r)), loud, r);
            m.ok && Alike(m.children, MergeInto(ts, i, d, c, loud, r).children, loud)
    decreases c, 0
  {
    hide Sane, SaneNode, Unique, Merge, Reached, InForceByName;
    TargetLevel(ts, i);
    ChildrenAreSane(ts[i]);
    if loud { UniqueBelow(ts, i); }
    StopsThere(ts[i].children, c.children, loud, r);
    if loud {
      var us, vs := Merge(d.children, Reached(d.children, c.children, loud, r), loud, r).children, Merge(d.children, c.children, loud, r).children;
      Grows(d.children, Reached(d.children, c.children, loud, r), r);
      Grows(d.children, c.children, r);
      ViewInto(ts, i, d.(children := us));
      ViewInto(ts, i, d.(children := vs));
    }
  }

  lemma {:induction false} StopsBehind(ts: seq<Tree>, c: Tree, loud: bool, r: Rules)
    requires Sane(ts) && (loud ==> Unique(ts)) && Dynamic(ts) && !MergeBehind(ts, ts[0], c, loud, r).ok
    ensures var m := MergeBehind(ts, ts[0], c.(children := Reached(ts[0].children, c.children, loud, r)), loud, r);
            if Enters(ts[0], c, loud, r) then m.ok && Alike(m.children, MergeBehind(ts, ts[0], c, loud, r).children, loud)
            else MergeBehind(ts, ts[0], c, loud, r).children == ts
    decreases c, 2
  {
    hide Sane, SaneNode, Unique, MergeInto, Merge, Reached, InForceByName, Instantiated, Placed;
    if !Enters(ts[0], c, loud, r) { return; }
    var name := r.check(ts[0].typ, c.name).value;
    var c' := c.(children := Reached(ts[0].children, c.children, loud, r));
    var k := Named(ts, 1, name);
    TargetFound(ts, name);
    TargetLevel(ts, 0);
    ChildrenAreSane(ts[0]);
    if k < |ts| {
      TargetLevel(ts, k);
      ChildrenAreSane(ts[k]);
      SameReached(ts[0].children, ts[k].children, c.children, loud, r);
      StopsInto(ts, k, ts[k].(status := Modified, isNew := false), c, loud, r);
    } else {
      UniqueBelow(ts, 0);
      InstantiatedIsSane(ts[0], name, true);
      StopsThere(ts[0].children, c.children, loud, r);
      NewGrows(ts, name, c, r);
      NewGrows(ts, name, c', r);
    }
  }
}
