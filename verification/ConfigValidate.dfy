/** When a merge succeeds. It depends only on the shape of the tree, so neither what was merged
    before nor the values in force make a difference. */
module ConfigValidate {
  import opened ConfigTree
  import opened ConfigMerge

  /** Trees of one shape are searched alike. */
  lemma SameTarget(ts: seq<Tree>, us: seq<Tree>, name: string) returns (j: nat)
    requires Sane(ts) && Sane(us) && Skeleton(ts) == Skeleton(us)
    ensures j == Target(ts, name) && (j < |ts| <==> j < |us|)
    ensures Target(us, name) < |us| <==> j < |us|
    ensures j < |ts| ==> Target(us, name) == j && SaneNode(ts[j]) && SaneNode(us[j]) && BoneOf(ts[j]) == BoneOf(us[j])
  {
    hide SaneNode, BoneOf;
    j := Target(ts, name);
    SameLevel(ts, us);
    var k := Target(us, name);
    if j < |ts| { TargetLevel(ts, j); }
    if k < |us| { TargetLevel(us, k); }
    if Dynamic(ts) {
      assert j == 0 && k == 0;
    } else {
      forall i | 0 <= i < |ts| ensures ts[i].name == us[i].name && !ts[i].isTemplate && !us[i].isTemplate {
        SameBones(ts[i], us[i]);
        TargetLevel(ts, i);
        TargetLevel(us, i);
      }
    }
    if j < |ts| { TargetLevel(us, j); }
  }

  lemma SameLevel(ts: seq<Tree>, us: seq<Tree>)
    requires Skeleton(ts) == Skeleton(us)
    ensures Dynamic(ts) == Dynamic(us)
    ensures Dynamic(ts) ==> BoneOf(ts[0]) == BoneOf(us[0])
    ensures !Dynamic(ts) ==> |ts| == |us| && forall i :: 0 <= i < |ts| ==> BoneOf(ts[i]) == BoneOf(us[i])
  {
    var bs := Skeleton(ts);
    if ts != [] && us != [] {
      assert bs[0].isTemplate == ts[0].isTemplate == us[0].isTemplate;
    }
  }

  lemma {:induction false} SameVerdict(ts: seq<Tree>, us: seq<Tree>, cs: seq<Tree>, r: Rules)
    requires Sane(ts) && Sane(us) && Skeleton(ts) == Skeleton(us)
    ensures Validate(ts, cs, r) == Validate(us, cs, r)
    ensures NamesFit(ts, cs, r) == NamesFit(us, cs, r)
    decreases cs, 0
  {
    hide Sane, Skeleton, ValidateOne, NamesFitOne;
    if cs != [] {
      SameVerdictOne(ts, us, cs[0], r);
      SameVerdict(ts, us, cs[1..], r);
    }
  }

  lemma {:induction false} SameVerdictOne(ts: seq<Tree>, us: seq<Tree>, c: Tree, r: Rules)
    requires Sane(ts) && Sane(us) && Skeleton(ts) == Skeleton(us)
    ensures ValidateOne(ts, c, r) == ValidateOne(us, c, r)
    ensures NamesFitOne(ts, c, r) == NamesFitOne(us, c, r)
    decreases c, 1
  {
    hide Sane, SaneNode, Skeleton, Validate, NamesFit, BoneOf;
    var j := SameTarget(ts, us, c.name);
    if j < |ts| {
      SameBones(ts[j], us[j]);
      ChildrenAreSane(ts[j]);
      ChildrenAreSane(us[j]);
      SameVerdict(ts[j].children, us[j].children, c.children, r);
      if ts[j].isTemplate {
        TemplateCopied(ts[j]);
        TemplateCopied(us[j]);
      }
    }
  }

  lemma TemplateCopied(t: Tree)
    requires SaneNode(t) && t.isTemplate
    ensures Copy(t.children) == t.children
  {
    CopyOfUntouched(t.children);
  }

  /** A merge returns 0 exactly if validate accepts the contents and every name that goes
      behind a template fits it. */
  lemma {:induction false} MergeSucceeds(ts: seq<Tree>, cs: seq<Tree>, loud: bool, r: Rules)
    requires Sane(ts)
    ensures Merge(ts, cs, loud, r).ok <==> Validate(ts, cs, r) && NamesFit(ts, cs, r)
    decreases cs, 0
  {
    hide Sane, Skeleton, MergeOne, ValidateOne, NamesFitOne;
    if cs != [] {
      MergeOneSucceeds(ts, cs[0], loud, r);
      var m := MergeOne(ts, cs[0], loud, r);
      if m.ok {
        MergeOneKeepsShape(ts, cs[0], loud, r);
        MergeSucceeds(m.children, cs[1..], loud, r);
        SameVerdict(m.children, ts, cs[1..], r);
      }
    }
  }

  lemma {:induction false} MergeOneSucceeds(ts: seq<Tree>, c: Tree, loud: bool, r: Rules)
    requires Sane(ts)
    ensures MergeOne(ts, c, loud, r).ok <==> ValidateOne(ts, c, r) && NamesFitOne(ts, c, r)
    decreases c, 2
  {
    hide Sane, SaneNode, Skeleton, Validate, NamesFit, MergeInto, MergeItem, MergeBehind;
    var j := Target(ts, c.name);
    if j < |ts| {
      TargetLevel(ts, j);
      ChildrenAreSane(ts[j]);
      MergeSucceeds(ts[j].children, c.children, loud, r);
      if ts[j].isTemplate {
        BehindSucceeds(ts, c, loud, r);
      } else if c.kind == Item {
        ItemSucceeds(ts, j, c, loud, r);
      } else {
        IntoSucceeds(ts, j, ts[j], c, loud, r);
      }
    }
  }

  lemma IntoSucceeds(ts: seq<Tree>, i: nat, d: Tree, c: Tree, loud: bool, r: Rules)
    requires i < |ts|
    ensures MergeInto(ts, i, d, c, loud, r).ok == Merge(d.children, c.children, loud, r).ok
  {
    hide Merge;
  }

  lemma ItemSucceeds(ts: seq<Tree>, i: nat, c: Tree, loud: bool, r: Rules)
    requires i < |ts|
    ensures MergeItem(ts, i, c, loud, r).ok <==>
            r.check(ts[i].typ, c.value).Some? && Merge(ts[i].children, c.children, loud, r).ok
  {
    hide Merge, MergeInto;
    var v := r.check(ts[i].typ, c.value);
    if v.Some? { IntoSucceeds(ts, i, Overwritten(ts[i], v.value, loud), c, loud, r); }
  }

  lemma {:induction false} BehindSucceeds(ts: seq<Tree>, c: Tree, loud: bool, r: Rules)
    requires Sane(ts) && Dynamic(ts)
    ensures MergeBehind(ts, ts[0], c, loud, r).ok <==>
            c.kind == Block && r.check(ts[0].typ, c.name).Some?
            && Validate(Copy(ts[0].children), c.children, r) && NamesFit(ts[0].children, c.children, r)
    decreases c, 1
  {
    hide Sane, SaneNode, Skeleton, Validate, NamesFit, MergeInto, MergeNew, Instantiated, Copy;
    TargetLevel(ts, 0);
    TemplateCopied(ts[0]);
    var name := r.check(ts[0].typ, c.name);
    if c.kind != Block || name.None? { return; }
    var k := if loud then Named(ts, 1, name.value) else |ts|;
    if k < |ts| {
      FoundSucceeds(ts, k, c, loud, r);
    } else {
      FreshSucceeds(ts, name.value, c, loud, r);
    }
  }

  lemma {:induction false} FoundSucceeds(ts: seq<Tree>, k: nat, c: Tree, loud: bool, r: Rules)
    requires Sane(ts) && Dynamic(ts) && 1 <= k < |ts|
    ensures MergeInto(ts, k, ts[k].(status := Modified, isNew := false), c, loud, r).ok <==>
            Validate(ts[0].children, c.children, r) && NamesFit(ts[0].children, c.children, r)
    decreases c, 0
  {
    hide Sane, SaneNode, Skeleton, Validate, NamesFit, MergeInto, Merge;
    TargetLevel(ts, 0);
    TargetLevel(ts, k);
    ChildrenAreSane(ts[0]);
    ChildrenAreSane(ts[k]);
    MergeSucceeds(ts[k].children, c.children, loud, r);
    SameVerdict(ts[k].children, ts[0].children, c.children, r);
    IntoSucceeds(ts, k, ts[k].(status := Modified, isNew := false), c, loud, r);
  }

  lemma {:induction false} FreshSucceeds(ts: seq<Tree>, name: string, c: Tree, loud: bool, r: Rules)
    requires Sane(ts) && Dynamic(ts)
    ensures MergeNew(ts, Instantiated(ts[0], name, loud), c, loud, r).ok <==>
            Validate(ts[0].children, c.children, r) && NamesFit(ts[0].children, c.children, r)
    decreases c, 0
  {
    hide Sane, SaneNode, Skeleton, Validate, NamesFit, MergeNew, Instantiated, Merge;
    TargetLevel(ts, 0);
    ChildrenAreSane(ts[0]);
    InstantiatedIsSane(ts[0], name, loud);
    MergeSucceeds(ts[0].children, c.children, loud, r);
    NewSucceeds(ts, Instantiated(ts[0], name, loud), c, loud, r);
  }

  lemma NewSucceeds(ts: seq<Tree>, d: Tree, c: Tree, loud: bool, r: Rules)
    requires ts != []
    ensures MergeNew(ts, d, c, loud, r).ok == Merge(d.children, c.children, loud, r).ok
  {
    hide Merge;
  }

  /** Whether a second merge succeeds has nothing to do with the first. */
  lemma MergesAreIndependent(ts: seq<Tree>, cs: seq<Tree>, ds: seq<Tree>, loud: bool, aloud: bool, r: Rules)
    requires Sane(ts)
    ensures Merge(Merge(ts, cs, loud, r).children, ds, aloud, r).ok <==> Merge(ts, ds, aloud, r).ok
  {
    var us := Merge(ts, cs, loud, r).children;
    MergeKeepsShape(ts, cs, loud, r);
    MergeSucceeds(us, ds, aloud, r);
    MergeSucceeds(ts, ds, aloud, r);
    SameVerdict(us, ts, ds, r);
  }
}
