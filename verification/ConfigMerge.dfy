/** Merging contents into a configuration tree, and the shape every operation keeps. */
module ConfigMerge {
  import opened ConfigTree

  /** What the tree's own code does not decide. check is pattern_valid for a type: None if the
      text is refused, otherwise the text with the quotes it strips; a type without a pattern
      accepts everything. arrange is std::sort on the blocks behind a template. */
  datatype Rules = Rules(check: (string, string) -> Option<string>, arrange: Arrangement)

  type Arrangement = seq<Tree> -> seq<Tree>

  /** Whatever order the comparator leads to: what is no reordering counts as none. */
  function Sorted(ts: seq<Tree>, f: Arrangement): (us: seq<Tree>)
    ensures multiset(us) == multiset(ts)
  {
    if multiset(f(ts)) == multiset(ts) then f(ts) else ts
  }

  /** What a merge leaves behind, and whether it returned 0. */
  datatype Merged = Merged(children: seq<Tree>, ok: bool)

  /** copy_nodes: fresh nodes, not new, in the state of the originals. */
  function Copy(ts: seq<Tree>): (us: seq<Tree>)
    ensures |us| == |ts|
  {
    if ts == [] then [] else [CopyNode(ts[0])] + Copy(ts[1..])
  }

  function CopyNode(t: Tree): Tree {
    t.(isNew := false, children := Copy(t.children))
  }

  /** Where the search for a content name among the children of a block ends: at the first
      template or child of that name. */
  function Target(ts: seq<Tree>, name: string): (j: nat)
    ensures j <= |ts| && (j < |ts| ==> ts[j].isTemplate || ts[j].name == name)
    ensures forall i :: 0 <= i < j ==> !ts[i].isTemplate && ts[i].name != name
  {
    if ts == [] || ts[0].isTemplate || ts[0].name == name then 0 else 1 + Target(ts[1..], name)
  }

  /** The first child of that name from the i-th on. */
  function Named(ts: seq<Tree>, i: nat, name: string): (k: nat)
    requires i <= |ts|
    ensures i <= k <= |ts| && (k < |ts| ==> ts[k].name == name)
    ensures forall j :: i <= j < k ==> ts[j].name != name
    decreases |ts| - i
  {
    if i == |ts| || ts[i].name == name then i else Named(ts, i + 1, name)
  }

  // ---------------------------------------------------------------- merge

  function Merge(ts: seq<Tree>, cs: seq<Tree>, loud: bool, r: Rules): Merged
    decreases cs, 0
  {
    if cs == [] then Merged(ts, true)
    else
      var m := MergeOne(ts, cs[0], loud, r);
      if !m.ok then m else Merge(m.children, cs[1..], loud, r)
  }

  function MergeOne(ts: seq<Tree>, c: Tree, loud: bool, r: Rules): Merged
    decreases c, 2
  {
    var j := Target(ts, c.name);
    if j == |ts| then Merged(ts, false)
    else if ts[j].isTemplate then MergeBehind(ts, ts[j], c, loud, r)
    else if c.kind == Item then MergeItem(ts, j, c, loud, r)
    else MergeInto(ts, j, ts[j], c, loud, r)
  }

  /** An item of the contents gives the i-th child its value. */
  function MergeItem(ts: seq<Tree>, i: nat, c: Tree, loud: bool, r: Rules): Merged
    requires i < |ts|
    decreases c, 1
  {
    match r.check(ts[i].typ, c.value)
    case None => Merged(ts, false)
    case Some(v) => MergeInto(ts, i, Overwritten(ts[i], v, loud), c, loud, r)
  }

  function Overwritten(t: Tree, v: string, loud: bool): Tree {
    if loud then t.(newValue := v, status := Modified) else t.(value := v, newValue := v)
  }

  /** The i-th child becomes d, and the contents' children are merged into it. */
  function MergeInto(ts: seq<Tree>, i: nat, d: Tree, c: Tree, loud: bool, r: Rules): Merged
    requires i < |ts|
    decreases c, 0
  {
    var m := Merge(d.children, c.children, loud, r);
    Merged(ts[i := d.(children := m.children)], m.ok)
  }

  /** A block of the contents among the blocks made from a template. */
  function MergeBehind(ts: seq<Tree>, template: Tree, c: Tree, loud: bool, r: Rules): Merged
    requires ts != []
    decreases c, 1
  {
    if c.kind != Block then Merged(ts, false)
    else
      match r.check(template.typ, c.name)
      case None => Merged(ts, false)
      case Some(name) =>
        var k := if loud then Named(ts, 1, name) else |ts|;
        if k < |ts| then MergeInto(ts, k, ts[k].(status := Modified, isNew := false), c, loud, r)
        else MergeNew(ts, Instantiated(template, name, loud), c, loud, r)
  }

  /** A new block joins once the contents are merged into it. */
  function MergeNew(ts: seq<Tree>, d: Tree, c: Tree, loud: bool, r: Rules): Merged
    requires ts != []
    decreases c, 0
  {
    var m := Merge(d.children, c.children, loud, r);
    if m.ok then Merged(Placed(ts, d.(children := m.children), r), true) else Merged(ts, false)
  }

  function Instantiated(template: Tree, name: string, loud: bool): Tree {
    Tree(name, "", "", "", Block, if loud then Modified else Ready, false, template.isEmpty, loud, template.sortNode,
         Copy(template.children))
  }

  /** The new block at the end, all behind the first child put in order unless it is a list. */
  function Placed(ts: seq<Tree>, d: Tree, r: Rules): seq<Tree>
    requires ts != []
  {
    [ts[0]] + if d.isEmpty then Behind(ts, d) else Sorted(Behind(ts, d), r.arrange)
  }

  function Behind(ts: seq<Tree>, d: Tree): seq<Tree>
    requires ts != []
  {
    ts[1..] + [d]
  }

  // ---------------------------------------------------------------- validate

  function Validate(ts: seq<Tree>, cs: seq<Tree>, r: Rules): bool
    decreases cs, 0
  {
    cs == [] || (ValidateOne(ts, cs[0], r) && Validate(ts, cs[1..], r))
  }

  function ValidateOne(ts: seq<Tree>, c: Tree, r: Rules): bool
    decreases c, 1
  {
    var j := Target(ts, c.name);
    if j == |ts| then false
    else if ts[j].isTemplate then c.kind == Block && Validate(Copy(ts[j].children), c.children, r)
    else (c.kind == Item ==> r.check(ts[j].typ, c.value).Some?) && Validate(ts[j].children, c.children, r)
  }

  /** What validate leaves out: every block of the contents that goes behind a template has a
      name of the template's type. */
  function NamesFit(ts: seq<Tree>, cs: seq<Tree>, r: Rules): bool
    decreases cs, 0
  {
    cs == [] || (NamesFitOne(ts, cs[0], r) && NamesFit(ts, cs[1..], r))
  }

  function NamesFitOne(ts: seq<Tree>, c: Tree, r: Rules): bool
    decreases c, 1
  {
    var j := Target(ts, c.name);
    if j == |ts| then true
    else if ts[j].isTemplate then r.check(ts[j].typ, c.name).Some? && NamesFit(ts[j].children, c.children, r)
    else NamesFit(ts[j].children, c.children, r)
  }

  // ---------------------------------------------------------------- the shape

  /** What the definition fixes about a node: everything but values, states and the blocks
      made from templates. */
  datatype Bone = Bone(name: string, typ: string, kind: Kind, isTemplate: bool, isEmpty: bool, sortNode: Option<string>,
                       children: seq<Bone>)

  predicate Dynamic(ts: seq<Tree>) {
    ts != [] && ts[0].isTemplate
  }

  function Skeleton(ts: seq<Tree>): (bs: seq<Bone>)
    ensures |bs| == if Dynamic(ts) then 1 else |ts|
    ensures forall i :: 0 <= i < |bs| ==> bs[i] == BoneOf(ts[i])
    decreases ts, 0
  {
    if Dynamic(ts) then [BoneOf(ts[0])]
    else seq(|ts|, i requires 0 <= i < |ts| => BoneOf(ts[i]))
  }

  function BoneOf(t: Tree): Bone
    decreases t, 1
  {
    Bone(t.name, t.typ, t.kind, t.isTemplate, t.isEmpty, t.sortNode, Skeleton(t.children))
  }

  /** A template is only ever the first child; what stands behind it was made from it, has its
      structure, and alone may be new or deleted. */
  predicate Disciplined(ts: seq<Tree>) {
    Level(ts) && forall i :: 0 <= i < |ts| ==> DisciplinedNode(ts[i])
  }

  predicate Level(ts: seq<Tree>) {
    if Dynamic(ts) then forall i :: 1 <= i < |ts| ==> MadeFrom(ts[0], ts[i])
    else forall i :: 0 <= i < |ts| ==> Fixed(ts[i])
  }

  predicate DisciplinedNode(t: Tree) {
    Disciplined(t.children) && (t.isTemplate ==> Untouched(t.children))
  }

  predicate MadeFrom(template: Tree, t: Tree) {
    && !t.isTemplate && t.kind == Block && t.isEmpty == template.isEmpty && t.sortNode == template.sortNode
    && Skeleton(t.children) == Skeleton(template.children)
  }

  predicate Fixed(t: Tree) {
    !t.isTemplate && (t.kind == Block ==> !t.isNew && t.status != Deleted && t.sortNode == None)
  }

  /** Nothing ever changes below a template. */
  predicate Untouched(ts: seq<Tree>) {
    forall i :: 0 <= i < |ts| ==> ts[i].status == Ready && !ts[i].isNew && Untouched(ts[i].children)
  }

  // ---------------------------------------------------------------- copies

  lemma {:induction false} CopyAt(ts: seq<Tree>, i: nat)
    requires i < |ts|
    ensures Copy(ts)[i] == CopyNode(ts[i])
  {
    if i > 0 { CopyAt(ts[1..], i - 1); }
  }

  lemma {:induction false} CopyOfUntouched(ts: seq<Tree>)
    requires Untouched(ts)
    ensures Copy(ts) == ts
  {
    if ts != [] {
      CopyOfUntouched(ts[0].children);
      CopyOfUntouched(ts[1..]);
    }
  }

  // ---------------------------------------------------------------- the shape is kept

  /** Everything the operations rely on. */
  predicate Sane(ts: seq<Tree>) {
    Level(ts) && forall i :: 0 <= i < |ts| ==> SaneNode(ts[i])
  }

  predicate SaneNode(t: Tree) {
    WellFormedNode(t) && DisciplinedNode(t)
  }

  lemma SaneIs(ts: seq<Tree>)
    ensures Sane(ts) <==> WellFormed(ts) && Disciplined(ts)
  {
    hide WellFormedNode, DisciplinedNode, Level;
    if Sane(ts) {
      assert forall i :: 0 <= i < |ts| ==> SaneNode(ts[i]);
    }
    if WellFormed(ts) && Disciplined(ts) {
      assert forall i :: 0 <= i < |ts| ==> WellFormedNode(ts[i]) && DisciplinedNode(ts[i]);
    }
  }

  lemma SameBones(t: Tree, u: Tree)
    requires BoneOf(t) == BoneOf(u)
    ensures t.name == u.name && t.typ == u.typ && t.kind == u.kind && t.isTemplate == u.isTemplate
    ensures t.isEmpty == u.isEmpty && t.sortNode == u.sortNode && Skeleton(t.children) == Skeleton(u.children)
  {
  }

  /** One child changes in what is not its shape. */
  lemma ReplaceKeeps(ts: seq<Tree>, i: nat, d: Tree)
    requires Sane(ts) && i < |ts| && !ts[i].isTemplate
    requires SaneNode(d) && BoneOf(d) == BoneOf(ts[i])
    requires d.kind == Block && !Dynamic(ts) ==> !d.isNew && d.status != Deleted
    ensures Sane(ts[i := d]) && Skeleton(ts[i := d]) == Skeleton(ts)
  {
    hide SaneNode, BoneOf;
    var us := ts[i := d];
    SameBones(d, ts[i]);
    assert Dynamic(us) == Dynamic(ts);
    assert Fixed(ts[i]) || MadeFrom(ts[0], ts[i]);
    assert Skeleton(us) == Skeleton(ts);
  }

  /** One more block made from the template. */
  lemma PlacedKeeps(ts: seq<Tree>, d: Tree, r: Rules)
    requires Sane(ts) && Dynamic(ts)
    requires SaneNode(d) && MadeFrom(ts[0], d)
    ensures Sane(Placed(ts, d, r)) && Skeleton(Placed(ts, d, r)) == Skeleton(ts)
  {
    hide SaneNode, BoneOf, MadeFrom, Placed;
    var us := Placed(ts, d, r);
    PlacedSize(ts, d, r);
    forall k | 1 <= k < |us|
      ensures SaneNode(us[k]) && MadeFrom(ts[0], us[k])
    {
      var i := PlacedAt(ts, d, r, k);
    }
    assert Skeleton(us) == Skeleton(ts);
  }

  lemma PlacedSize(ts: seq<Tree>, d: Tree, r: Rules)
    requires ts != []
    ensures |Placed(ts, d, r)| == |ts| + 1 && Placed(ts, d, r)[0] == ts[0]
  {
    if !d.isEmpty { Permuted(Sorted(Behind(ts, d), r.arrange), Behind(ts, d)); }
  }

  /** Where a block behind the template was before another one joined. */
  lemma PlacedAt(ts: seq<Tree>, d: Tree, r: Rules, k: nat) returns (i: nat)
    requires ts != [] && 1 <= k < |Placed(ts, d, r)|
    ensures 1 <= i <= |ts| && Placed(ts, d, r)[k] == if i < |ts| then ts[i] else d
  {
    hide Placed;
    i := PlacedBehind(ts, d, r, k);
    i := i + 1;
  }

  lemma PlacedBehind(ts: seq<Tree>, d: Tree, r: Rules, k: nat) returns (i: nat)
    requires ts != [] && 1 <= k < |Placed(ts, d, r)|
    ensures i < |Behind(ts, d)| && Placed(ts, d, r)[k] == Behind(ts, d)[i]
  {
    hide Behind;
    if d.isEmpty { return k - 1; }
    i := Arranged(Sorted(Behind(ts, d), r.arrange), Behind(ts, d), k - 1);
  }

  lemma Arranged(us: seq<Tree>, ts: seq<Tree>, k: nat) returns (i: nat)
    requires multiset(us) == multiset(ts) && k < |us|
    ensures i < |ts| && ts[i] == us[k]
  {
    Permuted(us, ts);
    i :| 0 <= i < |ts| && ts[i] == us[k];
  }

  lemma Permuted(us: seq<Tree>, ts: seq<Tree>)
    requires multiset(us) == multiset(ts)
    ensures |us| == |ts| && forall k :: 0 <= k < |us| ==> us[k] in ts
  {
    assert |us| == |multiset(us)| == |multiset(ts)| == |ts|;
    forall k | 0 <= k < |us| ensures us[k] in ts {
      assert us[k] in multiset(us);
    }
  }

  /** A merge keeps the shape of the tree, whether it succeeds or stops half way. */
  lemma {:induction false} MergeKeepsShape(ts: seq<Tree>, cs: seq<Tree>, loud: bool, r: Rules)
    requires Sane(ts)
    ensures var m := Merge(ts, cs, loud, r); Sane(m.children) && Skeleton(m.children) == Skeleton(ts)
    decreases cs, 0
  {
    hide Sane, Skeleton, MergeOne;
    if cs != [] {
      MergeOneKeepsShape(ts, cs[0], loud, r);
      var m := MergeOne(ts, cs[0], loud, r);
      if m.ok { MergeKeepsShape(m.children, cs[1..], loud, r); }
    }
  }

  lemma {:induction false} MergeOneKeepsShape(ts: seq<Tree>, c: Tree, loud: bool, r: Rules)
    requires Sane(ts)
    ensures var m := MergeOne(ts, c, loud, r); Sane(m.children) && Skeleton(m.children) == Skeleton(ts)
    decreases c, 2
  {
    hide MergeInto, MergeItem, MergeBehind, Skeleton, SaneNode, Sane;
    var j := Target(ts, c.name);
    if j < |ts| {
      TargetLevel(ts, j);
      if ts[j].isTemplate {
        BehindKeepsShape(ts, c, loud, r);
      } else if c.kind == Item {
        ItemKeepsShape(ts, j, c, loud, r);
      } else {
        IntoKeepsShape(ts, j, ts[j], c, loud, r);
      }
    }
  }

  lemma {:induction false} ItemKeepsShape(ts: seq<Tree>, i: nat, c: Tree, loud: bool, r: Rules)
    requires Sane(ts) && i < |ts| && !ts[i].isTemplate
    ensures var m := MergeItem(ts, i, c, loud, r); Sane(m.children) && Skeleton(m.children) == Skeleton(ts)
    decreases c, 1
  {
    hide MergeInto, Skeleton, SaneNode, Sane, Overwritten;
    var v := r.check(ts[i].typ, c.value);
    if v.Some? {
      TargetLevel(ts, i);
      OverwrittenIsSane(ts[i], v.value, loud);
      IntoKeepsShape(ts, i, Overwritten(ts[i], v.value, loud), c, loud, r);
    }
  }

  lemma OverwrittenIsSane(t: Tree, v: string, loud: bool)
    requires SaneNode(t)
    ensures SaneNode(Overwritten(t, v, loud))
    ensures var d := Overwritten(t, v, loud); d == t.(value := d.value, newValue := d.newValue, status := d.status, isNew := d.isNew)
    ensures Overwritten(t, v, loud).isNew == t.isNew
    ensures Overwritten(t, v, loud).status != Deleted || t.status == Deleted
  {
  }

  /** A template is found first; everything else is found where nothing is made from one. */
  lemma TargetLevel(ts: seq<Tree>, j: nat)
    requires Sane(ts) && j < |ts|
    ensures ts[j].isTemplate <==> j == 0 && Dynamic(ts)
    ensures SaneNode(ts[j]) && (!Dynamic(ts) ==> Fixed(ts[j]))
    ensures !ts[j].isTemplate && Dynamic(ts) ==> MadeFrom(ts[0], ts[j])
  {
    hide SaneNode;
  }

  lemma {:induction false} IntoKeepsShape(ts: seq<Tree>, i: nat, d: Tree, c: Tree, loud: bool, r: Rules)
    requires Sane(ts) && i < |ts| && !ts[i].isTemplate
    requires d == ts[i].(value := d.value, newValue := d.newValue, status := d.status, isNew := d.isNew)
    requires SaneNode(d) && (d.kind == Block && !Dynamic(ts) ==> !d.isNew && d.status != Deleted)
    ensures var m := MergeInto(ts, i, d, c, loud, r); Sane(m.children) && Skeleton(m.children) == Skeleton(ts)
    decreases c, 0
  {
    hide Merge, SaneNode, Sane, Skeleton;
    ChildrenAreSane(d);
    MergeKeepsShape(d.children, c.children, loud, r);
    if d.kind == Item { NothingBelow(c.children, loud, r); }
    Regrown(d, Merge(d.children, c.children, loud, r).children);
    ReplaceKeeps(ts, i, d.(children := Merge(d.children, c.children, loud, r).children));
  }

  lemma ChildrenAreSane(t: Tree)
    requires SaneNode(t)
    ensures Sane(t.children) && (t.kind == Item ==> t.children == [])
  {
    SaneIs(t.children);
  }

  /** Other children of the same shape. */
  lemma Regrown(t: Tree, us: seq<Tree>)
    requires SaneNode(t) && !t.isTemplate && Sane(us) && Skeleton(us) == Skeleton(t.children)
    requires t.kind == Item ==> us == []
    ensures SaneNode(t.(children := us)) && BoneOf(t.(children := us)) == BoneOf(t)
  {
    SaneIs(us);
    hide Sane;
  }

  lemma NothingBelow(cs: seq<Tree>, loud: bool, r: Rules)
    ensures Merge([], cs, loud, r).children == []
  {
  }

  lemma {:induction false} BehindKeepsShape(ts: seq<Tree>, c: Tree, loud: bool, r: Rules)
    requires Sane(ts) && Dynamic(ts)
    ensures var m := MergeBehind(ts, ts[0], c, loud, r); Sane(m.children) && Skeleton(m.children) == Skeleton(ts)
    decreases c, 1
  {
    hide MergeInto, MergeNew, SaneNode, Skeleton, Sane, Instantiated;
    var name := r.check(ts[0].typ, c.name);
    if c.kind != Block || name.None? { return; }
    var k := if loud then Named(ts, 1, name.value) else |ts|;
    if k < |ts| {
      TargetLevel(ts, k);
      TouchedIsSane(ts[k]);
      IntoKeepsShape(ts, k, ts[k].(status := Modified, isNew := false), c, loud, r);
    } else {
      TargetLevel(ts, 0);
      InstantiatedIsSane(ts[0], name.value, loud);
      NewKeepsShape(ts, Instantiated(ts[0], name.value, loud), c, loud, r);
    }
  }

  lemma {:induction false} NewKeepsShape(ts: seq<Tree>, d: Tree, c: Tree, loud: bool, r: Rules)
    requires Sane(ts) && Dynamic(ts) && SaneNode(d) && MadeFrom(ts[0], d)
    ensures var m := MergeNew(ts, d, c, loud, r); Sane(m.children) && Skeleton(m.children) == Skeleton(ts)
    decreases c, 0
  {
    hide Merge, SaneNode, Skeleton, Sane, Placed;
    ChildrenAreSane(d);
    MergeKeepsShape(d.children, c.children, loud, r);
    var m := Merge(d.children, c.children, loud, r);
    if m.ok {
      Regrown(d, m.children);
      PlacedKeeps(ts, d.(children := m.children), r);
    }
  }

  lemma TouchedIsSane(t: Tree)
    requires SaneNode(t) && t.kind == Block
    ensures SaneNode(t.(status := Modified, isNew := false))
  {
  }

  lemma InstantiatedIsSane(template: Tree, name: string, loud: bool)
    requires SaneNode(template) && template.isTemplate
    ensures Instantiated(template, name, loud).children == template.children
    ensures SaneNode(Instantiated(template, name, loud)) && MadeFrom(template, Instantiated(template, name, loud))
  {
    hide Skeleton, WellFormed, Disciplined;
    CopyOfUntouched(template.children);
  }
}
