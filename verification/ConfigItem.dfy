/** The configuration tree in memory. Every operation leaves the tree its specification in
    ConfigTree, ConfigMerge and ConfigShape computes. */
module ConfigItems {
  import opened ConfigTree
  import opened ConfigMerge
  import opened ConfigShape
  import opened ConfigSort

  class ConfigItem {
    var name: string
    var value: string
    var newValue: string
    var typ: string
    var kind: Kind
    var status: Status
    var isTemplate: bool
    var isEmpty: bool
    var isNew: bool
    var sortNode: Option<string>
    var parent: ConfigItem?
    var children: seq<ConfigItem>
    ghost var repr: set<object>
    ghost var model: Tree

    /** The node and all below it form a tree whose parent pointers are right, and model is
        what it holds. */
    ghost predicate Valid()
      reads this, repr
      decreases repr, 0
    {
      && this in repr && (forall c :: c in children ==> c in repr) && Kids(children, this, repr - {this})
      && model == Own().(children := Models(children))
    }

    /** The node without its children. */
    ghost function Own(): Tree
      reads this
    {
      Tree(name, value, newValue, typ, kind, status, isTemplate, isEmpty, isNew, sortNode, [])
    }

    lemma ChildAt(i: nat)
      requires Valid() && i < |children|
      ensures |model.children| == |children| && children[i].model == model.children[i]
      ensures children[i].Valid() && children[i].parent == this && children[i] in children[i].repr
      ensures children[i].repr <= repr && this !in children[i].repr
    {
      Others(children, i, this, repr - {this});
    }

    method Touch(value: string, newValue: string, status: Status, isNew: bool)
      requires Valid()
      modifies this
      ensures Valid() && repr == old(repr) && parent == old(parent)
      ensures model == old(model).(value := value, newValue := newValue, status := status, isNew := isNew)
    {
      hide Kids, Kid, Models;
      ghost var below, kin := repr - {this}, Models(children);
      this.value, this.newValue, this.status, this.isNew := value, newValue, status, isNew;
      model := Own().(children := kin);
      StillValid(below, kin);
    }

    lemma StillValid(below: set<object>, kin: seq<Tree>)
      requires this in repr && below == repr - {this} && (forall c :: c in children ==> c in repr) && Kids(children, this, below)
      requires Models(children) == kin && model == Own().(children := kin)
      ensures Valid()
    {
    }

    /** A node with the fields of t and nothing below it. */
    constructor (t: Tree, parent: ConfigItem?)
      requires t.children == []
      ensures Valid() && fresh(repr) && model == t && this.parent == parent && children == []
    {
      name, value, newValue, typ, kind, status := t.name, t.value, t.newValue, t.typ, t.kind, t.status;
      isTemplate, isEmpty, isNew, sortNode := t.isTemplate, t.isEmpty, t.isNew, t.sortNode;
      this.parent, children := parent, [];
      repr, model := {this}, t;
    }

    /** The children have changed; below are the objects they are made of. */
    ghost method Adopt(below: set<object>)
      requires this !in below && Kids(children, this, below)
      modifies this`repr, this`model
      ensures Valid() && repr == below + {this} && model == Own().(children := Models(children)) && Own() == old(Own())
    {
      repr := below + {this};
      assert repr - {this} == below;
      model := Own().(children := Models(children));
    }

    method Erase(ghost below: set<object>, i: nat)
      requires this !in below && Kids(children, this, below) && i < |children|
      modifies this`children
      ensures Kids(children, this, below)
      ensures var ts := old(Models(children)); Models(children) == ts[..i] + ts[i + 1..]
    {
      hide Kid;
      children := children[..i] + children[i + 1..];
    }

    method Append(ghost below: set<object>, c: ConfigItem)
      requires this !in below && Kids(children, this, below)
      requires c.Valid() && c.parent == this && this !in c.repr && c.repr !! below
      modifies this`children
      ensures Kids(children, this, below + c.repr) && this !in below + c.repr
      ensures Models(children) == old(Models(children)) + [c.model]
    {
      hide Models;
      ghost var old_ := children;
      IsKid(c, this);
      children := children + [c];
      MoreKids(old_, c, this, below);
      ModelsMore(old_, c);
    }

    method Commit(pretend: bool) returns (res: nat)
      requires Valid() && WellFormed(model.children)
      modifies repr
      ensures Valid() && repr <= old(repr) && parent == old(parent)
      ensures model == old(model).(children := Swept(Mode(pretend), old(model.children)))
      ensures res == Changes(old(model.children))
      decreases model.children, 4
    {
      ghost var below := repr - {this};
      res := CommitChildren(below, pretend);
      Adopt(below);
    }

    method CommitChildren(ghost below: set<object>, pretend: bool) returns (res: nat)
      requires this !in below && Kids(children, this, below) && WellFormed(Models(children))
      modifies this`children, below
      ensures Kids(children, this, below)
      ensures Models(children) == Swept(Mode(pretend), old(Models(children)))
      ensures res == Changes(old(Models(children)))
      decreases Models(children), 3
    {
      res := 0;
      var i := 0;
      ghost var kin, n := Models(children), 0;
      assert kin[0..] == kin && Changes([]) == 0;
      UnderwayStarts(Mode(pretend), kin);
      hide Kids, Swept, SweptNode, Changes, WellFormed, WellFormedNode, Underway;
      while i < |children|
        invariant Kids(children, this, below) && i <= |children|
        invariant Underway(Mode(pretend), Models(children), i, kin, n)
        invariant n <= |kin| && res + Changes(kin[n..]) == Changes(kin)
        decreases |children| - i
      {
        ghost var ts := Models(children);
        UnderwayAt(Mode(pretend), ts, i, kin, n);
        Others(children, i, this, below);
        var stays, k := CommitAt(below, i, pretend);
        Advance(Mode(pretend), ts, i, kin, n, Models(children));
        i, res, n := if stays then i + 1 else i, res + k, n + 1;
      }
      UnderwayEnds(Mode(pretend), Models(children), i, kin, n);
    }

    /** The turn of the loop for the i-th child. */
    method CommitAt(ghost below: set<object>, i: nat, pretend: bool) returns (stays: bool, res: nat)
      requires this !in below && Kids(children, this, below)
      requires i < |children| && WellFormedNode(children[i].model)
      modifies this`children, children[i].repr
      ensures Kids(children, this, below)
      ensures var ts := old(Models(children)); Models(children) == ts[..i] + SweptNode(Mode(pretend), ts[i]) + ts[i + 1..]
      ensures |SweptNode(Mode(pretend), old(children[i].model))| == if stays then 1 else 0
      ensures res == Changes([old(children[i].model)])
      decreases children[i].model.children, 6
    {
      hide Swept, SweptNode, Changes, WellFormed, WellFormedNode, Kid;
      var c := children[i];
      Others(children, i, this, below);
      stays, res := c.CommitOne(pretend);
      IsKid(c, this);
      assert forall j :: 0 <= j < |children| && j != i ==> Kid(children[j], this);
      if !stays { Erase(below, i); }
    }

    method CommitOne(pretend: bool) returns (stays: bool, res: nat)
      requires Valid() && WellFormedNode(model)
      modifies repr
      ensures Valid() && repr <= old(repr) && parent == old(parent)
      ensures SweptNode(Mode(pretend), old(model)) == if stays then [model] else []
      ensures res == Changes([old(model)])
      decreases model.children, 5
    {
      stays, res := true, 0;
      if isTemplate { return; }
      Touch(value, newValue, status, false);
      match status {
        case Ready =>
          res := Commit(pretend);
        case Modified =>
          if !pretend {
            Touch(if kind == Item then newValue else value, newValue, Ready, false);
          }
          res := Commit(pretend);
          res := res + 1;
        case Deleted =>
          res := 1;
          if !pretend {
            if kind == Block {
              stays := false;
            } else {
              Touch("", "", Ready, false);
            }
          }
        case OtherStatus =>
      }
    }

    // -------------------------------------------------------------- discard

    method Discard()
      requires Valid() && WellFormed(model.children)
      modifies repr
      ensures Valid() && repr <= old(repr) && parent == old(parent)
      ensures model == old(model).(children := ConfigTree.Discard(old(model.children)))
      decreases model.children, 4
    {
      ghost var below := repr - {this};
      DiscardChildren(below);
      Adopt(below);
    }

    method DiscardChildren(ghost below: set<object>)
      requires this !in below && Kids(children, this, below) && WellFormed(Models(children))
      modifies this`children, below
      ensures Kids(children, this, below)
      ensures Models(children) == Swept(Discarding, old(Models(children)))
      decreases Models(children), 3
    {
      var i := 0;
      ghost var kin, n := Models(children), 0;
      UnderwayStarts(Discarding, kin);
      hide Kids, Swept, SweptNode, Changes, WellFormed, WellFormedNode, Underway;
      while i < |children|
        invariant Kids(children, this, below) && i <= |children|
        invariant Underway(Discarding, Models(children), i, kin, n)
        decreases |children| - i
      {
        ghost var ts := Models(children);
        UnderwayAt(Discarding, ts, i, kin, n);
        Others(children, i, this, below);
        var stays := DiscardAt(below, i);
        Advance(Discarding, ts, i, kin, n, Models(children));
        i, n := if stays then i + 1 else i, n + 1;
      }
      UnderwayEnds(Discarding, Models(children), i, kin, n);
    }

    method DiscardAt(ghost below: set<object>, i: nat) returns (stays: bool)
      requires this !in below && Kids(children, this, below)
      requires i < |children| && WellFormedNode(children[i].model)
      modifies this`children, children[i].repr
      ensures Kids(children, this, below)
      ensures var ts := old(Models(children)); Models(children) == ts[..i] + SweptNode(Discarding, ts[i]) + ts[i + 1..]
      ensures |SweptNode(Discarding, old(children[i].model))| == if stays then 1 else 0
      decreases children[i].model.children, 6
    {
      hide Swept, SweptNode, Changes, WellFormed, WellFormedNode, Kid;
      var c := children[i];
      Others(children, i, this, below);
      stays := c.DiscardOne();
      IsKid(c, this);
      assert forall j :: 0 <= j < |children| && j != i ==> Kid(children[j], this);
      if !stays { Erase(below, i); }
    }

    method DiscardOne() returns (stays: bool)
      requires Valid() && WellFormedNode(model)
      modifies repr
      ensures Valid() && repr <= old(repr) && parent == old(parent)
      ensures SweptNode(Discarding, old(model)) == if stays then [model] else []
      decreases model.children, 5
    {
      if isTemplate { return true; }
      if isNew { return false; }
      match status {
        case Ready =>
          Discard();
        case Modified =>
          Touch(value, if kind == Item then value else newValue, Ready, false);
          Discard();
        case Deleted =>
          Touch(value, if kind == Item then value else newValue, Ready, false);
          Discard();
        case OtherStatus =>
      }
      return true;
    }

    // -------------------------------------------------------------- replace_prepare and reset

    /** Changes values and state of the i-th child. */
    method TouchAt(ghost below: set<object>, i: nat, value: string, newValue: string, status: Status, isNew: bool)
      requires this !in below && Kids(children, this, below) && i < |children|
      modifies children[i]
      ensures Kids(children, this, below)
      ensures var ts := old(Models(children));
              Models(children) == ts[i := ts[i].(value := value, newValue := newValue, status := status, isNew := isNew)]
    {
      hide Kid;
      var c := children[i];
      Others(children, i, this, below);
      c.Touch(value, newValue, status, isNew);
      IsKid(c, this);
      assert forall j :: 0 <= j < |children| && j != i ==> Kid(children[j], this);
    }

    method ReplacePrepare()
      requires Valid()
      modifies repr
      ensures Valid() && repr == old(repr) && parent == old(parent)
      ensures model == old(model).(children := ConfigShape.ReplacePrepare(old(model.children)))
      decreases model.children, 4
    {
      ghost var below := repr - {this};
      PrepareChildren(below);
      Adopt(below);
    }

    method PrepareChildren(ghost below: set<object>)
      requires this !in below && Kids(children, this, below)
      modifies below
      ensures Kids(children, this, below)
      ensures Models(children) == ConfigShape.ReplacePrepare(old(Models(children)))
      decreases Models(children), 3
    {
      ghost var kin := Models(children);
      hide Kids, Kid, Preparing, ConfigShape.ReplacePrepare;
      var i := 0;
      ghost var marked := false;
      PreparingStarts(kin);
      while i < |children|
        invariant Kids(children, this, below)
        invariant marked ==> i >= |children|
        invariant Preparing(kin, Models(children), i, marked)
      {
        Others(children, i, this, below);
        ghost var now := Models(children);
        if children[i].isTemplate {
          if |children| > 1 {
            MarkBehind(below);
            i := i + |children|;
          }
          marked := true;
          PreparingMarks(kin, now, if |now| > 1 then i - |now| else i, Models(children));
        } else {
          PreparingGoesOn(kin, now, i);
          PrepareAt(below, i);
        }
        i := i + 1;
      }
      PreparingEnds(kin, Models(children), i, marked);
    }

    /** All children but the first are deleted. */
    method MarkBehind(ghost below: set<object>)
      requires this !in below && Kids(children, this, below)
      modifies below
      ensures Kids(children, this, below)
      ensures var ts := old(Models(children));
              |children| == |ts| && forall k :: 0 <= k < |ts| ==>
                children[k].model == if k > 0 then ts[k].(status := Deleted) else ts[k]
    {
      hide Kids, Kid;
      ghost var ts := Models(children);
      var j := 1;
      while j < |children|
        invariant Kids(children, this, below)
        invariant forall k :: 0 <= k < |ts| ==> children[k].model == if 0 < k < j then ts[k].(status := Deleted) else ts[k]
      {
        Others(children, j, this, below);
        TouchAt(below, j, children[j].value, children[j].newValue, Deleted, children[j].isNew);
        j := j + 1;
      }
    }

    method PrepareAt(ghost below: set<object>, i: nat)
      requires this !in below && Kids(children, this, below) && i < |children|
      modifies children[i].repr
      ensures Kids(children, this, below)
      ensures var ts := old(Models(children)); Models(children) == ts[i := PrepareNode(ts[i])]
      decreases children[i].model.children, 5
    {
      hide Kid, ConfigShape.ReplacePrepare;
      var c := children[i];
      Others(children, i, this, below);
      if c.kind == Item {
        c.Touch(c.value, c.newValue, Deleted, c.isNew);
      } else {
        c.ReplacePrepare();
      }
      IsKid(c, this);
      assert forall j :: 0 <= j < |children| && j != i ==> Kid(children[j], this);
    }

    method Reset()
      requires Valid() && Sane(model.children)
      modifies repr
      ensures Valid() && repr <= old(repr) && parent == old(parent)
      ensures model == old(model).(children := ConfigShape.Reset(old(model.children)))
      decreases model.children, 4
    {
      ghost var below := repr - {this};
      ResetChildren(below);
      Adopt(below);
    }

    method ResetChildren(ghost below: set<object>)
      requires this !in below && Kids(children, this, below) && Sane(Models(children))
      modifies this`children, below
      ensures Kids(children, this, below)
      ensures Models(children) == ConfigShape.Reset(old(Models(children)))
      decreases Models(children), 3
    {
      ghost var kin := Models(children);
      hide Kids, Kid, Sane, ResetNode;
      var i := 0;
      while i < |children|
        invariant Kids(children, this, below) && i <= |children|
        invariant Dynamic(kin) && i > 0 ==> Models(children) == ConfigShape.Reset(kin)
        invariant !Dynamic(kin) || i == 0 ==> |children| == |kin|
        invariant !Dynamic(kin) || i == 0 ==> forall j :: 0 <= j < i ==> children[j].model == ResetNode(kin[j])
        invariant !Dynamic(kin) || i == 0 ==> forall j :: i <= j < |children| ==> children[j].model == kin[j]
        decreases |children| - i
      {
        Others(children, i, this, below);
        TargetLevel(kin, i);
        ChildrenAreSane(kin[i]);
        if children[i].isTemplate {
          ResetBehind(below);
        } else {
          ResetFixed(below, i);
        }
        i := i + 1;
      }
    }

    method Truncate(ghost below: set<object>)
      requires this !in below && Kids(children, this, below) && children != []
      modifies this`children
      ensures Kids(children, this, below)
      ensures Models(children) == [old(children[0].model)]
    {
      hide Kid;
      children := children[..1];
    }

    /** The template stays, alone. */
    method ResetBehind(ghost below: set<object>)
      requires this !in below && Kids(children, this, below) && children != []
      requires Sane(children[0].model.children)
      modifies this`children, below
      ensures Kids(children, this, below)
      ensures var t := old(children[0].model); Models(children) == [t.(children := ConfigShape.Reset(t.children))]
      decreases children[0].model.children, 6
    {
      hide Kids, Kid, ConfigShape.Reset, Sane;
      ghost var t := children[0].model;
      if |children| > 1 {
        Truncate(below);
      }
      assert Models(children) == [t];
      Others(children, 0, this, below);
      ResetAt(below, 0);
    }

    method ResetFixed(ghost below: set<object>, i: nat)
      requires this !in below && Kids(children, this, below) && i < |children|
      requires Sane(children[i].model.children)
      modifies below
      ensures Kids(children, this, below)
      ensures var ts := old(Models(children)); Models(children) == ts[i := ResetNode(ts[i])]
      decreases children[i].model.children, 6
    {
      hide Kids, Kid, ConfigShape.Reset, Sane;
      Others(children, i, this, below);
      TouchAt(below, i, "", "", Ready, children[i].isNew);
      Others(children, i, this, below);
      ResetAt(below, i);
    }

    method ResetAt(ghost below: set<object>, i: nat)
      requires this !in below && Kids(children, this, below) && i < |children|
      requires Sane(children[i].model.children)
      modifies children[i].repr
      ensures Kids(children, this, below)
      ensures var ts := old(Models(children));
              Models(children) == ts[i := ts[i].(children := ConfigShape.Reset(ts[i].children))]
      decreases children[i].model.children, 5
    {
      hide Kid, ConfigShape.Reset, Sane;
      var c := children[i];
      Others(children, i, this, below);
      c.Reset();
      IsKid(c, this);
      assert forall j :: 0 <= j < |children| && j != i ==> Kid(children[j], this);
    }

    // -------------------------------------------------------------- merge

    /** copy_nodes: copies of the source's children join. */
    method CopyNodes(source: ConfigItem)
      requires Valid() && source.Valid() && source.repr !! repr
      modifies repr
      ensures Valid() && fresh(repr - old(repr)) && parent == old(parent)
      ensures model == old(model).(children := old(model.children) + Copy(source.model.children))
      decreases source.model.children, 3
    {
      ghost var below := CopyChildren(repr - {this}, source);
      Adopt(below);
    }

    method CopyChildren(ghost below0: set<object>, source: ConfigItem) returns (ghost below: set<object>)
      requires this !in below0 && Kids(children, this, below0)
      requires source.Valid() && source.repr !! below0 && this !in source.repr
      modifies this`children
      ensures this !in below && Kids(children, this, below) && below0 <= below && fresh(below - below0)
      ensures Models(children) == old(Models(children)) + Copy(source.model.children)
      decreases source.model.children, 2
    {
      below := below0;
      ghost var kin, from := Models(children), source.model.children;
      CopyNothing(kin, from);
      var i := 0;
      hide Kids, Kid, Models, Copied;
      while i < |source.children|
        invariant this !in below && Kids(children, this, below) && i <= |from| == |source.children|
        invariant below0 <= below && fresh(below - below0)
        invariant Copied(kin, Models(children), from, i)
      {
        source.ChildAt(i);
        var n := CopyOf(source.children[i]);
        CopyTake(kin, Models(children), from, i);
        Append(below, n);
        below := below + n.repr;
        i := i + 1;
      }
      CopyAll(kin, Models(children), from);
    }

    /** One node and what is below it, copied under this one. */
    method CopyOf(s: ConfigItem) returns (n: ConfigItem)
      requires s.Valid()
      ensures n.Valid() && fresh(n.repr) && n.parent == this && n.model == CopyNode(s.model)
      decreases s.model.children, 4
    {
      n := new ConfigItem(Tree(s.name, s.value, s.newValue, s.typ, s.kind, s.status, s.isTemplate, s.isEmpty, false,
                               s.sortNode, []), this);
      n.CopyNodes(s);
    }

    /** merge; the contents are only read. */
    method Merge(cs: seq<Tree>, loud: bool, r: Rules) returns (ok: bool)
      requires Valid()
      modifies repr
      ensures Valid() && fresh(repr - old(repr)) && parent == old(parent)
      ensures var m := ConfigMerge.Merge(old(model.children), cs, loud, r);
              model == old(model).(children := m.children) && ok == m.ok
      decreases cs, 4
    {
      hide Kids, Models, ConfigMerge.Merge;
      ghost var below0, below := repr - {this}, {};
      ok, below := MergeChildren(below0, cs, loud, r);
      assert Own() == old(Own());
      Adopt(below);
    }

    method MergeChildren(ghost below0: set<object>, cs: seq<Tree>, loud: bool, r: Rules) returns (ok: bool, ghost below: set<object>)
      requires this !in below0 && Kids(children, this, below0)
      modifies this`children, below0
      ensures this !in below && Kids(children, this, below) && fresh(below - below0)
      ensures ConfigMerge.Merge(old(Models(children)), cs, loud, r) == Merged(Models(children), ok)
      decreases cs, 3
    {
      ok, below := true, below0;
      ghost var kin := Models(children);
      MergeStarts(kin, cs, loud, r);
      hide Kids, Kid, Models, Reached;
      var i := 0;
      while i < |cs| && ok
        invariant this !in below && Kids(children, this, below) && fresh(below - below0)
        invariant Reached(kin, Models(children), cs, i, ok, loud, r)
      {
        ghost var ts := Models(children);
        ok, below := MergeEntry(below, cs[i], loud, r);
        MergeStep(kin, ts, cs, i, loud, r);
        i := i + 1;
      }
      MergeEnds(kin, Models(children), cs, i, ok, loud, r);
    }

    /** The turn of the loop for one node of the contents. */
    method MergeEntry(ghost below0: set<object>, c: Tree, loud: bool, r: Rules) returns (ok: bool, ghost below: set<object>)
      requires this !in below0 && Kids(children, this, below0)
      modifies this`children, below0
      ensures this !in below && Kids(children, this, below) && fresh(below - below0)
      ensures MergeOne(old(Models(children)), c, loud, r) == Merged(Models(children), ok)
      decreases c, 8
    {
      hide Kids, Kid, MergeBehind, MergeItem, MergeInto, Target;
      ok, below := false, below0;
      var j := SearchTarget(below, c.name);
      if j == |children| { return; }
      FieldsAre(children, this, below);
      if children[j].isTemplate {
        ok, below := MergeBehindEntry(below, j, c, loud, r);
      } else if c.kind == Item {
        ok, below := MergeItemEntry(below, j, c, loud, r);
      } else {
        ok, below := MergeBelow(below, j, c, loud, r);
      }
    }

    method MergeItemEntry(ghost below0: set<object>, i: nat, c: Tree, loud: bool, r: Rules)
      returns (ok: bool, ghost below: set<object>)
      requires this !in below0 && Kids(children, this, below0) && i < |children|
      modifies below0
      ensures this !in below && Kids(children, this, below) && fresh(below - below0)
      ensures MergeItem(old(Models(children)), i, c, loud, r) == Merged(Models(children), ok)
      decreases c, 6
    {
      hide Kids, Kid, MergeInto;
      ok, below := false, below0;
      Others(children, i, this, below);
      var d := children[i];
      match r.check(d.typ, c.value)
      case None =>
      case Some(v) =>
        ghost var ts := Models(children);
        FieldsAre(children, this, below);
        TouchAt(below, i, if loud then d.value else v, v, if loud then Modified else d.status, d.isNew);
        IntoReplaced(ts, i, Overwritten(ts[i], v, loud), c, loud, r);
        ok, below := MergeBelow(below, i, c, loud, r);
    }

    /** The contents' children are merged into the i-th child. */
    method MergeBelow(ghost below0: set<object>, i: nat, c: Tree, loud: bool, r: Rules) returns (ok: bool, ghost below: set<object>)
      requires this !in below0 && Kids(children, this, below0) && i < |children|
      modifies below0
      ensures this !in below && Kids(children, this, below) && fresh(below - below0)
      ensures var ts := old(Models(children)); MergeInto(ts, i, ts[i], c, loud, r) == Merged(Models(children), ok)
      decreases c, 5
    {
      hide Kid, ConfigMerge.Merge;
      var d := children[i];
      Others(children, i, this, below0);
      ok := d.Merge(c.children, loud, r);
      IsKid(d, this);
      assert forall j :: 0 <= j < |children| && j != i ==> Kid(children[j], this);
      below := below0 + d.repr;
    }

    method MergeBehindEntry(ghost below0: set<object>, j: nat, c: Tree, loud: bool, r: Rules)
      returns (ok: bool, ghost below: set<object>)
      requires this !in below0 && Kids(children, this, below0) && j < |children|
      modifies this`children, below0
      ensures this !in below && Kids(children, this, below) && fresh(below - below0)
      ensures var ts := old(Models(children)); MergeBehind(ts, ts[j], c, loud, r) == Merged(Models(children), ok)
      decreases c, 7
    {
      hide Kids, Kid, MergeInto, MergeNew, Named;
      ok, below := false, below0;
      Others(children, j, this, below);
      if c.kind != Block { return; }
      match r.check(children[j].typ, c.name)
      case None =>
      case Some(name) =>
        var k := |children|;
        if loud { k := SearchNamed(below, name); }
        if k < |children| {
          ok, below := MergeFound(below, k, c, loud, r);
        } else {
          ok, below := MergeNewEntry(below, j, name, c, loud, r);
        }
    }

    method SearchTarget(ghost below: set<object>, name: string) returns (j: nat)
      requires this !in below && Kids(children, this, below)
      ensures j == Target(Models(children), name) && j <= |children|
    {
      FieldsAre(children, this, below);
      j := 0;
      while j < |children| && !children[j].isTemplate && children[j].name != name
        invariant j <= |children|
        invariant forall i :: 0 <= i < j ==> !children[i].isTemplate && children[i].name != name
      {
        j := j + 1;
      }
      TargetIs(Models(children), j, name);
    }

    method SearchNamed(ghost below: set<object>, name: string) returns (k: nat)
      requires this !in below && Kids(children, this, below) && children != []
      ensures k == Named(Models(children), 1, name) && 1 <= k <= |children|
    {
      FieldsAre(children, this, below);
      k := 1;
      while k < |children| && children[k].name != name
        invariant 1 <= k <= |children|
        invariant forall i :: 1 <= i < k ==> children[i].name != name
      {
        k := k + 1;
      }
      NamedIs(Models(children), k, name);
    }

    /** A block of that name is there already. */
    method MergeFound(ghost below0: set<object>, k: nat, c: Tree, loud: bool, r: Rules) returns (ok: bool, ghost below: set<object>)
      requires this !in below0 && Kids(children, this, below0) && k < |children|
      modifies below0
      ensures this !in below && Kids(children, this, below) && fresh(below - below0)
      ensures var ts := old(Models(children));
              MergeInto(ts, k, ts[k].(status := Modified, isNew := false), c, loud, r) == Merged(Models(children), ok)
      decreases c, 6
    {
      hide Kids, Kid, MergeInto;
      ghost var ts := Models(children);
      FieldsAre(children, this, below0);
      var d := children[k];
      Others(children, k, this, below0);
      TouchAt(below0, k, d.value, d.newValue, Modified, false);
      IntoReplaced(ts, k, ts[k].(status := Modified, isNew := false), c, loud, r);
      ok, below := MergeBelow(below0, k, c, loud, r);
    }

    /** A block is made from the template, and joins if the contents fit it. */
    method MergeNewEntry(ghost below0: set<object>, j: nat, name: string, c: Tree, loud: bool, r: Rules)
      returns (ok: bool, ghost below: set<object>)
      requires this !in below0 && Kids(children, this, below0) && j < |children|
      modifies this`children
      ensures this !in below && Kids(children, this, below) && fresh(below - below0)
      ensures var ts := old(Models(children));
              MergeNew(ts, Instantiated(ts[j], name, loud), c, loud, r) == Merged(Models(children), ok)
      decreases c, 5
    {
      hide Kids, Kid, Models, MergeNew, Instantiated, Sorted, Placed;
      ghost var ts := Models(children);
      ok, below := false, below0;
      var d := Instance(below0, j, name, loud);
      ok := d.Merge(c.children, loud, r);
      NewIs(ts, Instantiated(ts[j], name, loud), c, loud, r);
      if ok {
        Append(below0, d);
        below := below0 + d.repr;
        if !d.isEmpty {
          SortBehind(below, r);
        }
      }
    }

    /** A new block made from the j-th child. */
    method Instance(ghost below: set<object>, j: nat, name: string, loud: bool) returns (d: ConfigItem)
      requires this !in below && Kids(children, this, below) && j < |children|
      ensures d.Valid() && fresh(d.repr) && d.parent == this && d.model == Instantiated(Models(children)[j], name, loud)
    {
      hide Copy;
      Others(children, j, this, below);
      FieldsAre(children, this, below);
      var t := children[j];
      d := new ConfigItem(Tree(name, "", "", "", Block, if loud then Modified else Ready, false, t.isEmpty, loud, t.sortNode, []),
                          this);
      d.CopyNodes(t);
    }

    /** The nodes behind the first child in the order their trees are sorted in. */
    method SortBehind(ghost below: set<object>, r: Rules)
      requires this !in below && Kids(children, this, below) && children != []
      modifies this`children
      ensures Kids(children, this, below) && forall c :: c in old(children) ==> c in children
      ensures var ts := old(Models(children)); Models(children) == [ts[0]] + Sorted(ts[1..], r.arrange)
    {
      hide Kids, Kid, Sorted, HalfSorted, Models;
      ghost var all := Models(children);
      var trees := TreesBehind(below);
      ModelsBehind(children);
      var order := Sorted(trees, r.arrange);
      var done, rest := [children[0]], children[1..];
      var k := 0;
      SortedNone(all[0], order, trees);
      assert done + rest == children;
      while k < |order|
        invariant k <= |order| && HalfSorted(all[0], order, k, Models(done), trees) && Models(rest) == trees
        invariant Kids(done + rest, this, below) && forall c :: c in old(children) ==> c in done || c in rest
      {
        NextIsThere(all[0], order, k, Models(done), trees);
        var i := FirstOf(trees, order[k]);
        Moved(done, rest, i, this, below);
        SortedOneMore(all[0], order, k, Models(done), trees, i);
        ModelsTaken(done, rest, i);
        done, rest, trees := done + [rest[i]], rest[..i] + rest[i + 1..], trees[..i] + trees[i + 1..];
        k := k + 1;
      }
      SortedEveryone(all[0], order, k, Models(done), trees);
      assert done + rest == done;
      children := done;
    }

    // -------------------------------------------------------------- sort

    /** sort, of a tree of at most height h. */
    method Sort(r: Rules, ghost h: nat)
      requires Valid() && Height(model.children) <= h
      modifies repr
      ensures Valid() && repr == old(repr) && parent == old(parent)
      ensures model == old(model).(children := model.children)
      ensures Sorting(old(model.children), 0, r.arrange, h, model.children) && Height(model.children) <= h
      decreases h, 4
    {
      hide Kids, Models, Sorting;
      ghost var below := repr - {this};
      SortChildren(below, r, h);
      Adopt(below);
    }

    method SortChildren(ghost below: set<object>, r: Rules, ghost h: nat)
      requires this !in below && Kids(children, this, below) && Height(Models(children)) <= h
      modifies this`children, below
      ensures Kids(children, this, below)
      ensures Sorting(old(Models(children)), 0, r.arrange, h, Models(children)) && Height(Models(children)) <= h
      decreases h, 3
    {
      hide Kids, Kid, Models, Height, Turned;
      ghost var kin := Models(children);
      var i := 0;
      while i < |children|
        invariant Kids(children, this, below) && i <= |children| && Height(Models(children)) <= h
        invariant Continues(kin, Models(children), i, r.arrange, h)
        decreases |children| - i
      {
        ghost var ts := Models(children);
        SortAt(below, i, r, h);
        Continued(kin, ts, i, r.arrange, h, Models(children));
        i := i + 1;
      }
      ContinuesToEnd(kin, Models(children), i, r.arrange, h);
    }

    /** The turn of the loop for the i-th child. */
    method SortAt(ghost below: set<object>, i: nat, r: Rules, ghost h: nat)
      requires this !in below && Kids(children, this, below) && i < |children| && Height(Models(children)) <= h
      modifies this`children, below
      ensures Kids(children, this, below) && |children| == |old(children)| && Height(Models(children)) <= h
      ensures Turned(old(Models(children)), i, r.arrange, h, Models(children))
      decreases h, 2
    {
      hide Kids, Kid, Order, Height, Sorting;
      ghost var ts := Models(children);
      FieldsAre(children, this, below);
      var c := children[i];
      if c.kind != Block || c.isTemplate { return; }
      HeightAt(ts, h);
      ghost var k := SortSiblings(below, i, r);
      SortInside(below, k, c, r, h - 1);
      Lower(ts, Order(ts, i, r.arrange), Models(children), k, h);
    }

    /** The siblings of the i-th child are sorted if it has a sort node; k is where it then is. */
    method SortSiblings(ghost below: set<object>, i: nat, r: Rules) returns (ghost k: nat)
      requires this !in below && Kids(children, this, below) && i < |children|
      modifies this`children
      ensures Kids(children, this, below)
      ensures Models(children) == Order(old(Models(children)), i, r.arrange) && Goes(old(Models(children)), i, r.arrange, k)
      ensures k < |children| && children[k] == old(children[i])
    {
      hide Kids, Kid, Sorted;
      FieldsAre(children, this, below);
      var c := children[i];
      if c.sortNode.None? { return i; }
      SortBehind(below, r);
      k := PlaceOf(children, c);
    }

    /** What is in the k-th child. */
    method SortInside(ghost below: set<object>, ghost k: nat, c: ConfigItem, r: Rules, ghost h: nat)
      requires this !in below && Kids(children, this, below) && k < |children| && children[k] == c
      requires Height(c.model.children) <= h
      modifies below
      ensures Kids(children, this, below)
      ensures var ts := old(Models(children));
              exists ds ::
                && Height(ds) <= h && Sorting(ts[k].children, 0, r.arrange, h, ds)
                && Models(children) == ts[k := ts[k].(children := ds)]
      decreases h, 5
    {
      hide Kid, Sorting, Height;
      Others(children, k, this, below);
      c.Sort(r, h);
      IsKid(c, this);
      assert forall j :: 0 <= j < |children| && j != k ==> Kid(children[j], this);
      assert Models(children) == old(Models(children))[k := c.model];
    }

    /** The trees behind the first child. */
    method TreesBehind(ghost below: set<object>) returns (ts: seq<Tree>)
      requires this !in below && Kids(children, this, below) && children != []
      ensures ts == Models(children[1..])
      decreases below, 0
    {
      ts := [];
      var i := 1;
      while i < |children|
        invariant 1 <= i <= |children| && ts == Models(children[1..i])
      {
        Others(children, i, this, below);
        var t := children[i].Snapshot();
        ModelsMore(children[1..i], children[i]);
        assert children[1..i] + [children[i]] == children[1..i + 1];
        ts := ts + [t];
        i := i + 1;
      }
      assert children[1..i] == children[1..];
    }

    method Snapshot() returns (t: Tree)
      requires Valid()
      ensures t == model
      decreases repr, 1
    {
      var ts := [];
      var i := 0;
      while i < |children|
        invariant i <= |children| && ts == model.children[..i]
      {
        ChildAt(i);
        var c := children[i].Snapshot();
        ts := ts + [c];
        i := i + 1;
      }
      t := Tree(name, value, newValue, typ, kind, status, isTemplate, isEmpty, isNew, sortNode, ts);
    }
  }

  ghost function PlaceOf(cs: seq<ConfigItem>, c: ConfigItem): (k: nat)
    requires c in cs
    ensures k < |cs| && cs[k] == c
  {
    var k :| 0 <= k < |cs| && cs[k] == c;
    k
  }

  /** Whatever sorting from the i-th child on makes of now, sorting makes of kin. */
  ghost predicate Continues(kin: seq<Tree>, now: seq<Tree>, i: nat, f: Arrangement, h: nat) {
    forall us :: Sorting(now, i, f, h, us) ==> Sorting(kin, 0, f, h, us)
  }

  lemma Continued(kin: seq<Tree>, ts: seq<Tree>, i: nat, f: Arrangement, h: nat, now: seq<Tree>)
    requires Continues(kin, ts, i, f, h) && Turned(ts, i, f, h, now)
    ensures Continues(kin, now, i + 1, f, h)
  {
    hide Sorting, Turned;
    forall us | Sorting(now, i + 1, f, h, us) ensures Sorting(kin, 0, f, h, us) {
      TurnThenSort(ts, i, f, h, now, us);
    }
  }

  lemma ContinuesToEnd(kin: seq<Tree>, now: seq<Tree>, i: nat, f: Arrangement, h: nat)
    requires Continues(kin, now, i, f, h) && i >= |now|
    ensures Sorting(kin, 0, f, h, now)
  {
    assert Sorting(now, i, f, h, now);
  }

  method FirstOf(ts: seq<Tree>, t: Tree) returns (i: nat)
    requires t in ts
    ensures i < |ts| && ts[i] == t
  {
    i := 0;
    while ts[i] != t
      invariant i < |ts| && t in ts[i..]
      decreases |ts| - i
    {
      assert ts[i..] == [ts[i]] + ts[i + 1..];
      i := i + 1;
    }
  }

  lemma Moved(done: seq<ConfigItem>, rest: seq<ConfigItem>, i: nat, p: ConfigItem, below: set<object>)
    requires Kids(done + rest, p, below) && i < |rest|
    ensures Kids(done + [rest[i]] + (rest[..i] + rest[i + 1..]), p, below)
  {
    hide Kid;
    var cs, ds := done + rest, done + [rest[i]] + (rest[..i] + rest[i + 1..]);
    var n := |done|;
    assert forall k :: 0 <= k < |ds| ==> ds[k] == cs[if k < n then k else if k == n then n + i else if k <= n + i then k - 1 else k];
  }

  lemma TakenOut(trees: seq<Tree>, left: seq<Tree>, i: nat)
    requires left != [] && multiset(trees) == multiset(left) && i < |trees| && trees[i] == left[0]
    ensures multiset(trees[..i] + trees[i + 1..]) == multiset(left[1..])
  {
    BagWithout(trees, i);
    BagWithout(left, 0);
    assert left[..0] + left[1..] == left[1..];
    Cancelled(multiset(trees[..i] + trees[i + 1..]), multiset(left[1..]), left[0]);
  }

  lemma BagWithout(ts: seq<Tree>, i: nat)
    requires i < |ts|
    ensures multiset(ts) == multiset(ts[..i] + ts[i + 1..]) + multiset{ts[i]}
  {
    assert ts == ts[..i] + [ts[i]] + ts[i + 1..];
  }

  lemma Cancelled(a: multiset<Tree>, b: multiset<Tree>, x: Tree)
    requires a + multiset{x} == b + multiset{x}
    ensures a == b
  {
    assert a == (a + multiset{x}) - multiset{x} && b == (b + multiset{x}) - multiset{x};
  }

  lemma ModelsBehind(cs: seq<ConfigItem>)
    requires cs != []
    ensures Models(cs) == [cs[0].model] + Models(cs[1..]) && Models([cs[0]]) == [cs[0].model]
  {
  }

  /** Of the blocks behind the first one, k stand in order, and trees are the others. */
  predicate HalfSorted(first: Tree, order: seq<Tree>, k: nat, done: seq<Tree>, trees: seq<Tree>) {
    k <= |order| && multiset(trees) == multiset(order[k..]) && done == [first] + order[..k]
  }

  lemma SortedNone(first: Tree, order: seq<Tree>, trees: seq<Tree>)
    requires multiset(order) == multiset(trees)
    ensures HalfSorted(first, order, 0, [first], trees)
  {
    assert order[0..] == order && order[..0] == [];
  }

  lemma NextIsThere(first: Tree, order: seq<Tree>, k: nat, done: seq<Tree>, trees: seq<Tree>)
    requires HalfSorted(first, order, k, done, trees) && k < |order|
    ensures order[k] in trees
  {
    assert order[k..][0] == order[k];
    assert order[k] in multiset(order[k..]);
  }

  lemma SortedOneMore(first: Tree, order: seq<Tree>, k: nat, done: seq<Tree>, trees: seq<Tree>, i: nat)
    requires HalfSorted(first, order, k, done, trees) && k < |order| && i < |trees| && trees[i] == order[k]
    ensures HalfSorted(first, order, k + 1, done + [trees[i]], trees[..i] + trees[i + 1..])
  {
    assert order[k..][0] == order[k];
    TakenOut(trees, order[k..], i);
    assert order[k..][1..] == order[k + 1..] && order[..k] + [order[k]] == order[..k + 1];
  }

  lemma SortedEveryone(first: Tree, order: seq<Tree>, k: nat, done: seq<Tree>, trees: seq<Tree>)
    requires HalfSorted(first, order, k, done, trees) && k >= |order|
    ensures done == [first] + order && trees == []
  {
    assert order[k..] == [] && order[..k] == order;
    NothingLeft(trees);
  }

  lemma ModelsTaken(done: seq<ConfigItem>, rest: seq<ConfigItem>, i: nat)
    requires i < |rest|
    ensures Models(done + [rest[i]]) == Models(done) + [rest[i].model]
    ensures |Models(rest)| == |rest| && rest[i].model == Models(rest)[i]
    ensures Models(rest[..i] + rest[i + 1..]) == Models(rest)[..i] + Models(rest)[i + 1..]
  {
  }

  lemma NothingLeft(ts: seq<Tree>)
    requires multiset(ts) == multiset([])
    ensures ts == []
  {
    var none: seq<Tree> := [];
    assert |ts| == |multiset(ts)| == |multiset(none)| == 0;
  }

  function Mode(pretend: bool): Sweep {
    if pretend then Pretending else Committing
  }

  lemma Others(cs: seq<ConfigItem>, i: nat, p: ConfigItem, below: set<object>)
    requires Kids(cs, p, below) && i < |cs|
    ensures cs[i].Valid() && cs[i].parent == p && cs[i] in cs[i].repr && cs[i].repr <= below
    ensures forall j :: 0 <= j < |cs| && j != i ==> cs[j] !in cs[i].repr && cs[j].repr !! cs[i].repr
  {
  }

  lemma MoreKids(cs: seq<ConfigItem>, c: ConfigItem, p: ConfigItem, below: set<object>)
    requires Kids(cs, p, below) && Kid(c, p) && c.repr !! below
    ensures Kids(cs + [c], p, below + c.repr)
  {
    var ds := cs + [c];
    assert forall i :: 0 <= i < |cs| ==> ds[i] == cs[i];
    assert c in c.repr;
  }

  lemma ModelsMore(cs: seq<ConfigItem>, c: ConfigItem)
    ensures Models(cs + [c]) == Models(cs) + [c.model]
  {
  }

  /** ts is kin and copies of the first i of from. */
  ghost predicate Copied(kin: seq<Tree>, ts: seq<Tree>, from: seq<Tree>, i: nat) {
    i <= |from| && ts == kin + Copy(from[..i])
  }

  lemma CopyNothing(kin: seq<Tree>, from: seq<Tree>)
    ensures Copied(kin, kin, from, 0)
  {
  }

  lemma CopyTake(kin: seq<Tree>, ts: seq<Tree>, from: seq<Tree>, i: nat)
    requires Copied(kin, ts, from, i) && i < |from|
    ensures Copied(kin, ts + [CopyNode(from[i])], from, i + 1)
  {
    forall k | 0 <= k <= i ensures Copy(from[..i + 1])[k] == CopyNode(from[k]) {
      CopyAt(from[..i + 1], k);
    }
    forall k | 0 <= k < i ensures Copy(from[..i])[k] == CopyNode(from[k]) {
      CopyAt(from[..i], k);
    }
    assert Copy(from[..i + 1]) == Copy(from[..i]) + [CopyNode(from[i])];
  }

  lemma CopyAll(kin: seq<Tree>, ts: seq<Tree>, from: seq<Tree>)
    requires Copied(kin, ts, from, |from|)
    ensures ts == kin + Copy(from)
  {
    assert from[..|from|] == from;
  }

  /** ts is what the first i nodes of the contents make of kin. */
  ghost predicate Reached(kin: seq<Tree>, ts: seq<Tree>, cs: seq<Tree>, i: nat, ok: bool, loud: bool, r: Rules) {
    && i <= |cs|
    && ConfigMerge.Merge(kin, cs, loud, r) == if ok then ConfigMerge.Merge(ts, cs[i..], loud, r) else Merged(ts, false)
  }

  lemma MergeStarts(kin: seq<Tree>, cs: seq<Tree>, loud: bool, r: Rules)
    ensures Reached(kin, kin, cs, 0, true, loud, r)
  {
    assert cs[0..] == cs;
  }

  lemma MergeStep(kin: seq<Tree>, ts: seq<Tree>, cs: seq<Tree>, i: nat, loud: bool, r: Rules)
    requires Reached(kin, ts, cs, i, true, loud, r) && i < |cs|
    ensures var m := MergeOne(ts, cs[i], loud, r); Reached(kin, m.children, cs, i + 1, m.ok, loud, r)
  {
    hide MergeOne;
    assert cs[i..][0] == cs[i] && cs[i..][1..] == cs[i + 1..];
  }

  lemma MergeEnds(kin: seq<Tree>, ts: seq<Tree>, cs: seq<Tree>, i: nat, ok: bool, loud: bool, r: Rules)
    requires Reached(kin, ts, cs, i, ok, loud, r) && (i < |cs| ==> !ok)
    ensures ConfigMerge.Merge(kin, cs, loud, r) == Merged(ts, ok)
  {
  }

  /** The models agree with the fields. */
  lemma FieldsAre(cs: seq<ConfigItem>, p: ConfigItem, below: set<object>)
    requires Kids(cs, p, below)
    ensures forall i :: 0 <= i < |cs| ==> cs[i].model == cs[i].Own().(children := cs[i].model.children)
  {
    forall i | 0 <= i < |cs| ensures cs[i].model == cs[i].Own().(children := cs[i].model.children) {
      Others(cs, i, p, below);
    }
  }

  lemma NewIs(ts: seq<Tree>, d: Tree, c: Tree, loud: bool, r: Rules)
    requires ts != []
    ensures var m := ConfigMerge.Merge(d.children, c.children, loud, r);
            var us := ts + [d.(children := m.children)];
            MergeNew(ts, d, c, loud, r) ==
            if !m.ok then Merged(ts, false)
            else Merged(if d.isEmpty then us else [us[0]] + Sorted(us[1..], r.arrange), true)
  {
    hide ConfigMerge.Merge;
    var e := d.(children := ConfigMerge.Merge(d.children, c.children, loud, r).children);
    var us := ts + [e];
    assert us[1..] == Behind(ts, e) && us == [us[0]] + us[1..];
  }

  lemma IntoReplaced(ts: seq<Tree>, i: nat, d: Tree, c: Tree, loud: bool, r: Rules)
    requires i < |ts|
    ensures MergeInto(ts[i := d], i, d, c, loud, r) == MergeInto(ts, i, d, c, loud, r)
  {
    hide ConfigMerge.Merge;
    var us := ConfigMerge.Merge(d.children, c.children, loud, r).children;
    assert ts[i := d][i := d.(children := us)] == ts[i := d.(children := us)];
  }

  lemma TargetIs(ts: seq<Tree>, j: nat, name: string)
    requires j <= |ts| && (j < |ts| ==> ts[j].isTemplate || ts[j].name == name)
    requires forall i :: 0 <= i < j ==> !ts[i].isTemplate && ts[i].name != name
    ensures Target(ts, name) == j
  {
  }

  lemma NamedIs(ts: seq<Tree>, k: nat, name: string)
    requires 1 <= k <= |ts| && (k < |ts| ==> ts[k].name == name)
    requires forall i :: 1 <= i < k ==> ts[i].name != name
    ensures Named(ts, 1, name) == k
  {
  }

  lemma IsKid(c: ConfigItem, p: ConfigItem)
    requires c.Valid() && c.parent == p
    ensures Kid(c, p)
  {
  }

  /** Of the children at the start, n have become the first i of ts. */
  ghost predicate Underway(op: Sweep, ts: seq<Tree>, i: nat, kin: seq<Tree>, n: nat) {
    && i <= |ts| && n <= |kin| && ts[i..] == kin[n..] && WellFormed(kin)
    && ts[..i] + Swept(op, kin[n..]) == Swept(op, kin)
  }

  lemma UnderwayStarts(op: Sweep, kin: seq<Tree>)
    requires WellFormed(kin)
    ensures Underway(op, kin, 0, kin, 0)
  {
    hide Swept;
    assert kin[0..] == kin && kin[..0] == [];
  }

  lemma UnderwayAt(op: Sweep, ts: seq<Tree>, i: nat, kin: seq<Tree>, n: nat)
    requires Underway(op, ts, i, kin, n) && i < |ts|
    ensures n < |kin| && ts[i] == kin[n] && WellFormedNode(ts[i])
  {
    hide Swept, WellFormedNode;
    assert ts[i..][0] == kin[n..][0];
  }

  lemma UnderwayEnds(op: Sweep, ts: seq<Tree>, i: nat, kin: seq<Tree>, n: nat)
    requires Underway(op, ts, i, kin, n) && i == |ts|
    ensures ts == Swept(op, kin) && kin[n..] == []
  {
    assert kin[n..] == [] && ts[..i] == ts;
    SweptNothing(op);
  }

  /** The next child became what one sweep makes of it. */
  lemma Advance(op: Sweep, ts: seq<Tree>, i: nat, kin: seq<Tree>, n: nat, us: seq<Tree>)
    requires Underway(op, ts, i, kin, n) && i < |ts|
    requires us == ts[..i] + SweptNode(op, ts[i]) + ts[i + 1..]
    ensures Underway(op, us, i + |SweptNode(op, ts[i])|, kin, n + 1)
    ensures Changes(kin[n..]) == Changes([ts[i]]) + Changes(kin[n + 1..])
  {
    hide Swept, SweptNode, Changes, WellFormed;
    assert ts[i] == ts[i..][0] == kin[n..][0] == kin[n];
    SweptCons(op, kin[n..]);
    assert kin[n..][1..] == kin[n + 1..] && ts[i..][1..] == ts[i + 1..];
    ChangesAt(kin, n);
  }

  lemma ChangesAt(ts: seq<Tree>, i: nat)
    requires i < |ts|
    ensures Changes(ts[i..]) == Changes([ts[i]]) + Changes(ts[i + 1..])
  {
    assert ts[i..][1..] == ts[i + 1..];
    assert [ts[i]][1..] == [] && Changes([]) == 0;
  }

  /** replace_prepare half way: the first i children are prepared; or a template has been met
      and all is done. */
  ghost predicate Preparing(kin: seq<Tree>, now: seq<Tree>, i: nat, marked: bool) {
    if marked then i >= |now| && now == ConfigShape.ReplacePrepare(kin)
    else
      && i <= |now| == |kin|
      && (forall j :: 0 <= j < i ==> !kin[j].isTemplate && now[j] == PrepareNode(kin[j]))
      && (forall j :: i <= j < |now| ==> now[j] == kin[j])
  }

  lemma PreparingStarts(kin: seq<Tree>)
    ensures Preparing(kin, kin, 0, false)
  {
  }

  lemma PreparingGoesOn(kin: seq<Tree>, now: seq<Tree>, i: nat)
    requires Preparing(kin, now, i, false) && i < |now| && !now[i].isTemplate
    ensures now[i] == kin[i] && Preparing(kin, now[i := PrepareNode(now[i])], i + 1, false)
  {
  }

  lemma PreparingMarks(kin: seq<Tree>, now: seq<Tree>, i: nat, end: seq<Tree>)
    requires Preparing(kin, now, i, false) && i < |now| && now[i].isTemplate && |end| == |now|
    requires forall k :: 0 <= k < |now| ==> end[k] == if k > 0 then now[k].(status := Deleted) else now[k]
    ensures forall n :: n >= |now| ==> Preparing(kin, end, n, true)
  {
    assert FirstTemplate(kin) == i;
    assert end == ConfigShape.ReplacePrepare(kin);
  }

  lemma PreparingEnds(kin: seq<Tree>, now: seq<Tree>, i: nat, marked: bool)
    requires Preparing(kin, now, i, marked) && i >= |now|
    ensures now == ConfigShape.ReplacePrepare(kin)
  {
    if !marked { assert FirstTemplate(kin) == |kin|; }
  }

  ghost function Models(cs: seq<ConfigItem>): (ts: seq<Tree>)
    reads cs
    ensures |ts| == |cs| && forall i :: 0 <= i < |cs| ==> ts[i] == cs[i].model
  {
    seq(|cs|, i requires 0 <= i < |cs| reads cs => cs[i].model)
  }

  /** Separate trees below p, made of the objects in below. */
  ghost predicate Kids(cs: seq<ConfigItem>, p: ConfigItem, below: set<object>)
    reads below
    decreases below, 2
  {
    && (forall i :: 0 <= i < |cs| ==> cs[i] in below && cs[i] in cs[i].repr && cs[i].repr <= below && Kid(cs[i], p))
    && (forall i, j :: 0 <= i < j < |cs| ==> cs[i].repr !! cs[j].repr)
  }

  ghost predicate Kid(c: ConfigItem, p: ConfigItem)
    reads c, c.repr
    decreases c.repr, 1
  {
    c.parent == p && c.Valid()
  }
}
