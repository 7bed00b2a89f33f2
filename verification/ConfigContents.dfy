/** What a successful announcing merge makes pending: everything the contents say last, and
    nothing beside it. */
module ConfigContents {
  import opened ConfigTree
  import opened ConfigMerge
  import opened ConfigByName
  import opened ConfigHidden

  /** The child of that name. */
  function At(ts: seq<Tree>, name: string): Option<Tree> {
    if Find(ts, name) < |ts| then Some(ts[Find(ts, name)]) else None
  }

  /** The name under which an entry of the contents is merged. */
  function NameFor(ts: seq<Tree>, c: Tree, r: Rules): string {
    if Dynamic(ts) && r.check(ts[0].typ, c.name).Some? then r.check(ts[0].typ, c.name).value else c.name
  }

  predicate Mentions(ts: seq<Tree>, cs: seq<Tree>, name: string, r: Rules) {
    cs != [] && (NameFor(ts, cs[0], r) == name || Mentions(ts, cs[1..], name, r))
  }

  /** All the contents say last is pending in the tree. */
  predicate Carries(ts: seq<Tree>, cs: seq<Tree>, r: Rules)
    decreases cs, 0
  {
    cs == [] ||
    ((Mentions(ts, cs[1..], NameFor(ts, cs[0], r), r) || CarriesOne(ts, cs[0], r)) && Carries(ts, cs[1..], r))
  }

  predicate CarriesOne(ts: seq<Tree>, c: Tree, r: Rules)
    decreases c, 1
  {
    var t := At(ts, NameFor(ts, c, r));
    t.Some? && CarriedBy(t.value, c, r)
  }

  predicate CarriedBy(t: Tree, c: Tree, r: Rules)
    decreases c, 0
  {
    && Stays(t)
    && (c.kind == Item ==> t.status == Modified && r.check(t.typ, c.value) == Some(t.newValue))
    && Carries(t.children, c.children, r)
  }

  // ---------------------------------------------------------------- one entry

  /** us is ts but for the child of one name. */
  ghost predicate OnlyAt(ts: seq<Tree>, us: seq<Tree>, name: string) {
    SameRule(ts, us) && forall n :: n == name || At(us, n) == At(ts, n)
  }

  /** Names are merged alike. */
  predicate SameRule(ts: seq<Tree>, us: seq<Tree>) {
    Dynamic(us) == Dynamic(ts) && (Dynamic(ts) ==> us[0].typ == ts[0].typ)
  }

  lemma OnlyAtReplaced(ts: seq<Tree>, i: nat, d: Tree)
    requires Unique(ts) && i < |ts| && !ts[i].isTemplate && d.name == ts[i].name && !d.isTemplate
    ensures OnlyAt(ts, ts[i := d], d.name) && At(ts[i := d], d.name) == Some(d)
  {
    hide Unique;
    FindIs(ts, i, d.name);
    FindReplaced(ts, i, d, d.name);
    forall n | n != d.name ensures At(ts[i := d], n) == At(ts, n) {
      FindReplaced(ts, i, d, n);
    }
  }

  lemma OnlyAtPlaced(ts: seq<Tree>, d: Tree, r: Rules)
    requires Unique(ts) && Unique(d.children) && Dynamic(ts) && !d.isTemplate && Find(ts, d.name) == |ts|
    ensures OnlyAt(ts, Placed(ts, d, r), d.name) && At(Placed(ts, d, r), d.name) == Some(d)
  {
    hide Unique, Placed, Find;
    PlacedSize(ts, d, r);
    FindPlaced(ts, d, r, d.name);
    forall n | n != d.name ensures At(Placed(ts, d, r), n) == At(ts, n) {
      FindPlaced(ts, d, r, n);
    }
  }

  /** One entry merged: its own child carries it, the others are as they were. */
  ghost predicate PutIn(ts: seq<Tree>, us: seq<Tree>, name: string, c: Tree, r: Rules) {
    OnlyAt(ts, us, name) && At(us, name).Some? && CarriedBy(At(us, name).value, c, r)
  }

  lemma {:induction false} MergePutsIn(ts: seq<Tree>, cs: seq<Tree>, r: Rules)
    requires Sane(ts) && Unique(ts) && Merge(ts, cs, true, r).ok
    ensures var us := Merge(ts, cs, true, r).children;
            && Carries(us, cs, r)
            && SameRule(ts, us)
            && forall n :: Mentions(ts, cs, n, r) || At(us, n) == At(ts, n)
    decreases cs, 0
  {
    hide Sane, Unique, MergeOne, CarriesOne, At, NameFor, PutIn;
    if cs != [] {
      var c, rest := cs[0], cs[1..];
      var us := MergeOne(ts, c, true, r).children;
      EntryPutsIn(ts, c, r);
      MergeOneKeepsShape(ts, c, true, r);
      GrowsOne(ts, c, r);
      MergePutsIn(us, rest, r);
      Accumulates(ts, us, Merge(us, rest, true, r).children, cs, r);
    }
  }

  lemma {:induction false} SameMentions(ts: seq<Tree>, us: seq<Tree>, cs: seq<Tree>, name: string, r: Rules)
    requires SameRule(ts, us)
    ensures Mentions(us, cs, name, r) == Mentions(ts, cs, name, r)
    ensures cs != [] ==> NameFor(us, cs[0], r) == NameFor(ts, cs[0], r)
  {
    if cs != [] { SameMentions(ts, us, cs[1..], name, r); }
  }

  lemma Accumulates(ts: seq<Tree>, us: seq<Tree>, vs: seq<Tree>, cs: seq<Tree>, r: Rules)
    requires cs != [] && PutIn(ts, us, NameFor(ts, cs[0], r), cs[0], r)
    requires Carries(vs, cs[1..], r) && SameRule(us, vs)
    requires forall n :: Mentions(us, cs[1..], n, r) || At(vs, n) == At(us, n)
    ensures Carries(vs, cs, r) && SameRule(ts, vs)
    ensures forall n :: Mentions(ts, cs, n, r) || At(vs, n) == At(ts, n)
  {
    hide CarriedBy, At, NameFor;
    var n0 := NameFor(ts, cs[0], r);
    forall n ensures Mentions(us, cs[1..], n, r) == Mentions(ts, cs[1..], n, r) == Mentions(vs, cs[1..], n, r) {
      SameMentions(ts, us, cs[1..], n, r);
      SameMentions(us, vs, cs[1..], n, r);
    }
    SameMentions(ts, us, cs, n0, r);
    SameMentions(us, vs, cs, n0, r);
  }

  lemma {:induction false} EntryPutsIn(ts: seq<Tree>, c: Tree, r: Rules)
    requires Sane(ts) && Unique(ts) && MergeOne(ts, c, true, r).ok
    ensures PutIn(ts, MergeOne(ts, c, true, r).children, NameFor(ts, c, r), c, r)
    decreases c, 3
  {
    hide Sane, Unique, MergeItem, MergeInto, MergeBehind, PutIn;
    var j := Target(ts, c.name);
    TargetFound(ts, c.name);
    TargetLevel(ts, j);
    if ts[j].isTemplate {
      BehindPutsIn(ts, c, r);
    } else if c.kind == Item {
      ItemPutsIn(ts, j, c, r);
    } else {
      FixedStays(ts[j]);
      IntoPutsIn(ts, j, ts[j], c, r);
    }
  }

  lemma {:induction false} BehindPutsIn(ts: seq<Tree>, c: Tree, r: Rules)
    requires Sane(ts) && Unique(ts) && Dynamic(ts) && MergeBehind(ts, ts[0], c, true, r).ok
    ensures PutIn(ts, MergeBehind(ts, ts[0], c, true, r).children, NameFor(ts, c, r), c, r)
    decreases c, 2
  {
    hide Sane, Unique, MergeInto, MergeNew, PutIn, Instantiated;
    var n := NameFor(ts, c, r);
    TargetFound(ts, n);
    var k := Named(ts, 1, n);
    if k < |ts| {
      TargetLevel(ts, k);
      IntoPutsIn(ts, k, ts[k].(status := Modified, isNew := false), c, r);
    } else {
      NewPutsIn(ts, n, c, r);
    }
  }

  lemma FixedStays(t: Tree)
    requires Fixed(t)
    ensures Stays(t)
  {
  }

  lemma {:induction false} ItemPutsIn(ts: seq<Tree>, i: nat, c: Tree, r: Rules)
    requires Sane(ts) && Unique(ts) && i < |ts| && Fixed(ts[i]) && ts[i].name == c.name && MergeItem(ts, i, c, true, r).ok
    ensures PutIn(ts, MergeItem(ts, i, c, true, r).children, c.name, c, r)
    decreases c, 2
  {
    hide Sane, Unique, MergeInto, PutIn;
    var v := r.check(ts[i].typ, c.value).value;
    IntoPutsIn(ts, i, Overwritten(ts[i], v, true), c, r);
  }

  lemma {:induction false} IntoPutsIn(ts: seq<Tree>, i: nat, d: Tree, c: Tree, r: Rules)
    requires Sane(ts) && Unique(ts) && i < |ts| && !ts[i].isTemplate && Stays(d)
    requires d == ts[i].(newValue := d.newValue, status := d.status, isNew := d.isNew)
    requires c.kind == Item ==> d.status == Modified && r.check(d.typ, c.value) == Some(d.newValue)
    requires MergeInto(ts, i, d, c, true, r).ok
    ensures PutIn(ts, MergeInto(ts, i, d, c, true, r).children, d.name, c, r)
    decreases c, 1
  {
    hide Sane, Unique, SaneNode, Merge, Carries, OnlyAt, At, CarriedBy;
    TargetLevel(ts, i);
    ChildrenAreSane(ts[i]);
    UniqueBelow(ts, i);
    MergePutsIn(d.children, c.children, r);
    var us := Merge(d.children, c.children, true, r).children;
    CarriedInto(d, us, c, r);
    OnlyAtReplaced(ts, i, d.(children := us));
  }

  lemma CarriedInto(d: Tree, us: seq<Tree>, c: Tree, r: Rules)
    requires Stays(d) && Carries(us, c.children, r)
    requires c.kind == Item ==> d.status == Modified && r.check(d.typ, c.value) == Some(d.newValue)
    ensures CarriedBy(d.(children := us), c, r)
  {
    hide Carries;
  }

  lemma {:induction false} NewPutsIn(ts: seq<Tree>, name: string, c: Tree, r: Rules)
    requires Sane(ts) && Unique(ts) && Dynamic(ts) && Find(ts, name) == |ts| && c.kind != Item
    requires MergeNew(ts, Instantiated(ts[0], name, true), c, true, r).ok
    ensures PutIn(ts, MergeNew(ts, Instantiated(ts[0], name, true), c, true, r).children, name, c, r)
    decreases c, 1
  {
    hide Sane, Unique, SaneNode, Merge, Placed, Instantiated, Carries;
    TargetLevel(ts, 0);
    ChildrenAreSane(ts[0]);
    UniqueBelow(ts, 0);
    InstantiatedIsSane(ts[0], name, true);
    var d := Instantiated(ts[0], name, true);
    MergePutsIn(d.children, c.children, r);
    Grows(d.children, c.children, r);
    var us := Merge(d.children, c.children, true, r).children;
    NewIsHidden(ts[0], name, us);
    NewStays(ts[0], name, us);
    OnlyAtPlaced(ts, d.(children := us), r);
  }

  lemma NewStays(template: Tree, name: string, us: seq<Tree>)
    ensures Stays(Instantiated(template, name, true).(children := us))
  {
  }
}
