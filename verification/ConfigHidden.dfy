/** A merge that only announces its values (set_node_state) and what is in force: it stays as
    it is exactly if no new block is listed twice. */
module ConfigHidden {
  import opened ConfigTree
  import opened ConfigMerge
  import opened ConfigByName

  type Path = seq<string>

  /** A path to a new block that stands under blocks in force. */
  predicate Fresh(ts: seq<Tree>, p: Path)
    decreases |p|
  {
    p != [] &&
    var k := Find(ts, p[0]);
    k < |ts| && if InForce(ts[k]) then |p| > 1 && Fresh(ts[k].children, p[1..]) else |p| == 1
  }

  function FindBone(bs: seq<Bone>, name: string): (j: nat)
    ensures j <= |bs| && (j < |bs| ==> bs[j].name == name)
    ensures forall i :: 0 <= i < j ==> bs[i].name != name
  {
    if bs == [] || bs[0].name == name then 0 else 1 + FindBone(bs[1..], name)
  }

  function Prefixed(name: string, ps: seq<Path>): (qs: seq<Path>)
    ensures |qs| == |ps| && forall i :: 0 <= i < |ps| ==> qs[i] == [name] + ps[i]
  {
    seq(|ps|, i requires 0 <= i < |ps| => [name] + ps[i])
  }

  /** The blocks the contents list that are not in force, each as often as it is listed; what
      such a block contains does not matter. This depends only on the shape of the tree and on
      what is in force. */
  function Listed(bs: seq<Bone>, m: map<string, Entry>, cs: seq<Tree>, r: Rules): seq<Path>
    decreases cs, 0
  {
    if cs == [] then [] else ListedOne(bs, m, cs[0], r) + Listed(bs, m, cs[1..], r)
  }

  function ListedOne(bs: seq<Bone>, m: map<string, Entry>, c: Tree, r: Rules): seq<Path>
    decreases c, 1
  {
    if bs != [] && bs[0].isTemplate then
      match r.check(bs[0].typ, c.name)
      case None => []
      case Some(n) =>
        if c.kind != Block then []
        else if n in m then Prefixed(n, Listed(bs[0].children, m[n].below, c.children, r))
        else [[n]]
    else
      var j := FindBone(bs, c.name);
      if j < |bs| && c.name in m then Prefixed(c.name, Listed(bs[j].children, m[c.name].below, c.children, r)) else []
  }

  function NewIn(ts: seq<Tree>, cs: seq<Tree>, r: Rules): seq<Path> {
    Listed(Skeleton(ts), InForceByName(ts), cs, r)
  }

  function NewInOne(ts: seq<Tree>, c: Tree, r: Rules): seq<Path> {
    ListedOne(Skeleton(ts), InForceByName(ts), c, r)
  }

  ghost predicate NoneTwice(ps: seq<Path>) {
    forall i, j :: 0 <= i < j < |ps| ==> ps[i] != ps[j]
  }

  /** No block is listed twice, and none that is there already without being in force. */
  ghost predicate OnlyNew(ts: seq<Tree>, ps: seq<Path>) {
    NoneTwice(ps) && forall p :: p in ps ==> !Fresh(ts, p)
  }

  lemma OnlyNewParts(ts: seq<Tree>, ps: seq<Path>, qs: seq<Path>)
    ensures OnlyNew(ts, ps + qs) ==> OnlyNew(ts, ps) && OnlyNew(ts, qs) && forall p :: p in ps ==> p !in qs
    ensures OnlyNew(ts, ps) && OnlyNew(ts, qs) && (forall p :: p in ps ==> p !in qs) ==> OnlyNew(ts, ps + qs)
  {
    var both := ps + qs;
    if OnlyNew(ts, both) {
      assert forall i :: 0 <= i < |ps| ==> both[i] == ps[i];
      assert forall j :: 0 <= j < |qs| ==> both[|ps| + j] == qs[j];
      forall p | p in ps ensures p !in qs {
        var i :| 0 <= i < |ps| && ps[i] == p;
        forall j | 0 <= j < |qs| ensures qs[j] != p {
          assert both[i] != both[|ps| + j];
        }
      }
      assert forall p :: p in ps || p in qs ==> p in both;
    }
    if OnlyNew(ts, ps) && OnlyNew(ts, qs) && forall p :: p in ps ==> p !in qs {
      forall i, j | 0 <= i < j < |both| ensures both[i] != both[j] {
        if i < |ps| <= j {
          assert both[i] in ps && both[j] == qs[j - |ps|];
        }
      }
    }
  }

  lemma OnlyNewPrefixed(ts: seq<Tree>, k: nat, name: string, ps: seq<Path>)
    requires Unique(ts) && k < |ts| && !ts[k].isTemplate && ts[k].name == name && InForce(ts[k])
    ensures OnlyNew(ts, Prefixed(name, ps)) <==> OnlyNew(ts[k].children, ps)
  {
    FindIs(ts, k, name);
    var qs := Prefixed(name, ps);
    forall i | 0 <= i < |ps| ensures qs[i][1..] == ps[i] && qs[i][0] == name && (Fresh(ts, qs[i]) <==> Fresh(ts[k].children, ps[i]))
    {
      FreshBelow(ts, k, ps[i]);
    }
    if OnlyNew(ts, qs) {
      forall i, j | 0 <= i < j < |ps| ensures ps[i] != ps[j] {
        assert qs[i] != qs[j];
      }
      forall p | p in ps ensures !Fresh(ts[k].children, p) {
        var i :| 0 <= i < |ps| && ps[i] == p;
        assert qs[i] in qs;
      }
    }
    if OnlyNew(ts[k].children, ps) {
      forall i, j | 0 <= i < j < |qs| ensures qs[i] != qs[j] {
        assert ps[i] != ps[j];
      }
    }
  }

  lemma FreshBelow(ts: seq<Tree>, k: nat, p: Path)
    requires Unique(ts) && k < |ts| && !ts[k].isTemplate && InForce(ts[k])
    ensures Fresh(ts, [ts[k].name] + p) <==> Fresh(ts[k].children, p)
  {
    FindIs(ts, k, ts[k].name);
    var q := [ts[k].name] + p;
    assert q[0] == ts[k].name && q[1..] == p;
    if p == [] { assert |q| == 1; }
  }

  // ---------------------------------------------------------------- the shape, by name

  /** Where the merge finds the child a content name belongs to. */
  lemma TargetFound(ts: seq<Tree>, name: string)
    requires Sane(ts)
    ensures Dynamic(ts) ==> Target(ts, name) == 0 && Named(ts, 1, name) == Find(ts, name)
    ensures !Dynamic(ts) ==> Target(ts, name) == Find(ts, name) && FindBone(Skeleton(ts), name) == Find(ts, name)
    ensures !Dynamic(ts) && Find(ts, name) < |ts| ==> InForce(ts[Find(ts, name)])
  {
    hide SaneNode, Skeleton, Target, Named, FindBone, Find;
    if Dynamic(ts) { FoundBehind(ts, name); } else { FoundFixed(ts, name); }
  }

  lemma FoundBehind(ts: seq<Tree>, name: string)
    requires Sane(ts) && Dynamic(ts)
    ensures Target(ts, name) == 0 && Named(ts, 1, name) == Find(ts, name)
  {
    hide SaneNode, Skeleton, Named, FindBone, Find;
    assert forall i :: 1 <= i < |ts| ==> MadeFrom(ts[0], ts[i]);
    var j, k := Named(ts, 1, name), Find(ts, name);
    assert k > 0;
  }

  lemma FoundFixed(ts: seq<Tree>, name: string)
    requires Sane(ts) && !Dynamic(ts)
    ensures Target(ts, name) == Find(ts, name) && FindBone(Skeleton(ts), name) == Find(ts, name)
    ensures Find(ts, name) < |ts| ==> InForce(ts[Find(ts, name)])
  {
    hide SaneNode, Target, FindBone, Find;
    var bs := Skeleton(ts);
    assert |bs| == |ts| && forall i :: 0 <= i < |ts| ==> Fixed(ts[i]) && bs[i].name == ts[i].name;
    hide Skeleton;
    var j, k, l := Target(ts, name), Find(ts, name), FindBone(bs, name);
  }

  lemma BoneAt(ts: seq<Tree>, i: nat)
    requires Sane(ts) && i < |ts|
    ensures Skeleton(ts) != [] && Skeleton(ts)[0].isTemplate == Dynamic(ts)
    ensures Dynamic(ts) ==> Skeleton(ts)[0].typ == ts[0].typ && Skeleton(ts)[0].children == Skeleton(ts[i].children)
    ensures !Dynamic(ts) ==> |Skeleton(ts)| == |ts| && Skeleton(ts)[i].children == Skeleton(ts[i].children)
  {
    hide SaneNode;
    if Dynamic(ts) && i > 0 { assert MadeFrom(ts[0], ts[i]); }
  }

  // ---------------------------------------------------------------- what one step does to the view

  /** The view of a tree in which one child was merged into. */
  lemma ViewInto(ts: seq<Tree>, i: nat, d: Tree)
    requires Unique(ts) && Unique(d.children) && i < |ts| && !ts[i].isTemplate && InForce(d) && d.name == ts[i].name
    ensures Unique(ts[i := d])
    ensures InForceByName(ts[i := d]) ==
            InForceByName(ts)[d.name := Entry(d.typ, d.kind, if d.kind == Item then d.value else "", InForceByName(d.children))]
    ensures InForce(ts[i]) ==> d.name in InForceByName(ts)
    ensures var t := ts[i]; InForce(t) ==>
              InForceByName(ts)[d.name] == Entry(t.typ, t.kind, if t.kind == Item then t.value else "", InForceByName(t.children))
    ensures !InForce(ts[i]) ==> d.name !in InForceByName(ts)
  {
    hide Unique, InForceByName, CommittedNode, EntryOf;
    UniqueReplaced(ts, i, d);
    ReplacedByName(ts, i, d);
    EntryIs(d);
    EntryIs(ts[i]);
    FindIs(ts, i, d.name);
    ByNameAt(ts, d.name);
  }

  lemma ViewPlaced(ts: seq<Tree>, d: Tree, r: Rules)
    requires Unique(ts) && Unique(d.children) && ts != []
    requires !d.isTemplate && !InForce(d) && Find(ts, d.name) == |ts|
    ensures Unique(Placed(ts, d, r)) && InForceByName(Placed(ts, d, r)) == InForceByName(ts)
  {
    hide Unique, InForceByName, Lookup, Placed, Find;
    FindPlaced(ts, d, r, d.name);
    forall n ensures Lookup(ts, n) == Lookup(Placed(ts, d, r), n) {
      LookupPlaced(ts, d, r, n);
    }
    SameByName(ts, Placed(ts, d, r));
  }

  lemma LookupPlaced(ts: seq<Tree>, d: Tree, r: Rules, name: string)
    requires Unique(ts) && Unique(d.children) && ts != []
    requires !d.isTemplate && !InForce(d) && Find(ts, d.name) == |ts|
    ensures Lookup(ts, name) == Lookup(Placed(ts, d, r), name)
  {
    hide Unique, CommittedNode, EntryOf, Placed;
    FindPlaced(ts, d, r, name);
  }

  // ---------------------------------------------------------------- nothing is taken away

  /** All of m is in w, with the same values. */
  ghost predicate Within(m: map<string, Entry>, w: map<string, Entry>) {
    forall n :: n in m ==> n in w && WithinEntry(m[n], w[n])
  }

  ghost predicate WithinEntry(e: Entry, f: Entry) {
    f == e.(below := f.below) && forall n :: n in e.below ==> n in f.below && WithinEntry(e.below[n], f.below[n])
  }

  lemma {:induction false} EntryWithinItself(e: Entry)
    ensures WithinEntry(e, e)
  {
    forall n | n in e.below ensures WithinEntry(e.below[n], e.below[n]) {
      EntryWithinItself(e.below[n]);
    }
  }

  lemma WithinItself(m: map<string, Entry>)
    ensures Within(m, m)
  {
    forall n | n in m ensures WithinEntry(m[n], m[n]) {
      EntryWithinItself(m[n]);
    }
  }

  lemma {:induction false} EntriesWithinBoth(e: Entry, f: Entry)
    requires WithinEntry(e, f) && WithinEntry(f, e)
    ensures e == f
  {
    forall n | n in e.below ensures e.below[n] == f.below[n] {
      EntriesWithinBoth(e.below[n], f.below[n]);
    }
    assert e.below.Keys == f.below.Keys;
    assert e.below == f.below;
  }

  lemma WithinBoth(a: map<string, Entry>, b: map<string, Entry>)
    requires Within(a, b) && Within(b, a)
    ensures a == b
  {
    forall n | n in a ensures a[n] == b[n] {
      EntriesWithinBoth(a[n], b[n]);
    }
    assert a.Keys == b.Keys;
  }

  lemma {:induction false} EntryWithinThrough(e: Entry, f: Entry, g: Entry)
    requires WithinEntry(e, f) && WithinEntry(f, g)
    ensures WithinEntry(e, g)
  {
    forall n | n in e.below ensures n in g.below && WithinEntry(e.below[n], g.below[n]) {
      EntryWithinThrough(e.below[n], f.below[n], g.below[n]);
    }
  }

  lemma WithinThrough(a: map<string, Entry>, b: map<string, Entry>, c: map<string, Entry>)
    requires Within(a, b) && Within(b, c)
    ensures Within(a, c)
  {
    forall n | n in a ensures n in c && WithinEntry(a[n], c[n]) {
      EntryWithinThrough(a[n], b[n], c[n]);
    }
  }

  /** What has grown has not shrunk back. */
  lemma GrownStays(a: map<string, Entry>, b: map<string, Entry>, c: map<string, Entry>)
    requires Within(a, b) && Within(b, c) && a != b
    ensures a != c
  {
    if a == c { WithinBoth(a, b); }
  }

  /** An announcing merge never takes anything out of force, whether it succeeds or not. */
  lemma {:induction false} Grows(ts: seq<Tree>, cs: seq<Tree>, r: Rules)
    requires Sane(ts) && Unique(ts)
    ensures var us := Merge(ts, cs, true, r).children; Unique(us) && Within(InForceByName(ts), InForceByName(us))
    decreases cs, 0
  {
    hide Sane, Unique, InForceByName, MergeOne, Within;
    if cs == [] {
      WithinItself(InForceByName(ts));
    } else {
      GrowsOne(ts, cs[0], r);
      var m := MergeOne(ts, cs[0], true, r);
      if m.ok {
        MergeOneKeepsShape(ts, cs[0], true, r);
        Grows(m.children, cs[1..], r);
        WithinThrough(InForceByName(ts), InForceByName(m.children), InForceByName(Merge(m.children, cs[1..], true, r).children));
      }
    }
  }

  lemma {:induction false} GrowsOne(ts: seq<Tree>, c: Tree, r: Rules)
    requires Sane(ts) && Unique(ts)
    ensures var us := MergeOne(ts, c, true, r).children; Unique(us) && Within(InForceByName(ts), InForceByName(us))
    decreases c, 2
  {
    hide Sane, Unique, InForceByName, MergeItem, MergeInto, MergeNew, Instantiated, Within;
    WithinItself(InForceByName(ts));
    TargetFound(ts, c.name);
    var j := Target(ts, c.name);
    if j == |ts| { return; }
    TargetLevel(ts, j);
    if ts[j].isTemplate {
      BehindGrows(ts, c, r);
    } else if c.kind == Item {
      ItemGrows(ts, j, c, r);
    } else {
      IntoGrows(ts, j, ts[j], c, r);
    }
  }

  lemma {:induction false} ItemGrows(ts: seq<Tree>, i: nat, c: Tree, r: Rules)
    requires Sane(ts) && Unique(ts) && i < |ts| && InForce(ts[i])
    ensures var us := MergeItem(ts, i, c, true, r).children; Unique(us) && Within(InForceByName(ts), InForceByName(us))
    decreases c, 1
  {
    hide Sane, Unique, InForceByName, MergeInto, Within;
    WithinItself(InForceByName(ts));
    var v := r.check(ts[i].typ, c.value);
    if v.Some? {
      IntoGrows(ts, i, Overwritten(ts[i], v.value, true), c, r);
    }
  }

  lemma {:induction false} IntoGrows(ts: seq<Tree>, i: nat, d: Tree, c: Tree, r: Rules)
    requires Sane(ts) && Unique(ts) && i < |ts| && !ts[i].isTemplate && InForce(d)
    requires d == ts[i].(newValue := d.newValue, status := d.status, isNew := d.isNew)
    ensures var us := MergeInto(ts, i, d, c, true, r).children; Unique(us) && Within(InForceByName(ts), InForceByName(us))
    decreases c, 0
  {
    hide Sane, Unique, InForceByName, Merge, SaneNode;
    TargetLevel(ts, i);
    ChildrenAreSane(ts[i]);
    UniqueBelow(ts, i);
    Grows(d.children, c.children, r);
    GrownInto(ts, i, d.(children := Merge(d.children, c.children, true, r).children));
  }

  lemma UniqueBelow(ts: seq<Tree>, i: nat)
    requires Unique(ts) && i < |ts|
    ensures Unique(ts[i].children)
  {
  }

  lemma GrownInto(ts: seq<Tree>, i: nat, d: Tree)
    requires Unique(ts) && Unique(d.children) && i < |ts| && !ts[i].isTemplate && InForce(d)
    requires d == ts[i].(newValue := d.newValue, status := d.status, isNew := d.isNew, children := d.children)
    requires Within(InForceByName(ts[i].children), InForceByName(d.children))
    ensures Unique(ts[i := d]) && Within(InForceByName(ts), InForceByName(ts[i := d]))
  {
    hide Unique, InForceByName;
    ViewInto(ts, i, d);
    WithinItself(InForceByName(ts));
  }

  lemma {:induction false} BehindGrows(ts: seq<Tree>, c: Tree, r: Rules)
    requires Sane(ts) && Unique(ts) && Dynamic(ts)
    ensures var us := MergeBehind(ts, ts[0], c, true, r).children; Unique(us) && Within(InForceByName(ts), InForceByName(us))
    decreases c, 1
  {
    hide Sane, Unique, InForceByName, MergeInto, MergeNew, Instantiated, Within;
    WithinItself(InForceByName(ts));
    var name := r.check(ts[0].typ, c.name);
    if c.kind != Block || name.None? { return; }
    TargetFound(ts, name.value);
    var k := Named(ts, 1, name.value);
    if k < |ts| {
      IntoGrows(ts, k, ts[k].(status := Modified, isNew := false), c, r);
    } else {
      NewGrows(ts, name.value, c, r);
    }
  }

  lemma {:induction false} NewGrows(ts: seq<Tree>, name: string, c: Tree, r: Rules)
    requires Sane(ts) && Unique(ts) && Dynamic(ts) && Find(ts, name) == |ts|
    ensures var us := MergeNew(ts, Instantiated(ts[0], name, true), c, true, r).children;
            Unique(us) && InForceByName(us) == InForceByName(ts)
    decreases c, 0
  {
    hide Sane, Unique, InForceByName, Merge, Placed, Instantiated, InForce;
    TargetLevel(ts, 0);
    ChildrenAreSane(ts[0]);
    UniqueBelow(ts, 0);
    InstantiatedIsSane(ts[0], name, true);
    var d := Instantiated(ts[0], name, true);
    Grows(d.children, c.children, r);
    var m := Merge(d.children, c.children, true, r);
    if m.ok {
      NewIsHidden(ts[0], name, m.children);
      ViewPlaced(ts, d.(children := m.children), r);
    }
  }

  lemma NewIsHidden(template: Tree, name: string, us: seq<Tree>)
    ensures var d := Instantiated(template, name, true).(children := us); !InForce(d) && !d.isTemplate && d.name == name
  {
  }
}
