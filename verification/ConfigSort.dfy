/** sort: siblings behind a template, and what is in them, in another order. */
module ConfigSort {
  import opened ConfigTree
  import opened ConfigMerge
  import opened ConfigByName
  import opened ConfigHidden
  import opened ConfigShape

  /** How deep the tree is. */
  function Height(ts: seq<Tree>): nat {
    if ts == [] then 0
    else
      var a, b := 1 + Height(ts[0].children), Height(ts[1..]);
      if a > b then a else b
  }

  lemma {:induction false} HeightAt(ts: seq<Tree>, h: nat)
    ensures Height(ts) <= h <==> forall i :: 0 <= i < |ts| ==> Height(ts[i].children) < h
  {
    if ts != [] {
      HeightAt(ts[1..], h);
      assert ts == [ts[0]] + ts[1..];
    }
  }

  /** One call of std::sort: everything behind the first child. */
  function Reordered(ts: seq<Tree>, f: Arrangement): (us: seq<Tree>)
    requires ts != []
    ensures |us| == |ts| && us[0] == ts[0] && multiset(us) == multiset(ts)
  {
    ReorderedIsPermuted(ts, f);
    SameSize(ts, [ts[0]] + Sorted(ts[1..], f));
    [ts[0]] + Sorted(ts[1..], f)
  }

  lemma SameSize(ts: seq<Tree>, us: seq<Tree>)
    requires multiset(us) == multiset(ts)
    ensures |us| == |ts|
  {
    assert |us| == |multiset(us)| == |multiset(ts)| == |ts|;
  }

  lemma ReorderedIsPermuted(ts: seq<Tree>, f: Arrangement)
    requires ts != []
    ensures multiset([ts[0]] + Sorted(ts[1..], f)) == multiset(ts)
  {
    assert ts == [ts[0]] + ts[1..];
    assert multiset([ts[0]] + Sorted(ts[1..], f)) == multiset([ts[0]]) + multiset(Sorted(ts[1..], f));
    assert multiset([ts[0]] + ts[1..]) == multiset([ts[0]]) + multiset(ts[1..]);
  }

  /** The siblings when the i-th child is processed: a block with a sort node has them sorted. */
  function Order(ts: seq<Tree>, i: nat, f: Arrangement): (us: seq<Tree>)
    requires i < |ts|
    ensures |us| == |ts| && multiset(us) == multiset(ts)
  {
    if ts[i].sortNode.None? then ts else Reordered(ts, f)
  }

  /** Where the i-th child may then be. */
  predicate Goes(ts: seq<Tree>, i: nat, f: Arrangement, k: nat) {
    i < |ts| && k < |ts| && Order(ts, i, f)[k] == ts[i] && (ts[i].sortNode.None? ==> k == i)
  }

  predicate Sortable(t: Tree) {
    t.kind == Block && !t.isTemplate
  }

  /** sort, from the i-th child on, makes us of a tree of at most height h: a block has its
      siblings sorted if it has a sort node, and then, wherever it has gone, what is in it. */
  ghost predicate Sorting(ts: seq<Tree>, i: nat, f: Arrangement, h: nat, us: seq<Tree>)
    decreases h, |ts| - i
  {
    if i >= |ts| then us == ts
    else if !Sortable(ts[i]) then Sorting(ts, i + 1, f, h, us)
    else
      h > 0 && exists k: nat, ds ::
        && Goes(ts, i, f, k) && Sorting(ts[i].children, 0, f, h - 1, ds)
        && Sorting(Order(ts, i, f)[k := ts[i].(children := ds)], i + 1, f, h, us)
  }

  /** One turn of the loop. */
  ghost predicate Turned(ts: seq<Tree>, i: nat, f: Arrangement, h: nat, us: seq<Tree>) {
    i < |ts| &&
    if !Sortable(ts[i]) then us == ts
    else
      h > 0 && exists k: nat, ds ::
        && Goes(ts, i, f, k) && Sorting(ts[i].children, 0, f, h - 1, ds)
        && us == Order(ts, i, f)[k := ts[i].(children := ds)]
  }

  lemma TurnThenSort(ts: seq<Tree>, i: nat, f: Arrangement, h: nat, us: seq<Tree>, vs: seq<Tree>)
    requires Turned(ts, i, f, h, us) && Sorting(us, i + 1, f, h, vs)
    ensures |us| == |ts| && Sorting(ts, i, f, h, vs)
  {
    hide Order;
  }

  // ---------------------------------------------------------------- one way to sort

  function IndexOf(ts: seq<Tree>, t: Tree): (k: nat)
    requires t in ts
    ensures k < |ts| && ts[k] == t
  {
    if ts[0] == t then 0 else 1 + IndexOf(ts[1..], t)
  }

  /** Among equal siblings the first. */
  function SortFrom(ts: seq<Tree>, i: nat, f: Arrangement, h: nat): (us: seq<Tree>)
    requires Height(ts) <= h
    ensures |us| == |ts| && Height(us) <= h
    decreases h, |ts| - i
  {
    if i >= |ts| then ts
    else
      HeightAt(ts, h);
      var t := ts[i];
      if !Sortable(t) then SortFrom(ts, i + 1, f, h)
      else
        var order, k := Order(ts, i, f), FirstPlace(ts, i, f);
        var us := order[k := t.(children := SortFrom(t.children, 0, f, h - 1))];
        Lower(ts, order, us, k, h);
        SortFrom(us, i + 1, f, h)
  }

  function FirstPlace(ts: seq<Tree>, i: nat, f: Arrangement): (k: nat)
    requires i < |ts|
    ensures Goes(ts, i, f, k)
  {
    assert ts[i] in multiset(Order(ts, i, f));
    if ts[i].sortNode.None? then i else IndexOf(Order(ts, i, f), ts[i])
  }

  lemma Lower(ts: seq<Tree>, order: seq<Tree>, us: seq<Tree>, k: nat, h: nat)
    requires Height(ts) <= h && multiset(order) == multiset(ts) && k < |order| && |us| == |order|
    requires us == order[k := us[k]] && Height(us[k].children) < h
    ensures Height(us) <= h
  {
    HeightAt(ts, h);
    forall i | 0 <= i < |us| ensures Height(us[i].children) < h {
      if i != k {
        assert order[i] in multiset(order);
        assert order[i] in multiset(ts);
      }
    }
    HeightAt(us, h);
  }

  function SortAll(ts: seq<Tree>, f: Arrangement): seq<Tree> {
    SortFrom(ts, 0, f, Height(ts))
  }

  lemma {:induction false} SortFromSorts(ts: seq<Tree>, i: nat, f: Arrangement, h: nat)
    requires Height(ts) <= h
    ensures Sorting(ts, i, f, h, SortFrom(ts, i, f, h))
    decreases h, |ts| - i
  {
    hide Order, FirstPlace, Height;
    if i < |ts| {
      HeightAt(ts, h);
      var t := ts[i];
      if Sortable(t) {
        var ds := SortFrom(t.children, 0, f, h - 1);
        var us := Order(ts, i, f)[FirstPlace(ts, i, f) := t.(children := ds)];
        Lower(ts, Order(ts, i, f), us, FirstPlace(ts, i, f), h);
        SortFromSorts(t.children, 0, f, h - 1);
        SortFromSorts(us, i + 1, f, h);
      } else {
        SortFromSorts(ts, i + 1, f, h);
      }
    }
  }

  // ---------------------------------------------------------------- what sorting keeps

  lemma ReorderedKeepsShape(ts: seq<Tree>, f: Arrangement)
    requires Sane(ts) && Dynamic(ts)
    ensures var us := Reordered(ts, f); Sane(us) && Skeleton(us) == Skeleton(ts)
  {
    hide SaneNode, MadeFrom, BoneOf;
    var us, more := [ts[0]] + Sorted(ts[1..], f), ts[1..];
    forall k | 0 <= k < |us[1..]| ensures SaneNode(us[1..][k]) && MadeFrom(ts[0], us[1..][k]) {
      var i := Arranged(Sorted(more, f), more, k);
      assert more[i] == ts[i + 1];
    }
    BehindIsSane(ts[0], us);
    assert Skeleton(us) == Skeleton(ts);
  }

  predicate ShapeKept(ts: seq<Tree>, us: seq<Tree>) {
    Sane(us) && Skeleton(us) == Skeleton(ts)
  }

  /** Up to the order of blocks behind templates. */
  predicate OrderAside(ts: seq<Tree>, us: seq<Tree>) {
    ShapeKept(ts, us) && (Unique(ts) ==> Unique(us) && InForceByName(us) == InForceByName(ts))
  }

  /** Sorting changes nothing but the order of blocks behind templates. */
  lemma {:induction false} SortKeeps(ts: seq<Tree>, i: nat, f: Arrangement, h: nat, us: seq<Tree>)
    requires Sane(ts) && Sorting(ts, i, f, h, us)
    ensures OrderAside(ts, us)
    decreases h, |ts| - i
  {
    hide Sane, Unique, OrderAside, Order;
    if i >= |ts| {
      AsideItself(ts);
    } else if !Sortable(ts[i]) {
      SortKeeps(ts, i + 1, f, h, us);
    } else {
      var k: nat, ds :| Goes(ts, i, f, k) && Sorting(ts[i].children, 0, f, h - 1, ds)
        && Sorting(Order(ts, i, f)[k := ts[i].(children := ds)], i + 1, f, h, us);
      SortInside(ts, i);
      SortKeeps(ts[i].children, 0, f, h - 1, ds);
      OrderAfter(ts, i, f, k, ds);
      var vs := Order(ts, i, f)[k := ts[i].(children := ds)];
      SortKeeps(vs, i + 1, f, h, us);
      OrderThrough(ts, vs, us);
    }
  }

  lemma SortAllKeeps(ts: seq<Tree>, f: Arrangement)
    requires Sane(ts)
    ensures Sane(SortAll(ts, f)) && Skeleton(SortAll(ts, f)) == Skeleton(ts)
    ensures Unique(ts) ==> Unique(SortAll(ts, f)) && InForceByName(SortAll(ts, f)) == InForceByName(ts)
  {
    hide Sane, Skeleton, Unique, InForceByName, Sorting;
    SortFromSorts(ts, 0, f, Height(ts));
    SortKeeps(ts, 0, f, Height(ts), SortAll(ts, f));
  }

  /** If the names of siblings are apart, there is one way to sort. */
  lemma {:induction false} OneWayToSort(ts: seq<Tree>, i: nat, f: Arrangement, h: nat, us: seq<Tree>)
    requires Sane(ts) && Unique(ts) && Height(ts) <= h && Sorting(ts, i, f, h, us)
    ensures us == SortFrom(ts, i, f, h)
    decreases h, |ts| - i
  {
    hide Sane, Unique, OrderAside, Order, FirstPlace, Height;
    if i < |ts| {
      HeightAt(ts, h);
      if !Sortable(ts[i]) {
        OneWayToSort(ts, i + 1, f, h, us);
      } else {
        var k: nat, ds :| Goes(ts, i, f, k) && Sorting(ts[i].children, 0, f, h - 1, ds)
          && Sorting(Order(ts, i, f)[k := ts[i].(children := ds)], i + 1, f, h, us);
        SortInside(ts, i);
        UniqueBelow(ts, i);
        OneWayToSort(ts[i].children, 0, f, h - 1, ds);
        OnePlace(ts, i, f, k);
        SortKeeps(ts[i].children, 0, f, h - 1, ds);
        OrderAfter(ts, i, f, k, ds);
        var vs := Order(ts, i, f)[k := ts[i].(children := ds)];
        Lower(ts, Order(ts, i, f), vs, k, h);
        AsideIsApart(ts, vs);
        OneWayToSort(vs, i + 1, f, h, us);
      }
    }
  }

  lemma OnePlace(ts: seq<Tree>, i: nat, f: Arrangement, k: nat)
    requires Sane(ts) && Unique(ts) && Goes(ts, i, f, k) && Sortable(ts[i])
    ensures k == FirstPlace(ts, i, f)
  {
    hide Sane, Unique, Order, FirstPlace, Find;
    StartKeeps(ts, i, f);
    FindIs(Order(ts, i, f), k, ts[i].name);
    FindIs(Order(ts, i, f), FirstPlace(ts, i, f), ts[i].name);
  }

  lemma AsideIsApart(ts: seq<Tree>, us: seq<Tree>)
    requires Unique(ts) && OrderAside(ts, us)
    ensures Unique(us)
  {
  }

  lemma AsideItself(ts: seq<Tree>)
    requires Sane(ts)
    ensures OrderAside(ts, ts)
  {
  }

  lemma OrderAfter(ts: seq<Tree>, i: nat, f: Arrangement, k: nat, ds: seq<Tree>)
    requires Sane(ts) && Goes(ts, i, f, k) && Sortable(ts[i]) && OrderAside(ts[i].children, ds)
    ensures var us := Order(ts, i, f)[k := ts[i].(children := ds)]; Sane(us) && OrderAside(ts, us)
  {
    hide Sane, Skeleton, SaneNode, Order, Unique, InForceByName;
    StartKeeps(ts, i, f);
    var order := Order(ts, i, f);
    ShapeBelow(order, k, ds);
    if Unique(ts) {
      UniqueBelow(ts, i);
      SortedBelow(order, k, ds);
    }
  }

  lemma OrderThrough(ts: seq<Tree>, us: seq<Tree>, vs: seq<Tree>)
    requires OrderAside(ts, us) && OrderAside(us, vs)
    ensures OrderAside(ts, vs)
  {
    hide Skeleton, Sane, Unique, InForceByName;
  }

  lemma StartKeeps(ts: seq<Tree>, i: nat, f: Arrangement)
    requires Sane(ts) && i < |ts| && Sortable(ts[i])
    ensures var us := Order(ts, i, f);
            && Sane(us) && Skeleton(us) == Skeleton(ts)
            && (Unique(ts) ==> Unique(us) && InForceByName(us) == InForceByName(ts))
  {
    hide Sane, Unique, InForceByName, Skeleton;
    if ts[i].sortNode.Some? {
      SortableIsBehind(ts, i);
      ReorderedKeepsShape(ts, f);
      if Unique(ts) { ReorderedKeepsNames(ts, f); }
    }
  }

  lemma SortableIsBehind(ts: seq<Tree>, i: nat)
    requires Sane(ts) && i < |ts| && ts[i].kind == Block && !ts[i].isTemplate && ts[i].sortNode.Some?
    ensures Dynamic(ts)
  {
    hide SaneNode;
    TargetLevel(ts, i);
  }

  lemma ReorderedKeepsNames(ts: seq<Tree>, f: Arrangement)
    requires Unique(ts) && ts != []
    ensures var us := Reordered(ts, f); Unique(us) && InForceByName(us) == InForceByName(ts)
  {
    hide Unique, InForceByName, Find;
    var us := [ts[0]] + Sorted(ts[1..], f);
    ReorderedIsPermuted(ts, f);
    UniquePermuted(ts, us);
    forall n ensures Lookup(ts, n) == Lookup(us, n) {
      FindPermuted(ts, us, n);
    }
    SameByName(ts, us);
  }

  lemma SortedBelow(ts: seq<Tree>, i: nat, us: seq<Tree>)
    requires Sane(ts) && Unique(ts) && i < |ts| && !ts[i].isTemplate
    requires Sane(us) && Unique(us) && Skeleton(us) == Skeleton(ts[i].children)
    requires InForceByName(us) == InForceByName(ts[i].children) && (ts[i].kind == Item ==> us == [])
    ensures var vs := ts[i := ts[i].(children := us)];
            Sane(vs) && Unique(vs) && Skeleton(vs) == Skeleton(ts) && InForceByName(vs) == InForceByName(ts)
  {
    hide Sane, SaneNode, Unique, InForceByName, Skeleton, BoneOf;
    var d := ts[i].(children := us);
    TargetLevel(ts, i);
    Regrown(ts[i], us);
    ReplaceKeeps(ts, i, d) by { NotNewThere(ts[i]); }
    UniqueReplaced(ts, i, d);
    if InForce(d) {
      ViewInto(ts, i, d);
      var m := InForceByName(ts);
      assert m[d.name := m[d.name]] == m;
    } else {
      forall n ensures Lookup(ts, n) == Lookup(ts[i := d], n) {
        FindReplaced(ts, i, d, n);
        if Find(ts, n) < |ts| && ts[Find(ts, n)].name == d.name { FindIs(ts, i, n); }
      }
      SameByName(ts, ts[i := d]);
    }
  }

  lemma SortInside(ts: seq<Tree>, i: nat)
    requires Sane(ts) && i < |ts|
    ensures Sane(ts[i].children)
  {
    hide SaneNode;
    TargetLevel(ts, i);
    ChildrenAreSane(ts[i]);
  }

  lemma ShapeBelow(ts: seq<Tree>, i: nat, us: seq<Tree>)
    requires Sane(ts) && i < |ts| && !ts[i].isTemplate && ts[i].kind == Block
    requires Sane(us) && Skeleton(us) == Skeleton(ts[i].children)
    ensures var vs := ts[i := ts[i].(children := us)]; Sane(vs) && Skeleton(vs) == Skeleton(ts)
  {
    hide Sane, SaneNode, Skeleton, BoneOf;
    TargetLevel(ts, i);
    Regrown(ts[i], us);
    NotNewThere(ts[i]);
    ReplaceKeeps(ts, i, ts[i].(children := us));
  }

  lemma NotNewThere(t: Tree)
    ensures Fixed(t) && t.kind == Block ==> !t.isNew && t.status != Deleted
  {
  }
}
