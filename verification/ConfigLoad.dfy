/** Loading saved contents into a fresh definition puts in force what was in force when they
    were saved. */
module ConfigLoad {
  import opened ConfigTree
  import opened ConfigMerge
  import opened ConfigByName
  import opened ConfigHidden
  import opened ConfigValidate
  import opened ConfigSave

  // ---------------------------------------------------------------- what survives

  /** A value or a list in force: what makes a block made from a template worth saving. */
  predicate Worth(t: Tree) {
    !t.isTemplate && match t.kind
                     case Block => !t.isNew && (t.isEmpty || SomeWorth(t.children))
                     case Item => t.value != ""
                     case OtherKind => false
  }

  predicate SomeWorth(ts: seq<Tree>) {
    if ts == [] then false else Worth(ts[0]) || SomeWorth(ts[1..])
  }

  /** The tree without the blocks behind templates that are worth nothing. */
  function Trim(ts: seq<Tree>): (us: seq<Tree>)
    ensures Dynamic(us) == Dynamic(ts)
    decreases ts, 1
  {
    if Dynamic(ts) then [ts[0]] + TrimBehind(ts[1..])
    else seq(|ts|, i requires 0 <= i < |ts| => TrimNode(ts[i]))
  }

  function TrimNode(t: Tree): Tree
    decreases t, 2
  {
    t.(children := Trim(t.children))
  }

  function TrimBehind(ts: seq<Tree>): seq<Tree>
    decreases ts, 0
  {
    if ts == [] then [] else (if Worth(ts[0]) then [TrimNode(ts[0])] else []) + TrimBehind(ts[1..])
  }

  /** A definition without any values or blocks made from templates. */
  predicate Emptied(ds: seq<Tree>) {
    && (Dynamic(ds) ==> |ds| == 1)
    && forall i :: 0 <= i < |ds| ==> EmptiedNode(ds[i])
  }

  predicate EmptiedNode(d: Tree) {
    d.value == "" && d.newValue == "" && d.status == Ready && !d.isNew && Emptied(d.children)
  }

  /** Every value is valid for its type and every block's name for its template, both as they
      are; blocks made from templates have no type of their own; what is below a template is
      not saved. */
  predicate Storable(ts: seq<Tree>, r: Rules) {
    && (forall i :: 0 <= i < |ts| ==> ts[i].isTemplate || StorableNode(ts[i], r))
    && (Dynamic(ts) ==> forall i :: 1 <= i < |ts| ==>
          r.check(ts[0].typ, ts[i].name) == Some(ts[i].name) && ts[i].typ == "")
  }

  predicate StorableNode(t: Tree, r: Rules) {
    (t.kind == Item && t.value != "" ==> r.check(t.typ, t.value) == Some(t.value)) && Storable(t.children, r)
  }

  /** No item in force is about to lose its value without being deleted: of such an item
      nothing is printed. */
  predicate Shown(ts: seq<Tree>) {
    forall i :: 0 <= i < |ts| ==> ShownNode(ts[i])
  }

  predicate ShownNode(t: Tree) {
    InForce(t) ==>
      (t.kind == Item && t.value != "" ==> t.newValue != "" || t.status == Deleted) && Shown(t.children)
  }

  /** What a reader sees of a node. */
  function Seen(t: Tree): Entry {
    EntryOf(CommittedNode(t))
  }

  lemma SeenIs(t: Tree)
    ensures Seen(t) == Entry(t.typ, t.kind, if t.kind == Item then t.value else "", InForceByName(t.children))
  {
    EntryIs(t);
  }

  // ---------------------------------------------------------------- one level

  /** What loading the contents of one level comes to. */
  ghost predicate LoadedAs(m: Merged, ts: seq<Tree>) {
    m.ok && Unique(m.children) && InForceByName(m.children) == InForceByName(Trim(ts))
  }

  /** ds is a fresh definition of the shape of ts. */
  ghost predicate FreshFor(ds: seq<Tree>, ts: seq<Tree>, r: Rules) {
    && Sane(ds) && Unique(ds) && Emptied(ds)
    && Sane(ts) && Unique(ts) && Storable(ts, r) && Skeleton(ds) == Skeleton(ts)
  }

  /** And everything in force is printed. */
  ghost predicate ShownFor(ds: seq<Tree>, ts: seq<Tree>, r: Rules) {
    FreshFor(ds, ts, r) && Shown(ts)
  }

  /** Then what is worth saving is what is saved. */
  lemma {:induction false} WorthIsSaved(t: Tree)
    requires ShownNode(t)
    ensures Worth(t) <==> SavedNode(t, true) != []
    decreases t, 1
  {
    if InForce(t) { SomeWorthIsSaved(t.children); }
  }

  lemma {:induction false} SomeWorthIsSaved(ts: seq<Tree>)
    requires Shown(ts)
    ensures SomeWorth(ts) <==> Saved(ts, true) != []
    decreases ts, 0
  {
    hide Worth, SavedNode, ShownNode;
    if ts != [] {
      WorthIsSaved(ts[0]);
      SomeWorthIsSaved(ts[1..]);
    }
  }

  lemma {:induction false} Loads(ds: seq<Tree>, ts: seq<Tree>, r: Rules)
    requires ShownFor(ds, ts, r)
    ensures LoadedAs(Merge(ds, Saved(ts, true), false, r), ts)
    decreases ts, 2, 0
  {
    assert ts[0..] == ts;
    SameLevel(ds, ts);
    if Dynamic(ts) {
      BehindStarts(ds, ts, r);
      assert Saved(ts, true) == Saved(ts[1..], true);
      LoadsBehind(ds, ds, ts, 1, r);
    } else {
      LoadsFixed(ds, ds, ts, 0, r);
    }
  }

  lemma SavedFrom(ts: seq<Tree>, k: nat)
    requires k < |ts|
    ensures Saved(ts[k..], true) == SavedNode(ts[k], true) + Saved(ts[k + 1..], true)
  {
    assert ts[k..][0] == ts[k] && ts[k..][1..] == ts[k + 1..];
  }

  lemma MergeFirst(us: seq<Tree>, c: Tree, cs: seq<Tree>, r: Rules)
    requires MergeOne(us, c, false, r).ok
    ensures Merge(us, [c] + cs, false, r) == Merge(MergeOne(us, c, false, r).children, cs, false, r)
  {
    assert ([c] + cs)[1..] == cs;
  }

  // ---------------------------------------------------------------- where everything is fixed

  /** The first k children are loaded, the others fresh. */
  ghost predicate PartLoaded(us: seq<Tree>, ds: seq<Tree>, ts: seq<Tree>, k: nat) {
    && |us| == |ds| == |ts| && k <= |ts| && Unique(us) && Sane(us) && Skeleton(us) == Skeleton(ds)
    && (forall i :: k <= i < |ts| ==> us[i] == ds[i])
    && (forall i :: 0 <= i < k ==> Seen(us[i]) == Seen(TrimNode(ts[i])))
  }

  lemma {:induction false} LoadsFixed(us: seq<Tree>, ds: seq<Tree>, ts: seq<Tree>, k: nat, r: Rules)
    requires ShownFor(ds, ts, r) && !Dynamic(ts) && k <= |ts| && PartLoaded(us, ds, ts, k)
    ensures LoadedAs(Merge(us, Saved(ts[k..], true), false, r), ts)
    decreases ts, 1, |ts| - k
  {
    hide ShownFor, PartLoaded, LoadedAs, MergeOne, SavedNode;
    if k == |ts| {
      FixedLoaded(us, ds, ts, r);
    } else {
      SavedFrom(ts, k);
      var cs := SavedNode(ts[k], true);
      if cs == [] {
        NotLoaded(us, ds, ts, k, r);
        assert cs + Saved(ts[k + 1..], true) == Saved(ts[k + 1..], true);
        LoadsFixed(us, ds, ts, k + 1, r);
      } else {
        OneLoaded(us, ds, ts, k, r);
        MergeFirst(us, cs[0], Saved(ts[k + 1..], true), r);
        assert cs == [cs[0]];
        LoadsFixed(MergeOne(us, cs[0], false, r).children, ds, ts, k + 1, r);
      }
    }
  }

  /** Where nothing is made from a template, children of one shape are alike. */
  lemma AlikeAt(ds: seq<Tree>, ts: seq<Tree>, k: nat)
    requires Sane(ds) && Sane(ts) && Skeleton(ds) == Skeleton(ts) && !Dynamic(ts) && k < |ts|
    ensures |ds| == |ts| && BoneOf(ds[k]) == BoneOf(ts[k]) && Fixed(ds[k]) && Fixed(ts[k]) && !Dynamic(ds)
    ensures ds[k].name == ts[k].name && ds[k].typ == ts[k].typ && ds[k].kind == ts[k].kind
    ensures Skeleton(ds[k].children) == Skeleton(ts[k].children)
    ensures SaneNode(ds[k]) && SaneNode(ts[k])
  {
    hide SaneNode;
    SameLevel(ds, ts);
    SameBones(ds[k], ts[k]);
    TargetLevel(ds, k);
    TargetLevel(ts, k);
  }

  lemma ChildConditions(ds: seq<Tree>, ts: seq<Tree>, k: nat, r: Rules)
    requires ShownFor(ds, ts, r) && k < |ts| && k < |ds| && !ts[k].isTemplate
    ensures EmptiedNode(ds[k]) && StorableNode(ts[k], r) && ShownNode(ts[k])
    ensures Unique(ds[k].children) && Unique(ts[k].children)
  {
    hide Sane, Skeleton, EmptiedNode, StorableNode, ShownNode;
  }

  lemma FreshInside(ds: seq<Tree>, ts: seq<Tree>, k: nat, r: Rules)
    requires ShownFor(ds, ts, r) && !Dynamic(ts) && k < |ts| && k < |ds|
    ensures ShownFor(ds[k].children, ts[k].children, r)
    ensures EmptiedNode(ds[k]) && StorableNode(ts[k], r) && ShownNode(ts[k])
    ensures ts[k].kind == Item ==> ds[k].children == [] && ts[k].children == []
  {
    hide SaneNode, Sane, Skeleton, Emptied, Storable, Unique;
    AlikeAt(ds, ts, k);
    ChildConditions(ds, ts, k, r);
    ChildrenAreSane(ds[k]);
    ChildrenAreSane(ts[k]);
    assert Emptied(ds[k].children) && Storable(ts[k].children, r) && Shown(ts[k].children);
  }

  lemma {:induction false} NotLoaded(us: seq<Tree>, ds: seq<Tree>, ts: seq<Tree>, k: nat, r: Rules)
    requires ShownFor(ds, ts, r) && !Dynamic(ts) && PartLoaded(us, ds, ts, k) && k < |ts| && SavedNode(ts[k], true) == []
    ensures PartLoaded(us, ds, ts, k + 1)
    decreases ts, 0, 1
  {
    AlikeAt(ds, ts, k);
    FreshInside(ds, ts, k, r);
    if ts[k].kind == Block { Loads(ds[k].children, ts[k].children, r); }
    BlankSeen(ds[k], ts[k], r);
    hide ShownFor, Sane, Unique, Skeleton, Seen;
    assert us[k] == ds[k];
  }

  /** A node of which nothing is saved reads as the fresh definition does. */
  lemma BlankSeen(d: Tree, t: Tree, r: Rules)
    requires EmptiedNode(d) && ShownNode(t) && Fixed(t) && d.typ == t.typ && d.kind == t.kind && SaneNode(t)
    requires SavedNode(t, true) == []
    requires t.kind == Item ==> d.children == [] && t.children == []
    requires t.kind == Block ==> LoadedAs(Merge(d.children, Saved(t.children, true), false, r), t.children)
    ensures Seen(d) == Seen(TrimNode(t))
  {
    hide Sane, Unique, Skeleton, Emptied, Shown;
    SeenIs(d);
    SeenIs(TrimNode(t));
    if t.kind == Item { assert Trim([]) == []; }
  }

  lemma {:induction false} OneLoaded(us: seq<Tree>, ds: seq<Tree>, ts: seq<Tree>, k: nat, r: Rules)
    requires ShownFor(ds, ts, r) && !Dynamic(ts) && PartLoaded(us, ds, ts, k) && k < |ts| && SavedNode(ts[k], true) != []
    ensures var m := MergeOne(us, SavedNode(ts[k], true)[0], false, r); m.ok && PartLoaded(m.children, ds, ts, k + 1)
    decreases ts, 0, 1
  {
    hide Sane, SaneNode, Unique, Skeleton, MergeInto, Seen, BoneOf;
    var c := SavedNode(ts[k], true)[0];
    AlikeAt(ds, ts, k);
    FreshInside(ds, ts, k, r);
    MergeOneKeepsShape(us, c, false, r);
    ReachesFixed(us, ds, ts, k, c, r);
    if ts[k].kind == Block { Loads(ds[k].children, ts[k].children, r); }
    var e := LoadedNode(ds[k], c, r);
    SeenLoaded(ds[k], ts[k], c, r);
    assert MergeOne(us, c, false, r) == Merged(us[k := e], true);
    UniqueReplaced(us, k, e);
  }

  /** What a node of a fresh definition becomes. */
  function LoadedNode(d: Tree, c: Tree, r: Rules): Tree {
    var e := if c.kind == Item then Overwritten(d, c.value, false) else d;
    e.(children := Merge(d.children, c.children, false, r).children)
  }

  /** The merge finds the child the contents came from. */
  lemma ReachesFixed(us: seq<Tree>, ds: seq<Tree>, ts: seq<Tree>, k: nat, c: Tree, r: Rules)
    requires ShownFor(ds, ts, r) && !Dynamic(ts) && PartLoaded(us, ds, ts, k) && k < |ts| && SavedNode(ts[k], true) == [c]
    ensures MergeOne(us, c, false, r) ==
            Merged(us[k := LoadedNode(ds[k], c, r)], Merge(ds[k].children, c.children, false, r).ok)
  {
    hide SaneNode, Sane, Unique, Skeleton, Merge, BoneOf, MergeItem, MergeInto, LoadedNode, MergeBehind;
    AlikeAt(ds, ts, k);
    FreshInside(ds, ts, k, r);
    SameLevel(us, ds);
    FindIs(us, k, c.name);
    TargetFound(us, c.name);
    TargetLevel(us, k);
    IntoLoaded(us, k, c, r);
  }

  lemma IntoLoaded(us: seq<Tree>, k: nat, c: Tree, r: Rules)
    requires k < |us| && (c.kind == Item ==> r.check(us[k].typ, c.value) == Some(c.value))
    ensures (if c.kind == Item then MergeItem(us, k, c, false, r) else MergeInto(us, k, us[k], c, false, r)) ==
            Merged(us[k := LoadedNode(us[k], c, r)], Merge(us[k].children, c.children, false, r).ok)
  {
    hide Merge;
  }

  lemma SeenLoaded(d: Tree, t: Tree, c: Tree, r: Rules)
    requires EmptiedNode(d) && StorableNode(t, r) && Fixed(t) && d.typ == t.typ && d.kind == t.kind && d.name == t.name
    requires SavedNode(t, true) == [c] && SaneNode(t) && !d.isTemplate
    requires t.kind == Item ==> d.children == [] && t.children == []
    requires t.kind == Block ==> LoadedAs(Merge(d.children, Saved(t.children, true), false, r), t.children)
    ensures var e := LoadedNode(d, c, r); Seen(e) == Seen(TrimNode(t)) && e.name == d.name && !e.isTemplate
    ensures Unique(LoadedNode(d, c, r).children) && Merge(d.children, c.children, false, r).ok
  {
    hide Sane, Skeleton, Emptied, Storable;
    var e := LoadedNode(d, c, r);
    SeenIs(e);
    SeenIs(TrimNode(t));
    if t.kind == Item { assert Trim([]) == []; }
  }

  lemma FixedLoaded(us: seq<Tree>, ds: seq<Tree>, ts: seq<Tree>, r: Rules)
    requires ShownFor(ds, ts, r) && !Dynamic(ts) && PartLoaded(us, ds, ts, |ts|)
    ensures LoadedAs(Merge(us, Saved(ts[|ts|..], true), false, r), ts)
  {
    hide Sane, SaneNode, Unique, Skeleton, Seen, BoneOf, InForceByName;
    var vs := Trim(ts);
    UniqueTrim(ts);
    SameLevel(us, ds);
    forall i | 0 <= i < |ts| ensures us[i].name == vs[i].name && !us[i].isTemplate && !vs[i].isTemplate
      ensures InForce(us[i]) && InForce(vs[i]) && Seen(us[i]) == Seen(vs[i])
    {
      AlikeAt(us, ts, i);
    }
    forall n ensures Lookup(us, n) == Lookup(vs, n) {
      SameFindAt(us, vs, n);
    }
    SameByName(us, vs);
  }

  lemma SameFindAt(us: seq<Tree>, vs: seq<Tree>, n: string)
    requires |us| == |vs|
    requires forall i :: 0 <= i < |us| ==> us[i].name == vs[i].name && !us[i].isTemplate && !vs[i].isTemplate
    requires forall i :: 0 <= i < |us| ==> InForce(us[i]) && InForce(vs[i]) && Seen(us[i]) == Seen(vs[i])
    ensures Lookup(us, n) == Lookup(vs, n)
  {
    hide EntryOf, CommittedNode;
    var j, k := Find(us, n), Find(vs, n);
    assert j == k;
    if j < |us| { assert Seen(us[j]) == Seen(vs[j]); }
  }

  // ---------------------------------------------------------------- trimming keeps names apart

  lemma {:induction false} UniqueTrim(ts: seq<Tree>)
    requires Unique(ts)
    ensures Unique(Trim(ts))
    decreases ts, 1
  {
    if Dynamic(ts) {
      UniqueRest(ts);
      UniqueTrimBehind(ts[1..]);
      UniqueTrim(ts[0].children);
      assert Trim(ts)[1..] == TrimBehind(ts[1..]);
      TemplateFirst(ts[0], TrimBehind(ts[1..]));
    } else {
      forall i | 0 <= i < |ts| ensures Unique(Trim(ts)[i].children) {
        UniqueTrim(ts[i].children);
      }
    }
  }

  lemma TemplateFirst(t: Tree, us: seq<Tree>)
    requires t.isTemplate && Unique(t.children) && Unique(us)
    ensures Unique([t] + us)
  {
  }

  lemma {:induction false} UniqueTrimBehind(ts: seq<Tree>)
    requires Unique(ts)
    ensures Unique(TrimBehind(ts))
    decreases ts, 0
  {
    if ts != [] {
      UniqueRest(ts);
      UniqueTrimBehind(ts[1..]);
      UniqueTrim(ts[0].children);
      var us := TrimBehind(ts[1..]);
      forall i | 0 <= i < |us| ensures us[i].isTemplate || ts[0].isTemplate || us[i].name != ts[0].name {
        var j := TrimmedFrom(ts[1..], i);
        assert ts[1..][j] == ts[j + 1];
      }
      hide Worth;
      if Worth(ts[0]) {
        assert TrimBehind(ts) == [TrimNode(ts[0])] + us;
        FirstApart(TrimNode(ts[0]), us);
      } else {
        assert TrimBehind(ts) == us;
      }
    }
  }

  lemma FirstApart(t: Tree, us: seq<Tree>)
    requires Unique(t.children) && Unique(us)
    requires forall i :: 0 <= i < |us| ==> us[i].isTemplate || t.isTemplate || us[i].name != t.name
    ensures Unique([t] + us)
  {
  }

  /** What is left was there. */
  lemma {:induction false} TrimmedFrom(ts: seq<Tree>, i: nat) returns (j: nat)
    requires i < |TrimBehind(ts)|
    ensures j < |ts| && TrimBehind(ts)[i].name == ts[j].name && TrimBehind(ts)[i].isTemplate == ts[j].isTemplate
    decreases |ts|
  {
    hide Worth;
    var n := if Worth(ts[0]) then 1 else 0;
    if i < n {
      j := 0;
    } else {
      assert TrimBehind(ts)[i] == TrimBehind(ts[1..])[i - n];
      j := TrimmedFrom(ts[1..], i - n);
      j := j + 1;
    }
  }

  // ---------------------------------------------------------------- behind a template

  /** What is there of the first k children. */
  function UpTo(ts: seq<Tree>, k: nat, name: string): Option<Entry> {
    var i := Find(ts, name);
    if i < k && i < |ts| && Worth(ts[i]) then Some(Seen(TrimNode(ts[i]))) else None
  }

  ghost predicate BehindLoaded(us: seq<Tree>, ds: seq<Tree>, ts: seq<Tree>, k: nat) {
    && 1 <= k <= |ts| && us != [] && ds != [] && us[0] == ds[0] && Dynamic(us)
    && Unique(us) && Sane(us) && Skeleton(us) == Skeleton(ds)
    && (forall i :: 1 <= i < |us| ==> InForce(us[i]))
    && (forall n :: Lookup(us, n) == UpTo(ts, k, n))
  }

  lemma BehindStarts(ds: seq<Tree>, ts: seq<Tree>, r: Rules)
    requires ShownFor(ds, ts, r) && Dynamic(ts) && Dynamic(ds)
    ensures BehindLoaded(ds, ds, ts, 1)
  {
    assert |ds| == 1 && ds[0].isTemplate;
    assert ts[0].isTemplate;
  }

  /** The TrimBehind of what is unique looks up each node saved. */
  lemma {:induction false} LookupTrimBehind(ts: seq<Tree>, n: string)
    requires Unique(ts) && forall i :: 0 <= i < |ts| ==> !ts[i].isTemplate
    ensures Lookup(TrimBehind(ts), n) == UpTo(ts, |ts|, n)
    decreases |ts|
  {
    if ts != [] {
      var t, rest := ts[0], ts[1..];
      UniqueRest(ts);
      LookupTrimBehind(rest, n);
      WorthIsInForce(t);
      UpToFirst(ts, n);
      hide Seen, TrimNode, Unique, UpTo, Lookup, InForce, Worth;
      var us := TrimBehind(rest);
      if Worth(t) {
        LookupFirst(TrimNode(t), us, n);
      } else {
        assert TrimBehind(ts) == us;
        NoneUpTo(ts, n);
      }
    }
  }

  lemma UpToFirst(ts: seq<Tree>, n: string)
    requires ts != [] && !ts[0].isTemplate
    ensures UpTo(ts, |ts|, n) ==
            if ts[0].name == n then (if Worth(ts[0]) then Some(Seen(TrimNode(ts[0]))) else None)
            else UpTo(ts[1..], |ts[1..]|, n)
  {
    hide Worth, Seen, TrimNode;
  }

  lemma NoneUpTo(ts: seq<Tree>, n: string)
    requires Unique(ts) && ts != [] && !ts[0].isTemplate
    ensures ts[0].name == n ==> UpTo(ts[1..], |ts[1..]|, n) == None
  {
    hide Worth, Seen, TrimNode;
    NameOnce(ts, n);
  }

  lemma NameOnce(ts: seq<Tree>, n: string)
    requires Unique(ts) && ts != [] && !ts[0].isTemplate
    ensures ts[0].name == n ==> Find(ts[1..], n) == |ts[1..]|
  {
    forall i | 0 <= i < |ts[1..]| ensures ts[0].name == n ==> ts[1..][i].isTemplate || ts[1..][i].name != n {
      assert ts[1..][i] == ts[i + 1];
    }
  }

  lemma WorthIsInForce(t: Tree)
    ensures Worth(t) ==> InForce(t)
    ensures InForce(TrimNode(t)) == InForce(t) && TrimNode(t).name == t.name && TrimNode(t).isTemplate == t.isTemplate
  {
  }

  lemma LookupFirst(t: Tree, us: seq<Tree>, n: string)
    ensures Lookup([t] + us, n) ==
            if !t.isTemplate && t.name == n then (if InForce(t) then Some(Seen(t)) else None) else Lookup(us, n)
  {
    hide CommittedNode, EntryOf;
    assert ([t] + us)[1..] == us;
  }

  lemma {:induction false} LoadsBehind(us: seq<Tree>, ds: seq<Tree>, ts: seq<Tree>, k: nat, r: Rules)
    requires ShownFor(ds, ts, r) && Dynamic(ts) && k <= |ts| && BehindLoaded(us, ds, ts, k)
    ensures LoadedAs(Merge(us, Saved(ts[k..], true), false, r), ts)
    decreases ts, 1, |ts| - k
  {
    hide ShownFor, BehindLoaded, LoadedAs, MergeOne, SavedNode;
    if k == |ts| {
      BehindEnds(us, ds, ts, r);
    } else {
      SavedFrom(ts, k);
      var cs := SavedNode(ts[k], true);
      if cs == [] {
        NotPlaced(us, ds, ts, k, r);
        assert cs + Saved(ts[k + 1..], true) == Saved(ts[k + 1..], true);
        LoadsBehind(us, ds, ts, k + 1, r);
      } else {
        OnePlaced(us, ds, ts, k, r);
        MergeFirst(us, cs[0], Saved(ts[k + 1..], true), r);
        assert cs == [cs[0]];
        LoadsBehind(MergeOne(us, cs[0], false, r).children, ds, ts, k + 1, r);
      }
    }
  }

  lemma BehindEnds(us: seq<Tree>, ds: seq<Tree>, ts: seq<Tree>, r: Rules)
    requires ShownFor(ds, ts, r) && Dynamic(ts) && BehindLoaded(us, ds, ts, |ts|)
    ensures LoadedAs(Merge(us, Saved(ts[|ts|..], true), false, r), ts)
  {
    hide Sane, SaneNode, Skeleton, Seen, InForceByName, Find, Worth;
    var rest := ts[1..];
    UniqueRest(ts);
    BehindAreBlocks(ts);
    UniqueTrim(ts);
    forall n ensures Lookup(us, n) == Lookup(Trim(ts), n) {
      LookupTrimBehind(rest, n);
      LookupFirst(ts[0], TrimBehind(rest), n);
      UpToRest(ts, n);
    }
    SameByName(us, Trim(ts));
  }

  lemma BehindAreBlocks(ts: seq<Tree>)
    requires Sane(ts) && Dynamic(ts)
    ensures forall i :: 0 <= i < |ts[1..]| ==> !ts[1..][i].isTemplate
    ensures forall i :: 1 <= i < |ts| ==> ts[i].kind == Block && !ts[i].isTemplate
  {
    hide SaneNode, Skeleton;
    assert forall i :: 1 <= i < |ts| ==> MadeFrom(ts[0], ts[i]);
  }

  lemma UpToRest(ts: seq<Tree>, n: string)
    requires Dynamic(ts)
    ensures UpTo(ts, |ts|, n) == UpTo(ts[1..], |ts[1..]|, n)
  {
    hide Worth, Seen, TrimNode;
    assert Find(ts, n) == 1 + Find(ts[1..], n);
  }

  lemma NotPlaced(us: seq<Tree>, ds: seq<Tree>, ts: seq<Tree>, k: nat, r: Rules)
    requires ShownFor(ds, ts, r) && Dynamic(ts) && BehindLoaded(us, ds, ts, k) && k < |ts| && SavedNode(ts[k], true) == []
    ensures BehindLoaded(us, ds, ts, k + 1)
  {
    WorthIsSaved(ts[k]);
    hide Unique, Sane, Skeleton, Seen, SavedNode, Worth, Find, Lookup, InForce, ShownFor, UpTo;
    forall n ensures UpTo(ts, k + 1, n) == UpTo(ts, k, n) { UpToSkips(ts, k, n); }
  }

  lemma UpToSkips(ts: seq<Tree>, k: nat, n: string)
    requires k < |ts| && !Worth(ts[k])
    ensures UpTo(ts, k + 1, n) == UpTo(ts, k, n)
  {
    hide Worth, Seen, TrimNode;
  }

  lemma {:induction false} OnePlaced(us: seq<Tree>, ds: seq<Tree>, ts: seq<Tree>, k: nat, r: Rules)
    requires ShownFor(ds, ts, r) && Dynamic(ts) && BehindLoaded(us, ds, ts, k) && k < |ts| && SavedNode(ts[k], true) != []
    ensures var m := MergeOne(us, SavedNode(ts[k], true)[0], false, r); m.ok && BehindLoaded(m.children, ds, ts, k + 1)
    decreases ts, 0, 1
  {
    var c := SavedNode(ts[k], true)[0];
    FreshInstance(ds, ts, k, r);
    Loads(ds[0].children, ts[k].children, r);
    hide Sane, SaneNode, Unique, Skeleton, Seen, BoneOf, ShownFor, LoadedAs;
    var m := Merge(ds[0].children, c.children, false, r);
    var e := Instantiated(ds[0], ts[k].name, false).(children := m.children);
    ReachesTemplate(us, ds, ts, k, c, r);
    InstanceSeen(ds[0], ts[k], c, r);
    NotThere(us, ds, ts, k, r);
    WorthIsSaved(ts[k]);
    PlacedLoaded(us, ds, ts, k, e, r);
    MergeOneKeepsShape(us, c, false, r);
  }

  /** A block to be made from the template of a fresh definition. */
  lemma FreshInstance(ds: seq<Tree>, ts: seq<Tree>, k: nat, r: Rules)
    requires ShownFor(ds, ts, r) && Dynamic(ts) && 1 <= k < |ts| && SavedNode(ts[k], true) != []
    ensures Dynamic(ds) && ShownFor(ds[0].children, ts[k].children, r)
    ensures ts[k].kind == Block && !ts[k].isTemplate && ts[k].typ == "" && StorableNode(ts[k], r)
    ensures r.check(ds[0].typ, ts[k].name) == Some(ts[k].name) && SaneNode(ds[0])
  {
    hide SaneNode, Sane, Skeleton, BoneOf, Emptied, Storable, Unique;
    SameLevel(ds, ts);
    SameBones(ds[0], ts[0]);
    TargetLevel(ts, k);
    TargetLevel(ds, 0);
    ChildrenAreSane(ds[0]);
    ChildrenAreSane(ts[k]);
    InstanceConditions(ds, ts, k, r);
    assert Emptied(ds[0].children) && Storable(ts[k].children, r);
    assert ShownNode(ts[k]) && InForce(ts[k]);
  }

  lemma InstanceConditions(ds: seq<Tree>, ts: seq<Tree>, k: nat, r: Rules)
    requires ShownFor(ds, ts, r) && Dynamic(ts) && ds != [] && 1 <= k < |ts| && !ts[k].isTemplate
    ensures EmptiedNode(ds[0]) && StorableNode(ts[k], r) && Unique(ds[0].children) && Unique(ts[k].children)
    ensures ts[k].typ == "" && r.check(ts[0].typ, ts[k].name) == Some(ts[k].name)
  {
    hide Sane, Skeleton, EmptiedNode, StorableNode;
  }

  lemma ReachesTemplate(us: seq<Tree>, ds: seq<Tree>, ts: seq<Tree>, k: nat, c: Tree, r: Rules)
    requires BehindLoaded(us, ds, ts, k) && k < |ts| && SavedNode(ts[k], true) == [c] && ts[k].kind == Block && SaneNode(ds[0])
    requires r.check(ds[0].typ, ts[k].name) == Some(ts[k].name)
    ensures var m := Merge(ds[0].children, c.children, false, r);
            MergeOne(us, c, false, r) ==
            if m.ok then Merged(Placed(us, Instantiated(ds[0], ts[k].name, false).(children := m.children), r), true)
            else Merged(us, false)
  {
    hide Merge, Placed, Sane, SaneNode, Unique, Skeleton, Seen, Instantiated, Lookup, UpTo, Saved;
    InstantiatedIsSane(ds[0], ts[k].name, false);
    QuietBehind(us, c, r);
  }

  lemma QuietBehind(us: seq<Tree>, c: Tree, r: Rules)
    requires Dynamic(us) && c.kind == Block && r.check(us[0].typ, c.name) == Some(c.name)
    ensures MergeOne(us, c, false, r) == MergeNew(us, Instantiated(us[0], c.name, false), c, false, r)
  {
    hide MergeNew, MergeItem, MergeInto, Instantiated;
    assert Target(us, c.name) == 0;
  }

  lemma InstanceSeen(d: Tree, t: Tree, c: Tree, r: Rules)
    requires LoadedAs(Merge(d.children, Saved(t.children, true), false, r), t.children)
    requires SavedNode(t, true) == [c] && t.kind == Block && t.typ == ""
    ensures var e := Instantiated(d, t.name, false).(children := Merge(d.children, c.children, false, r).children);
            Seen(e) == Seen(TrimNode(t)) && InForce(e) && !e.isTemplate && e.name == t.name && Unique(e.children)
    ensures Merge(d.children, c.children, false, r).ok
  {
    hide Merge, Trim, Unique;
    SeenIs(Instantiated(d, t.name, false).(children := Merge(d.children, c.children, false, r).children));
    SeenIs(TrimNode(t));
  }

  /** A name that comes later is not there yet. */
  lemma NotThere(us: seq<Tree>, ds: seq<Tree>, ts: seq<Tree>, k: nat, r: Rules)
    requires ShownFor(ds, ts, r) && BehindLoaded(us, ds, ts, k) && k < |ts| && !ts[k].isTemplate
    ensures Find(us, ts[k].name) == |us| && Find(ts, ts[k].name) == k
  {
    hide Sane, Skeleton, Seen, Worth, CommittedNode, EntryOf;
    FindIs(ts, k, ts[k].name);
    assert Lookup(us, ts[k].name) == UpTo(ts, k, ts[k].name) == None;
    NotInForce(us, ts[k].name);
  }

  lemma NotInForce(us: seq<Tree>, n: string)
    requires Lookup(us, n) == None && us != [] && us[0].isTemplate && forall i :: 1 <= i < |us| ==> InForce(us[i])
    ensures Find(us, n) == |us|
  {
  }

  lemma PlacedLoaded(us: seq<Tree>, ds: seq<Tree>, ts: seq<Tree>, k: nat, e: Tree, r: Rules)
    requires BehindLoaded(us, ds, ts, k) && k < |ts| && Worth(ts[k])
    requires Find(us, ts[k].name) == |us| && Find(ts, ts[k].name) == k
    requires e.name == ts[k].name && Seen(e) == Seen(TrimNode(ts[k])) && InForce(e) && !e.isTemplate && Unique(e.children)
    ensures var vs := Placed(us, e, r);
            && Unique(vs) && vs[0] == us[0] && (forall i :: 1 <= i < |vs| ==> InForce(vs[i]))
            && (forall n :: Lookup(vs, n) == UpTo(ts, k + 1, n))
  {
    hide Sane, Skeleton, Unique, Placed, Worth, Seen, TrimNode, Lookup, UpTo, Find, InForce;
    var vs := Placed(us, e, r);
    PlacedSize(us, e, r);
    FindPlaced(us, e, r, e.name);
    forall i | 1 <= i < |vs| ensures InForce(vs[i]) {
      var j := PlacedAt(us, e, r, i);
    }
    forall n ensures Lookup(vs, n) == UpTo(ts, k + 1, n) {
      LookupPlacedInForce(us, e, r, n);
      UpToNext(ts, k, n);
    }
  }

  lemma UpToNext(ts: seq<Tree>, k: nat, n: string)
    requires k < |ts| && Find(ts, ts[k].name) == k && Worth(ts[k])
    ensures UpTo(ts, k + 1, n) == if n == ts[k].name then Some(Seen(TrimNode(ts[k]))) else UpTo(ts, k, n)
  {
    hide Worth, Seen, TrimNode;
  }

  lemma LookupPlacedInForce(us: seq<Tree>, e: Tree, r: Rules, n: string)
    requires Unique(us) && Unique(e.children) && us != [] && !e.isTemplate && InForce(e) && Find(us, e.name) == |us|
    ensures Lookup(Placed(us, e, r), n) == if n == e.name then Some(Seen(e)) else Lookup(us, n)
  {
    hide Unique, Placed, CommittedNode, EntryOf;
    FindPlaced(us, e, r, n);
  }

  // ---------------------------------------------------------------- what is not printed

  /** The tree without the values in force that are not printed. */
  function Blank(ts: seq<Tree>): (us: seq<Tree>)
    ensures |us| == |ts|
    ensures forall i :: 0 <= i < |ts| ==> us[i] == BlankNode(ts[i])
    decreases ts, 0
  {
    seq(|ts|, i requires 0 <= i < |ts| => BlankNode(ts[i]))
  }

  function BlankNode(t: Tree): Tree
    decreases t, 1
  {
    if t.isTemplate then t
    else t.(value := if t.kind == Item && !ShowsItem(t, true) then "" else t.value, children := Blank(t.children))
  }

  lemma {:induction false} BlankBone(t: Tree)
    ensures BoneOf(BlankNode(t)) == BoneOf(t)
    decreases t, 0
  {
    if !t.isTemplate { BlankBones(t.children); }
  }

  lemma {:induction false} BlankBones(ts: seq<Tree>)
    ensures Skeleton(Blank(ts)) == Skeleton(ts) && Dynamic(Blank(ts)) == Dynamic(ts)
    decreases ts, 1
  {
    forall i | 0 <= i < |ts| ensures BoneOf(Blank(ts)[i]) == BoneOf(ts[i]) { BlankBone(ts[i]); }
  }

  lemma {:induction false} BlankIsSane(ts: seq<Tree>)
    requires Sane(ts)
    ensures Sane(Blank(ts))
    decreases ts
  {
    hide SaneNode, Skeleton;
    var us := Blank(ts);
    BlankBones(ts);
    forall i | 0 <= i < |ts| ensures SaneNode(us[i]) {
      ChildrenAreSane(ts[i]);
      if !ts[i].isTemplate {
        BlankIsSane(ts[i].children);
        BlankNodeIsSane(ts[i]);
      }
    }
    forall i | 0 <= i < |ts| ensures us[i].isTemplate == ts[i].isTemplate && Skeleton(us[i].children) == Skeleton(ts[i].children) {
      BlankBones(ts[i].children);
    }
  }

  lemma BlankNodeIsSane(t: Tree)
    requires SaneNode(t) && !t.isTemplate && Sane(Blank(t.children))
    ensures SaneNode(BlankNode(t))
  {
    SaneIs(Blank(t.children));
  }

  lemma {:induction false} BlankIsUnique(ts: seq<Tree>)
    requires Unique(ts)
    ensures Unique(Blank(ts))
    decreases ts
  {
    forall i | 0 <= i < |ts| ensures Unique(Blank(ts)[i].children) { BlankIsUnique(ts[i].children); }
  }

  lemma {:induction false} BlankIsStorable(ts: seq<Tree>, r: Rules)
    requires Storable(ts, r)
    ensures Storable(Blank(ts), r)
    decreases ts
  {
    var us := Blank(ts);
    forall i | 0 <= i < |ts| && !us[i].isTemplate ensures StorableNode(us[i], r) {
      assert StorableNode(ts[i], r);
      BlankIsStorable(ts[i].children, r);
    }
  }

  lemma {:induction false} BlankIsShown(ts: seq<Tree>)
    requires WellFormed(ts)
    ensures Shown(Blank(ts))
    decreases ts
  {
    forall i | 0 <= i < |ts| ensures ShownNode(Blank(ts)[i]) {
      assert WellFormedNode(ts[i]);
      BlankIsShown(ts[i].children);
    }
  }

  /** It saves alike. */
  lemma {:induction false} BlankSavesAlike(ts: seq<Tree>)
    ensures Saved(Blank(ts), true) == Saved(ts, true)
    decreases ts, 0
  {
    hide SavedNode, BlankNode;
    if ts != [] {
      BlankSavesAlike(ts[1..]);
      BlankNodeSavesAlike(ts[0]);
      assert Blank(ts)[1..] == Blank(ts[1..]);
    }
  }

  lemma {:induction false} BlankNodeSavesAlike(t: Tree)
    ensures SavedNode(BlankNode(t), true) == SavedNode(t, true)
    decreases t, 1
  {
    BlankSavesAlike(t.children);
    hide Saved, Blank;
  }

  // ---------------------------------------------------------------- what is lost

  /** What a name finds in the trimmed tree. */
  function TrimLookup(ts: seq<Tree>, n: string): Option<Entry> {
    var k := Find(ts, n);
    if k < |ts| && InForce(ts[k]) && (Dynamic(ts) ==> Worth(ts[k])) then Some(Seen(TrimNode(ts[k]))) else None
  }

  lemma LookupTrim(ts: seq<Tree>, n: string)
    requires Unique(ts) && Sane(ts)
    ensures Lookup(Trim(ts), n) == TrimLookup(ts, n)
  {
    hide SaneNode, Skeleton, Seen, Worth;
    if Dynamic(ts) {
      var rest := ts[1..];
      UniqueRest(ts);
      BehindAreBlocks(ts);
      LookupTrimBehind(rest, n);
      LookupFirst(ts[0], TrimBehind(rest), n);
      UpToRest(ts, n);
      var k := Find(ts, n);
      if k < |ts| { WorthIsInForce(ts[k]); }
    } else {
      LookupTrimFixed(ts, n);
    }
  }

  lemma LookupTrimFixed(ts: seq<Tree>, n: string)
    requires !Dynamic(ts)
    ensures Lookup(Trim(ts), n) == TrimLookup(ts, n)
  {
    hide CommittedNode, EntryOf, Worth;
    TrimFixed(ts);
    SameFind(ts, Trim(ts), n);
    var k := Find(ts, n);
    if k < |ts| { WorthIsInForce(ts[k]); }
  }

  lemma TrimFixed(ts: seq<Tree>)
    requires !Dynamic(ts)
    ensures |Trim(ts)| == |ts| && forall i :: 0 <= i < |ts| ==> Trim(ts)[i] == TrimNode(ts[i])
    ensures forall i :: 0 <= i < |ts| ==> Trim(ts)[i].name == ts[i].name && Trim(ts)[i].isTemplate == ts[i].isTemplate
  {
  }

  lemma SameFind(ts: seq<Tree>, us: seq<Tree>, n: string)
    requires |ts| == |us| && forall i :: 0 <= i < |ts| ==> ts[i].name == us[i].name && ts[i].isTemplate == us[i].isTemplate
    ensures Find(ts, n) == Find(us, n)
  {
    var j, k := Find(ts, n), Find(us, n);
  }

  /** A node reads alike without what is not printed exactly if everything in force in it is
      printed; what is lost was worth saving. */
  ghost predicate Loses(t: Tree) {
    && (Seen(TrimNode(BlankNode(t))) == Seen(TrimNode(t)) <==> ShownNode(t))
    && (ShownNode(t) ==> Worth(BlankNode(t)) == Worth(t))
    && (!ShownNode(t) ==> Worth(t))
  }

  lemma {:induction false} NodeLoses(t: Tree)
    requires InForce(t) && SaneNode(t) && Unique(t.children)
    ensures Loses(t)
    decreases t, 0
  {
    hide SaneNode, Unique, InForceByName, Sane, Shown;
    SeenIs(TrimNode(BlankNode(t)));
    SeenIs(TrimNode(t));
    ChildrenAreSane(t);
    SaneWell(t);
    LevelLoses(t.children);
    if t.kind == Item { assert Blank([]) == [] && Trim([]) == []; }
  }

  lemma SaneWell(t: Tree)
    requires SaneNode(t)
    ensures t.kind != OtherKind && (t.kind == Item && t.status == Ready ==> t.value == t.newValue)
    ensures t.kind == Item ==> t.children == []
  {
  }

  lemma SomeWorthIs(ts: seq<Tree>)
    ensures SomeWorth(ts) <==> exists i :: 0 <= i < |ts| && Worth(ts[i])
  {
    hide Worth;
    if ts != [] {
      SomeWorthIs(ts[1..]);
      assert ts == [ts[0]] + ts[1..];
      if i :| 1 <= i < |ts| && Worth(ts[i]) { assert Worth(ts[1..][i - 1]); }
    }
  }

  lemma {:induction false} LevelLoses(ts: seq<Tree>)
    requires Sane(ts) && Unique(ts)
    ensures InForceByName(Trim(Blank(ts))) == InForceByName(Trim(ts)) <==> Shown(ts)
    ensures Shown(ts) ==> SomeWorth(Blank(ts)) == SomeWorth(ts)
    ensures !Shown(ts) ==> SomeWorth(ts)
    decreases ts, 1
  {
    var us := Blank(ts);
    forall i | 0 <= i < |ts| ensures NotInForceIsShown(ts[i]) && (InForce(ts[i]) ==> Loses(ts[i])) {
      if InForce(ts[i]) { NodeLoses(ts[i]); }
    }
    hide Unique, Sane, InForceByName, ShownNode, Worth, BlankNode, Seen, TrimNode, InForce;
    LevelWorth(ts);
    BlankBones(ts);
    BlankIsSane(ts);
    BlankIsUnique(ts);
    UniqueTrim(ts);
    UniqueTrim(us);
    forall n ensures Lookup(Trim(ts), n) == TrimLookup(ts, n) && Lookup(Trim(us), n) == TrimLookup(us, n) {
      LookupTrim(ts, n);
      LookupTrim(us, n);
    }
    if Shown(ts) {
      forall n ensures TrimLookup(us, n) == TrimLookup(ts, n) { LookupKept(ts, n); }
      SameByName(Trim(us), Trim(ts));
    } else {
      var i :| 0 <= i < |ts| && !ShownNode(ts[i]);
      LookupLost(ts, i);
      SameLookups(Trim(us), Trim(ts), ts[i].name);
    }
  }

  /** Also of what is not in force nothing is lost. */
  predicate NotInForceIsShown(t: Tree) {
    !InForce(t) ==> ShownNode(t) && !Worth(t) && !Worth(BlankNode(t)) && !InForce(BlankNode(t))
  }

  lemma LevelWorth(ts: seq<Tree>)
    requires forall i :: 0 <= i < |ts| ==> NotInForceIsShown(ts[i]) && (InForce(ts[i]) ==> Loses(ts[i]))
    ensures Shown(ts) ==> SomeWorth(Blank(ts)) == SomeWorth(ts)
    ensures !Shown(ts) ==> SomeWorth(ts)
  {
    hide Worth, ShownNode, BlankNode, InForce, Seen, TrimNode;
    SomeWorthIs(ts);
    SomeWorthIs(Blank(ts));
    if Shown(ts) {
      forall i | 0 <= i < |ts| ensures Worth(Blank(ts)[i]) == Worth(ts[i]) { assert ShownNode(ts[i]); }
    }
  }

  lemma BlankFind(ts: seq<Tree>, n: string)
    ensures Find(Blank(ts), n) == Find(ts, n)
  {
    SameFind(Blank(ts), ts, n);
  }

  lemma LookupKept(ts: seq<Tree>, n: string)
    requires Shown(ts) && Dynamic(Blank(ts)) == Dynamic(ts)
    requires forall i :: 0 <= i < |ts| ==> NotInForceIsShown(ts[i]) && (InForce(ts[i]) ==> Loses(ts[i]))
    ensures TrimLookup(Blank(ts), n) == TrimLookup(ts, n)
  {
    BlankFind(ts, n);
    var k := Find(ts, n);
    if k < |ts| { BlankInForce(ts[k]); }
    hide Worth, ShownNode, BlankNode, InForce, Seen, TrimNode, Find;
  }

  lemma BlankInForce(t: Tree)
    ensures InForce(BlankNode(t)) == InForce(t)
  {
  }

  lemma LookupLost(ts: seq<Tree>, i: nat)
    requires Unique(ts) && i < |ts| && !ShownNode(ts[i]) && Dynamic(Blank(ts)) == Dynamic(ts)
    requires NotInForceIsShown(ts[i]) && (InForce(ts[i]) ==> Loses(ts[i]))
    ensures TrimLookup(Blank(ts), ts[i].name) != TrimLookup(ts, ts[i].name)
  {
    WorthIsInForce(ts[i]);
    FindIs(ts, i, ts[i].name);
    BlankFind(ts, ts[i].name);
    BlankInForce(ts[i]);
    hide Worth, ShownNode, BlankNode, InForce, Seen, TrimNode, Find, Unique;
  }

  lemma SameLookups(ts: seq<Tree>, us: seq<Tree>, n: string)
    requires Unique(ts) && Unique(us) && Lookup(ts, n) != Lookup(us, n)
    ensures InForceByName(ts) != InForceByName(us)
  {
    hide Unique, CommittedNode, InForce;
    ByNameAt(ts, n);
    ByNameAt(us, n);
  }

  // ---------------------------------------------------------------- saving and loading

  lemma BlankFresh(ds: seq<Tree>, ts: seq<Tree>, r: Rules)
    requires FreshFor(ds, ts, r)
    ensures ShownFor(ds, Blank(ts), r)
  {
    hide Unique, Skeleton, Storable, Emptied, Sane;
    SaneIs(ts);
    BlankBones(ts);
    BlankIsSane(ts);
    BlankIsUnique(ts);
    BlankIsStorable(ts, r);
    BlankIsShown(ts);
  }

  /** Loading what was saved into a fresh definition of the same shape always succeeds and puts
      in force what was printed; that reads as before, but for blocks made from templates that
      are worth nothing and the order of such blocks, exactly if no item in force was about to
      lose its value without being deleted. */
  lemma LoadsExactly(ds: seq<Tree>, ts: seq<Tree>, r: Rules)
    requires FreshFor(ds, ts, r)
    ensures var m := Merge(ds, Saved(ts, true), false, r);
            m.ok && Unique(m.children) && LoadedAs(m, Blank(ts)) && (LoadedAs(m, ts) <==> Shown(ts))
  {
    BlankFresh(ds, ts, r);
    hide Unique, Sane, Skeleton, Storable, Emptied, Merge, InForceByName, Shown;
    Loads(ds, Blank(ts), r);
    BlankSavesAlike(ts);
    LevelLoses(ts);
  }

  /** A configuration saved to a file and loaded into a fresh definition of the same shape. */
  lemma SaveAndLoad(ds: seq<Tree>, ts: seq<Tree>, lex: Lexer, r: Rules)
    requires FreshFor(ds, ts, r) && Spelt(ts, true, lex)
    ensures var file := ParseDefs(FileTokens(ts, true, lex));
            if PlainLists(ts, true) then
              && file.Parsed? && file.rest == []
              && var m := Merge(ds, BuildAll(file.ast), false, r);
                 m.ok && LoadedAs(m, Blank(ts)) && (LoadedAs(m, ts) <==> Shown(ts))
            else file == Recovers
  {
    hide Merge, LoadedAs, Unique, Skeleton;
    SaneIs(ts);
    FileRoundTrip(ts, true, lex);
    LoadsExactly(ds, ts, r);
  }

  /** The value of an item set to the empty text is in force until the commit, but is missing
      from the file the previous configuration is saved to. */
  lemma SetToNothing(name: string, value: string, r: Rules)
    requires value != ""
    ensures var t := Tree(name, value, "", "", Item, Modified, false, false, false, None, []);
            var d := t.(value := "", status := Ready);
            && Saved([t], true) == [] && Merge([d], Saved([t], true), false, r) == Merged([d], true)
            && InForceByName([d]) != InForceByName(Trim([t]))
  {
    var t := Tree(name, value, "", "", Item, Modified, false, false, false, None, []);
    var d := t.(value := "", status := Ready);
    assert Saved([t], true) == [];
    assert Trim([t])[0] == TrimNode(t) && Trim([]) == [];
    assert Lookup([d], name) != Lookup(Trim([t]), name);
    SameLookups([d], Trim([t]), name);
  }
}
