/** When contents that are merged after replace_prepare replace the configuration completely. */
module ConfigReplace {
  import opened ConfigTree
  import opened ConfigMerge
  import opened ConfigByName
  import opened ConfigHidden
  import opened ConfigValidate
  import opened ConfigContents
  import opened ConfigShape

  // ---------------------------------------------------------------- what is pending, by name

  function PendingByName(ts: seq<Tree>): map<string, Entry> {
    ByName(Pending(ts))
  }

  /** A name is pending exactly if the child of that name stays. */
  lemma {:induction false} PendingAt(ts: seq<Tree>, name: string)
    requires Unique(ts)
    ensures var k, m := Find(ts, name), PendingByName(ts);
            if k < |ts| && Stays(ts[k]) then name in m && m[name] == EntryOf(PendingNode(ts[k])) else name !in m
  {
    hide PendingNode, Unique;
    if ts != [] {
      var t, rest := ts[0], ts[1..];
      UniqueRest(ts);
      PendingAt(rest, name);
      PendingFirst(ts);
      if !t.isTemplate && t.name == name && Find(rest, name) < |rest| {
        FindIs(ts, 1 + Find(rest, name), name);
      }
    }
  }

  lemma PendingFirst(ts: seq<Tree>)
    requires ts != []
    ensures PendingByName(ts) ==
            if Stays(ts[0]) then PendingByName(ts[1..])[ts[0].name := EntryOf(PendingNode(ts[0]))]
            else PendingByName(ts[1..])
  {
    hide Stays;
    PendingCons(ts);
    PendingNodeName(ts[0]);
    hide PendingNode;
    if Stays(ts[0]) {
      assert Pending(ts)[0] == PendingNode(ts[0]) && Pending(ts)[1..] == Pending(ts[1..]);
    } else {
      assert Pending(ts) == Pending(ts[1..]);
    }
  }

  lemma PendingNodeName(t: Tree)
    ensures PendingNode(t).name == t.name
  {
  }

  /** What a reader sees of a node that is pending. */
  function PendingEntry(t: Tree): Entry {
    Entry(t.typ, t.kind, if t.kind == Item && t.status != Deleted then t.newValue else "", PendingByName(t.children))
  }

  lemma PendingEntryIs(t: Tree)
    ensures EntryOf(PendingNode(t)) == PendingEntry(t)
  {
  }

  // ---------------------------------------------------------------- what contents say of a name

  /** The type names are checked against: that of the template. */
  function RuleOf(ts: seq<Tree>): Option<string> {
    if Dynamic(ts) then Some(ts[0].typ) else None
  }

  function NameBy(rule: Option<string>, c: Tree, r: Rules): string {
    if rule.Some? && r.check(rule.value, c.name).Some? then r.check(rule.value, c.name).value else c.name
  }

  predicate Speaks(rule: Option<string>, cs: seq<Tree>, name: string, r: Rules) {
    cs != [] && (NameBy(rule, cs[0], r) == name || Speaks(rule, cs[1..], name, r))
  }

  /** All that the entries of that name hold. */
  function Gather(rule: Option<string>, cs: seq<Tree>, name: string, r: Rules): seq<Tree> {
    if cs == [] then []
    else (if NameBy(rule, cs[0], r) == name then cs[0].children else []) + Gather(rule, cs[1..], name, r)
  }

  /** The text the last item of that name gives a node of type typ. */
  function Text(rule: Option<string>, cs: seq<Tree>, name: string, typ: string, r: Rules): Option<string> {
    if cs == [] then None
    else
      var later := Text(rule, cs[1..], name, typ, r);
      if later.Some? then later
      else if NameBy(rule, cs[0], r) == name && cs[0].kind == Item then r.check(typ, cs[0].value)
      else None
  }

  // ---------------------------------------------------------------- where a name lands

  /** The node whose children an entry of that name is merged into: the one that is there, or
      else the template. */
  function Seat(us: seq<Tree>, name: string): (k: nat)
    requires us != []
    ensures k < |us|
  {
    if Find(us, name) < |us| then Find(us, name) else 0
  }

  lemma {:induction false} MergeConcat(ts: seq<Tree>, a: seq<Tree>, b: seq<Tree>, loud: bool, r: Rules)
    ensures Merge(ts, a + b, loud, r) ==
            if Merge(ts, a, loud, r).ok then Merge(Merge(ts, a, loud, r).children, b, loud, r) else Merge(ts, a, loud, r)
    decreases |a|
  {
    hide MergeOne;
    if a == [] {
      assert a + b == b;
    } else {
      assert (a + b)[0] == a[0] && (a + b)[1..] == a[1..] + b;
      MergeConcat(MergeOne(ts, a[0], loud, r).children, a[1..], b, loud, r);
    }
  }

  /** What a merge leaves under a name that the contents mention. */
  ghost predicate Landed(us: seq<Tree>, d: Tree, cs: seq<Tree>, name: string, r: Rules)
    requires us != []
  {
    var rule, k := RuleOf(us), Seat(us, name);
    var m := Merge(us[k].children, Gather(rule, cs, name, r), true, r);
    var was := At(us, name);
    && Stays(d) && d.name == name && m.ok && d.children == m.children
    && (was.Some? ==> d.typ == was.value.typ && d.kind == was.value.kind)
    && (was.None? ==> Dynamic(us) && d.typ == "" && d.kind == Block)
    && (Dynamic(us) ==> d.kind == Block)
    && (d.kind == Item ==>
          match Text(rule, cs, name, d.typ, r)
          case Some(v) => d.newValue == v && d.status == Modified
          case None => was.Some? && d.newValue == was.value.newValue && d.status == was.value.status)
  }

  ghost predicate LandedAt(us: seq<Tree>, vs: seq<Tree>, cs: seq<Tree>, name: string, r: Rules) {
    if Speaks(RuleOf(us), cs, name, r) then us != [] && At(vs, name).Some? && Landed(us, At(vs, name).value, cs, name, r)
    else At(vs, name) == At(us, name)
  }

  /** The same tree but for the children by name. */
  ghost predicate SameSeats(us: seq<Tree>, vs: seq<Tree>) {
    RuleOf(us) == RuleOf(vs) && (Dynamic(us) ==> vs[0] == us[0])
  }

  lemma OneEntry(rule: Option<string>, c: Tree, name: string, typ: string, r: Rules)
    ensures Speaks(rule, [c], name, r) <==> NameBy(rule, c, r) == name
    ensures NameBy(rule, c, r) == name ==> Gather(rule, [c], name, r) == c.children
    ensures NameBy(rule, c, r) == name ==> Text(rule, [c], name, typ, r) == if c.kind == Item then r.check(typ, c.value) else None
  {
    assert [c][1..] == [];
    assert Text(rule, [], name, typ, r) == None;
    if NameBy(rule, c, r) == name { assert Gather(rule, [c], name, r) == c.children + []; }
  }

  /** An entry merged into the k-th child, which has become d. */
  lemma IntoLands(us: seq<Tree>, k: nat, d: Tree, c: Tree, name: string, r: Rules)
    requires Sane(us) && Unique(us) && k < |us| && !us[k].isTemplate && us[k].name == name && NameBy(RuleOf(us), c, r) == name
    requires d == us[k].(newValue := d.newValue, status := d.status, isNew := d.isNew) && Stays(d)
    requires c.kind == Item ==> r.check(d.typ, c.value) == Some(d.newValue) && d.status == Modified
    requires c.kind != Item && d.kind == Item ==> d.newValue == us[k].newValue && d.status == us[k].status
    requires MergeInto(us, k, d, c, true, r).ok
    ensures var vs := MergeInto(us, k, d, c, true, r).children;
            SameSeats(us, vs) && OnlyAt(us, vs, name) && At(vs, name).Some? && Landed(us, At(vs, name).value, [c], name, r)
  {
    hide Sane, Unique, SaneNode, Merge, MadeFrom;
    TargetLevel(us, k);
    FindIs(us, k, name);
    OneEntry(RuleOf(us), c, name, d.typ, r);
    var m := Merge(d.children, c.children, true, r);
    OnlyAtReplaced(us, k, d.(children := m.children));
    BehindIsBlock(us, k);
  }

  lemma BehindIsBlock(us: seq<Tree>, k: nat)
    requires Sane(us) && k < |us| && !us[k].isTemplate
    ensures Dynamic(us) ==> us[k].kind == Block && k > 0
  {
    hide SaneNode;
    TargetLevel(us, k);
  }

  lemma NewLands(us: seq<Tree>, c: Tree, name: string, r: Rules)
    requires Sane(us) && Unique(us) && Dynamic(us) && Find(us, name) == |us| && NameBy(RuleOf(us), c, r) == name && c.kind == Block
    requires MergeNew(us, Instantiated(us[0], name, true), c, true, r).ok
    ensures var vs := MergeNew(us, Instantiated(us[0], name, true), c, true, r).children;
            SameSeats(us, vs) && OnlyAt(us, vs, name) && At(vs, name).Some? && Landed(us, At(vs, name).value, [c], name, r)
  {
    hide Sane, Unique, SaneNode, Merge, Placed;
    TargetLevel(us, 0);
    TemplateCopied(us[0]);
    OneEntry(RuleOf(us), c, name, "", r);
    var d := Instantiated(us[0], name, true);
    var m := Merge(d.children, c.children, true, r);
    ChildrenAreSane(us[0]);
    UniqueBelow(us, 0);
    Grows(us[0].children, c.children, r);
    OnlyAtPlaced(us, d.(children := m.children), r);
    PlacedSize(us, d.(children := m.children), r);
  }

  lemma OneLands(us: seq<Tree>, c: Tree, r: Rules)
    requires Sane(us) && Unique(us) && MergeOne(us, c, true, r).ok
    ensures var vs, name := MergeOne(us, c, true, r).children, NameBy(RuleOf(us), c, r);
            SameSeats(us, vs) && OnlyAt(us, vs, name) && At(vs, name).Some? && us != [] && Landed(us, At(vs, name).value, [c], name, r)
  {
    hide Sane, Unique, SaneNode, MergeInto, MergeNew, Landed, SameSeats, OnlyAt, Instantiated;
    var j, name := Target(us, c.name), NameBy(RuleOf(us), c, r);
    TargetFound(us, c.name);
    TargetFound(us, name);
    TargetLevel(us, j);
    if us[j].isTemplate {
      var k := Named(us, 1, name);
      if k < |us| {
        TargetLevel(us, k);
        IntoLands(us, k, us[k].(status := Modified, isNew := false), c, name, r);
      } else {
        NewLands(us, c, name, r);
      }
    } else if c.kind == Item {
      IntoLands(us, j, Overwritten(us[j], r.check(us[j].typ, c.value).value, true), c, name, r);
    } else {
      FixedStays(us[j]);
      IntoLands(us, j, us[j], c, name, r);
    }
  }

  /** One entry, then the others. */
  lemma {:induction false} MergeLands(us: seq<Tree>, cs: seq<Tree>, name: string, r: Rules)
    requires Sane(us) && Unique(us) && Merge(us, cs, true, r).ok
    ensures LandedAt(us, Merge(us, cs, true, r).children, cs, name, r)
    ensures SameSeats(us, Merge(us, cs, true, r).children)
    decreases |cs|
  {
    hide Sane, Unique, MergeOne, LandedAt, SameSeats;
    if cs != [] {
      var vs := MergeOne(us, cs[0], true, r).children;
      OneLands(us, cs[0], r);
      MergeOneKeepsShape(us, cs[0], true, r);
      GrowsOne(us, cs[0], r);
      MergeLands(vs, cs[1..], name, r);
      LandsOn(us, vs, Merge(vs, cs[1..], true, r).children, cs, name, r);
    } else {
      NothingLands(us, name, r);
    }
  }

  lemma NothingLands(us: seq<Tree>, name: string, r: Rules)
    ensures LandedAt(us, us, [], name, r) && SameSeats(us, us)
  {
  }

  lemma LandsOn(us: seq<Tree>, vs: seq<Tree>, ws: seq<Tree>, cs: seq<Tree>, name: string, r: Rules)
    requires cs != [] && us != [] && SameSeats(us, vs) && SameSeats(vs, ws)
    requires var first := NameBy(RuleOf(us), cs[0], r);
             OnlyAt(us, vs, first) && At(vs, first).Some? && Landed(us, At(vs, first).value, [cs[0]], first, r)
    requires LandedAt(vs, ws, cs[1..], name, r)
    ensures LandedAt(us, ws, cs, name, r) && SameSeats(us, ws)
  {
    hide Merge, Stays;
    var rule, first := RuleOf(us), NameBy(RuleOf(us), cs[0], r);
    if first != name {
      assert At(vs, name) == At(us, name);
      if Speaks(rule, cs[1..], name, r) { OthersLand(us, vs, At(ws, name).value, cs, name, r); }
    } else {
      OneEntry(rule, cs[0], name, At(vs, name).value.typ, r);
      if Speaks(rule, cs[1..], name, r) {
        LaterLands(us, vs, At(ws, name).value, cs, name, r);
      } else {
        NothingLater(rule, cs[1..], name, At(vs, name).value.typ, r);
        assert cs[0].children + [] == cs[0].children;
      }
    }
  }

  lemma {:induction false} NothingLater(rule: Option<string>, cs: seq<Tree>, name: string, typ: string, r: Rules)
    requires !Speaks(rule, cs, name, r)
    ensures Gather(rule, cs, name, r) == [] && Text(rule, cs, name, typ, r) == None
  {
    if cs != [] { NothingLater(rule, cs[1..], name, typ, r); }
  }

  /** Entries before it have other names. */
  lemma OthersLand(us: seq<Tree>, vs: seq<Tree>, d: Tree, cs: seq<Tree>, name: string, r: Rules)
    requires cs != [] && us != [] && vs != [] && SameSeats(us, vs) && At(vs, name) == At(us, name)
    requires NameBy(RuleOf(us), cs[0], r) != name && Landed(vs, d, cs[1..], name, r)
    ensures Landed(us, d, cs, name, r)
  {
    hide Merge, Stays;
    assert Gather(RuleOf(us), cs, name, r) == [] + Gather(RuleOf(us), cs[1..], name, r);
    if Find(us, name) == |us| {
      assert At(us, name) == None == At(vs, name);
      assert Dynamic(vs) && vs[0] == us[0];
    } else {
      assert At(us, name) == Some(us[Seat(us, name)]) && At(vs, name) == Some(vs[Seat(vs, name)]);
    }
    assert us[Seat(us, name)].children == vs[Seat(vs, name)].children;
    assert Gather(RuleOf(us), cs, name, r) == Gather(RuleOf(vs), cs[1..], name, r);
    assert Text(RuleOf(us), cs, name, d.typ, r) == Text(RuleOf(vs), cs[1..], name, d.typ, r);
    hide Gather, Text, Find, Seat, NameBy;
    assert Stays(d) && d.name == name;
    assert At(us, name).Some? ==> d.typ == At(us, name).value.typ && d.kind == At(us, name).value.kind;
    assert At(us, name).None? ==> Dynamic(us) && d.typ == "" && d.kind == Block;
    assert Dynamic(us) ==> d.kind == Block;
  }

  lemma LaterLands(us: seq<Tree>, vs: seq<Tree>, d: Tree, cs: seq<Tree>, name: string, r: Rules)
    requires cs != [] && us != [] && vs != [] && SameSeats(us, vs) && At(vs, name).Some?
    requires NameBy(RuleOf(us), cs[0], r) == name && Landed(us, At(vs, name).value, [cs[0]], name, r)
    requires Landed(vs, d, cs[1..], name, r)
    ensures Landed(us, d, cs, name, r)
  {
    hide Merge, Stays;
    var rule, e := RuleOf(us), At(vs, name).value;
    OneEntry(rule, cs[0], name, d.typ, r);
    MergeConcat(us[Seat(us, name)].children, cs[0].children, Gather(rule, cs[1..], name, r), true, r);
  }

  // ---------------------------------------------------------------- what the contents alone say

  function Spoken(rule: Option<string>, cs: seq<Tree>, r: Rules): (ns: set<string>)
    ensures forall n :: n in ns <==> Speaks(rule, cs, n, r)
  {
    if cs == [] then {} else {NameBy(rule, cs[0], r)} + Spoken(rule, cs[1..], r)
  }

  function TextOr(t: Option<string>, or: string): string {
    if t.Some? then t.value else or
  }

  /** The configuration that consists of the contents and of what the definition fixes, with no
      other value: independent of any tree they are merged into. */
  function Said(bs: seq<Bone>, cs: seq<Tree>, r: Rules): map<string, Entry>
    decreases bs
  {
    if bs != [] && bs[0].isTemplate then
      var rule := Some(bs[0].typ);
      map n | n in Spoken(rule, cs, r) :: Entry("", Block, "", Said(bs[0].children, Gather(rule, cs, n, r), r))
    else
      map n | n in (set b | b in bs :: b.name) :: SaidOf(bs[FindBone(bs, n)], n, cs, r)
  }

  function SaidOf(b: Bone, n: string, cs: seq<Tree>, r: Rules): Entry
    decreases b
  {
    Entry(b.typ, b.kind, if b.kind == Item then TextOr(Text(None, cs, n, b.typ, r), "") else "",
          Said(b.children, Gather(None, cs, n, r), r))
  }

  // ---------------------------------------------------------------- what is left over

  /** Something is pending that the contents do not mention: a value, or a block made from a
      template that is not deleted; or it is inside a block that they list. */
  predicate Left(us: seq<Tree>, cs: seq<Tree>, r: Rules)
    decreases us
  {
    if Dynamic(us) then
      || (exists i :: 1 <= i < |us| && Stays(us[i]) && !Speaks(RuleOf(us), cs, us[i].name, r))
      || (exists n :: n in Spoken(RuleOf(us), cs, r) &&
            ((us[Seat(us, n)].typ != "" && Seat(us, n) > 0)
             || Left(us[Seat(us, n)].children, Gather(RuleOf(us), cs, n, r), r)))
    else exists i :: 0 <= i < |us| && LeftNode(us[i], cs, r)
  }

  predicate LeftNode(t: Tree, cs: seq<Tree>, r: Rules)
    decreases t
  {
    if t.kind == Item then Text(None, cs, t.name, t.typ, r) == None && t.status != Deleted && t.newValue != ""
    else Left(t.children, Gather(None, cs, t.name, r), r)
  }

  // ---------------------------------------------------------------- one level

  /** The entry the merge leaves pending under a name. */
  ghost function PendingLookup(vs: seq<Tree>, n: string): Option<Entry> {
    var d := At(vs, n);
    if d.Some? && Stays(d.value) then Some(PendingEntry(d.value)) else None
  }

  lemma PendingLookupIs(vs: seq<Tree>, n: string)
    requires Unique(vs)
    ensures PendingLookup(vs, n) == if n in PendingByName(vs) then Some(PendingByName(vs)[n]) else None
  {
    hide Unique, PendingByName, PendingNode, EntryOf, PendingEntry;
    PendingAt(vs, n);
    var k := Find(vs, n);
    if k < |vs| { PendingEntryIs(vs[k]); }
  }

  lemma SamePending(vs: seq<Tree>, m: map<string, Entry>)
    requires Unique(vs)
    ensures PendingByName(vs) == m <==> forall n :: PendingLookup(vs, n) == if n in m then Some(m[n]) else None
  {
    hide Unique, PendingByName, PendingLookup;
    forall n ensures PendingLookup(vs, n) == if n in PendingByName(vs) then Some(PendingByName(vs)[n]) else None {
      PendingLookupIs(vs, n);
    }
    if forall n :: PendingLookup(vs, n) == if n in m then Some(m[n]) else None {
      var a := PendingByName(vs);
      forall n: string ensures n in a <==> n in m { assert PendingLookup(vs, n) == if n in m then Some(m[n]) else None; }
      forall n | n in a ensures a[n] == m[n] { assert PendingLookup(vs, n) == if n in m then Some(m[n]) else None; }
      assert a.Keys == m.Keys;
    }
  }

  /** What becomes of a child, whether the contents mention it or not. */
  ghost predicate Became(t: Tree, d: Tree, rule: Option<string>, cs: seq<Tree>, r: Rules) {
    var m := Merge(t.children, Gather(rule, cs, t.name, r), true, r);
    && m.ok && d.children == m.children && d.name == t.name && d.typ == t.typ && d.kind == t.kind
    && (Stays(t) ==> Stays(d))
    && (t.kind == Item ==>
          PendingEntry(d).value == TextOr(Text(rule, cs, t.name, t.typ, r), if t.status == Deleted then "" else t.newValue))
  }

  lemma ChildBecomes(us: seq<Tree>, cs: seq<Tree>, i: nat, r: Rules)
    requires Sane(us) && Unique(us) && Merge(us, cs, true, r).ok && i < |us| && !us[i].isTemplate
    ensures var d := At(Merge(us, cs, true, r).children, us[i].name);
            d.Some? && Became(us[i], d.value, RuleOf(us), cs, r)
  {
    hide Sane, Unique, Merge, PendingByName;
    var name, rule := us[i].name, RuleOf(us);
    FindIs(us, i, name);
    MergeLands(us, cs, name, r);
    if !Speaks(rule, cs, name, r) {
      NothingLater(rule, cs, name, us[i].typ, r);
      NothingMerged(us[i].children, r);
    }
  }

  lemma NothingMerged(ts: seq<Tree>, r: Rules)
    ensures Merge(ts, [], true, r) == Merged(ts, true)
  {
  }

  // ---------------------------------------------------------------- exactly what is said

  /** The merge leaves under a name what the contents say. */
  ghost predicate AsSaid(us: seq<Tree>, cs: seq<Tree>, n: string, r: Rules) {
    var m := Said(Skeleton(us), cs, r);
    PendingLookup(Merge(us, cs, true, r).children, n) == if n in m then Some(m[n]) else None
  }

  lemma AllAsSaid(us: seq<Tree>, cs: seq<Tree>, r: Rules)
    requires Unique(Merge(us, cs, true, r).children)
    ensures PendingByName(Merge(us, cs, true, r).children) == Said(Skeleton(us), cs, r) <==> forall n :: AsSaid(us, cs, n, r)
  {
    hide Unique, Said, Skeleton, Merge, PendingByName, PendingLookup;
    var vs, m := Merge(us, cs, true, r).children, Said(Skeleton(us), cs, r);
    SamePending(vs, m);
    forall n ensures AsSaid(us, cs, n, r) <==> PendingLookup(vs, n) == if n in m then Some(m[n]) else None {}
  }

  /** A child of a level that the definition fixes. */
  ghost predicate FixedSays(us: seq<Tree>, cs: seq<Tree>, i: nat, r: Rules)
    requires i < |us|
  {
    var n, vs := us[i].name, Merge(us, cs, true, r).children;
    && PendingLookup(vs, n).Some?
    && (PendingLookup(vs, n) == Some(SaidOf(BoneOf(us[i]), n, cs, r)) <==> !LeftNode(us[i], cs, r))
  }

  lemma {:induction false} FixedSaysSo(us: seq<Tree>, cs: seq<Tree>, i: nat, r: Rules)
    requires Sane(us) && Unique(us) && Merge(us, cs, true, r).ok && !Dynamic(us) && i < |us|
    ensures FixedSays(us, cs, i, r)
    decreases us, 0
  {
    hide Sane, Unique, Merge, PendingByName, SaneNode, Skeleton, Said, Left;
    TargetLevel(us, i);
    ChildrenAreSane(us[i]);
    UniqueBelow(us, i);
    FixedStays(us[i]);
    ChildBecomes(us, cs, i, r);
    SaysExactly(us[i].children, Gather(None, cs, us[i].name, r), r);
    NothingIsLeft(Gather(None, cs, us[i].name, r), r);
    KindIs(us[i]);
  }

  lemma KindIs(t: Tree)
    requires SaneNode(t)
    ensures t.kind != OtherKind
  {
  }

  lemma NothingIsLeft(cs: seq<Tree>, r: Rules)
    ensures !Left([], cs, r)
  {
  }

  /** A name on a level with a template. */
  predicate LeftAt(us: seq<Tree>, cs: seq<Tree>, n: string, r: Rules)
    requires us != []
  {
    var k := Seat(us, n);
    if Speaks(RuleOf(us), cs, n, r) then (us[k].typ != "" && k > 0) || Left(us[k].children, Gather(RuleOf(us), cs, n, r), r)
    else At(us, n).Some? && Stays(At(us, n).value)
  }

  ghost predicate DynamicSays(us: seq<Tree>, cs: seq<Tree>, n: string, r: Rules)
    requires us != []
  {
    AsSaid(us, cs, n, r) <==> !LeftAt(us, cs, n, r)
  }

  lemma {:induction false} DynamicSaysSo(us: seq<Tree>, cs: seq<Tree>, n: string, r: Rules)
    requires Sane(us) && Unique(us) && Merge(us, cs, true, r).ok && Dynamic(us)
    ensures DynamicSays(us, cs, n, r)
    decreases us, 0
  {
    hide Sane, Unique, Merge, PendingByName, SaneNode, Left, Find, Skeleton, Said, Gather;
    var k, rule := Seat(us, n), RuleOf(us);
    MergeLands(us, cs, n, r);
    if Speaks(rule, cs, n, r) {
      TargetLevel(us, k);
      ChildrenAreSane(us[k]);
      UniqueBelow(us, k);
      SaysExactly(us[k].children, Gather(rule, cs, n, r), r);
    }
    DynamicEntry(us, cs, n, k, r);
  }

  lemma DynamicEntry(us: seq<Tree>, cs: seq<Tree>, n: string, k: nat, r: Rules)
    requires Sane(us) && Dynamic(us) && k == Seat(us, n) && LandedAt(us, Merge(us, cs, true, r).children, cs, n, r)
    requires var g := Gather(RuleOf(us), cs, n, r); Speaks(RuleOf(us), cs, n, r) ==>
               (PendingByName(Merge(us[k].children, g, true, r).children) == Said(Skeleton(us[k].children), g, r)
                <==> !Left(us[k].children, g, r))
    ensures DynamicSays(us, cs, n, r)
  {
    hide Sane, Merge, PendingByName, Left, Find, Skeleton, Said, Gather;
    BoneAt(us, k);
    DynamicSaid(us, cs, n, r);
  }

  lemma DynamicSaid(us: seq<Tree>, cs: seq<Tree>, n: string, r: Rules)
    requires Sane(us) && Dynamic(us)
    ensures var m, rule := Said(Skeleton(us), cs, r), RuleOf(us);
            && (n in m <==> Speaks(rule, cs, n, r))
            && (n in m ==> m[n] == Entry("", Block, "", Said(Skeleton(us)[0].children, Gather(rule, cs, n, r), r)))
  {
    hide SaneNode, Gather, Skeleton;
    BoneAt(us, 0);
  }

  /** What a successful merge makes pending is exactly what the contents say, and what the
      definition fixes, if and only if nothing is left over. */
  lemma {:induction false} SaysExactly(us: seq<Tree>, cs: seq<Tree>, r: Rules)
    requires Sane(us) && Unique(us) && Merge(us, cs, true, r).ok
    ensures PendingByName(Merge(us, cs, true, r).children) == Said(Skeleton(us), cs, r) <==> !Left(us, cs, r)
    decreases us, 1
  {
    hide Sane, Unique, Merge, PendingByName, SaneNode, Skeleton, Said, Left, FixedSays, DynamicSays, LeftNode;
    Grows(us, cs, r);
    AllAsSaid(us, cs, r);
    if Dynamic(us) {
      forall n ensures DynamicSays(us, cs, n, r) { DynamicSaysSo(us, cs, n, r); }
      DynamicLevel(us, cs, r);
    } else {
      forall i | 0 <= i < |us| ensures FixedSays(us, cs, i, r) { FixedSaysSo(us, cs, i, r); }
      FixedLevel(us, cs, r);
    }
  }

  lemma LeftSomewhere(us: seq<Tree>, cs: seq<Tree>, r: Rules)
    requires Unique(us) && Dynamic(us)
    ensures Left(us, cs, r) <==> exists n :: LeftAt(us, cs, n, r)
  {
    hide Unique, Gather;
    if n :| LeftAt(us, cs, n, r) {
      if !Speaks(RuleOf(us), cs, n, r) { assert us[Find(us, n)].name == n; }
    }
    if i :| 1 <= i < |us| && Stays(us[i]) && !Speaks(RuleOf(us), cs, us[i].name, r) {
      FindIs(us, i, us[i].name);
      assert LeftAt(us, cs, us[i].name, r);
    }
    if n :| n in Spoken(RuleOf(us), cs, r) &&
            ((us[Seat(us, n)].typ != "" && Seat(us, n) > 0) || Left(us[Seat(us, n)].children, Gather(RuleOf(us), cs, n, r), r)) {
      assert LeftAt(us, cs, n, r);
    }
  }

  lemma DynamicLevel(us: seq<Tree>, cs: seq<Tree>, r: Rules)
    requires Unique(us) && Dynamic(us) && forall n :: DynamicSays(us, cs, n, r)
    ensures (forall n :: AsSaid(us, cs, n, r)) <==> !Left(us, cs, r)
  {
    hide Unique, Left, LeftAt, Merge, Said, Skeleton, PendingLookup, Find, Speaks, Gather, Spoken;
    LeftSomewhere(us, cs, r);
    forall n ensures AsSaid(us, cs, n, r) <==> !LeftAt(us, cs, n, r) { assert DynamicSays(us, cs, n, r); }
    assert (forall n :: AsSaid(us, cs, n, r)) <==> !exists n :: LeftAt(us, cs, n, r);
  }

  /** Names on a level without a template. */
  lemma FixedNames(us: seq<Tree>, cs: seq<Tree>, n: string, r: Rules)
    requires Sane(us) && Unique(us) && !Dynamic(us) && Merge(us, cs, true, r).ok
    ensures var vs, m, k := Merge(us, cs, true, r).children, Said(Skeleton(us), cs, r), Find(us, n);
            if k < |us| then n in m && m[n] == SaidOf(BoneOf(us[k]), n, cs, r) && us[k].name == n
            else PendingLookup(vs, n) == None && n !in m
  {
    hide Unique, SaneNode, Merge, PendingEntry, SaidOf;
    MergeLands(us, cs, n, r);
    TargetFound(us, n);
    var bs, k := Skeleton(us), Find(us, n);
    if k < |us| {
      assert bs[k] in bs && bs[k] == BoneOf(us[k]) && bs[k].name == n;
    } else {
      assert At(us, n) == None;
    }
    NoTemplate(us);
  }

  lemma NoTemplate(us: seq<Tree>)
    requires Sane(us) && !Dynamic(us)
    ensures |Skeleton(us)| == |us| && forall i :: 0 <= i < |us| ==> !Skeleton(us)[i].isTemplate && Skeleton(us)[i].name == us[i].name
    ensures forall i :: 0 <= i < |us| ==> !us[i].isTemplate
  {
    hide SaneNode;
    assert forall i :: 0 <= i < |us| ==> Fixed(us[i]);
  }

  lemma FixedLevel(us: seq<Tree>, cs: seq<Tree>, r: Rules)
    requires Sane(us) && Unique(us) && !Dynamic(us) && Merge(us, cs, true, r).ok
    requires forall i :: 0 <= i < |us| ==> FixedSays(us, cs, i, r)
    ensures (forall n :: AsSaid(us, cs, n, r)) <==> !Left(us, cs, r)
  {
    NoTemplate(us);
    hide Unique, Sane, Merge, Said, SaidOf, Skeleton, PendingLookup, LeftNode;
    var vs, m := Merge(us, cs, true, r).children, Said(Skeleton(us), cs, r);
    forall n ensures if Find(us, n) < |us| then n in m && m[n] == SaidOf(BoneOf(us[Find(us, n)]), n, cs, r)
                     else PendingLookup(vs, n) == None && n !in m
    {
      FixedNames(us, cs, n, r);
    }
    if forall n :: AsSaid(us, cs, n, r) {
      forall i | 0 <= i < |us| ensures !LeftNode(us[i], cs, r) {
        FindIs(us, i, us[i].name);
        assert FixedSays(us, cs, i, r) && AsSaid(us, cs, us[i].name, r);
      }
    } else {
      var n :| !AsSaid(us, cs, n, r);
      var i := Find(us, n);
      assert i < |us| && FixedSays(us, cs, i, r);
      assert LeftNode(us[i], cs, r);
    }
  }

  // ---------------------------------------------------------------- replacing

  /** In a reset tree nothing can be left over. */
  lemma {:induction false} ResetLeavesNothing(us: seq<Tree>, cs: seq<Tree>, r: Rules)
    requires Sane(us)
    ensures !Left(Reset(us), cs, r)
    decreases us
  {
    hide SaneNode, Sane, Skeleton;
    if Dynamic(us) {
      TargetLevel(us, 0);
      ChildrenAreSane(us[0]);
      forall ds ensures !Left(Reset(us[0].children), ds, r) { ResetLeavesNothing(us[0].children, ds, r); }
    } else {
      forall i | 0 <= i < |us| ensures !LeftNode(ResetNode(us[i]), cs, r) {
        TargetLevel(us, i);
        ChildrenAreSane(us[i]);
        ResetLeavesNothing(us[i].children, Gather(None, cs, us[i].name, r), r);
      }
    }
  }

  /** What replace_prepare marks, reset clears. */
  lemma {:induction false} ResetPrepared(ts: seq<Tree>)
    requires Sane(ts)
    ensures Reset(ReplacePrepare(ts)) == Reset(ts)
    decreases ts
  {
    hide ReplacePrepare, SaneNode, Sane, Skeleton;
    var us := ReplacePrepare(ts);
    if ts != [] { PreparedAt(ts, 0); }
    if Dynamic(ts) { return; }
    forall i | 0 <= i < |ts| ensures ResetNode(us[i]) == ResetNode(ts[i]) && us[i].isTemplate == ts[i].isTemplate {
      PreparedAt(ts, i);
      TargetLevel(ts, i);
      ChildrenAreSane(ts[i]);
      ResetPrepared(ts[i].children);
    }
    assert !Dynamic(us);
    assert Reset(us) == Reset(ts);
  }

  /** What replace_prepare does not reach: inside a block that the contents list again, a value
      or a block made from a template that they do not mention. */
  predicate Leftover(ts: seq<Tree>, cs: seq<Tree>, r: Rules)
    decreases ts
  {
    if Dynamic(ts) then
      exists n :: n in Spoken(RuleOf(ts), cs, r) &&
        ((ts[Seat(ts, n)].typ != "" && Seat(ts, n) > 0)
         || Left(ts[Seat(ts, n)].children, Gather(RuleOf(ts), cs, n, r), r))
    else exists i :: 0 <= i < |ts| && LeftoverNode(ts[i], cs, r)
  }

  predicate LeftoverNode(t: Tree, cs: seq<Tree>, r: Rules)
    decreases t
  {
    t.kind != Item && Leftover(t.children, Gather(None, cs, t.name, r), r)
  }

  lemma {:induction false} LeftoverIs(ts: seq<Tree>, cs: seq<Tree>, r: Rules)
    requires Sane(ts) && Unique(ts)
    ensures Left(ReplacePrepare(ts), cs, r) <==> Leftover(ts, cs, r)
    decreases ts
  {
    var us := ReplacePrepare(ts);
    if Dynamic(ts) {
      LeftoverBehind(ts, cs, r);
    } else {
      hide ReplacePrepare, SaneNode, Sane, Skeleton, Unique, Gather, LeftNode, LeftoverNode;
      if ts != [] { PreparedAt(ts, 0); NoTemplate(ts); }
      forall i | 0 <= i < |ts| ensures LeftNode(us[i], cs, r) <==> LeftoverNode(ts[i], cs, r) {
        PreparedAt(ts, i);
        TargetLevel(ts, i);
        ChildrenAreSane(ts[i]);
        UniqueBelow(ts, i);
        LeftoverIs(ts[i].children, Gather(None, cs, ts[i].name, r), r);
        PreparedLeft(ts[i], cs, r);
      }
      assert !Dynamic(us);
    }
  }

  lemma PreparedLeft(t: Tree, cs: seq<Tree>, r: Rules)
    requires var ds := Gather(None, cs, t.name, r); Left(ReplacePrepare(t.children), ds, r) <==> Leftover(t.children, ds, r)
    ensures LeftNode(PrepareNode(t), cs, r) <==> LeftoverNode(t, cs, r)
  {
    hide ReplacePrepare, Left, Leftover;
  }

  /** Behind a template everything is marked and nothing is touched. */
  lemma LeftoverBehind(ts: seq<Tree>, cs: seq<Tree>, r: Rules)
    requires Sane(ts) && Unique(ts) && Dynamic(ts)
    ensures Left(ReplacePrepare(ts), cs, r) <==> Leftover(ts, cs, r)
  {
    hide ReplacePrepare, SaneNode, Sane, Skeleton, Unique, Gather;
    var us := ReplacePrepare(ts);
    forall i | 0 <= i < |ts|
      ensures us[i].name == ts[i].name && us[i].isTemplate == ts[i].isTemplate && us[i].typ == ts[i].typ
      ensures us[i].children == ts[i].children && (i > 0 ==> !Stays(us[i]))
    {
      PreparedAt(ts, i);
      TargetLevel(ts, i);
    }
    forall n ensures Seat(us, n) == Seat(ts, n) { SameSeat(ts, us, n); }
    assert RuleOf(us) == RuleOf(ts);
  }

  lemma SameSeat(ts: seq<Tree>, us: seq<Tree>, name: string)
    requires |us| == |ts| && ts != []
    requires forall j :: 0 <= j < |ts| ==> us[j].name == ts[j].name && us[j].isTemplate == ts[j].isTemplate
    ensures Seat(us, name) == Seat(ts, name)
  {
    var j, k := Find(ts, name), Find(us, name);
  }

  /** Merging contents after replace_prepare succeeds when merging them into a reset tree does,
      and then makes pending, and a commit puts in force, the same configuration, which is the
      one the contents alone describe, exactly if nothing is left over in blocks they list. */
  lemma ReplacesExactly(ts: seq<Tree>, cs: seq<Tree>, r: Rules)
    requires Sane(ts) && Unique(ts)
    ensures var a, b := Merge(ReplacePrepare(ts), cs, true, r), Merge(Reset(ts), cs, true, r);
            && a.ok == b.ok
            && (b.ok ==> PendingByName(b.children) == Said(Skeleton(ts), cs, r))
            && (a.ok ==>
                  && (PendingByName(a.children) == PendingByName(b.children) <==> !Leftover(ts, cs, r))
                  && (InForceByName(Commit(a.children)) == Said(Skeleton(ts), cs, r) <==> !Leftover(ts, cs, r)))
  {
    hide Sane, Unique, Skeleton, Merge, ReplacePrepare, Reset, Said, Left, Leftover;
    var us, vs := ReplacePrepare(ts), Reset(ts);
    PrepareKeepsShape(ts);
    PrepareKeepsNames(ts);
    ResetKeepsShape(ts);
    ResetKeepsNames(ts);
    SameSuccess(us, vs, cs, r);
    ResetLeavesNothing(ts, cs, r);
    LeftoverIs(ts, cs, r);
    if Merge(us, cs, true, r).ok {
      SaysExactly(us, cs, r);
      SaysExactly(vs, cs, r);
      MergeKeepsShape(us, cs, true, r);
      CommittedAsPending(Merge(us, cs, true, r).children);
    }
  }

  lemma CommittedAsPending(ts: seq<Tree>)
    requires Sane(ts)
    ensures InForceByName(Commit(ts)) == PendingByName(ts)
  {
    SaneIs(ts);
    CommitPutsInForce(ts);
  }

  lemma SameSuccess(us: seq<Tree>, vs: seq<Tree>, cs: seq<Tree>, r: Rules)
    requires Sane(us) && Sane(vs) && Skeleton(us) == Skeleton(vs)
    ensures Merge(us, cs, true, r).ok == Merge(vs, cs, true, r).ok
  {
    MergeSucceeds(us, cs, true, r);
    MergeSucceeds(vs, cs, true, r);
    SameVerdict(us, vs, cs, r);
  }
}
