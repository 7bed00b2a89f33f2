/** merge(.., false), as when a daemon loads its configuration: a block behind a template is
    made for every entry of the contents, without looking for one of that name. */
module ConfigQuiet {
  import opened ConfigTree
  import opened ConfigMerge
  import opened ConfigByName
  import opened ConfigHidden
  import opened ConfigValidate
  import opened ConfigStopped

  /** No entry for a block behind a template has the name of a block that stands there when it
      is merged. */
  predicate Apart(ts: seq<Tree>, cs: seq<Tree>, r: Rules)
    decreases cs, 0
  {
    cs == [] || (ApartOne(ts, cs[0], r) && Apart(MergeOne(ts, cs[0], false, r).children, cs[1..], r))
  }

  predicate ApartOne(ts: seq<Tree>, c: Tree, r: Rules)
    decreases c, 1
  {
    var j := Target(ts, c.name);
    if j == |ts| then true
    else if ts[j].isTemplate then
      (r.check(ts[j].typ, c.name).Some? ==> Find(ts, r.check(ts[j].typ, c.name).value) == |ts|)
      && Apart(ts[j].children, c.children, r)
    else Apart(ts[j].children, c.children, r)
  }

  // ---------------------------------------------------------------- one child, one block more

  /** A child with other children: names are apart exactly if they were and are below it. */
  lemma ReplacedApart(ts: seq<Tree>, i: nat, d: Tree)
    requires i < |ts| && d.name == ts[i].name && d.isTemplate == ts[i].isTemplate
    requires Unique(d.children) ==> Unique(ts[i].children)
    ensures Unique(ts[i := d]) ==> Unique(ts) && Unique(d.children)
    ensures Unique(ts) && Unique(d.children) ==> Unique(ts[i := d])
  {
    var us := ts[i := d];
    assert forall j :: 0 <= j < |ts| ==> us[j].name == ts[j].name && us[j].isTemplate == ts[j].isTemplate;
    if Unique(us) {
      assert us[i] == d;
      forall j | 0 <= j < |ts| ensures Unique(ts[j].children) { if j != i { assert us[j] == ts[j]; } }
    }
  }

  /** One block more behind the template. */
  lemma PlacedApart(ts: seq<Tree>, d: Tree, r: Rules)
    requires ts != [] && !d.isTemplate
    ensures Unique(Placed(ts, d, r)) <==> Unique(ts) && Unique(d.children) && Find(ts, d.name) == |ts|
  {
    hide Placed;
    PlacedIsPermuted(ts, d, r);
    if Unique(Placed(ts, d, r)) {
      UniquePermuted(Placed(ts, d, r), ts + [d]);
      UniqueLess(ts, d);
    }
    if Unique(ts) && Unique(d.children) && Find(ts, d.name) == |ts| {
      UniqueMore(ts, d);
      UniquePermuted(ts + [d], Placed(ts, d, r));
    }
  }

  lemma UniqueLess(ts: seq<Tree>, d: Tree)
    requires Unique(ts + [d]) && !d.isTemplate
    ensures Unique(ts) && Unique(d.children) && Find(ts, d.name) == |ts|
  {
    var us := ts + [d];
    assert us[|ts|] == d && forall i :: 0 <= i < |ts| ==> us[i] == ts[i];
  }

  // ---------------------------------------------------------------- names after a quiet merge

  /** What a merge comes to for names: if they are apart afterwards they were before; if the
      entries are apart they stay so; and a successful merge leaves them apart only then. */
  ghost predicate NamesAfter(ts: seq<Tree>, m: Merged, apart: bool) {
    && (Unique(m.children) ==> Unique(ts))
    && (Unique(ts) && apart ==> Unique(m.children))
    && (m.ok && Unique(m.children) ==> apart)
  }

  lemma {:induction false} QuietNames(ts: seq<Tree>, cs: seq<Tree>, r: Rules)
    requires Sane(ts)
    ensures NamesAfter(ts, Merge(ts, cs, false, r), Apart(ts, cs, r))
    decreases cs, 0
  {
    hide Sane, Unique, MergeOne, ApartOne;
    if cs != [] {
      QuietNamesOne(ts, cs[0], r);
      MergeOneKeepsShape(ts, cs[0], false, r);
      QuietNames(MergeOne(ts, cs[0], false, r).children, cs[1..], r);
    }
  }

  lemma {:induction false} QuietNamesOne(ts: seq<Tree>, c: Tree, r: Rules)
    requires Sane(ts)
    ensures NamesAfter(ts, MergeOne(ts, c, false, r), ApartOne(ts, c, r))
    decreases c, 1
  {
    hide Sane, SaneNode, Unique, Merge, Apart, MergeInto, MergeNew, Instantiated;
    var j := Target(ts, c.name);
    if j == |ts| { return; }
    TargetLevel(ts, j);
    ChildrenAreSane(ts[j]);
    QuietNames(ts[j].children, c.children, r);
    if ts[j].isTemplate {
      var name := r.check(ts[0].typ, c.name);
      if c.kind == Block && name.Some? { NewNames(ts, name.value, c, r); }
    } else if c.kind == Item {
      var v := r.check(ts[j].typ, c.value);
      if v.Some? { IntoNames(ts, j, Overwritten(ts[j], v.value, false), c, r); }
    } else {
      IntoNames(ts, j, ts[j], c, r);
    }
  }

  lemma IntoNames(ts: seq<Tree>, i: nat, d: Tree, c: Tree, r: Rules)
    requires i < |ts| && d == ts[i].(value := d.value, newValue := d.newValue)
    requires NamesAfter(ts[i].children, Merge(ts[i].children, c.children, false, r), Apart(ts[i].children, c.children, r))
    ensures NamesAfter(ts, MergeInto(ts, i, d, c, false, r), Apart(ts[i].children, c.children, r))
  {
    hide Merge, Apart;
    var m := Merge(d.children, c.children, false, r);
    ReplacedApart(ts, i, d.(children := m.children));
  }

  lemma NewNames(ts: seq<Tree>, name: string, c: Tree, r: Rules)
    requires Sane(ts) && Dynamic(ts)
    requires NamesAfter(ts[0].children, Merge(ts[0].children, c.children, false, r), Apart(ts[0].children, c.children, r))
    ensures NamesAfter(ts, MergeNew(ts, Instantiated(ts[0], name, false), c, false, r),
                       Find(ts, name) == |ts| && Apart(ts[0].children, c.children, r))
  {
    hide Merge, Apart, Placed, Sane, SaneNode;
    TargetLevel(ts, 0);
    TemplateCopied(ts[0]);
    var d := Instantiated(ts[0], name, false);
    var m := Merge(d.children, c.children, false, r);
    if m.ok { PlacedApart(ts, d.(children := m.children), r); }
  }

  /** A quiet merge, whether it succeeds or stops half way, keeps the names of siblings apart
      exactly if no entry that it reached makes a block of a name that is there already. If it
      succeeds, it reached all of them; contents none of whose entries does are safe either way. */
  lemma QuietKeepsNames(ts: seq<Tree>, cs: seq<Tree>, r: Rules)
    requires Sane(ts) && Unique(ts)
    ensures var m := Merge(ts, cs, false, r);
            && (Unique(m.children) <==> Apart(ts, Reached(ts, cs, false, r), r))
            && (m.ok ==> Reached(ts, cs, false, r) == cs)
            && (Apart(ts, cs, r) ==> Unique(m.children))
  {
    hide Sane, Unique, Merge, Apart, Reached;
    var ds := Reached(ts, cs, false, r);
    QuietNames(ts, cs, r);
    StopsThere(ts, cs, false, r);
    QuietNames(ts, ds, r);
    MergeSucceeds(ts, cs, false, r);
    if Merge(ts, cs, false, r).ok { AllReached(ts, cs, false, r); }
  }
}
