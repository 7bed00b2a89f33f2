/** What the count that commit returns counts. */
module ConfigChanges {
  import opened ConfigTree
  import opened ConfigMerge
  import opened ConfigValidate

  /** A node by the positions among siblings on the way to it. */
  type Position = seq<nat>

  /** A commit comes to a changed node at p: it is modified or deleted, and all above it are
      blocks that stay. */
  predicate ChangedAt(ts: seq<Tree>, p: Position)
    decreases |p|
  {
    && p != [] && p[0] < |ts|
    && var t := ts[p[0]];
       !t.isTemplate &&
       if |p| == 1 then t.status == Modified || t.status == Deleted
       else (t.status == Ready || t.status == Modified) && ChangedAt(t.children, p[1..])
  }

  ghost predicate Different(ps: seq<Position>) {
    forall i, j :: 0 <= i < j < |ps| ==> ps[i] != ps[j]
  }

  /** Positions seen from one level up, and from one sibling further left. */
  function Under(ps: seq<Position>): (qs: seq<Position>)
    ensures |qs| == |ps| && forall i :: 0 <= i < |ps| ==> qs[i] == [0] + ps[i]
  {
    seq(|ps|, i requires 0 <= i < |ps| => [0] + ps[i])
  }

  function FromLeft(p: Position): Position {
    if p == [] then [] else [p[0] + 1] + p[1..]
  }

  function AllFromLeft(ps: seq<Position>): (qs: seq<Position>)
    ensures |qs| == |ps| && forall i :: 0 <= i < |ps| ==> qs[i] == FromLeft(ps[i])
  {
    seq(|ps|, i requires 0 <= i < |ps| => FromLeft(ps[i]))
  }

  lemma InUnder(ps: seq<Position>, p: Position)
    ensures p in Under(ps) <==> p != [] && p[0] == 0 && p[1..] in ps
  {
    if p in Under(ps) {
      var i :| 0 <= i < |ps| && Under(ps)[i] == p;
      assert p[1..] == ps[i];
    }
    if p != [] && p[0] == 0 && p[1..] in ps {
      var i :| 0 <= i < |ps| && ps[i] == p[1..];
      assert Under(ps)[i] == p;
    }
  }

  function Back(p: Position): Position {
    if p == [] || p[0] == 0 then [] else [p[0] - 1] + p[1..]
  }

  lemma BackFromLeft(p: Position)
    ensures p != [] ==> Back(FromLeft(p)) == p && FromLeft(p) != [] && FromLeft(p)[0] > 0
    ensures p != [] && p[0] > 0 ==> FromLeft(Back(p)) == p && Back(p) != []
  {
  }

  lemma InFromLeft(ps: seq<Position>, p: Position)
    requires [] !in ps
    ensures p in AllFromLeft(ps) <==> p != [] && p[0] > 0 && Back(p) in ps
  {
    hide FromLeft, Back;
    BackFromLeft(p);
    if p in AllFromLeft(ps) {
      var i :| 0 <= i < |ps| && AllFromLeft(ps)[i] == p;
      assert ps[i] in ps;
      BackFromLeft(ps[i]);
    }
    if p != [] && p[0] > 0 && Back(p) in ps {
      var i :| 0 <= i < |ps| && ps[i] == Back(p);
      assert AllFromLeft(ps)[i] == p;
    }
  }

  lemma DifferentUnder(ps: seq<Position>)
    requires Different(ps)
    ensures Different(Under(ps))
  {
    forall i, j | 0 <= i < j < |ps| ensures Under(ps)[i] != Under(ps)[j] {
      assert Under(ps)[i][1..] == ps[i] && Under(ps)[j][1..] == ps[j];
    }
  }

  lemma DifferentFromLeft(ps: seq<Position>)
    requires Different(ps) && [] !in ps
    ensures Different(AllFromLeft(ps))
  {
    hide FromLeft, Back;
    forall i, j | 0 <= i < j < |ps| ensures FromLeft(ps[i]) != FromLeft(ps[j]) {
      assert ps[i] in ps && ps[j] in ps;
      BackFromLeft(ps[i]);
      BackFromLeft(ps[j]);
    }
  }

  lemma DifferentBoth(ps: seq<Position>, qs: seq<Position>)
    requires Different(ps) && Different(qs) && forall p :: p in ps ==> p !in qs
    ensures Different(ps + qs)
  {
    forall i, j | 0 <= i < j < |ps + qs| ensures (ps + qs)[i] != (ps + qs)[j] {
      if i < |ps| <= j { assert (ps + qs)[i] in ps && (ps + qs)[j] in qs; }
    }
  }

  lemma AtFirst(ts: seq<Tree>, p: Position)
    requires ts != [] && p != [] && p[0] == 0
    ensures var t := ts[0];
            ChangedAt(ts, p) == (!t.isTemplate &&
              if p == [0] then t.status == Modified || t.status == Deleted
              else (t.status == Ready || t.status == Modified) && ChangedAt(t.children, p[1..]))
  {
    assert p == [0] + p[1..];
  }

  lemma AtRest(ts: seq<Tree>, p: Position)
    requires ts != [] && p != [] && p[0] > 0
    ensures ChangedAt(ts, p) <==> ChangedAt(ts[1..], Back(p))
  {
    var q := Back(p);
    assert q[1..] == p[1..];
    if p[0] < |ts| { assert ts[1..][q[0]] == ts[p[0]]; }
  }

  /** The count is the number of changed nodes that the commit comes to: ps lists them, each
      once. */
  lemma {:induction false} CountIsOfChanges(ts: seq<Tree>) returns (ps: seq<Position>)
    ensures Different(ps) && (forall p :: p in ps <==> ChangedAt(ts, p)) && |ps| == Changes(ts)
    decreases ts, 0
  {
    hide ChangedAt, ChangesHere, Different;
    if ts == [] {
      ps := [];
      NothingChanged();
    } else {
      var qs := FirstCounted(ts);
      var rs := CountIsOfChanges(ts[1..]);
      Nowhere(ts[1..]);
      ps := qs + AllFromLeft(rs);
      forall p ensures (p in ps <==> ChangedAt(ts, p)) && (p in qs ==> p !in AllFromLeft(rs)) {
        InFromLeft(rs, p);
        Nowhere(ts);
        if p != [] && p[0] > 0 { AtRest(ts, p); }
      }
      DifferentFromLeft(rs);
      DifferentBoth(qs, AllFromLeft(rs));
    }
  }

  lemma NothingChanged()
    ensures Changes([]) == 0 && Different([]) && forall p :: !ChangedAt([], p)
  {
  }

  lemma Nowhere(ts: seq<Tree>)
    ensures !ChangedAt(ts, [])
  {
  }

  /** The first node and what is in it. */
  lemma {:induction false} FirstCounted(ts: seq<Tree>) returns (ps: seq<Position>)
    requires ts != []
    ensures Different(ps) && |ps| == ChangesHere(ts[0])
    ensures forall p :: p in ps <==> p != [] && p[0] == 0 && ChangedAt(ts, p)
    decreases ts[0], 1
  {
    hide ChangedAt, Different, Changes;
    var t := ts[0];
    var inside: seq<Position> := [];
    if !t.isTemplate && (t.status == Ready || t.status == Modified) {
      var qs := CountIsOfChanges(t.children);
      Nowhere(t.children);
      DifferentUnder(qs);
      inside := Under(qs);
      forall p ensures p in inside <==> p != [] && p != [0] && p[0] == 0 && ChangedAt(ts, p) {
        InUnder(qs, p);
        if p != [] && p[0] == 0 {
          AtFirst(ts, p);
          assert p == [0] + p[1..];
        }
      }
    } else {
      NothingChanged();
      forall p ensures !(p != [] && p != [0] && p[0] == 0 && ChangedAt(ts, p)) {
        if p != [] && p[0] == 0 { AtFirst(ts, p); }
      }
    }
    AtFirst(ts, [0]);
    var own := if ChangedAt(ts, [0]) then [[0]] else [];
    OneIsDifferent(own);
    DifferentBoth(own, inside);
    ps := own + inside;
  }

  lemma OneIsDifferent(ps: seq<Position>)
    requires |ps| <= 1
    ensures Different(ps)
  {
  }

  // ---------------------------------------------------------------- announced changes are counted

  predicate Counts(ts: seq<Tree>) {
    exists i :: 0 <= i < |ts| && ChangesHere(ts[i]) > 0
  }

  lemma {:induction false} CountsIs(ts: seq<Tree>)
    ensures Changes(ts) > 0 <==> Counts(ts)
    decreases |ts|
  {
    hide ChangesHere;
    if ts != [] {
      CountsIs(ts[1..]);
      assert ts == [ts[0]] + ts[1..];
      if i :| 1 <= i < |ts| && ChangesHere(ts[i]) > 0 { assert ChangesHere(ts[1..][i - 1]) > 0; }
    }
  }

  /** The contents name an item, or a block to be made from a template. */
  predicate Announces(ts: seq<Tree>, cs: seq<Tree>)
    decreases cs, 0
  {
    cs != [] && (AnnouncesOne(ts, cs[0]) || Announces(ts, cs[1..]))
  }

  predicate AnnouncesOne(ts: seq<Tree>, c: Tree)
    decreases c, 1
  {
    var j := Target(ts, c.name);
    j < |ts| && (ts[j].isTemplate || c.kind == Item || Announces(ts[j].children, c.children))
  }

  lemma {:induction false} SameAnnounces(ts: seq<Tree>, us: seq<Tree>, cs: seq<Tree>)
    requires Sane(ts) && Sane(us) && Skeleton(ts) == Skeleton(us)
    ensures Announces(ts, cs) == Announces(us, cs)
    decreases cs, 0
  {
    hide Sane, Skeleton, AnnouncesOne;
    if cs != [] {
      SameAnnouncesOne(ts, us, cs[0]);
      SameAnnounces(ts, us, cs[1..]);
    }
  }

  lemma {:induction false} SameAnnouncesOne(ts: seq<Tree>, us: seq<Tree>, c: Tree)
    requires Sane(ts) && Sane(us) && Skeleton(ts) == Skeleton(us)
    ensures AnnouncesOne(ts, c) == AnnouncesOne(us, c)
    decreases c, 1
  {
    hide Sane, SaneNode, Skeleton, Announces, BoneOf;
    var j := SameTarget(ts, us, c.name);
    if j < |ts| {
      SameBones(ts[j], us[j]);
      ChildrenAreSane(ts[j]);
      ChildrenAreSane(us[j]);
      SameAnnounces(ts[j].children, us[j].children, c.children);
    }
  }

  /** After an announcing merge that succeeds there is something to commit exactly if there was
      before or the contents announce something. */
  lemma {:induction false} AnnouncedIsCounted(ts: seq<Tree>, cs: seq<Tree>, r: Rules)
    requires Sane(ts) && Merge(ts, cs, true, r).ok
    ensures Changes(Merge(ts, cs, true, r).children) > 0 <==> Changes(ts) > 0 || Announces(ts, cs)
    decreases cs, 0
  {
    hide Sane, Skeleton, MergeOne, AnnouncesOne, Changes;
    if cs != [] {
      var m := MergeOne(ts, cs[0], true, r);
      OneIsCounted(ts, cs[0], r);
      MergeOneKeepsShape(ts, cs[0], true, r);
      AnnouncedIsCounted(m.children, cs[1..], r);
      SameAnnounces(ts, m.children, cs[1..]);
    }
  }

  lemma {:induction false} OneIsCounted(ts: seq<Tree>, c: Tree, r: Rules)
    requires Sane(ts) && MergeOne(ts, c, true, r).ok
    ensures Changes(MergeOne(ts, c, true, r).children) > 0 <==> Changes(ts) > 0 || AnnouncesOne(ts, c)
    decreases c, 1
  {
    hide Sane, SaneNode, Skeleton, Changes, ChangesHere, MergeBehind, MergeInto, Announces;
    var us, j := MergeOne(ts, c, true, r).children, Target(ts, c.name);
    CountsIs(ts);
    CountsIs(us);
    TargetLevel(ts, j);
    if ts[j].isTemplate {
      forall i | 1 <= i < |ts| ensures !ts[i].isTemplate { TargetLevel(ts, i); }
      var k := BehindIsCounted(ts, c, r);
    } else if c.kind == Item {
      var d := Overwritten(ts[j], r.check(ts[j].typ, c.value).value, true);
      IntoIs(ts, j, d, c, r);
      ModifiedCounts(us[j]);
    } else {
      ChildrenAreSane(ts[j]);
      IntoIs(ts, j, ts[j], c, r);
      AnnouncedIsCounted(ts[j].children, c.children, r);
      SameNodeCounts(ts[j], us[j], Announces(ts[j].children, c.children), c, r);
      assert forall i :: 0 <= i < |ts| && i != j ==> us[i] == ts[i];
    }
  }

  lemma IntoIs(ts: seq<Tree>, i: nat, d: Tree, c: Tree, r: Rules)
    requires i < |ts|
    ensures var m := Merge(d.children, c.children, true, r);
            MergeInto(ts, i, d, c, true, r) == Merged(ts[i := d.(children := m.children)], m.ok)
  {
  }

  lemma ModifiedCounts(t: Tree)
    requires !t.isTemplate && t.status == Modified
    ensures ChangesHere(t) > 0
  {
  }

  /** A block that is merged into counts what is in it, unless it is deleted or a template. */
  lemma SameNodeCounts(t: Tree, u: Tree, announced: bool, c: Tree, r: Rules)
    requires SaneNode(t) && !t.isTemplate && u == t.(children := Merge(t.children, c.children, true, r).children)
    requires Merge(t.children, c.children, true, r).ok
    requires Changes(u.children) > 0 <==> Changes(t.children) > 0 || announced
    requires t.kind == Item ==> t.children == []
    requires t.status == Deleted && t.kind == Block ==> !announced
    ensures ChangesHere(u) > 0 <==> ChangesHere(t) > 0 || announced
  {
    hide Changes, Merge;
  }

  /** What goes behind a template is marked as modified. */
  lemma BehindIsCounted(ts: seq<Tree>, c: Tree, r: Rules) returns (k: nat)
    requires ts != [] && MergeBehind(ts, ts[0], c, true, r).ok && forall i :: 1 <= i < |ts| ==> !ts[i].isTemplate
    ensures var us := MergeBehind(ts, ts[0], c, true, r).children; k < |us| && ChangesHere(us[k]) > 0
  {
    hide Merge, Placed, Instantiated;
    var name := r.check(ts[0].typ, c.name).value;
    k := Named(ts, 1, name);
    if k < |ts| {
      ModifiedCounts(MergeBehind(ts, ts[0], c, true, r).children[k]);
    } else {
      var d := Instantiated(ts[0], name, true).(children := Merge(Instantiated(ts[0], name, true).children, c.children, true, r).children);
      NewIsModified(ts[0], name, d);
      ModifiedCounts(d);
      k := PlacedThere(ts, d, r);
    }
  }

  lemma NewIsModified(template: Tree, name: string, d: Tree)
    requires d == Instantiated(template, name, true).(children := d.children)
    ensures !d.isTemplate && d.status == Modified
  {
  }

  lemma PlacedThere(ts: seq<Tree>, d: Tree, r: Rules) returns (k: nat)
    requires ts != []
    ensures k < |Placed(ts, d, r)| && Placed(ts, d, r)[k] == d
  {
    var us := if d.isEmpty then Behind(ts, d) else Sorted(Behind(ts, d), r.arrange);
    assert Behind(ts, d)[|ts| - 1] == d;
    assert d in multiset(Behind(ts, d));
    assert d in multiset(us);
    k :| 0 <= k < |us| && us[k] == d;
    k := k + 1;
  }

  // ---------------------------------------------------------------- loading announces nothing

  /** A merge that does not announce leaves nothing to commit in a tree without changes, whether
      it succeeds or stops half way. */
  lemma {:induction false} LoadingKeepsClean(ts: seq<Tree>, cs: seq<Tree>, r: Rules)
    requires Sane(ts) && Clean(ts)
    ensures Clean(Merge(ts, cs, false, r).children)
    decreases cs, 0
  {
    hide Sane, Clean, MergeOne;
    if cs != [] {
      OneKeepsClean(ts, cs[0], r);
      MergeOneKeepsShape(ts, cs[0], false, r);
      LoadingKeepsClean(MergeOne(ts, cs[0], false, r).children, cs[1..], r);
    }
  }

  lemma {:induction false} OneKeepsClean(ts: seq<Tree>, c: Tree, r: Rules)
    requires Sane(ts) && Clean(ts)
    ensures Clean(MergeOne(ts, c, false, r).children)
    decreases c, 1
  {
    hide Sane, SaneNode, Merge, MergeNew, Instantiated;
    var j := Target(ts, c.name);
    if j < |ts| {
      TargetLevel(ts, j);
      ChildrenAreSane(ts[j]);
      if ts[j].isTemplate {
        TemplateIsClean(ts[j]);
        LoadingKeepsClean(ts[j].children, c.children, r);
        if c.kind == Block && r.check(ts[j].typ, c.name).Some? { NewIsClean(ts, r.check(ts[j].typ, c.name).value, c, r); }
      } else {
        assert CleanNode(ts[j]);
        LoadingKeepsClean(ts[j].children, c.children, r);
        if c.kind != Item {
          IntoIsClean(ts, j, ts[j], c, r);
        } else if r.check(ts[j].typ, c.value).Some? {
          IntoIsClean(ts, j, Overwritten(ts[j], r.check(ts[j].typ, c.value).value, false), c, r);
        }
      }
    }
  }

  lemma IntoIsClean(ts: seq<Tree>, i: nat, d: Tree, c: Tree, r: Rules)
    requires Clean(ts) && i < |ts| && d.status == Ready && !d.isNew && Clean(Merge(d.children, c.children, false, r).children)
    ensures Clean(MergeInto(ts, i, d, c, false, r).children)
  {
    hide Merge, CleanNode;
    NodeIsClean(d.(children := Merge(d.children, c.children, false, r).children));
  }

  lemma TemplateIsClean(t: Tree)
    requires SaneNode(t) && t.isTemplate
    ensures Clean(t.children) && Copy(t.children) == t.children
  {
    CopyOfUntouched(t.children);
    UntouchedIsClean(t.children);
  }

  lemma {:induction false} UntouchedIsClean(ts: seq<Tree>)
    requires Untouched(ts)
    ensures Clean(ts)
    decreases ts
  {
    forall i | 0 <= i < |ts| ensures CleanNode(ts[i]) { UntouchedIsClean(ts[i].children); }
  }

  lemma NewIsClean(ts: seq<Tree>, name: string, c: Tree, r: Rules)
    requires ts != [] && ts[0].isTemplate && Clean(ts) && Copy(ts[0].children) == ts[0].children
    requires Clean(Merge(ts[0].children, c.children, false, r).children)
    ensures Clean(MergeNew(ts, Instantiated(ts[0], name, false), c, false, r).children)
  {
    hide Merge, Placed, Copy, CleanNode;
    var m := Merge(ts[0].children, c.children, false, r);
    if m.ok {
      var d := Instantiated(ts[0], name, false).(children := m.children);
      assert CleanNode(d) by { NodeIsClean(d); }
      var us := Placed(ts, d, r);
      PlacedSize(ts, d, r);
      forall k | 0 <= k < |us| ensures us[k].isTemplate || CleanNode(us[k]) {
        if k > 0 { var i := PlacedAt(ts, d, r, k); }
      }
    }
  }

  lemma NodeIsClean(t: Tree)
    requires t.status == Ready && !t.isNew && Clean(t.children)
    ensures CleanNode(t)
  {
  }

  // ---------------------------------------------------------------- what stays

  /** The block without its marks, and with other children. */
  function Unmarked(t: Tree, children: seq<Tree>): Tree {
    t.(isNew := false, status := Ready, children := children)
  }

  /** A block that is there after a commit or after discarding was there before, and differs in
      its marks and its children alone: a block's own text is neither put in force nor undone. */
  lemma {:induction false} BlocksLoseMarks(ts: seq<Tree>, u: Tree)
    requires WellFormed(ts) && u.kind == Block && !u.isTemplate
    ensures u in Commit(ts) ==> exists t :: t in ts && t.status != Deleted && u == Unmarked(t, Commit(t.children))
    ensures u in Discard(ts) ==> exists t :: t in ts && !t.isNew && u == Unmarked(t, Discard(t.children))
  {
    if ts != [] {
      BlocksLoseMarks(ts[1..], u);
      if u in CommitNode(ts[0]) {
        assert ts[0] in ts && u == Unmarked(ts[0], Commit(ts[0].children));
      }
      if u in DiscardNode(ts[0]) {
        assert ts[0] in ts && u == Unmarked(ts[0], Discard(ts[0].children));
      }
    }
  }
}
