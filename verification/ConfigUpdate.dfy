/** CfgUpdateStreamDone itself: its loops over the received list and over the handlers. */
module ConfigUpdate {
  import opened ConfigTree
  import opened ConfigEvents

  // ---------------------------------------------------------------- the order of calls

  lemma FlipsCommute(ns: Nodes, a: Call, b: Call)
    ensures Flip(Flip(ns, a), b) == Flip(Flip(ns, b), a)
  {
    if a.path in ns && b.path in ns && a.path != b.path {
      var x, y := Flip(Flip(ns, a), b), Flip(Flip(ns, b), a);
      assert forall p :: p in ns ==> x[p] == y[p];
    }
  }

  lemma {:induction false} FlipFirst(ns: Nodes, cs: seq<Call>, i: nat)
    requires i < |cs|
    ensures FlipAll(ns, cs) == FlipAll(Flip(ns, cs[i]), cs[..i] + cs[i + 1..])
    decreases |cs|
  {
    var rest := cs[..i] + cs[i + 1..];
    if i == 0 {
      assert rest == cs[1..];
    } else {
      FlipFirst(Flip(ns, cs[0]), cs[1..], i - 1);
      FlipsCommute(ns, cs[0], cs[i]);
      assert cs[1..][..i - 1] + cs[1..][i..] == rest[1..];
      assert cs[1..][i - 1] == cs[i] && rest[0] == cs[0];
    }
  }

  /** In which order the handlers run makes no difference to the marks. */
  lemma {:induction false} FlipsInAnyOrder(ns: Nodes, cs: seq<Call>, ds: seq<Call>)
    requires multiset(cs) == multiset(ds)
    ensures FlipAll(ns, cs) == FlipAll(ns, ds)
    decreases |cs|
  {
    assert |cs| == |multiset(cs)| == |multiset(ds)| == |ds|;
    if cs != [] {
      var i := Elsewhere(cs, ds);
      FlipFirst(ns, ds, i);
      FlipsInAnyOrder(Flip(ns, cs[0]), cs[1..], ds[..i] + ds[i + 1..]);
    }
  }

  /** Where the first of cs is in ds; without it they still agree. */
  lemma Elsewhere(cs: seq<Call>, ds: seq<Call>) returns (i: nat)
    requires multiset(cs) == multiset(ds) && cs != []
    ensures i < |ds| && ds[i] == cs[0] && multiset(cs[1..]) == multiset(ds[..i] + ds[i + 1..])
  {
    i := Within(cs[0], cs, ds);
    Removed(cs, 0);
    assert cs[..0] + cs[1..] == cs[1..];
    Removed(ds, i);
  }

  lemma Within(c: Call, cs: seq<Call>, ds: seq<Call>) returns (i: nat)
    requires multiset(cs) == multiset(ds) && c in cs
    ensures i < |ds| && ds[i] == c
  {
    assert c in multiset(ds);
    i :| 0 <= i < |ds| && ds[i] == c;
  }

  lemma Removed(cs: seq<Call>, i: nat)
    requires i < |cs|
    ensures multiset(cs[..i] + cs[i + 1..]) == multiset(cs) - multiset{cs[i]}
  {
    assert cs == cs[..i] + [cs[i]] + cs[i + 1..];
    assert multiset(cs) == multiset(cs[..i] + cs[i + 1..]) + multiset{cs[i]};
  }

  // ---------------------------------------------------------------- hndlr_map

  /** The calls waiting for a handler. */
  datatype Group = Group(handler: nat, calls: seq<Call>)

  /** The map in the order of its keys: cs joins the handler's group. */
  function Enter(gs: seq<Group>, h: nat, cs: seq<Call>): seq<Group> {
    if gs == [] || h < gs[0].handler then [Group(h, cs)] + gs
    else if gs[0].handler == h then [Group(h, gs[0].calls + cs)] + gs[1..]
    else [gs[0]] + Enter(gs[1..], h, cs)
  }

  function Flat(gs: seq<Group>): seq<Call> {
    if gs == [] then [] else gs[0].calls + Flat(gs[1..])
  }

  lemma {:induction false} Entered(gs: seq<Group>, h: nat, cs: seq<Call>)
    ensures multiset(Flat(Enter(gs, h, cs))) == multiset(Flat(gs)) + multiset(cs)
  {
    if gs != [] && h > gs[0].handler { Entered(gs[1..], h, cs); }
  }

  lemma CallsTouched(ns: Nodes, u: Update, us: seq<Update>)
    ensures Calls(Touch(ns, u), us) == Calls(ns, us)
  {
  }

  /** After i entries: what they touched and whom they call. */
  ghost predicate Collected(ns0: Nodes, ns: Nodes, us: seq<Update>, i: nat, gs: seq<Group>) {
    && i <= |us| && TouchAll(ns, us[i..]) == TouchAll(ns0, us)
    && multiset(Flat(gs)) + multiset(Calls(ns, us[i..])) == multiset(Calls(ns0, us))
  }

  lemma CollectStarts(ns: Nodes, us: seq<Update>)
    ensures Collected(ns, ns, us, 0, [])
  {
    assert us[0..] == us;
  }

  lemma CollectEnds(ns0: Nodes, ns: Nodes, us: seq<Update>, gs: seq<Group>)
    requires Collected(ns0, ns, us, |us|, gs)
    ensures ns == TouchAll(ns0, us) && multiset(Flat(gs)) == multiset(Calls(ns0, us))
  {
  }

  /** Whom an entry calls. */
  function Called(ns: Nodes, u: Update): seq<Call>
    requires Heard(ns, u.path)
  {
    if ns[u.path].told then [] else [Call(ns[u.path].handler.value, u.path)]
  }

  lemma CollectStep(ns0: Nodes, ns: Nodes, us: seq<Update>, i: nat, gs: seq<Group>)
    requires Collected(ns0, ns, us, i, gs) && i < |us|
    ensures var u := us[i];
            Collected(ns0, Touch(ns, u), us, i + 1,
                      if Heard(ns, u.path) then Enter(gs, ns[u.path].handler.value, Called(ns, u)) else gs)
  {
    hide Flat, Enter, Touch, TouchAll;
    var u, rest := us[i], us[i + 1..];
    assert us[i..] == [u] + rest;
    TouchStep(ns, u, rest);
    CallsStep(ns, u, rest);
    CallsTouched(ns, u, rest);
    if Heard(ns, u.path) {
      hide Calls, Heard;
      Entered(gs, ns[u.path].handler.value, Called(ns, u));
    }
  }

  lemma TouchStep(ns: Nodes, u: Update, us: seq<Update>)
    ensures TouchAll(ns, [u] + us) == TouchAll(Touch(ns, u), us)
  {
    assert ([u] + us)[1..] == us;
  }

  lemma CallsStep(ns: Nodes, u: Update, us: seq<Update>)
    ensures Calls(ns, [u] + us) == (if Heard(ns, u.path) then Called(ns, u) else []) + Calls(ns, us)
  {
    assert ([u] + us)[1..] == us;
  }

  lemma {:induction false} FlipConcat(ns: Nodes, a: seq<Call>, b: seq<Call>)
    ensures FlipAll(ns, a + b) == FlipAll(FlipAll(ns, a), b)
    decreases |a|
  {
    if a == [] {
      assert a + b == b;
    } else {
      assert (a + b)[0] == a[0] && (a + b)[1..] == a[1..] + b;
      FlipConcat(Flip(ns, a[0]), a[1..], b);
    }
  }

  /** What the handlers see does not depend on the order in which they run, nor on who has been
      told. */
  lemma SeenInAnyOrder(ns: Nodes, cs: seq<Call>, ds: seq<Call>)
    requires multiset(cs) == multiset(ds)
    ensures multiset(SeeAll(ns, cs)) == multiset(SeeAll(ns, ds))
  {
    forall s ensures multiset(SeeAll(ns, cs))[s] == multiset(SeeAll(ns, ds))[s] {
      SeenAre(ns, cs, s);
      SeenAre(ns, ds, s);
    }
  }

  lemma {:induction false} SeenConcat(ns: Nodes, a: seq<Call>, b: seq<Call>)
    ensures SeeAll(ns, a + b) == SeeAll(ns, a) + SeeAll(ns, b)
    decreases |a|
  {
    if a == [] {
      assert a + b == b;
    } else {
      assert (a + b)[0] == a[0] && (a + b)[1..] == a[1..] + b;
      SeenConcat(ns, a[1..], b);
    }
  }

  lemma {:induction false} FlippedAlike(ns: Nodes, cs: seq<Call>, ds: seq<Call>)
    ensures SeeAll(FlipAll(ns, cs), ds) == SeeAll(ns, ds)
    decreases |ds|
  {
    if ds != [] {
      if ds[0].path in ns { FlipKeeps(ns, cs, ds[0].path); }
      FlippedAlike(ns, cs, ds[1..]);
    }
  }

  lemma NoGroups(gs: seq<Group>, ns: Nodes)
    ensures Flat(gs[..0]) == [] && FlipAll(ns, Flat(gs[..0])) == ns && SeeAll(ns, Flat(gs[..0])) == []
  {
  }

  class CfgUpdateStreamDone {
    var nodes: Nodes
    const updates: seq<Update>
    /** The nodes handlers were run with, as they saw them. */
    var told: seq<Seen>

    constructor (nodes: Nodes, updates: seq<Update>)
      ensures this.nodes == nodes && this.updates == updates && told == []
    {
      this.nodes, this.updates, told := nodes, updates, [];
    }

    method ProcessCfgEvents()
      modifies this
      ensures nodes == Pass(old(nodes), updates)
      ensures multiset(told) == multiset(old(told)) + multiset(Sights(old(nodes), updates))
    {
      ghost var ns := nodes;
      var groups := CollectEvents();
      ghost var ms := nodes;
      RunHandlers(groups);
      FlipsInAnyOrder(ms, Flat(groups), Calls(ns, updates));
      SeenInAnyOrder(ms, Flat(groups), Calls(ns, updates));
    }

    method RunHandlers(groups: seq<Group>)
      modifies this`nodes, this`told
      ensures nodes == FlipAll(old(nodes), Flat(groups)) && told == old(told) + SeeAll(old(nodes), Flat(groups))
    {
      hide Flat, FlipAll, SeeAll;
      var k := 0;
      NoGroups(groups, nodes);
      while k < |groups|
        invariant k <= |groups|
        invariant nodes == FlipAll(old(nodes), Flat(groups[..k]))
        invariant told == old(told) + SeeAll(old(nodes), Flat(groups[..k]))
      {
        FlatSnoc(groups, k);
        FlipConcat(old(nodes), Flat(groups[..k]), groups[k].calls);
        SeenConcat(old(nodes), Flat(groups[..k]), groups[k].calls);
        if groups[k].calls != [] {
          FlippedAlike(old(nodes), Flat(groups[..k]), groups[k].calls);
          var seen := RunHandler(groups[k].calls);
          told := told + seen;
          MarkTold(groups[k].calls);
        } else {
          assert Flat(groups[..k]) + groups[k].calls == Flat(groups[..k]);
        }
        k := k + 1;
      }
      assert groups[..k] == groups;
    }

    /** A handler looks at its nodes. */
    method RunHandler(cs: seq<Call>) returns (seen: seq<Seen>)
      ensures seen == SeeAll(nodes, cs)
    {
      seen := [];
      var i := 0;
      while i < |cs|
        invariant i <= |cs| && seen == SeeAll(nodes, cs[..i])
      {
        SeenConcat(nodes, cs[..i], [cs[i]]);
        assert cs[..i] + [cs[i]] == cs[..i + 1];
        seen := seen + [See(nodes, cs[i])];
        i := i + 1;
      }
      assert cs[..i] == cs;
    }

    method MarkTold(cs: seq<Call>)
      modifies this`nodes
      ensures nodes == FlipAll(old(nodes), cs)
    {
      var i := 0;
      assert cs[0..] == cs;
      while i < |cs|
        invariant i <= |cs| && FlipAll(nodes, cs[i..]) == FlipAll(old(nodes), cs)
      {
        assert cs[i..][0] == cs[i] && cs[i..][1..] == cs[i + 1..];
        if cs[i].path in nodes {
          nodes := nodes[cs[i].path := nodes[cs[i].path].(told := !nodes[cs[i].path].told)];
        }
        i := i + 1;
      }
    }

    /** The loop over the received list: values and states are set, calls are grouped. */
    method CollectEvents() returns (groups: seq<Group>)
      modifies this`nodes
      ensures nodes == TouchAll(old(nodes), updates)
      ensures multiset(Flat(groups)) == multiset(Calls(old(nodes), updates))
    {
      groups := [];
      var i := 0;
      CollectStarts(nodes, updates);
      hide Collected, Enter;
      while i < |updates|
        invariant i <= |updates| && Collected(old(nodes), nodes, updates, i, groups)
      {
        var u := updates[i];
        CollectStep(old(nodes), nodes, updates, i, groups);
        if u.path != [] && u.path in nodes && nodes[u.path].handler.Some? {
          var n := nodes[u.path];
          nodes := nodes[u.path := n.(value := if u.status == Deleted && n.kind == Item then "" else u.value, status := u.status)];
          groups := Enter(groups, n.handler.value, if n.told then [] else [Call(n.handler.value, u.path)]);
        }
        i := i + 1;
      }
      CollectEnds(old(nodes), nodes, updates, groups);
    }

    // -------------------------------------------------------------- the update itself

    /** The lookup that makes what is missing: one name after the other. */
    method FindOrCreate(p: Path, kind: Kind)
      requires Rooted(nodes)
      modifies this`nodes
      ensures nodes == Grow(old(nodes), p, kind) && Rooted(nodes)
    {
      var i := 0;
      while i < |p|
        invariant i <= |p| && Rooted(nodes) && p[..i] in nodes
        invariant Grow(nodes, p, kind) == Grow(old(nodes), p, kind)
      {
        var q := p[..i + 1];
        assert Parent(q) == p[..i];
        if q !in nodes {
          ghost var ns := nodes;
          nodes := nodes[q := Node(if i + 1 < |p| then Block else kind, "", Ready, nodes[p[..i]].handler, true, false)];
          GrowFrom(ns, p, i + 1, kind);
        }
        i := i + 1;
      }
      assert p[..i] == p;
    }

    /** The change one entry makes. */
    method ApplyOne(u: Update)
      requires Rooted(nodes)
      modifies this`nodes
      ensures nodes == Apply(old(nodes), u) && Rooted(nodes)
    {
      if u.path == [] { return; }
      FindOrCreate(u.path, u.kind);
      match nodes[u.path].kind {
        case Block =>
          if u.status == Deleted {
            WithoutRooted(nodes, u.path);
            nodes := map q | q in nodes && !Below(q, u.path) :: nodes[q];
          }
        case Item =>
          ghost var ns := nodes;
          nodes := nodes[u.path := nodes[u.path].(value := if u.status == Deleted then "" else u.value)];
          RootedKeys(ns, nodes);
        case OtherKind =>
      }
    }

    /** The end of the stream: every change told once, and none left to tell. */
    method Run()
      requires Rooted(nodes) && told == []
      modifies this
      ensures nodes == Done(old(nodes), updates) && Rooted(nodes)
      ensures multiset(told) == multiset(Told(old(nodes), updates))
      ensures Quiet(old(nodes)) && Separate(updates) && NoneBelowDeleted(updates) ==>
              && Quiet(nodes)
              && forall s :: multiset(told)[s] == if Due(old(nodes), updates, s) then 1 else 0
    {
      hide Pass, Apply, ApplyAll, Settle, SettleAll, Calls, Sights, Due;
      ghost var ns := nodes;
      ProcessCfgEvents();
      PassRooted(ns, updates);
      ApplyChanges();
      ProcessCfgEvents();
      PassRooted(Updated(ns, updates), updates);
      ClearFlags();
      if Quiet(ns) && Separate(updates) && NoneBelowDeleted(updates) {
        ReadyAgain(ns, updates);
        forall s ensures multiset(Told(ns, updates))[s] == if Due(ns, updates, s) then 1 else 0 {
          ToldOnce(ns, updates, s);
        }
      }
    }

    method ApplyChanges()
      requires Rooted(nodes)
      modifies this`nodes
      ensures nodes == ApplyAll(old(nodes), updates) && Rooted(nodes)
    {
      var i := 0;
      assert updates[0..] == updates;
      while i < |updates|
        invariant i <= |updates| && Rooted(nodes) && ApplyAll(nodes, updates[i..]) == ApplyAll(old(nodes), updates)
      {
        assert updates[i..][0] == updates[i] && updates[i..][1..] == updates[i + 1..];
        ApplyOne(updates[i]);
        i := i + 1;
      }
    }

    method ClearFlags()
      requires Rooted(nodes)
      modifies this`nodes
      ensures nodes == SettleAll(old(nodes), updates) && Rooted(nodes)
    {
      var i := 0;
      assert updates[0..] == updates;
      while i < |updates|
        invariant i <= |updates| && SettleAll(nodes, updates[i..]) == SettleAll(old(nodes), updates)
      {
        var u := updates[i];
        assert updates[i..][0] == u && updates[i..][1..] == updates[i + 1..];
        if u.path != [] && u.path in nodes {
          nodes := nodes[u.path := nodes[u.path].(told := false, isNew := false, status := Ready)];
        }
        i := i + 1;
      }
      RootedKeys(old(nodes), nodes);
    }
  }

  /** Making a missing prefix first makes no difference. */
  lemma {:induction false} GrowFrom(ns: Nodes, p: Path, k: nat, kind: Kind)
    requires Rooted(ns) && 0 < k <= |p| && p[..k] !in ns && p[..k - 1] in ns
    ensures var ms := ns[p[..k] := Node(if k < |p| then Block else kind, "", Ready, ns[p[..k - 1]].handler, true, false)];
            Rooted(ms) && Grow(ms, p, kind) == Grow(ns, p, kind)
    decreases |p|
  {
    var q := p[..k];
    assert Parent(q) == p[..k - 1];
    if k == |p| {
      assert q == p;
    } else {
      if p in ns { PrefixesThere(ns, p, k); }
      assert Parent(p)[..k] == q && Parent(p)[..k - 1] == p[..k - 1];
      GrowFrom(ns, Parent(p), k, Block);
    }
  }

  lemma {:induction false} FlatSnoc(gs: seq<Group>, k: nat)
    requires k < |gs|
    ensures Flat(gs[..k + 1]) == Flat(gs[..k]) + gs[k].calls
    decreases k
  {
    if k == 0 {
      assert gs[..1] == [gs[0]] && gs[..0] == [];
    } else {
      FlatSnoc(gs[1..], k - 1);
      assert gs[..k + 1][1..] == gs[1..][..k] && gs[..k][1..] == gs[1..][..k - 1];
    }
  }
}
