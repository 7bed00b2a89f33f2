/** Saving a configuration with its uncommitted changes: the file is that of the configuration
    after a commit, and loading it puts in force what was pending. */
module ConfigPending {
  import opened ConfigTree
  import opened ConfigMerge
  import opened ConfigByName
  import opened ConfigShape
  import opened ConfigSave
  import opened ConfigLoad

  // ---------------------------------------------------------------- what is saved

  /** The contents saved with uncommitted changes are those saved after a commit. */
  lemma {:induction false} SavesPending(ts: seq<Tree>)
    requires WellFormed(ts)
    ensures Saved(ts, false) == Saved(Commit(ts), true)
    decreases ts, 0
  {
    hide SavedNode, CommitNode, WellFormedNode;
    if ts != [] {
      SavesPendingNode(ts[0]);
      SavesPending(ts[1..]);
      SavedConcat(CommitNode(ts[0]), Commit(ts[1..]));
    }
  }

  lemma {:induction false} SavesPendingNode(t: Tree)
    requires WellFormedNode(t)
    ensures SavedNode(t, false) == Saved(CommitNode(t), true)
    decreases t, 1
  {
    SavesPending(t.children);
    hide Commit, Saved, WellFormed;
    if CommitNode(t) == [] {
      NoneSaved();
    } else {
      SavedOne(CommitNode(t)[0]);
      assert CommitNode(t) == [CommitNode(t)[0]];
      if t.kind == Item { NoneSaved(); }
    }
  }

  lemma NoneSaved()
    ensures Saved([], true) == [] && Commit([]) == []
  {
  }

  lemma SavedOne(t: Tree)
    ensures Saved([t], true) == SavedNode(t, true)
  {
    assert [t][1..] == [];
  }

  lemma {:induction false} SavedConcat(a: seq<Tree>, b: seq<Tree>)
    ensures Saved(a + b, true) == Saved(a, true) + Saved(b, true)
    decreases |a|
  {
    hide SavedNode;
    if a == [] {
      assert a + b == b;
    } else {
      assert (a + b)[0] == a[0] && (a + b)[1..] == a[1..] + b;
      SavedConcat(a[1..], b);
    }
  }

  // ---------------------------------------------------------------- what is pending and saved

  /** A value or a list that will be in force. */
  predicate WorthPending(t: Tree) {
    Stays(t) && match t.kind
                case Block => t.isEmpty || SomeWorthPending(t.children)
                case Item => t.status != Deleted && t.newValue != ""
                case OtherKind => false
  }

  predicate SomeWorthPending(ts: seq<Tree>) {
    if ts == [] then false else WorthPending(ts[0]) || SomeWorthPending(ts[1..])
  }

  /** The tree without the blocks behind templates in which nothing of worth is pending. */
  function TrimPending(ts: seq<Tree>): seq<Tree>
    decreases ts, 1
  {
    if Dynamic(ts) then [ts[0]] + TrimPendingBehind(ts[1..])
    else seq(|ts|, i requires 0 <= i < |ts| => TrimPendingNode(ts[i]))
  }

  function TrimPendingNode(t: Tree): Tree
    decreases t, 2
  {
    t.(children := TrimPending(t.children))
  }

  function TrimPendingBehind(ts: seq<Tree>): seq<Tree>
    decreases ts, 0
  {
    if ts == [] then [] else (if WorthPending(ts[0]) then [TrimPendingNode(ts[0])] else []) + TrimPendingBehind(ts[1..])
  }

  /** Every pending value is valid for its type and every block's name for its template. */
  predicate StorablePending(ts: seq<Tree>, r: Rules) {
    && (forall i :: 0 <= i < |ts| ==> Stays(ts[i]) ==> StorablePendingNode(ts[i], r))
    && (Dynamic(ts) ==> forall i :: 1 <= i < |ts| && Stays(ts[i]) ==>
          r.check(ts[0].typ, ts[i].name) == Some(ts[i].name) && ts[i].typ == "")
  }

  predicate StorablePendingNode(t: Tree, r: Rules) {
    && (t.kind == Item && t.status != Deleted && t.newValue != "" ==> r.check(t.typ, t.newValue) == Some(t.newValue))
    && StorablePending(t.children, r)
  }

  // ---------------------------------------------------------------- one node of the committed tree

  /** What a commit makes of a node that stays. */
  function After(t: Tree): Tree
    requires WellFormedNode(t) && Stays(t)
  {
    CommitNode(t)[0]
  }

  lemma AfterIs(t: Tree)
    requires WellFormedNode(t) && Stays(t)
    ensures CommitNode(t) == [After(t)] && !After(t).isNew && After(t).status == Ready
    ensures After(t) == t.(isNew := false, status := Ready, value := After(t).value, newValue := After(t).newValue, children := Commit(t.children))
    ensures t.kind == Item ==> After(t).value == After(t).newValue == if t.status == Deleted then "" else t.newValue
  {
    if t.kind == Item { NoneSaved(); }
  }

  lemma {:induction false} WorthAfter(t: Tree)
    requires WellFormedNode(t) && Stays(t)
    ensures Worth(After(t)) <==> WorthPending(t)
    decreases t, 1
  {
    AfterIs(t);
    SomeWorthAfter(t.children);
  }

  lemma {:induction false} SomeWorthAfter(ts: seq<Tree>)
    requires WellFormed(ts)
    ensures SomeWorth(Commit(ts)) <==> SomeWorthPending(ts)
    decreases ts, 0
  {
    hide Worth, WorthPending, CommitNode, WellFormedNode;
    if ts != [] {
      SomeWorthAfter(ts[1..]);
      if Stays(ts[0]) {
        AfterIs(ts[0]);
        WorthAfter(ts[0]);
      } else {
        NotWorth(ts[0]);
      }
      WorthConcat(CommitNode(ts[0]), Commit(ts[1..]));
    }
  }

  lemma NotWorth(t: Tree)
    requires !Stays(t)
    ensures !WorthPending(t) && |CommitNode(t)| <= 1 && (CommitNode(t) != [] ==> !Worth(CommitNode(t)[0]))
    ensures t.isTemplate ==> CommitNode(t) == [t]
    ensures !t.isTemplate ==> CommitNode(t) == []
  {
  }

  lemma WorthConcat(a: seq<Tree>, b: seq<Tree>)
    requires |a| <= 1
    ensures SomeWorth(a + b) <==> (a != [] && Worth(a[0])) || SomeWorth(b)
  {
    hide Worth;
    if a == [] { assert a + b == b; } else { assert (a + b)[1..] == b; }
  }

  // ---------------------------------------------------------------- the two views agree

  /** What is in force of the committed tree is what is pending, both without what is not saved. */
  lemma {:induction false} TrimsAlike(ts: seq<Tree>)
    requires Sane(ts)
    ensures Committed(Trim(Commit(ts))) == Pending(TrimPending(ts))
    decreases ts, 2
  {
    hide Sane, SaneNode, Committed, Pending;
    if Dynamic(ts) {
      TrimsBehind(ts);
    } else {
      TrimsFixed(ts);
    }
  }

  lemma {:induction false} TrimsBehind(ts: seq<Tree>)
    requires Sane(ts) && Dynamic(ts)
    ensures Committed(Trim(Commit(ts))) == Pending(TrimPending(ts))
    decreases ts, 1
  {
    hide SaneNode, Committed, Pending, Trim, TrimPending, TrimBehind, TrimPendingBehind;
    var t, rest := ts[0], ts[1..];
    forall i | 0 <= i < |rest| ensures SaneNode(rest[i]) && !rest[i].isTemplate { TargetLevel(ts, i + 1); }
    AllTrimBehind(rest);
    TrimStarts(ts);
    CommittedCons([t] + TrimBehind(Commit(rest)));
    PendingCons([t] + TrimPendingBehind(rest));
    assert ([t] + TrimBehind(Commit(rest)))[1..] == TrimBehind(Commit(rest));
    assert ([t] + TrimPendingBehind(rest))[1..] == TrimPendingBehind(rest);
  }

  lemma TrimStarts(ts: seq<Tree>)
    requires Dynamic(ts)
    ensures Trim(Commit(ts)) == [ts[0]] + TrimBehind(Commit(ts[1..]))
    ensures TrimPending(ts) == [ts[0]] + TrimPendingBehind(ts[1..])
  {
    assert Commit(ts) == [ts[0]] + Commit(ts[1..]);
    assert Commit(ts)[1..] == Commit(ts[1..]);
  }

  lemma {:induction false} AllTrimBehind(ts: seq<Tree>)
    requires forall i :: 0 <= i < |ts| ==> SaneNode(ts[i]) && !ts[i].isTemplate
    ensures Committed(TrimBehind(Commit(ts))) == Pending(TrimPendingBehind(ts))
    decreases ts, 0
  {
    hide SaneNode, Committed, Pending, TrimNode, TrimPendingNode, Worth, WorthPending, CommitNode, CommittedHere, PendingHere, WellFormedNode;
    if ts == [] {
      NothingThere();
    } else {
      var t, rest := ts[0], ts[1..];
      AllTrimBehind(rest);
      SaneIsWell(t);
      if Stays(t) {
        AfterIs(t);
        WorthAfter(t);
        NodeAlike(t);
        FirstTrimmed(After(t), Commit(rest));
        FirstTrimmedPending(ts);
      } else {
        NotWorth(t);
        FirstTrimmedPending(ts);
        assert Commit(ts) == Commit(rest);
      }
    }
  }

  lemma FirstTrimmed(c: Tree, cs: seq<Tree>)
    ensures Committed(TrimBehind([c] + cs)) == (if Worth(c) then CommittedHere(TrimNode(c)) else []) + Committed(TrimBehind(cs))
  {
    hide Worth, TrimNode, CommittedHere, Committed;
    assert ([c] + cs)[1..] == cs;
    var us := TrimBehind(cs);
    if Worth(c) {
      CommittedCons([TrimNode(c)] + us);
      assert ([TrimNode(c)] + us)[1..] == us;
    } else {
      assert TrimBehind([c] + cs) == us;
    }
  }

  lemma FirstTrimmedPending(ts: seq<Tree>)
    requires ts != []
    ensures Pending(TrimPendingBehind(ts)) ==
            (if WorthPending(ts[0]) then PendingHere(TrimPendingNode(ts[0])) else []) + Pending(TrimPendingBehind(ts[1..]))
  {
    hide WorthPending, TrimPendingNode, PendingHere, Pending;
    var us := TrimPendingBehind(ts[1..]);
    if WorthPending(ts[0]) {
      PendingCons([TrimPendingNode(ts[0])] + us);
      assert ([TrimPendingNode(ts[0])] + us)[1..] == us;
    } else {
      assert TrimPendingBehind(ts) == us;
    }
  }

  lemma SaneIsWell(t: Tree)
    requires SaneNode(t)
    ensures WellFormedNode(t)
  {
  }

  lemma {:induction false} NodeAlike(t: Tree)
    requires SaneNode(t) && WellFormedNode(t) && Stays(t)
    ensures CommittedHere(TrimNode(After(t))) == PendingHere(TrimPendingNode(t))
    decreases t, 3
  {
    hide SaneNode, Committed, Pending, Trim, TrimPending, WellFormedNode, CommitNode;
    AfterIs(t);
    ChildrenAreSane(t);
    TrimsAlike(t.children);
  }

  /** Where nothing is made from a template every node stays. */
  lemma {:induction false} TrimsFixed(ts: seq<Tree>)
    requires Sane(ts) && !Dynamic(ts)
    ensures Committed(Trim(Commit(ts))) == Pending(TrimPending(ts))
    decreases ts, 1
  {
    hide SaneNode, Committed, Pending, CommitNode, TrimNode, TrimPendingNode;
    forall i | 0 <= i < |ts| ensures SaneNode(ts[i]) && WellFormedNode(ts[i]) && Stays(ts[i]) && !ts[i].isTemplate {
      TargetLevel(ts, i);
      SaneIsWell(ts[i]);
    }
    AllFixed(ts);
    FixedCommit(ts);
  }

  lemma {:induction false} AllFixed(ts: seq<Tree>)
    requires forall i :: 0 <= i < |ts| ==> SaneNode(ts[i]) && WellFormedNode(ts[i]) && Stays(ts[i])
    ensures Committed(seq(|ts|, i requires 0 <= i < |ts| => TrimNode(After(ts[i]))))
         == Pending(seq(|ts|, i requires 0 <= i < |ts| => TrimPendingNode(ts[i])))
    decreases ts, 0
  {
    hide SaneNode, WellFormedNode, Committed, Pending, CommitNode, TrimNode, TrimPendingNode;
    var us, vs := seq(|ts|, i requires 0 <= i < |ts| => TrimNode(After(ts[i]))), seq(|ts|, i requires 0 <= i < |ts| => TrimPendingNode(ts[i]));
    if ts == [] {
      NothingThere();
      assert us == [] && vs == [];
    } else {
      var rest := ts[1..];
      AllFixed(rest);
      NodeAlike(ts[0]);
      CommittedCons(us);
      PendingCons(vs);
      assert us[1..] == seq(|rest|, i requires 0 <= i < |rest| => TrimNode(After(rest[i])));
      assert vs[1..] == seq(|rest|, i requires 0 <= i < |rest| => TrimPendingNode(rest[i]));
    }
  }

  lemma {:induction false} FixedCommit(ts: seq<Tree>)
    requires forall i :: 0 <= i < |ts| ==> WellFormedNode(ts[i]) && Stays(ts[i])
    ensures Commit(ts) == seq(|ts|, i requires 0 <= i < |ts| => After(ts[i]))
    ensures !Dynamic(Commit(ts))
    ensures Trim(Commit(ts)) == seq(|ts|, i requires 0 <= i < |ts| => TrimNode(After(ts[i])))
    decreases ts
  {
    hide WellFormedNode, CommitNode, TrimNode;
    if ts != [] {
      AfterIs(ts[0]);
      FixedCommit(ts[1..]);
    }
  }

  // ---------------------------------------------------------------- saving and loading

  /** ds is a fresh definition of the shape of ts. */
  ghost predicate FreshForPending(ds: seq<Tree>, ts: seq<Tree>, r: Rules) {
    && Sane(ds) && Unique(ds) && Emptied(ds)
    && Sane(ts) && Unique(ts) && StorablePending(ts, r) && Skeleton(ds) == Skeleton(ts)
  }

  lemma {:induction false} StorableAfter(ts: seq<Tree>, r: Rules)
    requires Sane(ts) && StorablePending(ts, r)
    ensures Storable(Commit(ts), r)
    decreases ts, 1
  {
    hide SaneNode, Commit, StorableNode, StorablePendingNode, Stays, WellFormedNode, After, Level;
    var us := Commit(ts);
    SameStart(ts);
    forall k | 0 <= k < |us| ensures us[k].isTemplate || StorableNode(us[k], r) {
      var i := CommittedFrom(ts, k);
      if !us[k].isTemplate { StorableNodeAfter(ts[i], r); }
    }
    if Dynamic(ts) {
      forall k | 1 <= k < |us| ensures r.check(us[0].typ, us[k].name) == Some(us[k].name) && us[k].typ == "" {
        NameAfter(ts, k, r);
      }
    }
  }

  lemma NameAfter(ts: seq<Tree>, k: nat, r: Rules)
    requires Sane(ts) && StorablePending(ts, r) && Dynamic(ts) && 1 <= k < |Commit(ts)|
    ensures r.check(ts[0].typ, Commit(ts)[k].name) == Some(Commit(ts)[k].name) && Commit(ts)[k].typ == ""
  {
    hide SaneNode, Commit, StorablePendingNode, WellFormedNode;
    var i := CommittedFrom(ts, k);
    TargetLevel(ts, i);
    AfterIs(ts[i]);
  }

  lemma SameStart(ts: seq<Tree>)
    requires Sane(ts)
    ensures Dynamic(Commit(ts)) == Dynamic(ts) && (Dynamic(ts) ==> Commit(ts)[0] == ts[0])
  {
    hide SaneNode;
    if ts != [] {
      TargetLevel(ts, 0);
      if !Dynamic(ts) { SaneIsWell(ts[0]); AfterIs(ts[0]); }
    }
  }

  /** Where a node of the committed tree comes from. */
  lemma {:induction false} CommittedFrom(ts: seq<Tree>, k: nat) returns (i: nat)
    requires (forall i :: 0 <= i < |ts| ==> SaneNode(ts[i])) && k < |Commit(ts)|
    ensures k <= i < |ts| && (ts[i].isTemplate || Stays(ts[i])) && WellFormedNode(ts[i]) && SaneNode(ts[i])
    ensures !ts[i].isTemplate ==> !Commit(ts)[k].isTemplate
    ensures Commit(ts)[k] == if ts[i].isTemplate then ts[i] else After(ts[i])
    decreases ts
  {
    hide SaneNode, CommitNode, WellFormedNode;
    SaneIsWell(ts[0]);
    if Stays(ts[0]) { AfterIs(ts[0]); } else { NotWorth(ts[0]); }
    var n := |CommitNode(ts[0])|;
    if k < n {
      i := 0;
    } else {
      i := CommittedFrom(ts[1..], k - n);
      i := i + 1;
    }
  }

  lemma {:induction false} StorableNodeAfter(t: Tree, r: Rules)
    requires SaneNode(t) && WellFormedNode(t) && Stays(t) && StorablePendingNode(t, r)
    ensures StorableNode(After(t), r)
    decreases t, 0
  {
    hide SaneNode, Storable, StorablePending;
    AfterIs(t);
    ChildrenAreSane(t);
    StorableAfter(t.children, r);
  }

  lemma {:induction false} CleanIsShown(ts: seq<Tree>)
    requires WellFormed(ts) && Clean(ts)
    ensures Shown(ts)
  {
    forall i | 0 <= i < |ts| ensures ShownNode(ts[i]) {
      assert WellFormedNode(ts[i]);
      if !ts[i].isTemplate { CleanIsShown(ts[i].children); }
    }
  }

  /** Loading the contents saved with uncommitted changes into a fresh definition puts in force
      all that was pending, but for blocks made from templates in which nothing of worth was. */
  lemma LoadsPending(ds: seq<Tree>, ts: seq<Tree>, r: Rules)
    requires FreshForPending(ds, ts, r)
    ensures var m := Merge(ds, Saved(ts, false), false, r);
            m.ok && Unique(m.children) && InForceByName(m.children) == ByName(Pending(TrimPending(ts)))
  {
    hide Sane, Unique, Skeleton, Storable, StorablePending, Emptied, Merge, ByName, Saved, Trim, TrimPending, Shown;
    SaneIs(ts);
    SavesPending(ts);
    SweepKeepsShape(Committing, ts);
    SweepKeepsNames(Committing, ts);
    StorableAfter(ts, r);
    CommitPutsInForce(ts);
    CleanIsShown(Commit(ts));
    LoadsExactly(ds, Commit(ts), r);
    TrimsAlike(ts);
  }

  /** A configuration saved to a file with its uncommitted changes, and loaded. */
  lemma SaveAndLoadPending(ds: seq<Tree>, ts: seq<Tree>, lex: Lexer, r: Rules)
    requires FreshForPending(ds, ts, r) && Spelt(ts, false, lex)
    ensures var file := ParseDefs(FileTokens(ts, false, lex));
            if PlainLists(ts, false) then
              && file.Parsed? && file.rest == []
              && var m := Merge(ds, BuildAll(file.ast), false, r);
                 m.ok && Unique(m.children) && InForceByName(m.children) == ByName(Pending(TrimPending(ts)))
            else file == Recovers
  {
    hide Merge, Unique, Skeleton, Sane, StorablePending, Emptied, ByName, TrimPending, Pending;
    SaneIs(ts);
    FileRoundTrip(ts, false, lex);
    LoadsPending(ds, ts, r);
  }
}
