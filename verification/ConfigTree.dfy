/** The configuration tree of src/cfg/mink_config.cpp and its two readings: what is in force
    and what would be after a commit. */
module ConfigTree {

  datatype Option<+T> = None | Some(value: T)

  /** CONFIG_NT_BLOCK, CONFIG_NT_ITEM and the rest. */
  datatype Kind = Block | Item | OtherKind

  /** CONFIG_NS_READY, CONFIG_NS_MODIFIED, CONFIG_NS_DELETED and the rest. */
  datatype Status = Ready | Modified | Deleted | OtherStatus

  /** A ConfigItem with everything below it; sortNode is the name of the node sort_node
      points to. */
  datatype Tree = Tree(
    name: string,
    value: string,
    newValue: string,
    typ: string,
    kind: Kind,
    status: Status,
    isTemplate: bool,
    isEmpty: bool,
    isNew: bool,
    sortNode: Option<string>,
    children: seq<Tree>)

  // ---------------------------------------------------------------- the two readings

  /** A node as a reader of the configuration sees it. */
  datatype View = View(name: string, typ: string, kind: Kind, value: string, children: seq<View>)

  /** A new block is not in force yet; a template never is. */
  predicate InForce(t: Tree) {
    !t.isTemplate && !(t.kind == Block && t.isNew)
  }

  /** What is in force. */
  function Committed(ts: seq<Tree>): seq<View> {
    if ts == [] then [] else CommittedHere(ts[0]) + Committed(ts[1..])
  }

  function CommittedHere(t: Tree): seq<View>
    decreases t, 1
  {
    if InForce(t) then [CommittedNode(t)] else []
  }

  function CommittedNode(t: Tree): View
    decreases t, 0
  {
    View(t.name, t.typ, t.kind, if t.kind == Item then t.value else "", Committed(t.children))
  }

  predicate Stays(t: Tree) {
    !t.isTemplate && !(t.kind == Block && t.status == Deleted)
  }

  /** What a commit would put in force. */
  function Pending(ts: seq<Tree>): seq<View> {
    if ts == [] then [] else PendingHere(ts[0]) + Pending(ts[1..])
  }

  function PendingHere(t: Tree): seq<View>
    decreases t, 1
  {
    if Stays(t) then [PendingNode(t)] else []
  }

  function PendingNode(t: Tree): View
    decreases t, 0
  {
    View(t.name, t.typ, t.kind,
         if t.kind != Item || t.status == Deleted then "" else t.newValue,
         Pending(t.children))
  }

  lemma CommittedOne(t: Tree)
    ensures Committed([t]) == CommittedHere(t)
  {
    assert [t][1..] == [];
  }

  lemma PendingOne(t: Tree)
    ensures Pending([t]) == PendingHere(t)
  {
    assert [t][1..] == [];
  }

  lemma CommittedCons(ts: seq<Tree>)
    requires ts != []
    ensures Committed(ts) == CommittedHere(ts[0]) + Committed(ts[1..])
  {
  }

  lemma PendingCons(ts: seq<Tree>)
    requires ts != []
    ensures Pending(ts) == PendingHere(ts[0]) + Pending(ts[1..])
  {
  }

  lemma {:induction false} CommittedConcat(a: seq<Tree>, b: seq<Tree>)
    ensures Committed(a + b) == Committed(a) + Committed(b)
  {
    if a == [] {
      assert a + b == b;
    } else {
      hide Committed;
      assert (a + b)[0] == a[0] && (a + b)[1..] == a[1..] + b;
      CommittedConcat(a[1..], b);
      CommittedCons(a);
      CommittedCons(a + b);
    }
  }

  lemma {:induction false} PendingConcat(a: seq<Tree>, b: seq<Tree>)
    ensures Pending(a + b) == Pending(a) + Pending(b)
  {
    if a == [] {
      assert a + b == b;
    } else {
      hide Pending;
      assert (a + b)[0] == a[0] && (a + b)[1..] == a[1..] + b;
      PendingConcat(a[1..], b);
      PendingCons(a);
      PendingCons(a + b);
    }
  }

  /** Nodes are blocks or items, only blocks are new, items have nothing below them, and an
      item without changes has one value. Templates and what is below them are nodes too. */
  predicate WellFormed(ts: seq<Tree>) {
    forall i :: 0 <= i < |ts| ==> WellFormedNode(ts[i])
  }

  predicate WellFormedNode(t: Tree) {
    && t.kind != OtherKind && t.status != OtherStatus
    && (t.isNew ==> t.kind == Block)
    && (t.kind == Item ==> t.children == [])
    && (t.kind == Item && t.status == Ready ==> t.value == t.newValue)
    && WellFormed(t.children)
  }

  /** Nothing to commit and nothing to discard. */
  predicate Clean(ts: seq<Tree>) {
    forall i :: 0 <= i < |ts| ==> ts[i].isTemplate || CleanNode(ts[i])
  }

  predicate CleanNode(t: Tree) {
    t.status == Ready && !t.isNew && Clean(t.children)
  }

  lemma {:induction false} CleanIsSettled(ts: seq<Tree>)
    requires WellFormed(ts) && Clean(ts)
    ensures Committed(ts) == Pending(ts)
  {
    if ts != [] {
      if !ts[0].isTemplate { CleanIsSettled(ts[0].children); }
      CleanIsSettled(ts[1..]);
      assert CommittedHere(ts[0]) == PendingHere(ts[0]);
    }
  }

  // ---------------------------------------------------------------- commit

  /** commit(.., false): what becomes of the children of a node. Nothing happens below a
      template, and a deleted block is removed with all that is in it. */
  function Commit(ts: seq<Tree>): seq<Tree> {
    if ts == [] then []
    else CommitNode(ts[0]) + Commit(ts[1..])
  }

  function CommitNode(t: Tree): seq<Tree> {
    if t.isTemplate then [t]
    else
      match t.status
      case Ready => [t.(isNew := false, children := Commit(t.children))]
      case Modified =>
        [t.(isNew := false, status := Ready, value := if t.kind == Item then t.newValue else t.value,
            children := Commit(t.children))]
      case Deleted => if t.kind == Block then [] else [t.(isNew := false, status := Ready, value := "", newValue := "")]
      case OtherStatus => [t.(isNew := false)]
  }

  /** The result of commit, pretending or not. */
  function Changes(ts: seq<Tree>): nat
    decreases ts, 0
  {
    if ts == [] then 0 else ChangesHere(ts[0]) + Changes(ts[1..])
  }

  function ChangesHere(t: Tree): nat
    decreases t, 1
  {
    if t.isTemplate then 0
    else
      match t.status
      case Ready => Changes(t.children)
      case Modified => 1 + Changes(t.children)
      case Deleted => 1
      case OtherStatus => 0
  }

  /** commit(.., true). */
  function Pretend(ts: seq<Tree>): seq<Tree> {
    if ts == [] then []
    else [PretendNode(ts[0])] + Pretend(ts[1..])
  }

  function PretendNode(t: Tree): Tree {
    if t.isTemplate then t
    else if t.status == Ready || t.status == Modified then t.(isNew := false, children := Pretend(t.children))
    else t.(isNew := false)
  }

  /** A commit puts in force exactly what was pending, and leaves nothing pending. */
  lemma {:induction false} CommitPutsInForce(ts: seq<Tree>)
    requires WellFormed(ts)
    ensures Committed(Commit(ts)) == Pending(ts)
    ensures Pending(Commit(ts)) == Pending(ts)
    ensures WellFormed(Commit(ts)) && Clean(Commit(ts))
    decreases ts, 0
  {
    if ts != [] {
      hide Committed, Pending, CommitNode, WellFormedNode, CleanNode;
      var t, rest := ts[0], ts[1..];
      CommitNodePutsInForce(t);
      CommitPutsInForce(rest);
      CommittedConcat(CommitNode(t), Commit(rest));
      PendingConcat(CommitNode(t), Commit(rest));
      PendingCons(ts);
    }
  }

  lemma {:induction false} CommitNodePutsInForce(t: Tree)
    requires WellFormedNode(t)
    ensures Committed(CommitNode(t)) == PendingHere(t) && Pending(CommitNode(t)) == PendingHere(t)
    ensures WellFormed(CommitNode(t)) && Clean(CommitNode(t))
    decreases t, 1
  {
    CommitPutsInForce(t.children);
    hide Committed, Pending, Commit;
    if CommitNode(t) == [] {
      NothingThere();
    } else {
      var c := CommitNode(t)[0];
      assert CommitNode(t) == [c];
      CommittedOne(c);
      PendingOne(c);
    }
  }

  lemma NothingThere()
    ensures Committed([]) == [] && Pending([]) == []
  {
  }

  /** Committing a tree without changes or new blocks does nothing. */
  lemma {:induction false} NothingToCommit(ts: seq<Tree>)
    requires Clean(ts)
    ensures Changes(ts) == 0 && Commit(ts) == ts
    decreases ts, 0
  {
    hide CleanNode, CommitNode, ChangesHere;
    if ts != [] {
      NothingToCommitHere(ts[0]);
      NothingToCommit(ts[1..]);
    }
  }

  lemma {:induction false} NothingToCommitHere(t: Tree)
    requires t.isTemplate || CleanNode(t)
    ensures ChangesHere(t) == 0 && CommitNode(t) == [t]
    decreases t, 1
  {
    hide Commit, Changes, Clean;
    if !t.isTemplate {
      NothingToCommit(t.children);
      assert t.(isNew := false, children := t.children) == t;
    }
  }

  /** An immediate second commit finds nothing and changes nothing. */
  lemma SecondCommit(ts: seq<Tree>)
    requires WellFormed(ts)
    ensures Changes(Commit(ts)) == 0 && Commit(Commit(ts)) == Commit(ts)
  {
    CommitPutsInForce(ts);
    NothingToCommit(Commit(ts));
  }

  /** Pretending announces the count and forgets only which blocks are new: what is pending
      stays, and committing afterwards gives the same tree. */
  lemma {:induction false} PretendForgetsNew(ts: seq<Tree>)
    requires WellFormed(ts)
    ensures WellFormed(Pretend(ts)) && Changes(Pretend(ts)) == Changes(ts)
    ensures Pending(Pretend(ts)) == Pending(ts)
    ensures Commit(Pretend(ts)) == Commit(ts)
    decreases ts, 0
  {
    hide PretendNode, CommitNode, PendingNode, WellFormedNode;
    if ts != [] {
      PretendNodeForgetsNew(ts[0]);
      PretendForgetsNew(ts[1..]);
      var us := Pretend(ts);
      assert us[0] == PretendNode(ts[0]) && us[1..] == Pretend(ts[1..]);
      assert us == [us[0]] + us[1..];
    }
  }

  lemma {:induction false} PretendNodeForgetsNew(t: Tree)
    requires WellFormedNode(t)
    ensures var u := PretendNode(t);
            && WellFormedNode(u) && ChangesHere(u) == ChangesHere(t) && PendingHere(u) == PendingHere(t)
            && CommitNode(u) == CommitNode(t)
            && u.isTemplate == t.isTemplate && u.status == t.status
    decreases t, 1
  {
    PretendForgetsNew(t.children);
  }

  lemma {:induction false} PretendOnlyForgets(ts: seq<Tree>)
    ensures Forgotten(ts, Pretend(ts))
  {
    if ts != [] {
      PretendOnlyForgets(ts[0].children);
      PretendOnlyForgets(ts[1..]);
      assert Pretend(ts)[0] == PretendNode(ts[0]) && Pretend(ts)[1..] == Pretend(ts[1..]);
    }
  }

  lemma {:induction false} PretendKeepsNodes(ts: seq<Tree>)
    ensures |Pretend(ts)| == |ts| && |Commit(ts)| <= |ts|
  {
    if ts != [] { PretendKeepsNodes(ts[1..]); }
  }

  /** The count is zero exactly if committing would do no more than pretending does. */
  lemma {:induction false} CountsChanges(ts: seq<Tree>)
    requires WellFormed(ts)
    ensures Changes(ts) == 0 <==> Commit(ts) == Pretend(ts)
  {
    if ts != [] {
      var t, rest := ts[0], ts[1..];
      CountsChanges(rest);
      CountsChanges(t.children);
      PretendKeepsNodes(rest);
      assert Pretend(ts)[0] == PretendNode(t) && Pretend(ts)[1..] == Pretend(rest);
      if CommitNode(t) == [] {
        assert |Commit(ts)| < |Pretend(ts)|;
      } else {
        var c := CommitNode(t)[0];
        assert CommitNode(t) == [c] && Commit(ts)[0] == c && Commit(ts)[1..] == Commit(rest);
        assert c == PretendNode(t) <==> t.isTemplate || (t.status == Ready && Changes(t.children) == 0);
      }
    }
  }

  /** The same nodes, some of them no longer new. */
  predicate Forgotten(ts: seq<Tree>, us: seq<Tree>) {
    && |us| == |ts|
    && (ts != [] ==>
        && (us[0] == ts[0] || ForgottenNode(ts[0], us[0]))
        && Forgotten(ts[1..], us[1..]))
  }

  predicate ForgottenNode(t: Tree, u: Tree) {
    u == t.(isNew := false, children := u.children) && (u.children == t.children || Forgotten(t.children, u.children))
  }

  /** A new block a commit would come to: nothing above it is a template or deleted. */
  predicate HasNew(ts: seq<Tree>) {
    exists i :: 0 <= i < |ts| && HasNewNode(ts[i])
  }

  predicate HasNewNode(t: Tree) {
    !t.isTemplate && (t.isNew || ((t.status == Ready || t.status == Modified) && HasNew(t.children)))
  }

  function Size(vs: seq<View>): nat {
    if vs == [] then 0 else 1 + Size(vs[0].children) + Size(vs[1..])
  }

  /** Pretending is not without effect: it puts every new block it comes to in force. What is
      in force stays exactly if there is none. */
  lemma {:induction false} PretendPutsNewInForce(ts: seq<Tree>)
    requires WellFormed(ts)
    ensures !HasNew(ts) ==> Pretend(ts) == ts
    ensures Size(Committed(Pretend(ts))) >= Size(Committed(ts))
    ensures HasNew(ts) ==> Size(Committed(Pretend(ts))) > Size(Committed(ts))
    decreases ts, 0
  {
    if ts != [] {
      hide Committed, CommittedHere, PretendNode, HasNewNode, HasNew, Size;
      var t, rest := ts[0], ts[1..];
      PretendPutsNodeInForce(t);
      PretendPutsNewInForce(rest);
      CommittedCons(ts);
      CommittedCons(Pretend(ts));
      assert Pretend(ts)[0] == PretendNode(t) && Pretend(ts)[1..] == Pretend(rest);
      SizeJoin(CommittedHere(t), Committed(rest));
      SizeJoin(CommittedHere(PretendNode(t)), Committed(Pretend(rest)));
      HasNewCons(ts);
    } else {
      assert Pretend(ts) == ts;
    }
  }

  lemma {:induction false} PretendPutsNodeInForce(t: Tree)
    requires WellFormedNode(t)
    ensures !HasNewNode(t) ==> PretendNode(t) == t
    ensures Size(CommittedHere(PretendNode(t))) >= Size(CommittedHere(t))
    ensures HasNewNode(t) ==> Size(CommittedHere(PretendNode(t))) > Size(CommittedHere(t))
    decreases t, 1
  {
    PretendPutsNewInForce(t.children);
    hide Committed, Pretend, HasNew;
  }

  lemma HasNewCons(ts: seq<Tree>)
    requires ts != []
    ensures HasNew(ts) <==> HasNewNode(ts[0]) || HasNew(ts[1..])
  {
    hide HasNewNode;
    if HasNew(ts) {
      var i :| 0 <= i < |ts| && HasNewNode(ts[i]);
      assert i > 0 ==> ts[1..][i - 1] == ts[i];
    }
    if HasNew(ts[1..]) {
      var i :| 0 <= i < |ts[1..]| && HasNewNode(ts[1..][i]);
      assert ts[i + 1] == ts[1..][i];
    }
  }

  lemma {:induction false} SizeJoin(a: seq<View>, b: seq<View>)
    ensures Size(a + b) == Size(a) + Size(b)
  {
    if a == [] {
      assert a + b == b;
    } else {
      assert (a + b)[0] == a[0] && (a + b)[1..] == a[1..] + b;
      SizeJoin(a[1..], b);
    }
  }

  lemma PretendKeepsForce(ts: seq<Tree>)
    requires WellFormed(ts)
    ensures Committed(Pretend(ts)) == Committed(ts) <==> !HasNew(ts)
  {
    PretendPutsNewInForce(ts);
  }

  // ---------------------------------------------------------------- discard

  function Discard(ts: seq<Tree>): seq<Tree> {
    if ts == [] then []
    else DiscardNode(ts[0]) + Discard(ts[1..])
  }

  function DiscardNode(t: Tree): seq<Tree> {
    if t.isTemplate then [t]
    else if t.isNew then []
    else
      match t.status
      case Ready => [t.(children := Discard(t.children))]
      case Modified => [Undone(t).(children := Discard(t.children))]
      case Deleted => [Undone(t).(children := Discard(t.children))]
      case OtherStatus => [t]
  }

  function Undone(t: Tree): Tree {
    t.(status := Ready, newValue := if t.kind == Item then t.value else t.newValue)
  }

  /** Discarding leaves in force what is, and nothing else pending. */
  lemma {:induction false} DiscardRestores(ts: seq<Tree>)
    requires WellFormed(ts)
    ensures Committed(Discard(ts)) == Committed(ts)
    ensures Pending(Discard(ts)) == Committed(ts)
    ensures WellFormed(Discard(ts)) && Clean(Discard(ts))
    decreases ts, 0
  {
    if ts != [] {
      hide Committed, Pending, DiscardNode, WellFormedNode, CleanNode;
      var t, rest := ts[0], ts[1..];
      DiscardNodeRestores(t);
      DiscardRestores(rest);
      CommittedConcat(DiscardNode(t), Discard(rest));
      PendingConcat(DiscardNode(t), Discard(rest));
      CommittedCons(ts);
    }
  }

  lemma {:induction false} DiscardNodeRestores(t: Tree)
    requires WellFormedNode(t)
    ensures Committed(DiscardNode(t)) == CommittedHere(t) && Pending(DiscardNode(t)) == CommittedHere(t)
    ensures WellFormed(DiscardNode(t)) && Clean(DiscardNode(t))
    decreases t, 1
  {
    DiscardRestores(t.children);
    hide Committed, Pending, Discard;
    if DiscardNode(t) == [] {
      NothingThere();
    } else {
      var d := DiscardNode(t)[0];
      assert DiscardNode(t) == [d];
      CommittedOne(d);
      PendingOne(d);
    }
  }

  /** A clean tree is its own result. */
  lemma {:induction false} NothingToDiscard(ts: seq<Tree>)
    requires Clean(ts)
    ensures Discard(ts) == ts
  {
    if ts != [] {
      if !ts[0].isTemplate { NothingToDiscard(ts[0].children); }
      NothingToDiscard(ts[1..]);
      assert DiscardNode(ts[0]) == [ts[0]];
    }
  }
}
