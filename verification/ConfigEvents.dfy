/** Applying a received update list to a daemon's tree, and telling its handlers, in
    src/cfg/config_gdt.cpp. */
module ConfigEvents {
  import opened ConfigTree

  type Path = seq<string>

  /** A node: its handler (on_change) and whether it has been told in this update
      (onc_hndlr_exec). */
  datatype Node = Node(kind: Kind, value: string, status: Status, handler: Option<nat>, isNew: bool, told: bool)

  /** The tree by paths. */
  type Nodes = map<Path, Node>

  datatype Update = Update(path: Path, value: string, kind: Kind, status: Status)

  datatype Call = Call(handler: nat, path: Path)

  /** A call with the node as the handler sees it. */
  datatype Seen = Seen(call: Call, kind: Kind, value: string, status: Status)

  function Parent(p: Path): Path
    requires p != []
  {
    p[..|p| - 1]
  }

  /** Every node but the root hangs below a node. */
  predicate Rooted(ns: Nodes) {
    [] in ns && forall p :: p in ns && p != [] ==> Parent(p) in ns
  }

  // ---------------------------------------------------------------- process_cfg_events

  /** The node an update is about, if its change can be told. */
  predicate Heard(ns: Nodes, p: Path) {
    p != [] && p in ns && ns[p].handler.Some?
  }

  /** Values and states are set before the handlers see the nodes. */
  function Touch(ns: Nodes, u: Update): (ms: Nodes)
    ensures ms.Keys == ns.Keys
  {
    if !Heard(ns, u.path) then ns
    else
      var n := ns[u.path];
      ns[u.path := n.(value := if u.status == Deleted && n.kind == Item then "" else u.value, status := u.status)]
  }

  function TouchAll(ns: Nodes, us: seq<Update>): (ms: Nodes)
    ensures ms.Keys == ns.Keys
  {
    if us == [] then ns else TouchAll(Touch(ns, us[0]), us[1..])
  }

  /** Whom one pass tells what: every listed node not told before. */
  function Calls(ns: Nodes, us: seq<Update>): seq<Call> {
    if us == [] then []
    else
      (if Heard(ns, us[0].path) && !ns[us[0].path].told then [Call(ns[us[0].path].handler.value, us[0].path)] else [])
      + Calls(ns, us[1..])
  }

  /** What a handler sees in the tree ns. */
  function See(ns: Nodes, c: Call): Seen {
    if c.path in ns then Seen(c, ns[c.path].kind, ns[c.path].value, ns[c.path].status) else Seen(c, OtherKind, "", OtherStatus)
  }

  function SeeAll(ns: Nodes, cs: seq<Call>): (ss: seq<Seen>)
    ensures |ss| == |cs|
  {
    if cs == [] then [] else [See(ns, cs[0])] + SeeAll(ns, cs[1..])
  }

  function Flip(ns: Nodes, c: Call): (ms: Nodes)
    ensures ms.Keys == ns.Keys
  {
    if c.path in ns then ns[c.path := ns[c.path].(told := !ns[c.path].told)] else ns
  }

  function FlipAll(ns: Nodes, cs: seq<Call>): (ms: Nodes)
    ensures ms.Keys == ns.Keys
  {
    if cs == [] then ns else FlipAll(Flip(ns, cs[0]), cs[1..])
  }

  function Pass(ns: Nodes, us: seq<Update>): Nodes {
    FlipAll(TouchAll(ns, us), Calls(ns, us))
  }

  /** What the handlers see in one pass. */
  function Sights(ns: Nodes, us: seq<Update>): seq<Seen> {
    SeeAll(TouchAll(ns, us), Calls(ns, us))
  }

  // ---------------------------------------------------------------- the update itself

  /** The node at p, made if it is missing: what is missing above it is made a block, and all
      that is made hears what its parent does. */
  function Grow(ns: Nodes, p: Path, kind: Kind): (ms: Nodes)
    requires [] in ns
    ensures p in ms && forall q :: q in ns ==> q in ms && ms[q] == ns[q]
    decreases |p|
  {
    if p in ns then ns
    else
      var ms := Grow(ns, Parent(p), Block);
      ms[p := Node(kind, "", Ready, ms[Parent(p)].handler, true, false)]
  }

  predicate Below(q: Path, p: Path) {
    |p| <= |q| && q[..|p|] == p
  }

  function Without(ns: Nodes, p: Path): Nodes {
    map q | q in ns && !Below(q, p) :: ns[q]
  }

  function Apply(ns: Nodes, u: Update): (ms: Nodes)
    requires [] in ns
    ensures [] in ms
  {
    if u.path == [] then ns
    else
      var ms := Grow(ns, u.path, u.kind);
      match ms[u.path].kind
      case Block => if u.status == Deleted then Without(ms, u.path) else ms
      case Item => ms[u.path := ms[u.path].(value := if u.status == Deleted then "" else u.value)]
      case OtherKind => ms
  }

  function ApplyAll(ns: Nodes, us: seq<Update>): (ms: Nodes)
    requires [] in ns
    ensures [] in ms
    decreases |us|
  {
    if us == [] then ns else ApplyAll(Apply(ns, us[0]), us[1..])
  }

  function Settle(ns: Nodes, u: Update): (ms: Nodes)
    ensures ms.Keys == ns.Keys
  {
    if u.path == [] || u.path !in ns then ns
    else ns[u.path := ns[u.path].(told := false, isNew := false, status := Ready)]
  }

  function SettleAll(ns: Nodes, us: seq<Update>): (ms: Nodes)
    ensures ms.Keys == ns.Keys
  {
    if us == [] then ns else SettleAll(Settle(ns, us[0]), us[1..])
  }

  /** CfgUpdateStreamDone::run: the tree in the second pass, the tree at the end, and what all
      handlers see. */
  function Updated(ns: Nodes, us: seq<Update>): Nodes
    requires [] in ns
  {
    ApplyAll(Pass(ns, us), us)
  }

  function Done(ns: Nodes, us: seq<Update>): Nodes
    requires [] in ns
  {
    SettleAll(Pass(Updated(ns, us), us), us)
  }

  function Told(ns: Nodes, us: seq<Update>): seq<Seen>
    requires [] in ns
  {
    Sights(ns, us) + Sights(Updated(ns, us), us)
  }

  // ---------------------------------------------------------------- one pass

  predicate Lists(us: seq<Update>, p: Path) {
    exists i :: 0 <= i < |us| && us[i].path == p
  }

  /** No path is listed twice. */
  predicate Separate(us: seq<Update>) {
    forall i, j :: 0 <= i < j < |us| ==> us[i].path != us[j].path
  }

  /** Nothing is listed below something deleted. */
  predicate NoneBelowDeleted(us: seq<Update>) {
    forall i, j :: 0 <= i < |us| && 0 <= j < |us| && i != j && us[i].status == Deleted ==> !Below(us[j].path, us[i].path)
  }

  predicate Quiet(ns: Nodes) {
    forall p :: p in ns ==> !ns[p].told
  }

  lemma ListsCons(us: seq<Update>, p: Path)
    requires us != []
    ensures Lists(us, p) <==> us[0].path == p || Lists(us[1..], p)
  {
    if Lists(us, p) {
      var i :| 0 <= i < |us| && us[i].path == p;
      if i > 0 { assert us[1..][i - 1] == us[i]; }
    }
    if Lists(us[1..], p) {
      var i :| 0 <= i < |us[1..]| && us[1..][i].path == p;
      assert us[i + 1] == us[1..][i];
    }
  }

  lemma SeparateCons(us: seq<Update>)
    requires Separate(us) && us != []
    ensures Separate(us[1..]) && !Lists(us[1..], us[0].path)
  {
    forall i | 0 <= i < |us[1..]| ensures us[1..][i].path != us[0].path {
      assert us[1..][i] == us[i + 1];
    }
  }

  /** Touching changes only values and states. */
  predicate SameHearing(n: Node, m: Node) {
    m == n.(value := m.value, status := m.status)
  }

  lemma {:induction false} TouchKeeps(ns: Nodes, us: seq<Update>, p: Path)
    requires p in ns
    ensures SameHearing(ns[p], TouchAll(ns, us)[p])
    ensures !Lists(us, p) ==> TouchAll(ns, us)[p] == ns[p]
    decreases |us|
  {
    if us != [] {
      TouchKeeps(Touch(ns, us[0]), us[1..], p);
      ListsCons(us, p);
    }
  }

  function Hears(ns: Nodes, us: seq<Update>, c: Call): bool {
    Lists(us, c.path) && Heard(ns, c.path) && !ns[c.path].told && ns[c.path].handler == Some(c.handler)
  }

  /** A pass tells each listed node's handler once, if the node was not told before. */
  lemma {:induction false} CallsAre(ns: Nodes, us: seq<Update>, c: Call)
    requires Separate(us)
    ensures multiset(Calls(ns, us))[c] == if Hears(ns, us, c) then 1 else 0
    decreases |us|
  {
    if us != [] {
      SeparateCons(us);
      CallsAre(ns, us[1..], c);
      ListsCons(us, c.path);
    }
  }

  /** A call shows the node as it is in the tree. */
  lemma {:induction false} SeenAre(ns: Nodes, cs: seq<Call>, s: Seen)
    ensures multiset(SeeAll(ns, cs))[s] == if s == See(ns, s.call) then multiset(cs)[s.call] else 0
    decreases |cs|
  {
    if cs != [] {
      assert cs == [cs[0]] + cs[1..];
      SeenAre(ns, cs[1..], s);
    }
  }

  lemma {:induction false} NotCalled(ns: Nodes, us: seq<Update>, i: nat)
    requires i < |Calls(ns, us)|
    ensures Lists(us, Calls(ns, us)[i].path)
    decreases |us|
  {
    var n := |Calls(ns, us)| - |Calls(ns, us[1..])|;
    ListsCons(us, Calls(ns, us)[i].path);
    if i >= n { NotCalled(ns, us[1..], i - n); }
  }

  lemma {:induction false} FlipKeeps(ns: Nodes, cs: seq<Call>, p: Path)
    requires p in ns
    ensures FlipAll(ns, cs)[p] == ns[p].(told := FlipAll(ns, cs)[p].told)
    ensures (forall i :: 0 <= i < |cs| ==> cs[i].path != p) ==> FlipAll(ns, cs)[p] == ns[p]
    decreases |cs|
  {
    if cs != [] {
      FlipKeeps(Flip(ns, cs[0]), cs[1..], p);
      if forall i :: 0 <= i < |cs| ==> cs[i].path != p {
        assert forall i :: 0 <= i < |cs[1..]| ==> cs[1..][i] == cs[i + 1];
      }
    }
  }

  /** Whoever was told is marked. */
  lemma {:induction false} FlipMarks(ns: Nodes, ms: Nodes, us: seq<Update>, p: Path)
    requires Separate(us) && p in ns && ms.Keys == ns.Keys && !ns[p].told && !ms[p].told
    ensures FlipAll(ms, Calls(ns, us))[p].told <==> Lists(us, p) && Heard(ns, p)
    decreases |us|
  {
    if us != [] {
      SeparateCons(us);
      ListsCons(us, p);
      var rest := Calls(ns, us[1..]);
      if us[0].path == p {
        forall i | 0 <= i < |rest| ensures rest[i].path != p {
          NotCalled(ns, us[1..], i);
        }
        FlipKeeps(ms, rest, p);
        if Heard(ns, p) {
          var c := Call(ns[p].handler.value, p);
          assert Calls(ns, us)[1..] == rest && Calls(ns, us)[0] == c;
          FlipKeeps(Flip(ms, c), rest, p);
        } else {
          assert Calls(ns, us) == rest;
        }
      } else if Heard(ns, us[0].path) && !ns[us[0].path].told {
        var c := Call(ns[us[0].path].handler.value, us[0].path);
        assert Calls(ns, us)[1..] == rest && Calls(ns, us)[0] == c;
        FlipMarks(ns, Flip(ms, c), us[1..], p);
      } else {
        assert Calls(ns, us) == rest;
        FlipMarks(ns, ms, us[1..], p);
      }
    }
  }

  /** What a pass does to one node. */
  lemma PassAt(ns: Nodes, us: seq<Update>, p: Path)
    requires p in ns
    ensures p in Pass(ns, us) && SameHearing(ns[p].(told := Pass(ns, us)[p].told), Pass(ns, us)[p])
    ensures Separate(us) && !ns[p].told ==> (Pass(ns, us)[p].told <==> Lists(us, p) && Heard(ns, p))
    ensures !Lists(us, p) ==> Pass(ns, us)[p] == ns[p]
  {
    TouchKeeps(ns, us, p);
    var ms := TouchAll(ns, us);
    FlipKeeps(ms, Calls(ns, us), p);
    if Separate(us) && !ns[p].told { FlipMarks(ns, ms, us, p); }
    if !Lists(us, p) {
      forall i | 0 <= i < |Calls(ns, us)| ensures Calls(ns, us)[i].path != p {
        NotCalled(ns, us, i);
      }
    }
  }

  // ---------------------------------------------------------------- what the update keeps

  /** Since ns0: what stands there stood there before as it is, up to its value, or is new and
      has not been told; what has gone was below something deleted. */
  ghost predicate Since(ns0: Nodes, ns: Nodes, done: seq<Update>) {
    && (forall p :: p in ns ==> if p in ns0 then ns[p] == ns0[p].(value := ns[p].value) else !ns[p].told && ns[p].isNew)
    && (forall p :: p in ns0 ==> p in ns || GoneBy(done, p))
    && (forall p :: p in ns0 && p in ns && !Lists(done, p) ==> ns[p] == ns0[p])
  }

  predicate GoneBy(us: seq<Update>, p: Path) {
    exists i :: 0 <= i < |us| && us[i].status == Deleted && Below(p, us[i].path)
  }

  lemma {:induction false} GrowOnly(ns: Nodes, p: Path, kind: Kind, q: Path)
    requires [] in ns && q in Grow(ns, p, kind) && q !in ns
    ensures Below(p, q) && !Grow(ns, p, kind)[q].told && Grow(ns, p, kind)[q].isNew
    ensures q == p ==> Grow(ns, p, kind)[q].kind == kind
    decreases |p|
  {
    if p !in ns && q != p {
      GrowOnly(ns, Parent(p), Block, q);
      assert p[..|q|] == Parent(p)[..|q|];
    }
  }

  lemma BelowThrough(p: Path, q: Path, d: Path)
    requires Below(p, q) && Below(q, d)
    ensures Below(p, d)
  {
    assert p[..|d|] == p[..|q|][..|d|];
  }

  lemma GoneMore(done: seq<Update>, u: Update, p: Path)
    ensures GoneBy(done + [u], p) <==> GoneBy(done, p) || (u.status == Deleted && Below(p, u.path))
    ensures Lists(done + [u], p) <==> Lists(done, p) || u.path == p
  {
    var all := done + [u];
    assert all[|done|] == u && forall i :: 0 <= i < |done| ==> all[i] == done[i];
  }

  /** One entry. */
  lemma ApplyKeeps(ns0: Nodes, ns: Nodes, done: seq<Update>, u: Update)
    requires [] in ns && Since(ns0, ns, done) && !GoneBy(done, u.path)
    ensures Since(ns0, Apply(ns, u), done + [u])
  {
    hide Since, GoneBy, Lists;
    if u.path == [] {
      SinceMore(ns0, ns, done, u);
    } else {
      var ms := Grow(ns, u.path, u.kind);
      GrownSince(ns0, ns, done, u);
      SinceMore(ns0, ms, done, u);
      SinceAltered(ns0, ms, done, u, if u.status == Deleted then "" else u.value);
      if u.status == Deleted { SinceWithout(ns0, ms, done, u); }
    }
  }

  lemma SinceMore(ns0: Nodes, ns: Nodes, done: seq<Update>, u: Update)
    requires Since(ns0, ns, done)
    ensures Since(ns0, ns, done + [u])
  {
    forall p ensures GoneBy(done, p) ==> GoneBy(done + [u], p)
      ensures Lists(done, p) ==> Lists(done + [u], p)
    {
      GoneMore(done, u, p);
    }
  }

  lemma SinceAltered(ns0: Nodes, ns: Nodes, done: seq<Update>, u: Update, v: string)
    requires Since(ns0, ns, done) && u.path in ns
    ensures Since(ns0, ns[u.path := ns[u.path].(value := v)], done + [u])
  {
    forall p ensures GoneBy(done, p) ==> GoneBy(done + [u], p)
      ensures Lists(done + [u], p) <==> Lists(done, p) || u.path == p
    {
      GoneMore(done, u, p);
    }
  }

  lemma SinceWithout(ns0: Nodes, ns: Nodes, done: seq<Update>, u: Update)
    requires Since(ns0, ns, done) && u.status == Deleted
    ensures Since(ns0, Without(ns, u.path), done + [u])
  {
    forall p ensures GoneBy(done, p) || Below(p, u.path) ==> GoneBy(done + [u], p)
      ensures Lists(done + [u], p) <==> Lists(done, p) || u.path == p
    {
      GoneMore(done, u, p);
    }
  }

  lemma GoneThrough(us: seq<Update>, p: Path, q: Path)
    requires GoneBy(us, p) && Below(q, p)
    ensures GoneBy(us, q)
  {
    var i :| 0 <= i < |us| && us[i].status == Deleted && Below(p, us[i].path);
    BelowThrough(q, p, us[i].path);
  }

  lemma GrownSince(ns0: Nodes, ns: Nodes, done: seq<Update>, u: Update)
    requires [] in ns && Since(ns0, ns, done) && !GoneBy(done, u.path)
    ensures Since(ns0, Grow(ns, u.path, u.kind), done)
  {
    var ms := Grow(ns, u.path, u.kind);
    forall p | p in ms && p !in ns ensures p !in ns0 && !ms[p].told && ms[p].isNew {
      GrowOnly(ns, u.path, u.kind, p);
      if p in ns0 { GoneThrough(done, p, u.path); }
    }
  }

  lemma {:induction false} ApplyAllKeeps(ns0: Nodes, ns: Nodes, done: seq<Update>, us: seq<Update>)
    requires [] in ns && Since(ns0, ns, done) && NoneBelowDeleted(done + us)
    ensures Since(ns0, ApplyAll(ns, us), done + us)
    decreases |us|
  {
    hide Since;
    var all := done + us;
    if us == [] {
      assert all == done;
    } else {
      assert all[|done|] == us[0];
      assert forall i :: 0 <= i < |done| ==> all[i] == done[i];
      assert !GoneBy(done, us[0].path);
      ApplyKeeps(ns0, ns, done, us[0]);
      assert done + [us[0]] + us[1..] == all;
      ApplyAllKeeps(ns0, Apply(ns, us[0]), done + [us[0]], us[1..]);
    }
  }

  lemma UpdatesKeep(ns: Nodes, us: seq<Update>)
    requires [] in ns && NoneBelowDeleted(us)
    ensures Since(ns, ApplyAll(ns, us), us)
  {
    assert [] + us == us;
    ApplyAllKeeps(ns, ns, [], us);
  }

  /** What is below nothing listed does not come to be. */
  lemma {:induction false} StaysAway(ns: Nodes, us: seq<Update>, p: Path)
    requires [] in ns && p !in ns && forall i :: 0 <= i < |us| ==> !Below(us[i].path, p)
    ensures p !in ApplyAll(ns, us)
    decreases |us|
  {
    if us != [] {
      var u := us[0];
      if u.path != [] && p in Grow(ns, u.path, u.kind) { GrowOnly(ns, u.path, u.kind, p); }
      assert forall i :: 0 <= i < |us[1..]| ==> us[1..][i] == us[i + 1];
      StaysAway(Apply(ns, u), us[1..], p);
    }
  }

  /** What the entry for p leaves there. */
  predicate Landed(ns0: Nodes, ns: Nodes, u: Update) {
    if u.path in ns then
      && (ns[u.path].kind == Item ==> ns[u.path].value == if u.status == Deleted then "" else u.value)
      && (u.status == Deleted ==> ns[u.path].kind != Block)
    else u.status == Deleted && (u.path in ns0 ==> ns0[u.path].kind == Block)
  }

  lemma LandsAtOnce(ns: Nodes, u: Update)
    requires [] in ns && u.path != []
    ensures Landed(ns, Apply(ns, u), u)
  {
    assert Below(u.path, u.path);
  }

  lemma {:induction false} Lands(ns: Nodes, us: seq<Update>, k: nat)
    requires [] in ns && Separate(us) && NoneBelowDeleted(us) && k < |us| && us[k].path != []
    ensures Landed(ns, ApplyAll(ns, us), us[k])
    decreases |us|
  {
    var u, rest := us[0], us[1..];
    var ms := Apply(ns, u);
    assert forall i :: 0 <= i < |rest| ==> rest[i] == us[i + 1];
    if k == 0 {
      LandsAtOnce(ns, u);
      UpdatesKeep(ms, rest);
      if u.path in ms {
        assert !Lists(rest, u.path) && !GoneBy(rest, u.path);
      } else {
        StaysAway(ms, rest, u.path);
      }
    } else {
      Lands(ms, rest, k - 1);
      var p := us[k].path;
      if p in ns && p in ms {
        ApplyKind(ns, u, p);
      } else if p in ns {
        GoneAtOnce(ns, u, p);
      }
    }
  }

  lemma GoneAtOnce(ns: Nodes, u: Update, p: Path)
    requires [] in ns && p in ns && p !in Apply(ns, u)
    ensures u.status == Deleted && Below(p, u.path)
  {
  }

  lemma ApplyKind(ns: Nodes, u: Update, p: Path)
    requires [] in ns && p in ns && p in Apply(ns, u)
    ensures Apply(ns, u)[p].kind == ns[p].kind
  {
  }

  lemma {:induction false} SettleAt(ns: Nodes, us: seq<Update>, p: Path)
    requires p in ns && p != []
    ensures SettleAll(ns, us)[p] == if Lists(us, p) then ns[p].(told := false, isNew := false, status := Ready) else ns[p]
    decreases |us|
  {
    if us != [] {
      ListsCons(us, p);
      SettleAt(Settle(ns, us[0]), us[1..], p);
    }
  }

  // ---------------------------------------------------------------- one whole update

  /** The handler of the node at p, or of the nearest one above it. */
  function Inherited(ns: Nodes, p: Path): Option<nat>
    requires [] in ns
    decreases |p|
  {
    if p in ns then ns[p].handler else Inherited(ns, Parent(p))
  }

  /** As what the node of the k-th entry is made if it is missing: a block, if an earlier entry
      is about something in it. */
  function FirstKind(us: seq<Update>, k: nat): Kind
    requires k < |us|
  {
    if exists i :: 0 <= i < k && Below(us[i].path, us[k].path) then Block else us[k].kind
  }

  function KindFor(ns: Nodes, us: seq<Update>, k: nat): Kind
    requires k < |us|
  {
    if us[k].path in ns then ns[us[k].path].kind else FirstKind(us, k)
  }

  /** The node of the k-th entry is there in the end: it is no block to be deleted. */
  predicate Remains(ns: Nodes, us: seq<Update>, k: nat)
    requires k < |us|
  {
    us[k].status != Deleted || KindFor(ns, us, k) != Block
  }

  /** What a handler is to see of the node an entry is about. */
  predicate Shows(u: Update, kind: Kind, s: Seen) {
    && s.call.path == u.path && s.kind == kind && s.status == u.status
    && s.value == if u.status == Deleted && kind == Item then "" else u.value
  }

  /** s tells a listed change, with the state and the value that are listed, to the handler of the
      node or of the nearest above it that was there; of what was not there, if it remains. */
  predicate Due(ns: Nodes, us: seq<Update>, s: Seen)
    requires [] in ns
  {
    && s.call.path != [] && Inherited(ns, s.call.path) == Some(s.call.handler)
    && exists k :: 0 <= k < |us| && Shows(us[k], KindFor(ns, us, k), s) && (us[k].path in ns || Remains(ns, us, k))
  }

  // ---------------------------------------------------------------- what is made

  /** Every node has the handler of what was there, and what was made on the way to something
      listed is a new block with nothing in it. */
  ghost predicate MadeFrom(ns0: Nodes, ns: Nodes, done: seq<Update>)
    requires [] in ns0
  {
    && (forall p :: p in ns ==> ns[p].handler == Inherited(ns0, p))
    && forall p :: p in ns && p !in ns0 && !Lists(done, p) ==> ns[p] == Node(Block, "", Ready, Inherited(ns0, p), true, false)
  }

  lemma {:induction false} GrowMakes(ns0: Nodes, ns: Nodes, done: seq<Update>, p: Path, kind: Kind)
    requires [] in ns0 && [] in ns && MadeFrom(ns0, ns, done) && (forall q :: q in ns0 && Below(p, q) ==> q in ns)
    ensures forall q :: q in Grow(ns, p, kind) ==> Grow(ns, p, kind)[q].handler == Inherited(ns0, q)
    ensures forall q :: q in Grow(ns, p, kind) && q !in ns0 && !Lists(done, q) && (kind == Block || q != p) ==>
              Grow(ns, p, kind)[q] == Node(Block, "", Ready, Inherited(ns0, q), true, false)
    decreases |p|
  {
    if p !in ns {
      forall q | q in ns0 && Below(Parent(p), q) ensures q in ns { assert Below(p, q) by { BelowThrough(p, Parent(p), q); } }
      GrowMakes(ns0, ns, done, Parent(p), Block);
      assert p !in ns0 by { if p in ns0 { assert Below(p, p); } }
    }
  }

  lemma ApplyMakes(ns0: Nodes, ns: Nodes, done: seq<Update>, u: Update)
    requires [] in ns0 && [] in ns && MadeFrom(ns0, ns, done) && (forall q :: q in ns0 && Below(u.path, q) ==> q in ns)
    ensures MadeFrom(ns0, Apply(ns, u), done + [u])
  {
    hide Lists, GoneBy, Inherited;
    forall p ensures Lists(done + [u], p) <==> Lists(done, p) || u.path == p { GoneMore(done, u, p); }
    if u.path != [] {
      GrowMakes(ns0, ns, done, u.path, u.kind);
    }
  }

  lemma {:induction false} ApplyAllMakes(ns0: Nodes, ns: Nodes, done: seq<Update>, us: seq<Update>)
    requires [] in ns0 && [] in ns && MadeFrom(ns0, ns, done) && Since(ns0, ns, done) && NoneBelowDeleted(done + us)
    ensures MadeFrom(ns0, ApplyAll(ns, us), done + us)
    decreases |us|
  {
    hide Since, MadeFrom;
    var all := done + us;
    if us == [] {
      assert all == done;
    } else {
      var u := us[0];
      assert all[|done|] == u;
      assert forall i :: 0 <= i < |done| ==> all[i] == done[i];
      assert !GoneBy(done, u.path);
      WayIsThere(ns0, ns, done, u.path);
      ApplyMakes(ns0, ns, done, u);
      ApplyKeeps(ns0, ns, done, u);
      assert done + [u] + us[1..] == all;
      ApplyAllMakes(ns0, Apply(ns, u), done + [u], us[1..]);
    }
  }

  lemma WayIsThere(ns0: Nodes, ns: Nodes, done: seq<Update>, p: Path)
    requires Since(ns0, ns, done) && !GoneBy(done, p)
    ensures forall q :: q in ns0 && Below(p, q) ==> q in ns
  {
    forall q | q in ns0 && Below(p, q) ensures q in ns {
      if GoneBy(done, q) { GoneThrough(done, q, p); }
    }
  }

  /** What the update makes: everything hears what the nearest node above it that was there
      hears. */
  lemma UpdatesMake(ns: Nodes, us: seq<Update>)
    requires [] in ns && NoneBelowDeleted(us)
    ensures MadeFrom(ns, ApplyAll(ns, us), us)
  {
    assert [] + us == us;
    ApplyAllMakes(ns, ns, [], us);
  }

  lemma {:induction false} GrowKind(ns: Nodes, p: Path, kind: Kind, q: Path)
    requires [] in ns && q in Grow(ns, p, kind) && q !in ns
    ensures Grow(ns, p, kind)[q].kind == if q == p then kind else Block
    decreases |p|
  {
    if p !in ns && q != p { GrowKind(ns, Parent(p), Block, q); }
  }

  /** Of what was there the kind stays, and it goes exactly if it is a block to be deleted. */
  lemma StayedAs(ns: Nodes, us: seq<Update>, k: nat)
    requires [] in ns && Separate(us) && NoneBelowDeleted(us) && k < |us| && us[k].path != [] && us[k].path in ns
    ensures us[k].path in ApplyAll(ns, us) <==> us[k].status != Deleted || ns[us[k].path].kind != Block
    ensures us[k].path in ApplyAll(ns, us) ==> ApplyAll(ns, us)[us[k].path].kind == ns[us[k].path].kind
  {
    Lands(ns, us, k);
    UpdatesKeep(ns, us);
  }

  /** What was missing is made as FirstKind says, and remains exactly if it is no block to be
      deleted. */
  lemma {:induction false} MadeAs(ns: Nodes, us: seq<Update>, k: nat)
    requires Rooted(ns) && Separate(us) && NoneBelowDeleted(us) && k < |us| && us[k].path != [] && us[k].path !in ns
    ensures us[k].path in ApplyAll(ns, us) <==> us[k].status != Deleted || FirstKind(us, k) != Block
    ensures us[k].path in ApplyAll(ns, us) ==> ApplyAll(ns, us)[us[k].path].kind == FirstKind(us, k)
    decreases |us|
  {
    hide Grow;
    var u, rest, p := us[0], us[1..], us[k].path;
    var ms := Apply(ns, u);
    RestIsSeparate(us);
    if k == 0 {
      MadeAtOnce(ns, u);
      if p in ms {
        UpdatesKeep(ms, rest);
        SeparateCons(us);
        assert !GoneBy(rest, p) by { NotGone(us); }
      } else {
        NothingBelow(us);
        StaysAway(ms, rest, p);
      }
    } else {
      OneIsRooted(ns, u);
      if Below(u.path, p) {
        MadeOnTheWay(ns, u, p);
        assert FirstKind(us, k) == Block;
        StayedAs(ms, rest, k - 1);
      } else {
        NotMade(ns, u, p);
        FirstKindRest(us, k);
        MadeAs(ms, rest, k - 1);
      }
    }
  }

  lemma RestIsSeparate(us: seq<Update>)
    requires Separate(us) && NoneBelowDeleted(us) && us != []
    ensures Separate(us[1..]) && NoneBelowDeleted(us[1..]) && forall i :: 0 <= i < |us[1..]| ==> us[1..][i] == us[i + 1]
  {
  }

  lemma NotGone(us: seq<Update>)
    requires NoneBelowDeleted(us) && us != []
    ensures !GoneBy(us[1..], us[0].path)
  {
    assert forall i :: 0 <= i < |us[1..]| ==> us[1..][i] == us[i + 1];
  }

  lemma NothingBelow(us: seq<Update>)
    requires NoneBelowDeleted(us) && us != []
    ensures us[0].status == Deleted ==> forall i :: 0 <= i < |us[1..]| ==> !Below(us[1..][i].path, us[0].path)
  {
    assert forall i :: 0 <= i < |us[1..]| ==> us[1..][i] == us[i + 1];
  }

  lemma MadeAtOnce(ns: Nodes, u: Update)
    requires [] in ns && u.path != [] && u.path !in ns
    ensures u.path in Apply(ns, u) <==> u.status != Deleted || u.kind != Block
    ensures u.path in Apply(ns, u) ==> Apply(ns, u)[u.path].kind == u.kind
  {
    GrowKind(ns, u.path, u.kind, u.path);
    assert Below(u.path, u.path);
  }

  lemma MadeOnTheWay(ns: Nodes, u: Update, p: Path)
    requires Rooted(ns) && p !in ns && p != [] && u.path != p && Below(u.path, p)
    ensures p in Apply(ns, u) && Apply(ns, u)[p].kind == Block
  {
    GrowsPrefixes(ns, u.path, u.kind, |p|);
    GrowKind(ns, u.path, u.kind, p);
    assert u.path[..|u.path|] == u.path;
  }

  lemma NotMade(ns: Nodes, u: Update, p: Path)
    requires [] in ns && p !in ns && !Below(u.path, p)
    ensures p !in Apply(ns, u)
  {
    if u.path != [] && p in Grow(ns, u.path, u.kind) { GrowOnly(ns, u.path, u.kind, p); }
  }

  lemma FirstKindRest(us: seq<Update>, k: nat)
    requires 0 < k < |us| && !Below(us[0].path, us[k].path)
    ensures FirstKind(us[1..], k - 1) == FirstKind(us, k)
  {
    var rest := us[1..];
    assert forall i :: 0 <= i < |rest| ==> rest[i] == us[i + 1];
    if i :| 0 <= i < k && Below(us[i].path, us[k].path) { assert Below(rest[i - 1].path, rest[k - 1].path); }
  }

  /** Every listed change is told once, to the handler it concerns, over both passes, with the
      node in the state and with the value that are listed; nothing else is told. */
  lemma ToldOnce(ns: Nodes, us: seq<Update>, s: Seen)
    requires Rooted(ns) && Quiet(ns) && Separate(us) && NoneBelowDeleted(us)
    ensures multiset(Told(ns, us))[s] == if Due(ns, us, s) then 1 else 0
  {
    hide Sights, Separate, NoneBelowDeleted, Quiet, Pass, Inherited, Due;
    var ms, p := Updated(ns, us), s.call.path;
    SightsAre(ns, us, s);
    SightsAre(ms, us, s);
    HeardThen(ns, us, p);
    assert multiset(Told(ns, us))[s] == multiset(Sights(ns, us))[s] + multiset(Sights(ms, us))[s];
    DueWhen(ns, us, s);
  }

  /** In which pass something is due. */
  lemma DueWhen(ns: Nodes, us: seq<Update>, s: Seen)
    requires Rooted(ns) && Quiet(ns) && Separate(us) && NoneBelowDeleted(us)
    ensures var p, ms := s.call.path, Updated(ns, us);
            Due(ns, us, s) <==>
              && p != []
              && if p in ns then ns[p].handler == Some(s.call.handler) && ShownIn(ns, us, s)
                 else p in ms && ms[p].handler == Some(s.call.handler) && ShownIn(ms, us, s)
  {
    hide Separate, NoneBelowDeleted, Quiet, Pass;
    var p, ms := s.call.path, Updated(ns, us);
    PassKeepsHandlers(ns, us, p);
    UpdatesMake(Pass(ns, us), us);
    PassRooted(ns, us);
    forall k | 0 <= k < |us| && us[k].path == p && p !in ns && p != []
      ensures p in ms <==> Remains(ns, us, k)
      ensures p in ms ==> ms[p].kind == KindFor(ns, us, k)
    {
      MadeAs(Pass(ns, us), us, k);
    }
  }

  /** s shows an entry, with the kind of node that is there. */
  predicate ShownIn(ns: Nodes, us: seq<Update>, s: Seen)
    requires s.call.path in ns
  {
    exists k :: 0 <= k < |us| && Shows(us[k], ns[s.call.path].kind, s)
  }

  lemma {:induction false} PassKeepsHandlers(ns: Nodes, us: seq<Update>, p: Path)
    requires [] in ns
    ensures [] in Pass(ns, us) && Inherited(Pass(ns, us), p) == Inherited(ns, p) && (p in Pass(ns, us) <==> p in ns)
    decreases |p|
  {
    assert Pass(ns, us).Keys == ns.Keys;
    if p in ns { PassAt(ns, us, p); } else { PassKeepsHandlers(ns, us, Parent(p)); }
  }

  /** Of what was there, what the first pass told about is marked; the rest was not heard. */
  lemma HeardThen(ns: Nodes, us: seq<Update>, p: Path)
    requires [] in ns && Quiet(ns) && Separate(us) && NoneBelowDeleted(us)
    ensures var ms := Updated(ns, us);
            && (p in ns && p in ms ==> ms[p].kind == ns[p].kind && ms[p].handler == ns[p].handler)
            && (p in ns ==> Inherited(ns, p) == ns[p].handler)
            && (p in ns ==> !ns[p].told)
            && (p in ns && p in ms && Lists(us, p) && p != [] && ns[p].handler.Some? ==> ms[p].told)
            && (p !in ns && p in ms ==> !ms[p].told)
  {
    UpdatesKeep(Pass(ns, us), us);
    if p in ns { PassAt(ns, us, p); }
    assert p in Pass(ns, us) <==> p in ns;
  }

  /** What one pass tells, against the list. */
  lemma SightsAre(ns: Nodes, us: seq<Update>, s: Seen)
    requires Separate(us)
    ensures multiset(Sights(ns, us))[s] ==
            if Hears(ns, us, s.call) && ShownIn(ns, us, s) then 1 else 0
  {
    CallsAre(ns, us, s.call);
    SeenAre(TouchAll(ns, us), Calls(ns, us), s);
    if Hears(ns, us, s.call) {
      var k :| 0 <= k < |us| && us[k].path == s.call.path;
      TouchedAt(ns, us, k);
      TouchKeeps(ns, us, s.call.path);
      assert s == See(TouchAll(ns, us), s.call) <==> Shows(us[k], ns[s.call.path].kind, s);
    }
  }

  lemma {:induction false} TouchedAt(ns: Nodes, us: seq<Update>, k: nat)
    requires Separate(us) && k < |us| && us[k].path in ns
    ensures var n, m := ns[us[k].path], TouchAll(ns, us)[us[k].path];
            if !Heard(ns, us[k].path) then m == n
            else m.status == us[k].status && m.value == if us[k].status == Deleted && n.kind == Item then "" else us[k].value
    decreases |us|
  {
    var ms := Touch(ns, us[0]);
    if k == 0 {
      SeparateCons(us);
      TouchKeeps(ms, us[1..], us[0].path);
    } else {
      assert us[1..][k - 1] == us[k];
      TouchedAt(ms, us[1..], k - 1);
    }
  }

  /** A second pass leaves what the update put there. */
  lemma PassLands(ns0: Nodes, ns: Nodes, us: seq<Update>, k: nat)
    requires Separate(us) && k < |us| && Landed(ns0, ns, us[k])
    ensures Landed(ns0, Pass(ns, us), us[k])
  {
    var p := us[k].path;
    if p in ns {
      PassAt(ns, us, p);
      TouchedAt(ns, us, k);
      TouchKeeps(ns, us, p);
      FlipKeeps(TouchAll(ns, us), Calls(ns, us), p);
    }
  }

  /** Afterwards every listed node is settled: blocks that were to go are gone, items have
      their new values, and no flag is left. */
  lemma ListedSettled(ns: Nodes, us: seq<Update>, k: nat)
    requires [] in ns && Separate(us) && NoneBelowDeleted(us) && k < |us| && us[k].path != []
    ensures Landed(ns, Done(ns, us), us[k])
    ensures var p := us[k].path; var ms := Done(ns, us);
            p in ms ==> !ms[p].told && !ms[p].isNew && ms[p].status == Ready
  {
    var p, ms := us[k].path, Updated(ns, us);
    Lands(Pass(ns, us), us, k);
    if p in ns { PassAt(ns, us, p); }
    PassLands(ns, ms, us, k);
    if p in ms { SettleAt(Pass(ms, us), us, p); }
  }

  /** What is listed is there in the end unless it is a block that was to go, as the kind of node
      that was there or that its path needed when it was made. */
  lemma ListedThere(ns: Nodes, us: seq<Update>, k: nat)
    requires Rooted(ns) && Separate(us) && NoneBelowDeleted(us) && k < |us| && us[k].path != []
    ensures us[k].path in Done(ns, us) <==> Remains(ns, us, k)
    ensures us[k].path in Done(ns, us) ==> Done(ns, us)[us[k].path].kind == KindFor(ns, us, k)
  {
    hide Pass, Separate, NoneBelowDeleted;
    var p, ms := us[k].path, Updated(ns, us);
    PassRooted(ns, us);
    PassKeepsHandlers(ns, us, p);
    if p in ns {
      PassAt(ns, us, p);
      StayedAs(Pass(ns, us), us, k);
    } else {
      MadeAs(Pass(ns, us), us, k);
    }
    assert Done(ns, us).Keys == Pass(ms, us).Keys == ms.Keys by { PassKeys(ms, us); }
    if p in ms {
      PassAt(ms, us, p);
      SettleAt(Pass(ms, us), us, p);
    }
  }

  lemma PassKeys(ns: Nodes, us: seq<Update>)
    ensures Pass(ns, us).Keys == ns.Keys
  {
  }

  /** What was missing hears in the end what the nearest node above it that was there hears; what
      was made on the way to something listed is an empty new block. */
  lemma MadeInTheEnd(ns: Nodes, us: seq<Update>, p: Path)
    requires Rooted(ns) && NoneBelowDeleted(us) && p in Done(ns, us) && p !in ns
    ensures Done(ns, us)[p].handler == Inherited(ns, p)
    ensures !Lists(us, p) ==> Done(ns, us)[p] == Node(Block, "", Ready, Inherited(ns, p), true, false)
  {
    hide Pass, NoneBelowDeleted;
    var ms := Updated(ns, us);
    PassKeepsHandlers(ns, us, p);
    UpdatesMake(Pass(ns, us), us);
    assert Done(ns, us).Keys == Pass(ms, us).Keys == ms.Keys by { PassKeys(ms, us); }
    PassAt(ms, us, p);
    SettleAt(Pass(ms, us), us, p);
  }

  /** Whatever is neither listed nor below something deleted is as it was. */
  lemma UnlistedKept(ns: Nodes, us: seq<Update>, p: Path)
    requires [] in ns && NoneBelowDeleted(us)
    requires p in ns && p != [] && !Lists(us, p) && !GoneBy(us, p)
    ensures p in Done(ns, us) && Done(ns, us)[p] == ns[p]
  {
    PassAt(ns, us, p);
    UpdatesKeep(Pass(ns, us), us);
    var ms := Updated(ns, us);
    PassAt(ms, us, p);
    SettleAt(Pass(ms, us), us, p);
  }

  // ---------------------------------------------------------------- rooted trees

  lemma {:induction false} GrowRooted(ns: Nodes, p: Path, kind: Kind)
    requires Rooted(ns)
    ensures Rooted(Grow(ns, p, kind))
    decreases |p|
  {
    if p !in ns { GrowRooted(ns, Parent(p), Block); }
  }

  lemma WithoutRooted(ns: Nodes, p: Path)
    requires Rooted(ns) && p != []
    ensures Rooted(Without(ns, p))
  {
    forall q | q in Without(ns, p) && q != [] ensures Parent(q) in Without(ns, p) {
      BelowParent(q, p);
    }
  }

  lemma BelowParent(q: Path, p: Path)
    requires q != [] && !Below(q, p)
    ensures !Below(Parent(q), p)
  {
    if |p| <= |Parent(q)| { assert q[..|p|] == Parent(q)[..|p|]; }
  }

  lemma RootedKeys(ns: Nodes, ms: Nodes)
    requires Rooted(ns) && ms.Keys == ns.Keys
    ensures Rooted(ms)
  {
  }

  lemma {:induction false} PrefixesThere(ns: Nodes, p: Path, k: nat)
    requires Rooted(ns) && p in ns && k <= |p|
    ensures p[..k] in ns
    decreases |p|
  {
    if k < |p| {
      PrefixesThere(ns, Parent(p), k);
      assert Parent(p)[..k] == p[..k];
    } else {
      assert p[..k] == p;
    }
  }

  lemma PassRooted(ns: Nodes, us: seq<Update>)
    requires Rooted(ns)
    ensures Rooted(Pass(ns, us))
  {
    RootedKeys(ns, TouchAll(ns, us));
    RootedKeys(TouchAll(ns, us), Pass(ns, us));
  }

  // ---------------------------------------------------------------- flags that are left

  lemma {:induction false} GrowsPrefixes(ns: Nodes, p: Path, kind: Kind, k: nat)
    requires Rooted(ns) && k <= |p|
    ensures p[..k] in Grow(ns, p, kind)
  {
    GrowRooted(ns, p, kind);
    PrefixesThere(Grow(ns, p, kind), p, k);
  }

  lemma {:induction false} AppliedIsRooted(ns: Nodes, us: seq<Update>)
    requires Rooted(ns)
    ensures Rooted(ApplyAll(ns, us))
    decreases |us|
  {
    if us != [] {
      OneIsRooted(ns, us[0]);
      AppliedIsRooted(Apply(ns, us[0]), us[1..]);
    }
  }

  lemma OneIsRooted(ns: Nodes, u: Update)
    requires Rooted(ns)
    ensures Rooted(Apply(ns, u))
  {
    GrowRooted(ns, u.path, u.kind);
    var ms := Grow(ns, u.path, u.kind);
    if u.path != [] {
      WithoutRooted(ms, u.path);
      RootedKeys(ms, ms[u.path := ms[u.path].(value := if u.status == Deleted then "" else u.value)]);
    }
  }

  /** What leads to something listed, and is not listed itself, comes to be and stays. */
  lemma {:induction false} PrefixStays(ns: Nodes, us: seq<Update>, i: nat, k: nat)
    requires Rooted(ns) && NoneBelowDeleted(us) && i < |us| && k < |us[i].path|
    ensures us[i].path[..k] in ApplyAll(ns, us)
    decreases |us|
  {
    var u, rest, q := us[0], us[1..], us[i].path[..k];
    OneIsRooted(ns, u);
    assert forall j :: 0 <= j < |rest| ==> rest[j] == us[j + 1];
    if i > 0 {
      PrefixStays(Apply(ns, u), rest, i - 1, k);
    } else {
      GrowsPrefixes(ns, u.path, u.kind, k);
      assert !Below(q, u.path);
      assert q in Apply(ns, u);
      StaysThere(Apply(ns, u), rest, u.path, k);
    }
  }

  lemma {:induction false} StaysThere(ns: Nodes, us: seq<Update>, p: Path, k: nat)
    requires [] in ns && k <= |p| && p[..k] in ns
    requires forall i :: 0 <= i < |us| && us[i].status == Deleted ==> !Below(p, us[i].path)
    ensures p[..k] in ApplyAll(ns, us)
    decreases |us|
  {
    if us != [] {
      if p[..k] !in Apply(ns, us[0]) {
        GoneAtOnce(ns, us[0], p[..k]);
        BelowThrough(p, p[..k], us[0].path);
      }
      assert forall i :: 0 <= i < |us[1..]| ==> us[1..][i] == us[i + 1];
      StaysThere(Apply(ns, us[0]), us[1..], p, k);
    }
  }

  /** The flags of every node afterwards: those of what was listed are reset, of what was made
      on the way it stays marked as new, and all else is as it was. */
  lemma FlagsAfter(ns: Nodes, us: seq<Update>, p: Path)
    requires [] in ns && Quiet(ns) && Separate(us) && NoneBelowDeleted(us) && p in Done(ns, us)
    ensures !Done(ns, us)[p].told
    ensures p != [] ==> (Done(ns, us)[p].isNew <==> !Lists(us, p) && (p in ns ==> ns[p].isNew))
  {
    var first, ms := Pass(ns, us), Updated(ns, us);
    UpdatesKeep(first, us);
    if p in ns { PassAt(ns, us, p); }
    assert p in first <==> p in ns;
    PassAt(ms, us, p);
    if p != [] { SettleAt(Pass(ms, us), us, p); } else { RootUnsettled(Pass(ms, us), us); }
  }

  lemma {:induction false} RootUnsettled(ns: Nodes, us: seq<Update>)
    requires [] in ns
    ensures SettleAll(ns, us)[[]] == ns[[]]
    decreases |us|
  {
    if us != [] { RootUnsettled(Settle(ns, us[0]), us[1..]); }
  }

  /** What is missing on the way to something listed is itself listed. */
  predicate WaysListed(ns: Nodes, us: seq<Update>) {
    forall i, k :: 0 <= i < |us| && 0 <= k < |us[i].path| && us[i].path[..k] !in ns ==> Lists(us, us[i].path[..k])
  }

  /** No node that the update made stays marked as new exactly if every block missing on the
      way to a listed path is listed too. */
  lemma NoneLeftNew(ns: Nodes, us: seq<Update>)
    requires Rooted(ns) && Quiet(ns) && Separate(us) && NoneBelowDeleted(us)
    ensures (forall p :: p in Done(ns, us) && p !in ns ==> !Done(ns, us)[p].isNew) <==> WaysListed(ns, us)
  {
    hide Done, Quiet, Separate;
    if WaysListed(ns, us) {
      forall p | p in Done(ns, us) && p !in ns ensures !Done(ns, us)[p].isNew {
        var i := MadeFor(ns, us, p);
        assert us[i].path[..|p|] == p;
        if |p| == |us[i].path| { assert p == us[i].path; }
        FlagsAfter(ns, us, p);
      }
    }
    if i, k :| 0 <= i < |us| && 0 <= k < |us[i].path| && us[i].path[..k] !in ns && !Lists(us, us[i].path[..k]) {
      LeftNew(ns, us, i, k);
    }
  }

  lemma MadeFor(ns: Nodes, us: seq<Update>, p: Path) returns (i: nat)
    requires [] in ns && p in Done(ns, us) && p !in ns
    ensures i < |us| && Below(us[i].path, p)
  {
    if forall j :: 0 <= j < |us| ==> !Below(us[j].path, p) {
      StaysAway(Pass(ns, us), us, p);
      assert false;
    }
    i :| 0 <= i < |us| && Below(us[i].path, p);
  }

  lemma LeftNew(ns: Nodes, us: seq<Update>, i: nat, k: nat)
    requires Rooted(ns) && Quiet(ns) && Separate(us) && NoneBelowDeleted(us)
    requires i < |us| && k < |us[i].path| && us[i].path[..k] !in ns && !Lists(us, us[i].path[..k])
    ensures var p := us[i].path[..k]; p in Done(ns, us) && p !in ns && Done(ns, us)[p].isNew
  {
    var p := us[i].path[..k];
    PassRooted(ns, us);
    PrefixStays(Pass(ns, us), us, i, k);
    assert p in Pass(Updated(ns, us), us);
    FlagsAfter(ns, us, p);
  }

  /** So another update can be told as well. */
  lemma ReadyAgain(ns: Nodes, us: seq<Update>)
    requires Rooted(ns) && Quiet(ns) && Separate(us) && NoneBelowDeleted(us)
    ensures Quiet(Done(ns, us)) && Rooted(Done(ns, us))
  {
    forall p | p in Done(ns, us) ensures !Done(ns, us)[p].told { FlagsAfter(ns, us, p); }
    PassRooted(ns, us);
    AppliedIsRooted(Pass(ns, us), us);
    PassRooted(Updated(ns, us), us);
    RootedKeys(Pass(Updated(ns, us), us), Done(ns, us));
  }

  /** An item in a block that is not there and not listed: the block stays marked as new. */
  lemma BlockLeftNew(root: Node, block: string, item: string, v: string)
    requires !root.told
    ensures var us := [Update([block, item], v, Item, Modified)];
            [block] in Done(map[[] := root], us) && Done(map[[] := root], us)[[block]].isNew
  {
    var ns: Nodes, us := map[[] := root], [Update([block, item], v, Item, Modified)];
    assert [block, item][..1] == [block];
    LeftNew(ns, us, 0, 1);
  }
}
