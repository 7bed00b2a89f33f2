/** What is in force, by name. Where siblings have different names this forgets nothing but
    their order. */
module ConfigByName {
  import opened ConfigTree
  import opened ConfigMerge

  datatype Entry = Entry(typ: string, kind: Kind, value: string, below: map<string, Entry>)

  function ByName(vs: seq<View>): map<string, Entry> {
    if vs == [] then map[] else ByName(vs[1..])[vs[0].name := EntryOf(vs[0])]
  }

  function EntryOf(v: View): Entry {
    Entry(v.typ, v.kind, v.value, ByName(v.children))
  }

  function InForceByName(ts: seq<Tree>): map<string, Entry> {
    ByName(Committed(ts))
  }

  /** Siblings have different names; templates do not count. */
  predicate Unique(ts: seq<Tree>) {
    && (forall i, j :: 0 <= i < j < |ts| && !ts[i].isTemplate && !ts[j].isTemplate ==> ts[i].name != ts[j].name)
    && (forall i :: 0 <= i < |ts| ==> Unique(ts[i].children))
  }

  /** The child of that name, templates aside. */
  function Find(ts: seq<Tree>, name: string): (k: nat)
    ensures k <= |ts| && (k < |ts| ==> !ts[k].isTemplate && ts[k].name == name)
    ensures forall i :: 0 <= i < k ==> ts[i].isTemplate || ts[i].name != name
  {
    if ts == [] || (!ts[0].isTemplate && ts[0].name == name) then 0 else 1 + Find(ts[1..], name)
  }

  lemma FindIs(ts: seq<Tree>, k: nat, name: string)
    requires Unique(ts) && k < |ts| && !ts[k].isTemplate && ts[k].name == name
    ensures Find(ts, name) == k
  {
  }

  lemma UniqueRest(ts: seq<Tree>)
    requires Unique(ts) && ts != []
    ensures Unique(ts[1..])
  {
  }

  /** A name is there exactly if the child of that name is in force. */
  lemma {:induction false} ByNameAt(ts: seq<Tree>, name: string)
    requires Unique(ts)
    ensures var k, m := Find(ts, name), InForceByName(ts);
            if k < |ts| && InForce(ts[k]) then name in m && m[name] == EntryOf(CommittedNode(ts[k])) else name !in m
  {
    hide CommittedNode, Unique;
    if ts != [] {
      var t, rest := ts[0], ts[1..];
      UniqueRest(ts);
      ByNameAt(rest, name);
      ByNameCons(ts);
      if !t.isTemplate && t.name == name && Find(rest, name) < |rest| {
        FindIs(ts, 1 + Find(rest, name), name);
      }
    }
  }

  lemma ByNameCons(ts: seq<Tree>)
    requires ts != []
    ensures InForceByName(ts) ==
            if InForce(ts[0]) then InForceByName(ts[1..])[ts[0].name := EntryOf(CommittedNode(ts[0]))]
            else InForceByName(ts[1..])
  {
    hide CommittedNode, InForce;
    CommittedCons(ts);
    if InForce(ts[0]) {
      var v := CommittedNode(ts[0]);
      CommittedNodeName(ts[0]);
      assert Committed(ts)[0] == v && Committed(ts)[1..] == Committed(ts[1..]);
    } else {
      assert Committed(ts) == Committed(ts[1..]);
    }
  }

  lemma CommittedNodeName(t: Tree)
    ensures CommittedNode(t).name == t.name
  {
  }

  // ---------------------------------------------------------------- changing a tree

  function Lookup(ts: seq<Tree>, name: string): Option<Entry> {
    var k := Find(ts, name);
    if k < |ts| && InForce(ts[k]) then Some(EntryOf(CommittedNode(ts[k]))) else None
  }

  lemma SameByName(ts: seq<Tree>, us: seq<Tree>)
    requires Unique(ts) && Unique(us) && forall n :: Lookup(ts, n) == Lookup(us, n)
    ensures InForceByName(ts) == InForceByName(us)
  {
    hide Unique, CommittedNode, InForce, InForceByName;
    var a, b := InForceByName(ts), InForceByName(us);
    forall n: string ensures n in a <==> n in b
    {
      ByNameAt(ts, n);
      ByNameAt(us, n);
      assert Lookup(ts, n) == Lookup(us, n);
    }
    forall n | n in a ensures a[n] == b[n]
    {
      ByNameAt(ts, n);
      ByNameAt(us, n);
      assert Lookup(ts, n) == Lookup(us, n);
    }
    assert a.Keys == b.Keys;
  }

  lemma EntryIs(t: Tree)
    ensures EntryOf(CommittedNode(t)) == Entry(t.typ, t.kind, if t.kind == Item then t.value else "", InForceByName(t.children))
  {
  }

  lemma {:induction false} FindReplaced(ts: seq<Tree>, i: nat, d: Tree, name: string)
    requires i < |ts| && d.name == ts[i].name && d.isTemplate == ts[i].isTemplate
    ensures Find(ts[i := d], name) == Find(ts, name)
  {
    var us := ts[i := d];
    var j, k := Find(ts, name), Find(us, name);
    assert forall n :: 0 <= n < |ts| ==> us[n].name == ts[n].name && us[n].isTemplate == ts[n].isTemplate;
  }

  lemma UniqueReplaced(ts: seq<Tree>, i: nat, d: Tree)
    requires Unique(ts) && Unique(d.children) && i < |ts| && d.name == ts[i].name && d.isTemplate == ts[i].isTemplate
    ensures Unique(ts[i := d])
  {
  }

  /** A child in force takes another's place. */
  lemma ReplacedByName(ts: seq<Tree>, i: nat, d: Tree)
    requires Unique(ts) && Unique(d.children) && i < |ts|
    requires !ts[i].isTemplate && InForce(d) && d.name == ts[i].name
    ensures InForceByName(ts[i := d]) == InForceByName(ts)[d.name := EntryOf(CommittedNode(d))]
  {
    hide Unique, CommittedNode, InForceByName;
    var us := ts[i := d];
    UniqueReplaced(ts, i, d);
    FindIs(ts, i, d.name);
    var a, b := InForceByName(ts)[d.name := EntryOf(CommittedNode(d))], InForceByName(us);
    forall n: string ensures (n in a <==> n in b) && (n in a ==> a[n] == b[n])
    {
      ByNameAt(ts, n);
      ByNameAt(us, n);
      FindReplaced(ts, i, d, n);
    }
    assert a.Keys == b.Keys;
  }

  // ---------------------------------------------------------------- the order of siblings

  lemma TwiceThere(ts: seq<Tree>, i: nat, j: nat)
    requires i < j < |ts| && ts[i] == ts[j]
    ensures multiset(ts)[ts[i]] >= 2
  {
    assert ts == ts[..j] + ts[j..];
    assert ts[..j][i] == ts[i] && ts[j..][0] == ts[i];
    assert multiset(ts[..j])[ts[i]] >= 1 && multiset(ts[j..])[ts[i]] >= 1;
  }

  lemma OnceThere(ts: seq<Tree>, a: nat)
    requires a < |ts| && forall b :: 0 <= b < |ts| && b != a ==> ts[b] != ts[a]
    ensures multiset(ts)[ts[a]] == 1
  {
    var x := ts[a];
    assert ts == ts[..a] + [x] + ts[a + 1..];
    assert x !in ts[..a] && x !in ts[a + 1..];
    assert multiset(ts[..a])[x] == 0 && multiset(ts[a + 1..])[x] == 0;
    assert multiset([x])[x] == 1;
  }

  lemma SameName(ts: seq<Tree>, us: seq<Tree>, i: nat, j: nat)
    requires Unique(ts) && multiset(us) == multiset(ts) && i < j < |us|
    requires !us[i].isTemplate && !us[j].isTemplate
    ensures us[i].name != us[j].name
  {
    if us[i].name == us[j].name {
      var a := Arranged(us, ts, i);
      var b := Arranged(us, ts, j);
      assert a == b;
      TwiceThere(us, i, j);
      OnceThere(ts, a);
      assert false;
    }
  }

  /** Reordering siblings keeps their names apart. */
  lemma UniquePermuted(ts: seq<Tree>, us: seq<Tree>)
    requires Unique(ts) && multiset(us) == multiset(ts)
    ensures Unique(us)
  {
    forall i, j | 0 <= i < j < |us| && !us[i].isTemplate && !us[j].isTemplate
      ensures us[i].name != us[j].name
    {
      SameName(ts, us, i, j);
    }
    forall i | 0 <= i < |us| ensures Unique(us[i].children)
    {
      var a := Arranged(us, ts, i);
    }
  }

  lemma FindPermuted(ts: seq<Tree>, us: seq<Tree>, name: string)
    requires Unique(ts) && Unique(us) && multiset(us) == multiset(ts)
    ensures var k, j := Find(us, name), Find(ts, name);
            (k < |us| <==> j < |ts|) && (k < |us| ==> us[k] == ts[j])
  {
    hide Unique;
    var k, j := Find(us, name), Find(ts, name);
    if k < |us| {
      var a := Arranged(us, ts, k);
      FindIs(ts, a, name);
    }
    if j < |ts| {
      var b := Arranged(ts, us, j);
      FindIs(us, b, name);
    }
  }

  lemma PlacedIsPermuted(ts: seq<Tree>, d: Tree, r: Rules)
    requires ts != []
    ensures multiset(Placed(ts, d, r)) == multiset(ts + [d])
  {
    var more := Behind(ts, d);
    assert ts + [d] == [ts[0]] + more;
    assert multiset(Placed(ts, d, r)) == multiset([ts[0]]) + multiset(more);
  }

  lemma UniqueMore(ts: seq<Tree>, d: Tree)
    requires Unique(ts) && Unique(d.children) && Find(ts, d.name) == |ts|
    ensures Unique(ts + [d])
  {
  }

  lemma FindMore(ts: seq<Tree>, d: Tree, name: string)
    requires !d.isTemplate && Find(ts, d.name) == |ts|
    ensures var us := ts + [d]; var k, j := Find(us, name), Find(ts, name);
            if name == d.name then k == |ts| else if j < |ts| then k == j else k == |us|
  {
    var us := ts + [d];
    var k, j := Find(us, name), Find(ts, name);
    assert forall i :: 0 <= i < |ts| ==> us[i] == ts[i];
    assert us[|ts|] == d;
  }

  /** A new block joins those behind a template. */
  lemma FindPlaced(ts: seq<Tree>, d: Tree, r: Rules, name: string)
    requires Unique(ts) && Unique(d.children) && ts != [] && !d.isTemplate && Find(ts, d.name) == |ts|
    ensures Unique(Placed(ts, d, r))
    ensures var us := Placed(ts, d, r); var k, j := Find(us, name), Find(ts, name);
            if name == d.name then k < |us| && us[k] == d
            else (k < |us| <==> j < |ts|) && (k < |us| ==> us[k] == ts[j])
  {
    hide Unique, Placed;
    var us := Placed(ts, d, r);
    UniqueMore(ts, d);
    PlacedIsPermuted(ts, d, r);
    UniquePermuted(ts + [d], us);
    FindPermuted(ts + [d], us, name);
    FindMore(ts, d, name);
  }
}
