/** The order ConfigItemSort asks for, and where sort leaves it. */
module ConfigOrder {
  import opened ConfigTree
  import opened ConfigMerge
  import opened ConfigByName
  import opened ConfigHidden
  import opened ConfigSort

  // ---------------------------------------------------------------- the comparator

  /** strcmp(a, b) < 0 */
  predicate Before(a: string, b: string) {
    b != "" && (a == "" || a[0] < b[0] || (a[0] == b[0] && Before(a[1..], b[1..])))
  }

  predicate IsBlank(c: char) {
    c == ' ' || '\t' <= c <= '\r'
  }

  predicate IsDigit(c: char) {
    '0' <= c <= '9'
  }

  /** The number that the leading digits continue. */
  function Number(s: string, n: nat): nat {
    if s != "" && IsDigit(s[0]) then Number(s[1..], 10 * n + (s[0] as int - '0' as int)) else n
  }

  function Atoi(s: string): int {
    if s == "" then 0
    else if IsBlank(s[0]) then Atoi(s[1..])
    else if s[0] == '-' then 0 - Number(s[1..], 0)
    else if s[0] == '+' then Number(s[1..], 0)
    else Number(s, 0)
  }

  /** The number of the sort node in a block, if there is such a node. */
  function Key(t: Tree): Option<int> {
    if t.sortNode.None? then None
    else
      var k := Find(t.children, t.sortNode.value);
      if k == |t.children| then None else Some(Atoi(t.children[k].value))
  }

  predicate Less(a: Tree, b: Tree) {
    if Key(a).None? || Key(b).None? then Before(a.name, b.name) else Key(a).value < Key(b).value
  }

  predicate Ordered(ts: seq<Tree>) {
    forall i, j :: 0 <= i < j < |ts| ==> !Less(ts[j], ts[i])
  }

  /** Numbers are compared with numbers, or names with names. */
  predicate Comparable(ts: seq<Tree>) {
    AllKeyed(ts, true) || AllKeyed(ts, false)
  }

  predicate AllKeyed(ts: seq<Tree>, keyed: bool) {
    forall i :: 0 <= i < |ts| ==> Key(ts[i]).Some? == keyed
  }

  // ---------------------------------------------------------------- numbers and names

  function Decimal(n: nat): string {
    (if n < 10 then "" else Decimal(n / 10)) + [('0' as int + n % 10) as char]
  }

  lemma {:induction false} NumberOf(a: string, d: char, n: nat)
    requires IsDigit(d) && forall i :: 0 <= i < |a| ==> IsDigit(a[i])
    ensures Number(a + [d], n) == 10 * Number(a, n) + (d as int - '0' as int)
  {
    if a == "" {
      assert (a + [d])[1..] == "";
    } else {
      assert (a + [d])[0] == a[0] && (a + [d])[1..] == a[1..] + [d];
      NumberOf(a[1..], d, 10 * n + (a[0] as int - '0' as int));
    }
  }

  /** The digits of a number, with or without a sign, read as the number. */
  lemma {:induction false} AtoiReads(n: nat)
    ensures Atoi(Decimal(n)) == n && Atoi("-" + Decimal(n)) == 0 - n
    ensures Decimal(n) != "" && forall i :: 0 <= i < |Decimal(n)| ==> IsDigit(Decimal(n)[i])
    ensures Number(Decimal(n), 0) == n
  {
    var a, d := if n < 10 then "" else Decimal(n / 10), ('0' as int + n % 10) as char;
    if n >= 10 { AtoiReads(n / 10); }
    NumberOf(a, d, 0);
    assert Decimal(n) == a + [d];
    assert ("-" + Decimal(n))[1..] == Decimal(n);
    hide Number;
    assert !IsBlank(Decimal(n)[0]);
  }

  /** strcmp orders names. */
  lemma {:induction false} BeforeOrders(a: string, b: string, c: string)
    ensures !Before(a, a) && !(Before(a, b) && Before(b, a))
    ensures !Before(a, b) && !Before(b, a) ==> a == b
    ensures !Before(b, a) && !Before(c, b) ==> !Before(c, a)
    decreases |a| + |b| + |c|
  {
    if a != "" && b != "" {
      BeforeOrders(a[1..], b[1..], if c == "" then "" else c[1..]);
      if a[0] == b[0] && a[1..] == b[1..] { assert a == [a[0]] + a[1..] && b == [b[0]] + b[1..]; }
    } else if a != "" {
      BeforeOrders(a[1..], "", "");
    }
  }

  lemma NotLessThrough(a: Tree, b: Tree, c: Tree)
    requires Key(a).Some? == Key(b).Some? == Key(c).Some? && !Less(b, a) && !Less(c, b)
    ensures !Less(c, a)
  {
    BeforeOrders(a.name, b.name, c.name);
  }

  // ---------------------------------------------------------------- what a sort is to do

  /** f puts what can be compared in order. */
  ghost predicate Orders(f: Arrangement) {
    forall ts :: Comparable(ts) ==> multiset(f(ts)) == multiset(ts) && Ordered(f(ts))
  }

  /** And leaves what is in order as it is. */
  ghost predicate Steady(f: Arrangement) {
    Orders(f) && forall ts :: Comparable(ts) && Ordered(ts) ==> f(ts) == ts
  }

  function Insert(t: Tree, ts: seq<Tree>): seq<Tree> {
    if ts == [] || !Less(ts[0], t) then [t] + ts else [ts[0]] + Insert(t, ts[1..])
  }

  function Insertion(ts: seq<Tree>): seq<Tree> {
    if ts == [] then [] else Insert(ts[0], Insertion(ts[1..]))
  }

  lemma {:induction false} Inserts(t: Tree, ts: seq<Tree>, keyed: bool)
    requires Key(t).Some? == keyed && AllKeyed(ts, keyed) && Ordered(ts)
    ensures multiset(Insert(t, ts)) == multiset([t] + ts) && Ordered(Insert(t, ts))
    decreases |ts|
  {
    hide Less, Key, Ordered, AllKeyed;
    if ts == [] || !Less(ts[0], t) {
      InFront(t, ts, keyed);
    } else {
      var rest := ts[1..];
      assert ts == [ts[0]] + rest;
      RestIs(ts, keyed);
      Inserts(t, rest, keyed);
      FirstLeast(ts[0], t, rest);
      assert multiset([ts[0]] + Insert(t, rest)) == multiset([ts[0]]) + multiset([t] + rest) == multiset([t] + ts);
    }
  }

  lemma InFront(t: Tree, ts: seq<Tree>, keyed: bool)
    requires Key(t).Some? == keyed && AllKeyed(ts, keyed) && Ordered(ts) && (ts != [] ==> !Less(ts[0], t))
    ensures Ordered([t] + ts)
  {
    hide Less, Key;
    forall j | 0 <= j < |ts| ensures !Less(ts[j], t) {
      if j > 0 { NotLessThrough(t, ts[0], ts[j]); }
    }
  }

  lemma RestIs(ts: seq<Tree>, keyed: bool)
    requires AllKeyed(ts, keyed) && Ordered(ts) && ts != []
    ensures AllKeyed(ts[1..], keyed) && Ordered(ts[1..])
  {
    hide Less, Key;
  }

  lemma FirstLeast(a: Tree, t: Tree, rest: seq<Tree>)
    requires Less(a, t) && Ordered([a] + rest) && Ordered(Insert(t, rest)) && multiset(Insert(t, rest)) == multiset([t] + rest)
    ensures Ordered([a] + Insert(t, rest))
  {
    hide Less, Insert;
    var us := Insert(t, rest);
    NotBoth(a, t);
    forall j | 0 <= j < |us| ensures !Less(us[j], a) {
      assert us[j] in multiset(us);
      assert us[j] in [t] + rest;
      if us[j] != t {
        var k :| 0 <= k < |rest| && rest[k] == us[j];
        assert ([a] + rest)[k + 1] == us[j] && ([a] + rest)[0] == a;
      }
    }
  }

  lemma NotBoth(a: Tree, b: Tree)
    requires Less(a, b)
    ensures !Less(b, a)
  {
    BeforeOrders(a.name, b.name, a.name);
  }

  lemma {:induction false} Inserted(ts: seq<Tree>, keyed: bool)
    requires AllKeyed(ts, keyed)
    ensures multiset(Insertion(ts)) == multiset(ts) && Ordered(Insertion(ts))
    ensures Ordered(ts) ==> Insertion(ts) == ts
    decreases |ts|
  {
    hide Less, Key, Insert;
    if ts != [] {
      var t, rest := ts[0], ts[1..];
      assert ts == [t] + rest;
      Inserted(rest, keyed);
      KeyedAlike(rest, Insertion(rest), keyed);
      Inserts(t, Insertion(rest), keyed);
      if Ordered(ts) { StaysInFront(t, rest); }
    }
  }

  lemma StaysInFront(t: Tree, ts: seq<Tree>)
    requires ts != [] ==> !Less(ts[0], t)
    ensures Insert(t, ts) == [t] + ts
  {
  }

  lemma KeyedAlike(ts: seq<Tree>, us: seq<Tree>, keyed: bool)
    requires AllKeyed(ts, keyed) && multiset(us) == multiset(ts)
    ensures AllKeyed(us, keyed)
  {
    hide Key;
    forall i | 0 <= i < |us| ensures Key(us[i]).Some? == keyed {
      assert us[i] in multiset(us);
      assert us[i] in ts;
    }
  }

  /** There are such sorts: insertion is one. */
  lemma InsertionIsSteady()
    ensures Steady(ts => Insertion(ts))
  {
    hide Ordered, Insertion, AllKeyed;
    forall ts | Comparable(ts)
      ensures multiset(Insertion(ts)) == multiset(ts) && Ordered(Insertion(ts)) && (Ordered(ts) ==> Insertion(ts) == ts)
    {
      Inserted(ts, AllKeyed(ts, true));
    }
  }

  // ---------------------------------------------------------------- one level

  /** What std::sort does with a level that can be compared. */
  lemma SortedIsOrdered(ts: seq<Tree>, f: Arrangement)
    requires Orders(f) && Comparable(ts)
    ensures Sorted(ts, f) == f(ts) && Ordered(Sorted(ts, f)) && multiset(Sorted(ts, f)) == multiset(ts)
  {
    hide Comparable, Ordered;
  }

  /** The level that a new block joins, if it is no list, is in order behind the template. */
  lemma PlacedIsOrdered(ts: seq<Tree>, d: Tree, r: Rules)
    requires ts != [] && !d.isEmpty && Orders(r.arrange) && Comparable(Behind(ts, d))
    ensures Placed(ts, d, r)[0] == ts[0] && Ordered(Placed(ts, d, r)[1..])
  {
    hide Comparable, Ordered, Orders;
    SortedIsOrdered(Behind(ts, d), r.arrange);
  }

  /** Wherever blocks are sorted by a node, that node is fixed. */
  predicate KeyedBones(bs: seq<Bone>) {
    && (bs != [] && bs[0].isTemplate && bs[0].sortNode.Some? ==> bs[0].children == [] || !bs[0].children[0].isTemplate)
    && forall i :: 0 <= i < |bs| ==> KeyedBones(bs[i].children)
  }

  predicate Keyed(ts: seq<Tree>) {
    KeyedBones(Skeleton(ts))
  }

  /** The blocks behind the template are sorted. */
  predicate SortsLevel(ts: seq<Tree>) {
    Dynamic(ts) && ts[0].sortNode.Some?
  }

  lemma KeyedInside(ts: seq<Tree>, i: nat)
    requires Sane(ts) && Keyed(ts) && i < |ts|
    ensures Keyed(ts[i].children)
  {
    hide SaneNode;
    var bs := Skeleton(ts);
    if Dynamic(ts) {
      assert bs[0].children == Skeleton(ts[0].children);
      if i > 0 { TargetLevel(ts, i); }
    } else {
      assert bs[i].children == Skeleton(ts[i].children);
    }
  }

  /** So what stands behind a template can be compared. */
  lemma LevelIsKeyed(ts: seq<Tree>) returns (keyed: bool)
    requires Sane(ts) && Keyed(ts) && SortsLevel(ts)
    ensures AllKeyed(ts[1..], keyed)
  {
    hide SaneNode, Skeleton;
    var n := ts[0].sortNode.value;
    var bs := Skeleton(ts[0].children);
    keyed := FindBone(bs, n) < |bs|;
    TemplateIsFixed(ts);
    forall i | 0 <= i < |ts[1..]| ensures Key(ts[1..][i]).Some? == keyed {
      var t := ts[i + 1];
      TargetLevel(ts, i + 1);
      ChildrenAreSane(t);
      FixedAlike(t.children, ts[0].children);
      TargetFound(t.children, n);
    }
  }

  lemma DynamicIs(ts: seq<Tree>)
    ensures Dynamic(ts) <==> Skeleton(ts) != [] && Skeleton(ts)[0].isTemplate
    ensures !Dynamic(ts) ==> |Skeleton(ts)| == |ts|
  {
  }

  lemma TemplateIsFixed(ts: seq<Tree>)
    requires Keyed(ts) && SortsLevel(ts)
    ensures !Dynamic(ts[0].children)
  {
    DynamicIs(ts[0].children);
    assert Skeleton(ts)[0].children == Skeleton(ts[0].children);
  }

  lemma FixedAlike(us: seq<Tree>, ts: seq<Tree>)
    requires Skeleton(us) == Skeleton(ts) && !Dynamic(ts)
    ensures !Dynamic(us) && |Skeleton(us)| == |us|
  {
    DynamicIs(us);
    DynamicIs(ts);
  }

  // ---------------------------------------------------------------- sorting inside keeps the keys

  function ValueOf(ts: seq<Tree>, n: string): Option<string> {
    var k := Find(ts, n);
    if k < |ts| then Some(ts[k].value) else None
  }

  ghost predicate SameValues(ts: seq<Tree>, us: seq<Tree>) {
    forall n :: ValueOf(us, n) == ValueOf(ts, n)
  }

  lemma {:induction false} SortKeepsValues(ts: seq<Tree>, i: nat, f: Arrangement, h: nat, us: seq<Tree>)
    requires Sane(ts) && Unique(ts) && Sorting(ts, i, f, h, us)
    ensures SameValues(ts, us)
    decreases |ts| - i
  {
    hide Sane, Unique, OrderAside, Order, ValueOf;
    if i < |ts| {
      if !Sortable(ts[i]) {
        SortKeepsValues(ts, i + 1, f, h, us);
      } else {
        var k: nat, ds :| Goes(ts, i, f, k) && Sorting(ts[i].children, 0, f, h - 1, ds)
          && Sorting(Order(ts, i, f)[k := ts[i].(children := ds)], i + 1, f, h, us);
        var vs := Order(ts, i, f)[k := ts[i].(children := ds)];
        TurnKeeps(ts, i, f, h, k, ds);
        TurnKeepsValues(ts, i, f, k, ds);
        SortKeepsValues(vs, i + 1, f, h, us);
      }
    }
  }

  /** One turn of the loop. */
  lemma TurnKeeps(ts: seq<Tree>, i: nat, f: Arrangement, h: nat, k: nat, ds: seq<Tree>)
    requires Sane(ts) && Unique(ts) && h > 0 && Goes(ts, i, f, k) && Sortable(ts[i]) && Sorting(ts[i].children, 0, f, h - 1, ds)
    ensures var vs := Order(ts, i, f)[k := ts[i].(children := ds)]; Sane(vs) && Unique(vs) && Skeleton(vs) == Skeleton(ts)
    ensures Sane(ts[i].children) && Unique(ts[i].children) && Sane(ds) && Unique(ds)
    ensures Skeleton(ds) == Skeleton(ts[i].children)
  {
    hide Sane, Unique, Order, Skeleton, Sorting, InForceByName;
    SortInside(ts, i);
    UniqueBelow(ts, i);
    SortKeeps(ts[i].children, 0, f, h - 1, ds);
    OrderAfter(ts, i, f, k, ds);
  }

  lemma TurnKeepsValues(ts: seq<Tree>, i: nat, f: Arrangement, k: nat, ds: seq<Tree>)
    requires Sane(ts) && Unique(ts) && Goes(ts, i, f, k) && Sortable(ts[i])
    ensures SameValues(ts, Order(ts, i, f)[k := ts[i].(children := ds)])
  {
    hide Sane, Unique, Order, Skeleton, InForceByName, Find;
    StartKeeps(ts, i, f);
    var order := Order(ts, i, f);
    forall n ensures ValueOf(order[k := ts[i].(children := ds)], n) == ValueOf(ts, n) {
      FindPermuted(ts, order, n);
      FindReplaced(order, k, ts[i].(children := ds), n);
    }
  }

  lemma KeyKept(t: Tree, ds: seq<Tree>)
    requires SameValues(t.children, ds)
    ensures Key(t.(children := ds)) == Key(t)
  {
    hide Find;
    if t.sortNode.Some? { assert ValueOf(ds, t.sortNode.value) == ValueOf(t.children, t.sortNode.value); }
  }

  lemma StillOrdered(ts: seq<Tree>, k: nat, d: Tree)
    requires Ordered(ts) && k < |ts| && d.name == ts[k].name && Key(d) == Key(ts[k])
    ensures Ordered(ts[k := d])
  {
    hide Key;
  }

  /** Sorting a level leaves it in order behind its template. */
  lemma {:induction false} SortOrders(ts: seq<Tree>, i: nat, f: Arrangement, h: nat, us: seq<Tree>)
    requires Sane(ts) && Unique(ts) && Keyed(ts) && SortsLevel(ts) && Orders(f)
    requires Sorting(ts, i, f, h, us) && (i >= |ts| ==> Ordered(ts[1..]))
    ensures |us| == |ts| && Ordered(us[1..])
    decreases |ts| - i
  {
    hide Sane, Unique, Keyed, SortsLevel, Order, Orders, Ordered;
    if i < |ts| {
      if !Sortable(ts[i]) {
        if i + 1 >= |ts| { AloneIsOrdered(ts, i); }
        SortOrders(ts, i + 1, f, h, us);
      } else {
        var k: nat, ds :| Goes(ts, i, f, k) && Sorting(ts[i].children, 0, f, h - 1, ds)
          && Sorting(Order(ts, i, f)[k := ts[i].(children := ds)], i + 1, f, h, us);
        TurnSorts(ts, i, f, h, k, ds);
        SortOrders(Order(ts, i, f)[k := ts[i].(children := ds)], i + 1, f, h, us);
      }
    }
  }

  lemma AloneIsOrdered(ts: seq<Tree>, i: nat)
    requires Sane(ts) && SortsLevel(ts) && i < |ts| && !Sortable(ts[i]) && i + 1 >= |ts|
    ensures Ordered(ts[1..])
  {
    hide SaneNode;
    if i > 0 { TargetLevel(ts, i); }
  }

  lemma TurnOrders(ts: seq<Tree>, i: nat, f: Arrangement, k: nat, ds: seq<Tree>)
    requires Sane(ts) && Keyed(ts) && SortsLevel(ts) && Orders(f) && Goes(ts, i, f, k) && Sortable(ts[i])
    requires SameValues(ts[i].children, ds)
    ensures var vs := Order(ts, i, f)[k := ts[i].(children := ds)]; SortsLevel(vs) && Ordered(vs[1..])
  {
    hide Sane, SaneNode, Skeleton, Keyed, Orders, Key, Ordered, SameValues, Sorted;
    var keyed := LevelIsKeyed(ts);
    SortableHere(ts, i);
    SortedIsOrdered(ts[1..], f);
    var order := Order(ts, i, f);
    assert order[0] == ts[0] && order[1..] == Sorted(ts[1..], f) && k > 0;
    KeyKept(ts[i], ds);
    StillOrdered(order[1..], k - 1, ts[i].(children := ds));
    assert order[k := ts[i].(children := ds)][1..] == order[1..][k - 1 := ts[i].(children := ds)];
  }

  /** One turn of the loop on a level that is sorted. */
  lemma TurnSorts(ts: seq<Tree>, i: nat, f: Arrangement, h: nat, k: nat, ds: seq<Tree>)
    requires Sane(ts) && Unique(ts) && Keyed(ts) && SortsLevel(ts) && Orders(f)
    requires h > 0 && Goes(ts, i, f, k) && Sortable(ts[i]) && Sorting(ts[i].children, 0, f, h - 1, ds)
    ensures var vs := Order(ts, i, f)[k := ts[i].(children := ds)];
            |vs| == |ts| && Sane(vs) && Unique(vs) && Keyed(vs) && SortsLevel(vs) && Ordered(vs[1..])
  {
    hide Sane, Unique, Skeleton, Keyed, SortsLevel, Order, Orders, Ordered, Sorting, SameValues, Sortable;
    var vs := Order(ts, i, f)[k := ts[i].(children := ds)];
    assert Sane(vs) && Unique(vs) && Keyed(vs) by {
      TurnKeeps(ts, i, f, h, k, ds);
      KeyedAgain(ts, vs);
    }
    assert SortsLevel(vs) && Ordered(vs[1..]) by {
      InsideKeepsValues(ts, i, f, h, ds);
      TurnOrders(ts, i, f, k, ds);
    }
  }

  lemma InsideKeepsValues(ts: seq<Tree>, i: nat, f: Arrangement, h: nat, ds: seq<Tree>)
    requires Sane(ts) && Unique(ts) && i < |ts| && h > 0 && Sorting(ts[i].children, 0, f, h - 1, ds)
    ensures SameValues(ts[i].children, ds)
  {
    hide Sane, Unique, Sorting, SameValues;
    SortInside(ts, i);
    UniqueBelow(ts, i);
    SortKeepsValues(ts[i].children, 0, f, h - 1, ds);
  }

  lemma SortableHere(ts: seq<Tree>, i: nat)
    requires Sane(ts) && SortsLevel(ts) && i < |ts| && Sortable(ts[i])
    ensures i > 0 && ts[i].sortNode == ts[0].sortNode
  {
    hide SaneNode;
    TargetLevel(ts, i);
  }

  /** At every level the blocks behind a template are in order. */
  predicate DeepOrdered(ts: seq<Tree>) {
    && (SortsLevel(ts) ==> Ordered(ts[1..]))
    && forall i :: 0 <= i < |ts| && Sortable(ts[i]) ==> DeepOrdered(ts[i].children)
  }

  // ---------------------------------------------------------------- which blocks are sorted inside

  /** What is in a block, sorted. */
  function Within(t: Tree, f: Arrangement, h: nat): (ds: seq<Tree>)
    requires h > 0 && Height(t.children) < h
    ensures Height(ds) < h
  {
    SortFrom(t.children, 0, f, h - 1)
  }

  function WithinNode(t: Tree, f: Arrangement, h: nat): Tree
    requires h > 0 && Height(t.children) < h
  {
    if Sortable(t) then t.(children := Within(t, f, h)) else t
  }

  /** Sorting the siblings of whatever stands here changes nothing. */
  predicate InOrder(ts: seq<Tree>) {
    if SortsLevel(ts) then Ordered(ts[1..]) else forall i :: 0 <= i < |ts| && Sortable(ts[i]) ==> ts[i].sortNode.None?
  }

  lemma StaysPut(ts: seq<Tree>, i: nat, f: Arrangement)
    requires Sane(ts) && Unique(ts) && Keyed(ts) && Steady(f) && InOrder(ts) && i < |ts| && Sortable(ts[i])
    ensures Order(ts, i, f) == ts && FirstPlace(ts, i, f) == i
  {
    hide Sane, Unique, Skeleton, Keyed, Key, Ordered, Sorted, FirstPlace;
    if SortsLevel(ts) {
      var keyed := LevelIsKeyed(ts);
      SteadyOnLevel(ts[1..], f, keyed);
    }
    assert Order(ts, i, f) == ts;
    OnePlace(ts, i, f, i);
  }

  lemma SteadyOnLevel(ts: seq<Tree>, f: Arrangement, keyed: bool)
    requires Steady(f) && AllKeyed(ts, keyed) && Ordered(ts)
    ensures Sorted(ts, f) == ts
  {
    hide AllKeyed, Ordered;
  }

  /** Then every block from the i-th child on is sorted inside, where it stands. */
  lemma {:induction false} SortsInside(ts: seq<Tree>, i: nat, f: Arrangement, h: nat)
    requires Sane(ts) && Unique(ts) && Keyed(ts) && Steady(f) && InOrder(ts) && Height(ts) <= h
    ensures (ts != [] ==> h > 0) && forall j :: 0 <= j < |ts| ==> Height(ts[j].children) < h
    ensures SortFrom(ts, i, f, h) == seq(|ts|, j requires 0 <= j < |ts| => if j < i then ts[j] else WithinNode(ts[j], f, h))
    decreases |ts| - i
  {
    hide Sane, Unique, Keyed, Steady, InOrder, Order, FirstPlace, Height, Skeleton;
    HeightAt(ts, h);
    if ts != [] { assert Height(ts[0].children) < h; }
    if i < |ts| {
      if !Sortable(ts[i]) {
        SortsInside(ts, i + 1, f, h);
      } else {
        StaysPut(ts, i, f);
        var ds := Within(ts[i], f, h);
        var us := ts[i := ts[i].(children := ds)];
        Lower(ts, ts, us, i, h);
        StillInOrder(ts, i, f, h);
        SortsInside(us, i + 1, f, h);
      }
    }
  }

  lemma StillInOrder(ts: seq<Tree>, i: nat, f: Arrangement, h: nat)
    requires Sane(ts) && Unique(ts) && Keyed(ts) && Steady(f) && InOrder(ts) && i < |ts| && Sortable(ts[i])
    requires h > 0 && Height(ts[i].children) < h
    ensures var us := ts[i := ts[i].(children := Within(ts[i], f, h))];
            Sane(us) && Unique(us) && Keyed(us) && InOrder(us)
  {
    hide Sane, Unique, Keyed, Steady, Order, FirstPlace, Height, Skeleton, Sorting, Ordered, SortsLevel;
    StaysPut(ts, i, f);
    var ds := Within(ts[i], f, h);
    SortFromSorts(ts[i].children, 0, f, h - 1);
    assert Goes(ts, i, f, i);
    if SortsLevel(ts) {
      SteadyOrders(f);
      TurnSorts(ts, i, f, h, i, ds);
    } else {
      TurnKeeps(ts, i, f, h, i, ds);
      KeyedAgain(ts, ts[i := ts[i].(children := ds)]);
      StillUnsorted(ts, ts[i := ts[i].(children := ds)]);
    }
  }

  lemma StillUnsorted(ts: seq<Tree>, us: seq<Tree>)
    requires !SortsLevel(ts) && InOrder(ts) && |us| == |ts|
    requires forall j :: 0 <= j < |ts| ==> us[j] == ts[j].(children := us[j].children)
    ensures InOrder(us)
  {
  }

  // ---------------------------------------------------------------- how deep the order goes

  /** The level after its first turn: in order, and the block that stood first sorted inside. */
  function AfterFirst(ts: seq<Tree>, f: Arrangement, h: nat): seq<Tree>
    requires |ts| > 1 && h > 0 && Height(ts[1].children) < h
  {
    Order(ts, 1, f)[FirstPlace(ts, 1, f) := ts[1].(children := Within(ts[1], f, h))]
  }

  /** The loop goes on behind the place of the first child whatever stands there: where the
      level is sorted, the block that comes first is not sorted inside unless it stood there
      before, and the one that did is sorted inside twice. */
  lemma SortsLevelInside(ts: seq<Tree>, f: Arrangement, h: nat)
    requires Sane(ts) && Unique(ts) && Keyed(ts) && Steady(f) && SortsLevel(ts) && |ts| > 1 && Height(ts) <= h
    ensures h > 0 && Height(ts[1].children) < h
    ensures var vs := AfterFirst(ts, f, h);
            && |vs| == |ts| && Sane(vs) && Unique(vs) && Keyed(vs) && InOrder(vs)
            && (forall j :: 0 <= j < |ts| ==> Height(vs[j].children) < h)
            && SortFrom(ts, 0, f, h) == seq(|ts|, j requires 0 <= j < |ts| => if j < 2 then vs[j] else WithinNode(vs[j], f, h))
  {
    hide Sane, Unique, Keyed, Steady, Orders, Order, FirstPlace, Height, Ordered, Sorting, SortsLevel, Sortable, SortFrom;
    HeightAt(ts, h);
    FirstIsSortable(ts);
    var k, ds := FirstPlace(ts, 1, f), Within(ts[1], f, h);
    var vs := AfterFirst(ts, f, h);
    Lower(ts, Order(ts, 1, f), vs, k, h);
    HeightAt(vs, h);
    SortFromSorts(ts[1].children, 0, f, h - 1);
    SameFirst(ts, f, h);
    SteadyOrders(f);
    TurnSorts(ts, 1, f, h, k, ds);
    LevelInOrder(vs);
    SortsInside(vs, 2, f, h);
  }

  lemma SteadyOrders(f: Arrangement)
    requires Steady(f)
    ensures Orders(f)
  {
  }

  lemma LevelInOrder(ts: seq<Tree>)
    requires SortsLevel(ts) && Ordered(ts[1..])
    ensures InOrder(ts)
  {
  }

  lemma KeyedAgain(ts: seq<Tree>, us: seq<Tree>)
    requires Keyed(ts) && Skeleton(us) == Skeleton(ts)
    ensures Keyed(us)
  {
  }

  lemma FirstIsSortable(ts: seq<Tree>)
    requires Sane(ts) && SortsLevel(ts) && |ts| > 1
    ensures !Sortable(ts[0]) && Sortable(ts[1]) && ts[1].sortNode == ts[0].sortNode
  {
    hide SaneNode;
    TargetLevel(ts, 1);
  }

  lemma SameFirst(ts: seq<Tree>, f: Arrangement, h: nat)
    requires |ts| > 1 && !Sortable(ts[0]) && Sortable(ts[1]) && Height(ts) <= h && h > 0 && Height(ts[1].children) < h
    requires Height(AfterFirst(ts, f, h)) <= h
    ensures SortFrom(ts, 0, f, h) == SortFrom(AfterFirst(ts, f, h), 2, f, h)
  {
    hide Order, FirstPlace, Height;
    assert SortFrom(ts, 0, f, h) == SortFrom(ts, 1, f, h);
  }

  /** Where sort leaves everything in order: where a level is sorted, the block that comes first
      must have stood there before, or be in order inside; one that stood there and had to go is
      sorted inside twice. */
  predicate InReach(ts: seq<Tree>, f: Arrangement, h: nat)
    decreases h, 1
  {
    if SortsLevel(ts) && |ts| > 1 then
      forall j :: 1 <= j < |ts| ==> ReachesAt(ts, f, h, j)
    else
      forall i :: 0 <= i < |ts| && Sortable(ts[i]) ==>
        h > 0 && Height(ts[i].children) < h && InReach(ts[i].children, f, h - 1)
  }

  /** The block that will stand at j. */
  predicate ReachesAt(ts: seq<Tree>, f: Arrangement, h: nat, j: nat)
    requires 1 <= j < |ts|
    decreases h, 0
  {
    var c := Order(ts, 1, f)[j];
    && h > 0 && Height(c.children) < h
    && if j == FirstPlace(ts, 1, f) then InReach(if j == 1 then c.children else Within(c, f, h), f, h - 1)
       else if j == 1 then DeepOrdered(c.children)
       else InReach(c.children, f, h - 1)
  }

  lemma WithinKeeps(t: Tree, f: Arrangement, h: nat)
    requires Sane(t.children) && Unique(t.children) && Keyed(t.children) && h > 0 && Height(t.children) < h
    ensures var ds := Within(t, f, h); Sane(ds) && Unique(ds) && Keyed(ds)
  {
    hide Sane, Unique, Skeleton, Sorting, InForceByName, Height;
    SortFromSorts(t.children, 0, f, h - 1);
    SortKeeps(t.children, 0, f, h - 1, Within(t, f, h));
    KeyedAgain(t.children, Within(t, f, h));
  }

  /** After sorting every level is in order behind its template, at every depth, exactly then. */
  lemma {:induction false} SortsDeep(ts: seq<Tree>, f: Arrangement, h: nat)
    requires Sane(ts) && Unique(ts) && Keyed(ts) && Steady(f) && Height(ts) <= h
    ensures DeepOrdered(SortFrom(ts, 0, f, h)) <==> InReach(ts, f, h)
    decreases h, 3
  {
    hide Sane, Unique, Keyed, Steady, Order, FirstPlace, Height, Skeleton, Ordered, InOrder, Sortable, SortFrom;
    if SortsLevel(ts) && |ts| > 1 {
      LevelDeep(ts, f, h);
    } else {
      AlreadyInOrder(ts);
      SortsInside(ts, 0, f, h);
      HeightAt(ts, h);
      forall i | 0 <= i < |ts| && Sortable(ts[i]) ensures DeepOrdered(Within(ts[i], f, h)) <==> InReach(ts[i].children, f, h - 1) {
        ChildDeep(ts, i, f, h);
      }
      UnsortedDeep(ts, f, h, SortFrom(ts, 0, f, h));
    }
  }

  lemma {:induction false} ChildDeep(ts: seq<Tree>, i: nat, f: Arrangement, h: nat)
    requires Sane(ts) && Unique(ts) && Keyed(ts) && Steady(f) && i < |ts| && h > 0 && Height(ts[i].children) < h
    ensures DeepOrdered(Within(ts[i], f, h)) <==> InReach(ts[i].children, f, h - 1)
    decreases h, 0
  {
    hide Sane, Unique, Keyed, Steady, Height, DeepOrdered, InReach;
    SortInside(ts, i);
    UniqueBelow(ts, i);
    KeyedInside(ts, i);
    SortsDeep(ts[i].children, f, h - 1);
  }

  lemma AlreadyInOrder(ts: seq<Tree>)
    requires Sane(ts) && !(SortsLevel(ts) && |ts| > 1)
    ensures InOrder(ts)
  {
    hide SaneNode, Key;
    if !SortsLevel(ts) {
      forall i | 0 <= i < |ts| && Sortable(ts[i]) ensures ts[i].sortNode.None? { TargetLevel(ts, i); }
    }
  }

  lemma UnsortedDeep(ts: seq<Tree>, f: Arrangement, h: nat, us: seq<Tree>)
    requires !(SortsLevel(ts) && |ts| > 1) && (h > 0 || ts == [])
    requires |us| == |ts| && forall i :: 0 <= i < |ts| ==> Height(ts[i].children) < h && us[i] == WithinNode(ts[i], f, h)
    requires forall i :: 0 <= i < |ts| && Sortable(ts[i]) ==> (DeepOrdered(Within(ts[i], f, h)) <==> InReach(ts[i].children, f, h - 1))
    ensures DeepOrdered(us) <==> InReach(ts, f, h)
  {
    hide Height, SortFrom, Key, Within;
    forall i | 0 <= i < |ts| ensures Sortable(us[i]) == Sortable(ts[i]) {}
    if SortsLevel(us) { assert us[1..] == []; }
  }

  lemma {:induction false} LevelDeep(ts: seq<Tree>, f: Arrangement, h: nat)
    requires Sane(ts) && Unique(ts) && Keyed(ts) && Steady(f) && SortsLevel(ts) && |ts| > 1 && Height(ts) <= h
    ensures DeepOrdered(SortFrom(ts, 0, f, h)) <==> InReach(ts, f, h)
    decreases h, 2
  {
    hide Sane, Unique, Keyed, Steady, Order, FirstPlace, Height, Skeleton, Ordered, InOrder, SortFrom, ReachesAt, AfterFirst, Sorting,
         Orders, WithinNode;
    var us := SortFrom(ts, 0, f, h);
    SortFromSorts(ts, 0, f, h);
    SteadyOrders(f);
    SortOrders(ts, 0, f, h, us);
    SortsLevelInside(ts, f, h);
    forall j | 1 <= j < |ts| ensures Sortable(us[j]) && (DeepOrdered(us[j].children) <==> ReachesAt(ts, f, h, j)) {
      AtDeep(ts, f, h, j, us[j]);
    }
    FirstStays(ts, f, h);
    assert us[0] == ts[0] && !Sortable(us[0]) && SortsLevel(us);
  }

  lemma FirstStays(ts: seq<Tree>, f: Arrangement, h: nat)
    requires Sane(ts) && SortsLevel(ts) && |ts| > 1 && h > 0 && Height(ts[1].children) < h
    ensures AfterFirst(ts, f, h)[0] == ts[0] && !Sortable(ts[0])
  {
    hide Sane, Height, Within;
    FirstIsSortable(ts);
    var k := FirstPlace(ts, 1, f);
    assert Order(ts, 1, f)[0] == ts[0];
  }

  /** What has become of the block that stands at j. */
  lemma {:induction false} AtDeep(ts: seq<Tree>, f: Arrangement, h: nat, j: nat, u: Tree)
    requires Sane(ts) && Unique(ts) && Keyed(ts) && Steady(f) && SortsLevel(ts) && |ts| > 1 && Height(ts) <= h
    requires 1 <= j < |ts| && h > 0 && Height(ts[1].children) < h && Height(AfterFirst(ts, f, h)[j].children) < h
    requires u == if j < 2 then AfterFirst(ts, f, h)[j] else WithinNode(AfterFirst(ts, f, h)[j], f, h)
    ensures Sortable(u) && (DeepOrdered(u.children) <==> ReachesAt(ts, f, h, j))
    decreases h, 1
  {
    hide Sane, Unique, Keyed, Steady, Order, FirstPlace, Height, Skeleton, SortFrom, DeepOrdered, InReach, SortsLevel;
    OrderIsFine(ts, f, h, j);
    var order, k := Order(ts, 1, f), FirstPlace(ts, 1, f);
    if j == k && j > 1 {
      WithinKeeps(order[j], f, h);
      SortsDeep(Within(order[j], f, h), f, h - 1);
    } else if j == k || j > 1 {
      ChildDeep(order, j, f, h);
    }
  }

  lemma OrderIsFine(ts: seq<Tree>, f: Arrangement, h: nat, j: nat)
    requires Sane(ts) && Unique(ts) && Keyed(ts) && SortsLevel(ts) && |ts| > 1 && Height(ts) <= h && 1 <= j < |ts|
    ensures var order := Order(ts, 1, f);
            && Sane(order) && Unique(order) && Keyed(order) && Sortable(order[j]) && Height(order[j].children) < h
            && Sane(order[j].children) && Unique(order[j].children) && Keyed(order[j].children)
  {
    hide Sane, Unique, Keyed, Order, Height, Skeleton, InForceByName;
    FirstIsSortable(ts);
    StartKeeps(ts, 1, f);
    var order := Order(ts, 1, f);
    KeyedAgain(ts, order);
    OrderLower(ts, f, h);
    BehindIsSortable(ts, order, j);
    SortInside(order, j);
    UniqueBelow(order, j);
    KeyedInside(order, j);
  }

  lemma OrderLower(ts: seq<Tree>, f: Arrangement, h: nat)
    requires |ts| > 1 && Height(ts) <= h
    ensures forall j :: 0 <= j < |ts| ==> Height(Order(ts, 1, f)[j].children) < h
  {
    hide Height, Order;
    HeightAt(ts, h);
    var order := Order(ts, 1, f);
    forall j | 0 <= j < |ts| ensures Height(order[j].children) < h {
      assert order[j] in multiset(order);
      assert order[j] in multiset(ts);
    }
  }

  lemma BehindIsSortable(ts: seq<Tree>, order: seq<Tree>, j: nat)
    requires Sane(order) && Skeleton(order) == Skeleton(ts) && SortsLevel(ts) && 1 <= j < |order|
    ensures Sortable(order[j])
  {
    hide SaneNode;
    DynamicIs(ts);
    DynamicIs(order);
    TargetLevel(order, j);
  }

  /** What sort leaves: where siblings are sorted they are in order, whatever order equal ones
      are left in; and by a sort that leaves alone what is in order, all is in order at every
      depth exactly if everything is in reach. */
  lemma SortPutsInOrder(ts: seq<Tree>, f: Arrangement, h: nat, us: seq<Tree>)
    requires Sane(ts) && Unique(ts) && Keyed(ts) && Orders(f) && Height(ts) <= h && Sorting(ts, 0, f, h, us)
    ensures SortsLevel(ts) ==> |us| == |ts| && Ordered(us[1..])
    ensures Steady(f) ==> (DeepOrdered(us) <==> InReach(ts, f, h))
  {
    hide Sane, Unique, Keyed, Orders, Steady, Height, Sorting, Ordered, DeepOrdered, InReach, SortsLevel;
    if SortsLevel(ts) {
      assert 0 < |ts| by { SortedIsThere(ts); }
      SortOrders(ts, 0, f, h, us);
    }
    if Steady(f) {
      OneWayToSort(ts, 0, f, h, us);
      SortsDeep(ts, f, h);
    }
  }

  lemma SortedIsThere(ts: seq<Tree>)
    requires SortsLevel(ts)
    ensures ts != []
  {
  }

  // ---------------------------------------------------------------- a block that is passed over

  function SortedBlock(name: string, isTemplate: bool, children: seq<Tree>): Tree {
    Tree(name, "", "", "", Block, Ready, isTemplate, false, false, Some("k"), children)
  }

  /** A fixed block with a template in it, and the blocks given. */
  function Inner(more: seq<Tree>): seq<Tree> {
    [Tree("in", "", "", "", Block, Ready, false, false, false, None, [SortedBlock("*", true, [])] + more)]
  }

  const PASSED: seq<Tree> := [SortedBlock("*", true, Inner([])), SortedBlock("b", false, Inner([])),
                              SortedBlock("a", false, Inner([SortedBlock("d", false, []), SortedBlock("c", false, [])]))]

  /** Blocks b and a, with d before c in a: a comes to stand before the place the loop goes on
      from, so d stays before c. */
  lemma PassedOver(f: Arrangement)
    requires Steady(f)
    ensures Sane(PASSED) && Unique(PASSED) && Keyed(PASSED) && !DeepOrdered(SortAll(PASSED, f))
  {
    PassedIsSane();
    hide Sane, Unique, Skeleton, Keyed, DeepOrdered, Height, Order, FirstPlace, Steady, SortFrom;
    SteadyOrders(f);
    PassedOrder(f);
    InnerUnsorted();
    SortsDeep(PASSED, f, Height(PASSED));
    assert SortsLevel(PASSED);
    assert !ReachesAt(PASSED, f, Height(PASSED), 1);
  }

  lemma BlocksAreSane(kids: seq<Tree>, ts: seq<Tree>)
    requires Sane(kids) && Untouched(kids) && ts != [] && ts[0] == SortedBlock("*", true, kids)
    requires forall i :: 1 <= i < |ts| ==>
               && ts[i] == SortedBlock(ts[i].name, false, ts[i].children)
               && Sane(ts[i].children) && Skeleton(ts[i].children) == Skeleton(kids)
    ensures Sane(ts) && Skeleton(ts) == [BoneOf(ts[0])]
  {
    hide Skeleton, Sane, WellFormed, Disciplined;
    forall i | 0 <= i < |ts| ensures SaneNode(ts[i]) { SaneIs(ts[i].children); }
    assert Level(ts);
    assert Sane(ts) by { SaneLevel(ts); }
    assert Skeleton(ts) == [BoneOf(ts[0])] by { OneBone(ts); }
  }

  lemma SaneLevel(ts: seq<Tree>)
    requires Level(ts) && forall i :: 0 <= i < |ts| ==> SaneNode(ts[i])
    ensures Sane(ts)
  {
  }

  lemma OneBone(ts: seq<Tree>)
    requires Dynamic(ts)
    ensures Skeleton(ts) == [BoneOf(ts[0])]
  {
  }

  lemma InnerIsSane(more: seq<Tree>)
    requires forall i :: 0 <= i < |more| ==> more[i] == SortedBlock(more[i].name, false, [])
    ensures Sane(Inner(more)) && Skeleton(Inner(more)) == Skeleton(Inner([])) && Untouched(Inner(more))
    ensures KeyedBones(Skeleton(Inner(more))) && !Skeleton(Inner(more))[0].isTemplate
  {
    var ts, none := [SortedBlock("*", true, [])] + more, [SortedBlock("*", true, [])] + [];
    BlocksAreSane([], ts);
    BlocksAreSane([], none);
    assert ts[0] == none[0];
    assert Skeleton(ts) == Skeleton(none) == [Bone("*", "", Block, true, false, Some("k"), Skeleton([]))];
    hide Skeleton, KeyedBones;
    SaneIs(ts);
    assert Inner(more)[0].children == ts && Inner([])[0].children == none;
    InnerBone(more);
    InnerBone([]);
    InnerIsKeyed(Skeleton(none));
  }

  lemma InnerIsKeyed(bs: seq<Bone>)
    requires bs == [Bone("*", "", Block, true, false, Some("k"), Skeleton([]))]
    ensures KeyedBones([Bone("in", "", Block, false, false, None, bs)])
  {
    assert Skeleton([]) == [];
    assert KeyedBones(bs);
  }

  lemma InnerBone(more: seq<Tree>)
    ensures Skeleton(Inner(more)) == [Bone("in", "", Block, false, false, None, Skeleton(Inner(more)[0].children))]
  {
  }

  lemma PassedIsSane()
    ensures Sane(PASSED) && Unique(PASSED) && Keyed(PASSED)
  {
    hide Sane, Skeleton, Unique, KeyedBones, Inner, Untouched, BoneOf;
    var more := [SortedBlock("d", false, []), SortedBlock("c", false, [])];
    InnerIsSane([]);
    InnerIsSane(more);
    BlocksAreSane(Inner([]), PASSED);
    InnerIsUnique([]);
    InnerIsUnique(more);
    PassedIsUnique();
    KeyedBy(PASSED[0]);
  }

  lemma KeyedBy(t: Tree)
    requires KeyedBones(Skeleton(t.children)) && (Skeleton(t.children) == [] || !Skeleton(t.children)[0].isTemplate)
    ensures KeyedBones([BoneOf(t)])
  {
  }

  lemma PassedIsUnique()
    requires Unique(PASSED[0].children) && Unique(PASSED[1].children) && Unique(PASSED[2].children)
    ensures Unique(PASSED)
  {
    hide Inner;
  }

  lemma InnerIsUnique(more: seq<Tree>)
    requires forall i :: 0 <= i < |more| ==> more[i] == SortedBlock(more[i].name, false, [])
    requires forall i, j :: 0 <= i < j < |more| ==> more[i].name != more[j].name
    ensures Unique(Inner(more))
  {
    var ts := [SortedBlock("*", true, [])] + more;
    assert forall i :: 0 < i < |ts| ==> ts[i] == more[i - 1];
    assert Unique(ts);
  }

  lemma InnerUnsorted()
    ensures !DeepOrdered(PASSED[2].children)
  {
    var ts := PASSED[2].children[0].children;
    assert Less(ts[2], ts[1]);
    assert ts[1..][1] == ts[2] && ts[1..][0] == ts[1];
    assert !Ordered(ts[1..]);
  }

  lemma PassedOrder(f: Arrangement)
    requires Orders(f)
    ensures Order(PASSED, 1, f)[1] == PASSED[2] && FirstPlace(PASSED, 1, f) == 2
  {
    var ts := PASSED[1..];
    var us := f(ts);
    assert ts == [PASSED[1], PASSED[2]];
    assert Key(ts[0]).None? && Key(ts[1]).None? && AllKeyed(ts, false);
    SortedIsOrdered(ts, f);
    assert |us| == |multiset(us)| == 2;
    assert us[0] in multiset(us) && us[1] in multiset(us);
    assert Less(ts[1], ts[0]);
    assert us == [us[0], us[1]];
    assert multiset(us) == multiset{us[0], us[1]} && multiset(ts) == multiset{PASSED[1], PASSED[2]};
  }
}
