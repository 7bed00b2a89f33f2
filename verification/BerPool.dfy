/** The round-robin pools a decoder draws its TLVs and nodes from. */
module BerPool {
  import opened BerOctets
  import opened BerTlv
  import opened BerDecode
  import opened BerWire
  import opened BerSchema
  import opened BerSchemaRoundTrip
  import opened BerSchemaDecode

  /** The entry a pool of n gives away while free entries are left of the round. */
  function Entry(n: nat, free: nat): nat
    requires 1 <= free <= n
  {
    free - 1
  }

  function AfterRequest(n: nat, free: nat): (f: nat)
    requires 1 <= free <= n
    ensures 1 <= f <= n
  {
    if free == 1 then n else free - 1
  }

  /** The entries k requests give. */
  function Requests(n: nat, free: nat, k: nat): (es: seq<nat>)
    requires 1 <= free <= n
    ensures |es| == k
    decreases k
  {
    if k == 0 then [] else [Entry(n, free)] + Requests(n, AfterRequest(n, free), k - 1)
  }

  /** Requests go down and wrap around. */
  lemma {:induction false} RequestAt(n: nat, free: nat, k: nat, i: nat)
    requires 1 <= free <= n && i < k <= n
    ensures Requests(n, free, k)[i] == if i < free then free - 1 - i else n + free - 1 - i
    decreases k
  {
    if i > 0 { RequestAt(n, AfterRequest(n, free), k - 1, i - 1); }
  }

  ghost predicate Different(es: seq<nat>) {
    forall i, j :: 0 <= i < j < |es| ==> es[i] != es[j]
  }

  /** Requests give no entry twice exactly if no more are made than there are entries. */
  lemma RequestsDiffer(n: nat, free: nat, k: nat)
    requires 1 <= free <= n
    ensures Different(Requests(n, free, k)) <==> k <= n
  {
    if k <= n {
      forall i, j | 0 <= i < j < k ensures Requests(n, free, k)[i] != Requests(n, free, k)[j] {
        RequestAt(n, free, k, i);
        RequestAt(n, free, k, j);
      }
    } else {
      FreeAt(n, free, n);
      RequestsGoOn(n, free, n, k - n);
      assert Requests(n, free, k)[0] == Requests(n, free, k)[n];
    }
  }

  function FreeAfter(n: nat, free: nat, k: nat): (f: nat)
    requires 1 <= free <= n
    ensures 1 <= f <= n
    decreases k
  {
    if k == 0 then free else FreeAfter(n, AfterRequest(n, free), k - 1)
  }

  lemma {:induction false} RequestsGoOn(n: nat, free: nat, k: nat, l: nat)
    requires 1 <= free <= n
    ensures Requests(n, free, k + l) == Requests(n, free, k) + Requests(n, FreeAfter(n, free, k), l)
    ensures FreeAfter(n, free, k + l) == FreeAfter(n, FreeAfter(n, free, k), l)
    decreases k
  {
    if k > 0 { RequestsGoOn(n, AfterRequest(n, free), k - 1, l); }
  }

  /** After n requests the pool stands where it stood. */
  lemma {:induction false} FreeAt(n: nat, free: nat, k: nat)
    requires 1 <= free <= n && k <= n
    ensures FreeAfter(n, free, k) == if k < free then free - k else n + free - k
    decreases k
  {
    if k > 0 { FreeAt(n, AfterRequest(n, free), k - 1); }
  }

  // ---------------------------------------------------------------- decoded nodes and their entries

  /** A decoded node with the entries of the two pools that hold it. */
  datatype Drawn = Drawn(tlv: nat, node: nat, kept: Kept, below: seq<Drawn>)

  /** The nodes that were drawn hold those that were read. */
  predicate Carry(ds: seq<Drawn>, ks: seq<Kept>) {
    |ds| == |ks| && forall i :: 0 <= i < |ds| ==> CarryOne(ds[i], ks[i])
  }

  predicate CarryOne(d: Drawn, k: Kept) {
    d.kept == k && Carry(d.below, k.kids)
  }

  /** The entries that hold the TLVs of the trees, in the order in which they were requested. */
  function TlvsOf(ds: seq<Drawn>): seq<nat> {
    if ds == [] then [] else [ds[0].tlv] + TlvsOf(ds[0].below) + TlvsOf(ds[1..])
  }

  /** Those that hold the nodes. */
  function NodesOf(ds: seq<Drawn>): seq<nat> {
    if ds == [] then [] else [ds[0].node] + NodesOf(ds[0].below) + NodesOf(ds[1..])
  }

  lemma {:induction false} OneMore(ds: seq<Drawn>, d: Drawn)
    ensures TlvsOf(ds + [d]) == TlvsOf(ds) + ([d.tlv] + TlvsOf(d.below))
    ensures NodesOf(ds + [d]) == NodesOf(ds) + ([d.node] + NodesOf(d.below))
  {
    hide TlvsOf, NodesOf;
    NoEntries();
    if ds == [] {
      assert ds + [d] == [d] && [d][1..] == [];
      FirstEntries([d]);
    } else {
      assert (ds + [d])[0] == ds[0] && (ds + [d])[1..] == ds[1..] + [d];
      FirstEntries(ds + [d]);
      FirstEntries(ds);
      OneMore(ds[1..], d);
    }
  }

  lemma NoEntries()
    ensures TlvsOf([]) == [] && NodesOf([]) == []
  {
  }

  lemma FirstEntries(ds: seq<Drawn>)
    requires ds != []
    ensures TlvsOf(ds) == [ds[0].tlv] + TlvsOf(ds[0].below) + TlvsOf(ds[1..])
    ensures NodesOf(ds) == [ds[0].node] + NodesOf(ds[0].below) + NodesOf(ds[1..])
  {
  }

  /** The entries es come from a pool of n that stood at free and then stands at now. */
  predicate Series(es: seq<nat>, n: nat, free: nat, now: nat) {
    1 <= free <= n && es == Requests(n, free, |es|) && now == FreeAfter(n, free, |es|)
  }

  lemma SeriesGoesOn(es: seq<nat>, fs: seq<nat>, n: nat, free: nat, later: nat, now: nat)
    requires Series(es, n, free, later) && Series(fs, n, later, now)
    ensures Series(es + fs, n, free, now)
  {
    RequestsGoOn(n, free, |es|, |fs|);
  }

  lemma OneRequest(n: nat, free: nat)
    requires 1 <= free <= n
    ensures Series([Entry(n, free)], n, free, AfterRequest(n, free))
  {
    assert Requests(n, AfterRequest(n, free), 0) == [];
    assert FreeAfter(n, AfterRequest(n, free), 0) == AfterRequest(n, free);
  }

  /** Where the two pools of given sizes stand in their rounds. */
  datatype Standing = Standing(tlvs: nat, nodes: nat, freeTlvs: nat, freeNodes: nat)

  /** The entries that hold ds are those the pools gave between two standings. */
  predicate Gave(a: Standing, ds: seq<Drawn>, b: Standing) {
    && b == a.(freeTlvs := b.freeTlvs, freeNodes := b.freeNodes)
    && Series(TlvsOf(ds), a.tlvs, a.freeTlvs, b.freeTlvs) && Series(NodesOf(ds), a.nodes, a.freeNodes, b.freeNodes)
  }

  lemma NothingGiven(a: Standing)
    requires 1 <= a.freeTlvs <= a.tlvs && 1 <= a.freeNodes <= a.nodes
    ensures Gave(a, [], a)
  {
  }

  lemma GivesOn(a: Standing, ds: seq<Drawn>, b: Standing, d: Drawn, c: Standing)
    requires Gave(a, ds, b) && Gave(b, [d], c)
    ensures Gave(a, ds + [d], c)
  {
    OneMore(ds, d);
    OneMore([], d);
    assert [] + [d] == [d];
    SeriesGoesOn(TlvsOf(ds), TlvsOf([d]), a.tlvs, a.freeTlvs, b.freeTlvs, c.freeTlvs);
    SeriesGoesOn(NodesOf(ds), NodesOf([d]), a.nodes, a.freeNodes, b.freeNodes, c.freeNodes);
  }

  /** A node, then those below it. */
  lemma FirstGiven(a: Standing, d: Drawn, b: Standing, c: Standing)
    requires 1 <= a.freeTlvs <= a.tlvs && 1 <= a.freeNodes <= a.nodes
    requires d.tlv == Entry(a.tlvs, a.freeTlvs) && d.node == Entry(a.nodes, a.freeNodes)
    requires b == a.(freeTlvs := AfterRequest(a.tlvs, a.freeTlvs), freeNodes := AfterRequest(a.nodes, a.freeNodes))
    requires Gave(b, d.below, c)
    ensures Gave(a, [d], c)
  {
    OneMore([], d);
    assert [] + [d] == [d];
    OneRequest(a.tlvs, a.freeTlvs);
    OneRequest(a.nodes, a.freeNodes);
    SeriesGoesOn([d.tlv], TlvsOf(d.below), a.tlvs, a.freeTlvs, b.freeTlvs, c.freeTlvs);
    SeriesGoesOn([d.node], NodesOf(d.below), a.nodes, a.freeNodes, b.freeNodes, c.freeNodes);
  }

  /** Nodes read in front of others. */
  function Before(ks: seq<Kept>, r: Read): Read {
    if r.Read? then r.(nodes := ks + r.nodes) else r
  }

  lemma BeforeThen(ks: seq<Kept>, k: Kept, r: Read)
    ensures Before(ks, Then(k, r)) == Before(ks + [k], r)
  {
    if r.Read? { assert ks + ([k] + r.nodes) == (ks + [k]) + r.nodes; }
  }

  /** One turn of the loop: a node, what is linked then and how many are counted, and where the
      next one starts; or what ends the decoding. */
  datatype Turn = Turn(drawn: Drawn, level: Level, used: nat, next: nat) | Halt(why: Read)

  class ASN1Pool {
    const tlvCount: nat
    const nodeCount: nat
    var freeTlvs: nat
    var freeNodes: nat

    ghost predicate Valid()
      reads this
    {
      1 <= freeTlvs <= tlvCount && 1 <= freeNodes <= nodeCount
    }

    constructor (tlvs: nat, nodes: nat)
      requires tlvs > 0 && nodes > 0
      ensures Valid() && tlvCount == tlvs && nodeCount == nodes
      ensures freeTlvs == tlvs && freeNodes == nodes
    {
      tlvCount, nodeCount := tlvs, nodes;
      freeTlvs, freeNodes := tlvs, nodes;
    }

    method RequestTlv() returns (e: nat)
      requires Valid()
      modifies this`freeTlvs
      ensures Valid() && e == Entry(tlvCount, old(freeTlvs)) && e < tlvCount
      ensures freeTlvs == AfterRequest(tlvCount, old(freeTlvs))
    {
      e := freeTlvs - 1;
      freeTlvs := freeTlvs - 1;
      if freeTlvs <= 0 { freeTlvs := tlvCount; }
    }

    method RequestNode() returns (e: nat)
      requires Valid()
      modifies this`freeNodes
      ensures Valid() && e == Entry(nodeCount, old(freeNodes)) && e < nodeCount
      ensures freeNodes == AfterRequest(nodeCount, old(freeNodes))
    {
      e := freeNodes - 1;
      freeNodes := freeNodes - 1;
      if freeNodes <= 0 { freeNodes := nodeCount; }
    }

    function Now(): Standing
      reads this`freeTlvs, this`freeNodes
    {
      Standing(tlvCount, nodeCount, freeTlvs, freeNodes)
    }

    /** _decode on one level. */
    method ReadAll(m: seq<byte>, limit: nat, d: BerSchema.Option<Spec>, s: Level, used: nat) returns (r: Read, ds: seq<Drawn>)
      requires Valid() && OnLevel(d, s)
      modifies this`freeTlvs, this`freeNodes
      ensures Valid() && r == ReadLevel(m, limit, 0, d, s, used, tlvCount)
      ensures r.Read? ==> Carry(ds, r.nodes) && Gave(old(Now()), ds, Now())
      decreases limit, 2
    {
      hide ReadLevel, OnLevel, Gave;
      var p, level, count := 0, s, used;
      var nodes: seq<Kept> := [];
      ds := [];
      NothingGiven(Now());
      while p < limit
        invariant Valid() && OnLevel(d, level)
        invariant ReadLevel(m, limit, 0, d, s, used, tlvCount) == Before(nodes, ReadLevel(m, limit, p, d, level, count, tlvCount))
        invariant Carry(ds, nodes) && Gave(old(Now()), ds, Now())
        decreases limit - p
      {
        ghost var before := Now();
        var turn := ReadNode(m, limit, p, d, level, count);
        if turn.Halt? { return turn.why, []; }
        BeforeThen(nodes, turn.drawn.kept, ReadLevel(m, limit, turn.next, d, turn.level, turn.used, tlvCount));
        GivesOn(old(Now()), ds, before, turn.drawn, Now());
        ds, nodes := ds + [turn.drawn], nodes + [turn.drawn.kept];
        p, level, count := turn.next, turn.level, turn.used;
      }
      EndOfLevel(m, limit, p, d, level, count, tlvCount);
      r := Read(nodes, level, count);
    }

    method ReadNode(m: seq<byte>, limit: nat, p: nat, d: BerSchema.Option<Spec>, s: Level, used: nat) returns (turn: Turn)
      requires Valid() && OnLevel(d, s) && p < limit
      modifies this`freeTlvs, this`freeNodes
      ensures Valid()
      ensures turn.Turn? ==>
        && turn.next > p && OnLevel(d, turn.level) && CarryOne(turn.drawn, turn.drawn.kept)
        && Gave(old(Now()), [turn.drawn], Now())
        && ReadLevel(m, limit, p, d, s, used, tlvCount) ==
           Then(turn.drawn.kept, ReadLevel(m, limit, turn.next, d, turn.level, turn.used, tlvCount))
      ensures turn.Halt? ==> !turn.why.Read? && ReadLevel(m, limit, p, d, s, used, tlvCount) == turn.why
      decreases limit, 1
    {
      hide ReadLevel, ReadInside, OnLevel, HeaderAt, LinkAny, Gave;
      var tlv := RequestTlv();
      LevelHalts(m, limit, p, d, s, used, tlvCount);
      if used + 1 > tlvCount { return Halt(Bad(400)); }
      var h := ReadHeader(m, limit, p);
      if h.NoHeader? { return Halt(Lost); }
      if h.BadHeader? { return Halt(Bad(h.code)); }
      if h.value + h.length > |m| { return Halt(Lost); }
      var node := RequestNode();
      var octets := m[h.value..h.value + h.length];
      var s1 := LinkAny(d, s, Unread(h.cls, h.tag, h.constructed, octets));
      ReadStep(m, limit, p, d, s, used, tlvCount);
      ghost var before := Now();
      if h.constructed {
        var inside, below := ReadContents(m[h.value..], h.length, d, s1, used + 1);
        if !inside.Read? { return Halt(inside); }
        turn := Turn(Drawn(tlv, node, Keep(h, octets, inside.nodes), below), inside.level, inside.used, h.next);
      } else {
        NothingGiven(Now());
        turn := Turn(Drawn(tlv, node, Keep(h, octets, []), []), s1, used + 1, h.next);
      }
      FirstGiven(old(Now()), turn.drawn, before, Now());
    }

    /** The recursive call of _decode, with the node of the definition found for the TLV. */
    method ReadContents(m: seq<byte>, limit: nat, d: BerSchema.Option<Spec>, s: Level, used: nat)
      returns (r: Read, ds: seq<Drawn>)
      requires Valid() && OnLevel(d, s)
      modifies this`freeTlvs, this`freeNodes
      ensures Valid() && r == ReadInside(m, limit, d, s, used, tlvCount)
      ensures r.Read? ==> Carry(ds, r.nodes) && Gave(old(Now()), ds, Now())
      decreases limit, 3
    {
      hide ReadLevel, Gave;
      if d.None? || s.found.None? || Inner(ChildSpec(d.value, s.found.value), s.kids[s.found.value]).None? {
        r, ds := ReadAll(m, limit, BerSchema.None, Level([], 0, BerSchema.None), used);
        if r.Read? { r := r.(level := s); }
      } else {
        var j := s.found.value;
        var e, l := ChildSpec(d.value, j), s.kids[j];
        r, ds := ReadAll(m, limit, BerSchema.Some(Inner(e, l).value), Level(InnerLink(e, l).kids, 0, BerSchema.None), used);
        if r.Read? { r := r.(level := s.(kids := s.kids[j := PutInner(e, l, r.level.kids)])); }
      }
    }

    /** decode: the result, and the nodes it consists of with the entries that hold them. The
        entries of all TLVs are different; those of the nodes are as long as the pool of nodes
        has one for each. */
    method Decode(m: seq<byte>, limit: nat, d: Spec) returns (r: Read, ds: seq<Drawn>)
      requires Valid() && Sound(d)
      modifies this`freeTlvs, this`freeNodes
      ensures Valid() && r == SchemaDecode(m, limit, d, tlvCount)
      ensures r.Read? ==> Carry(ds, r.nodes) && Gave(old(Now()), ds, Now())
      ensures r.Read? ==> Different(TlvsOf(ds)) && (Different(NodesOf(ds)) <==> NodeCount(r.nodes) <= nodeCount)
    {
      hide ReadLevel, RootLink;
      RootIsLevel(d);
      r, ds := ReadAll(m, limit, BerSchema.Some(RootSpec(d)), RootLevel(d), 0);
      if r.Read? {
        r := r.(level := Level([RootLink(d, r)], 0, BerSchema.None));
        NothingAliased(m, limit, d, ds, tlvCount, nodeCount, old(freeTlvs), old(freeNodes));
      }
    }
  }

  lemma EndOfLevel(m: seq<byte>, limit: nat, p: nat, d: BerSchema.Option<Spec>, s: Level, used: nat, pool: nat)
    requires OnLevel(d, s) && p >= limit
    ensures ReadLevel(m, limit, p, d, s, used, pool) == Read([], s, used)
  {
  }

  lemma LevelHalts(m: seq<byte>, limit: nat, p: nat, d: BerSchema.Option<Spec>, s: Level, used: nat, pool: nat)
    requires OnLevel(d, s) && p < limit
    ensures used + 1 > pool ==> ReadLevel(m, limit, p, d, s, used, pool) == Bad(400)
    ensures used + 1 <= pool ==>
      match HeaderAt(m, limit, p)
      case NoHeader => ReadLevel(m, limit, p, d, s, used, pool) == Lost
      case BadHeader(code) => ReadLevel(m, limit, p, d, s, used, pool) == Bad(code)
      case Header(_, _, _, _, _, v, n, _) => v + n > |m| ==> ReadLevel(m, limit, p, d, s, used, pool) == Lost
  {
    hide HeaderAt, LinkAny, ReadInside, OnLevel;
  }

  // ---------------------------------------------------------------- one decode

  /** The nodes of the trees decoded. */
  function NodeCount(ks: seq<Kept>): nat {
    if ks == [] then 0 else 1 + NodeCount(ks[0].kids) + NodeCount(ks[1..])
  }

  lemma CountFirst(k: Kept, ks: seq<Kept>)
    ensures NodeCount([k] + ks) == 1 + NodeCount(k.kids) + NodeCount(ks)
  {
    assert ([k] + ks)[1..] == ks;
  }

  /** A decode that succeeds has counted every node it returns, and kept within the pool. */
  lemma {:induction false} ReadCounts(m: seq<byte>, limit: nat, p: nat, d: BerSchema.Option<Spec>, s: Level, used: nat, pool: nat)
    requires OnLevel(d, s) && ReadLevel(m, limit, p, d, s, used, pool).Read? && used <= pool
    ensures var r := ReadLevel(m, limit, p, d, s, used, pool); r.used == used + NodeCount(r.nodes) && r.used <= pool
    decreases limit, 0, if p <= limit then limit - p else 0
  {
    hide HeaderAt, LinkAny, ReadInside, OnLevel;
    if p < limit {
      var h := HeaderAt(m, limit, p);
      var octets := m[h.value..h.value + h.length];
      var s1 := LinkAny(d, s, Unread(h.cls, h.tag, h.constructed, octets));
      ReadStep(m, limit, p, d, s, used, pool);
      hide ReadLevel;
      if h.constructed {
        InsideCounts(m[h.value..], h.length, d, s1, used + 1, pool);
        var r := ReadInside(m[h.value..], h.length, d, s1, used + 1, pool);
        ReadCounts(m, limit, h.next, d, r.level, r.used, pool);
        CountFirst(Keep(h, octets, r.nodes), ReadLevel(m, limit, h.next, d, r.level, r.used, pool).nodes);
      } else {
        ReadCounts(m, limit, h.next, d, s1, used + 1, pool);
        CountFirst(Keep(h, octets, []), ReadLevel(m, limit, h.next, d, s1, used + 1, pool).nodes);
      }
    }
  }

  lemma {:induction false} InsideCounts(m: seq<byte>, limit: nat, d: BerSchema.Option<Spec>, s: Level, used: nat, pool: nat)
    requires OnLevel(d, s) && ReadInside(m, limit, d, s, used, pool).Read? && used <= pool
    ensures var r := ReadInside(m, limit, d, s, used, pool); r.used == used + NodeCount(r.nodes) && r.used <= pool
    decreases limit, 1, 0
  {
    hide ReadLevel, NodeCount;
    if d.None? || s.found.None? || Inner(ChildSpec(d.value, s.found.value), s.kids[s.found.value]).None? {
      ReadCounts(m, limit, 0, BerSchema.None, Level([], 0, BerSchema.None), used, pool);
    } else {
      var e, l := ChildSpec(d.value, s.found.value), s.kids[s.found.value];
      ReadCounts(m, limit, 0, BerSchema.Some(Inner(e, l).value), Level(InnerLink(e, l).kids, 0, BerSchema.None), used, pool);
    }
  }

  lemma {:induction false} CarryCounts(ds: seq<Drawn>, ks: seq<Kept>)
    requires Carry(ds, ks)
    ensures |TlvsOf(ds)| == |NodesOf(ds)| == NodeCount(ks)
    decreases ks
  {
    if ds != [] {
      assert CarryOne(ds[0], ks[0]);
      CarryCounts(ds[0].below, ks[0].kids);
      assert forall i :: 0 <= i < |ds| - 1 ==> CarryOne(ds[1..][i], ks[1..][i]);
      CarryCounts(ds[1..], ks[1..]);
    }
  }

  /** The nodes of one decode that succeeds, in the entries the pools gave for them: no entry
      holds two TLVs, wherever in its round the pool stood, and none holds two nodes exactly if
      the pool has as many entries as there are nodes. */
  lemma NothingAliased(m: seq<byte>, limit: nat, d: Spec, ds: seq<Drawn>, tlvs: nat, nodes: nat, freeTlvs: nat, freeNodes: nat)
    requires Sound(d) && SchemaDecode(m, limit, d, tlvs).Read? && Carry(ds, SchemaDecode(m, limit, d, tlvs).nodes)
    requires 1 <= freeTlvs <= tlvs && TlvsOf(ds) == Requests(tlvs, freeTlvs, |TlvsOf(ds)|)
    requires 1 <= freeNodes <= nodes && NodesOf(ds) == Requests(nodes, freeNodes, |NodesOf(ds)|)
    ensures |TlvsOf(ds)| == |NodesOf(ds)| == NodeCount(SchemaDecode(m, limit, d, tlvs).nodes)
    ensures Different(TlvsOf(ds)) && (Different(NodesOf(ds)) <==> NodeCount(SchemaDecode(m, limit, d, tlvs).nodes) <= nodes)
  {
    hide ReadLevel, RootLink, Requests, Different;
    RootIsLevel(d);
    ReadCounts(m, limit, 0, BerSchema.Some(RootSpec(d)), RootLevel(d), 0, tlvs);
    var ks := SchemaDecode(m, limit, d, tlvs).nodes;
    CarryCounts(ds, ks);
    RequestsDiffer(tlvs, freeTlvs, |TlvsOf(ds)|);
    RequestsDiffer(nodes, freeNodes, |NodesOf(ds)|);
  }
}
