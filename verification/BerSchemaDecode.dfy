/** _decode with a definition: reading and matching TLV by TLV, with one counter for all nodes
    of the message. */
module BerSchemaDecode {
  import opened BerOctets
  import opened BerTlv
  import opened BerDecode
  import opened BerHollow
  import opened BerSchema
  import opened BerSchemaRoundTrip

  /** A decoded node with its TLV: the octets its identifier and length took, its length, what
      its parent is to count for it, its contents, and the nodes below. */
  datatype Kept = Kept(cls: TagClass, constructed: bool, tag: nat, tagSize: nat, len: nat, lenSize: nat, oldLen: nat,
                       octets: seq<byte>, kids: seq<Kept>)

  /** What a decoded node means. */
  function Plain(k: Kept): Tlv {
    if k.constructed then Constructed(k.cls, k.tag, Plains(k.kids)) else Primitive(k.cls, k.tag, k.octets)
  }

  function Plains(ks: seq<Kept>): (ts: seq<Tlv>)
    ensures |ts| == |ks|
  {
    if ks == [] then [] else [Plain(ks[0])] + Plains(ks[1..])
  }

  /** The nodes read, what is linked on the level, and the pool entries used so far; or an error
      number; or reading beyond the buffer. */
  datatype Read = Read(nodes: seq<Kept>, level: Level, used: nat) | Bad(code: nat) | Lost

  /** The node of the definition that contents belong to: the alternative selected of a CHOICE. */
  function Inner(c: Spec, l: Link): BerSchema.Option<Spec>
    requires Shaped(c, l)
  {
    if !IsChoice(c) then BerSchema.Some(c)
    else if l.selection.Some? then BerSchema.Some(c.children[l.selection.value])
    else BerSchema.None
  }

  function InnerLink(c: Spec, l: Link): (r: Link)
    requires Shaped(c, l) && Inner(c, l).Some?
    ensures Shaped(Inner(c, l).value, r)
  {
    if !IsChoice(c) then l
    else
      assert Shaped(ChildSpec(c, l.selection.value), l.kids[l.selection.value]);
      l.kids[l.selection.value]
  }

  function PutInner(c: Spec, l: Link, kids: seq<Link>): (r: Link)
    requires Shaped(c, l) && Inner(c, l).Some?
  {
    if !IsChoice(c) then l.(kids := kids)
    else var a := l.selection.value; l.(kids := l.kids[a := l.kids[a].(kids := kids)])
  }

  /** A node as it is linked before its contents are read. */
  function Unread(cls: TagClass, tag: nat, constructed: bool, octets: seq<byte>): Tlv {
    if constructed then Constructed(cls, tag, []) else Primitive(cls, tag, octets)
  }

  /** Search and link for one TLV, its contents aside. */
  function LinkOne(d: Spec, s: Level, t: Tlv): (r: Level)
    requires InLevel(d, s)
    ensures InLevel(d, r)
  {
    var r := Search(d, s, t.cls, t.tag);
    if r.found.None? || !Searches(d, s) then r
    else r.(kids := r.kids[r.found.value := LinkTo(ChildSpec(d, r.found.value), r.kids[r.found.value], t)])
  }

  predicate OnLevel(d: BerSchema.Option<Spec>, s: Level) {
    d.Some? ==> InLevel(d.value, s)
  }

  function LinkAny(d: BerSchema.Option<Spec>, s: Level, t: Tlv): (r: Level)
    requires OnLevel(d, s)
    ensures OnLevel(d, r)
  {
    if d.Some? then LinkOne(d.value, s, t) else s
  }

  /** The loop of _decode on one level. Without a definition d nothing is linked. */
  function ReadLevel(m: seq<byte>, limit: nat, p: nat, d: BerSchema.Option<Spec>, s: Level, used: nat, pool: nat): (r: Read)
    requires OnLevel(d, s)
    ensures r.Read? ==> OnLevel(d, r.level)
    decreases limit, 0, if p <= limit then limit - p else 0
  {
    if p >= limit then Read([], s, used)
    else if used + 1 > pool then Bad(400)
    else
      match HeaderAt(m, limit, p)
      case NoHeader => Lost
      case BadHeader(code) => Bad(code)
      case Header(c, constructed, t, _, _, v, n, next) =>
        if v + n > |m| then Lost
        else
          var node := Keep(HeaderAt(m, limit, p), m[v..v + n], []);
          var s1 := LinkAny(d, s, Unread(c, t, constructed, m[v..v + n]));
          if !constructed then Then(node, ReadLevel(m, limit, next, d, s1, used + 1, pool))
          else
            match ReadInside(m[v..], n, d, s1, used + 1, pool)
            case Read(kids, s2, used') => Then(node.(kids := kids), ReadLevel(m, limit, next, d, s2, used', pool))
            case Bad(code) => Bad(code)
            case Lost => Lost
  }

  /** The contents of a TLV, for the node of the definition found for it, if any. */
  function ReadInside(m: seq<byte>, limit: nat, d: BerSchema.Option<Spec>, s: Level, used: nat, pool: nat): (r: Read)
    requires OnLevel(d, s)
    ensures r.Read? ==> OnLevel(d, r.level)
    decreases limit, 1, 0
  {
    if d.None? || s.found.None? || Inner(ChildSpec(d.value, s.found.value), s.kids[s.found.value]).None? then
      match ReadLevel(m, limit, 0, BerSchema.None, Level([], 0, BerSchema.None), used, pool)
      case Read(kids, _, used') => Read(kids, s, used')
      case Bad(code) => Bad(code)
      case Lost => Lost
    else
      var j := s.found.value;
      var e, l := ChildSpec(d.value, j), s.kids[j];
      match ReadLevel(m, limit, 0, BerSchema.Some(Inner(e, l).value), Level(InnerLink(e, l).kids, 0, BerSchema.None), used, pool)
      case Read(kids, level, used') =>
        PutInnerShaped(e, l, level);
        Read(kids, s.(kids := s.kids[j := PutInner(e, l, level.kids)]), used')
      case Bad(code) => Bad(code)
      case Lost => Lost
  }

  /** The fields _decode sets, among them old_value_length. */
  function Keep(h: Header, octets: seq<byte>, kids: seq<Kept>): Kept
    requires h.Header?
  {
    Kept(h.cls, h.constructed, h.tag, h.tagSize, h.length, h.lenSize, h.lenSize + h.length, octets, kids)
  }

  function Then(node: Kept, rest: Read): Read {
    if rest.Read? then rest.(nodes := [node] + rest.nodes) else rest
  }

  lemma PutInnerShaped(c: Spec, l: Link, level: Level)
    requires Shaped(c, l) && Inner(c, l).Some? && InLevel(Inner(c, l).value, level)
    ensures Shaped(c, PutInner(c, l, level.kids))
  {
  }

  /** decode: the level of a CHOICE is the CHOICE itself, any other root is put under a node of
      its own. The one link of the result is that of the root. */
  function SchemaDecode(m: seq<byte>, limit: nat, d: Spec, pool: nat): Read
    requires Sound(d)
  {
    RootIsLevel(d);
    var r := ReadLevel(m, limit, 0, BerSchema.Some(RootSpec(d)), RootLevel(d), 0, pool);
    if r.Read? then r.(level := Level([RootLink(d, r)], 0, BerSchema.None)) else r
  }

  function RootSpec(d: Spec): Spec {
    if IsChoice(d) then d else Above(d)
  }

  function RootLevel(d: Spec): Level {
    Level(if IsChoice(d) then Fresh(d).kids else [Fresh(d)], 0, BerSchema.None)
  }

  lemma RootIsLevel(d: Spec)
    requires Sound(d)
    ensures InLevel(RootSpec(d), RootLevel(d))
  {
    FreshIsShaped(d);
  }

  /** What becomes of the root of the definition. */
  function RootLink(d: Spec, r: Read): Link
    requires Sound(d) && r.Read? && OnLevel(BerSchema.Some(RootSpec(d)), r.level)
  {
    RootIsLevel(d);
    if IsChoice(d) then ChoiceRoot(r.level.kids, Chosen(d, RootLevel(d), Plains(r.nodes), BerSchema.None))
    else r.level.kids[0]
  }

  // ---------------------------------------------------------------- reading, then matching

  function Total(ts: seq<Tlv>): nat {
    if ts == [] then 0 else 1 + (if ts[0].Constructed? then Total(ts[0].children) else 0) + Total(ts[1..])
  }

  /** What matching the contents adds to a level. */
  function MatchInside(d: Spec, s: Level, ts: seq<Tlv>): (r: Level)
    requires InLevel(d, s)
    ensures InLevel(d, r)
  {
    if s.found.None? then s
    else s.(kids := s.kids[s.found.value := Descend(ChildSpec(d, s.found.value), s.kids[s.found.value], ts)])
  }

  /** Matching a TLV is linking it, then matching what is inside. */
  lemma OneByParts(d: Spec, s: Level, t: Tlv)
    requires InLevel(d, s)
    ensures var s1 := LinkOne(d, s, Unread(t.cls, t.tag, t.Constructed?, if t.Primitive? then t.contents else []));
            MatchOne(d, s, t) == if t.Primitive? then s1 else MatchInside(d, s1, t.children)
  {
    hide Descend;
  }

  lemma InsideByParts(c: Spec, l: Link, ts: seq<Tlv>)
    requires Shaped(c, l)
    ensures Descend(c, l, ts) ==
            if Inner(c, l).None? then l
            else PutInner(c, l, MatchAll(Inner(c, l).value, Level(InnerLink(c, l).kids, 0, BerSchema.None), ts).kids)
  {
    hide MatchAll;
  }

  function MatchAny(d: BerSchema.Option<Spec>, s: Level, ts: seq<Tlv>): (r: Level)
    requires OnLevel(d, s)
    ensures OnLevel(d, r)
  {
    if d.Some? then MatchAll(d.value, s, ts) else s
  }

  function InsideAny(d: BerSchema.Option<Spec>, s: Level, ts: seq<Tlv>): (r: Level)
    requires OnLevel(d, s)
    ensures OnLevel(d, r)
  {
    if d.Some? then MatchInside(d.value, s, ts) else s
  }

  /** What reading the TLVs ts comes to: they are matched if the pool has entries for them. */
  predicate Expected(r: Read, d: BerSchema.Option<Spec>, s: Level, ts: seq<Tlv>, used: nat, pool: nat)
    requires OnLevel(d, s)
  {
    if used + Total(ts) <= pool then r.Read? && Plains(r.nodes) == ts && r.level == MatchAny(d, s, ts) && r.used == used + Total(ts)
    else r == Bad(400)
  }

  /** The same of one node in front of the others. */
  lemma ThenExpected(k: Kept, r: Read, d: BerSchema.Option<Spec>, s: Level, s': Level, un: Tlv, rest: seq<Tlv>,
                     used: nat, pool: nat)
    requires OnLevel(d, s) && OnLevel(d, s')
    requires var node := Plain(k);
             && un == Unread(node.cls, node.tag, node.Constructed?, if un.Primitive? then un.contents else [])
             && (node.Primitive? ==> un == node && s' == LinkAny(d, s, un))
             && (node.Constructed? ==> s' == InsideAny(d, LinkAny(d, s, un), node.children))
             && Expected(r, d, s', rest, used + Total([node]), pool)
    ensures Expected(Then(k, r), d, s, [Plain(k)] + rest, used, pool)
  {
    AnyByParts(d, s, Plain(k), un, rest);
    TotalCons(Plain(k), rest);
    TotalCons(Plain(k), []);
    hide Total, MatchAny, LinkAny, InsideAny;
    if r.Read? { assert Plains([k] + r.nodes) == [Plain(k)] + Plains(r.nodes) by { assert ([k] + r.nodes)[1..] == r.nodes; } }
  }

  lemma TooMany(d: BerSchema.Option<Spec>, s: Level, node: Tlv, rest: seq<Tlv>, used: nat, pool: nat)
    requires OnLevel(d, s) && used + Total([node]) > pool
    ensures Expected(Bad(400), d, s, [node] + rest, used, pool)
  {
    TotalCons(node, rest);
    TotalCons(node, []);
  }

  /** The counter runs through the whole message; whatever is read is matched as it comes. */
  lemma {:induction false} ReadIsMatch(m: seq<byte>, limit: nat, p: nat, d: BerSchema.Option<Spec>, s: Level, used: nat, pool: nat,
                                       big: nat, used0: nat)
    requires OnLevel(d, s) && used <= pool && DecodeFrom(m, limit, p, big, used0).Forest?
    ensures Expected(ReadLevel(m, limit, p, d, s, used, pool), d, s, DecodeFrom(m, limit, p, big, used0).nodes, used, pool)
    decreases limit, 0, if p <= limit then limit - p else 0
  {
    hide HeaderAt, MatchAny, LinkAny, InsideAny, ReadInside, OnLevel, DecodeFrom, ReadLevel, Expected, Total, Prepend;
    if p >= limit || used + 1 > pool { EndsHere(m, limit, p, d, s, used, pool, big, used0); }
    if p >= limit { return; }
    var node, next := NodeOf(m, limit, p, big, used0);
    var rest := DecodeFrom(m, limit, next, big, used0 + 1).nodes;
    var h := HeaderAt(m, limit, p);
    var octets := m[h.value..h.value + h.length];
    var un := Unread(h.cls, h.tag, h.constructed, octets);
    TotalOne(node);
    if used + 1 > pool {
      TooMany(d, s, node, rest, used, pool);
      return;
    }
    var s1 := LinkAny(d, s, un);
    ReadStep(m, limit, p, d, s, used, pool);
    if h.constructed {
      InsideIsMatch(m[h.value..], h.length, d, s1, used + 1, pool, big);
      var used' := used + Total([node]);
      if used' > pool {
        TooMany(d, s, node, rest, used, pool);
        return;
      }
      var inside := ReadInside(m[h.value..], h.length, d, s1, used + 1, pool);
      ReadIsMatch(m, limit, next, d, inside.level, used', pool, big, used0 + 1);
      ThenExpected(Keep(h, octets, inside.nodes), ReadLevel(m, limit, next, d, inside.level, used', pool), d, s, inside.level, un,
                   rest, used, pool);
    } else {
      ReadIsMatch(m, limit, next, d, s1, used + 1, pool, big, used0 + 1);
      ThenExpected(Keep(h, octets, []), ReadLevel(m, limit, next, d, s1, used + 1, pool), d, s, s1, un, rest, used, pool);
    }
  }

  /** The loop ends, or the pool has no entry left. */
  lemma EndsHere(m: seq<byte>, limit: nat, p: nat, d: BerSchema.Option<Spec>, s: Level, used: nat, pool: nat, big: nat, used0: nat)
    requires OnLevel(d, s) && used <= pool && DecodeFrom(m, limit, p, big, used0).Forest?
    ensures p >= limit ==>
              Expected(ReadLevel(m, limit, p, d, s, used, pool), d, s, DecodeFrom(m, limit, p, big, used0).nodes, used, pool)
    ensures p < limit && used + 1 > pool ==> ReadLevel(m, limit, p, d, s, used, pool) == Bad(400)
  {
    hide HeaderAt, LinkAny, ReadInside, OnLevel, MatchAny;
    NothingMatched(d, s);
  }

  /** One turn of the loop. */
  lemma ReadStep(m: seq<byte>, limit: nat, p: nat, d: BerSchema.Option<Spec>, s: Level, used: nat, pool: nat)
    requires OnLevel(d, s) && p < limit && used + 1 <= pool
    requires HeaderAt(m, limit, p).Header? && HeaderAt(m, limit, p).value + HeaderAt(m, limit, p).length <= |m|
    ensures var h := HeaderAt(m, limit, p);
            var octets := m[h.value..h.value + h.length];
            var s1 := LinkAny(d, s, Unread(h.cls, h.tag, h.constructed, octets));
            var inside := ReadInside(m[h.value..], h.length, d, s1, used + 1, pool);
            ReadLevel(m, limit, p, d, s, used, pool) ==
            if !h.constructed then Then(Keep(h, octets, []), ReadLevel(m, limit, h.next, d, s1, used + 1, pool))
            else if inside.Read? then
              Then(Keep(h, octets, inside.nodes), ReadLevel(m, limit, h.next, d, inside.level, inside.used, pool))
            else inside
  {
    hide HeaderAt, LinkAny, ReadInside, OnLevel;
  }

  lemma TotalOne(t: Tlv)
    ensures Total([t]) == 1 + if t.Constructed? then Total(t.children) else 0
  {
    TotalCons(t, []);
    assert [t] + [] == [t];
  }

  lemma NothingMatched(d: BerSchema.Option<Spec>, s: Level)
    requires OnLevel(d, s)
    ensures MatchAny(d, s, []) == s
  {
  }

  lemma AnyByParts(d: BerSchema.Option<Spec>, s: Level, node: Tlv, un: Tlv, rest: seq<Tlv>)
    requires OnLevel(d, s)
    requires un == Unread(node.cls, node.tag, node.Constructed?, if un.Primitive? then un.contents else [])
    requires node.Primitive? ==> un == node
    ensures MatchAny(d, s, [node] + rest) ==
            MatchAny(d, if node.Primitive? then LinkAny(d, s, un) else InsideAny(d, LinkAny(d, s, un), node.children), rest)
  {
    if d.Some? {
      MatchMore(d.value, s, node, rest);
      UnreadSame(d.value, s, node, un);
    }
  }

  lemma TotalCons(t: Tlv, ts: seq<Tlv>)
    ensures Total([t] + ts) == 1 + (if t.Constructed? then Total(t.children) else 0) + Total(ts)
  {
    assert ([t] + ts)[1..] == ts;
  }

  /** The node decoded at an offset, from its header. */
  lemma NodeOf(m: seq<byte>, limit: nat, p: nat, big: nat, used0: nat) returns (node: Tlv, next: nat)
    requires p < limit && DecodeFrom(m, limit, p, big, used0).Forest?
    ensures var h := HeaderAt(m, limit, p);
            && h.Header? && h.value + h.length <= |m| && next == h.next
            && DecodeFrom(m, limit, next, big, used0 + 1).Forest?
            && DecodeFrom(m, limit, p, big, used0).nodes == [node] + DecodeFrom(m, limit, next, big, used0 + 1).nodes
            && (h.constructed ==>
                  DecodeFrom(m[h.value..], h.length, 0, big, 0).Forest?
                  && node == Constructed(h.cls, h.tag, DecodeFrom(m[h.value..], h.length, 0, big, 0).nodes))
            && (!h.constructed ==> node == Primitive(h.cls, h.tag, m[h.value..h.value + h.length]))
  {
    hide HeaderAt;
    node, next := NodeAt(m, limit, p, big).node, HeaderAt(m, limit, p).next;
  }

  lemma UnreadSame(d: Spec, s: Level, node: Tlv, un: Tlv)
    requires InLevel(d, s)
    requires un == Unread(node.cls, node.tag, node.Constructed?, if un.Primitive? then un.contents else [])
    requires node.Primitive? ==> un == node
    ensures MatchOne(d, s, node) == if node.Primitive? then LinkOne(d, s, un) else MatchInside(d, LinkOne(d, s, un), node.children)
  {
    hide MatchOne, LinkOne, MatchInside, InLevel;
    OneByParts(d, s, node);
  }

  lemma {:induction false} InsideIsMatch(m: seq<byte>, limit: nat, d: BerSchema.Option<Spec>, s: Level, used: nat, pool: nat, big: nat)
    requires OnLevel(d, s) && used <= pool && DecodeFrom(m, limit, 0, big, 0).Forest?
    ensures var ts := DecodeFrom(m, limit, 0, big, 0).nodes;
            var r := ReadInside(m, limit, d, s, used, pool);
            if used + Total(ts) <= pool then
              r.Read? && Plains(r.nodes) == ts && r.level == InsideAny(d, s, ts) && r.used == used + Total(ts)
            else r == Bad(400)
    decreases limit, 1, 0
  {
    hide DecodeFrom, ReadLevel, MatchAll;
    if d.None? || s.found.None? || Inner(ChildSpec(d.value, s.found.value), s.kids[s.found.value]).None? {
      ReadIsMatch(m, limit, 0, BerSchema.None, Level([], 0, BerSchema.None), used, pool, big, 0);
    } else {
      var j := s.found.value;
      var e, l := ChildSpec(d.value, j), s.kids[j];
      ReadIsMatch(m, limit, 0, BerSchema.Some(Inner(e, l).value), Level(InnerLink(e, l).kids, 0, BerSchema.None), used, pool, big, 0);
    }
    if d.Some? && s.found.Some? {
      InsideByParts(ChildSpec(d.value, s.found.value), s.kids[s.found.value], DecodeFrom(m, limit, 0, big, 0).nodes);
    }
  }

  // ---------------------------------------------------------------- the round trip

  lemma {:induction false} TotalFits(ts: seq<Tlv>, pool: nat)
    requires Total(ts) <= pool
    ensures TlvLevelsFit(ts, pool)
    decreases ts
  {
    if ts != [] {
      TotalFits(ts[1..], pool);
      if ts[0].Constructed? { TotalFits(ts[0].children, pool); }
      TotalLength(ts);
      forall i | 0 <= i < |ts| && ts[i].Constructed? ensures TlvLevelsFit(ts[i].children, pool) {
        if i > 0 { assert ts[i] == ts[1..][i - 1]; }
      }
    }
  }

  lemma {:induction false} TotalLength(ts: seq<Tlv>)
    ensures |ts| <= Total(ts)
  {
    if ts != [] { TotalLength(ts[1..]); }
  }

  lemma {:induction false} FormedFit(es: seq<Formed>, pool: nat)
    requires TlvLevelsFit(Meanings(es), pool)
    ensures LevelsFit(es, pool)
  {
    forall i | 0 <= i < |es| && es[i].FConstructed? ensures LevelsFit(es[i].children, pool) {
      MeaningsAt(es, i);
      FormedFit(es[i].children, pool);
    }
  }

  /** The node made of an element in the message. */
  function KeptOf(e: Formed): Kept {
    var k, n := |FormOctets(e.form, |Contents(e)|)|, |Contents(e)|;
    Kept(e.cls, e.FConstructed?, TagReadBack(e.tag), TagSize(e.tag), n, k, k + n, Contents(e),
         if e.FConstructed? then KeptAll(e.children) else [])
  }

  function KeptAll(es: seq<Formed>): (ks: seq<Kept>)
    ensures |ks| == |es|
  {
    if es == [] then [] else [KeptOf(es[0])] + KeptAll(es[1..])
  }

  /** Every node keeps the octet counts with which it arrived. */
  lemma {:induction false} ReadKeeps(es: seq<Formed>, m: seq<byte>, limit: nat, p: nat, d: BerSchema.Option<Spec>, s: Level,
                                     used: nat, pool: nat)
    requires AllReadable(es) && Settled(es) && Laid(es, m, limit, p, limit)
    requires OnLevel(d, s) && ReadLevel(m, limit, p, d, s, used, pool).Read?
    ensures ReadLevel(m, limit, p, d, s, used, pool).nodes == KeptAll(es)
    decreases es, 0
  {
    hide HeaderAt, LinkAny, ReadInside, OnLevel, Laid, Bytes, KeptOf, Holds;
    if es == [] {
      NothingLaid(m, limit, p);
      return;
    }
    var e, more := es[0], es[1..];
    HeaderFirst(es, m, limit, p);
    ContentsLaid(e, m, p);
    var h := HeaderAt(m, limit, p);
    assert h == HeaderOf(e, p);
    var s1 := LinkAny(d, s, Unread(h.cls, h.tag, h.constructed, m[h.value..h.value + h.length]));
    ReadStep(m, limit, p, d, s, used, pool);
    HeaderKept(e, p);
    InsideReadable(es);
    hide ReadLevel, HeaderOf, Settled, AllReadable, ReadInside, Keep, Sparse, Contents;
    if e.FConstructed? {
      InsideKeeps(e.children, m[h.value..], h.length, d, s1, used + 1, pool);
      var r := ReadInside(m[h.value..], h.length, d, s1, used + 1, pool);
      ReadKeeps(more, m, limit, h.next, d, r.level, r.used, pool);
    } else {
      ReadKeeps(more, m, limit, h.next, d, s1, used + 1, pool);
    }
  }

  lemma InsideReadable(es: seq<Formed>)
    requires es != [] && AllReadable(es) && Settled(es)
    ensures AllReadable(es[1..]) && Settled(es[1..])
    ensures es[0].FConstructed? ==> AllReadable(es[0].children) && Settled(es[0].children)
  {
    assert Readable(es[0]) && Legible(es[0]);
  }

  lemma NothingLaid(m: seq<byte>, limit: nat, p: nat)
    requires Laid([], m, limit, p, limit)
    ensures p >= limit
  {
  }

  lemma HeaderKept(e: Formed, p: nat)
    ensures HeaderOf(e, p).length == |Contents(e)| && HeaderOf(e, p).next == p + |Bytes(e)|
    ensures HeaderOf(e, p).constructed == e.FConstructed?
    ensures KeptOf(e) == Keep(HeaderOf(e, p), Contents(e), if e.FConstructed? then KeptAll(e.children) else [])
  {
  }

  lemma {:induction false} InsideKeeps(es: seq<Formed>, m: seq<byte>, limit: nat, d: BerSchema.Option<Spec>, s: Level,
                                       used: nat, pool: nat)
    requires AllReadable(es) && Settled(es) && Laid(es, m, limit, 0, limit)
    requires OnLevel(d, s) && ReadInside(m, limit, d, s, used, pool).Read?
    ensures ReadInside(m, limit, d, s, used, pool).nodes == KeptAll(es)
    decreases es, 1
  {
    hide ReadLevel, Laid, KeptAll, Settled, AllReadable;
    if d.None? || s.found.None? || Inner(ChildSpec(d.value, s.found.value), s.kids[s.found.value]).None? {
      ReadKeeps(es, m, limit, 0, BerSchema.None, Level([], 0, BerSchema.None), used, pool);
    } else {
      var e, l := ChildSpec(d.value, s.found.value), s.kids[s.found.value];
      ReadKeeps(es, m, limit, 0, BerSchema.Some(Inner(e, l).value), Level(InnerLink(e, l).kids, 0, BerSchema.None), used, pool);
    }
  }

  /** Decoding with a fresh definition a message that means what was linked, in whatever length
      forms, links what was linked, if every tag number is at most 127; it succeeds exactly if
      the message has no more nodes than the pool. */
  lemma SchemaReads(d: Spec, l: Link, es: seq<Formed>, rest: seq<byte>, pool: nat)
    requires Sound(d) && Shaped(d, l) && Complete(d, l) && Distinguished(d)
    requires Meanings(es) == Tlvs(d, l) && AllSmallTags(Tlvs(d, l))
    requires AllReadable(es) && Settled(es) && Sparse(es)
    ensures var ts, r := Tlvs(d, l), SchemaDecode(AllBytes(es) + rest, |AllBytes(es)|, d, pool);
            if Total(ts) <= pool then
              r.Read? && r.nodes == KeptAll(es) && Plains(r.nodes) == ts && r.used == Total(ts) && r.level.kids == [Packed(d, l)]
            else r == Bad(400)
  {
    hide MatchAll, Tlvs, Complete, Distinguished, Shaped, Packed, DecodeFrom, ReadLevel, Settled, Sparse, AllReadable, AllBytes;
    var ts, m, n := Tlvs(d, l), AllBytes(es) + rest, |AllBytes(es)|;
    TotalFits(ts, Total(ts));
    FormedFit(es, Total(ts));
    DecodeReads(es, m, n, 0, Total(ts), 0);
    AllRereadIsIdentity(ts);
    RootIsLevel(d);
    RootMatched(d, ts);
    ReadIsMatch(m, n, 0, BerSchema.Some(RootSpec(d)), RootLevel(d), 0, pool, Total(ts), 0);
    MessageBack(d, l);
    if Total(ts) <= pool { ReadKeeps(es, m, n, 0, BerSchema.Some(RootSpec(d)), RootLevel(d), 0, pool); }
  }

  lemma RootMatched(d: Spec, ts: seq<Tlv>)
    requires Sound(d) && InLevel(RootSpec(d), RootLevel(d))
    ensures InLevel(RootSpec(d), MatchAll(RootSpec(d), RootLevel(d), ts))
    ensures MatchRoot(d, ts) ==
            if IsChoice(d) then
              ChoiceRoot(MatchAll(d, RootLevel(d), ts).kids, Chosen(d, RootLevel(d), ts, BerSchema.None))
            else MatchAll(RootSpec(d), RootLevel(d), ts).kids[0]
  {
    hide MatchAll, Chosen;
    FreshIsShaped(d);
  }
}
