/** How a decoder with a definition assigns the TLVs it reads to the nodes of the definition. */
module BerSchema {
  import opened BerOctets
  import opened BerTlv

  const CHOICE: nat := 0xff
  const SET: nat := 0x11

  datatype Option<+T> = None | Some(value: T)

  /** A node of a definition: a node without a tag of its own has tag -1; a SEQUENCE OF or SET
      OF (unlimited_size) has the one child all its elements are like. */
  datatype Spec = Spec(uni: nat, tag: int, cls: TagClass, unlimited: bool, children: seq<Spec>)

  /** Whether a node is linked in the session, to octets or to a constructed TLV. */
  datatype Here = Out | Data(octets: seq<byte>) | Inside

  /** A definition with what is linked in it. */
  datatype Link = Link(here: Here, kids: seq<Link>, selection: Option<nat>)

  predicate IsChoice(d: Spec) {
    d.tag == -1 && d.uni == CHOICE
  }

  function ChildSpec(d: Spec, j: nat): Spec
    requires d.unlimited ==> d.children != []
    requires !d.unlimited ==> j < |d.children|
  {
    if d.unlimited then d.children[0] else d.children[j]
  }

  /** Children of unlimited nodes are alike; a CHOICE has no tag, and lists alternatives that are
      no CHOICEs. */
  predicate Sound(d: Spec) {
    && (d.uni == CHOICE ==> d.tag == -1)
    && (d.unlimited ==> |d.children| == 1)
    && (IsChoice(d) ==> !d.unlimited && d.children != [] && forall i :: 0 <= i < |d.children| ==> !IsChoice(d.children[i]))
    && forall i :: 0 <= i < |d.children| ==> Sound(d.children[i])
  }

  function Fresh(d: Spec): (l: Link)
    ensures l.here == Out && l.selection == None
    ensures |l.kids| == if d.unlimited then 0 else |d.children|
  {
    Link(Out, if d.unlimited then [] else seq(|d.children|, i requires 0 <= i < |d.children| => Fresh(d.children[i])), None)
  }

  // ---------------------------------------------------------------- matching

  predicate Answers(d: Spec, cls: TagClass, tag: nat) {
    if d.tag == -1 then cls == Universal && tag == d.uni else cls == d.cls && tag == d.tag
  }

  /** resolve_CHOICE: the first alternative with the tag; the end if there is none. */
  function Alternative(ds: seq<Spec>, cls: TagClass, tag: nat): (a: nat)
    ensures a <= |ds| && (a < |ds| ==> Answers(ds[a], cls, tag))
    ensures forall i :: 0 <= i < a ==> !Answers(ds[i], cls, tag)
  {
    if ds == [] || Answers(ds[0], cls, tag) then 0 else 1 + Alternative(ds[1..], cls, tag)
  }

  predicate Takes(d: Spec, cls: TagClass, tag: nat) {
    if IsChoice(d) then Alternative(d.children, cls, tag) < |d.children| else Answers(d, cls, tag)
  }

  /** The first child from the j-th on that takes the tag. */
  function Scan(ds: seq<Spec>, j: nat, cls: TagClass, tag: nat): (k: nat)
    requires j <= |ds|
    ensures j <= k <= |ds| && (k < |ds| ==> Takes(ds[k], cls, tag))
    ensures forall i :: j <= i < k ==> !Takes(ds[i], cls, tag)
    decreases |ds| - j
  {
    if j == |ds| || Takes(ds[j], cls, tag) then j else Scan(ds, j + 1, cls, tag)
  }

  /** The loop over one level: what is linked, where the search starts, and the child the last
      search found, which lives on when there is nothing left to search. */
  datatype Level = Level(kids: seq<Link>, next: nat, found: Option<nat>)

  predicate InLevel(d: Spec, s: Level) {
    && Sound(d) && (d.unlimited || |s.kids| == |d.children|)
    && s.next <= |s.kids| && (s.found.Some? ==> s.found.value < |s.kids|)
    && forall j :: 0 <= j < |s.kids| ==> Shaped(ChildSpec(d, j), s.kids[j])
  }

  /** A link has the kids its node has. */
  predicate Shaped(d: Spec, l: Link)
    decreases l
  {
    && Sound(d) && (d.unlimited || |l.kids| == |d.children|)
    && (l.selection.Some? ==> IsChoice(d) && l.selection.value < |l.kids|)
    && forall j :: 0 <= j < |l.kids| ==> Shaped(ChildSpec(d, j), l.kids[j])
  }

  lemma {:induction false} FreshIsShaped(d: Spec)
    requires Sound(d)
    ensures Shaped(d, Fresh(d))
  {
    forall j | 0 <= j < |Fresh(d).kids| ensures Shaped(ChildSpec(d, j), Fresh(d).kids[j]) {
      FreshIsShaped(d.children[j]);
    }
  }

  /** The search for the child a TLV belongs to; an unlimited node first grows one. */
  function Search(d: Spec, s: Level, cls: TagClass, tag: nat): (r: Level)
    requires InLevel(d, s)
    ensures InLevel(d, r)
  {
    if d.unlimited then
      var kids := if s.next < |s.kids| then s.kids else s.kids + [Fresh(d.children[0])];
      FreshIsShaped(d.children[0]);
      if Takes(d.children[0], cls, tag) then Level(kids, s.next + 1, Some(s.next)) else Level(kids, s.next, None)
    else if s.next >= |d.children| then s
    else
      var j := Scan(d.children, s.next, cls, tag);
      if j == |d.children| then s.(found := None)
      else s.(next := if d.uni == SET then 0 else j + 1, found := Some(j))
  }

  /** Whether there is anything left to search. */
  predicate Searches(d: Spec, s: Level) {
    d.unlimited || s.next < |d.children|
  }

  function HereOf(t: Tlv): Here {
    if t.Primitive? then Data(t.contents) else Inside
  }

  /** A TLV becomes what the node is linked to, for a CHOICE what its alternative is. */
  function LinkTo(c: Spec, l: Link, t: Tlv): (r: Link)
    requires Shaped(c, l) && Takes(c, t.cls, t.tag)
    ensures Shaped(c, r) && (IsChoice(c) ==> r.selection.Some?)
  {
    if IsChoice(c) then
      var a := Alternative(c.children, t.cls, t.tag);
      assert Shaped(ChildSpec(c, a), l.kids[a]);
      Link(Inside, l.kids[a := l.kids[a].(here := HereOf(t))], Some(a))
    else l.(here := HereOf(t))
  }

  function MatchAll(d: Spec, s: Level, ts: seq<Tlv>): (r: Level)
    requires InLevel(d, s)
    ensures InLevel(d, r)
    decreases ts, 0
  {
    if ts == [] then s else MatchAll(d, MatchOne(d, s, ts[0]), ts[1..])
  }

  /** One turn of the loop: the search, the link, and the contents of a constructed TLV. */
  function MatchOne(d: Spec, s: Level, t: Tlv): (r: Level)
    requires InLevel(d, s)
    ensures InLevel(d, r)
    decreases t, 2
  {
    var r := Search(d, s, t.cls, t.tag);
    if r.found.None? then r
    else
      var j := r.found.value;
      var l := if Searches(d, s) then LinkTo(ChildSpec(d, j), r.kids[j], t) else r.kids[j];
      if t.Constructed? then r.(kids := r.kids[j := Descend(ChildSpec(d, j), l, t.children)])
      else r.(kids := r.kids[j := l])
  }

  /** What is inside a TLV is assigned to the node found for it. */
  function Descend(c: Spec, l: Link, ts: seq<Tlv>): (r: Link)
    requires Shaped(c, l)
    ensures Shaped(c, r)
    decreases ts, 2
  {
    if IsChoice(c) then
      match l.selection
      case None => l
      case Some(a) => l.(kids := l.kids[a := Into(c.children[a], l.kids[a], ts)])
    else Into(c, l, ts)
  }

  function Into(c: Spec, l: Link, ts: seq<Tlv>): (r: Link)
    requires Shaped(c, l)
    ensures Shaped(c, r)
    decreases ts, 1
  {
    l.(kids := MatchAll(c, Level(l.kids, 0, None), ts).kids)
  }

  // ---------------------------------------------------------------- messages

  function TagOfSpec(d: Spec): int {
    if d.tag == -1 then d.uni else d.tag
  }

  function ClassOfSpec(d: Spec): TagClass {
    if d.tag == -1 then Universal else d.cls
  }

  /** Every node has a tag, and no two children, or alternatives, can be taken for another. */
  ghost predicate Distinguished(d: Spec) {
    && (!IsChoice(d) ==> TagOfSpec(d) >= 0)
    && (!d.unlimited ==> forall i, j, cls, tag: nat :: 0 <= i < j < |d.children| ==>
          !(Takes(d.children[i], cls, tag) && Takes(d.children[j], cls, tag)))
    && forall i :: 0 <= i < |d.children| ==> Distinguished(d.children[i])
  }

  /** What can have been linked: a node out of the session has nothing below it; a CHOICE in the
      session has one alternative; octets have nothing below them. */
  predicate Complete(d: Spec, l: Link)
    requires Shaped(d, l)
    decreases l
  {
    if l.here == Out then l == Fresh(d)
    else if IsChoice(d) then
      && l.here == Inside && l.selection.Some?
      && forall j :: 0 <= j < |l.kids| ==>
           if j == l.selection.value then l.kids[j].here != Out && Complete(d.children[j], l.kids[j])
           else l.kids[j] == Fresh(d.children[j])
    else
      && l.selection == None
      && (l.here.Data? ==> l.kids == Fresh(d).kids)
      && (l.here == Inside ==> forall j :: 0 <= j < |l.kids| ==> Complete(ChildSpec(d, j), l.kids[j]))
  }

  /** Every element of an unlimited node is there. */
  predicate Gapless(d: Spec, l: Link)
    requires Shaped(d, l)
    decreases l
  {
    forall j :: 0 <= j < |l.kids| ==> Gapless(ChildSpec(d, j), l.kids[j]) && (d.unlimited ==> l.kids[j].here != Out)
  }

  /** The TLVs of what is linked. */
  function Tlvs(d: Spec, l: Link): (ts: seq<Tlv>)
    requires Shaped(d, l)
    ensures |ts| <= 1
    decreases l, 0
  {
    if l.here == Out then []
    else if IsChoice(d) then
      match l.selection
      case None => []
      case Some(a) => Tlvs(d.children[a], l.kids[a])
    else if TagOfSpec(d) < 0 then []
    else if l.here.Data? then [Primitive(ClassOfSpec(d), TagOfSpec(d), l.here.octets)]
    else [Constructed(ClassOfSpec(d), TagOfSpec(d), KidTlvs(d, l.kids, 0))]
  }

  /** Those of the children from the i-th on. */
  function KidTlvs(d: Spec, kids: seq<Link>, i: nat): seq<Tlv>
    requires Sound(d) && (d.unlimited || |kids| == |d.children|) && i <= |kids|
    requires forall j :: 0 <= j < |kids| ==> Shaped(ChildSpec(d, j), kids[j])
    decreases kids, |kids| - i
  {
    if i == |kids| then [] else Tlvs(ChildSpec(d, i), kids[i]) + KidTlvs(d, kids, i + 1)
  }
}
