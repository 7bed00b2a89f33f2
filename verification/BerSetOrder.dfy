/** The elements of a SET are recognised in whatever order they come. */
module BerSetOrder {
  import opened BerOctets
  import opened BerTlv
  import opened BerSchema
  import opened BerSchemaRoundTrip

  /** The TLVs of the children in the order given. */
  function InOrder(d: Spec, kids: seq<Link>, order: seq<nat>): seq<Tlv>
    requires !d.unlimited && |kids| == |d.children|
    requires forall j :: 0 <= j < |kids| ==> Shaped(ChildSpec(d, j), kids[j])
    requires forall i :: 0 <= i < |order| ==> order[i] < |kids|
  {
    if order == [] then [] else Tlvs(ChildSpec(d, order[0]), kids[order[0]]) + InOrder(d, kids, order[1..])
  }

  /** A level of a SET whose children that are linked are to be sent. */
  ghost predicate SetLevel(d: Spec, kids: seq<Link>) {
    && Sound(d) && Distinguished(d) && !d.unlimited && d.uni == SET && |kids| == |d.children|
    && forall j :: 0 <= j < |kids| ==> Telling(ChildSpec(d, j), kids[j])
  }

  /** The children still to come are fresh, the others are as they were. */
  ghost predicate Partly(d: Spec, kids: seq<Link>, order: seq<nat>, s: Level) {
    && InLevel(d, s) && s.next == 0 && |s.kids| == |kids| == |d.children| && !d.unlimited
    && (forall i :: 0 <= i < |order| ==> order[i] < |kids| && kids[order[i]].here != Out)
    && (forall i, k :: 0 <= i < k < |order| ==> order[i] != order[k])
    && forall j :: 0 <= j < |kids| ==> s.kids[j] == if j in order then Fresh(d.children[j]) else kids[j]
  }

  lemma {:induction false} RestBack(d: Spec, kids: seq<Link>, order: seq<nat>, s: Level)
    requires SetLevel(d, kids) && Partly(d, kids, order, s)
    ensures MatchAll(d, s, InOrder(d, kids, order)).kids == kids
    decreases |order|
  {
    hide InLevel, Distinguished, Sound, Tlvs, MatchOne, Complete, Gapless, Shaped;
    if order == [] {
      assert s.kids == kids;
    } else {
      var t := NextTaken(d, kids, order, s);
      MatchMore(d, s, t, InOrder(d, kids, order[1..]));
      RestBack(d, kids, order[1..], MatchOne(d, s, t));
    }
  }

  /** Wherever it comes, a TLV is taken by the child it came from. */
  lemma NextTaken(d: Spec, kids: seq<Link>, order: seq<nat>, s: Level) returns (t: Tlv)
    requires SetLevel(d, kids) && Partly(d, kids, order, s) && order != []
    ensures Tlvs(ChildSpec(d, order[0]), kids[order[0]]) == [t]
    ensures Partly(d, kids, order[1..], MatchOne(d, s, t))
  {
    hide Telling, Tlvs, MatchOne, Distinguished, InLevel, Sound;
    var j := order[0];
    FirstOfOrder(order, j);
    t := ChildBack(d, kids, j);
    ChildFound(d, j, s, t);
  }

  lemma FirstOfOrder(order: seq<nat>, j: nat)
    requires order != [] && order[0] == j && forall i, k :: 0 <= i < k < |order| ==> order[i] != order[k]
    ensures j in order && j !in order[1..] && forall i :: i in order <==> i == j || i in order[1..]
  {
    assert order == [j] + order[1..];
  }

  lemma ChildBack(d: Spec, kids: seq<Link>, j: nat) returns (t: Tlv)
    requires SetLevel(d, kids) && j < |kids| && kids[j].here != Out
    ensures var c := d.children[j];
            && Sound(c) && Shaped(c, Fresh(c)) && Takes(c, t.cls, t.tag) && Linked(c, Fresh(c), t) == kids[j]
            && Shaped(c, kids[j]) && Tlvs(c, kids[j]) == [t]
  {
    hide Distinguished, Linked, Tlvs, Takes, LinkTo, Complete, Gapless;
    var c := d.children[j];
    assert Telling(ChildSpec(d, j), kids[j]);
    FreshIsShaped(c);
    t := TlvTaken(c, kids[j]);
    NodeBack(c, kids[j], t);
  }

  lemma ChildFound(d: Spec, j: nat, s: Level, t: Tlv)
    requires InLevel(d, s) && Distinguished(d) && !d.unlimited && d.uni == SET && s.next == 0
    requires j < |s.kids| == |d.children| && s.kids[j] == Fresh(d.children[j])
    requires Shaped(d.children[j], Fresh(d.children[j])) && Takes(d.children[j], t.cls, t.tag)
    ensures var r := MatchOne(d, s, t);
            InLevel(d, r) && r.next == 0 && r.kids == s.kids[j := Linked(d.children[j], Fresh(d.children[j]), t)]
  {
    hide LinkTo, Descend, Takes, Shaped;
    assert Scan(d.children, 0, t.cls, t.tag) == j;
  }

  /** The linked children of a SET, sent in any order, are all linked again, and nothing else. */
  lemma AnyOrderBack(d: Spec, kids: seq<Link>, order: seq<nat>)
    requires SetLevel(d, kids)
    requires forall i :: 0 <= i < |order| ==> order[i] < |kids| && kids[order[i]].here != Out
    requires forall i, k :: 0 <= i < k < |order| ==> order[i] != order[k]
    requires forall j :: 0 <= j < |kids| && kids[j].here != Out ==> j in order
    ensures InLevel(d, Level(Fresh(d).kids, 0, None))
    ensures MatchAll(d, Level(Fresh(d).kids, 0, None), InOrder(d, kids, order)).kids == kids
  {
    FreshIsShaped(d);
    RestBack(d, kids, order, Level(Fresh(d).kids, 0, None));
  }
}
