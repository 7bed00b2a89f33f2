/** Matching the TLVs of a message against a fresh copy of its definition links what was
    linked. */
module BerSchemaRoundTrip {
  import opened BerOctets
  import opened BerTlv
  import opened BerSchema

  /** A message that can be told from its TLVs. */
  ghost predicate Telling(d: Spec, l: Link) {
    Shaped(d, l) && Distinguished(d) && Complete(d, l) && Gapless(d, l)
  }

  /** The TLV of a linked node is taken by that node, and by the alternative selected. */
  lemma {:induction false} TlvTaken(d: Spec, l: Link) returns (t: Tlv)
    requires Telling(d, l) && l.here != Out
    ensures Tlvs(d, l) == [t] && Takes(d, t.cls, t.tag)
    ensures IsChoice(d) ==> Alternative(d.children, t.cls, t.tag) == l.selection.value
    ensures IsChoice(d) ==> Tlvs(d.children[l.selection.value], l.kids[l.selection.value]) == [t]
    ensures !IsChoice(d) ==> HereOf(t) == l.here
    ensures !IsChoice(d) && l.here == Inside ==> t == Constructed(ClassOfSpec(d), TagOfSpec(d), KidTlvs(d, l.kids, 0))
    decreases l
  {
    if IsChoice(d) {
      var a := l.selection.value;
      assert Shaped(ChildSpec(d, a), l.kids[a]);
      t := TlvTaken(d.children[a], l.kids[a]);
      var b := Alternative(d.children, t.cls, t.tag);
      assert Takes(d.children[a], t.cls, t.tag) && Answers(d.children[a], t.cls, t.tag);
      assert Takes(d.children[b], t.cls, t.tag);
    } else {
      t := Tlvs(d, l)[0];
    }
  }

  /** What a TLV makes of the node it is assigned to. */
  function Linked(c: Spec, l: Link, t: Tlv): Link
    requires Shaped(c, l) && Takes(c, t.cls, t.tag)
  {
    var r := LinkTo(c, l, t);
    if t.Constructed? then Descend(c, r, t.children) else r
  }

  lemma {:induction false} NodeBack(c: Spec, l: Link, t: Tlv)
    requires Telling(c, l) && l.here != Out && Tlvs(c, l) == [t]
    requires Shaped(c, Fresh(c)) && Takes(c, t.cls, t.tag)
    ensures Linked(c, Fresh(c), t) == l
    decreases l, 1
  {
    var t' := TlvTaken(c, l);
    if IsChoice(c) {
      var a := l.selection.value;
      assert Shaped(ChildSpec(c, a), l.kids[a]);
      FreshIsShaped(c.children[a]);
      var t'' := TlvTaken(c.children[a], l.kids[a]);
      NodeBack(c.children[a], l.kids[a], t);
      ChoiceBack(c, l, t);
    } else {
      PlainBack(c, l, t);
    }
  }

  lemma ChoiceBack(c: Spec, l: Link, t: Tlv)
    requires Telling(c, l) && l.here != Out && IsChoice(c) && Shaped(c, Fresh(c)) && Takes(c, t.cls, t.tag)
    requires Alternative(c.children, t.cls, t.tag) == l.selection.value
    requires var a := l.selection.value;
             && Shaped(c.children[a], Fresh(c.children[a])) && Takes(c.children[a], t.cls, t.tag)
             && Linked(c.children[a], Fresh(c.children[a]), t) == l.kids[a]
    ensures Linked(c, Fresh(c), t) == l
  {
    hide Into;
    var a := l.selection.value;
    var r := Linked(c, Fresh(c), t);
    assert Fresh(c).kids[a] == Fresh(c.children[a]);
    assert !IsChoice(c.children[a]);
    assert r.kids[a] == l.kids[a];
    assert r.kids == l.kids;
  }

  lemma {:induction false} PlainBack(c: Spec, l: Link, t: Tlv)
    requires Telling(c, l) && l.here != Out && !IsChoice(c) && Tlvs(c, l) == [t]
    requires Shaped(c, Fresh(c)) && Takes(c, t.cls, t.tag)
    ensures Linked(c, Fresh(c), t) == l
    decreases l, 0
  {
    var t' := TlvTaken(c, l);
    assert t == t';
    if l.here == Inside {
      KidsTell(c, l);
      FreshHalfWay(c, l);
      KidsBack(c, l.kids, 0, Level(Fresh(c).kids, 0, None));
      assert t.children == KidTlvs(c, l.kids, 0);
      assert LinkTo(c, Fresh(c), t) == Fresh(c).(here := Inside);
      assert Linked(c, Fresh(c), t) == Into(c, Fresh(c).(here := Inside), t.children);
    } else {
      assert Linked(c, Fresh(c), t) == Fresh(c).(here := l.here);
    }
  }

  lemma KidsTell(d: Spec, l: Link)
    requires Telling(d, l) && l.here == Inside && !IsChoice(d)
    ensures forall j :: 0 <= j < |l.kids| ==>
              Telling(ChildSpec(d, j), l.kids[j]) && (d.unlimited ==> l.kids[j].here != Out)
  {
  }

  lemma FreshHalfWay(d: Spec, l: Link)
    requires Shaped(d, l) && Shaped(d, Fresh(d))
    ensures HalfWay(d, l.kids, 0, Level(Fresh(d).kids, 0, None))
  {
  }

  /** Half way: the first i children are as they were, the others are fresh. */
  ghost predicate HalfWay(d: Spec, kids: seq<Link>, i: nat, s: Level) {
    && InLevel(d, s) && i <= |kids| && (d.unlimited || |kids| == |d.children|)
    && (if d.unlimited then s.kids == kids[..i] && s.next == i
        else s.next <= i && forall j :: 0 <= j < |kids| ==> s.kids[j] == if j < i then kids[j] else Fresh(d.children[j]))
  }

  lemma {:induction false} KidsBack(d: Spec, kids: seq<Link>, i: nat, s: Level)
    requires Sound(d) && (d.unlimited || |kids| == |d.children|) && forall j :: 0 <= j < |kids| ==> Shaped(ChildSpec(d, j), kids[j])
    requires HalfWay(d, kids, i, s) && Distinguished(d)
    requires forall j :: 0 <= j < |kids| ==>
               Telling(ChildSpec(d, j), kids[j]) && (d.unlimited ==> kids[j].here != Out)
    ensures MatchAll(d, s, KidTlvs(d, kids, i)).kids == kids
    decreases kids, 1 + |kids| - i
  {
    hide InLevel, Shaped, Distinguished, Complete, Gapless, MatchOne, Tlvs;
    if i == |kids| {
      AllBack(d, kids, s);
    } else if kids[i].here == Out {
      NoneBack(d, kids, i, s);
      KidsBack(d, kids, i + 1, s);
    } else {
      var t := StepBack(d, kids, i, s);
      MatchMore(d, s, t, KidTlvs(d, kids, i + 1));
      KidsBack(d, kids, i + 1, MatchOne(d, s, t));
    }
  }

  lemma AllBack(d: Spec, kids: seq<Link>, s: Level)
    requires HalfWay(d, kids, |kids|, s)
    ensures s.kids == kids
  {
    assert kids[..|kids|] == kids;
  }

  lemma NoneBack(d: Spec, kids: seq<Link>, i: nat, s: Level)
    requires HalfWay(d, kids, i, s) && i < |kids| && Telling(ChildSpec(d, i), kids[i])
    requires kids[i].here == Out && !d.unlimited
    requires forall j :: 0 <= j < |kids| ==> Shaped(ChildSpec(d, j), kids[j])
    ensures HalfWay(d, kids, i + 1, s) && KidTlvs(d, kids, i) == KidTlvs(d, kids, i + 1)
  {
  }

  lemma MatchMore(d: Spec, s: Level, t: Tlv, ts: seq<Tlv>)
    requires InLevel(d, s)
    ensures MatchAll(d, s, [t] + ts) == MatchAll(d, MatchOne(d, s, t), ts)
  {
    assert ([t] + ts)[1..] == ts;
  }

  lemma {:induction false} StepBack(d: Spec, kids: seq<Link>, i: nat, s: Level) returns (t: Tlv)
    requires HalfWay(d, kids, i, s) && Distinguished(d) && i < |kids|
    requires forall j :: 0 <= j < |kids| ==> Shaped(ChildSpec(d, j), kids[j])
    requires Telling(ChildSpec(d, i), kids[i]) && kids[i].here != Out
    ensures HalfWay(d, kids, i + 1, MatchOne(d, s, t)) && KidTlvs(d, kids, i) == [t] + KidTlvs(d, kids, i + 1)
    decreases kids, 0
  {
    var c := ChildSpec(d, i);
    FreshIsShaped(c);
    t := TlvTaken(c, kids[i]);
    NodeBack(c, kids[i], t);
    OneBack(d, kids, i, s, t);
  }

  /** The search finds the child the TLV came from. */
  lemma OneBack(d: Spec, kids: seq<Link>, i: nat, s: Level, t: Tlv)
    requires HalfWay(d, kids, i, s) && Distinguished(d) && i < |kids|
    requires Shaped(ChildSpec(d, i), Fresh(ChildSpec(d, i))) && Takes(ChildSpec(d, i), t.cls, t.tag)
    requires Linked(ChildSpec(d, i), Fresh(ChildSpec(d, i)), t) == kids[i]
    ensures HalfWay(d, kids, i + 1, MatchOne(d, s, t))
  {
    hide LinkTo, Descend, Takes;
    if d.unlimited {
      assert kids[..i + 1] == kids[..i] + [kids[i]];
    } else {
      var j := Scan(d.children, s.next, t.cls, t.tag);
      assert j == i;
    }
  }

  // ---------------------------------------------------------------- elements that are not there

  /** The message without the elements of unlimited nodes that are not there: as they have no
      place in the encoding, those behind them move up. */
  function Packed(d: Spec, l: Link): (r: Link)
    requires Shaped(d, l)
    ensures Shaped(d, r) && Gapless(d, r) && r.here == l.here && r.selection == l.selection
    ensures !d.unlimited ==> forall j :: 0 <= j < |r.kids| ==> r.kids[j] == Packed(ChildSpec(d, j), l.kids[j])
    decreases l
  {
    l.(kids := if d.unlimited then Elements(d.children[0], l.kids)
               else seq(|l.kids|, j requires 0 <= j < |l.kids| => Packed(ChildSpec(d, j), l.kids[j])))
  }

  predicate AllShaped(e: Spec, kids: seq<Link>) {
    forall j :: 0 <= j < |kids| ==> Shaped(e, kids[j])
  }

  /** The elements that are there. */
  function Elements(e: Spec, kids: seq<Link>): (r: seq<Link>)
    requires AllShaped(e, kids)
    ensures forall j :: 0 <= j < |r| ==> Shaped(e, r[j]) && Gapless(e, r[j]) && r[j].here != Out
    decreases kids
  {
    if kids == [] then []
    else if kids[0].here == Out then Elements(e, kids[1..])
    else [Packed(e, kids[0])] + Elements(e, kids[1..])
  }

  lemma {:induction false} PackedFresh(d: Spec)
    requires Sound(d) && Shaped(d, Fresh(d))
    ensures Packed(d, Fresh(d)) == Fresh(d)
  {
    var f, r := Fresh(d), Packed(d, Fresh(d));
    if d.unlimited {
      assert f.kids == [];
      assert r == f.(kids := Elements(d.children[0], []));
    } else {
      forall j | 0 <= j < |d.children| ensures r.kids[j] == f.kids[j] {
        FreshIsShaped(d.children[j]);
        PackedFresh(d.children[j]);
        assert r.kids[j] == Packed(ChildSpec(d, j), f.kids[j]);
      }
      assert |r.kids| == |f.kids|;
      assert r.kids == f.kids;
    }
  }

  lemma {:induction false} PackedIsComplete(d: Spec, l: Link)
    requires Shaped(d, l) && Complete(d, l)
    ensures Complete(d, Packed(d, l))
    decreases l
  {
    var r := Packed(d, l);
    if l.here == Out {
      PackedFresh(d);
    } else if l.here.Data? {
      FreshIsShaped(d);
      PackedFresh(d);
      assert r.kids == Fresh(d).kids;
    } else if d.unlimited {
      ElementsAreComplete(d.children[0], l.kids);
    } else {
      forall j | 0 <= j < |l.kids|
        ensures Shaped(d.children[j], l.kids[j]) && r.kids[j] == Packed(d.children[j], l.kids[j])
        ensures Complete(d.children[j], l.kids[j]) ==> Complete(d.children[j], r.kids[j])
        ensures l.kids[j] == Fresh(d.children[j]) ==> r.kids[j] == l.kids[j]
      {
        assert r.kids[j] == Packed(ChildSpec(d, j), l.kids[j]);
        if Complete(d.children[j], l.kids[j]) { PackedIsComplete(d.children[j], l.kids[j]); }
        if l.kids[j] == Fresh(d.children[j]) { PackedFresh(d.children[j]); }
      }
    }
  }

  lemma {:induction false} ElementsAreComplete(e: Spec, kids: seq<Link>)
    requires AllShaped(e, kids) && forall j :: 0 <= j < |kids| ==> Complete(e, kids[j])
    ensures forall j :: 0 <= j < |Elements(e, kids)| ==> Complete(e, Elements(e, kids)[j])
    decreases kids
  {
    if kids != [] {
      ElementsAreComplete(e, kids[1..]);
      PackedIsComplete(e, kids[0]);
    }
  }

  /** Packing does not change what is sent. */
  lemma {:induction false} PackedTlvs(d: Spec, l: Link)
    requires Shaped(d, l)
    ensures Tlvs(d, Packed(d, l)) == Tlvs(d, l)
    decreases l
  {
    var r := Packed(d, l);
    if IsChoice(d) {
      if l.selection.Some? {
        var a := l.selection.value;
        assert r.kids[a] == Packed(ChildSpec(d, a), l.kids[a]);
        PackedTlvs(d.children[a], l.kids[a]);
      }
    } else if l.here == Inside {
      if d.unlimited {
        ElementTlvsAre(d, l.kids, 0);
        ElementTlvsAre(d, r.kids, 0);
        PackedElementTlvs(d.children[0], l.kids);
      } else {
        PackedKidTlvs(d, l, 0);
      }
    }
  }

  lemma {:induction false} PackedKidTlvs(d: Spec, l: Link, i: nat)
    requires Shaped(d, l) && i <= |l.kids| && !d.unlimited
    ensures KidTlvs(d, Packed(d, l).kids, i) == KidTlvs(d, l.kids, i)
    decreases l.kids, |l.kids| - i
  {
    hide Gapless, Tlvs;
    if i < |l.kids| {
      assert Packed(d, l).kids[i] == Packed(ChildSpec(d, i), l.kids[i]);
      PackedTlvs(d.children[i], l.kids[i]);
      PackedKidTlvs(d, l, i + 1);
    }
  }

  /** The TLVs of elements, wherever they stand. */
  function ElementTlvs(e: Spec, kids: seq<Link>): seq<Tlv>
    requires AllShaped(e, kids)
  {
    if kids == [] then [] else Tlvs(e, kids[0]) + ElementTlvs(e, kids[1..])
  }

  lemma {:induction false} ElementTlvsAre(d: Spec, kids: seq<Link>, i: nat)
    requires Sound(d) && d.unlimited && i <= |kids| && AllShaped(d.children[0], kids)
    requires forall j :: 0 <= j < |kids| ==> Shaped(ChildSpec(d, j), kids[j])
    ensures KidTlvs(d, kids, i) == ElementTlvs(d.children[0], kids[i..])
    decreases |kids| - i
  {
    if i < |kids| {
      ElementTlvsAre(d, kids, i + 1);
      assert kids[i..][0] == kids[i] && kids[i..][1..] == kids[i + 1..];
    }
  }

  lemma {:induction false} PackedElementTlvs(e: Spec, kids: seq<Link>)
    requires AllShaped(e, kids)
    ensures ElementTlvs(e, Elements(e, kids)) == ElementTlvs(e, kids)
    decreases kids
  {
    if kids != [] {
      PackedElementTlvs(e, kids[1..]);
      if kids[0].here != Out {
        PackedTlvs(e, kids[0]);
        assert Elements(e, kids)[0] == Packed(e, kids[0]) && Elements(e, kids)[1..] == Elements(e, kids[1..]);
      }
    }
  }

  // ---------------------------------------------------------------- whole messages

  /** decode puts a definition whose root is no CHOICE under a node of its own. */
  function Above(d: Spec): Spec {
    Spec(0, 0, Universal, false, [d])
  }

  /** A root that is a CHOICE stands for the level itself: it selects the last alternative that
      a TLV of the message matched. */
  function Chosen(d: Spec, s: Level, ts: seq<Tlv>, was: Option<nat>): Option<nat>
    requires InLevel(d, s)
    decreases |ts|
  {
    if ts == [] then was
    else
      var found := Search(d, s, ts[0].cls, ts[0].tag).found;
      Chosen(d, MatchOne(d, s, ts[0]), ts[1..], if Searches(d, s) && found.Some? then found else was)
  }

  function ChoiceRoot(kids: seq<Link>, selection: Option<nat>): Link {
    Link(if selection.Some? then Inside else Out, kids, selection)
  }

  /** What is linked once the TLVs have been read. */
  function MatchRoot(d: Spec, ts: seq<Tlv>): Link
    requires Sound(d)
  {
    FreshIsShaped(d);
    if IsChoice(d) then
      var s := Level(Fresh(d).kids, 0, None);
      ChoiceRoot(MatchAll(d, s, ts).kids, Chosen(d, s, ts, None))
    else MatchAll(Above(d), Level([Fresh(d)], 0, None), ts).kids[0]
  }

  /** A fresh definition ends up linked as the message was, up to the gaps between the elements
      of unlimited nodes, and stands for the same TLVs. */
  lemma MessageBack(d: Spec, l: Link)
    requires Sound(d) && Shaped(d, l) && Complete(d, l) && Distinguished(d)
    ensures MatchRoot(d, Tlvs(d, l)) == Packed(d, l)
    ensures Tlvs(d, MatchRoot(d, Tlvs(d, l))) == Tlvs(d, l)
  {
    hide MatchAll, Tlvs, Complete, Distinguished, Shaped, Packed, Chosen;
    FreshIsShaped(d);
    var p := Packed(d, l);
    PackedIsComplete(d, l);
    PackedTlvs(d, l);
    if IsChoice(d) {
      ChoiceRootBack(d, p);
    } else {
      AboveStarts(d, p);
      KidsBack(Above(d), [p], 0, Level([Fresh(d)], 0, None));
    }
  }

  lemma ChoiceRootBack(d: Spec, l: Link)
    requires Telling(d, l) && IsChoice(d) && InLevel(d, Level(Fresh(d).kids, 0, None))
    ensures var s := Level(Fresh(d).kids, 0, None);
            ChoiceRoot(MatchAll(d, s, Tlvs(d, l)).kids, Chosen(d, s, Tlvs(d, l), None)) == l
  {
    hide MatchOne, LinkTo, Descend;
    var s := Level(Fresh(d).kids, 0, None);
    if l.here != Out {
      var a := l.selection.value;
      var t := TlvTaken(d, l);
      assert Shaped(ChildSpec(d, a), l.kids[a]);
      FreshIsShaped(d.children[a]);
      var t' := TlvTaken(d.children[a], l.kids[a]);
      NodeBack(d.children[a], l.kids[a], t);
      AlternativeFound(d, a, s, t);
      assert MatchOne(d, s, t).kids == l.kids;
    }
  }

  lemma AlternativeFound(d: Spec, a: nat, s: Level, t: Tlv)
    requires IsChoice(d) && Distinguished(d) && a < |d.children| && InLevel(d, s) && s == Level(Fresh(d).kids, 0, None)
    requires Shaped(d.children[a], Fresh(d.children[a])) && Takes(d.children[a], t.cls, t.tag)
    ensures Search(d, s, t.cls, t.tag).found == Some(a)
    ensures MatchOne(d, s, t).kids == s.kids[a := Linked(d.children[a], Fresh(d.children[a]), t)]
  {
    hide LinkTo, Descend, Takes;
    var j := Scan(d.children, 0, t.cls, t.tag);
    assert j == a;
    assert s.kids[a] == Fresh(d.children[a]);
  }

  lemma AboveStarts(d: Spec, p: Link)
    requires Sound(d) && Telling(d, p) && Shaped(d, Fresh(d))
    ensures var a := Above(d);
            && Distinguished(a) && ChildSpec(a, 0) == d && HalfWay(a, [p], 0, Level([Fresh(d)], 0, None))
            && KidTlvs(a, [p], 0) == Tlvs(d, p)
  {
    hide Tlvs, Complete, Gapless;
    var a := Above(d);
    assert !IsChoice(a);
    assert KidTlvs(a, [p], 1) == [];
    assert KidTlvs(a, [p], 0) == Tlvs(d, p) + [];
  }
}
