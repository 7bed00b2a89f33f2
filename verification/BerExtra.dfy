/** A TLV behind the last child of the definition: nothing is searched for it any more, but what
    is in it is assigned to the child that was found last. */
module BerExtra {
  import opened BerOctets
  import opened BerTlv
  import opened BerSchema
  import opened BerSchemaRoundTrip

  /** A level of a SEQUENCE whose last child is linked. */
  ghost predicate FullLevel(d: Spec, kids: seq<Link>) {
    && Sound(d) && Distinguished(d) && !d.unlimited && d.uni != SET && |kids| == |d.children| > 0
    && (forall j :: 0 <= j < |kids| ==> Telling(ChildSpec(d, j), kids[j]))
    && kids[|kids| - 1].here != Out
  }

  lemma {:induction false} LevelEnds(d: Spec, kids: seq<Link>, i: nat, s: Level)
    requires FullLevel(d, kids) && HalfWay(d, kids, i, s) && i < |kids|
    ensures MatchAll(d, s, KidTlvs(d, kids, i)) == Level(kids, |kids|, Some(|kids| - 1))
    decreases |kids| - i
  {
    hide InLevel, Shaped, Distinguished, Complete, Gapless, MatchOne, Tlvs, Sound;
    if kids[i].here == Out {
      NoneBack(d, kids, i, s);
      LevelEnds(d, kids, i + 1, s);
    } else {
      var t := StepBack(d, kids, i, s);
      MatchMore(d, s, t, KidTlvs(d, kids, i + 1));
      if i + 1 < |kids| {
        LevelEnds(d, kids, i + 1, MatchOne(d, s, t));
      } else {
        AllBack(d, kids, MatchOne(d, s, t));
        LastFound(d, kids, s, t);
        NoneLeft(d, kids, MatchOne(d, s, t));
      }
    }
  }

  lemma NoneLeft(d: Spec, kids: seq<Link>, s: Level)
    requires InLevel(d, s) && !d.unlimited && |kids| == |d.children|
    requires forall j :: 0 <= j < |kids| ==> Shaped(ChildSpec(d, j), kids[j])
    ensures KidTlvs(d, kids, |kids|) == [] && MatchAll(d, s, []) == s
  {
  }

  /** Nothing is left to search behind the last child. */
  lemma LastFound(d: Spec, kids: seq<Link>, s: Level, t: Tlv)
    requires FullLevel(d, kids) && HalfWay(d, kids, |kids| - 1, s) && HalfWay(d, kids, |kids|, MatchOne(d, s, t))
    requires MatchOne(d, s, t).kids == kids
    ensures MatchOne(d, s, t).next == |kids| && MatchOne(d, s, t).found == Some(|kids| - 1)
  {
    hide LinkTo, Descend, Takes, Shaped, Distinguished, Complete, Gapless;
    var j := Scan(d.children, s.next, t.cls, t.tag);
    assert j == |kids| - 1;
  }

  /** The TLVs of a level, and one more: a primitive one changes nothing, whatever its tag; of a
      constructed one the contents go where those of the last child went. */
  lemma ExtraGoesToLast(d: Spec, kids: seq<Link>, extra: Tlv)
    requires FullLevel(d, kids)
    ensures InLevel(d, Level(Fresh(d).kids, 0, None))
    ensures var n := |kids| - 1;
            MatchAll(d, Level(Fresh(d).kids, 0, None), KidTlvs(d, kids, 0) + [extra]).kids ==
            if extra.Primitive? then kids else kids[n := Descend(ChildSpec(d, n), kids[n], extra.children)]
  {
    hide InLevel, Shaped, Distinguished, Complete, Gapless, Tlvs, Descend, MatchOne, Sound, MatchAll;
    LevelStarts(d, kids);
    var s, e := Level(Fresh(d).kids, 0, None), Level(kids, |kids|, Some(|kids| - 1));
    LevelEnds(d, kids, 0, s);
    MatchConcat(d, s, KidTlvs(d, kids, 0), [extra]);
    MatchMore(d, e, extra, []);
    assert [extra] + [] == [extra];
    NothingMore(d, MatchOne(d, e, extra));
    ExtraMatched(d, kids, extra);
  }

  lemma LevelStarts(d: Spec, kids: seq<Link>)
    requires FullLevel(d, kids)
    ensures InLevel(d, Level(Fresh(d).kids, 0, None)) && HalfWay(d, kids, 0, Level(Fresh(d).kids, 0, None))
  {
    FreshIsShaped(d);
  }

  /** One turn of the loop with nothing left to search. */
  lemma ExtraMatched(d: Spec, kids: seq<Link>, extra: Tlv)
    requires FullLevel(d, kids) && InLevel(d, Level(kids, |kids|, Some(|kids| - 1)))
    ensures var n := |kids| - 1;
            && Shaped(ChildSpec(d, n), kids[n])
            && MatchOne(d, Level(kids, |kids|, Some(n)), extra).kids ==
               if extra.Primitive? then kids else kids[n := Descend(ChildSpec(d, n), kids[n], extra.children)]
  {
    hide Descend, Distinguished, Complete, Gapless, LinkTo;
    assert kids[|kids| - 1 := kids[|kids| - 1]] == kids;
  }

  lemma NothingMore(d: Spec, s: Level)
    requires InLevel(d, s)
    ensures MatchAll(d, s, []) == s
  {
  }

  lemma {:induction false} MatchConcat(d: Spec, s: Level, a: seq<Tlv>, b: seq<Tlv>)
    requires InLevel(d, s)
    ensures MatchAll(d, s, a + b) == MatchAll(d, MatchAll(d, s, a), b)
    decreases |a|
  {
    hide MatchOne, InLevel;
    if a == [] {
      assert a + b == b;
    } else {
      assert (a + b)[0] == a[0] && (a + b)[1..] == a[1..] + b;
      MatchConcat(d, MatchOne(d, s, a[0]), a[1..], b);
    }
  }
}
