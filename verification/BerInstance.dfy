/** A linked tree in memory as a definition with what is linked in it: what Node.Encode writes
    of the one is what a decoder with the other reads. */
module BerInstance {
  import opened BerOctets
  import opened BerTlv
  import opened BerSchema
  import opened BerSchemaRoundTrip
  import opened BerSchemaDecode
  import opened BerReencode
  import L = BerLengths
  import M = BerMessage

  /** The tree below x was made from the definition d: it has d's tags, and d's children or, if
      d is unlimited, any number of elements. */
  ghost predicate Instance(d: Spec, g: L.Plan, x: L.Id)
    requires L.Tree(g) && x in g
    decreases g[x].height
  {
    && IsChoice(d) == L.IsChoice(g, x)
    && (!IsChoice(d) ==> TagOfSpec(d) == M.EffectiveTag(g[x]) && ClassOfSpec(d) == M.EffectiveClass(g[x]))
    && (if d.unlimited then |d.children| == 1 else |d.children| == |g[x].children|)
    && forall i :: 0 <= i < |g[x].children| ==> Instance(ChildSpec(d, i), g, g[x].children[i])
  }

  function Index(cs: seq<L.Id>, c: L.Id): (i: nat)
    requires c in cs
    ensures i < |cs| && cs[i] == c
  {
    if cs[0] == c then 0 else 1 + Index(cs[1..], c)
  }

  /** The alternative a CHOICE in the session will encode, if it is still linked. */
  ghost function Selected(g: L.Plan, st: L.Store, x: L.Id, sid: nat): (a: BerSchema.Option<nat>)
    requires L.Fits(g, st) && x in g
    ensures a.Some? ==> a.value < |g[x].children|
  {
    var s := st[x].selection;
    if s.Some? && s.value in g[x].children && st[s.value].session == sid
    then BerSchema.Some(Index(g[x].children, s.value)) else BerSchema.None
  }

  ghost function LinkOf(d: Spec, g: L.Plan, st: L.Store, x: L.Id, sid: nat): Link
    requires L.Fits(g, st) && x in g && Instance(d, g, x)
    decreases g[x].height
  {
    var cs := g[x].children;
    if st[x].session != sid then Fresh(d)
    else if IsChoice(d) then
      var a := Selected(g, st, x, sid);
      if a.None? || d.unlimited then Fresh(d)
      else
        Link(Inside, seq(|cs|, i requires 0 <= i < |cs| =>
          if i == a.value then LinkOf(ChildSpec(d, i), g, st, cs[i], sid) else Fresh(d.children[i])), BerSchema.Some(a.value))
    else
      Link(if M.IsConstructed(g[x]) then Inside else Data(st[x].value),
           seq(|cs|, i requires 0 <= i < |cs| => LinkOf(ChildSpec(d, i), g, st, cs[i], sid)), BerSchema.None)
  }

  lemma {:induction false} LinkFits(d: Spec, g: L.Plan, st: L.Store, x: L.Id, sid: nat)
    requires L.Fits(g, st) && M.Coherent(g, st) && x in g && Sound(d) && Instance(d, g, x)
    ensures LinkFitsAt(d, g, st, x, sid)
    decreases g[x].height
  {
    hide M.Coherent, Shaped, Complete, LinkOf;
    var cs := g[x].children;
    forall i | 0 <= i < |cs|
      ensures LinkFitsAt(ChildSpec(d, i), g, st, cs[i], sid) && Shaped(ChildSpec(d, i), Fresh(ChildSpec(d, i)))
    {
      LinkFits(ChildSpec(d, i), g, st, cs[i], sid);
      FreshIsShaped(ChildSpec(d, i));
    }
    FitsHere(d, g, st, x, sid);
  }

  ghost predicate LinkFitsAt(d: Spec, g: L.Plan, st: L.Store, x: L.Id, sid: nat)
    requires L.Fits(g, st) && x in g && Sound(d) && Instance(d, g, x)
  {
    && Shaped(d, LinkOf(d, g, st, x, sid)) && Complete(d, LinkOf(d, g, st, x, sid))
    && (!IsChoice(d) && st[x].session == sid ==> LinkOf(d, g, st, x, sid).here != Out)
  }

  lemma FitsHere(d: Spec, g: L.Plan, st: L.Store, x: L.Id, sid: nat)
    requires L.Fits(g, st) && M.Coherent(g, st) && x in g && Sound(d) && Instance(d, g, x)
    requires forall i :: 0 <= i < |g[x].children| ==>
               LinkFitsAt(ChildSpec(d, i), g, st, g[x].children[i], sid) && Shaped(ChildSpec(d, i), Fresh(ChildSpec(d, i)))
    ensures LinkFitsAt(d, g, st, x, sid)
  {
    hide M.Coherent, Complete, L.Tree;
    FreshIsShaped(d);
    if st[x].session == sid {
      if IsChoice(d) { ChoiceFits(d, g, st, x, sid); } else { PlainFits(d, g, st, x, sid); }
    } else {
      OutIsComplete(d);
    }
  }

  lemma OutIsComplete(d: Spec)
    requires Shaped(d, Fresh(d))
    ensures Complete(d, Fresh(d))
  {
  }

  lemma ChoiceFits(d: Spec, g: L.Plan, st: L.Store, x: L.Id, sid: nat)
    requires L.Fits(g, st) && M.Coherent(g, st) && x in g && Sound(d) && Instance(d, g, x)
    requires IsChoice(d) && st[x].session == sid && Shaped(d, Fresh(d))
    requires forall i :: 0 <= i < |g[x].children| ==>
               LinkFitsAt(ChildSpec(d, i), g, st, g[x].children[i], sid) && Shaped(ChildSpec(d, i), Fresh(ChildSpec(d, i)))
    ensures LinkFitsAt(d, g, st, x, sid)
  {
    hide M.Coherent, Shaped, Complete;
    var a := Selected(g, st, x, sid);
    if a.Some? {
      assert LinkFitsAt(ChildSpec(d, a.value), g, st, g[x].children[a.value], sid);
      SelectedFits(d, LinkOf(d, g, st, x, sid), a.value);
    } else {
      OutIsComplete(d);
    }
  }

  lemma SelectedFits(d: Spec, l: Link, a: nat)
    requires Sound(d) && IsChoice(d) && |l.kids| == |d.children| && a < |l.kids|
    requires l == Link(Inside, l.kids, BerSchema.Some(a))
    requires Shaped(d.children[a], l.kids[a]) && Complete(d.children[a], l.kids[a]) && l.kids[a].here != Out
    requires forall j :: 0 <= j < |l.kids| && j != a ==> l.kids[j] == Fresh(d.children[j])
    ensures Shaped(d, l) && Complete(d, l)
  {
    forall j | 0 <= j < |l.kids| ensures Shaped(ChildSpec(d, j), l.kids[j]) {
      if j != a { FreshIsShaped(d.children[j]); }
    }
  }

  lemma PlainFits(d: Spec, g: L.Plan, st: L.Store, x: L.Id, sid: nat)
    requires L.Fits(g, st) && M.Coherent(g, st) && x in g && Sound(d) && Instance(d, g, x)
    requires !IsChoice(d) && st[x].session == sid && Shaped(d, Fresh(d))
    requires forall i :: 0 <= i < |g[x].children| ==>
               LinkFitsAt(ChildSpec(d, i), g, st, g[x].children[i], sid) && Shaped(ChildSpec(d, i), Fresh(ChildSpec(d, i)))
    ensures LinkFitsAt(d, g, st, x, sid)
  {
  }

  /** What is linked stands for the message of the tree. */
  lemma {:induction false} LinkMeans(d: Spec, g: L.Plan, st: L.Store, x: L.Id, sid: nat)
    requires L.Fits(g, st) && M.Coherent(g, st) && x in g && Sound(d) && Instance(d, g, x)
    requires Shaped(d, LinkOf(d, g, st, x, sid))
    ensures Tlvs(d, LinkOf(d, g, st, x, sid)) == M.Message(g, st, x, sid)
    decreases g[x].height, 1, 0
  {
    hide Complete, M.Coherent, Shaped;
    var cs, l := g[x].children, LinkOf(d, g, st, x, sid);
    if st[x].session == sid {
      if IsChoice(d) {
        var a := Selected(g, st, x, sid);
        if a.Some? {
          assert l.kids[a.value] == LinkOf(ChildSpec(d, a.value), g, st, cs[a.value], sid);
          LinkFits(ChildSpec(d, a.value), g, st, cs[a.value], sid);
          LinkMeans(ChildSpec(d, a.value), g, st, cs[a.value], sid);
        }
      } else {
        KidsMean(d, g, st, x, sid, 0);
        assert cs[0..] == cs;
      }
    }
  }

  lemma {:induction false} KidsMean(d: Spec, g: L.Plan, st: L.Store, x: L.Id, sid: nat, i: nat)
    requires L.Fits(g, st) && M.Coherent(g, st) && x in g && Sound(d) && Instance(d, g, x)
    requires Shaped(d, LinkOf(d, g, st, x, sid)) && !IsChoice(d) && st[x].session == sid && i <= |g[x].children|
    ensures KidTlvs(d, LinkOf(d, g, st, x, sid).kids, i) == M.Messages(g, st, g[x].children[i..], g[x].height, sid)
    decreases g[x].height, 0, |g[x].children| - i
  {
    hide M.Coherent, Complete, M.Message, Tlvs, Instance, LinkOf, L.Tree, Shaped;
    var cs := g[x].children;
    LinkInside(d, g, st, x, sid);
    if i < |cs| {
      assert cs[i..][0] == cs[i] && cs[i..][1..] == cs[i + 1..];
      LinkFits(ChildSpec(d, i), g, st, cs[i], sid);
      LinkMeans(ChildSpec(d, i), g, st, cs[i], sid);
      KidsMean(d, g, st, x, sid, i + 1);
    }
  }

  lemma LinkInside(d: Spec, g: L.Plan, st: L.Store, x: L.Id, sid: nat)
    requires L.Fits(g, st) && x in g && Sound(d) && Instance(d, g, x)
    requires Shaped(d, LinkOf(d, g, st, x, sid)) && !IsChoice(d) && st[x].session == sid
    ensures var cs, l := g[x].children, LinkOf(d, g, st, x, sid);
            && |l.kids| == |cs| && (d.unlimited || |l.kids| == |d.children|)
            && forall i :: 0 <= i < |cs| ==>
                 && cs[i] in g && g[cs[i]].height < g[x].height && Sound(ChildSpec(d, i)) && Instance(ChildSpec(d, i), g, cs[i])
                 && l.kids[i] == LinkOf(ChildSpec(d, i), g, st, cs[i], sid) && Shaped(ChildSpec(d, i), l.kids[i])
  {
  }

  /** What Node.Encode writes of a linked tree, decoded with a fresh copy of the definition the
      tree was made from, links in it what was linked in the tree, and encoding the decoded
      nodes gives the same octets. */
  lemma EncodedTreeRoundTrip(d: Spec, g: L.Plan, st: L.Store, root: L.Id, sid: nat, rest: seq<byte>, pool: nat, was: seq<byte>)
    requires M.Encodable(g, st, sid) && root in g && Sound(d) && Distinguished(d) && Instance(d, g, root)
    requires var ts := M.Message(g, st, root, sid); |was| == |BerAll(ts)| <= MAX_LENGTH && AllSmallTags(ts)
    ensures var ts := M.Message(g, st, root, sid); var r := SchemaDecode(BerAll(ts) + rest, |BerAll(ts)|, d, pool);
            var l := LinkOf(d, g, st, root, sid);
            && Shaped(d, l) && Tlvs(d, l) == ts
            && if Total(ts) <= pool then
                 && r.Read? && r.level.kids == [Packed(d, l)] && Plains(r.nodes) == ts
                 && AllSized(r.nodes) && KeptSizes(r.nodes) == |was| && AllOver(r.nodes, was) == BerAll(ts)
               else r == Bad(400)
  {
    hide LinkOf, Instance, Distinguished, BerAll, Tlvs, AllOver, Packed, SchemaDecode, Complete, L.Right;
    LinkFits(d, g, st, root, sid);
    LinkMeans(d, g, st, root, sid);
    SchemaRoundTrip(d, LinkOf(d, g, st, root, sid), rest, pool, was);
  }
}
