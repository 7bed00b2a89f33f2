/** Decoded nodes as a tree in memory: when the lengths a decoder leaves in them can be counted
    on by what is linked and unlinked afterwards. */
module BerDecoded {
  import opened BerOctets
  import opened BerTlv
  import opened BerSchemaDecode
  import opened BerReencode
  import L = BerLengths
  import M = BerMessage

  /** The tree g holds what was decoded: node x is that of the element fs[x], with every field
      as the decoder sets it. */
  ghost predicate Holding(g: L.Plan, st: L.Store, fs: map<L.Id, Formed>, sid: nat) {
    && L.Fits(g, st) && fs.Keys == g.Keys
    && forall x | x in g ::
         && Readable(fs[x]) && SmallTags(Meaning(fs[x]))
         && InfoHolds(g[x], KeptOf(fs[x])) && CellHolds(st[x], KeptOf(fs[x]), sid)
         && |g[x].children| == (if fs[x].FConstructed? then |fs[x].children| else 0)
         && forall i :: 0 <= i < |g[x].children| ==> fs[g[x].children[i]] == fs[x].children[i]
  }

  predicate InfoHolds(i: L.Info, k: Kept) {
    && i.uni != L.CHOICE && i.tag == k.tag && i.cls == k.cls
    && i.complexity == if k.constructed then L.ConstructedForm else L.PrimitiveForm
  }

  predicate CellHolds(c: L.Cell, k: Kept, sid: nat) {
    && c.value == k.octets && c.tagSize == k.tagSize && c.len == k.len && c.lenSize == k.lenSize
    && c.oldLen == k.oldLen && c.session == sid
  }

  /** The octet count of the length is the least, and no child has a mark that the node's own
      length counts. */
  predicate Countable(e: Formed) {
    && |FormOctets(e.form, |Contents(e)|)| == LengthSize(|Contents(e)|)
    && (e.FConstructed? ==> forall i :: 0 <= i < |e.children| ==> e.children[i].form != ToEnd)
  }

  function Marks(es: seq<Formed>): nat {
    if es == [] then 0 else |Mark(es[0].form)| + Marks(es[1..])
  }

  lemma {:induction false} NoMarks(es: seq<Formed>)
    ensures Marks(es) == 0 <==> forall i :: 0 <= i < |es| ==> es[i].form != ToEnd
  {
    if es != [] {
      NoMarks(es[1..]);
      assert es == [es[0]] + es[1..];
    }
  }

  /** The children count for all their octets but the marks. */
  lemma {:induction false} SumOfDecoded(st: L.Store, cs: seq<L.Id>, es: seq<Formed>, sid: nat)
    requires |cs| == |es| && forall i :: 0 <= i < |cs| ==> cs[i] in st && CellHolds(st[cs[i]], KeptOf(es[i]), sid)
    ensures L.Sum(st, cs) + Marks(es) == |AllBytes(es)|
  {
    hide TagOctets, FormOctets, TagSize, TagReadBack, KeptAll, Contents;
    if cs != [] {
      SumOfDecoded(st, cs[1..], es[1..], sid);
      assert |Bytes(es[0])| == L.Counted(st[cs[0]]) + |Mark(es[0].form)|;
    }
  }

  lemma DecodedContents(g: L.Plan, st: L.Store, fs: map<L.Id, Formed>, sid: nat, x: L.Id)
    requires Holding(g, st, fs, sid) && x in g
    ensures L.CountedRight(g, st, x, sid)
    ensures L.ContentsRight(g, st, x, sid) && L.SizedRight(g, st, x, sid) <==> Countable(fs[x])
  {
    hide TagReadBack, TagSize, LengthSize, FormOctets, KeptAll, AllBytes;
    var e, cs := fs[x], g[x].children;
    TagIsSized(e.tag);
    TagCounted(e.tag);
    if e.FConstructed? && cs != [] {
      SumOfDecoded(st, cs, e.children, sid);
      NoMarks(e.children);
    }
  }

  lemma TagCounted(t: nat)
    ensures TagSize(t) > 0
  {
  }

  /** The lengths of a decoded tree are right, and so remain whatever is linked and unlinked
      afterwards, exactly if every length arrived in the fewest octets and none but the root's
      is indefinite. */
  lemma DecodedIsRight(g: L.Plan, st: L.Store, fs: map<L.Id, Formed>, sid: nat)
    requires Holding(g, st, fs, sid)
    ensures L.Right(g, st, sid) <==> forall x | x in g :: Countable(fs[x])
  {
    assert fs.Keys == g.Keys == st.Keys && L.Fits(g, st);
    hide Holding, Countable, L.CountedRight, L.ContentsRight, L.SizedRight, L.Tree;
    forall x | x in g
      ensures L.CountedRight(g, st, x, sid)
      ensures L.ContentsRight(g, st, x, sid) && L.SizedRight(g, st, x, sid) <==> Countable(fs[x])
    {
      DecodedContents(g, st, fs, sid, x);
    }
  }

  lemma NodeHeld(g: L.Plan, st: L.Store, fs: map<L.Id, Formed>, sid: nat, x: L.Id)
    requires Holding(g, st, fs, sid) && x in g
    ensures M.EffectiveTag(g[x]) == fs[x].tag && M.EffectiveClass(g[x]) == fs[x].cls
    ensures M.IsConstructed(g[x]) <==> fs[x].FConstructed?
    ensures fs[x].FPrimitive? ==> st[x].value == fs[x].contents
  {
    hide TagSize, FormOctets, AllBytes, KeptAll;
    TagIsSized(fs[x].tag);
    assert InfoHolds(g[x], KeptOf(fs[x])) && CellHolds(st[x], KeptOf(fs[x]), sid);
  }

  /** The message of a decoded tree is what was decoded. */
  lemma {:induction false} DecodedMessage(g: L.Plan, st: L.Store, fs: map<L.Id, Formed>, sid: nat, x: L.Id)
    requires Holding(g, st, fs, sid) && x in g
    ensures M.Message(g, st, x, sid) == [Meaning(fs[x])]
    decreases g[x].height, 1, 0
  {
    hide TagReadBack, TagSize, FormOctets, KeptAll, AllBytes, Readable, SmallTags;
    NodeHeld(g, st, fs, sid, x);
    if fs[x].FConstructed? { DecodedMessages(g, st, fs, sid, g[x].children, fs[x].children, g[x].height); }
  }

  lemma {:induction false} DecodedMessages(g: L.Plan, st: L.Store, fs: map<L.Id, Formed>, sid: nat, cs: seq<L.Id>, es: seq<Formed>,
                                           below: nat)
    requires Holding(g, st, fs, sid) && |cs| == |es|
    requires forall i :: 0 <= i < |cs| ==> cs[i] in g && g[cs[i]].height < below && fs[cs[i]] == es[i]
    ensures M.Messages(g, st, cs, below, sid) == Meanings(es)
    decreases below, 0, |cs|
  {
    hide Holding;
    if cs != [] {
      DecodedMessage(g, st, fs, sid, cs[0]);
      DecodedMessages(g, st, fs, sid, cs[1..], es[1..], below);
    }
  }
}
