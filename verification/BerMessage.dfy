/** The message a linked tree stands for, and the proof that the maintained lengths are the
    lengths of its encoding. */
module BerMessage {
  import opened BerOctets
  import opened BerTlv
  import opened BerDecode
  import opened BerLengths

  // ---------------------------------------------------------------- meaning

  /** encode resolves an unset tag to the universal one. */
  function EffectiveTag(i: Info): int {
    if i.tag == -1 then i.uni else i.tag
  }

  function EffectiveClass(i: Info): TagClass {
    if i.tag == -1 then Universal else i.cls
  }

  function IsConstructed(i: Info): bool {
    i.complexity == ConstructedForm || (i.complexity == UnknownForm && i.children != [])
  }

  /** A tree whose declared complexities agree with where its data is, with tags that can be
      written. */
  ghost predicate Coherent(g: Plan, st: Store)
    requires Fits(g, st)
  {
    forall x | x in g && !IsChoice(g, x) ::
      && (if g[x].tag == -1 then g[x].uni <= 30 else g[x].tag >= 0)
      && (g[x].children != [] ==> g[x].complexity != PrimitiveForm)
      && (g[x].children == [] && g[x].complexity == ConstructedForm ==> st[x].value == [])
  }

  /** The TLVs of x in session sid: none if x is out of the session. */
  ghost function Message(g: Plan, st: Store, x: Id, sid: nat): (ts: seq<Tlv>)
    requires Fits(g, st) && x in g
    ensures |ts| <= 1
    decreases g[x].height, 1, 0
  {
    if st[x].session != sid then []
    else if IsChoice(g, x) then
      if st[x].selection.Some? && st[x].selection.value in g[x].children
      then Message(g, st, st[x].selection.value, sid) else []
    else if EffectiveTag(g[x]) < 0 then []
    else if IsConstructed(g[x]) then
      [Constructed(EffectiveClass(g[x]), EffectiveTag(g[x]), Messages(g, st, g[x].children, g[x].height, sid))]
    else [Primitive(EffectiveClass(g[x]), EffectiveTag(g[x]), st[x].value)]
  }

  ghost function Messages(g: Plan, st: Store, cs: seq<Id>, below: nat, sid: nat): seq<Tlv>
    requires Fits(g, st) && forall i :: 0 <= i < |cs| ==> cs[i] in g && g[cs[i]].height < below
    decreases below, 0, |cs|
  {
    if cs == [] then [] else Message(g, st, cs[0], sid) + Messages(g, st, cs[1..], below, sid)
  }

  // ---------------------------------------------------------------- lengths

  /** Every alternative of every CHOICE has a tag of one octet. */
  ghost predicate ShortAlternatives(g: Plan)
    requires Tree(g)
  {
    forall x, i | x in g && IsChoice(g, x) && 0 <= i < |g[x].children| :: TagSize(g[g[x].children[i]].tag) == 1
  }

  ghost predicate NoneTooLong(g: Plan, st: Store)
    requires Fits(g, st)
  {
    forall x | x in g && !IsChoice(g, x) :: st[x].len <= MAX_LENGTH
  }

  ghost predicate Encodable(g: Plan, st: Store, sid: nat) {
    Fits(g, st) && Right(g, st, sid) && Coherent(g, st) && ShortAlternatives(g) && NoneTooLong(g, st)
  }

  lemma {:induction false} AlwaysExact(g: Plan, st: Store, x: Id, sid: nat)
    requires Fits(g, st) && ShortAlternatives(g) && x in g
    ensures Exact(g, st, x, sid)
    decreases g[x].height
  {
    hide TagSize;
    if IsChoice(g, x) && st[x].session == sid && st[x].selection.Some? && st[x].selection.value in g[x].children {
      var s := st[x].selection.value;
      AlwaysExact(g, st, s, sid);
      SelectionShort(g, x, s);
      assert SelectedTagSize(g, st, x, sid) == SelectedTagSize(g, st, s, sid) == 1;
    } else if IsChoice(g, x) {
      ChoiceTag(g, x);
    }
  }

  lemma SelectionShort(g: Plan, x: Id, s: Id)
    requires Tree(g) && ShortAlternatives(g) && x in g && IsChoice(g, x) && s in g[x].children && s in g
    ensures TagSize(g[s].tag) == 1
  {
    var i :| 0 <= i < |g[x].children| && g[x].children[i] == s;
  }

  lemma ChoiceTag(g: Plan, x: Id)
    requires Tree(g) && x in g && IsChoice(g, x)
    ensures TagSize(g[x].tag) == 1
  {
  }

  /** Every stored size is the size of the node's encoding, and every stored length the
      number of its contents octets. */
  lemma {:induction false} SizesAreEncodings(g: Plan, st: Store, x: Id, sid: nat)
    requires Encodable(g, st, sid) && x in g
    ensures StoredSize(g, st, x, sid) == |BerAll(Message(g, st, x, sid))|
    ensures !IsChoice(g, x) && st[x].session == sid ==>
              |Message(g, st, x, sid)| == 1 && st[x].len == |BerContents(Message(g, st, x, sid)[0])|
    decreases g[x].height, 1, 0
  {
    if st[x].session == sid {
      if IsChoice(g, x) {
        if st[x].selection.Some? && st[x].selection.value in g[x].children {
          SizesAreEncodings(g, st, st[x].selection.value, sid);
        }
      } else {
        ContentsSize(g, st, x, sid);
        NodeSize(g, st, x, sid);
      }
    }
  }

  /** The stored length of a node in the session counts its contents. */
  lemma {:induction false} ContentsSize(g: Plan, st: Store, x: Id, sid: nat)
    requires Encodable(g, st, sid) && x in g && !IsChoice(g, x) && st[x].session == sid
    ensures |Message(g, st, x, sid)| == 1 && st[x].len == |BerContents(Message(g, st, x, sid)[0])|
    decreases g[x].height, 0, |g[x].children| + 1
  {
    assert ContentsRight(g, st, x, sid);
    assert EffectiveTag(g[x]) >= 0;
    if g[x].children != [] {
      forall i | 0 <= i < |g[x].children| ensures Exact(g, st, g[x].children[i], sid) {
        AlwaysExact(g, st, g[x].children[i], sid);
      }
      LengthCountsChildren(g, st, x, sid);
      SumsAreEncodings(g, st, g[x].children, g[x].height, sid);
    }
  }

  lemma {:induction false} SumsAreEncodings(g: Plan, st: Store, cs: seq<Id>, below: nat, sid: nat)
    requires Encodable(g, st, sid)
    requires forall i :: 0 <= i < |cs| ==> cs[i] in g && g[cs[i]].height < below
    ensures SumStored(g, st, cs, sid) == |BerAll(Messages(g, st, cs, below, sid))|
    decreases below, 0, |cs|
  {
    hide Ber, Right, Coherent, ShortAlternatives, NoneTooLong, Tree;
    if cs != [] {
      SizesAreEncodings(g, st, cs[0], sid);
      SumsAreEncodings(g, st, cs[1..], below, sid);
      BerAllConcat(Message(g, st, cs[0], sid), Messages(g, st, cs[1..], below, sid));
    }
  }

  lemma NodeSize(g: Plan, st: Store, x: Id, sid: nat)
    requires Encodable(g, st, sid) && x in g && !IsChoice(g, x) && st[x].session == sid
    requires |Message(g, st, x, sid)| == 1 && st[x].len == |BerContents(Message(g, st, x, sid)[0])|
    ensures StoredSize(g, st, x, sid) == |BerAll(Message(g, st, x, sid))|
  {
    hide TagOctets, LengthOctets, ContentsRight, BerContents, LengthSize;
    assert SizedRight(g, st, x, sid);
    var t := Message(g, st, x, sid)[0];
    assert BerAll([t]) == Ber(t);
    assert TagSize(t.tag) == TagSize(g[x].tag);
  }

  // ---------------------------------------------------------------- what encode changes

  /** encode writes the tag, class and complexity it resolved back into the tree. */
  function ResolvedInfo(i: Info): Info {
    i.(tag := EffectiveTag(i), cls := EffectiveClass(i),
       complexity := if IsConstructed(i) then ConstructedForm else PrimitiveForm)
  }

  /** Some nodes other than CHOICEs have been resolved. */
  ghost predicate Resolved(g: Plan, g': Plan) {
    && g.Keys == g'.Keys
    && forall x | x in g :: g'[x] == g[x] || (!IsChoice(g, x) && g'[x] == ResolvedInfo(g[x]))
  }

  lemma ResolvedEncodable(g: Plan, g': Plan, st: Store, sid: nat)
    requires Encodable(g, st, sid) && Resolved(g, g')
    ensures Encodable(g', st, sid)
  {
    hide TagSize, LengthSize, Tree, CountedRight, SizedRight, ContentsRight, Coherent, ShortAlternatives, NoneTooLong;
    ResolvedTree(g, g');
    forall x | x in g ensures CountedRight(g', st, x, sid) && SizedRight(g', st, x, sid) && ContentsRight(g', st, x, sid) {
      ResolvedTag(g, g', st, x);
      ResolvedRight(g, g', st, x, sid);
    }
    ResolvedRest(g, g', st);
  }

  lemma ResolvedRest(g: Plan, g': Plan, st: Store)
    requires Fits(g, st) && Fits(g', st) && Resolved(g, g')
    requires Coherent(g, st) && ShortAlternatives(g) && NoneTooLong(g, st)
    ensures Coherent(g', st) && ShortAlternatives(g') && NoneTooLong(g', st)
  {
    hide TagSize;
    forall x, i | x in g' && IsChoice(g', x) && 0 <= i < |g'[x].children|
      ensures TagSize(g'[g'[x].children[i]].tag) == 1
    {
      ResolvedTag(g, g', st, g[x].children[i]);
    }
  }

  lemma ResolvedTree(g: Plan, g': Plan)
    requires Tree(g) && Resolved(g, g')
    ensures Tree(g')
  {
    forall x | x in g ensures g'[x].(tag := 0, cls := Universal, complexity := UnknownForm)
                           == g[x].(tag := 0, cls := Universal, complexity := UnknownForm) {}
  }

  lemma ResolvedTag(g: Plan, g': Plan, st: Store, x: Id)
    requires Fits(g, st) && Coherent(g, st) && Resolved(g, g') && x in g
    ensures TagSize(g'[x].tag) == TagSize(g[x].tag)
  {
  }

  lemma ResolvedRight(g: Plan, g': Plan, st: Store, x: Id, sid: nat)
    requires Fits(g, st) && Fits(g', st) && Resolved(g, g') && Right(g, st, sid) && x in g
    requires TagSize(g'[x].tag) == TagSize(g[x].tag)
    ensures CountedRight(g', st, x, sid) && SizedRight(g', st, x, sid) && ContentsRight(g', st, x, sid)
  {
    hide TagSize, LengthSize;
    assert CountedRight(g, st, x, sid) && SizedRight(g, st, x, sid) && ContentsRight(g, st, x, sid);
    assert g[x].parent.Some? ==> IsChoice(g', g[x].parent.value) == IsChoice(g, g[x].parent.value);
  }

  lemma {:induction false} ResolvedMessage(g: Plan, g': Plan, st: Store, x: Id, sid: nat)
    requires Fits(g, st) && Fits(g', st) && Coherent(g, st) && Resolved(g, g') && x in g
    ensures Message(g', st, x, sid) == Message(g, st, x, sid)
    decreases g[x].height, 1, 0
  {
    if st[x].session == sid {
      if IsChoice(g, x) {
        if st[x].selection.Some? && st[x].selection.value in g[x].children {
          ResolvedMessage(g, g', st, st[x].selection.value, sid);
        }
      } else {
        ResolvedMessages(g, g', st, g[x].children, g[x].height, sid);
      }
    }
  }

  lemma {:induction false} ResolvedMessages(g: Plan, g': Plan, st: Store, cs: seq<Id>, below: nat, sid: nat)
    requires Fits(g, st) && Fits(g', st) && Coherent(g, st) && Resolved(g, g')
    requires forall i :: 0 <= i < |cs| ==> cs[i] in g && g[cs[i]].height < below
    ensures Messages(g', st, cs, below, sid) == Messages(g, st, cs, below, sid)
    decreases below, 0, |cs|
  {
    if cs != [] {
      ResolvedMessage(g, g', st, cs[0], sid);
      ResolvedMessages(g, g', st, cs[1..], below, sid);
    }
  }

  /** encode may trust the octet counts it finds. */
  lemma SizesStored(g: Plan, st: Store, x: Id, sid: nat)
    requires Encodable(g, st, sid) && x in g && !IsChoice(g, x) && st[x].session == sid
    ensures st[x].tagSize == TagSize(EffectiveTag(g[x])) && st[x].lenSize == LengthSize(st[x].len)
  {
    assert SizedRight(g, st, x, sid);
  }

  /** The octets of a node in the session: its resolved identifier, its stored length, and
      its data or its children's octets. */
  lemma NodeOctets(g: Plan, st: Store, x: Id, sid: nat)
    requires Encodable(g, st, sid) && x in g && !IsChoice(g, x) && st[x].session == sid
    ensures 0 <= st[x].len <= MAX_LENGTH && EffectiveTag(g[x]) >= 0
    ensures st[x].tagSize == TagSize(EffectiveTag(g[x])) && st[x].lenSize == LengthSize(st[x].len)
    ensures var contents := if IsConstructed(g[x]) then BerAll(Messages(g, st, g[x].children, g[x].height, sid))
                            else st[x].value;
            && st[x].len == |contents|
            && BerAll(Message(g, st, x, sid))
               == TagOctets(EffectiveClass(g[x]), IsConstructed(g[x]), EffectiveTag(g[x])) + LengthOctets(st[x].len) + contents
  {
    hide TagOctets, LengthOctets, Right;
    ContentsSize(g, st, x, sid);
    SizesStored(g, st, x, sid);
    var t := Message(g, st, x, sid)[0];
    assert BerAll([t]) == Ber(t);
  }

  lemma ResolvedTwice(a: Plan, b: Plan, c: Plan)
    requires Resolved(a, b) && Resolved(b, c)
    ensures Resolved(a, c)
  {
    forall x | x in a ensures c[x] == a[x] || (!IsChoice(a, x) && c[x] == ResolvedInfo(a[x])) {
      assert ResolvedInfo(ResolvedInfo(a[x])) == ResolvedInfo(a[x]);
    }
  }

  /** The children's octets, one child at a time. */
  lemma NextChild(g: Plan, st: Store, cs: seq<Id>, i: nat, below: nat, sid: nat)
    requires Fits(g, st) && forall j :: 0 <= j < |cs| ==> cs[j] in g && g[cs[j]].height < below
    requires i < |cs|
    ensures BerAll(Messages(g, st, cs[i..], below, sid))
         == BerAll(Message(g, st, cs[i], sid)) + BerAll(Messages(g, st, cs[i + 1..], below, sid))
  {
    hide Tree, Message, BerAll;
    assert cs[i..][0] == cs[i] && cs[i..][1..] == cs[i + 1..];
    BerAllConcat(Message(g, st, cs[i], sid), Messages(g, st, cs[i + 1..], below, sid));
  }

  lemma ChoiceSelects(g: Plan, st: Store, x: Id, sid: nat)
    requires Encodable(g, st, sid) && x in g && IsChoice(g, x) && st[x].session == sid
    ensures st[x].selection.Some? && st[x].selection.value in g[x].children
    ensures st[x].selection.value in g && g[st[x].selection.value].height < g[x].height
    ensures Message(g, st, x, sid) == Message(g, st, st[x].selection.value, sid)
  {
    hide SizedRight, CountedRight, Coherent, NoneTooLong, ShortAlternatives;
    assert ContentsRight(g, st, x, sid);
  }

  lemma NodeResolved(g: Plan, st: Store, x: Id, sid: nat)
    requires Encodable(g, st, sid) && x in g && !IsChoice(g, x)
    ensures var g' := g[x := ResolvedInfo(g[x])];
            && Resolved(g, g') && Encodable(g', st, sid)
            && Messages(g', st, g[x].children, g[x].height, sid) == Messages(g, st, g[x].children, g[x].height, sid)
  {
    hide ResolvedInfo, Right, Messages, Tree, Coherent, NoneTooLong, ShortAlternatives;
    var g' := g[x := ResolvedInfo(g[x])];
    ResolvedEncodable(g, g', st, sid);
    ChildrenKnown(g, x);
    ResolvedMessages(g, g', st, g[x].children, g[x].height, sid);
  }

  lemma ChildrenKnown(g: Plan, x: Id)
    requires Tree(g) && x in g
    ensures forall i :: 0 <= i < |g[x].children| ==> g[x].children[i] in g && g[g[x].children[i]].height < g[x].height
  {
  }

  /** Whatever was linked and unlinked before, decoding what the tree then encodes gives the
      message it stands for, exactly if every tag number in it is at most 127. */
  lemma LinkedTreeRoundTrip(g: Plan, st: Store, ops: seq<Op>, root: Id, sid: nat, rest: seq<byte>, pool: nat)
    requires Fits(g, st) && Unused(g, st) && sid > 0 && (forall x | x in g :: st[x].session != sid)
    requires AllAllowed(g, st, ops, sid) && root in g
    requires var end := Run(g, st, ops, sid);
             && Coherent(g, end) && ShortAlternatives(g) && NoneTooLong(g, end)
             && |BerAll(Message(g, end, root, sid))| <= MAX_LENGTH
             && TlvLevelsFit(Message(g, end, root, sid), pool)
    ensures var ts := Message(g, Run(g, st, ops, sid), root, sid);
            && (Decode(BerAll(ts) + rest, |BerAll(ts)|, pool) == Forest(ts) <==> AllSmallTags(ts))
            && StoredSize(g, Run(g, st, ops, sid), root, sid) == |BerAll(ts)|
  {
    FreshIsRight(g, st, sid);
    RunKeeps(g, st, ops, sid);
    var end := Run(g, st, ops, sid);
    SizesAreEncodings(g, end, root, sid);
    BerRoundTrip(Message(g, end, root, sid), rest, pool);
  }
}
