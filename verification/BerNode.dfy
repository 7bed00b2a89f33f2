/** ASN1Node with its TLVNode (src/include/asn1.h): the operations of src/asn1/asn1.cpp that
    link, unlink and encode a tree in place.

    The tree is a prepared one, so linked_node is always the node itself and has no field.
    Every operation is proved against the function of module BerLengths that specifies it. */
module BerNode {
  import opened BerOctets
  import opened BerTlv
  import opened BerWire
  import opened BerLengths
  import opened BerMessage

  class Node {
    ghost const id: Id
    var uni: nat                  // uni_tag_class
    var tag: int                  // tag_value
    var cls: TagClass
    var complexity: Complexity
    var value: seq<byte>
    var tagSize: nat              // tag_value_size
    var len: int                  // value_length
    var lenSize: nat              // value_length_size
    var oldLen: int               // old_value_length
    var session: nat
    var parent: Node?
    var children: seq<Node>
    var selection: Node?          // choice_selection
    ghost var depth: nat
    ghost var height: nat

    constructor (ghost id: Id, uni: nat, tag: int, cls: TagClass, complexity: Complexity)
      ensures this.id == id && children == [] && parent == null
      ensures InfoOf() == Info(None, [], uni, tag, cls, complexity, 0, 0)
      ensures CellOf() == Cell([], 0, 0, 0, 0, 0, None)
    {
      this.id := id;
      this.uni, this.tag, this.cls, this.complexity := uni, tag, cls, complexity;
      value, tagSize, len, lenSize, oldLen, session := [], 0, 0, 0, 0, 0;
      parent, children, selection := null, [], null;
      depth, height := 0, 0;
    }

    ghost function InfoOf(): Info
      reads `parent, `children, `uni, `tag, `cls, `complexity, `depth, `height
    {
      Info(if parent == null then None else Some(parent.id), Ids(children), uni, tag, cls, complexity, depth, height)
    }

    ghost function CellOf(): Cell
      reads `value, `tagSize, `len, `lenSize, `oldLen, `session, `selection
    {
      Cell(value, tagSize, len, lenSize, oldLen, session, if selection == null then None else Some(selection.id))
    }

    /** prepare_length, and prepare_tag unless the tag is prepared. */
    method Prepare()
      modifies `lenSize, `tagSize
      ensures CellOf() == Prepared(InfoOf(), old(CellOf()))
    {
      lenSize := LengthSize(len);
      if tagSize < 1 { tagSize := TagSize(tag); }
    }

    /** One level of update_parents. */
    method CountInParent(sid: nat)
      requires parent != null && parent != this
      modifies `tagSize, `lenSize, `oldLen, parent`len, parent`lenSize, parent`session, parent`selection
      ensures CellOf() == CountedCell(InfoOf(), old(CellOf()))
      ensures parent.CellOf() == RaisedCell(parent.uni == CHOICE, old(parent.CellOf()), id, InfoOf(), old(CellOf()), sid)
      ensures parent.uni == CHOICE ==> parent.selection == this
      ensures parent.uni != CHOICE ==> parent.selection == old(parent.selection)
      ensures InfoOf() == old(InfoOf()) && parent.InfoOf() == old(parent.InfoOf())
    {
      hide TagSize, LengthSize, InfoOf;
      var delta := if tagSize < 1 then TagSize(tag) else 0;
      ghost var i := InfoOf();
      assert i.tag == tag by { SameTag(); }
      Prepare();
      delta := delta + len + lenSize - oldLen;
      parent.TakeSize(this, len, lenSize, delta, sid);
      oldLen := len + lenSize;
    }

    lemma SameTag()
      ensures InfoOf().tag == tag
    {
    }

    /** What a node does when one of its children has a new size. */
    method TakeSize(child: Node, length: int, size: nat, delta: int, sid: nat)
      modifies `len, `lenSize, `session, `selection
      ensures InfoOf() == old(InfoOf())
      ensures uni == CHOICE ==>
                selection == child
                && CellOf() == old(CellOf()).(session := sid, len := length, lenSize := size, selection := Some(child.id))
      ensures uni != CHOICE ==>
                selection == old(selection) && CellOf() == old(CellOf()).(session := sid, len := old(len) + delta)
    {
      session := sid;
      if uni != CHOICE {
        len := len + delta;
      } else {
        len := length;
        lenSize := size;
        selection := child;
      }
    }

    /** CountInParent, seen on the whole tree. */
    method CountAbove(sid: nat, ghost nodes: seq<Node>)
      requires Closed(nodes) && Fits(PlanOf(nodes), StoreOf(nodes)) && id < |nodes| && nodes[id] == this
      requires parent != null && parent != this
      modifies `tagSize, `lenSize, `oldLen, parent`len, parent`lenSize, parent`session, parent`selection
      ensures Closed(nodes) && PlanOf(nodes) == old(PlanOf(nodes))
      ensures StoreOf(nodes) == BerLengths.CountInParent(PlanOf(nodes), old(StoreOf(nodes)), id, sid)
    {
      hide Fits, CountedCell, RaisedCell, Rooted, InfoOf, PlanOf;
      ghost var st := StoreOf(nodes);
      ParentKnown(nodes);
      SnapshotAt(nodes, id);
      SnapshotAt(nodes, parent.id);
      CountInParent(sid);
      StillSelecting(nodes, parent);
      Rewritten(nodes, this, parent, st);
    }

    method PrepareRoot(ghost nodes: seq<Node>)
      requires Closed(nodes) && id < |nodes| && nodes[id] == this
      modifies `lenSize, `tagSize
      ensures Closed(nodes) && PlanOf(nodes) == old(PlanOf(nodes))
      ensures StoreOf(nodes) == old(StoreOf(nodes))[id := Prepared(PlanOf(nodes)[id], old(StoreOf(nodes))[id])]
    {
      hide Prepared, Rooted, Selecting, InfoOf, PlanOf;
      ghost var st := StoreOf(nodes);
      SnapshotAt(nodes, id);
      Prepare();
      RewrittenOne(nodes, this, st);
    }

    /** update_parents */
    method UpdateParents(sid: nat, ghost nodes: seq<Node>)
      requires Closed(nodes) && Fits(PlanOf(nodes), StoreOf(nodes)) && id < |nodes| && nodes[id] == this
      modifies nodes`tagSize, nodes`len, nodes`lenSize, nodes`oldLen,
               nodes`session, nodes`selection
      ensures Closed(nodes) && PlanOf(nodes) == old(PlanOf(nodes))
      ensures StoreOf(nodes) == BerLengths.UpdateParents(PlanOf(nodes), old(StoreOf(nodes)), id, sid)
      decreases depth
    {
      hide Tree, Closed, BerLengths.CountInParent, Prepared;
      ghost var g, st := PlanOf(nodes), StoreOf(nodes);
      assert g[id] == InfoOf();
      if parent == null {
        PrepareRoot(nodes);
      } else {
        ParentKnown(nodes);
        ParentAbove(g, st, id, sid);
        CountAbove(sid, nodes);
        parent.UpdateParents(sid, nodes);
      }
    }

    /** Assigns data, length and session, leaving the bookkeeping to update_parents. */
    method Assign(data: seq<byte>, length: int, sid: nat, ghost nodes: seq<Node>)
      requires Closed(nodes) && id < |nodes| && nodes[id] == this
      modifies `value, `len, `session
      ensures Closed(nodes) && PlanOf(nodes) == old(PlanOf(nodes))
      ensures StoreOf(nodes)
           == old(StoreOf(nodes))[id := old(CellOf()).(value := data, len := length, session := sid)]
    {
      hide Rooted, Selecting, PlanOf;
      ghost var st := StoreOf(nodes);
      SnapshotAt(nodes, id);
      value := data;
      len := length;
      session := sid;
      RewrittenOne(nodes, this, st);
    }

    /** set_linked_data without data: the node enters the session with the length it has. */
    method SetLinkedData(sid: nat, ghost nodes: seq<Node>)
      requires Closed(nodes) && Fits(PlanOf(nodes), StoreOf(nodes)) && id < |nodes| && nodes[id] == this
      modifies nodes`value, nodes`tagSize, nodes`len, nodes`lenSize, nodes`oldLen, nodes`session, nodes`selection
      ensures Closed(nodes) && PlanOf(nodes) == old(PlanOf(nodes))
      ensures StoreOf(nodes) == SetLinked(PlanOf(nodes), old(StoreOf(nodes)), id, sid)
    {
      hide Closed, PlanOf, StoreOf, Tree, BerLengths.UpdateParents;
      SnapshotAt(nodes, id);
      Assign(value, len, sid, nodes);
      UpdateParents(sid, nodes);
    }

    /** set_linked_data with the octets of a leaf. */
    method SetLinkedOctets(sid: nat, data: seq<byte>, ghost nodes: seq<Node>)
      requires Closed(nodes) && Fits(PlanOf(nodes), StoreOf(nodes)) && id < |nodes| && nodes[id] == this
      modifies nodes`value, nodes`tagSize, nodes`len, nodes`lenSize, nodes`oldLen, nodes`session, nodes`selection
      ensures Closed(nodes) && PlanOf(nodes) == old(PlanOf(nodes))
      ensures StoreOf(nodes) == SetData(PlanOf(nodes), old(StoreOf(nodes)), id, sid, data)
    {
      hide Closed, PlanOf, StoreOf, Tree, BerLengths.UpdateParents;
      SnapshotAt(nodes, id);
      Assign(data, |data|, sid, nodes);
      UpdateParents(sid, nodes);
    }

    /** unlink */
    method UnlinkData(sid: nat, ghost nodes: seq<Node>)
      requires Closed(nodes) && Fits(PlanOf(nodes), StoreOf(nodes)) && id < |nodes| && nodes[id] == this
      modifies nodes`value, nodes`tagSize, nodes`len, nodes`lenSize, nodes`oldLen, nodes`session, nodes`selection
      ensures Closed(nodes) && PlanOf(nodes) == old(PlanOf(nodes))
      ensures StoreOf(nodes) == Unlink(PlanOf(nodes), old(StoreOf(nodes)), id, sid)
    {
      hide Closed, PlanOf, StoreOf, Tree, BerLengths.UpdateParents, Forget;
      SnapshotAt(nodes, id);
      if tagSize == 0 { return; }
      var oldLength := len;
      Assign(value, 0 - tagSize - 1, sid, nodes);
      UpdateParents(sid, nodes);
      SnapshotAt(nodes, id);
      Assign(value, oldLength, 0, nodes);
      if uni == CHOICE {
        ForgetChildren(nodes);
      }
    }

    /** What unlink does to the alternatives of a CHOICE. */
    method ForgetChildren(ghost nodes: seq<Node>)
      requires Closed(nodes) && Fits(PlanOf(nodes), StoreOf(nodes)) && id < |nodes| && nodes[id] == this
      modifies nodes`session, nodes`oldLen
      ensures Closed(nodes) && PlanOf(nodes) == old(PlanOf(nodes))
      ensures StoreOf(nodes) == Forget(old(StoreOf(nodes)), PlanOf(nodes)[id].children)
    {
      hide Rooted, Selecting, Forget, PlanOf, StoreOf;
      for i := 0 to |children|
        invariant forall n | n in nodes ::
          n.session == (if n in children[..i] then 0 else old(n.session)) && n.oldLen == if n in children[..i] then 0 else old(n.oldLen)
      {
        ChildInside(nodes, i);
        children[i].session := 0;
        children[i].oldLen := 0;
      }
      assert children[..|children|] == children;
      AllForgotten(nodes);
    }

    lemma ChildInside(nodes: seq<Node>, i: nat)
      requires Rooted(nodes) && id < |nodes| && nodes[id] == this && i < |children|
      ensures children[i] in nodes
      ensures children[i].id < |nodes| && nodes[children[i].id] == children[i]
    {
    }

    twostate lemma AllForgotten(nodes: seq<Node>)
      requires old(Closed(nodes)) && id < |nodes| && nodes[id] == this && Closed(nodes)
      requires PlanOf(nodes) == old(PlanOf(nodes)) && children == old(children)
      requires forall n | n in nodes ::
        n.CellOf() == if n in children then old(n.CellOf()).(session := 0, oldLen := 0) else old(n.CellOf())
      ensures StoreOf(nodes) == Forget(old(StoreOf(nodes)), PlanOf(nodes)[id].children)
    {
    }

    // -------------------------------------------------------------- encode

    /** Takes an unset tag from the universal class and an unset complexity from the shape. */
    method Resolve(ghost nodes: seq<Node>)
      requires Closed(nodes) && id < |nodes| && nodes[id] == this
      modifies `tag, `cls, `complexity
      ensures Closed(nodes) && StoreOf(nodes) == old(StoreOf(nodes))
      ensures PlanOf(nodes) == old(PlanOf(nodes))[id := InfoOf()]
      ensures InfoOf() == ResolvedInfo(old(InfoOf()))
    {
      hide Rooted, Selecting, StoreOf, InfoOf, ResolvedInfo;
      ghost var g := PlanOf(nodes);
      ResolveFields();
      RenamedOne(nodes, this, g);
    }

    method ResolveFields()
      modifies `tag, `cls, `complexity
      ensures InfoOf() == ResolvedInfo(old(InfoOf()))
    {
      if tag == -1 {
        tag := uni;
        cls := Universal;
      }
      if complexity == UnknownForm {
        complexity := if children == [] then PrimitiveForm else ConstructedForm;
      }
    }

    /** Identifier and length octets of a resolved node: the encoder takes the octet counts
        from the node and goes on by as many. */
    method EncodeHeader(buf: array<byte>, p: nat) returns (n: nat)
      requires tag >= 0 && 0 <= len <= MAX_LENGTH
      requires tagSize == TagSize(tag) && lenSize == LengthSize(len)
      requires p + tagSize + lenSize <= buf.Length
      modifies buf
      ensures n == tagSize + lenSize
      ensures Written(buf, p, TagOctets(cls, complexity == ConstructedForm, tag) + LengthOctets(len))
      ensures OnlyWindow(buf, p, p + n)
    {
      hide TagSize, LengthSize, TagOctets, LengthOctets, PreparedTag, PreparedLength;
      PreparedTagAgrees(cls, complexity == ConstructedForm, tag);
      PreparedLengthAgrees(len);
      EncodePreparedTag(buf, p, cls, complexity == ConstructedForm, tag, tagSize);
      n := tagSize;
      EncodePreparedLength(buf, p + n, len, lenSize);
      assert Written(buf, p, TagOctets(cls, complexity == ConstructedForm, tag));
      WrittenTogether(buf, p, TagOctets(cls, complexity == ConstructedForm, tag), LengthOctets(len));
      n := n + lenSize;
    }

    /** encode: with room for the message, writes exactly its encoding and returns how many
        octets that is. */
    method Encode(buf: array<byte>, p: nat, room: int, sid: nat, ghost nodes: seq<Node>) returns (n: nat)
      requires Closed(nodes) && Encodable(PlanOf(nodes), StoreOf(nodes), sid) && id < |nodes| && nodes[id] == this
      requires |BerAll(Message(PlanOf(nodes), StoreOf(nodes), id, sid))| <= room && p + room <= buf.Length
      modifies buf, nodes`tag, nodes`cls, nodes`complexity
      ensures Closed(nodes) && StoreOf(nodes) == old(StoreOf(nodes))
      ensures Resolved(old(PlanOf(nodes)), PlanOf(nodes))
      ensures n == |old(BerAll(Message(PlanOf(nodes), StoreOf(nodes), id, sid)))|
      ensures Written(buf, p, old(BerAll(Message(PlanOf(nodes), StoreOf(nodes), id, sid))))
      ensures OnlyWindow(buf, p, p + n)
      decreases height, 1
    {
      hide Closed, PlanOf, StoreOf, Right, Tree, Coherent, ShortAlternatives, NoneTooLong, Resolved;
      SnapshotAt(nodes, id);
      NothingResolved(PlanOf(nodes));
      if room <= 0 || session != sid { return 0; }
      if uni == CHOICE {
        if selection == null { return 0; }
        SelectionKnown(sid, nodes);
        n := selection.Encode(buf, p, room, sid, nodes);
      } else {
        n := EncodeNode(buf, p, room, sid, nodes);
      }
    }

    method EncodeNode(buf: array<byte>, p: nat, room: int, sid: nat, ghost nodes: seq<Node>) returns (n: nat)
      requires Closed(nodes) && Encodable(PlanOf(nodes), StoreOf(nodes), sid) && id < |nodes| && nodes[id] == this
      requires |BerAll(Message(PlanOf(nodes), StoreOf(nodes), id, sid))| <= room && p + room <= buf.Length
      requires uni != CHOICE && session == sid
      modifies buf, nodes`tag, nodes`cls, nodes`complexity
      ensures Closed(nodes) && StoreOf(nodes) == old(StoreOf(nodes))
      ensures Resolved(old(PlanOf(nodes)), PlanOf(nodes))
      ensures n == |old(BerAll(Message(PlanOf(nodes), StoreOf(nodes), id, sid)))|
      ensures Written(buf, p, old(BerAll(Message(PlanOf(nodes), StoreOf(nodes), id, sid))))
      ensures OnlyWindow(buf, p, p + n)
      decreases height, 0, 3
    {
      hide Closed, PlanOf, StoreOf, Right, Tree, Coherent, ShortAlternatives, NoneTooLong, TagOctets, LengthOctets,
           TagSize, LengthSize, BerAll, Message, Messages;
      ghost var g, st := PlanOf(nodes), StoreOf(nodes);
      ghost var all := BerAll(Message(g, st, id, sid));
      SnapshotAt(nodes, id);
      NodeOctets(g, st, id, sid);
      HeightOfChildren(nodes);
      NodeResolved(g, st, id, sid);
      Resolve(nodes);
      ghost var g' := PlanOf(nodes);
      n := EncodeResolved(buf, p, room, sid, nodes);
      ResolvedTwice(g, g', PlanOf(nodes));
    }

    /** Header and contents of a resolved node. */
    method EncodeResolved(buf: array<byte>, p: nat, room: int, sid: nat, ghost nodes: seq<Node>) returns (n: nat)
      requires Closed(nodes) && Encodable(PlanOf(nodes), StoreOf(nodes), sid) && id < |nodes| && nodes[id] == this
      requires ChildrenBelow(PlanOf(nodes), height)
      requires complexity != ConstructedForm ==> len == |value|
      requires tag >= 0 && 0 <= len <= MAX_LENGTH && tagSize == TagSize(tag) && lenSize == LengthSize(len)
      requires tagSize + lenSize + |ContentsOctets(sid, nodes)| <= room && p + room <= buf.Length
      modifies buf, nodes`tag, nodes`cls, nodes`complexity
      ensures Closed(nodes) && StoreOf(nodes) == old(StoreOf(nodes))
      ensures Resolved(old(PlanOf(nodes)), PlanOf(nodes))
      ensures var s := old(TagOctets(cls, complexity == ConstructedForm, tag) + LengthOctets(len) + ContentsOctets(sid, nodes));
              n == |s| && Written(buf, p, s)
      ensures OnlyWindow(buf, p, p + n)
      decreases height, 0, 2
    {
      hide Closed, PlanOf, StoreOf, Right, Tree, Coherent, ShortAlternatives, NoneTooLong, TagOctets, LengthOctets,
           TagSize, LengthSize, ContentsOctets, Resolved;
      ghost var header, contents := TagOctets(cls, complexity == ConstructedForm, tag) + LengthOctets(len), ContentsOctets(sid, nodes);
      n := EncodeHeader(buf, p);
      var k := EncodeContents(buf, p + n, room - n, sid, nodes);
      assert Written(buf, p, header);
      WrittenTogether(buf, p, header, contents);
      n := n + k;
    }

    /** The contents octets of a resolved node. */
    ghost function ContentsOctets(sid: nat, nodes: seq<Node>): seq<byte>
      requires Fits(PlanOf(nodes), StoreOf(nodes)) && ChildrenBelow(PlanOf(nodes), height)
      reads this, nodes
    {
      if complexity == ConstructedForm
      then BerAll(Messages(PlanOf(nodes), StoreOf(nodes), Ids(children), height, sid)) else value
    }

    method EncodeContents(buf: array<byte>, p: nat, room: int, sid: nat, ghost nodes: seq<Node>) returns (n: nat)
      requires Closed(nodes) && Encodable(PlanOf(nodes), StoreOf(nodes), sid) && id < |nodes| && nodes[id] == this
      requires ChildrenBelow(PlanOf(nodes), height)
      requires complexity != ConstructedForm ==> len == |value|
      requires |ContentsOctets(sid, nodes)| <= room && p + room <= buf.Length
      modifies buf, nodes`tag, nodes`cls, nodes`complexity
      ensures Closed(nodes) && StoreOf(nodes) == old(StoreOf(nodes))
      ensures Resolved(old(PlanOf(nodes)), PlanOf(nodes))
      ensures n == |old(ContentsOctets(sid, nodes))| && Written(buf, p, old(ContentsOctets(sid, nodes)))
      ensures OnlyWindow(buf, p, p + n)
      decreases height, 0, 1
    {
      hide Closed, PlanOf, StoreOf, Right, Tree, Coherent, ShortAlternatives, NoneTooLong, Resolved, BerAll, Messages;
      if complexity == ConstructedForm {
        n := EncodeChildren(buf, p, room, sid, nodes);
      } else {
        CopyValue(buf, p);
        n := len;
        NothingResolved(PlanOf(nodes));
      }
    }

    method CopyValue(buf: array<byte>, p: nat)
      requires len == |value| && p + len <= buf.Length
      modifies buf
      ensures Written(buf, p, value) && OnlyWindow(buf, p, p + len)
    {
      for i := 0 to len
        invariant forall j :: 0 <= j < i ==> buf[p + j] == value[j]
        invariant OnlyWindow(buf, p, p + len)
      {
        buf[p + i] := value[i];
      }
    }

    /** encode, after n octets that stay. */
    method EncodeNext(buf: array<byte>, p: nat, n: nat, room: int, sid: nat, ghost nodes: seq<Node>, ghost done: seq<byte>)
      returns (k: nat)
      requires Closed(nodes) && Encodable(PlanOf(nodes), StoreOf(nodes), sid) && id < |nodes| && nodes[id] == this
      requires n + |BerAll(Message(PlanOf(nodes), StoreOf(nodes), id, sid))| <= room && p + room <= buf.Length
      requires |done| == n && Written(buf, p, done)
      modifies buf, nodes`tag, nodes`cls, nodes`complexity
      ensures Closed(nodes) && StoreOf(nodes) == old(StoreOf(nodes))
      ensures Resolved(old(PlanOf(nodes)), PlanOf(nodes))
      ensures k == |old(BerAll(Message(PlanOf(nodes), StoreOf(nodes), id, sid)))|
      ensures Written(buf, p, done + old(BerAll(Message(PlanOf(nodes), StoreOf(nodes), id, sid))))
      ensures OnlyWindow(buf, p + n, p + n + k)
      decreases height, 2
    {
      hide Closed, PlanOf, StoreOf, Right, Tree, Coherent, ShortAlternatives, NoneTooLong, Message, BerAll, Resolved;
      ghost var octets := BerAll(Message(PlanOf(nodes), StoreOf(nodes), id, sid));
      k := Encode(buf, p + n, room - n, sid, nodes);
      WrittenTogether(buf, p, done, octets);
    }

    method EncodeChildren(buf: array<byte>, p: nat, room: int, sid: nat, ghost nodes: seq<Node>) returns (n: nat)
      requires Closed(nodes) && Encodable(PlanOf(nodes), StoreOf(nodes), sid) && id < |nodes| && nodes[id] == this
      requires ChildrenBelow(PlanOf(nodes), height)
      requires |BerAll(Messages(PlanOf(nodes), StoreOf(nodes), Ids(children), height, sid))| <= room && p + room <= buf.Length
      modifies buf, nodes`tag, nodes`cls, nodes`complexity
      ensures Closed(nodes) && StoreOf(nodes) == old(StoreOf(nodes))
      ensures Resolved(old(PlanOf(nodes)), PlanOf(nodes))
      ensures n == |old(BerAll(Messages(PlanOf(nodes), StoreOf(nodes), Ids(children), height, sid)))|
      ensures Written(buf, p, old(BerAll(Messages(PlanOf(nodes), StoreOf(nodes), Ids(children), height, sid))))
      ensures OnlyWindow(buf, p, p + n)
      decreases height, 0, 0
    {
      hide Closed, PlanOf, StoreOf, Right, Tree, Coherent, ShortAlternatives, NoneTooLong, Message, Messages, BerAll,
           Resolved, Written;
      ghost var g, st, cs := PlanOf(nodes), StoreOf(nodes), Ids(children);
      ghost var all := BerAll(Messages(g, st, cs, height, sid));
      assert cs[0..] == cs;
      NothingResolved(g);
      n := 0;
      NothingWritten(buf, p, all);
      for i := 0 to |children|
        invariant Closed(nodes) && StoreOf(nodes) == st && Resolved(g, PlanOf(nodes)) && Encodable(PlanOf(nodes), st, sid)
        invariant n <= |all| && Written(buf, p, all[..n]) && OnlyWindow(buf, p, p + n)
        invariant all[n..] == BerAll(Messages(g, st, cs[i..], height, sid))
      {
        ghost var g' := PlanOf(nodes);
        NextChild(g, st, cs, i, height, sid);
        ResolvedMessage(g, g', st, cs[i], sid);
        ChildAt(nodes, i);
        ghost var octets := BerAll(Message(g, st, cs[i], sid));
        Advance(all, n, octets);
        var k := children[i].EncodeNext(buf, p, n, room, sid, nodes, all[..n]);
        ResolvedTwice(g, g', PlanOf(nodes));
        ResolvedEncodable(g, PlanOf(nodes), st, sid);
        n := n + k;
      }
      NoMore(g, st, cs, height, sid);
      assert all[..n] == all;
    }

    ghost predicate ChildrenBelow(g: Plan, below: nat)
      reads `children
    {
      forall i :: 0 <= i < |children| ==> children[i].id in g && g[children[i].id].height < below
    }

    /** What is known of a CHOICE in the session. */
    lemma SelectionKnown(sid: nat, nodes: seq<Node>)
      requires Closed(nodes) && Encodable(PlanOf(nodes), StoreOf(nodes), sid) && id < |nodes| && nodes[id] == this
      requires uni == CHOICE && session == sid
      ensures selection != null && selection.id < |nodes| && nodes[selection.id] == selection
      ensures selection.height < height
      ensures Message(PlanOf(nodes), StoreOf(nodes), id, sid) == Message(PlanOf(nodes), StoreOf(nodes), selection.id, sid)
    {
      hide Right, Tree, Coherent, ShortAlternatives, NoneTooLong, Message;
      SnapshotAt(nodes, id);
      ChoiceSelects(PlanOf(nodes), StoreOf(nodes), id, sid);
      SnapshotAt(nodes, selection.id);
    }

    lemma HeightOfChildren(nodes: seq<Node>)
      requires Closed(nodes) && Fits(PlanOf(nodes), StoreOf(nodes)) && id < |nodes| && nodes[id] == this
      ensures PlanOf(nodes)[id].children == Ids(children) && PlanOf(nodes)[id].height == height
      ensures ChildrenBelow(PlanOf(nodes), height)
    {
      forall i | 0 <= i < |children| ensures PlanOf(nodes)[children[i].id].height < height {
        assert PlanOf(nodes)[id].children[i] == children[i].id;
      }
    }

    lemma ChildAt(nodes: seq<Node>, i: nat)
      requires Closed(nodes) && id < |nodes| && nodes[id] == this && i < |children|
      requires Fits(PlanOf(nodes), StoreOf(nodes))
      ensures children[i].id < |nodes| && nodes[children[i].id] == children[i] && children[i].height < height
    {
      assert PlanOf(nodes)[children[i].id] == children[i].InfoOf();
      assert PlanOf(nodes)[id].children[i] == children[i].id;
    }

    lemma ParentKnown(nodes: seq<Node>)
      requires Closed(nodes) && id < |nodes| && nodes[id] == this && parent != null
      ensures parent.id < |nodes| && nodes[parent.id] == parent
      ensures PlanOf(nodes)[id].parent == Some(parent.id)
      ensures PlanOf(nodes)[id].depth == depth && PlanOf(nodes)[parent.id].depth == parent.depth
      ensures PlanOf(nodes)[parent.id].uni == parent.uni
    {
    }
  }

  /** Only p's selection has changed. */
  lemma StillSelecting(nodes: seq<Node>, p: Node)
    requires forall i | 0 <= i < |nodes| && nodes[i] != p && nodes[i].selection != null ::
      nodes[i].selection.id < |nodes| && nodes[nodes[i].selection.id] == nodes[i].selection
    requires p.selection != null ==> p.selection.id < |nodes| && nodes[p.selection.id] == p.selection
    ensures Selecting(nodes)
  {
  }

  lemma SnapshotAt(nodes: seq<Node>, i: nat)
    requires i < |nodes|
    ensures PlanOf(nodes)[i] == nodes[i].InfoOf() && StoreOf(nodes)[i] == nodes[i].CellOf()
  {
  }

  lemma RenamedOne(nodes: seq<Node>, a: Node, g: Plan)
    requires Rooted(nodes)
    requires g.Keys == PlanOf(nodes).Keys
    requires a.id < |nodes| && nodes[a.id] == a
    requires forall i | 0 <= i < |nodes| && nodes[i] != a :: nodes[i].InfoOf() == g[i]
    ensures PlanOf(nodes) == g[a.id := a.InfoOf()]
  {
    var r := g[a.id := a.InfoOf()];
    forall i | 0 <= i < |nodes| ensures PlanOf(nodes)[i] == r[i] {
      if nodes[i] != a { assert i != a.id; }
    }
  }

  lemma NothingWritten(buf: array<byte>, p: nat, s: seq<byte>)
    requires p <= buf.Length
    ensures Written(buf, p, s[..0])
  {
  }

  lemma NoMore(g: Plan, st: Store, cs: seq<Id>, below: nat, sid: nat)
    requires Fits(g, st)
    ensures BerAll(Messages(g, st, cs[|cs|..], below, sid)) == []
  {
  }

  lemma Advance(all: seq<byte>, n: nat, s: seq<byte>)
    requires n + |s| <= |all| && all[n..][..|s|] == s
    ensures all[..n + |s|] == all[..n] + s
    ensures all[n + |s|..] == all[n..][|s|..]
  {
  }

  lemma NothingResolved(g: Plan)
    ensures Resolved(g, g)
  {
  }

  /** A snapshot taken after only the cell of a may have changed. */
  lemma RewrittenOne(nodes: seq<Node>, a: Node, st: Store)
    requires Rooted(nodes)
    requires st.Keys == StoreOf(nodes).Keys
    requires a.id < |nodes| && nodes[a.id] == a
    requires forall i | 0 <= i < |nodes| && nodes[i] != a :: nodes[i].CellOf() == st[i]
    ensures StoreOf(nodes) == st[a.id := a.CellOf()]
  {
    var r := st[a.id := a.CellOf()];
    forall i | 0 <= i < |nodes| ensures StoreOf(nodes)[i] == r[i] {
      if nodes[i] != a { assert i != a.id; }
    }
  }

  /** A snapshot taken after only the cells of a and b may have changed. */
  lemma Rewritten(nodes: seq<Node>, a: Node, b: Node, st: Store)
    requires Rooted(nodes)
    requires st.Keys == StoreOf(nodes).Keys
    requires a.id < |nodes| && nodes[a.id] == a && b.id < |nodes| && nodes[b.id] == b
    requires forall i | 0 <= i < |nodes| && nodes[i] != a && nodes[i] != b :: nodes[i].CellOf() == st[i]
    ensures StoreOf(nodes) == st[b.id := b.CellOf()][a.id := a.CellOf()]
  {
    var r := st[b.id := b.CellOf()][a.id := a.CellOf()];
    forall i | 0 <= i < |nodes| ensures StoreOf(nodes)[i] == r[i] {
      if nodes[i] != a && nodes[i] != b { assert i != a.id && i != b.id; }
    }
  }

  ghost function Ids(cs: seq<Node>): (s: seq<Id>)
    ensures |s| == |cs|
    ensures forall i :: 0 <= i < |cs| ==> s[i] == cs[i].id
  {
    seq(|cs|, i requires 0 <= i < |cs| => cs[i].id)
  }

  /** The nodes of one tree, by number; every pointer stays inside. */
  ghost predicate Closed(nodes: seq<Node>)
    reads nodes
  {
    Rooted(nodes) && Selecting(nodes)
  }

  ghost predicate Rooted(nodes: seq<Node>)
    reads nodes`parent, nodes`children
  {
    forall i | 0 <= i < |nodes| ::
      && nodes[i].id == i
      && (nodes[i].parent != null ==> nodes[i].parent.id < |nodes| && nodes[nodes[i].parent.id] == nodes[i].parent)
      && (forall k :: 0 <= k < |nodes[i].children| ==>
            nodes[i].children[k].id < |nodes| && nodes[nodes[i].children[k].id] == nodes[i].children[k])
  }

  ghost predicate Selecting(nodes: seq<Node>)
    reads nodes`selection
  {
    forall i | 0 <= i < |nodes| && nodes[i].selection != null ::
      nodes[i].selection.id < |nodes| && nodes[nodes[i].selection.id] == nodes[i].selection
  }

  ghost function PlanOf(nodes: seq<Node>): (g: Plan)
    reads nodes`parent, nodes`children, nodes`uni, nodes`tag, nodes`cls, nodes`complexity, nodes`depth, nodes`height
    ensures forall i :: i in g <==> 0 <= i < |nodes|
  {
    map i | 0 <= i < |nodes| :: nodes[i].InfoOf()
  }

  ghost function StoreOf(nodes: seq<Node>): (st: Store)
    reads nodes`value, nodes`tagSize, nodes`len, nodes`lenSize, nodes`oldLen, nodes`session, nodes`selection
    ensures forall i :: i in st <==> 0 <= i < |nodes|
  {
    map i | 0 <= i < |nodes| :: nodes[i].CellOf()
  }
}
