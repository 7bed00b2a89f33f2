/** The length bookkeeping of src/asn1/asn1.cpp as functions on a snapshot of the tree:
    update_parents, set_linked_data and unlink, the invariant they keep, and what it means.

    A snapshot maps every node of the tree to the part that stays as the tree was prepared
    (Info) and to the part that linking and unlinking change (Cell). */
module BerLengths {
  import opened BerOctets

  /** uni_tag_class of a CHOICE. */
  const CHOICE: nat := 0xff

  datatype Option<+T> = None | Some(value: T)

  /** Nodes are known by number here. */
  type Id = nat

  datatype Complexity = PrimitiveForm | ConstructedForm | UnknownForm

  datatype Info = Info(
    parent: Option<Id>,
    children: seq<Id>,
    uni: nat,                 // uni_tag_class
    tag: int,                 // tag_value, -1 for the universal tag
    cls: TagClass,
    complexity: Complexity,
    depth: nat,
    height: nat)

  datatype Cell = Cell(
    value: seq<byte>,         // the octets a leaf carries
    tagSize: nat,             // tag_value_size, 0 until prepared
    len: int,                 // value_length
    lenSize: nat,             // value_length_size
    oldLen: int,              // old_value_length: what the parent has counted for len and lenSize
    session: nat,
    selection: Option<Id>)    // choice_selection

  type Plan = map<Id, Info>
  type Store = map<Id, Cell>

  // ---------------------------------------------------------------- the tree

  predicate IsChoice(g: Plan, x: Id)
    requires x in g
  {
    g[x].uni == CHOICE
  }

  /** Parents and children agree; the tree is acyclic; a CHOICE has alternatives and a tag of
      one octet (it has none of its own). */
  ghost predicate Tree(g: Plan) {
    forall x | x in g ::
      && (g[x].parent.Some? ==>
            && g[x].parent.value in g
            && x in g[g[x].parent.value].children
            && g[x].depth == g[g[x].parent.value].depth + 1)
      && (forall i :: 0 <= i < |g[x].children| ==>
            && g[x].children[i] in g
            && g[g[x].children[i]].parent == Some(x)
            && g[g[x].children[i]].height < g[x].height)
      && (forall i, j :: 0 <= i < j < |g[x].children| ==> g[x].children[i] != g[x].children[j])
      && (IsChoice(g, x) ==> g[x].children != [] && g[x].tag <= 30)
  }

  ghost predicate Fits(g: Plan, st: Store) {
    Tree(g) && st.Keys == g.Keys
  }

  // ---------------------------------------------------------------- operations

  /** prepare_length, and prepare_tag if the tag has not been prepared. */
  function Prepared(i: Info, c: Cell): Cell {
    c.(lenSize := LengthSize(c.len), tagSize := if c.tagSize < 1 then TagSize(i.tag) else c.tagSize)
  }

  /** A node once its parent has counted it. */
  function CountedCell(i: Info, c: Cell): Cell {
    var c' := Prepared(i, c);
    c'.(oldLen := c'.len + c'.lenSize)
  }

  /** The parent u of node x with cell c once it has counted x's new size. */
  function RaisedCell(choice: bool, u: Cell, x: Id, i: Info, c: Cell, sid: nat): Cell {
    var c' := Prepared(i, c);
    if choice then u.(session := sid, len := c'.len, lenSize := c'.lenSize, selection := Some(x))
    else
      var delta := c'.len + c'.lenSize - c.oldLen + if c.tagSize < 1 then c'.tagSize else 0;
      u.(session := sid, len := u.len + delta)
  }

  /** One level of update_parents: x's new size is counted in its parent. */
  function CountInParent(g: Plan, st: Store, x: Id, sid: nat): Store
    requires x in g && x in st && g[x].parent.Some?
    requires g[x].parent.value in g && g[x].parent.value in st
  {
    var p := g[x].parent.value;
    st[p := RaisedCell(IsChoice(g, p), st[p], x, g[x], st[x], sid)][x := CountedCell(g[x], st[x])]
  }

  ghost function UpdateParents(g: Plan, st: Store, x: Id, sid: nat): (r: Store)
    requires Fits(g, st) && x in g
    ensures r.Keys == st.Keys
    decreases g[x].depth
  {
    if g[x].parent.None? then st[x := Prepared(g[x], st[x])]
    else UpdateParents(g, CountInParent(g, st, x, sid), g[x].parent.value, sid)
  }

  /** set_linked_data without data. */
  ghost function SetLinked(g: Plan, st: Store, x: Id, sid: nat): Store
    requires Fits(g, st) && x in g
  {
    UpdateParents(g, st[x := st[x].(session := sid)], x, sid)
  }

  /** set_linked_data with the octets of a leaf. */
  ghost function SetData(g: Plan, st: Store, x: Id, sid: nat, data: seq<byte>): Store
    requires Fits(g, st) && x in g
  {
    UpdateParents(g, st[x := st[x].(value := data, len := |data|, session := sid)], x, sid)
  }

  /** Clears session and old_value_length of the alternatives of a CHOICE. */
  function Forget(st: Store, cs: seq<Id>): (r: Store)
    requires forall i :: 0 <= i < |cs| ==> cs[i] in st
    ensures r.Keys == st.Keys
    ensures forall y | y in st :: r[y] == if y in cs then st[y].(session := 0, oldLen := 0) else st[y]
  {
    map y | y in st :: if y in cs then st[y].(session := 0, oldLen := 0) else st[y]
  }

  /** unlink: the length is replaced by one that makes the node count for nothing, and put
      back once the parents know. */
  ghost function Unlink(g: Plan, st: Store, x: Id, sid: nat): Store
    requires Fits(g, st) && x in g
  {
    if st[x].tagSize == 0 then st
    else
      var gone := st[x := st[x].(len := -1 - st[x].tagSize, session := sid)];
      var told := UpdateParents(g, gone, x, sid);
      var back := told[x := told[x].(session := 0, len := st[x].len)];
      if IsChoice(g, x) then Forget(back, g[x].children) else back
  }

  // ---------------------------------------------------------------- the invariant

  /** What the parent's length counts for a node. */
  function Counted(c: Cell): int {
    c.tagSize + c.oldLen
  }

  function Sum(st: Store, cs: seq<Id>): int
    requires forall i :: 0 <= i < |cs| ==> cs[i] in st
  {
    if cs == [] then 0 else Counted(st[cs[0]]) + Sum(st, cs[1..])
  }

  /** The parent has counted a node exactly if it is in the session. */
  ghost predicate CountedRight(g: Plan, st: Store, x: Id, sid: nat)
    requires Fits(g, st) && x in g
  {
    g[x].parent.Some? && !IsChoice(g, g[x].parent.value) ==>
      Counted(st[x]) == if st[x].session == sid then st[x].tagSize + st[x].lenSize + st[x].len else 0
  }

  predicate SizedRight(g: Plan, st: Store, x: Id, sid: nat)
    requires x in g && x in st
  {
    && (st[x].tagSize == 0 || st[x].tagSize == TagSize(g[x].tag))
    && (st[x].session == sid ==> st[x].tagSize > 0 && st[x].lenSize == LengthSize(st[x].len))
  }

  /** The stored length: the data's, the sum of what is counted for the children, or the
      selected alternative's. The last is a negative stand-in once that alternative has been
      unlinked. */
  ghost predicate ContentsRight(g: Plan, st: Store, x: Id, sid: nat)
    requires Fits(g, st) && x in g
  {
    var c := st[x];
    if IsChoice(g, x) then
      c.session == sid ==>
        && c.selection.Some? && c.selection.value in g[x].children
        && var s := st[c.selection.value];
           s.tagSize > 0 && c.len == if s.session == sid then s.len else -1 - s.tagSize
    else if g[x].children == [] then c.len == |c.value|
    else c.len == Sum(st, g[x].children)
  }

  ghost predicate Right(g: Plan, st: Store, sid: nat)
    requires Fits(g, st)
  {
    forall x | x in g :: CountedRight(g, st, x, sid) && SizedRight(g, st, x, sid) && ContentsRight(g, st, x, sid)
  }

  /** In the middle of an update x has a new size that its parent has not counted. `hole` is
      a node whose own contents are being changed. */
  ghost predicate Pending(g: Plan, st: Store, x: Id, sid: nat, hole: Option<Id>)
    requires Fits(g, st) && x in g
  {
    && st[x].session == sid
    && (st[x].tagSize == 0 || st[x].tagSize == TagSize(g[x].tag))
    && (forall y | y in g && y != x :: CountedRight(g, st, y, sid) && SizedRight(g, st, y, sid))
    && (forall y | y in g && Some(y) != hole && !(Some(y) == g[x].parent && IsChoice(g, y)) ::
          ContentsRight(g, st, y, sid))
  }

  /** Nothing linked yet: a fresh or reset tree. */
  ghost predicate Unused(g: Plan, st: Store)
    requires Fits(g, st)
  {
    forall x | x in g :: st[x].tagSize == 0 && st[x].len == 0 && st[x].oldLen == 0 && st[x].value == []
  }

  // ---------------------------------------------------------------- the invariant is kept

  lemma {:induction false} SumChanged(st: Store, st': Store, cs: seq<Id>, x: Id)
    requires forall i :: 0 <= i < |cs| ==> cs[i] in st && cs[i] in st'
    requires forall i, j :: 0 <= i < j < |cs| ==> cs[i] != cs[j]
    requires forall i :: 0 <= i < |cs| && cs[i] != x ==> Counted(st[cs[i]]) == Counted(st'[cs[i]])
    ensures Sum(st', cs) == Sum(st, cs) + if x in cs then Counted(st'[x]) - Counted(st[x]) else 0
  {
    if cs != [] {
      SumChanged(st, st', cs[1..], x);
      assert cs == [cs[0]] + cs[1..];
    }
  }

  /** Nodes away from the change keep their contents right. */
  lemma ContentsUntouched(g: Plan, st: Store, st': Store, y: Id, x: Id, p: Id, sid: nat)
    requires Fits(g, st) && Fits(g, st') && y in g && x in g && p in g
    requires g[x].parent == Some(p) && y != p
    requires forall z | z in g && z != x && z != p :: st[z] == st'[z]
    requires st[y].(tagSize := 0, lenSize := 0, oldLen := 0) == st'[y].(tagSize := 0, lenSize := 0, oldLen := 0)
    requires Counted(st'[p]) == Counted(st[p])
    requires !(Some(y) == g[p].parent && IsChoice(g, y))
    requires ContentsRight(g, st, y, sid)
    ensures ContentsRight(g, st', y, sid)
  {
    hide SizedRight;
    assert x !in g[y].children;
    if !IsChoice(g, y) {
      SumChanged(st, st', g[y].children, x);
    } else {
      assert p !in g[y].children;
    }
  }

  lemma CountedUntouched(g: Plan, st: Store, st': Store, y: Id, x: Id, p: Id, sid: nat)
    requires Fits(g, st) && Fits(g, st') && y in g && y != p && y != x
    requires st[y] == st'[y]
    requires CountedRight(g, st, y, sid) && SizedRight(g, st, y, sid)
    ensures CountedRight(g, st', y, sid) && SizedRight(g, st', y, sid)
  {
  }

  lemma ParentRecounted(g: Plan, st: Store, x: Id, sid: nat, hole: Option<Id>)
    requires Fits(g, st) && x in g && Pending(g, st, x, sid, hole)
    requires g[x].parent.Some? && g[x].parent != hole && g[x].parent.value in g
    ensures var st', p := CountInParent(g, st, x, sid), g[x].parent.value;
            && Fits(g, st') && p != x
            && CountedRight(g, st', x, sid) && SizedRight(g, st', x, sid)
            && ContentsRight(g, st', p, sid)
            && st'[p].session == sid && st'[p].tagSize == st[p].tagSize && st'[p].oldLen == st[p].oldLen
  {
    hide TagSize, LengthSize, Tree, CountedRight, SizedRight, ContentsRight, Sum, Counted, Pending;
    var p := g[x].parent.value;
    ParentOf(g, x);
    PendingSelf(g, st, x, sid, hole);
    ChildRecounted(g, st, x, sid);
    if IsChoice(g, p) {
      ChoiceRecounted(g, st, x, sid);
    } else {
      PendingParent(g, st, x, sid, hole);
      SumRecounted(g, st, x, sid);
    }
  }

  lemma ParentOf(g: Plan, x: Id)
    requires Tree(g) && x in g && g[x].parent.Some?
    ensures g[x].parent.value in g && g[x].parent.value != x && x in g[g[x].parent.value].children
    ensures var cs := g[g[x].parent.value].children;
            (forall i :: 0 <= i < |cs| ==> cs[i] in g && cs[i] != g[x].parent.value)
            && forall i, j :: 0 <= i < j < |cs| ==> cs[i] != cs[j]
  {
  }

  lemma PendingSelf(g: Plan, st: Store, x: Id, sid: nat, hole: Option<Id>)
    requires Fits(g, st) && x in g && Pending(g, st, x, sid, hole)
    ensures st[x].session == sid && (st[x].tagSize == 0 || st[x].tagSize == TagSize(g[x].tag))
  {
  }

  lemma PendingParent(g: Plan, st: Store, x: Id, sid: nat, hole: Option<Id>)
    requires Fits(g, st) && x in g && Pending(g, st, x, sid, hole)
    requires g[x].parent.Some? && g[x].parent != hole && g[x].parent.value in g && !IsChoice(g, g[x].parent.value)
    ensures ContentsRight(g, st, g[x].parent.value, sid)
  {
  }

  lemma ChildRecounted(g: Plan, st: Store, x: Id, sid: nat)
    requires Fits(g, st) && x in g && g[x].parent.Some? && g[x].parent.value in g && g[x].parent.value != x
    requires st[x].session == sid && (st[x].tagSize == 0 || st[x].tagSize == TagSize(g[x].tag))
    ensures var st' := CountInParent(g, st, x, sid);
            Fits(g, st') && CountedRight(g, st', x, sid) && SizedRight(g, st', x, sid)
  {
    hide TagSize, LengthSize, Tree;
  }

  lemma ChoiceRecounted(g: Plan, st: Store, x: Id, sid: nat)
    requires Fits(g, st) && x in g && g[x].parent.Some? && g[x].parent.value in g && g[x].parent.value != x
    requires IsChoice(g, g[x].parent.value) && x in g[g[x].parent.value].children && st[x].session == sid
    ensures Fits(g, CountInParent(g, st, x, sid)) && ContentsRight(g, CountInParent(g, st, x, sid), g[x].parent.value, sid)
  {
    hide TagSize, LengthSize, Tree;
  }

  lemma SumRecounted(g: Plan, st: Store, x: Id, sid: nat)
    requires Fits(g, st) && x in g && g[x].parent.Some? && g[x].parent.value in g && g[x].parent.value != x
    requires !IsChoice(g, g[x].parent.value) && x in g[g[x].parent.value].children && ContentsRight(g, st, g[x].parent.value, sid)
    ensures Fits(g, CountInParent(g, st, x, sid)) && ContentsRight(g, CountInParent(g, st, x, sid), g[x].parent.value, sid)
  {
    hide TagSize, LengthSize, Tree;
    var p, st' := g[x].parent.value, CountInParent(g, st, x, sid);
    ParentOf(g, x);
    SumChanged(st, st', g[p].children, x);
  }

  lemma CountInParentKeeps(g: Plan, st: Store, x: Id, sid: nat, hole: Option<Id>)
    requires Fits(g, st) && x in g && Pending(g, st, x, sid, hole)
    requires g[x].parent.Some? && g[x].parent != hole && g[x].parent.value in g
    ensures var st' := CountInParent(g, st, x, sid);
            && Fits(g, st')
            && CountedRight(g, st', x, sid) && SizedRight(g, st', x, sid)
            && Pending(g, st', g[x].parent.value, sid, hole)
  {
    hide TagSize, LengthSize, ContentsRight, CountedRight;
    var p := g[x].parent.value;
    var st' := CountInParent(g, st, x, sid);
    ParentRecounted(g, st, x, sid, hole);
    forall y | y in g && y != p ensures CountedRight(g, st', y, sid) && SizedRight(g, st', y, sid) {
      if y != x { CountedUntouched(g, st, st', y, x, p, sid); }
    }
    forall y | y in g && Some(y) != hole && !(Some(y) == g[p].parent && IsChoice(g, y))
      ensures ContentsRight(g, st', y, sid)
    {
      if y != p { ContentsUntouched(g, st, st', y, x, p, sid); }
    }
  }

  lemma RootPrepared(g: Plan, st: Store, x: Id, sid: nat, y: Id)
    requires Fits(g, st) && x in g && y in g && g[x].parent.None?
    requires ContentsRight(g, st, y, sid)
    ensures ContentsRight(g, st[x := Prepared(g[x], st[x])], y, sid)
  {
    hide TagSize, LengthSize;
    assert x !in g[y].children;
    if !IsChoice(g, y) {
      SumChanged(st, st[x := Prepared(g[x], st[x])], g[y].children, x);
    }
  }

  lemma RootCounted(g: Plan, st: Store, x: Id, sid: nat, y: Id)
    requires Fits(g, st) && x in g && y in g && g[x].parent.None?
    requires st[x].tagSize == 0 || st[x].tagSize == TagSize(g[x].tag)
    requires y != x ==> CountedRight(g, st, y, sid) && SizedRight(g, st, y, sid)
    ensures var st' := st[x := Prepared(g[x], st[x])];
            CountedRight(g, st', y, sid) && SizedRight(g, st', y, sid)
  {
  }

  /** What an update leaves alone: x's own length, and everything not above x. */
  ghost predicate OnlyAbove(g: Plan, st: Store, st': Store, x: Id)
    requires Fits(g, st) && Fits(g, st') && x in g
  {
    && st'[x].(tagSize := 0, lenSize := 0, oldLen := 0) == st[x].(tagSize := 0, lenSize := 0, oldLen := 0)
    && forall y | y in g && y != x && g[y].depth >= g[x].depth :: st'[y] == st[y]
  }

  lemma ParentAbove(g: Plan, st: Store, x: Id, sid: nat)
    requires Fits(g, st) && x in g && g[x].parent.Some?
    ensures g[x].parent.value in g && g[x].depth == g[g[x].parent.value].depth + 1
    ensures Fits(g, CountInParent(g, st, x, sid))
    ensures OnlyAbove(g, st, CountInParent(g, st, x, sid), x)
  {
    hide TagSize, LengthSize;
  }

  lemma PendingAt(g: Plan, st: Store, x: Id, sid: nat, hole: Option<Id>)
    requires Fits(g, st) && x in g && Pending(g, st, x, sid, hole) && g[x].parent.None?
    ensures st[x].tagSize == 0 || st[x].tagSize == TagSize(g[x].tag)
    ensures forall y | y in g && y != x :: CountedRight(g, st, y, sid) && SizedRight(g, st, y, sid)
    ensures forall y | y in g && Some(y) != hole :: ContentsRight(g, st, y, sid)
  {
  }

  /** An update repairs everything from x to the root. */
  lemma {:induction false} UpdateParentsKeeps(g: Plan, st: Store, x: Id, sid: nat, hole: Option<Id>)
    requires Fits(g, st) && x in g && Pending(g, st, x, sid, hole)
    requires hole.Some? ==> hole.value in g && g[hole.value].depth >= g[x].depth
    ensures var st' := UpdateParents(g, st, x, sid);
            && OnlyAbove(g, st, st', x)
            && (forall y | y in g :: CountedRight(g, st', y, sid) && SizedRight(g, st', y, sid))
            && (forall y | y in g && Some(y) != hole :: ContentsRight(g, st', y, sid))
    decreases g[x].depth
  {
    hide TagSize, LengthSize, ContentsRight, CountedRight, SizedRight, Tree, CountInParent, Pending;
    if g[x].parent.Some? {
      ParentAbove(g, st, x, sid);
      var p := g[x].parent.value;
      CountInParentKeeps(g, st, x, sid, hole);
      UpdateParentsKeeps(g, CountInParent(g, st, x, sid), p, sid, hole);
    } else {
      PendingAt(g, st, x, sid, hole);
      var st' := UpdateParents(g, st, x, sid);
      forall y | y in g && Some(y) != hole ensures ContentsRight(g, st', y, sid) {
        RootPrepared(g, st, x, sid, y);
      }
      forall y | y in g ensures CountedRight(g, st', y, sid) && SizedRight(g, st', y, sid) {
        RootCounted(g, st, x, sid, y);
      }
    }
  }

  /** Entering the session, with new data or none, leaves only x to be counted. */
  lemma EnteredPending(g: Plan, st: Store, x: Id, sid: nat, c: Cell)
    requires Fits(g, st) && Right(g, st, sid) && x in g
    requires c.session == sid && c.tagSize == st[x].tagSize && c.oldLen == st[x].oldLen
    requires IsChoice(g, x) ==> c == st[x]
    requires g[x].children != [] ==> c.len == st[x].len
    requires g[x].children == [] ==> c.len == |c.value|
    ensures Pending(g, st[x := c], x, sid, None)
  {
    hide TagSize, LengthSize;
    var st' := st[x := c];
    forall y | y in g && y != x ensures CountedRight(g, st', y, sid) && SizedRight(g, st', y, sid) {
      assert st'[y] == st[y];
    }
    forall y | y in g && !(Some(y) == g[x].parent && IsChoice(g, y)) ensures ContentsRight(g, st', y, sid) {
      assert ContentsRight(g, st, y, sid);
      EnteredContents(g, st, st', y, x, sid);
    }
  }

  lemma EnteredContents(g: Plan, st: Store, st': Store, y: Id, x: Id, sid: nat)
    requires Fits(g, st) && Fits(g, st') && y in g && x in g
    requires forall z | z in g && z != x :: st[z] == st'[z]
    requires Counted(st'[x]) == Counted(st[x])
    requires !(Some(y) == g[x].parent && IsChoice(g, y))
    requires ContentsRight(g, st, y, sid)
    requires y == x ==> if IsChoice(g, x) then st'[x] == st[x]
                        else if g[x].children != [] then st'[x].len == st[x].len
                        else st'[x].len == |st'[x].value|
    ensures ContentsRight(g, st', y, sid)
  {
    if IsChoice(g, y) {
      assert x !in g[y].children;
    } else {
      SumChanged(st, st', g[y].children, x);
    }
  }

  /** set_linked_data keeps every length right. A CHOICE that is out of the session is
      entered only through one of its alternatives. */
  lemma SetLinkedKeeps(g: Plan, st: Store, x: Id, sid: nat)
    requires Fits(g, st) && Right(g, st, sid) && x in g
    requires IsChoice(g, x) ==> st[x].session == sid
    ensures Right(g, SetLinked(g, st, x, sid), sid)
    ensures SetLinked(g, st, x, sid)[x].session == sid
  {
    assert ContentsRight(g, st, x, sid);
    EnteredPending(g, st, x, sid, st[x].(session := sid));
    UpdateParentsKeeps(g, st[x := st[x].(session := sid)], x, sid, None);
  }

  /** Giving a leaf its octets keeps every length right. */
  lemma SetDataKeeps(g: Plan, st: Store, x: Id, sid: nat, data: seq<byte>)
    requires Fits(g, st) && Right(g, st, sid) && x in g
    requires g[x].children == []
    ensures Right(g, SetData(g, st, x, sid, data), sid)
    ensures var c := SetData(g, st, x, sid, data)[x]; c.session == sid && c.value == data && c.len == |data|
  {
    var c := st[x].(value := data, len := |data|, session := sid);
    EnteredPending(g, st, x, sid, c);
    UpdateParentsKeeps(g, st[x := c], x, sid, None);
  }

  /** unlink keeps every length right, even on a node already out of the session. */
  lemma UnlinkKeeps(g: Plan, st: Store, x: Id, sid: nat)
    requires Fits(g, st) && Right(g, st, sid) && x in g && sid > 0
    ensures Right(g, Unlink(g, st, x, sid), sid)
    ensures st[x].tagSize > 0 ==> Unlink(g, st, x, sid)[x].session == 0
  {
    if st[x].tagSize > 0 {
      var gone := st[x := st[x].(len := -1 - st[x].tagSize, session := sid)];
      GonePending(g, st, x, sid);
      UpdateParentsKeeps(g, gone, x, sid, Some(x));
      var told := UpdateParents(g, gone, x, sid);
      RestoredRight(g, st, told, x, sid);
    }
  }

  lemma GonePending(g: Plan, st: Store, x: Id, sid: nat)
    requires Fits(g, st) && Right(g, st, sid) && x in g && st[x].tagSize > 0
    ensures Pending(g, st[x := st[x].(len := -1 - st[x].tagSize, session := sid)], x, sid, Some(x))
  {
    hide TagSize, LengthSize;
    var st' := st[x := st[x].(len := -1 - st[x].tagSize, session := sid)];
    assert SizedRight(g, st, x, sid);
    forall y | y in g && y != x ensures CountedRight(g, st', y, sid) && SizedRight(g, st', y, sid) {
      assert st'[y] == st[y];
    }
    forall y | y in g && y != x && !(Some(y) == g[x].parent && IsChoice(g, y)) ensures ContentsRight(g, st', y, sid) {
      assert ContentsRight(g, st, y, sid);
      EnteredContents(g, st, st', y, x, sid);
    }
  }

  /** The end of unlink, seen from one node. */
  ghost predicate Restored(g: Plan, st: Store, told: Store, x: Id, sid: nat, end: Store)
  {
    && Fits(g, st) && Fits(g, told) && Fits(g, end) && x in g && sid > 0
    && Right(g, st, sid) && st[x].tagSize > 0
    && OnlyAbove(g, st[x := st[x].(len := -1 - st[x].tagSize, session := sid)], told, x)
    && end[x] == told[x].(session := 0, len := st[x].len)
    && (forall y | y in g && y != x ::
          end[y] == if IsChoice(g, x) && y in g[x].children then told[y].(session := 0, oldLen := 0) else told[y])
  }

  lemma RestoredCounted(g: Plan, st: Store, told: Store, x: Id, sid: nat, end: Store, y: Id)
    requires Restored(g, st, told, x, sid, end) && y in g
    requires CountedRight(g, told, y, sid) && SizedRight(g, told, y, sid)
    ensures CountedRight(g, end, y, sid) && SizedRight(g, end, y, sid)
  {
    hide TagSize, ContentsRight;
    if y == x {
      assert SizedRight(g, st, x, sid);
    }
  }

  lemma RestoredSelf(g: Plan, st: Store, told: Store, x: Id, sid: nat, end: Store)
    requires Restored(g, st, told, x, sid, end)
    ensures ContentsRight(g, end, x, sid)
  {
    hide TagSize, LengthSize, CountedRight, SizedRight, Sum, Counted;
    assert ContentsRight(g, st, x, sid);
    if !IsChoice(g, x) { RestoredChildren(g, st, told, x, sid, end); }
  }

  lemma RestoredChildren(g: Plan, st: Store, told: Store, x: Id, sid: nat, end: Store)
    requires Restored(g, st, told, x, sid, end) && !IsChoice(g, x)
    ensures Sum(end, g[x].children) == Sum(st, g[x].children) && end[x].(oldLen := 0, session := 0, tagSize := 0, lenSize := 0) == st[x].(oldLen := 0, session := 0, tagSize := 0, lenSize := 0)
  {
    hide TagSize, LengthSize, CountedRight, SizedRight, ContentsRight, Right;
    forall i | 0 <= i < |g[x].children| ensures end[g[x].children[i]] == st[g[x].children[i]] && g[x].children[i] != x {
      assert g[g[x].children[i]].depth == g[x].depth + 1;
    }
    SumChanged(st, end, g[x].children, x);
  }

  /** Only the children of x itself are forgotten. */
  lemma RestoredElsewhere(g: Plan, st: Store, told: Store, x: Id, sid: nat, end: Store, y: Id)
    requires Restored(g, st, told, x, sid, end) && y in g && y != x
    ensures forall i :: 0 <= i < |g[y].children| && g[y].children[i] != x ==>
              end[g[y].children[i]] == told[g[y].children[i]]
    ensures end[y].(session := 0, oldLen := 0) == told[y].(session := 0, oldLen := 0)
    ensures end[y] != told[y] ==> end[y].session == 0
  {
    hide TagSize, LengthSize, CountedRight, SizedRight, ContentsRight;
    forall i | 0 <= i < |g[y].children| && g[y].children[i] != x
      ensures g[y].children[i] !in g[x].children
    {
      assert g[g[y].children[i]].parent == Some(y);
    }
  }

  lemma RestoredContents(g: Plan, st: Store, told: Store, x: Id, sid: nat, end: Store, y: Id)
    requires Restored(g, st, told, x, sid, end) && y in g && y != x
    requires SizedRight(g, told, x, sid)
    requires ContentsRight(g, told, y, sid)
    ensures ContentsRight(g, end, y, sid)
  {
    RestoredElsewhere(g, st, told, x, sid, end, y);
    if !IsChoice(g, y) {
      SumChanged(told, end, g[y].children, x);
    } else {
      assert SizedRight(g, st, x, sid);
    }
  }

  lemma ChildrenIn(g: Plan, x: Id)
    requires Tree(g) && x in g
    ensures forall i :: 0 <= i < |g[x].children| ==> g[x].children[i] in g
    ensures x !in g[x].children
  {
  }

  lemma RestoredRight(g: Plan, st: Store, told: Store, x: Id, sid: nat)
    requires Fits(g, st) && Fits(g, told) && Right(g, st, sid) && x in g && st[x].tagSize > 0 && sid > 0
    requires OnlyAbove(g, st[x := st[x].(len := -1 - st[x].tagSize, session := sid)], told, x)
    requires forall y | y in g :: CountedRight(g, told, y, sid) && SizedRight(g, told, y, sid)
    requires forall y | y in g && y != x :: ContentsRight(g, told, y, sid)
    ensures var back := told[x := told[x].(session := 0, len := st[x].len)];
            Right(g, if IsChoice(g, x) then Forget(back, g[x].children) else back, sid)
  {
    hide TagSize, LengthSize, CountedRight, SizedRight, ContentsRight, Tree, OnlyAbove, Sum;
    var back := told[x := told[x].(session := 0, len := st[x].len)];
    ChildrenIn(g, x);
    var end := if IsChoice(g, x) then Forget(back, g[x].children) else back;
    forall y | y in g ensures CountedRight(g, end, y, sid) && SizedRight(g, end, y, sid) && ContentsRight(g, end, y, sid) {
      RestoredCounted(g, st, told, x, sid, end, y);
      if y == x { RestoredSelf(g, st, told, x, sid, end); } else { RestoredContents(g, st, told, x, sid, end, y); }
    }
  }

  // ---------------------------------------------------------------- what the lengths mean

  /** The octets a node takes in the message, by its stored sizes. */
  ghost function StoredSize(g: Plan, st: Store, x: Id, sid: nat): int
    requires Fits(g, st) && x in g
    decreases g[x].height
  {
    if st[x].session != sid then 0
    else if !IsChoice(g, x) then st[x].tagSize + st[x].lenSize + st[x].len
    else if st[x].selection.Some? && st[x].selection.value in g[x].children then
      StoredSize(g, st, st[x].selection.value, sid)
    else 0
  }

  ghost function SumStored(g: Plan, st: Store, cs: seq<Id>, sid: nat): int
    requires Fits(g, st) && forall i :: 0 <= i < |cs| ==> cs[i] in g
  {
    if cs == [] then 0 else StoredSize(g, st, cs[0], sid) + SumStored(g, st, cs[1..], sid)
  }

  /** The tag octets of what a CHOICE finally selects. */
  ghost function SelectedTagSize(g: Plan, st: Store, x: Id, sid: nat): (k: nat)
    requires Fits(g, st) && x in g
    ensures k >= 1
    decreases g[x].height
  {
    if IsChoice(g, x) && st[x].session == sid && st[x].selection.Some? && st[x].selection.value in g[x].children
    then SelectedTagSize(g, st, st[x].selection.value, sid)
    else TagSize(g[x].tag)
  }

  /** A CHOICE is counted as if its selection had a tag of one octet. */
  ghost predicate Exact(g: Plan, st: Store, x: Id, sid: nat)
    requires Fits(g, st) && x in g
  {
    IsChoice(g, x) && st[x].session == sid ==> SelectedTagSize(g, st, x, sid) == 1
  }

  lemma {:induction false} SizeOfSelection(g: Plan, st: Store, x: Id, sid: nat)
    requires Fits(g, st) && Right(g, st, sid) && x in g && st[x].session == sid
    ensures st[x].lenSize + st[x].len == StoredSize(g, st, x, sid) - SelectedTagSize(g, st, x, sid)
    decreases g[x].height
  {
    assert SizedRight(g, st, x, sid);
    if IsChoice(g, x) {
      assert ContentsRight(g, st, x, sid);
      var s := st[x].selection.value;
      assert SizedRight(g, st, s, sid);
      if st[s].session == sid {
        SizeOfSelection(g, st, s, sid);
      }
    }
  }

  lemma {:induction false} SumIsStored(g: Plan, st: Store, cs: seq<Id>, p: Id, sid: nat)
    requires Fits(g, st) && Right(g, st, sid) && p in g && !IsChoice(g, p)
    requires forall i :: 0 <= i < |cs| ==> cs[i] in g && g[cs[i]].parent == Some(p)
    ensures Sum(st, cs) <= SumStored(g, st, cs, sid)
    ensures Sum(st, cs) == SumStored(g, st, cs, sid) <==> forall i :: 0 <= i < |cs| ==> Exact(g, st, cs[i], sid)
  {
    hide Right, Exact, StoredSize, Tree, Counted;
    if cs != [] {
      SumIsStored(g, st, cs[1..], p, sid);
      CountedIsStored(g, st, cs[0], p, sid);
      FirstExact(g, st, cs, sid);
    }
  }

  lemma FirstExact(g: Plan, st: Store, cs: seq<Id>, sid: nat)
    requires Fits(g, st) && cs != [] && forall i :: 0 <= i < |cs| ==> cs[i] in g
    ensures (forall i :: 0 <= i < |cs| ==> Exact(g, st, cs[i], sid))
       <==> Exact(g, st, cs[0], sid) && forall i :: 0 <= i < |cs[1..]| ==> Exact(g, st, cs[1..][i], sid)
  {
    hide Exact, Tree;
    if Exact(g, st, cs[0], sid) && forall i :: 0 <= i < |cs[1..]| ==> Exact(g, st, cs[1..][i], sid) {
      forall i | 0 <= i < |cs| ensures Exact(g, st, cs[i], sid) {
        if i > 0 { assert cs[i] == cs[1..][i - 1]; }
      }
    }
  }

  lemma CountedIsStored(g: Plan, st: Store, c: Id, p: Id, sid: nat)
    requires Fits(g, st) && Right(g, st, sid) && p in g && !IsChoice(g, p)
    requires c in g && g[c].parent == Some(p)
    ensures Counted(st[c]) <= StoredSize(g, st, c, sid)
    ensures Counted(st[c]) == StoredSize(g, st, c, sid) <==> Exact(g, st, c, sid)
  {
    hide SelectedTagSize, StoredSize, ContentsRight, LengthSize;
    assert CountedRight(g, st, c, sid) && SizedRight(g, st, c, sid);
    StoredUnfolded(g, st, c, sid);
    if st[c].session == sid {
      SizeOfSelection(g, st, c, sid);
    }
  }

  lemma StoredUnfolded(g: Plan, st: Store, c: Id, sid: nat)
    requires Fits(g, st) && c in g
    ensures st[c].session != sid ==> StoredSize(g, st, c, sid) == 0
    ensures !IsChoice(g, c) ==> SelectedTagSize(g, st, c, sid) == TagSize(g[c].tag)
    ensures IsChoice(g, c) ==> TagSize(g[c].tag) == 1
  {
  }

  /** The length of a constructed node is the sum of what its children in the session take,
      exactly if every CHOICE among them selects an alternative with a tag of one octet. */
  lemma LengthCountsChildren(g: Plan, st: Store, p: Id, sid: nat)
    requires Fits(g, st) && Right(g, st, sid) && p in g && !IsChoice(g, p) && g[p].children != []
    ensures st[p].len == SumStored(g, st, g[p].children, sid)
       <==> forall i :: 0 <= i < |g[p].children| ==> Exact(g, st, g[p].children[i], sid)
  {
    assert ContentsRight(g, st, p, sid);
    SumIsStored(g, st, g[p].children, p, sid);
  }

  // ---------------------------------------------------------------- sessions

  lemma {:induction false} NothingCounted(st: Store, cs: seq<Id>)
    requires forall i :: 0 <= i < |cs| ==> cs[i] in st && Counted(st[cs[i]]) == 0
    ensures Sum(st, cs) == 0
  {
    if cs != [] { NothingCounted(st, cs[1..]); }
  }

  /** A fresh tree is right for a session nothing belongs to yet. */
  lemma FreshIsRight(g: Plan, st: Store, sid: nat)
    requires Fits(g, st) && Unused(g, st)
    requires forall x | x in g :: st[x].session != sid
    ensures Right(g, st, sid)
  {
    forall x | x in g ensures ContentsRight(g, st, x, sid) {
      if !IsChoice(g, x) { NothingCounted(st, g[x].children); }
    }
  }

  /** A CHOICE in the session that takes nothing: what it finally selects has been unlinked, and
      has a tag of one octet, as the CHOICE itself has been counted. */
  ghost predicate Emptied(g: Plan, st: Store, x: Id, sid: nat)
    requires Fits(g, st) && x in g
    decreases g[x].height
  {
    && IsChoice(g, x) && st[x].session == sid && st[x].selection.Some? && st[x].selection.value in g[x].children
    && var s := st[x].selection.value;
       if st[s].session == sid then Emptied(g, st, s, sid) else TagSize(g[s].tag) == 1
  }

  /** A node whose parent counts it. */
  ghost predicate IsCounted(g: Plan, x: Id)
    requires Tree(g) && x in g
  {
    g[x].parent.Some? && !IsChoice(g, g[x].parent.value)
  }

  lemma {:induction false} EmptiedCountsNothing(g: Plan, st: Store, x: Id, sid: nat)
    requires Fits(g, st) && Right(g, st, sid) && x in g && Emptied(g, st, x, sid)
    ensures st[x].len == -2 && st[x].tagSize == 1 && st[x].lenSize == 1
    decreases g[x].height
  {
    assert ContentsRight(g, st, x, sid) && SizedRight(g, st, x, sid);
    var s := st[x].selection.value;
    assert SizedRight(g, st, s, sid);
    if st[s].session == sid { EmptiedCountsNothing(g, st, s, sid); }
  }

  /** If nothing is counted anywhere, only a CHOICE can be left in the session, and empty. */
  lemma {:induction false} OnlyEmptied(g: Plan, st: Store, x: Id, sid: nat)
    requires Fits(g, st) && Right(g, st, sid) && x in g && st[x].session == sid
    requires forall y | y in g && IsCounted(g, y) :: Counted(st[y]) == 0
    ensures Emptied(g, st, x, sid) || st[x].tagSize + st[x].lenSize + st[x].len != 0
    ensures Emptied(g, st, x, sid) || IsChoice(g, x) || st[x].len >= 0
    ensures Emptied(g, st, x, sid) || !IsChoice(g, x) || st[x].len >= 0 || st[x].len < -2
    decreases g[x].height
  {
    assert ContentsRight(g, st, x, sid) && SizedRight(g, st, x, sid);
    if IsChoice(g, x) {
      var s := st[x].selection.value;
      assert SizedRight(g, st, s, sid);
      if st[s].session == sid { OnlyEmptied(g, st, s, sid); }
    } else if g[x].children != [] {
      forall i | 0 <= i < |g[x].children| ensures Counted(st[g[x].children[i]]) == 0 {
        assert IsCounted(g, g[x].children[i]);
      }
      NothingCounted(st, g[x].children);
    }
  }

  /** A new session on a used tree starts right exactly if everything that a parent counts has
      been unlinked, or is a CHOICE whose selection has been and had a tag of one octet: the
      lengths do not start again from zero. */
  lemma NextSession(g: Plan, st: Store, sid: nat, next: nat)
    requires Fits(g, st) && Right(g, st, sid)
    requires forall x | x in g :: st[x].session != next
    ensures Right(g, st, next)
       <==> forall x | x in g && IsCounted(g, x) :: st[x].session != sid || Emptied(g, st, x, sid)
  {
    hide TagSize, LengthSize, Emptied;
    forall x | x in g ensures SizedRight(g, st, x, next) && ContentsRight(g, st, x, next) {
      assert SizedRight(g, st, x, sid) && ContentsRight(g, st, x, sid);
    }
    if Right(g, st, next) {
      forall x | x in g && IsCounted(g, x) ensures Counted(st[x]) == 0 { assert CountedRight(g, st, x, next); }
      forall x | x in g && IsCounted(g, x) && st[x].session == sid ensures Emptied(g, st, x, sid) {
        assert CountedRight(g, st, x, sid);
        OnlyEmptied(g, st, x, sid);
      }
    }
    if forall x | x in g && IsCounted(g, x) :: st[x].session != sid || Emptied(g, st, x, sid) {
      forall x | x in g ensures CountedRight(g, st, x, next) {
        assert CountedRight(g, st, x, sid);
        if IsCounted(g, x) && st[x].session == sid { EmptiedCountsNothing(g, st, x, sid); }
      }
    }
  }

  // ---------------------------------------------------------------- whole runs

  datatype Op = Link(x: Id) | Fill(x: Id, data: seq<byte>) | Drop(x: Id)

  /** Only leaves take data, and a CHOICE out of the session is entered through one of its
      alternatives. Any node may be unlinked at any time. */
  predicate Allowed(g: Plan, st: Store, op: Op, sid: nat)
    requires st.Keys == g.Keys
  {
    op.x in g &&
    match op
    case Link(x) => IsChoice(g, x) ==> st[x].session == sid
    case Fill(x, _) => g[x].children == []
    case Drop(_) => true
  }

  ghost function Apply(g: Plan, st: Store, op: Op, sid: nat): (r: Store)
    requires Fits(g, st) && op.x in g
    ensures r.Keys == st.Keys
  {
    match op
    case Link(x) => SetLinked(g, st, x, sid)
    case Fill(x, data) => SetData(g, st, x, sid, data)
    case Drop(x) => Unlink(g, st, x, sid)
  }

  ghost predicate AllAllowed(g: Plan, st: Store, ops: seq<Op>, sid: nat)
    requires Fits(g, st)
  {
    ops == [] || (Allowed(g, st, ops[0], sid) && AllAllowed(g, Apply(g, st, ops[0], sid), ops[1..], sid))
  }

  ghost function Run(g: Plan, st: Store, ops: seq<Op>, sid: nat): (r: Store)
    requires Fits(g, st) && AllAllowed(g, st, ops, sid)
    ensures r.Keys == st.Keys
  {
    if ops == [] then st else Run(g, Apply(g, st, ops[0], sid), ops[1..], sid)
  }

  lemma {:induction false} RunKeeps(g: Plan, st: Store, ops: seq<Op>, sid: nat)
    requires Fits(g, st) && Right(g, st, sid) && sid > 0 && AllAllowed(g, st, ops, sid)
    ensures Right(g, Run(g, st, ops, sid), sid)
  {
    hide Right, SetLinked, SetData, Unlink, Tree;
    if ops != [] {
      match ops[0] {
        case Link(x) => SetLinkedKeeps(g, st, x, sid);
        case Fill(x, data) => SetDataKeeps(g, st, x, sid, data);
        case Drop(x) => UnlinkKeeps(g, st, x, sid);
      }
      RunKeeps(g, Apply(g, st, ops[0], sid), ops[1..], sid);
    }
  }

  /** After any run of linking and unlinking in one session, in any order, the length of a
      constructed node is the sum of what its children in the session take, exactly if every
      CHOICE among them selects an alternative with a tag of one octet. */
  lemma LengthsAfterAnyRun(g: Plan, st: Store, ops: seq<Op>, sid: nat, p: Id)
    requires Fits(g, st) && Unused(g, st) && sid > 0 && (forall x | x in g :: st[x].session != sid)
    requires AllAllowed(g, st, ops, sid)
    requires p in g && !IsChoice(g, p) && g[p].children != []
    ensures var r := Run(g, st, ops, sid);
            (r[p].len == SumStored(g, r, g[p].children, sid)
             <==> forall i :: 0 <= i < |g[p].children| ==> Exact(g, r, g[p].children[i], sid))
  {
    FreshIsRight(g, st, sid);
    RunKeeps(g, st, ops, sid);
    LengthCountsChildren(g, Run(g, st, ops, sid), p, sid);
  }
}
