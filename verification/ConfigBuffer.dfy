/** The form of show_config that writes into a buffer in one pass: it writes every block and
    takes it back if nothing was written inside. */
module ConfigBuffer {
  import opened ConfigTree

  // ---------------------------------------------------------------- what should be written

  function Tabs(n: nat): (s: string)
    ensures |s| == n
  {
    if n == 0 then "" else "\t" + Tabs(n - 1)
  }

  /** The tree without templates, items without a value and blocks with nothing left in them. */
  function Pruned(ts: seq<Tree>): seq<Tree> {
    if ts == [] then [] else PrunedNode(ts[0]) + Pruned(ts[1..])
  }

  function PrunedNode(t: Tree): seq<Tree> {
    if t.isTemplate then []
    else
      match t.kind
      case Block => var ts := Pruned(t.children); if ts == [] then [] else [t.(children := ts)]
      case Item => if t.newValue == "" then [] else [t]
      case OtherKind => []
  }

  /** Every node as text, without any choice. */
  function Render(ts: seq<Tree>, depth: nat): string {
    if ts == [] then "" else RenderNode(ts[0], depth) + Render(ts[1..], depth)
  }

  function RenderNode(t: Tree, depth: nat): string {
    if t.kind == Item then Tabs(depth) + t.name + "\t\"" + t.newValue + "\"\n"
    else Opening(t, depth) + Render(t.children, depth + 1) + Closing(depth)
  }

  function Opening(t: Tree, depth: nat): string {
    Tabs(depth) + t.name + " {\n"
  }

  function Closing(depth: nat): string {
    Tabs(depth) + "}\n"
  }

  function Shown(ts: seq<Tree>, depth: nat): string {
    Render(Pruned(ts), depth)
  }

  function ShownNode(t: Tree, depth: nat): string {
    Render(PrunedNode(t), depth)
  }

  lemma {:induction false} RenderConcat(a: seq<Tree>, b: seq<Tree>, depth: nat)
    ensures Render(a + b, depth) == Render(a, depth) + Render(b, depth)
  {
    hide RenderNode;
    if a == [] {
      assert a + b == b;
    } else {
      assert (a + b)[0] == a[0] && (a + b)[1..] == a[1..] + b;
      RenderConcat(a[1..], b, depth);
    }
  }

  lemma ShownCons(ts: seq<Tree>, depth: nat)
    requires ts != []
    ensures Shown(ts, depth) == ShownNode(ts[0], depth) + Shown(ts[1..], depth)
  {
    RenderConcat(PrunedNode(ts[0]), Pruned(ts[1..]), depth);
  }

  lemma RenderOne(t: Tree, depth: nat)
    ensures Render([t], depth) == RenderNode(t, depth)
  {
    assert [t][1..] == [];
  }

  /** Nothing is written exactly if nothing is left of the tree. */
  lemma RenderNothing(ts: seq<Tree>, depth: nat)
    ensures Render(ts, depth) == "" <==> ts == []
  {
    if ts != [] { assert |RenderNode(ts[0], depth)| >= 2; }
  }

  /** A block is shown with what is in it, or not at all. */
  lemma ShownBlock(t: Tree, depth: nat)
    requires !t.isTemplate && t.kind == Block
    ensures var inside := Shown(t.children, depth + 1);
            ShownNode(t, depth) == if inside == "" then "" else Opening(t, depth) + inside + Closing(depth)
  {
    var ts := Pruned(t.children);
    RenderNothing(ts, depth + 1);
    if ts != [] {
      RenderOne(t.(children := ts), depth);
    }
  }

  lemma ShownItem(t: Tree, depth: nat)
    requires !t.isTemplate && t.kind == Item
    ensures ShownNode(t, depth) == if t.newValue == "" then "" else Tabs(depth) + t.name + "\t\"" + t.newValue + "\"\n"
  {
    RenderOne(t, depth);
  }

  // ---------------------------------------------------------------- how far the writing goes

  /** How far past the start the buffer is written, what is taken back included. */
  function Extent(ts: seq<Tree>, depth: nat): nat {
    if ts == [] then 0
    else Max(ExtentNode(ts[0], depth), |ShownNode(ts[0], depth)| + Extent(ts[1..], depth))
  }

  function ExtentNode(t: Tree, depth: nat): nat {
    if t.isTemplate then 0
    else if t.kind == Block then
      |Opening(t, depth)| + Max(Extent(t.children, depth + 1), |Shown(t.children, depth + 1)| + |Closing(depth)|)
    else |ShownNode(t, depth)|
  }

  function Max(a: nat, b: nat): nat {
    if a < b then b else a
  }

  // ---------------------------------------------------------------- the buffer

  ghost predicate Holds(buf: array<char>, start: nat, s: string)
    reads buf
  {
    start + |s| <= buf.Length && forall k :: 0 <= k < |s| ==> buf[start + k] == s[k]
  }

  /** memcpy */
  method Put(buf: array<char>, at: nat, s: string) returns (next: nat)
    requires at + |s| <= buf.Length
    modifies buf
    ensures next == at + |s| && Holds(buf, at, s)
    ensures forall k :: 0 <= k < buf.Length && !(at <= k < next) ==> buf[k] == old(buf[k])
  {
    var i := 0;
    while i < |s|
      invariant i <= |s|
      invariant forall k :: 0 <= k < i ==> buf[at + k] == s[k]
      invariant forall k :: 0 <= k < buf.Length && !(at <= k < at + i) ==> buf[k] == old(buf[k])
    {
      buf[at + i] := s[i];
      i := i + 1;
    }
    next := at + |s|;
  }

  lemma HoldsBoth(buf: array<char>, start: nat, a: string, b: string)
    requires Holds(buf, start, a) && Holds(buf, start + |a|, b)
    ensures Holds(buf, start, a + b)
  {
    forall k | 0 <= k < |a + b| ensures buf[start + k] == (a + b)[k] {
      if k >= |a| { assert buf[start + |a| + (k - |a|)] == b[k - |a|]; }
    }
  }

  /** result points at start; the size reached is returned. */
  method ShowConfig(ts: seq<Tree>, buf: array<char>, start: nat, depth: nat) returns (size: nat)
    requires start + Extent(ts, depth) <= buf.Length
    modifies buf
    ensures size == |Shown(ts, depth)| && Holds(buf, start, Shown(ts, depth))
    ensures forall k :: 0 <= k < start ==> buf[k] == old(buf[k])
    decreases ts, 0
  {
    hide Shown, ShownNode, ExtentNode;
    var result, i := start, 0;
    size := 0;
    ghost var done: string := "";
    NothingShown(depth);
    assert ts[0..] == ts;
    while i < |ts|
      invariant i <= |ts| && done + Shown(ts[i..], depth) == Shown(ts, depth)
      invariant size == |done| && result == start + size && Holds(buf, start, done)
      invariant result + Extent(ts[i..], depth) <= buf.Length
      invariant forall k :: 0 <= k < start ==> buf[k] == old(buf[k])
    {
      ghost var t := ts[i];
      assert ts[i..][0] == t && ts[i..][1..] == ts[i + 1..];
      ShownCons(ts[i..], depth);
      var n := ShowNode(ts[i], buf, result, depth);
      HoldsBoth(buf, start, done, ShownNode(t, depth));
      done := done + ShownNode(t, depth);
      result, size, i := result + n, size + n, i + 1;
    }
    assert ts[i..] == [];
  }

  lemma NothingShown(depth: nat)
    ensures Shown([], depth) == ""
  {
  }

  /** One turn of the loop. */
  method ShowNode(t: Tree, buf: array<char>, start: nat, depth: nat) returns (size: nat)
    requires start + ExtentNode(t, depth) <= buf.Length
    modifies buf
    ensures size == |ShownNode(t, depth)| && Holds(buf, start, ShownNode(t, depth))
    ensures forall k :: 0 <= k < start ==> buf[k] == old(buf[k])
    decreases t, 1
  {
    if t.isTemplate { return 0; }
    match t.kind {
      case Block => size := ShowBlock(t, buf, start, depth);
      case Item =>
        ShownItem(t, depth);
        if t.newValue == "" { return 0; }
        var next := Put(buf, start, Tabs(depth) + t.name + "\t\"" + t.newValue + "\"\n");
        size := next - start;
      case OtherKind => return 0;
    }
  }

  method ShowBlock(t: Tree, buf: array<char>, start: nat, depth: nat) returns (size: nat)
    requires !t.isTemplate && t.kind == Block && start + ExtentNode(t, depth) <= buf.Length
    modifies buf
    ensures size == |ShownNode(t, depth)| && Holds(buf, start, ShownNode(t, depth))
    ensures forall k :: 0 <= k < start ==> buf[k] == old(buf[k])
    decreases t, 0
  {
    hide Shown, ShownNode, Extent;
    ShownBlock(t, depth);
    ghost var opening, inside, closing := Opening(t, depth), Shown(t.children, depth + 1), Closing(depth);
    var result := Put(buf, start, Tabs(depth) + t.name + " {\n");
    size := depth + |t.name| + 3;
    var inner := ShowConfig(t.children, buf, result, depth + 1);
    HoldsBoth(buf, start, opening, inside);
    result := Put(buf, result + inner, Tabs(depth) + "}\n");
    size := size + depth + inner + 2;
    HoldsBoth(buf, start, opening + inside, closing);
    if inner == 0 {
      // taken back
      size := size - (depth * 2 + |t.name| + 5);
    }
  }
}
