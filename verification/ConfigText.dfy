/** Reading back what show_config writes into a buffer. */
module ConfigText {
  import opened ConfigTree
  import opened ConfigBuffer

  type Path = seq<string>

  // ---------------------------------------------------------------- a reader of the text

  /** Where the first of two characters is; the end if there is none. */
  function UpTo(s: string, a: char, b: char): (k: nat)
    ensures k <= |s| && (k < |s| ==> s[k] == a || s[k] == b)
    ensures forall i :: 0 <= i < k ==> s[i] != a && s[i] != b
  {
    if s == "" || s[0] == a || s[0] == b then 0 else 1 + UpTo(s[1..], a, b)
  }

  function From(s: string, k: nat): (r: string)
    ensures |r| <= |s| && (0 < k && s != "" ==> |r| < |s|)
  {
    if k <= |s| then s[k..] else ""
  }

  /** The items with their paths: a brace opens a block behind a name, and closes one on a line of
      its own; a value stands in quotes behind a name and a tab. */
  function Read(s: string, above: Path): seq<(Path, string)>
    decreases |s|
  {
    if s == "" then []
    else if s[0] == '\t' then Read(s[1..], above)
    else if s[0] == '}' then Read(From(s, 2), if above == [] then [] else above[..|above| - 1])
    else
      var k := UpTo(s, ' ', '\t');
      var name := s[..k];
      if k == |s| then []
      else if s[k] == ' ' then Read(From(s, k + 3), above + [name])
      else
        var rest := From(s, k + 2);
        var n := UpTo(rest, '"', '"');
        [(above + [name], rest[..n])] + Read(From(rest, n + 2), above)
  }

  // ---------------------------------------------------------------- what is written

  /** Names start no brace and have no blanks, values have no quotes. */
  predicate Legible(ts: seq<Tree>) {
    forall i :: 0 <= i < |ts| ==> LegibleNode(ts[i])
  }

  predicate LegibleNode(t: Tree) {
    && t.name != "" && t.name[0] != '}' && ' ' !in t.name && '\t' !in t.name
    && '"' !in t.newValue && Legible(t.children)
  }

  /** The items of a view that have a value. */
  function Items(vs: seq<View>, above: Path): seq<(Path, string)>
    decreases vs, 0
  {
    if vs == [] then [] else ItemsNode(vs[0], above) + Items(vs[1..], above)
  }

  function ItemsNode(v: View, above: Path): seq<(Path, string)>
    decreases v, 1
  {
    match v.kind
    case Block => Items(v.children, above + [v.name])
    case Item => if v.value == "" then [] else [(above + [v.name], v.value)]
    case OtherKind => []
  }

  /** The tree as if nothing in it was to be deleted. */
  function Revived(ts: seq<Tree>): (us: seq<Tree>)
    ensures |us| == |ts|
  {
    if ts == [] then [] else [RevivedNode(ts[0])] + Revived(ts[1..])
  }

  function RevivedNode(t: Tree): Tree {
    t.(status := if t.status == Deleted then Modified else t.status, children := Revived(t.children))
  }

  // ---------------------------------------------------------------- reading it back

  lemma {:induction false} SkipsTabs(n: nat, s: string, above: Path)
    ensures Read(Tabs(n) + s, above) == Read(s, above)
    decreases n
  {
    if n == 0 {
      assert Tabs(n) + s == s;
    } else {
      var t := Tabs(n) + s;
      assert t[0] == '\t' && t[1..] == Tabs(n - 1) + s;
      SkipsTabs(n - 1, s, above);
    }
  }

  lemma {:induction false} UpToIs(a: string, c: char, b: char, d: char, rest: string)
    requires c !in a && b !in a && (d == c || d == b)
    ensures UpTo(a + [d] + rest, c, b) == |a|
  {
    var s := a + [d] + rest;
    if a != "" {
      assert s[1..] == a[1..] + [d] + rest;
      UpToIs(a[1..], c, b, d, rest);
    }
  }

  lemma ReadsItem(name: string, value: string, rest: string, above: Path)
    requires name != "" && name[0] != '}' && ' ' !in name && '\t' !in name && '"' !in value
    ensures Read(name + "\t\"" + value + "\"\n" + rest, above) == [(above + [name], value)] + Read(rest, above)
  {
    var s := name + "\t\"" + value + "\"\n" + rest;
    assert s == name + ['\t'] + ("\"" + value + "\"\n" + rest);
    UpToIs(name, ' ', '\t', '\t', "\"" + value + "\"\n" + rest);
    assert s[..|name|] == name && s[|name|] == '\t' && s[0] == name[0];
    var more := From(s, |name| + 2);
    assert more == value + ['"'] + ("\n" + rest);
    UpToIs(value, '"', '"', '"', "\n" + rest);
    assert more[..|value|] == value && From(more, |value| + 2) == rest;
  }

  lemma ReadsOpening(name: string, rest: string, above: Path)
    requires name != "" && name[0] != '}' && ' ' !in name && '\t' !in name
    ensures Read(name + " {\n" + rest, above) == Read(rest, above + [name])
  {
    var s := name + " {\n" + rest;
    assert s == name + [' '] + ("{\n" + rest);
    UpToIs(name, ' ', '\t', ' ', "{\n" + rest);
    assert s[..|name|] == name && s[|name|] == ' ' && s[0] == name[0] && From(s, |name| + 3) == rest;
  }

  lemma ReadsClosing(rest: string, above: Path, name: string)
    ensures Read("}\n" + rest, above + [name]) == Read(rest, above)
  {
    assert From("}\n" + rest, 2) == rest && (above + [name])[..|above|] == above;
  }

  /** The items a rendered tree has, in its own terms. */
  lemma {:induction false} ReadsShown(ts: seq<Tree>, depth: nat, rest: string, above: Path)
    requires Legible(ts) && WellFormed(ts)
    ensures Read(Shown(ts, depth) + rest, above) == Items(Pending(Revived(ts)), above) + Read(rest, above)
    decreases ts, 0
  {
    hide LegibleNode, WellFormedNode, Read, Shown, ShownNode, Pending, Items, Revived, RevivedNode;
    if ts == [] {
      NothingShown(depth, rest, above);
    } else {
      var t, us := ts[0], ts[1..];
      ShownCons(ts, depth);
      assert Shown(ts, depth) + rest == ShownNode(t, depth) + (Shown(us, depth) + rest);
      ReadsNode(t, depth, Shown(us, depth) + rest, above);
      ReadsShown(us, depth, rest, above);
      ItemsFirst(ts, above);
    }
  }

  lemma NothingShown(depth: nat, rest: string, above: Path)
    ensures Shown([], depth) + rest == rest && Items(Pending(Revived([])), above) == []
  {
  }

  lemma ItemsFirst(ts: seq<Tree>, above: Path)
    requires ts != []
    ensures Items(Pending(Revived(ts)), above) == Items(PendingHere(RevivedNode(ts[0])), above) + Items(Pending(Revived(ts[1..])), above)
  {
    hide PendingNode, RevivedNode, Stays;
    var us := Revived(ts);
    assert us[0] == RevivedNode(ts[0]) && us[1..] == Revived(ts[1..]);
    PendingCons(us);
    ItemsConcat(PendingHere(us[0]), Pending(us[1..]), above);
  }

  lemma {:induction false} ItemsConcat(a: seq<View>, b: seq<View>, above: Path)
    ensures Items(a + b, above) == Items(a, above) + Items(b, above)
    decreases |a|
  {
    hide ItemsNode;
    if a == [] {
      assert a + b == b;
    } else {
      assert (a + b)[0] == a[0] && (a + b)[1..] == a[1..] + b;
      ItemsConcat(a[1..], b, above);
    }
  }

  lemma {:induction false} ReadsNode(t: Tree, depth: nat, rest: string, above: Path)
    requires LegibleNode(t) && WellFormedNode(t)
    ensures Read(ShownNode(t, depth) + rest, above) == Items(PendingHere(RevivedNode(t)), above) + Read(rest, above)
    decreases t, 1
  {
    hide Read, Shown, Pending, Revived, Legible, WellFormed, UpTo, From, ShownNode;
    if t.isTemplate {
      TemplateNotShown(t, depth);
      assert ShownNode(t, depth) + rest == rest;
    } else {
      OneItems(PendingNode(RevivedNode(t)), above);
      if t.kind == Item {
        ShownItem(t, depth);
        if t.newValue == "" {
          assert ShownNode(t, depth) + rest == rest;
        } else {
          var line := t.name + "\t\"" + t.newValue + "\"\n" + rest;
          assert ShownNode(t, depth) + rest == Tabs(depth) + line;
          SkipsTabs(depth, line, above);
          ReadsItem(t.name, t.newValue, rest, above);
        }
      } else {
        BlockRead(t, depth, rest, above);
      }
    }
  }

  lemma TemplateNotShown(t: Tree, depth: nat)
    requires t.isTemplate
    ensures ShownNode(t, depth) == "" && Items(PendingHere(RevivedNode(t)), []) == [] && PendingHere(RevivedNode(t)) == []
  {
  }

  lemma OneItems(v: View, above: Path)
    ensures Items([v], above) == ItemsNode(v, above) && Items([], above) == []
  {
    assert [v][1..] == [];
  }

  lemma {:induction false} BlockRead(t: Tree, depth: nat, rest: string, above: Path)
    requires LegibleNode(t) && WellFormedNode(t) && t.kind == Block && !t.isTemplate
    ensures Read(ShownNode(t, depth) + rest, above) == Items(Pending(Revived(t.children)), above + [t.name]) + Read(rest, above)
    decreases t, 0
  {
    hide Read, Shown, ShownNode, Pending, Revived, Items, UpTo, From;
    var inside := Shown(t.children, depth + 1);
    ShownBlock(t, depth);
    var after := Tabs(depth) + ("}\n" + rest);
    ReadsShown(t.children, depth + 1, after, above + [t.name]);
    SkipsTabs(depth, "}\n" + rest, above + [t.name]);
    ReadsClosing(rest, above, t.name);
    if inside == "" {
      assert inside + after == after && ShownNode(t, depth) + rest == rest;
    } else {
      var line := t.name + " {\n" + (inside + after);
      assert ShownNode(t, depth) + rest == Tabs(depth) + line;
      SkipsTabs(depth, line, above);
      ReadsOpening(t.name, inside + after, above);
    }
  }

  /** Whatever is written can be read back: it names all items that would be pending if nothing
      were deleted, with their values, in their order. */
  lemma TextReadsBack(ts: seq<Tree>, depth: nat)
    requires Legible(ts) && WellFormed(ts)
    ensures Read(Shown(ts, depth), []) == Items(Pending(Revived(ts)), [])
  {
    hide Read, Shown, Pending, Revived, Items, Legible, WellFormed;
    assert Shown(ts, depth) + "" == Shown(ts, depth);
    ReadsShown(ts, depth, "", []);
    NothingRead();
  }

  lemma NothingRead()
    ensures Read("", []) == []
  {
  }
}
