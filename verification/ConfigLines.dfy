/** What show_commands and the stream form of show_config print, and whether get_commands_lc
    and get_config_lc count its lines. */
module ConfigLines {
  import opened ConfigTree
  import opened ConfigBuffer

  function Lines(s: string): nat {
    if s == "" then 0 else (if s[0] == '\n' then 1 else 0) + Lines(s[1..])
  }

  lemma {:induction false} LinesConcat(a: string, b: string)
    ensures Lines(a + b) == Lines(a) + Lines(b)
  {
    if a == "" {
      assert a + b == b;
    } else {
      assert (a + b)[0] == a[0] && (a + b)[1..] == a[1..] + b;
      LinesConcat(a[1..], b);
    }
  }

  lemma LinesSnoc(s: string)
    ensures Lines(s + "\n") == Lines(s) + 1
  {
    LinesConcat(s, "\n");
  }

  lemma {:induction false} TabsAreFlat(n: nat)
    ensures Lines(Tabs(n)) == 0
  {
    if n > 0 { TabsAreFlat(n - 1); }
  }

  /** No name or value has more than one line. */
  predicate Flat(ts: seq<Tree>) {
    forall i :: 0 <= i < |ts| ==> FlatNode(ts[i])
  }

  predicate FlatNode(t: Tree) {
    Lines(t.name) == 0 && Lines(t.newValue) == 0 && Flat(t.children)
  }

  // ---------------------------------------------------------------- commands

  /** The enclosing blocks' names as a command spells them: up to the root, innermost first. */
  function Prefix(path: seq<string>): string {
    if path == [] || path[0] == "ROOT" then "" else Prefix(path[1..]) + path[0] + " "
  }

  function Commands(ts: seq<Tree>, path: seq<string>): string {
    if ts == [] then "" else CommandsNode(ts[0], path) + Commands(ts[1..], path)
  }

  function CommandsNode(t: Tree, path: seq<string>): string {
    if t.isTemplate || t.name == "" then ""
    else
      match t.kind
      case Block =>
        if t.status == Deleted then "delete " + Prefix(path) + t.name + "\n"
        else "set " + Prefix(path) + "!" + t.name + "\n" + Commands(t.children, [t.name] + path)
      case Item =>
        if t.newValue == "" && t.status != Deleted then ""
        else if t.status == Deleted then "delete " + Prefix(path) + t.name + "\n"
        else "set " + Prefix(path) + t.name + " \"" + t.newValue + "\"\n"
      case OtherKind => ""
  }

  lemma {:induction false} PrefixIsFlat(path: seq<string>)
    requires forall i :: 0 <= i < |path| ==> Lines(path[i]) == 0
    ensures Lines(Prefix(path)) == 0
  {
    if path != [] && path[0] != "ROOT" {
      PrefixIsFlat(path[1..]);
      LinesConcat(Prefix(path[1..]) + path[0], " ");
      LinesConcat(Prefix(path[1..]), path[0]);
    }
  }

  /** One line, whatever its parts. */
  lemma OneLine(a: string, b: string, c: string, d: string)
    requires Lines(a) == 0 && Lines(b) == 0 && Lines(c) == 0 && Lines(d) == 0
    ensures Lines(a + b + c + d + "\n") == 1
  {
    LinesConcat(a, b);
    LinesConcat(a + b, c);
    LinesConcat(a + b + c, d);
    LinesSnoc(a + b + c + d);
  }

  /** get_commands_lc counts the lines show_commands prints. */
  method GetCommandsLc(ts: seq<Tree>, ghost path: seq<string>) returns (res: nat)
    requires Flat(ts) && forall i :: 0 <= i < |path| ==> Lines(path[i]) == 0
    ensures res == Lines(Commands(ts, path))
    decreases ts
  {
    hide CommandsNode;
    res := 0;
    var i := 0;
    assert ts[0..] == ts;
    while i < |ts|
      invariant i <= |ts| && res + Lines(Commands(ts[i..], path)) == Lines(Commands(ts, path))
    {
      var t := ts[i];
      assert ts[i..][0] == t && ts[i..][1..] == ts[i + 1..];
      LinesConcat(CommandsNode(t, path), Commands(ts[i + 1..], path));
      CommandsNodeLines(t, path);
      if !t.isTemplate && t.name != "" {
        if t.kind == Block {
          if t.status == Deleted {
            res := res + 1;
          } else {
            var n := GetCommandsLc(t.children, [t.name] + path);
            res := res + n + 1;
          }
        } else if t.kind == Item && (t.newValue != "" || t.status == Deleted) {
          res := res + 1;
        }
      }
      i := i + 1;
    }
    assert ts[i..] == [];
  }

  lemma CommandsNodeLines(t: Tree, path: seq<string>)
    requires FlatNode(t) && forall i :: 0 <= i < |path| ==> Lines(path[i]) == 0
    ensures Lines(CommandsNode(t, path)) ==
            if t.isTemplate || t.name == "" then 0
            else if t.kind == Block then 1 + if t.status == Deleted then 0 else Lines(Commands(t.children, [t.name] + path))
            else if t.kind == Item && (t.newValue != "" || t.status == Deleted) then 1
            else 0
  {
    hide Commands, Lines, Prefix;
    if t.isTemplate || t.name == "" {
      NoLines();
      return;
    }
    PrefixIsFlat(path);
    if t.status == Deleted {
      DeleteLine(Prefix(path), t.name);
      NoLines();
    } else if t.kind == Block {
      SetBlockLine(Prefix(path), t.name);
      LinesConcat("set " + Prefix(path) + "!" + t.name + "\n", Commands(t.children, [t.name] + path));
    } else {
      SetItemLine(Prefix(path), t.name, t.newValue);
      NoLines();
    }
  }

  lemma NoLines()
    ensures Lines("") == 0
  {
  }

  lemma DeleteLine(prefix: string, name: string)
    requires Lines(prefix) == 0 && Lines(name) == 0
    ensures Lines("delete " + prefix + name + "\n") == 1
  {
    OneLine("delete ", prefix, name, "");
    assert "delete " + prefix + name + "" == "delete " + prefix + name;
  }

  lemma SetBlockLine(prefix: string, name: string)
    requires Lines(prefix) == 0 && Lines(name) == 0
    ensures Lines("set " + prefix + "!" + name + "\n") == 1
  {
    OneLine("set ", prefix, "!", name);
  }

  lemma SetItemLine(prefix: string, name: string, value: string)
    requires Lines(prefix) == 0 && Lines(name) == 0 && Lines(value) == 0
    ensures Lines("set " + prefix + name + " \"" + value + "\"\n") == 1
  {
    LinesConcat(name, " \"");
    LinesConcat(value, "\"");
    OneLine("set ", prefix, name + " \"", value + "\"");
    assert "set " + prefix + (name + " \"") + (value + "\"") + "\n" == "set " + prefix + name + " \"" + value + "\"\n";
  }

  // ---------------------------------------------------------------- the configuration as text

  /** The size show_config finds without writing: one for being a list, and the values. */
  function Measure(isEmpty: bool, ts: seq<Tree>): nat
    decreases ts, 1
  {
    (if isEmpty then 1 else 0) + Measures(ts)
  }

  function Measures(ts: seq<Tree>): nat
    decreases ts, 0
  {
    if ts == [] then 0 else MeasureNode(ts[0]) + Measures(ts[1..])
  }

  function MeasureNode(t: Tree): nat
    decreases t, 0
  {
    if t.isTemplate then 0
    else
      match t.kind
      case Block => Measure(t.isEmpty, t.children)
      case Item => |t.newValue|
      case OtherKind => 0
  }

  /** The width of the longest item name, with room for a mark. */
  function Width(ts: seq<Tree>): nat {
    if ts == [] then 0
    else
      var w := Width(ts[1..]);
      if ts[0].isTemplate || ts[0].kind != Item then w
      else Max(w, |ts[0].name| + if ts[0].status != Ready then 1 else 0)
  }

  function Mark(t: Tree): string {
    match t.status
    case Deleted => "-"
    case Modified => "+"
    case _ => ""
  }

  function Spaces(n: int): string {
    if n <= 0 then "" else " " + Spaces(n - 1)
  }

  /** show_config into a stream. */
  function Stream(ts: seq<Tree>, depth: nat, width: nat): string
    decreases ts, 0
  {
    if ts == [] then "" else StreamNode(ts[0], depth, width) + Stream(ts[1..], depth, width)
  }

  function StreamNode(t: Tree, depth: nat, width: nat): string
    decreases t, 1
  {
    if t.isTemplate then ""
    else
      match t.kind
      case Block =>
        if Measure(t.isEmpty, t.children) == 0 then ""
        else
          Tabs(depth) + (Mark(t) + t.name) + (if t.isEmpty then "" else " {\n")
          + Stream(t.children, depth + 1, Width(t.children))
          + (Tabs(depth) + (if t.isEmpty then "\n" else "}\n"))
      case Item =>
        if t.newValue == "" && t.status != Deleted then ""
        else
          Tabs(depth) + (Mark(t) + t.name) + (" " + Spaces(width - |Mark(t)| - |t.name|) + "\"") + (t.newValue + "\"") + "\n"
      case OtherKind => ""
  }

  /** What the mark of a node that is shown says: a commit removes the block or empties the item,
      or changes it, or leaves it as it is. */
  lemma MarksTell(t: Tree)
    requires WellFormedNode(t) && !t.isTemplate && (t.kind == Item ==> t.newValue != "" || t.status == Deleted)
    ensures Mark(t) == "-" <==> if t.kind == Block then CommitNode(t) == [] else PendingNode(t).value == ""
    ensures Mark(t) == "+" <==> Mark(t) != "-" && ChangesHere(t) == 1 + Changes(t.children)
    ensures Mark(t) == "" <==> Mark(t) != "-" && ChangesHere(t) == Changes(t.children)
  {
  }

  /** An item is shown with the value it will have; one that is deleted with the text it had, and
      without either not at all. */
  lemma ItemShown(t: Tree, depth: nat, width: nat)
    requires !t.isTemplate && t.kind == Item
    ensures var v := if t.status == Deleted then t.newValue else PendingNode(t).value;
            var line := Tabs(depth) + (Mark(t) + t.name) + (" " + Spaces(width - |Mark(t)| - |t.name|) + "\"") + (v + "\"") + "\n";
            StreamNode(t, depth, width) == if v == "" && Mark(t) != "-" then "" else line
  {
  }

  /** The values of the items of a block stand in one column, one space behind the longest name. */
  lemma {:induction false} Aligned(ts: seq<Tree>, i: nat)
    requires i < |ts| && !ts[i].isTemplate && ts[i].kind == Item
    ensures |Mark(ts[i])| + |ts[i].name| <= Width(ts)
    ensures |Mark(ts[i]) + ts[i].name + " " + Spaces(Width(ts) - |Mark(ts[i])| - |ts[i].name|)| == Width(ts) + 1
    decreases i
  {
    if i > 0 { Aligned(ts[1..], i - 1); }
    SpacesAre(Width(ts) - |Mark(ts[i])| - |ts[i].name|);
  }

  /** And no further to the right than one name needs. */
  lemma {:induction false} WidthIsNeeded(ts: seq<Tree>) returns (i: nat)
    requires Width(ts) > 0
    ensures i < |ts| && !ts[i].isTemplate && ts[i].kind == Item
    ensures Width(ts) == |ts[i].name| + if ts[i].status != Ready then 1 else 0
  {
    if Width(ts) == Width(ts[1..]) {
      i := WidthIsNeeded(ts[1..]);
      i := i + 1;
    } else {
      i := 0;
    }
  }

  lemma {:induction false} SpacesAre(n: int)
    ensures |Spaces(n)| == if n > 0 then n else 0
    decreases if n > 0 then n else 0
  {
    if n > 0 { SpacesAre(n - 1); }
  }

  /** What get_config_lc counts. */
  function LineCount(ts: seq<Tree>): nat {
    if ts == [] then 0 else LineCountNode(ts[0]) + LineCount(ts[1..])
  }

  function LineCountNode(t: Tree): nat {
    if t.isTemplate then 0
    else
      match t.kind
      case Block => if t.isEmpty then 1 else var n := LineCount(t.children); if n > 0 then n + 2 else 0
      case Item => if t.newValue != "" || t.status == Deleted then 1 else 0
      case OtherKind => 0
  }

  method GetConfigLc(ts: seq<Tree>) returns (res: nat)
    ensures res == LineCount(ts)
    decreases ts
  {
    res := 0;
    var i := 0;
    assert ts[0..] == ts;
    while i < |ts|
      invariant i <= |ts| && res + LineCount(ts[i..]) == LineCount(ts)
    {
      var t := ts[i];
      assert ts[i..][0] == t && ts[i..][1..] == ts[i + 1..];
      if !t.isTemplate {
        if t.kind == Block {
          if t.isEmpty {
            res := res + 1;
          } else {
            var n := GetConfigLc(t.children);
            if n > 0 {
              n := GetConfigLc(t.children);
              res := res + n + 2;
            }
          }
        } else if t.kind == Item && (t.newValue != "" || t.status == Deleted) {
          res := res + 1;
        }
      }
      i := i + 1;
    }
    assert ts[i..] == [];
  }

  // ---------------------------------------------------------------- what is there to show

  /** A text or a list is among the nodes: what gives the blocks around it a size. */
  predicate SomeText(ts: seq<Tree>) {
    exists i :: 0 <= i < |ts| && HasText(ts[i])
  }

  predicate HasText(t: Tree) {
    !t.isTemplate && match t.kind
                     case Block => t.isEmpty || SomeText(t.children)
                     case Item => t.newValue != ""
                     case OtherKind => false
  }

  /** A deleted item without a text is among the nodes, not counting what is in lists. */
  predicate SomeBlank(ts: seq<Tree>) {
    exists i :: 0 <= i < |ts| && HasBlank(ts[i])
  }

  predicate HasBlank(t: Tree) {
    !t.isTemplate && match t.kind
                     case Block => !t.isEmpty && SomeBlank(t.children)
                     case Item => t.status == Deleted && t.newValue == ""
                     case OtherKind => false
  }

  /** A block, other than a list, that holds a deleted item without a text also holds a text or
      a list. */
  predicate Counted(ts: seq<Tree>) {
    forall i :: 0 <= i < |ts| ==> CountedNode(ts[i])
  }

  predicate CountedNode(t: Tree) {
    t.isTemplate || t.kind != Block || t.isEmpty ||
    ((SomeBlank(t.children) ==> SomeText(t.children)) && Counted(t.children))
  }

  /** Lists show nothing but their names. */
  predicate BareLists(ts: seq<Tree>) {
    forall i :: 0 <= i < |ts| ==> BareListsNode(ts[i])
  }

  predicate BareListsNode(t: Tree) {
    t.isTemplate || t.kind != Block ||
    if t.isEmpty then ShowsNothing(t.children) else BareLists(t.children)
  }

  predicate ShowsNothing(ts: seq<Tree>) {
    forall i :: 0 <= i < |ts| ==> !HasText(ts[i]) && (ts[i].isTemplate || ts[i].kind != Item || ts[i].status != Deleted)
  }

  /** The lines there are to show. */
  function Printed(ts: seq<Tree>): nat {
    if ts == [] then 0 else PrintedNode(ts[0]) + Printed(ts[1..])
  }

  function PrintedNode(t: Tree): nat {
    if t.isTemplate then 0
    else
      match t.kind
      case Block => if HasText(t) then (if t.isEmpty then 1 else 2) + Printed(t.children) else 0
      case Item => if t.newValue != "" || t.status == Deleted then 1 else 0
      case OtherKind => 0
  }

  /** The lines counted for blocks that are not shown. */
  function Missing(ts: seq<Tree>): nat {
    if ts == [] then 0 else MissingNode(ts[0]) + Missing(ts[1..])
  }

  function MissingNode(t: Tree): nat {
    if t.isTemplate || t.kind != Block || t.isEmpty then 0
    else if SomeText(t.children) then Missing(t.children)
    else LineCountNode(t)
  }

  /** The lines lists show besides their names. */
  function ListLines(ts: seq<Tree>): nat {
    if ts == [] then 0 else ListLinesNode(ts[0]) + ListLines(ts[1..])
  }

  function ListLinesNode(t: Tree): nat {
    if t.isTemplate || t.kind != Block then 0
    else if t.isEmpty then Printed(t.children)
    else ListLines(t.children)
  }

  lemma TextFirst(ts: seq<Tree>)
    requires ts != []
    ensures SomeText(ts) <==> HasText(ts[0]) || SomeText(ts[1..])
    ensures SomeBlank(ts) <==> HasBlank(ts[0]) || SomeBlank(ts[1..])
    ensures Counted(ts) <==> CountedNode(ts[0]) && Counted(ts[1..])
    ensures BareLists(ts) <==> BareListsNode(ts[0]) && BareLists(ts[1..])
  {
    hide HasText, HasBlank, CountedNode, BareListsNode;
    assert ts == [ts[0]] + ts[1..];
    if i :| 1 <= i < |ts| && HasText(ts[i]) { assert HasText(ts[1..][i - 1]); }
    if i :| 1 <= i < |ts| && HasBlank(ts[i]) { assert HasBlank(ts[1..][i - 1]); }
  }

  /** Only a text or a list has a size. */
  lemma {:induction false} TextHasSize(ts: seq<Tree>)
    ensures Measures(ts) > 0 <==> SomeText(ts)
    decreases ts
  {
    if ts != [] {
      TextFirst(ts);
      TextHasSize(ts[1..]);
      if ts[0].kind == Block { TextHasSize(ts[0].children); }
      assert MeasureNode(ts[0]) > 0 <==> HasText(ts[0]);
    }
  }

  /** What is counted is a text, a list, or a deleted item without a text. */
  lemma {:induction false} CountedIsThere(ts: seq<Tree>)
    ensures LineCount(ts) > 0 <==> SomeText(ts) || SomeBlank(ts)
    decreases ts
  {
    if ts != [] {
      TextFirst(ts);
      CountedIsThere(ts[1..]);
      if ts[0].kind == Block { CountedIsThere(ts[0].children); }
      assert LineCountNode(ts[0]) > 0 <==> HasText(ts[0]) || HasBlank(ts[0]);
    }
  }

  /** Without a text there is no list, and nothing is shown of what is counted but the items
      themselves. */
  lemma {:induction false} NoTextNoLists(ts: seq<Tree>)
    requires !SomeText(ts)
    ensures ListLines(ts) == 0
    decreases ts
  {
    if ts != [] {
      TextFirst(ts);
      NoTextNoLists(ts[1..]);
      assert !HasText(ts[0]);
      if !ts[0].isTemplate && ts[0].kind == Block { NoTextNoLists(ts[0].children); }
    }
  }

  /** What is counted and not shown against what is shown and not counted. */
  lemma {:induction false} Balance(ts: seq<Tree>)
    ensures Printed(ts) + Missing(ts) == LineCount(ts) + ListLines(ts)
    decreases ts
  {
    if ts != [] {
      Balance(ts[1..]);
      var t := ts[0];
      if !t.isTemplate && t.kind == Block {
        Balance(t.children);
        CountedIsThere(t.children);
        if !t.isEmpty && !SomeText(t.children) { NoTextNoLists(t.children); }
      }
      assert PrintedNode(t) + MissingNode(t) == LineCountNode(t) + ListLinesNode(t);
    }
  }

  lemma {:induction false} NothingMissing(ts: seq<Tree>)
    ensures Missing(ts) == 0 <==> Counted(ts)
    decreases ts
  {
    if ts != [] {
      TextFirst(ts);
      NothingMissing(ts[1..]);
      var t := ts[0];
      if !t.isTemplate && t.kind == Block && !t.isEmpty {
        NothingMissing(t.children);
        CountedIsThere(t.children);
        if !SomeText(t.children) && !SomeBlank(t.children) { NothingThereIsCounted(t.children); }
      }
      assert MissingNode(t) == 0 <==> CountedNode(t);
    }
  }

  lemma {:induction false} NothingThereIsCounted(ts: seq<Tree>)
    requires !SomeText(ts) && !SomeBlank(ts)
    ensures Counted(ts)
    decreases ts
  {
    if ts != [] {
      TextFirst(ts);
      NothingThereIsCounted(ts[1..]);
      if !ts[0].isTemplate && ts[0].kind == Block && !ts[0].isEmpty { NothingThereIsCounted(ts[0].children); }
    }
  }

  lemma {:induction false} NothingPrinted(ts: seq<Tree>)
    ensures Printed(ts) == 0 <==> ShowsNothing(ts)
  {
    if ts != [] {
      NothingPrinted(ts[1..]);
      assert ts == [ts[0]] + ts[1..];
      assert PrintedNode(ts[0]) == 0 <==> !HasText(ts[0]) && (ts[0].isTemplate || ts[0].kind != Item || ts[0].status != Deleted);
    }
  }

  lemma {:induction false} NoListLines(ts: seq<Tree>)
    ensures ListLines(ts) == 0 <==> BareLists(ts)
    decreases ts
  {
    if ts != [] {
      TextFirst(ts);
      NoListLines(ts[1..]);
      NoListLines(ts[0].children);
      NothingPrinted(ts[0].children);
    }
  }

  lemma MarkIsFlat(t: Tree)
    ensures Lines(Mark(t)) == 0
  {
  }

  lemma {:induction false} SpacesAreFlat(n: int)
    ensures Lines(Spaces(n)) == 0
  {
    if n > 0 { SpacesAreFlat(n - 1); }
  }

  lemma ItemLines(t: Tree, depth: nat, width: nat)
    requires Lines(t.name) == 0 && Lines(t.newValue) == 0
    ensures var pad := " " + Spaces(width - |Mark(t)| - |t.name|) + "\"";
            Lines(Tabs(depth) + (Mark(t) + t.name) + pad + (t.newValue + "\"") + "\n") == 1
  {
    TabsAreFlat(depth);
    MarkIsFlat(t);
    LinesConcat(Mark(t), t.name);
    var n := width - |Mark(t)| - |t.name|;
    SpacesAreFlat(n);
    LinesConcat(" ", Spaces(n));
    LinesConcat(" " + Spaces(n), "\"");
    LinesConcat(t.newValue, "\"");
    OneLine(Tabs(depth), Mark(t) + t.name, " " + Spaces(n) + "\"", t.newValue + "\"");
  }

  /** A block: its opening and closing lines, or the one line of a list. */
  lemma BlockLines(t: Tree, depth: nat, inside: string)
    requires Lines(t.name) == 0
    ensures Lines(Tabs(depth) + (Mark(t) + t.name) + (if t.isEmpty then "" else " {\n") + inside
                  + (Tabs(depth) + (if t.isEmpty then "\n" else "}\n")))
         == Lines(inside) + if t.isEmpty then 1 else 2
  {
    TabsAreFlat(depth);
    MarkIsFlat(t);
    LinesConcat(Mark(t), t.name);
    EndsLine(" {");
    EndsLine("}");
    EndsLine("");
    var open := if t.isEmpty then "" else " {\n";
    var close := if t.isEmpty then "\n" else "}\n";
    assert Lines(open) == (if t.isEmpty then 0 else 1) && Lines(close) == 1;
    SumOfLines(Tabs(depth), Mark(t) + t.name, open, inside, close);
  }

  lemma EndsLine(s: string)
    requires Lines(s) == 0
    ensures Lines(s + "\n") == 1
  {
    LinesSnoc(s);
  }

  lemma SumOfLines(tabs: string, name: string, open: string, inside: string, close: string)
    ensures Lines(tabs + name + open + inside + (tabs + close))
         == 2 * Lines(tabs) + Lines(name) + Lines(open) + Lines(inside) + Lines(close)
  {
    hide Lines;
    LinesConcat(tabs, name);
    LinesConcat(tabs + name, open);
    LinesConcat(tabs + name + open, inside);
    LinesConcat(tabs, close);
    LinesConcat(tabs + name + open + inside, tabs + close);
  }

  lemma {:induction false} PrintsLines(ts: seq<Tree>, depth: nat, width: nat)
    requires Flat(ts)
    ensures Lines(Stream(ts, depth, width)) == Printed(ts)
    decreases ts, 0
  {
    if ts != [] {
      hide StreamNode, PrintedNode, FlatNode;
      PrintsNodeLines(ts[0], depth, width);
      PrintsLines(ts[1..], depth, width);
      LinesConcat(StreamNode(ts[0], depth, width), Stream(ts[1..], depth, width));
    }
  }

  lemma {:induction false} PrintsNodeLines(t: Tree, depth: nat, width: nat)
    requires FlatNode(t)
    ensures Lines(StreamNode(t, depth, width)) == PrintedNode(t)
    decreases t, 1
  {
    if t.isTemplate || t.kind == OtherKind { return; }
    if t.kind == Item {
      ItemLines(t, depth, width);
    } else {
      var w := Width(t.children);
      PrintsLines(t.children, depth + 1, w);
      TextHasSize(t.children);
      var inside := Stream(t.children, depth + 1, w);
      hide Stream, Printed, Measures, SomeText;
      BlockLines(t, depth, inside);
    }
  }

  /** The lines the stream form of show_config prints and those get_config_lc counts differ by
      what is counted for blocks not shown and what lists show besides their names. Where lists
      show nothing else the count is right exactly if every block with a deleted item without a
      text has something else to show, and where that is so it is right exactly if no list
      shows anything else. */
  lemma CountsLines(ts: seq<Tree>, depth: nat, width: nat)
    requires Flat(ts)
    ensures Lines(Stream(ts, depth, width)) + Missing(ts) == LineCount(ts) + ListLines(ts)
    ensures BareLists(ts) ==> (Lines(Stream(ts, depth, width)) == LineCount(ts) <==> Counted(ts))
    ensures Counted(ts) ==> (Lines(Stream(ts, depth, width)) == LineCount(ts) <==> BareLists(ts))
  {
    PrintsLines(ts, depth, width);
    Balance(ts);
    NothingMissing(ts);
    NoListLines(ts);
  }

  /** Every deleted item still has the text it had. */
  predicate DeletedHaveText(ts: seq<Tree>) {
    forall i :: 0 <= i < |ts| ==> DeletedHaveTextNode(ts[i])
  }

  predicate DeletedHaveTextNode(t: Tree) {
    (t.kind == Item && t.status == Deleted ==> t.newValue != "") && DeletedHaveText(t.children)
  }

  /** Then no block is counted without being shown. */
  lemma {:induction false} DeletedTextIsCounted(ts: seq<Tree>)
    requires DeletedHaveText(ts)
    ensures Counted(ts) && !SomeBlank(ts)
    decreases ts
  {
    if ts != [] {
      TextFirst(ts);
      DeletedTextIsCounted(ts[1..]);
      DeletedTextIsCounted(ts[0].children);
      assert DeletedHaveTextNode(ts[0]);
    }
  }
}
