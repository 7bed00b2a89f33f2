/** Saving a configuration as tokens, and reading the tokens back. */
module ConfigSave {
  import opened ConfigTree

  /** Tokens of src/cfg/minkParser.c that configuration contents are made of. A CSTRING has its
      quotes. */
  datatype Token = Identifier(text: string) | Number(text: string) | CString(text: string)
                 | LBrace | RBrace | Ellipsis | Other

  /** What the lexer makes of a name. */
  type Lexer = string -> Token

  // ---------------------------------------------------------------- show_config into a file

  /** The value that is shown: what is in force, or what is pending. */
  function ShownValue(t: Tree, inForce: bool): string {
    if inForce then t.value else t.newValue
  }

  predicate ShowsItem(t: Tree, inForce: bool) {
    (t.newValue != "" || t.status == Deleted) && (inForce || t.status != Deleted) && ShownValue(t, inForce) != ""
  }

  predicate SkipsBlock(t: Tree, inForce: bool) {
    if inForce then t.isNew else t.status == Deleted
  }

  /** The size found without writing. */
  function FileSize(isEmpty: bool, ts: seq<Tree>, inForce: bool): nat
    decreases ts, 1
  {
    (if isEmpty then 1 else 0) + FileSizes(ts, inForce)
  }

  function FileSizes(ts: seq<Tree>, inForce: bool): nat
    decreases ts, 0
  {
    if ts == [] then 0 else FileSizeNode(ts[0], inForce) + FileSizes(ts[1..], inForce)
  }

  function FileSizeNode(t: Tree, inForce: bool): nat
    decreases t, 0
  {
    if t.isTemplate then 0
    else
      match t.kind
      case Block => if SkipsBlock(t, inForce) then 0 else FileSize(t.isEmpty, t.children, inForce)
      case Item => if ShowsItem(t, inForce) then |ShownValue(t, inForce)| else 0
      case OtherKind => 0
  }

  function FileTokens(ts: seq<Tree>, inForce: bool, lex: Lexer): seq<Token>
    decreases ts, 0
  {
    if ts == [] then [] else FileTokensNode(ts[0], inForce, lex) + FileTokens(ts[1..], inForce, lex)
  }

  function FileTokensNode(t: Tree, inForce: bool, lex: Lexer): seq<Token>
    decreases t, 1
  {
    if t.isTemplate then []
    else
      match t.kind
      case Block =>
        if SkipsBlock(t, inForce) || FileSize(t.isEmpty, t.children, inForce) == 0 then []
        else
          var inside := FileTokens(t.children, inForce, lex);
          if t.isEmpty then [lex(t.name)] + (inside + [LBrace, RBrace])
          else [lex(t.name), LBrace] + (inside + [RBrace])
      case Item =>
        if ShowsItem(t, inForce) then [lex(t.name), CString("\"" + ShownValue(t, inForce) + "\"")] else []
      case OtherKind => []
  }

  // ---------------------------------------------------------------- what is saved

  /** A node of contents as the tree builder makes it. */
  function ContentsNode(name: string, value: string, kind: Kind, children: seq<Tree>): Tree {
    Tree(name, value, value, "", kind, Ready, false, false, false, None, children)
  }

  /** The contents that are saved. */
  function Saved(ts: seq<Tree>, inForce: bool): seq<Tree>
    decreases ts, 0
  {
    if ts == [] then [] else SavedNode(ts[0], inForce) + Saved(ts[1..], inForce)
  }

  function SavedNode(t: Tree, inForce: bool): (cs: seq<Tree>)
    ensures |cs| <= 1
    decreases t, 1
  {
    if t.isTemplate then []
    else
      match t.kind
      case Block =>
        var inside := Saved(t.children, inForce);
        if SkipsBlock(t, inForce) || (inside == [] && !t.isEmpty) then [] else [ContentsNode(t.name, "", Block, inside)]
      case Item => if ShowsItem(t, inForce) then [ContentsNode(t.name, ShownValue(t, inForce), Item, [])] else []
      case OtherKind => []
  }

  /** A block has a size exactly if something of it is saved. */
  lemma {:induction false} SizeTells(ts: seq<Tree>, inForce: bool)
    ensures FileSizes(ts, inForce) > 0 <==> Saved(ts, inForce) != []
    decreases ts
  {
    if ts != [] {
      SizeTells(ts[1..], inForce);
      if ts[0].kind == Block { SizeTells(ts[0].children, inForce); }
      assert FileSizeNode(ts[0], inForce) > 0 <==> SavedNode(ts[0], inForce) != [];
    }
  }

  /** The same text for what is in force and what is pending, if nothing is pending. */
  lemma {:induction false} CleanSavesAlike(ts: seq<Tree>, lex: Lexer)
    requires WellFormed(ts) && Clean(ts)
    ensures FileTokens(ts, true, lex) == FileTokens(ts, false, lex) && Saved(ts, true) == Saved(ts, false)
    decreases ts
  {
    if ts != [] {
      CleanSavesAlike(ts[1..], lex);
      SizeTells(ts[0].children, true);
      SizeTells(ts[0].children, false);
      if !ts[0].isTemplate { CleanSavesAlike(ts[0].children, lex); }
    }
  }

  // ---------------------------------------------------------------- the parser

  /** A CONFIG_BLOCK, with the type a definition gives it, or a CONFIG_ITEM. */
  datatype Ast = ABlock(name: string, typ: Option<string>, defs: seq<Ast>) | AItem(name: string, text: string) | AEllipsis

  /** What a rule returns: its tree and the tokens after it; otherwise the parser recovers from
      an error. */
  datatype Parsed<+T> = Parsed(ast: T, rest: seq<Token>) | Recovers

  predicate StartsDef(ts: seq<Token>) {
    ts != [] && (ts[0].Ellipsis? || ts[0].Identifier? || ts[0].Number?)
  }

  /** The tokens after leading strings. */
  function AfterStrings(ts: seq<Token>): (rest: seq<Token>)
    ensures |rest| <= |ts| && (rest == [] || !rest[0].CString?)
  {
    if ts != [] && ts[0].CString? then AfterStrings(ts[1..]) else ts
  }

  datatype Choice = BlockRule | ItemRule | NoRule

  /** Decision 6: an identifier and strings start a block if a brace follows. */
  function Predict(ts: seq<Token>): Choice {
    if ts == [] then NoRule
    else
      match ts[0]
      case Ellipsis => ItemRule
      case Number(_) => BlockRule
      case Identifier(_) =>
        if |ts| < 2 then NoRule
        else
          (match ts[1]
           case LBrace => BlockRule
           case CString(_) =>
             var rest := AfterStrings(ts[1..]);
             if rest == [] || rest[0] == RBrace || StartsDef(rest) then ItemRule
             else if rest[0] == LBrace then BlockRule
             else NoRule
           case _ => NoRule)
      case _ => NoRule
  }

  /** ( configDef )* */
  function ParseDefs(ts: seq<Token>): (r: Parsed<seq<Ast>>)
    ensures r.Parsed? ==> |r.rest| <= |ts|
    decreases |ts|, 2
  {
    if !StartsDef(ts) then Parsed([], ts)
    else
      match ParseDef(ts)
      case Recovers => Recovers
      case Parsed(d, rest) =>
        match ParseDefs(rest)
        case Recovers => Recovers
        case Parsed(ds, rest') => Parsed([d] + ds, rest')
  }

  function ParseDef(ts: seq<Token>): (r: Parsed<Ast>)
    requires StartsDef(ts)
    ensures r.Parsed? ==> |r.rest| < |ts|
    decreases |ts|, 1
  {
    match Predict(ts)
    case NoRule => Recovers
    case ItemRule => ParseItem(ts)
    case BlockRule => ParseBlock(ts)
  }

  function ParseItem(ts: seq<Token>): (r: Parsed<Ast>)
    requires ts != []
    ensures r.Parsed? ==> |r.rest| < |ts|
  {
    match ts[0]
    case Ellipsis => Parsed(AEllipsis, ts[1..])
    case Identifier(name) =>
      if |ts| < 2 || !ts[1].CString? then Recovers else Parsed(AItem(name, ts[1].text), AfterStrings(ts[2..]))
    case _ => Recovers
  }

  function ParseBlock(ts: seq<Token>): (r: Parsed<Ast>)
    requires ts != []
    ensures r.Parsed? ==> |r.rest| < |ts|
    decreases |ts|, 0
  {
    if ts[0].Number? || (ts[0].Identifier? && |ts| > 1 && ts[1] == LBrace) then ParseBody(ts[0].text, None, ts[1..])
    else if ts[0].Identifier? && |ts| > 1 && ts[1].CString? then
      ParseBody(ts[0].text, Some(ts[1].text), AfterStrings(ts[2..]))
    else Recovers
  }

  /** L_BRACE ( configDef )* R_BRACE */
  function ParseBody(name: string, typ: Option<string>, ts: seq<Token>): (r: Parsed<Ast>)
    ensures r.Parsed? ==> |r.rest| < |ts|
    decreases |ts|, 3
  {
    if ts == [] || ts[0] != LBrace then Recovers
    else
      match ParseDefs(ts[1..])
      case Recovers => Recovers
      case Parsed(ds, rest) =>
        if rest == [] || rest[0] != RBrace then Recovers else Parsed(ABlock(name, typ, ds), rest[1..])
  }

  // ---------------------------------------------------------------- the tree builder

  function Unquoted(s: string): string {
    if s == "" then "" else (if s[0] == '"' then "" else [s[0]]) + Unquoted(s[1..])
  }

  /** A name that starts with the sort mark loses it. */
  function NameOf(s: string): string {
    if |s| >= 3 && s[..3] == "/S/" then s[3..] else s
  }

  function KindFor(value: string): Kind {
    if value == "CONST" then Block else Item
  }

  /** process_config_block for contents. */
  function Build(a: Ast): Tree {
    match a
    case AEllipsis => ContentsNode("...", "", Block, [])
    case AItem(name, typ) =>
      ContentsNode(NameOf(name), Unquoted(typ), KindFor(Unquoted(typ)), []).(sortNode := SortMark(name))
    case ABlock(name, typ, ds) =>
      (if typ.None? then ContentsNode(NameOf(name), "", Block, BuildAll(ds))
       else ContentsNode(NameOf(name), Unquoted(typ.value), KindFor(Unquoted(typ.value)), BuildAll(ds))).(sortNode := SortMark(name))
  }

  function SortMark(name: string): Option<string> {
    if NameOf(name) != name then Some(NameOf(name)) else None
  }

  function BuildAll(ds: seq<Ast>): seq<Tree> {
    if ds == [] then [] else [Build(ds[0])] + BuildAll(ds[1..])
  }

  // ---------------------------------------------------------------- reading back

  /** Of what is saved: names are names to the lexer, of items not numbers. */
  predicate Lexed(ts: seq<Tree>, inForce: bool, lex: Lexer) {
    forall i :: 0 <= i < |ts| ==> LexedNode(ts[i], inForce, lex)
  }

  predicate LexedNode(t: Tree, inForce: bool, lex: Lexer) {
    SavedNode(t, inForce) != [] ==>
      && (lex(t.name) == Identifier(t.name) || (t.kind == Block && lex(t.name) == Number(t.name)))
      && Lexed(t.children, inForce, lex)
  }

  /** Of what is saved: lists have nothing else to show. */
  predicate PlainLists(ts: seq<Tree>, inForce: bool) {
    forall i :: 0 <= i < |ts| ==> PlainListsNode(ts[i], inForce)
  }

  predicate PlainListsNode(t: Tree, inForce: bool) {
    SavedNode(t, inForce) != [] ==>
      (t.isEmpty && t.kind == Block ==> Saved(t.children, inForce) == []) && PlainLists(t.children, inForce)
  }

  /** The trees the parser makes of what is saved. */
  function Asts(cs: seq<Tree>): seq<Ast> {
    if cs == [] then [] else [AstOf(cs[0])] + Asts(cs[1..])
  }

  function AstOf(c: Tree): Ast {
    if c.kind == Item then AItem(c.name, "\"" + c.value + "\"") else ABlock(c.name, None, Asts(c.children))
  }

  /** Nothing that could belong to the definitions before it. */
  predicate Ends(rest: seq<Token>) {
    rest == [] || rest[0] == RBrace
  }

  /** What follows a definition: another one, or the end. */
  predicate Follows(rest: seq<Token>) {
    Ends(rest) || StartsDef(rest)
  }

  lemma {:induction false} TokensStart(ts: seq<Tree>, inForce: bool, lex: Lexer)
    requires Lexed(ts, inForce, lex)
    ensures FileTokens(ts, inForce, lex) == [] || StartsDef(FileTokens(ts, inForce, lex))
    ensures Saved(ts, inForce) == [] ==> FileTokens(ts, inForce, lex) == []
    decreases ts
  {
    if ts != [] {
      TokensStart(ts[1..], inForce, lex);
      NodeStarts(ts[0], inForce, lex);
    }
  }

  lemma NodeStarts(t: Tree, inForce: bool, lex: Lexer)
    requires LexedNode(t, inForce, lex)
    ensures FileTokensNode(t, inForce, lex) == [] || StartsDef(FileTokensNode(t, inForce, lex))
    ensures SavedNode(t, inForce) == [] <==> FileTokensNode(t, inForce, lex) == []
  {
    SizeTells(t.children, inForce);
  }

  /** The parser reads back what is saved. */
  lemma {:induction false} ParsesBack(ts: seq<Tree>, inForce: bool, lex: Lexer, rest: seq<Token>)
    requires WellFormed(ts) && Lexed(ts, inForce, lex) && PlainLists(ts, inForce) && Ends(rest)
    ensures ParseDefs(FileTokens(ts, inForce, lex) + rest) == Parsed(Asts(Saved(ts, inForce)), rest)
    decreases ts, 0
  {
    hide FileTokensNode, SavedNode, LexedNode, PlainListsNode, WellFormedNode, ParseDef, AstOf;
    if ts == [] {
      assert FileTokens(ts, inForce, lex) + rest == rest;
    } else {
      var t, more := ts[0], ts[1..];
      var here, after := FileTokensNode(t, inForce, lex), FileTokens(more, inForce, lex) + rest;
      assert FileTokens(ts, inForce, lex) + rest == here + after;
      ParsesBack(more, inForce, lex, rest);
      NodeStarts(t, inForce, lex);
      TokensStart(more, inForce, lex);
      if here == [] {
        assert here + after == after;
        assert Saved(ts, inForce) == Saved(more, inForce);
      } else {
        FollowsStarts(FileTokens(more, inForce, lex), rest);
        assert StartsDef(here + after);
        NodeParsesBack(t, inForce, lex, after);
        OneMore(here, after, SavedNode(t, inForce)[0], Saved(more, inForce), rest);
      }
    }
  }

  lemma FollowsStarts(a: seq<Token>, rest: seq<Token>)
    requires (a == [] || StartsDef(a)) && Ends(rest)
    ensures Follows(a + rest)
  {
    if a == [] { assert a + rest == rest; }
  }

  lemma OneMore(here: seq<Token>, after: seq<Token>, c: Tree, cs: seq<Tree>, rest: seq<Token>)
    requires StartsDef(here + after) && ParseDef(here + after) == Parsed(AstOf(c), after)
    requires ParseDefs(after) == Parsed(Asts(cs), rest)
    ensures ParseDefs(here + after) == Parsed(Asts([c] + cs), rest)
  {
    hide ParseDef, AstOf;
    assert ([c] + cs)[1..] == cs;
  }

  lemma {:induction false} NodeParsesBack(t: Tree, inForce: bool, lex: Lexer, after: seq<Token>)
    requires WellFormedNode(t) && LexedNode(t, inForce, lex) && PlainListsNode(t, inForce) && Follows(after)
    requires FileTokensNode(t, inForce, lex) != [] && StartsDef(FileTokensNode(t, inForce, lex) + after)
    ensures |SavedNode(t, inForce)| == 1
    ensures ParseDef(FileTokensNode(t, inForce, lex) + after) == Parsed(AstOf(SavedNode(t, inForce)[0]), after)
    decreases t, 1
  {
    NodeStarts(t, inForce, lex);
    hide ParseDef, ParseDefs, StartsDef, Follows, Lexed, WellFormed;
    if t.kind == Item {
      ItemParsesBack(t.name, "\"" + ShownValue(t, inForce) + "\"", after);
    } else {
      ParsesBack(t.children, inForce, lex, [RBrace] + after);
      BlockTokens(t, inForce, lex, after);
      BlockParsesBack(lex(t.name), FileTokens(t.children, inForce, lex), Asts(Saved(t.children, inForce)), after);
    }
  }

  /** A list is spelt like a block with nothing in it. */
  lemma BlockTokens(t: Tree, inForce: bool, lex: Lexer, after: seq<Token>)
    requires t.kind == Block && LexedNode(t, inForce, lex) && FileTokensNode(t, inForce, lex) != []
    requires t.isEmpty ==> Saved(t.children, inForce) == []
    ensures FileTokensNode(t, inForce, lex) + after
         == [lex(t.name), LBrace] + (FileTokens(t.children, inForce, lex) + ([RBrace] + after))
  {
    hide Lexed, Saved, FileSize, FileTokens;
    var inside := FileTokens(t.children, inForce, lex);
    Regrouped(lex(t.name), inside, after);
    if t.isEmpty {
      assert inside == [] by {
        NodeStarts(t, inForce, lex);
        TokensStart(t.children, inForce, lex);
      }
      NothingBetween(lex(t.name), after);
    }
  }

  lemma NothingBetween(name: Token, after: seq<Token>)
    ensures [name] + ([] + ([LBrace, RBrace] + after)) == [name, LBrace] + ([] + ([RBrace] + after))
  {
  }

  lemma ItemParsesBack(name: string, text: string, after: seq<Token>)
    requires Follows(after)
    ensures ParseDef([Identifier(name), CString(text)] + after) == Parsed(AItem(name, text), after)
  {
    var ts := [Identifier(name), CString(text)] + after;
    var strings := ts[1..];
    assert strings == [CString(text)] + after && ts[2..] == after && strings[1..] == after;
    assert AfterStrings(after) == after;
    assert AfterStrings(strings) == after;
    assert ts[0] == Identifier(name) && ts[1] == CString(text);
    assert Predict(ts) == ItemRule;
    assert ParseItem(ts) == Parsed(AItem(name, text), after);
  }

  lemma BlockParsesBack(name: Token, inside: seq<Token>, ds: seq<Ast>, after: seq<Token>)
    requires name.Identifier? || name.Number?
    requires ParseDefs(inside + ([RBrace] + after)) == Parsed(ds, [RBrace] + after)
    ensures ParseDef([name, LBrace] + (inside + ([RBrace] + after))) == Parsed(ABlock(name.text, None, ds), after)
  {
    hide ParseDefs;
    var ts := [name, LBrace] + (inside + ([RBrace] + after));
    var body := ts[1..];
    assert body == [LBrace] + (inside + ([RBrace] + after));
    assert body[1..] == inside + ([RBrace] + after);
    assert ([RBrace] + after)[0] == RBrace && ([RBrace] + after)[1..] == after;
    assert ParseBody(name.text, None, body) == Parsed(ABlock(name.text, None, ds), after);
    assert ts[0] == name && ts[1] == LBrace;
    assert ParseBlock(ts) == ParseBody(name.text, None, body);
    assert Predict(ts) == BlockRule;
  }

  lemma {:induction false} UnquotedPlain(s: string)
    ensures Unquoted("\"" + s + "\"") == Unquoted(s)
  {
    UnquotedConcat("\"", s + "\"");
    UnquotedConcat(s, "\"");
    assert "\"" + s + "\"" == "\"" + (s + "\"");
  }

  lemma {:induction false} UnquotedConcat(a: string, b: string)
    ensures Unquoted(a + b) == Unquoted(a) + Unquoted(b)
  {
    if a == "" {
      assert a + b == b;
    } else {
      assert (a + b)[0] == a[0] && (a + b)[1..] == a[1..] + b;
      UnquotedConcat(a[1..], b);
    }
  }

  /** Contents as they are saved. */
  predicate IsContents(cs: seq<Tree>) {
    forall i :: 0 <= i < |cs| ==> IsContentsNode(cs[i])
  }

  predicate IsContentsNode(c: Tree) {
    && c == ContentsNode(c.name, c.value, c.kind, c.children)
    && (c.kind == Item ==> c.children == []) && (c.kind != Item ==> c.kind == Block && c.value == "")
    && IsContents(c.children)
  }

  /** No name has a sort mark, no value quotes, and no value is the word for a block. */
  predicate Buildable(cs: seq<Tree>) {
    forall i :: 0 <= i < |cs| ==> BuildableNode(cs[i])
  }

  predicate BuildableNode(c: Tree) {
    && NameOf(c.name) == c.name && Unquoted(c.value) == c.value
    && (c.kind == Item ==> c.value != "CONST") && Buildable(c.children)
  }

  lemma {:induction false} SavedIsContents(ts: seq<Tree>, inForce: bool)
    ensures IsContents(Saved(ts, inForce))
    decreases ts
  {
    hide SavedNode, IsContentsNode;
    if ts != [] {
      SavedIsContents(ts[1..], inForce);
      SavedNodeIsContents(ts[0], inForce) by { SavedIsContents(ts[0].children, inForce); }
    }
  }

  lemma SavedNodeIsContents(t: Tree, inForce: bool)
    requires IsContents(Saved(t.children, inForce))
    ensures forall i :: 0 <= i < |SavedNode(t, inForce)| ==> IsContentsNode(SavedNode(t, inForce)[i])
  {
    hide ShowsItem, SkipsBlock, Saved, ShownValue;
    assert IsContents([]);
  }

  /** The builder makes of their trees the contents that were saved exactly if they are such. */
  lemma {:induction false} BuildsBack(cs: seq<Tree>)
    requires IsContents(cs)
    ensures BuildAll(Asts(cs)) == cs <==> Buildable(cs)
    decreases cs, 0
  {
    hide Build, AstOf, BuildableNode, IsContentsNode;
    if cs != [] {
      NodeBuildsBack(cs[0]);
      BuildsBack(cs[1..]);
      var us := BuildAll(Asts(cs));
      assert us == [Build(AstOf(cs[0]))] + BuildAll(Asts(cs[1..])) && cs == [cs[0]] + cs[1..];
      assert Buildable(cs) <==> BuildableNode(cs[0]) && Buildable(cs[1..]);
    }
  }

  lemma {:induction false} NodeBuildsBack(c: Tree)
    requires IsContentsNode(c)
    ensures Build(AstOf(c)) == c <==> BuildableNode(c)
    decreases c, 1
  {
    hide Unquoted, NameOf;
    BuildsBack(c.children);
    UnquotedPlain(c.value);
    if c.kind != Item { assert Unquoted("") == "" by { NothingUnquoted(); } }
  }

  lemma NothingUnquoted()
    ensures Unquoted("") == ""
  {
  }

  /** What is saved can be told by the lexer and by the builder. */
  predicate Spelt(ts: seq<Tree>, inForce: bool, lex: Lexer) {
    Lexed(ts, inForce, lex) && Buildable(Saved(ts, inForce))
  }

  // ---------------------------------------------------------------- lists with more to show

  /** A list that shows something besides its name makes the parser fail. */
  lemma {:induction false} Breaks(ts: seq<Tree>, inForce: bool, lex: Lexer, rest: seq<Token>)
    requires WellFormed(ts) && Lexed(ts, inForce, lex) && !PlainLists(ts, inForce) && Ends(rest)
    ensures ParseDefs(FileTokens(ts, inForce, lex) + rest) == Recovers
    decreases ts, 0
  {
    hide FileTokensNode, SavedNode, LexedNode, PlainListsNode, WellFormedNode, ParseDef, AstOf;
    var t, more := ts[0], ts[1..];
    var here, after := FileTokensNode(t, inForce, lex), FileTokens(more, inForce, lex) + rest;
    assert FileTokens(ts, inForce, lex) + rest == here + after;
    assert ts == [t] + more;
    NodeStarts(t, inForce, lex);
    TokensStart(more, inForce, lex);
    FollowsStarts(FileTokens(more, inForce, lex), rest);
    if here == [] { assert here + after == after; }
    if !PlainListsNode(t, inForce) {
      NodeBreaks(t, inForce, lex, after);
      assert StartsDef(here + after);
    } else {
      Breaks(more, inForce, lex, rest);
      if here != [] {
        assert StartsDef(here + after);
        NodeParsesBack(t, inForce, lex, after);
      }
    }
  }

  lemma {:induction false} NodeBreaks(t: Tree, inForce: bool, lex: Lexer, after: seq<Token>)
    requires WellFormedNode(t) && LexedNode(t, inForce, lex) && !PlainListsNode(t, inForce)
    ensures FileTokensNode(t, inForce, lex) != [] && StartsDef(FileTokensNode(t, inForce, lex) + after)
    ensures ParseDef(FileTokensNode(t, inForce, lex) + after) == Recovers
    decreases t, 1
  {
    hide ParseDef, ParseDefs, Lexed, LexedNode, WellFormed, Saved, SavedNode, PlainLists, PlainListsNode, FileSize, FileTokens, StartsDef;
    NodeStarts(t, inForce, lex);
    NodeHasChildren(t, inForce);
    BadTokens(t, inForce, lex, after);
    var inside := FileTokens(t.children, inForce, lex);
    if t.isEmpty {
      TokensStart(t.children, inForce, lex);
      TokensThere(t.children, inForce, lex);
      ListBreaks(lex(t.name), inside, [LBrace, RBrace] + after);
    } else {
      Breaks(t.children, inForce, lex, [RBrace] + after);
      BlockBreaks(lex(t.name), inside + ([RBrace] + after));
    }
  }

  lemma BadTokens(t: Tree, inForce: bool, lex: Lexer, after: seq<Token>)
    requires WellFormedNode(t) && LexedNode(t, inForce, lex) && !PlainListsNode(t, inForce)
    ensures WellFormed(t.children) && Lexed(t.children, inForce, lex) && (lex(t.name).Identifier? || lex(t.name).Number?)
    ensures FileTokensNode(t, inForce, lex) != []
    ensures var inside := FileTokens(t.children, inForce, lex);
            FileTokensNode(t, inForce, lex) + after ==
            if t.isEmpty then [lex(t.name)] + (inside + ([LBrace, RBrace] + after))
            else [lex(t.name), LBrace] + (inside + ([RBrace] + after))
  {
    hide ParseDef, ParseDefs, Lexed, Saved, PlainLists, PlainListsNode, FileSize, FileTokens;
    NodeHasChildren(t, inForce);
    BadIsSaved(t, inForce);
    Regrouped(lex(t.name), FileTokens(t.children, inForce, lex), after);
  }

  lemma BadIsSaved(t: Tree, inForce: bool)
    requires !PlainListsNode(t, inForce)
    ensures SavedNode(t, inForce) != []
  {
  }

  lemma Regrouped(name: Token, inside: seq<Token>, after: seq<Token>)
    ensures [name] + (inside + [LBrace, RBrace]) + after == [name] + (inside + ([LBrace, RBrace] + after))
    ensures [name, LBrace] + (inside + [RBrace]) + after == [name, LBrace] + (inside + ([RBrace] + after))
  {
  }

  lemma NodeHasChildren(t: Tree, inForce: bool)
    requires WellFormedNode(t) && !PlainListsNode(t, inForce)
    ensures t.kind == Block && !SkipsBlock(t, inForce) && !t.isTemplate && FileSize(t.isEmpty, t.children, inForce) > 0
    ensures if t.isEmpty then Saved(t.children, inForce) != [] else !PlainLists(t.children, inForce)
  {
    SizeTells(t.children, inForce);
    if Saved(t.children, inForce) == [] { NothingSaved(t.children, inForce); }
  }

  lemma {:induction false} NothingSaved(ts: seq<Tree>, inForce: bool)
    requires Saved(ts, inForce) == []
    ensures PlainLists(ts, inForce)
  {
    if ts != [] {
      NothingSaved(ts[1..], inForce);
      assert ts == [ts[0]] + ts[1..] && SavedNode(ts[0], inForce) == [];
    }
  }

  lemma {:induction false} TokensThere(ts: seq<Tree>, inForce: bool, lex: Lexer)
    requires Lexed(ts, inForce, lex) && Saved(ts, inForce) != []
    ensures FileTokens(ts, inForce, lex) != []
  {
    hide SavedNode, LexedNode, FileTokensNode;
    NodeStarts(ts[0], inForce, lex);
    if SavedNode(ts[0], inForce) == [] { TokensThere(ts[1..], inForce, lex); }
  }

  lemma ListBreaks(name: Token, inside: seq<Token>, after: seq<Token>)
    requires (name.Identifier? || name.Number?) && StartsDef(inside)
    ensures StartsDef([name] + (inside + after)) && ParseDef([name] + (inside + after)) == Recovers
  {
    var ts := [name] + (inside + after);
    assert ts[0] == name && ts[1] == inside[0] && ts[1..][0] == inside[0] && |ts| >= 2;
    assert inside[0] != LBrace && !inside[0].CString?;
    if name.Identifier? {
      assert Predict(ts) == NoRule;
    } else {
      assert Predict(ts) == BlockRule;
      assert ParseBlock(ts) == ParseBody(name.text, None, ts[1..]) == Recovers;
    }
  }

  lemma BlockBreaks(name: Token, inside: seq<Token>)
    requires (name.Identifier? || name.Number?) && ParseDefs(inside) == Recovers
    ensures StartsDef([name, LBrace] + inside) && ParseDef([name, LBrace] + inside) == Recovers
  {
    hide ParseDefs;
    var ts := [name, LBrace] + inside;
    assert ts[0] == name && ts[1] == LBrace && ts[1..][0] == LBrace && ts[1..][1..] == inside;
    assert ParseBody(name.text, None, ts[1..]) == Recovers;
  }

  /** A saved file is read to its end exactly if no list that is saved has more to show than its
      name; what is read is then what was saved exactly if the builder can tell it. */
  lemma FileRoundTrip(ts: seq<Tree>, inForce: bool, lex: Lexer)
    requires WellFormed(ts) && Lexed(ts, inForce, lex)
    ensures var r := ParseDefs(FileTokens(ts, inForce, lex));
            if PlainLists(ts, inForce) then
              r.Parsed? && r.rest == [] && (BuildAll(r.ast) == Saved(ts, inForce) <==> Buildable(Saved(ts, inForce)))
            else r == Recovers
  {
    assert FileTokens(ts, inForce, lex) + [] == FileTokens(ts, inForce, lex);
    if PlainLists(ts, inForce) {
      ParsesBack(ts, inForce, lex, []);
      SavedIsContents(ts, inForce);
      BuildsBack(Saved(ts, inForce));
    } else {
      Breaks(ts, inForce, lex, []);
    }
  }

  /** An item whose value is the word for a block comes back as a block. */
  lemma ConstComesBackAsBlock(name: string)
    requires NameOf(name) == name
    ensures var c := ContentsNode(name, "CONST", Item, []);
            BuildAll(Asts([c])) == [c.(kind := Block)]
  {
    var c := ContentsNode(name, "CONST", Item, []);
    UnquotedPlain("CONST");
    assert Unquoted("CONST") == "CONST";
    assert [c][1..] == [] && Asts([c]) == [AstOf(c)] && [AstOf(c)][1..] == [];
  }

  /** A sort mark in front of a name is kept as such, and nothing else is different. */
  lemma SortMarks(name: string, text: string, ds: seq<Ast>)
    requires NameOf(name) == name
    ensures Build(AItem("/S/" + name, text)) == Build(AItem(name, text)).(sortNode := Some(name))
    ensures Build(ABlock("/S/" + name, None, ds)) == Build(ABlock(name, None, ds)).(sortNode := Some(name))
  {
    assert ("/S/" + name)[..3] == "/S/" && ("/S/" + name)[3..] == name;
  }

  /** An ellipsis, and a block with the type of a block, are blocks as any. */
  lemma OtherBlocks(name: string, ds: seq<Ast>)
    ensures Build(AEllipsis) == Build(ABlock("...", None, []))
    ensures Build(ABlock(name, Some("\"CONST\""), ds)) == Build(ABlock(name, None, ds)).(value := "CONST", newValue := "CONST")
  {
    assert "..."[..3][0] == '.';
    UnquotedPlain("CONST");
    assert Unquoted("CONST") == "CONST" && "\"" + "CONST" + "\"" == "\"CONST\"";
  }
}
