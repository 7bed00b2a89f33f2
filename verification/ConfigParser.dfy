/** The parser of src/cfg/minkParser.c for configuration contents: rules that consume a token
    stream. */
module ConfigParser {
  import opened ConfigTree
  import opened ConfigSave

  class MinkParser {
    const tokens: seq<Token>
    /** The position of LA(1). */
    var pos: nat

    constructor (tokens: seq<Token>)
      ensures this.tokens == tokens && pos == 0
    {
      this.tokens, pos := tokens, 0;
    }

    ghost function Ahead(): seq<Token>
      reads this
      requires pos <= |tokens|
    {
      tokens[pos..]
    }

    /** The rule did what the function says, or the parser has an error to recover from. */
    ghost predicate Did<T>(r: ConfigSave.Parsed<T>, ok: bool, ast: T)
      reads this
    {
      pos <= |tokens| && match r { case Parsed(a, rest) => ok && ast == a && Ahead() == rest case Recovers => !ok }
    }

    /** ( configDef )* */
    method ConfigDefs() returns (ok: bool, ds: seq<Ast>)
      requires pos <= |tokens|
      modifies this`pos
      ensures Did(ParseDefs(old(Ahead())), ok, ds) && pos >= old(pos)
      decreases |tokens| - pos, 2
    {
      ok, ds := true, [];
      ghost var all := Ahead();
      NoneYet(ParseDefs(all));
      while pos < |tokens| && StartsDef(tokens[pos..])
        invariant old(pos) <= pos <= |tokens| && ok
        invariant ParseDefs(all) == More(ds, ParseDefs(Ahead()))
        decreases |tokens| - pos
      {
        ghost var before := Ahead();
        var d;
        ok, d := ConfigDef();
        if !ok { return; }
        assert ds + ([d] + []) == ds + [d];
        MoreIsMore(ds, d, ParseDefs(Ahead()));
        ds := ds + [d];
      }
      assert ParseDefs(Ahead()) == ConfigSave.Parsed([], Ahead());
      assert ds + [] == ds;
    }

    method ConfigDef() returns (ok: bool, d: Ast)
      requires pos < |tokens| && StartsDef(tokens[pos..])
      modifies this`pos
      ensures Did(ParseDef(old(Ahead())), ok, d) && (ok ==> pos > old(pos)) && pos >= old(pos)
      decreases |tokens| - pos, 1
    {
      match Predict(tokens[pos..]) {
        case NoRule => ok, d := false, AEllipsis;
        case ItemRule => ok, d := ConfigItem();
        case BlockRule => ok, d := ConfigBlock();
      }
    }

    method ConfigItem() returns (ok: bool, d: Ast)
      requires pos < |tokens|
      modifies this`pos
      ensures Did(ParseItem(old(Ahead())), ok, d) && (ok ==> pos > old(pos)) && pos >= old(pos)
    {
      ok, d := false, AEllipsis;
      match tokens[pos] {
        case Ellipsis =>
          pos := pos + 1;
          ok := true;
        case Identifier(name) =>
          if pos + 1 < |tokens| && tokens[pos + 1].CString? {
            ok, d := true, AItem(name, tokens[pos + 1].text);
            pos := pos + 2;
            SkipStrings();
          }
        case _ =>
      }
    }

    /** ( itemDesc )* */
    method SkipStrings()
      requires pos <= |tokens|
      modifies this`pos
      ensures old(pos) <= pos <= |tokens| && Ahead() == AfterStrings(old(Ahead()))
    {
      while pos < |tokens| && tokens[pos].CString?
        invariant old(pos) <= pos <= |tokens| && AfterStrings(Ahead()) == AfterStrings(old(Ahead()))
      {
        assert Ahead()[1..] == tokens[pos + 1..];
        pos := pos + 1;
      }
    }

    method ConfigBlock() returns (ok: bool, d: Ast)
      requires pos < |tokens|
      modifies this`pos
      ensures Did(ParseBlock(old(Ahead())), ok, d) && (ok ==> pos > old(pos)) && pos >= old(pos)
      decreases |tokens| - pos, 0
    {
      ok, d := false, AEllipsis;
      var t := tokens[pos];
      if t.Number? || (t.Identifier? && pos + 1 < |tokens| && tokens[pos + 1] == LBrace) {
        pos := pos + 1;
        ok, d := Body(t.text, None);
      } else if t.Identifier? && pos + 1 < |tokens| && tokens[pos + 1].CString? {
        var typ := tokens[pos + 1].text;
        pos := pos + 2;
        SkipStrings();
        ok, d := Body(t.text, Some(typ));
      }
    }

    /** L_BRACE ( configDef )* R_BRACE */
    method Body(name: string, typ: Option<string>) returns (ok: bool, d: Ast)
      requires pos <= |tokens|
      modifies this`pos
      ensures Did(ParseBody(name, typ, old(Ahead())), ok, d) && (ok ==> pos > old(pos)) && pos >= old(pos)
      decreases |tokens| - pos, 3
    {
      ok, d := false, AEllipsis;
      if pos == |tokens| || tokens[pos] != LBrace { return; }
      pos := pos + 1;
      var ds;
      ok, ds := ConfigDefs();
      if !ok { return; }
      if pos == |tokens| || tokens[pos] != RBrace {
        ok := false;
        return;
      }
      pos := pos + 1;
      d := ABlock(name, typ, ds);
    }

    /** configFileDefinition: all contents, and the end of the file. */
    method ConfigFile() returns (ok: bool, ds: seq<Ast>)
      requires pos == 0
      modifies this`pos
      ensures Did(ParseDefs(tokens), ok, ds)
      ensures forall ts, inForce, lex :: WellFormed(ts) && Lexed(ts, inForce, lex) && tokens == FileTokens(ts, inForce, lex) ==>
                && ok == PlainLists(ts, inForce) && (ok ==> pos == |tokens|)
                && (ok ==> (BuildAll(ds) == Saved(ts, inForce) <==> Buildable(Saved(ts, inForce))))
    {
      assert Ahead() == tokens;
      ok, ds := ConfigDefs();
      forall ts, inForce, lex | WellFormed(ts) && Lexed(ts, inForce, lex) && tokens == FileTokens(ts, inForce, lex)
        ensures ok == PlainLists(ts, inForce) && (ok ==> pos == |tokens|)
        ensures ok ==> (BuildAll(ds) == Saved(ts, inForce) <==> Buildable(Saved(ts, inForce)))
      {
        FileRoundTrip(ts, inForce, lex);
      }
    }
  }

  /** Definitions read so far, and what the rest comes to. */
  function More(ds: seq<Ast>, r: ConfigSave.Parsed<seq<Ast>>): ConfigSave.Parsed<seq<Ast>> {
    match r
    case Parsed(a, rest) => ConfigSave.Parsed(ds + a, rest)
    case Recovers => Recovers
  }

  lemma NoneYet(r: ConfigSave.Parsed<seq<Ast>>)
    ensures More([], r) == r
  {
    if r.Parsed? { assert [] + r.ast == r.ast; }
  }

  lemma MoreIsMore(ds: seq<Ast>, d: Ast, r: ConfigSave.Parsed<seq<Ast>>)
    ensures More(ds, More([d], r)) == More(ds + [d], r)
  {
    if r.Parsed? { assert ds + ([d] + r.ast) == ds + [d] + r.ast; }
  }
}
