/** Exactly which messages the decoder without a definition reads as they are meant, and which
    it misreads: those where the end of an empty indefinite node is looked for in the wrong
    place. */
module BerHollow {
  import opened BerOctets
  import opened BerTlv
  import opened BerDecode

  // ---------------------------------------------------------------- what was read right was legible

  /** The outcome that is right: the tree, with tag numbers as they are read back. */
  function Meant(es: seq<Formed>): Decoded {
    Forest(AllReread(Meanings(es)))
  }

  /** A definite header is read as it is, or not at all, whatever the limit. */
  lemma DefiniteHeader(e: Formed, m: seq<byte>, limit: nat, p: nat)
    requires Readable(e) && e.form != ToEnd && Holds(m, p, Bytes(e)) && p < limit
    requires HeaderAt(m, limit, p).Header?
    ensures HeaderAt(m, limit, p) == HeaderOf(e, p)
  {
    hide TagOctets, TagSize, TagReadBack, TagOf, LengthAt, Bytes, Holds, AllBytes, FormOctets;
    BytesAt(e, m, p);
    TagRead(e, m, p);
    var q := p + TagSize(e.tag);
    DefiniteOrRefused(e.form, |Contents(e)|, m, q, limit - q);
  }

  lemma DefiniteOrRefused(f: Form, n: nat, m: seq<byte>, q: nat, limit: nat)
    requires f != ToEnd && FormFits(f, n) && Holds(m, q, FormOctets(f, n)) && q <= |m|
    requires LengthAt(m[q..], limit).Length?
    ensures LengthAt(m[q..], limit).value == n && LengthAt(m[q..], limit).size == |FormOctets(f, n)|
    ensures LengthAt(m[q..], limit).form != Indefinite
  {
    hide Octets, FindEoc;
    var s := FormOctets(f, n);
    HoldsAt(m, q, s, 0);
    assert m[q..][0] == s[0];
    assert |s| <= limit;
    DefiniteRead(f, n, m, q, limit);
  }

  /** An indefinite header, with whatever length the scan of the contents gives. */
  lemma OpenHeader(e: Formed, m: seq<byte>, limit: nat, p: nat)
    requires Readable(e) && e.form == ToEnd && Holds(m, p, Bytes(e)) && p < limit
    requires HeaderAt(m, limit, p).Header?
    ensures var h, v := HeaderAt(m, limit, p), HeaderOf(e, p).value;
            && v <= limit && h.value == v && v <= |m| && FindEoc(m[v..], limit - v) == At(h.length)
            && h.next == v + h.length + 2 && v + h.length <= limit && h.constructed
            && HeaderOf(e, p).next == v + |AllBytes(e.children)| + 2
            && (limit >= v + |AllBytes(e.children)| ==> Laid(e.children, m[v..], limit - v, 0, |AllBytes(e.children)|))
  {
    hide TagOctets, TagSize, TagReadBack, TagOf, FindEoc, Bytes, Holds, AllBytes;
    BytesAt(e, m, p);
    TagRead(e, m, p);
    var v := p + TagSize(e.tag) + 1;
    OpeningOctet(m, v - 1);
    HoldsInside(m, v, Contents(e), v);
    HoldsInside(m, v + |Contents(e)|, EOC_MARK, v);
  }

  /** Behind a hollow node something like a mark is found, if nothing hollow is in between. */
  lemma {:induction false} MeetsMark(es: seq<Formed>, k: nat, m: seq<byte>, limit: nat, p: nat, end: nat)
    requires 0 < k < |es| && AllReadable(es) && LooksLikeEoc(es[k])
    requires forall i :: 0 <= i < k ==> Filled(es[i]) && (i > 0 ==> !LooksLikeEoc(es[i]))
    requires Laid(es, m, limit, p, end)
    ensures EocFrom(m, limit, p).At? ==> EocFrom(m, limit, p).pos > 0
    decreases k
  {
    hide Element, Bytes, Readable, Filled;
    var more := es[1..];
    LaidFirst(es, m, limit, p, end);
    ElementEnds(es[0], m, limit, p);
    var q := p + |Bytes(es[0])|;
    LaidFirst(more, m, limit, q, end);
    if k == 1 {
      LooksLikeMark(more[0], m, q);
    } else {
      NotTheMark(more[0], m, q);
      MeetsMark(more, k - 1, m, limit, q, end);
    }
  }

  lemma LooksLikeMark(e: Formed, m: seq<byte>, p: nat)
    requires LooksLikeEoc(e) && Holds(m, p, Bytes(e))
    ensures |Bytes(e)| == 2 && p + 2 <= |m| && m[p] == 0 && m[p + 1] == 0
  {
    HoldsAt(m, p, Bytes(e), 0);
    HoldsAt(m, p, Bytes(e), 1);
  }

  function FirstMark(es: seq<Formed>): (k: nat)
    ensures k <= |es| && (k < |es| ==> LooksLikeEoc(es[k]))
    ensures forall i :: 0 <= i < k ==> !LooksLikeEoc(es[i])
  {
    if es == [] || LooksLikeEoc(es[0]) then 0 else 1 + FirstMark(es[1..])
  }

  lemma FilledBefore(es: seq<Formed>, k: nat)
    requires AllReadable(es) && Settled(es) && k < |es| && LooksLikeEoc(es[k])
    ensures forall i :: 0 <= i < k ==> Filled(es[i])
  {
    hide LooksLikeEoc;
    forall i | 0 <= i < k ensures Filled(es[i]) { LegibleIsFilled(es[i]); }
  }

  lemma NoMarkBehind(e: Formed, more: seq<Formed>, m: seq<byte>, limit: nat, p: nat)
    requires Hollow(e) && Readable(e) && AllReadable(more) && Settled(more)
    requires Laid([e] + more, m, limit, p, limit) && p < limit
    requires HeaderAt(m, limit, p).Header? && HeaderAt(m, limit, p).length == 0
    ensures FirstMark(more) == |more|
  {
    hide HeaderAt, HeaderOf, Bytes, FindEoc, EocFrom, LooksLikeEoc, Settled, AllReadable, Filled, Laid, Holds, AllBytes;
    LaidFirst([e] + more, m, limit, p, limit);
    assert ([e] + more)[1..] == more;
    OpenHeader(e, m, limit, p);
    HollowParts(e, m, p);
    var v, k := HeaderOf(e, p).value, FirstMark(more);
    LaidInside(more, m, limit, v + 2, limit, v);
    if k < |more| {
      FilledBefore(more, k);
      MarkBehind(more, k, m[v..], limit - v);
    }
  }

  lemma HollowParts(e: Formed, m: seq<byte>, p: nat)
    requires Hollow(e) && Holds(m, p, Bytes(e))
    ensures var v := HeaderOf(e, p).value; v <= |m| && p + |Bytes(e)| == v + 2 && Holds(m[v..], 0, EOC_MARK)
  {
    hide TagOctets, TagSize, TagReadBack, Holds;
    BytesAt(e, m, p);
    var v := p + TagSize(e.tag) + 1;
    OpeningOctet(m, v - 1);
    HoldsInside(m, v, EOC_MARK, v);
  }

  lemma MarkBehind(es: seq<Formed>, k: nat, m: seq<byte>, limit: nat)
    requires k < |es| && AllReadable(es) && LooksLikeEoc(es[k])
    requires forall i :: 0 <= i < k ==> Filled(es[i]) && !LooksLikeEoc(es[i])
    requires Holds(m, 0, EOC_MARK) && Laid(es, m, limit, 2, limit)
    ensures FindEoc(m, limit) != At(0)
  {
    hide Element, Bytes, Readable, Filled, LooksLikeEoc;
    MarkIsAnElement(m, limit, 0);
    LaidFirst(es, m, limit, 2, limit);
    if k == 0 {
      LooksLikeMark(es[0], m, 2);
    } else {
      NotTheMark(es[0], m, 2);
      MeetsMark(es, k, m, limit, 2, limit);
    }
  }

  /** Where a level ends, if its nodes were read right up to a limit: exactly there, or inside
      the mark of a hollow node that stands last. */
  predicate Reaches(es: seq<Formed>, p: nat, limit: nat) {
    var end := p + |AllBytes(es)|;
    if es == [] then limit <= p
    else p < limit <= end && (limit == end || (Hollow(es[|es| - 1]) && end - 2 <= limit))
  }

  lemma {:induction false} LevelLegible(es: seq<Formed>, m: seq<byte>, limit: nat, p: nat, pool: nat, used: nat)
    requires AllReadable(es) && Holds(m, p, AllBytes(es))
    requires DecodeFrom(m, limit, p, pool, used) == Meant(es)
    ensures (forall i :: 0 <= i < |es| ==> Legible(es[i])) && Reaches(es, p, limit)
    ensures limit == p + |AllBytes(es)| ==> Settled(es)
    decreases es
  {
    hide Bytes, Holds, HeaderAt, NodeAt, Legible, Readable, Hollow, LooksLikeEoc, Reread;
    if es == [] { return; }
    assert |AllReread(Meanings(es))| == |es|;
    var e, more := es[0], es[1..];
    HoldsParts(m, p, Bytes(e), AllBytes(more));
    MeantFirst(es, m, limit, p, pool, used);
    NodeLegible(e, m, limit, p, pool);
    LevelLegible(more, m, limit, p + |Bytes(e)|, pool, used + 1);
    if limit == p + |AllBytes(es)| {
      assert es == [e] + more;
      SettledAlso(es, m, limit, p);
    }
  }

  lemma SettledAlso(es: seq<Formed>, m: seq<byte>, limit: nat, p: nat)
    requires es != [] && AllReadable(es) && Settled(es[1..]) && Legible(es[0]) && Laid(es, m, limit, p, limit) && p < limit
    requires Hollow(es[0]) ==> HeaderAt(m, limit, p).Header? && HeaderAt(m, limit, p).length == 0
    ensures Settled(es)
  {
    hide HeaderAt, Bytes, Holds, Legible, Hollow, LooksLikeEoc;
    assert es == [es[0]] + es[1..];
    if Hollow(es[0]) { NoMarkBehind(es[0], es[1..], m, limit, p); }
    forall i, j | 0 <= i < j < |es| && Hollow(es[i]) ensures !LooksLikeEoc(es[j]) {
      assert es[j] == es[1..][j - 1];
    }
  }

  lemma MeantFirst(es: seq<Formed>, m: seq<byte>, limit: nat, p: nat, pool: nat, used: nat)
    requires es != [] && DecodeFrom(m, limit, p, pool, used) == Meant(es)
    ensures p < limit && NodeAt(m, limit, p, pool).Next?
    ensures NodeAt(m, limit, p, pool).node == Reread(Meaning(es[0]))
    ensures DecodeFrom(m, limit, NodeAt(m, limit, p, pool).next, pool, used + 1) == Meant(es[1..])
  {
    hide NodeAt, Reread;
    var ts := AllReread(Meanings(es));
    assert |ts| == |es| && Meanings(es)[1..] == Meanings(es[1..]);
    var rest := DecodeFrom(m, limit, NodeAt(m, limit, p, pool).next, pool, used + 1);
    assert ts == [NodeAt(m, limit, p, pool).node] + rest.nodes;
    assert ts[1..] == rest.nodes;
  }

  /** A node that was read right was read to its end, and has no hollow node where it would
      mislead. */
  lemma {:induction false} NodeLegible(e: Formed, m: seq<byte>, limit: nat, p: nat, pool: nat)
    requires Readable(e) && Holds(m, p, Bytes(e)) && p < limit
    requires NodeAt(m, limit, p, pool).Next? && NodeAt(m, limit, p, pool).node == Reread(Meaning(e))
    ensures Legible(e) && NodeAt(m, limit, p, pool).next == p + |Bytes(e)|
    ensures p + |Bytes(e)| <= limit + (if Hollow(e) then 2 else 0)
    ensures Hollow(e) ==> HeaderAt(m, limit, p).Header? && HeaderAt(m, limit, p).length == 0
    decreases e
  {
    hide Bytes, Holds, HeaderAt, TagReadBack, FormOctets, LooksLikeEoc, AllBytes;
    if e.form == ToEnd {
      OpenHeader(e, m, limit, p);
      OpenLegible(e, m, limit, p, pool);
    } else {
      DefiniteHeader(e, m, limit, p);
      ContentsLaid(e, m, p);
      if e.FConstructed? {
        LevelLegible(e.children, m[HeaderOf(e, p).value..], |Contents(e)|, 0, pool, 0);
      }
    }
  }

  lemma {:induction false} OpenLegible(e: Formed, m: seq<byte>, limit: nat, p: nat, pool: nat)
    requires Readable(e) && Holds(m, p, Bytes(e)) && p < limit && e.form == ToEnd && HeaderAt(m, limit, p).Header?
    requires DecodeFrom(m[HeaderOf(e, p).value..], HeaderAt(m, limit, p).length, 0, pool, 0) == Meant(e.children)
    ensures Legible(e) && HeaderAt(m, limit, p).length == |AllBytes(e.children)|
    ensures p + |Bytes(e)| <= limit + (if Hollow(e) then 2 else 0)
    decreases e, 0
  {
    hide Bytes, Holds, HeaderAt, TagReadBack, TagSize, FormOctets, LooksLikeEoc, AllBytes, Readable, EocFrom, Filled;
    OpenHeader(e, m, limit, p);
    ReadableInside(e);
    var v, n, es := HeaderOf(e, p).value, HeaderAt(m, limit, p).length, e.children;
    ContentsLaid(e, m, p);
    LevelLegible(es, m[v..], n, 0, pool, 0);
    if es == [] {
      NoOctets(es);
    } else {
      forall i | 0 <= i < |es| && !Hollow(es[i]) ensures Filled(es[i]) { LegibleIsFilled(es[i]); }
      HollowScan(es, m[v..], limit - v, 0, |AllBytes(es)|);
    }
  }

  lemma NoOctets(es: seq<Formed>)
    requires es == []
    ensures AllBytes(es) == []
  {
  }

  lemma ReadableInside(e: Formed)
    requires Readable(e) && e.form == ToEnd
    ensures e.FConstructed? && AllReadable(e.children)
    ensures forall i :: 1 <= i < |e.children| ==> !LooksLikeEoc(e.children[i])
  {
  }

  // ---------------------------------------------------------------- the exact condition

  /** A message is read as it is meant only if no indefinite node without contents lies inside
      an indefinite level, nor before something on its level that looks like a mark, whatever
      follows it. If so it is read right, unless a level has two such nodes and the scan of the
      second, whose result is not used, leaves the buffer. */
  lemma ReadsExactly(es: seq<Formed>, rest: seq<byte>, pool: nat)
    requires AllReadable(es) && LevelsFit(es, pool)
    ensures var r := Decode(AllBytes(es) + rest, |AllBytes(es)|, pool);
            && (r == Meant(es) <==> Settled(es) && r != Crash)
            && (Sparse(es) ==> (r == Meant(es) <==> Settled(es)))
  {
    hide AllBytes, Meanings, AllReread, Sparse, Settled, DecodeFrom;
    var m, n := AllBytes(es) + rest, |AllBytes(es)|;
    if Settled(es) { DecodeReads(es, m, n, 0, pool, 0); }
    if Decode(m, n, pool) == Meant(es) { LevelLegible(es, m, n, 0, pool, 0); }
  }

  /** Decoding depends only on the tree, not on the length forms and on what follows in the
      buffer, exactly if every hollow node stands where its length is found. */
  lemma IndefiniteIsDefinite(es: seq<Formed>, rest: seq<byte>, rest': seq<byte>, pool: nat)
    requires AllReadable(es) && LevelsFit(es, pool) && Sparse(es)
    requires |BerAll(Meanings(es))| <= MAX_LENGTH
    ensures Decode(AllBytes(es) + rest, |AllBytes(es)|, pool)
         == Decode(BerAll(Meanings(es)) + rest', |BerAll(Meanings(es))|, pool)
       <==> Settled(es)
  {
    hide AllBytes, AllReread, Sparse, Settled, Decode, AllReadable, LevelsFit;
    ReadsExactly(es, rest, pool);
    MeaningsFit(es, pool);
    BerRoundTrip(Meanings(es), rest', pool);
  }

  lemma {:induction false} MeaningsFit(es: seq<Formed>, pool: nat)
    requires LevelsFit(es, pool)
    ensures TlvLevelsFit(Meanings(es), pool)
  {
    forall i | 0 <= i < |es| ensures Meanings(es)[i] == Meaning(es[i]) { MeaningsAt(es, i); }
    forall i | 0 <= i < |es| && es[i].FConstructed? ensures TlvLevelsFit(Meanings(es)[i].children, pool) {
      MeaningsFit(es[i].children, pool);
    }
  }

  lemma {:induction false} MeaningsAt(es: seq<Formed>, i: nat)
    requires i < |es|
    ensures Meanings(es)[i] == Meaning(es[i])
  {
    if i > 0 { MeaningsAt(es[1..], i - 1); }
  }

  /** The shortest such message: the mark of the empty node is taken for an element, and the
      scan of the node around it finds no mark at all. */
  lemma EmptyIndefiniteMisread()
    ensures var inner := FConstructed(Universal, 16, [], ToEnd);
            var outer := FConstructed(Universal, 16, [inner], ToEnd);
            && AllBytes([outer]) == [0x30, 0x80, 0x30, 0x80, 0, 0, 0, 0]
            && Decode(AllBytes([outer]), 8, 8)
               == Forest([Constructed(Universal, 16, []), Primitive(Universal, 0, []), Primitive(Universal, 0, [])])
  {
    hide Decode, FindEoc, Bytes, TagOctets, FormOctets;
    var inner := FConstructed(Universal, 16, [], ToEnd);
    var m: seq<byte> := [0x30, 0x80, 0x30, 0x80, 0, 0, 0, 0];
    SequenceBytes([]);
    assert AllBytes([inner]) == [0x30, 0x80, 0, 0];
    SequenceBytes([inner]);
    NoMarkLeft();
    assert m[2..] == [0x30, 0x80, 0, 0, 0, 0];
    MisreadForest(m);
  }

  lemma SequenceBytes(es: seq<Formed>)
    ensures Bytes(FConstructed(Universal, 16, es, ToEnd)) == [0x30, 0x80] + AllBytes(es) + [0, 0]
  {
  }

  lemma NoMarkLeft()
    ensures FindEoc([0x30, 0x80, 0, 0, 0, 0], 6) == At(0)
  {
    hide Element, LengthAt;
    var z: seq<byte>, m: seq<byte> := [0, 0, 0, 0], [0x30, 0x80, 0, 0, 0, 0];
    MarkIsAnElement(z, 5, 0);
    MarkIsAnElement(z, 4, 0);
    assert m[2..] == z;
    OpenElement(m, 6, 2);
    assert EocFrom(m, 6, 6) == At(0);
  }

  /** An indefinite element whose scan finds a mark n octets into its contents. */
  lemma OpenElement(m: seq<byte>, limit: nat, n: nat)
    requires |m| >= 2 && m[0] == 0x30 && m[1] == 0x80 && limit > 2
    requires FindEoc(m[2..], limit - 1) == At(n) && FindEoc(m[2..], limit - 2) == At(n)
    ensures LengthAt(m[1..], limit - 1) == Length(n, 1, Indefinite)
    ensures Element(m, limit, 0) == At(n + 4)
  {
    assert m[0..] == m;
    assert TagOf(m) == Tag(Universal, true, 16, 1);
    assert m[1..][1..] == m[2..];
  }

  lemma MisreadForest(m: seq<byte>)
    requires m == [0x30, 0x80, 0x30, 0x80, 0, 0, 0, 0] && FindEoc(m[2..], 6) == At(0)
    ensures Decode(m, 8, 8)
         == Forest([Constructed(Universal, 16, []), Primitive(Universal, 0, []), Primitive(Universal, 0, [])])
  {
    hide HeaderAt, AllReread, BerAll, FindEoc, EocFrom, Element, LengthAt, TagOf;
    SequenceHeader(m);
    MarkHeader(m, 8, 4);
    MarkHeader(m, 8, 6);
    MarkDecoded(m, 8, 6, 8);
    MarkDecoded(m, 8, 4, 8);
    assert DecodeFrom(m, 8, 6, 8, 2) == Forest([Primitive(Universal, 0, [])]);
  }

  lemma MarkDecoded(m: seq<byte>, limit: nat, p: nat, pool: nat)
    requires p + 2 <= limit && p + 2 <= |m|
    requires HeaderAt(m, limit, p) == Header(Universal, false, 0, 1, 1, p + 2, 0, p + 2)
    ensures NodeAt(m, limit, p, pool) == Next(Primitive(Universal, 0, []), p + 2)
  {
    hide HeaderAt;
    assert m[p + 2..p + 2 + 0] == [];
  }

  lemma SequenceHeader(m: seq<byte>)
    requires |m| >= 2 && m[0] == 0x30 && m[1] == 0x80 && FindEoc(m[2..], 6) == At(0)
    ensures HeaderAt(m, 8, 0) == Header(Universal, true, 16, 1, 1, 2, 0, 4)
  {
    hide EocFrom, FindEoc, DefiniteLength;
    assert m[0..] == m && m[1..][1..] == m[2..];
    assert TagOf(m) == Tag(Universal, true, 16, 1);
  }

  lemma MarkHeader(m: seq<byte>, limit: nat, p: nat)
    requires p + 2 <= |m| && m[p] == 0 && m[p + 1] == 0 && p + 2 <= limit
    ensures HeaderAt(m, limit, p) == Header(Universal, false, 0, 1, 1, p + 2, 0, p + 2)
  {
    assert TagOf(m[p..]) == Tag(Universal, false, 0, 1);
  }

  /** Two hollow nodes on one level with nothing behind them: find_eoc leaves the buffer. */
  lemma TwoHollows()
    ensures var e := FConstructed(Universal, 16, [], ToEnd);
            && AllBytes([e, e]) == [0x30, 0x80, 0, 0, 0x30, 0x80, 0, 0]
            && Settled([e, e]) && Decode(AllBytes([e, e]), 8, 8) == Crash
  {
    TwoHollowBytes();
    hide Decode, FindEoc, AllBytes;
    LeavesBuffer();
    NoLength([0x30, 0x80, 0, 0, 0x30, 0x80, 0, 0]);
  }

  lemma TwoHollowBytes()
    ensures var e := FConstructed(Universal, 16, [], ToEnd);
            AllBytes([e, e]) == [0x30, 0x80, 0, 0, 0x30, 0x80, 0, 0]
  {
    hide Bytes;
    var e := FConstructed(Universal, 16, [], ToEnd);
    SequenceBytes([]);
    assert [e, e][1..] == [e];
    assert AllBytes([e]) == Bytes(e) == [0x30, 0x80, 0, 0];
  }

  lemma LeavesBuffer()
    ensures FindEoc([0, 0, 0x30, 0x80, 0, 0], 6) == Broken
  {
    hide Element, LengthAt;
    var z: seq<byte>, m: seq<byte> := [0, 0], [0, 0, 0x30, 0x80, 0, 0];
    MarkIsAnElement(z, 5, 0);
    assert FindEoc(z, 5) == Broken;
    MarkIsAnElement(m, 6, 0);
    SecondElement(m);
  }

  lemma SecondElement(m: seq<byte>)
    requires m == [0, 0, 0x30, 0x80, 0, 0] && FindEoc([0, 0], 5) == Broken
    ensures Element(m, 6, 2) == Broken
  {
    hide FindEoc;
    assert TagOf(m[2..]) == Tag(Universal, true, 16, 1);
    assert m[3..][1..] == [0, 0];
  }

  lemma NoLength(m: seq<byte>)
    requires m == [0x30, 0x80, 0, 0, 0x30, 0x80, 0, 0] && FindEoc([0, 0, 0x30, 0x80, 0, 0], 6) == Broken
    ensures Decode(m, 8, 8) == Crash
  {
    hide FindEoc;
    assert m[0..] == m;
    assert TagOf(m) == Tag(Universal, true, 16, 1);
    assert m[1..][1..] == [0, 0, 0x30, 0x80, 0, 0];
    assert HeaderAt(m, 8, 0) == NoHeader;
  }
}
