/** Reading BER: decode_tag, decode_length with its mutual recursion through find_eoc, and
    the definition-free _decode of src/asn1/asn1.cpp.

    A pointer into the receive buffer is the sequence of octets from it to the buffer's end;
    the length passed along is the caller's claim, which find_eoc does not always shrink. A
    read past the buffer, an error return that find_eoc ignores, or an unsigned length that
    would wrap is `Broken`: it cannot happen on the inputs of the theorems below. */
module BerDecode {
  import opened BerOctets
  import opened BerTlv

  datatype Eoc = At(pos: nat) | Broken

  // ---------------------------------------------------------------- specification functions

  /** decode_length on memory m with claimed length limit. */
  function LengthAt(m: seq<byte>, limit: nat): (r: LengthResult)
    ensures r.Length? ==> 1 <= r.size <= |m|
    decreases limit, 0
  {
    if limit > 0 && m != [] && m[0] == 0x80 then
      match FindEoc(m[1..], limit - 1)
      case At(n) => Length(n, 1, Indefinite)
      case Broken => Unreadable
    else DefiniteLength(m, limit)
  }

  /** find_eoc: the offset of the end-of-contents mark that closes this level, 0 if none. */
  function FindEoc(m: seq<byte>, limit: nat): Eoc
    decreases limit, 1, limit + 1
  {
    EocFrom(m, limit, 0)
  }

  /** The rest of find_eoc's loop when it stands at offset p. */
  function EocFrom(m: seq<byte>, limit: nat, p: nat): (r: Eoc)
    ensures r.At? ==> r.pos == 0 || (p < r.pos && r.pos + 1 < limit)
    decreases limit, 1, if p <= limit then limit - p else 0
  {
    if p >= limit then At(0)
    else
      match Element(m, limit, p)
      case Broken => Broken
      case At(q) =>
        if q + 1 < limit && q + 1 >= |m| then Broken
        else if q + 1 < limit && m[q] == 0 && m[q + 1] == 0 then At(q)
        else EocFrom(m, limit, q)
  }

  /** The offset after the element at offset p. */
  function Element(m: seq<byte>, limit: nat, p: nat): (r: Eoc)
    requires p < limit
    ensures r.At? ==> r.pos > p
    decreases limit, 1, 0
  {
    if p >= |m| then Broken
    else
      match TagOf(m[p..])
      case NoTag => Broken
      case Tag(_, constructed, _, tagSize) =>
        var q := p + tagSize;
        match LengthAt(m[q..], limit)
        case Refused => Broken
        case Unreadable => Broken
        case Length(n, size, form) =>
          if constructed && form == Indefinite then
            if q + size > limit then Broken
            else
              match FindEoc(m[q + size..], limit - (q + size))
              case Broken => Broken
              case At(e) => At(q + size + e + 2)
          else At(q + size + n)
  }

  /** A forest, or the error number _decode returns, or Crash. */
  datatype Decoded = Forest(nodes: seq<Tlv>) | Failed(code: nat) | Crash

  /** One TLV: its identifier and length with the octets they took, where its value stands, and
      the offset of the next one on its level. */
  datatype Header = Header(cls: TagClass, constructed: bool, tag: nat, tagSize: nat, lenSize: nat,
                           value: nat, length: nat, next: nat)
                  | BadHeader(code: nat) | NoHeader

  function HeaderAt(m: seq<byte>, limit: nat, p: nat): (h: Header)
    requires p < limit
    ensures h.Header? ==> p < h.value && h.value + h.length <= limit && h.value + h.length <= h.next
    ensures h.Header? ==> h.length < limit
  {
    if p >= |m| then NoHeader
    else
      match TagOf(m[p..])
      case NoTag => NoHeader
      case Tag(c, constructed, t, tagSize) =>
        var q := p + tagSize;
        if q > limit then NoHeader
        else
          match LengthAt(m[q..], limit - q)
          case Refused => BadHeader(300)
          case Unreadable => NoHeader
          case Length(n, size, form) =>
            if q + size > limit then NoHeader
            else if n > limit - (q + size) then BadHeader(200)
            else Header(c, constructed, t, tagSize, size, q + size, n, q + size + n + if form == Indefinite then 2 else 0)
  }

  /** One decoded node with the offset after it, or why there is none. */
  datatype Step = Next(node: Tlv, next: nat) | Stop(why: Decoded)

  /** The node at offset p; the recursive call goes through the public decode, whose pool
      counter starts at zero. */
  function NodeAt(m: seq<byte>, limit: nat, p: nat, pool: nat): (s: Step)
    requires p < limit
    ensures s.Next? ==> s.next > p
    ensures s.Stop? ==> !s.why.Forest?
    decreases limit, 0, 0
  {
    match HeaderAt(m, limit, p)
    case NoHeader => Stop(Crash)
    case BadHeader(code) => Stop(Failed(code))
    case Header(c, constructed, t, _, _, v, n, next) =>
      if v + n > |m| then Stop(Crash)
      else if constructed then
        match DecodeFrom(m[v..], n, 0, pool, 0)
        case Forest(kids) => Next(Constructed(c, t, kids), next)
        case Failed(code) => Stop(Failed(code))
        case Crash => Stop(Crash)
      else Next(Primitive(c, t, m[v..v + n]), next)
  }

  /** The rest of _decode's loop when it stands at offset p having used `used` pool entries. */
  function DecodeFrom(m: seq<byte>, limit: nat, p: nat, pool: nat, used: nat): Decoded
    decreases limit, 1, if p <= limit then limit - p else 0
  {
    if p >= limit then Forest([])
    else if used + 1 > pool then Failed(400)
    else
      match NodeAt(m, limit, p, pool)
      case Stop(why) => why
      case Next(node, next) => Prepend([node], DecodeFrom(m, limit, next, pool, used + 1))
  }

  /** Nodes decoded so far, followed by the outcome of the rest. */
  function Prepend(done: seq<Tlv>, rest: Decoded): Decoded {
    if rest.Forest? then Forest(done + rest.nodes) else rest
  }

  function Decode(m: seq<byte>, limit: nat, pool: nat): Decoded {
    DecodeFrom(m, limit, 0, pool, 0)
  }

  // ---------------------------------------------------------------- end of contents

  lemma NotTheMark(e: Formed, m: seq<byte>, p: nat)
    requires Readable(e) && !LooksLikeEoc(e) && Holds(m, p, Bytes(e))
    ensures p + 2 <= |m| && !(m[p] == 0 && m[p + 1] == 0)
  {
    BytesAt(e, m, p);
    var n := |Contents(e)|;
    var t, f := TagOctets(e.cls, e.FConstructed?, e.tag), FormOctets(e.form, n);
    HoldsAt(m, p, t, 0);
    if t[0] == 0 {
      assert |t| == 1 && e.tag == 0 && e.cls == Universal && e.FPrimitive?;
      HoldsAt(m, p + 1, f, 0);
    }
  }

  /** Where the parts of an element lie. */
  lemma BytesAt(e: Formed, m: seq<byte>, p: nat)
    requires Holds(m, p, Bytes(e))
    ensures Holds(m, p, TagOctets(e.cls, e.FConstructed?, e.tag))
    ensures Holds(m, p + TagSize(e.tag), FormOctets(e.form, |Contents(e)|))
    ensures Holds(m, p + TagSize(e.tag) + |FormOctets(e.form, |Contents(e)|)|, Contents(e))
    ensures Holds(m, p + TagSize(e.tag) + |FormOctets(e.form, |Contents(e)|)| + |Contents(e)|, Mark(e.form))
    ensures |Bytes(e)| == TagSize(e.tag) + |FormOctets(e.form, |Contents(e)|)| + |Contents(e)| + |Mark(e.form)|
  {
    hide TagOctets, FormOctets, TagSize;
    HoldsFour(m, p, TagOctets(e.cls, e.FConstructed?, e.tag), FormOctets(e.form, |Contents(e)|), Contents(e), Mark(e.form));
  }

  lemma HoldsFour(m: seq<byte>, p: nat, a: seq<byte>, b: seq<byte>, c: seq<byte>, d: seq<byte>)
    requires Holds(m, p, a + (b + (c + d)))
    ensures Holds(m, p, a) && Holds(m, p + |a|, b) && Holds(m, p + |a| + |b|, c)
    ensures Holds(m, p + |a| + |b| + |c|, d)
  {
    HoldsParts(m, p, a, b + (c + d));
    HoldsParts(m, p + |a|, b, c + d);
    HoldsParts(m, p + |a| + |b|, c, d);
  }

  lemma TagRead(e: Formed, m: seq<byte>, p: nat)
    requires Holds(m, p, TagOctets(e.cls, e.FConstructed?, e.tag))
    ensures p < |m|
    ensures TagOf(m[p..]) == Tag(e.cls, e.FConstructed?, TagReadBack(e.tag), TagSize(e.tag))
  {
    var t := TagOctets(e.cls, e.FConstructed?, e.tag);
    HoldsPrefix(m, p, t);
    TagShapeRoundTrip(e.cls, e.FConstructed?, e.tag, m[p + |t|..]);
  }

  /** The length octets of a definite element are read back. */
  lemma DefiniteRead(f: Form, n: nat, m: seq<byte>, q: nat, limit: nat)
    requires f != ToEnd && FormFits(f, n)
    requires Holds(m, q, FormOctets(f, n)) && |FormOctets(f, n)| <= limit
    ensures LengthAt(m[q..], limit).Length?
    ensures LengthAt(m[q..], limit).value == n
    ensures LengthAt(m[q..], limit).size == |FormOctets(f, n)|
    ensures LengthAt(m[q..], limit).form != Indefinite
  {
    var s := FormOctets(f, n);
    HoldsPrefix(m, q, s);
    assert m[q..][0] == s[0] != 0x80;
    match f
    case Minimal => LengthRoundTrip(n, m[q + |s|..], limit);
    case LongForm(k) => LongLengthRoundTrip(n, k, m[q + |s|..], limit);
  }

  lemma OpeningOctet(m: seq<byte>, q: nat)
    requires Holds(m, q, [0x80])
    ensures q < |m| && m[q..][0] == 0x80 && m[q..][1..] == m[q + 1..]
  {
    HoldsAt(m, q, [0x80], 0);
  }

  /** The length of any element is read as the number of its contents octets. */
  lemma {:induction false} LengthRead(e: Formed, m: seq<byte>, q: nat, limit: nat)
    requires Readable(e) && Filled(e)
    requires Holds(m, q, FormOctets(e.form, |Contents(e)|))
    requires Holds(m, q + |FormOctets(e.form, |Contents(e)|)|, Contents(e))
    requires Holds(m, q + |FormOctets(e.form, |Contents(e)|)| + |Contents(e)|, Mark(e.form))
    requires |FormOctets(e.form, |Contents(e)|)| + |Contents(e)| + |Mark(e.form)| <= limit
    ensures LengthAt(m[q..], limit).Length?
    ensures LengthAt(m[q..], limit).value == |Contents(e)|
    ensures LengthAt(m[q..], limit).size == |FormOctets(e.form, |Contents(e)|)|
    ensures LengthAt(m[q..], limit).form == Indefinite <==> e.form == ToEnd
    decreases e, 0
  {
    hide Holds, LengthOctets, Octets, AllBytes, EocFrom, DefiniteLength, LengthSize;
    if e.form == ToEnd {
      OpeningOctet(m, q);
      HoldsInside(m, q + 1, Contents(e), q + 1);
      HoldsInside(m, q + 1 + |Contents(e)|, EOC_MARK, q + 1);
      ScanEnds(e.children, m[q + 1..], limit - 1, 0);
      assert FindEoc(m[q + 1..], limit - 1) == At(|Contents(e)|);
    } else {
      DefiniteRead(e.form, |Contents(e)|, m, q, limit);
    }
  }

  lemma FilledInside(e: Formed)
    requires Readable(e) && Filled(e) && e.form == ToEnd
    ensures e.FConstructed? && e.children != [] && AllReadable(e.children) && Contents(e) == AllBytes(e.children)
    ensures forall i :: 0 <= i < |e.children| ==> Filled(e.children[i])
    ensures forall i :: 1 <= i < |e.children| ==> !LooksLikeEoc(e.children[i])
  {
  }

  lemma OpenForm(e: Formed)
    ensures e.form == ToEnd ==> FormOctets(e.form, |Contents(e)|) == [0x80] && Mark(e.form) == EOC_MARK
    ensures e.form != ToEnd ==> Mark(e.form) == []
  {
  }

  lemma {:induction false} ElementEnds(e: Formed, m: seq<byte>, limit: nat, p: nat)
    requires Readable(e) && Filled(e) && Holds(m, p, Bytes(e))
    requires p + |Bytes(e)| <= limit
    ensures p < limit
    ensures Element(m, limit, p) == At(p + |Bytes(e)|)
    decreases e, 1
  {
    hide TagOctets, TagSize, TagReadBack, TagOf, LengthAt, Bytes, Holds, FormOctets, AllBytes, EocFrom, Contents, Mark,
         Readable, Filled, AllReadable, LooksLikeEoc;
    BytesAt(e, m, p);
    TagRead(e, m, p);
    OpenForm(e);
    var q := p + TagSize(e.tag);
    LengthRead(e, m, q, limit);
    if e.form == ToEnd {
      FilledInside(e);
      HoldsInside(m, q + 1, Contents(e), q + 1);
      HoldsInside(m, q + 1 + |Contents(e)|, EOC_MARK, q + 1);
      ScanEnds(e.children, m[q + 1..], limit - (q + 1), 0);
      assert FindEoc(m[q + 1..], limit - (q + 1)) == At(|Contents(e)|);
    }
  }

  /** find_eoc stops at the mark that closes its own level, under any nesting. */
  lemma {:induction false} ScanEnds(es: seq<Formed>, m: seq<byte>, limit: nat, p: nat)
    requires es != [] && AllReadable(es) && forall i :: 0 <= i < |es| ==> Filled(es[i])
    requires forall i :: 1 <= i < |es| ==> !LooksLikeEoc(es[i])
    requires Holds(m, p, AllBytes(es)) && Holds(m, p + |AllBytes(es)|, EOC_MARK)
    requires p + |AllBytes(es)| + 2 <= limit
    ensures EocFrom(m, limit, p) == At(p + |AllBytes(es)|)
    decreases es
  {
    hide Element, Bytes, Readable, LooksLikeEoc;
    var e, more := es[0], es[1..];
    HoldsParts(m, p, Bytes(e), AllBytes(more));
    ElementEnds(e, m, limit, p);
    var q := p + |Bytes(e)|;
    if more == [] {
      HoldsAt(m, q, EOC_MARK, 0);
      HoldsAt(m, q, EOC_MARK, 1);
    } else {
      assert more[0] == es[1];
      HoldsParts(m, q, Bytes(more[0]), AllBytes(more[1..]));
      NotTheMark(more[0], m, q);
      ScanEnds(more, m, limit, q);
    }
  }

  // ---------------------------------------------------------------- hollow nodes

  lemma MarkIsAnElement(m: seq<byte>, limit: nat, p: nat)
    requires Holds(m, p, EOC_MARK) && p < limit
    ensures Element(m, limit, p) == At(p + 2)
  {
    HoldsAt(m, p, EOC_MARK, 0);
    HoldsAt(m, p, EOC_MARK, 1);
    assert TagOf(m[p..]) == Tag(Universal, false, 0, 1);
    assert m[p + 1..][0] == 0;
  }

  /** What a scan may still pass: elements with contents or hollow ones, none like a mark. */
  predicate Passable(es: seq<Formed>) {
    && AllReadable(es)
    && forall i :: 0 <= i < |es| ==> (Filled(es[i]) || Hollow(es[i])) && (i > 0 ==> !LooksLikeEoc(es[i]))
  }

  predicate SomeHollow(es: seq<Formed>) {
    exists i :: 0 <= i < |es| && Hollow(es[i])
  }

  lemma HollowFirst(es: seq<Formed>)
    requires es != []
    ensures SomeHollow(es) <==> Hollow(es[0]) || SomeHollow(es[1..])
  {
    if i :| 1 <= i < |es| && Hollow(es[i]) { assert Hollow(es[1..][i - 1]); }
  }

  /** Elements from p on that end at `end` within the limit; if the limit is beyond, a mark
      follows. */
  predicate Laid(es: seq<Formed>, m: seq<byte>, limit: nat, p: nat, end: nat) {
    && Holds(m, p, AllBytes(es)) && end == p + |AllBytes(es)| <= limit
    && (limit > end ==> Holds(m, end, EOC_MARK))
  }

  /** The outcome of a scan over them: with the whole mark in view, no scan that met a hollow
      node finds it. */
  predicate Scanned(r: Eoc, hollow: bool, end: nat, limit: nat) {
    if limit < end + 2 then r == At(0) || (r == Broken && hollow)
    else if hollow then r == Broken || r.pos == 0 || r.pos > end
    else r == At(end)
  }

  lemma LaidInside(es: seq<Formed>, m: seq<byte>, limit: nat, p: nat, end: nat, v: nat)
    requires Laid(es, m, limit, p, end) && v <= p
    ensures Laid(es, m[v..], limit - v, p - v, end - v)
  {
    HoldsInside(m, p, AllBytes(es), v);
    if limit > end { HoldsInside(m, end, EOC_MARK, v); }
  }

  lemma LaidFirst(es: seq<Formed>, m: seq<byte>, limit: nat, p: nat, end: nat)
    requires es != [] && Laid(es, m, limit, p, end)
    ensures Holds(m, p, Bytes(es[0])) && Laid(es[1..], m, limit, p + |Bytes(es[0])|, end)
  {
    HoldsParts(m, p, Bytes(es[0]), AllBytes(es[1..]));
  }

  /** The scan of a hollow node's contents takes its mark for an element and goes on. */
  lemma {:induction false} HollowInside(es: seq<Formed>, m: seq<byte>, limit: nat, end: nat)
    requires Passable(es) && (es != [] ==> !LooksLikeEoc(es[0]))
    requires Holds(m, 0, EOC_MARK) && Laid(es, m, limit, 2, end)
    ensures Scanned(FindEoc(m, limit), SomeHollow(es), end, limit)
    decreases |es|, 1
  {
    hide Element, Bytes, Readable, LooksLikeEoc, Filled, Hollow;
    MarkIsAnElement(m, limit, 0);
    if es == [] {
      if limit >= 4 {
        HoldsAt(m, 2, EOC_MARK, 0);
        HoldsAt(m, 2, EOC_MARK, 1);
      } else {
        NothingScanned(m, limit, 2);
      }
    } else {
      LaidFirst(es, m, limit, 2, end);
      NotTheMark(es[0], m, 2);
      HollowScan(es, m, limit, 2, end);
    }
  }

  /** A mark of which at most one octet is in view is not seen. */
  lemma NothingScanned(m: seq<byte>, limit: nat, end: nat)
    requires limit < end + 2 && (limit > end ==> Holds(m, end, EOC_MARK))
    ensures EocFrom(m, limit, end) == At(0)
  {
    hide Element;
    if limit > end { MarkIsAnElement(m, limit, end); }
  }

  lemma {:induction false} HollowElement(e: Formed, more: seq<Formed>, m: seq<byte>, limit: nat, p: nat, end: nat)
    requires Hollow(e) && Passable(more) && (more != [] ==> !LooksLikeEoc(more[0]))
    requires Laid([e] + more, m, limit, p, end)
    ensures p < limit
    ensures var r := Element(m, limit, p);
            || r == Broken
            || (r == At(p + |Bytes(e)|) && (limit >= end + 2 ==> SomeHollow(more)))
            || (limit >= end + 2 && r.pos > end)
    decreases |more|, 2
  {
    hide TagOctets, TagSize, TagReadBack, TagOf, Holds, FindEoc, EocFrom, LooksLikeEoc, Filled;
    LaidFirst([e] + more, m, limit, p, end);
    assert ([e] + more)[1..] == more;
    BytesAt(e, m, p);
    TagRead(e, m, p);
    var v := p + TagSize(e.tag) + 1;
    OpeningOctet(m, v - 1);
    HoldsInside(m, v, EOC_MARK, v);
    LaidInside(more, m, limit, v + 2, end, v);
    HollowInside(more, m[v..], limit - v, end - v);
  }

  lemma {:induction false} HollowScan(es: seq<Formed>, m: seq<byte>, limit: nat, p: nat, end: nat)
    requires Passable(es) && (es == [] ==> limit < end + 2)
    requires Laid(es, m, limit, p, end)
    ensures Scanned(EocFrom(m, limit, p), SomeHollow(es), end, limit)
    decreases |es|, 0
  {
    hide Element, Bytes, Readable, LooksLikeEoc, Filled, Hollow;
    if es == [] {
      NothingScanned(m, limit, p);
    } else {
      var e, more := es[0], es[1..];
      LaidFirst(es, m, limit, p, end);
      var q := p + |Bytes(e)|;
      if !Hollow(e) {
        ElementEnds(e, m, limit, p);
      } else {
        assert es == [e] + more;
        HollowElement(e, more, m, limit, p, end);
      }
      HollowFirst(es);
      if Element(m, limit, p) == At(q) {
        if more != [] {
          LaidFirst(more, m, limit, q, end);
          NotTheMark(more[0], m, q);
          HollowScan(more, m, limit, q, end);
        } else if limit >= end + 2 {
          HoldsAt(m, end, EOC_MARK, 0);
          HoldsAt(m, end, EOC_MARK, 1);
        } else {
          NothingScanned(m, limit, q);
        }
      }
    }
  }

  // ---------------------------------------------------------------- decoding what was written

  /** The header of an element that stands at offset p. */
  function HeaderOf(e: Formed, p: nat): (h: Header)
    ensures h.Header?
  {
    var k := |FormOctets(e.form, |Contents(e)|)|;
    Header(e.cls, e.FConstructed?, TagReadBack(e.tag), TagSize(e.tag), k, p + TagSize(e.tag) + k, |Contents(e)|,
           p + |Bytes(e)|)
  }

  lemma HeaderRead(e: Formed, m: seq<byte>, limit: nat, p: nat)
    requires Readable(e) && Filled(e) && Holds(m, p, Bytes(e))
    requires p + |Bytes(e)| <= limit
    ensures p < limit
    ensures HeaderAt(m, limit, p) == HeaderOf(e, p)
  {
    hide TagOctets, TagSize, TagReadBack, TagOf, LengthAt, Bytes, Holds, FormOctets, AllBytes;
    BytesAt(e, m, p);
    TagRead(e, m, p);
    LengthRead(e, m, p + TagSize(e.tag), limit - (p + TagSize(e.tag)));
  }

  lemma HollowHeader(e: Formed, more: seq<Formed>, m: seq<byte>, limit: nat, p: nat)
    requires Hollow(e) && Passable(more) && (more != [] ==> !LooksLikeEoc(more[0]))
    requires Laid([e] + more, m, limit, p, limit)
    ensures p < limit
    ensures HeaderAt(m, limit, p) == HeaderOf(e, p) || (HeaderAt(m, limit, p) == NoHeader && SomeHollow(more))
  {
    hide TagOctets, TagSize, TagReadBack, TagOf, Holds, FindEoc, EocFrom, LooksLikeEoc, Filled;
    LaidFirst([e] + more, m, limit, p, limit);
    assert ([e] + more)[1..] == more;
    BytesAt(e, m, p);
    TagRead(e, m, p);
    var v := p + TagSize(e.tag) + 1;
    OpeningOctet(m, v - 1);
    HoldsInside(m, v, EOC_MARK, v);
    LaidInside(more, m, limit, v + 2, limit, v);
    HollowInside(more, m[v..], limit - v, limit - v);
  }

  /** On a level that ends at the limit, hollow nodes are read as such if nothing behind them
      looks like a mark; behind one, a second may send a scan, whose result is not used,
      beyond the buffer. */
  lemma HeaderFirst(es: seq<Formed>, m: seq<byte>, limit: nat, p: nat)
    requires es != [] && AllReadable(es) && Settled(es) && Laid(es, m, limit, p, limit)
    ensures p < limit && Holds(m, p, Bytes(es[0])) && Laid(es[1..], m, limit, p + |Bytes(es[0])|, limit)
    ensures HeaderAt(m, limit, p) == HeaderOf(es[0], p) || (HeaderAt(m, limit, p) == NoHeader && !Sparse(es))
  {
    hide HeaderAt, HeaderOf, Holds, Bytes, LooksLikeEoc;
    LaidFirst(es, m, limit, p, limit);
    if Hollow(es[0]) {
      forall i | 1 <= i < |es| && !Hollow(es[i]) ensures Filled(es[i]) { LegibleIsFilled(es[i]); }
      assert es == [es[0]] + es[1..];
      HollowHeader(es[0], es[1..], m, limit, p);
    } else {
      LegibleIsFilled(es[0]);
      HeaderRead(es[0], m, limit, p);
    }
  }

  /** Whatever length forms were chosen, the tree comes back, with tag numbers as read. */
  lemma {:induction false} DecodeReads(es: seq<Formed>, m: seq<byte>, limit: nat, p: nat, pool: nat, used: nat)
    requires AllReadable(es) && Settled(es) && Laid(es, m, limit, p, limit)
    requires LevelsFit(es, pool) && used + |es| <= pool
    ensures var r := DecodeFrom(m, limit, p, pool, used);
            r == Forest(AllReread(Meanings(es))) || (r == Crash && !Sparse(es))
    decreases es
  {
    hide Bytes, Holds, HeaderAt, TagReadBack, TagSize, FormOctets, NodeAt;
    if es != [] {
      var e, more := es[0], es[1..];
      NodeReads(es, m, limit, p, pool);
      LaidFirst(es, m, limit, p, limit);
      DecodeReads(more, m, limit, p + |Bytes(e)|, pool, used + 1);
      assert Meanings(es)[1..] == Meanings(more);
    }
  }

  lemma {:induction false} NodeReads(es: seq<Formed>, m: seq<byte>, limit: nat, p: nat, pool: nat)
    requires es != [] && AllReadable(es) && Settled(es) && Laid(es, m, limit, p, limit)
    requires es[0].FConstructed? ==> LevelsFit(es[0].children, pool)
    ensures p < limit
    ensures || NodeAt(m, limit, p, pool) == Next(Reread(Meaning(es[0])), p + |Bytes(es[0])|)
            || (NodeAt(m, limit, p, pool) == Stop(Crash) && !Sparse(es))
    decreases es[0]
  {
    hide Bytes, Holds, HeaderAt, TagReadBack, TagSize, FormOctets, Laid;
    HeaderFirst(es, m, limit, p);
    var e := es[0];
    ContentsLaid(e, m, p);
    var v := HeaderOf(e, p).value;
    if e.FConstructed? && HeaderAt(m, limit, p).Header? {
      DecodeReads(e.children, m[v..], |Contents(e)|, 0, pool, 0);
    }
  }

  /** The contents of an element fill a level of their own. */
  lemma ContentsLaid(e: Formed, m: seq<byte>, p: nat)
    requires Holds(m, p, Bytes(e))
    ensures var v := HeaderOf(e, p).value;
            && v + |Contents(e)| <= |m| && m[v..v + |Contents(e)|] == Contents(e)
            && p + |Bytes(e)| == v + |Contents(e)| + |Mark(e.form)|
            && (e.FConstructed? ==> Laid(e.children, m[v..], |Contents(e)|, 0, |Contents(e)|))
  {
    hide TagOctets, TagSize, TagReadBack, FormOctets, Bytes, AllBytes;
    BytesAt(e, m, p);
    var v := HeaderOf(e, p).value;
    HoldsSlice(m, v, Contents(e));
    HoldsInside(m, v, Contents(e), v);
  }

  /** The program reads back what it writes exactly when every tag number is at most 127. */
  lemma BerRoundTrip(ts: seq<Tlv>, rest: seq<byte>, pool: nat)
    requires |BerAll(ts)| <= MAX_LENGTH && TlvLevelsFit(ts, pool)
    ensures Decode(BerAll(ts) + rest, |BerAll(ts)|, pool) == Forest(AllReread(ts))
    ensures Decode(BerAll(ts) + rest, |BerAll(ts)|, pool) == Forest(ts) <==> AllSmallTags(ts)
  {
    AllDefiniteBytes(ts);
    DefiniteReadable(ts, pool);
    DecodeReads(AllDefinite(ts), BerAll(ts) + rest, |BerAll(ts)|, 0, pool, 0);
    AllRereadIsIdentity(ts);
  }
}
