/** Abstract TLV trees, their encodings under any choice of length forms, and the encoding
    the program itself produces. */
module BerTlv {
  import opened BerOctets

  /** What a decoded message means: class, tag number, complexity and primitive octets. */
  datatype Tlv =
    | Primitive(cls: TagClass, tag: nat, contents: seq<byte>)
    | Constructed(cls: TagClass, tag: nat, children: seq<Tlv>)

  /** How a length is written: as the encoder writes it, in the long form with a given number
      of octets, or indefinite with an end-of-contents mark. */
  datatype Form = Minimal | LongForm(octets: nat) | ToEnd

  /** A TLV tree with a length form chosen for every node. */
  datatype Formed =
    | FPrimitive(cls: TagClass, tag: nat, contents: seq<byte>, form: Form)
    | FConstructed(cls: TagClass, tag: nat, children: seq<Formed>, form: Form)

  const EOC_MARK: seq<byte> := [0, 0]

  function Meaning(e: Formed): Tlv {
    match e
    case FPrimitive(c, t, s, _) => Primitive(c, t, s)
    case FConstructed(c, t, es, _) => Constructed(c, t, Meanings(es))
  }

  function Meanings(es: seq<Formed>): (ts: seq<Tlv>)
    ensures |ts| == |es|
  {
    if es == [] then [] else [Meaning(es[0])] + Meanings(es[1..])
  }

  function FormOctets(f: Form, n: nat): seq<byte> {
    match f
    case Minimal => if n <= MAX_LENGTH then LengthOctets(n) else []
    case LongForm(k) => if k < 0x80 then [0x80 + k] + Octets(n, k) else []
    case ToEnd => [0x80]
  }

  /** The octets of a node: identifier, length, contents and, if indefinite, the mark. */
  function Bytes(e: Formed): seq<byte>
    decreases e, 1
  {
    TagOctets(e.cls, e.FConstructed?, e.tag)
    + (FormOctets(e.form, |Contents(e)|) + (Contents(e) + Mark(e.form)))
  }

  function Mark(f: Form): seq<byte> {
    if f == ToEnd then EOC_MARK else []
  }

  function Contents(e: Formed): seq<byte>
    decreases e, 0
  {
    match e
    case FPrimitive(_, _, s, _) => s
    case FConstructed(_, _, es, _) => AllBytes(es)
  }

  function AllBytes(es: seq<Formed>): seq<byte> {
    if es == [] then [] else Bytes(es[0]) + AllBytes(es[1..])
  }

  /** An element that an end-of-contents scan cannot tell from the mark. */
  predicate LooksLikeEoc(e: Formed) {
    e == FPrimitive(Universal, 0, [], Minimal)
  }

  predicate FormFits(f: Form, n: nat) {
    match f
    case Minimal => n <= MAX_LENGTH
    case LongForm(k) => 1 <= k < 0x7f && Shift8(n, k) == 0
    case ToEnd => true
  }

  /** What X.690 asks of a node (its length form can express its length; only constructed
      nodes are indefinite) and what this decoder needs besides: no mark look-alike after the
      first element of an indefinite level. */
  predicate Readable(e: Formed) {
    && FormFits(e.form, |Contents(e)|)
    && (e.FPrimitive? ==> e.form != ToEnd)
    && (e.FConstructed? ==>
          && AllReadable(e.children)
          && (e.form == ToEnd ==> forall i :: 1 <= i < |e.children| ==> !LooksLikeEoc(e.children[i])))
  }

  predicate AllReadable(es: seq<Formed>) {
    forall i :: 0 <= i < |es| ==> Readable(es[i])
  }

  // ---------------------------------------------------------------- indefinite and empty

  /** An indefinite node without contents: its mark stands where find_eoc expects an element. */
  predicate Hollow(e: Formed) {
    e.FConstructed? && e.form == ToEnd && e.children == []
  }

  /** No hollow node is met when the end of e is looked for. */
  predicate Filled(e: Formed) {
    e.form == ToEnd ==> e.FConstructed? && e.children != [] && forall i :: 0 <= i < |e.children| ==> Filled(e.children[i])
  }

  /** Hollow nodes stand where their length is found: on no indefinite level, and nowhere
      before something that looks like a mark. */
  predicate Legible(e: Formed) {
    e.FConstructed? ==> Settled(e.children) && (e.form == ToEnd ==> NoneHollow(e.children))
  }

  /** The same for a level of definite length. */
  predicate Settled(es: seq<Formed>) {
    && (forall i :: 0 <= i < |es| ==> Legible(es[i]))
    && forall i, j :: 0 <= i < j < |es| && Hollow(es[i]) ==> !LooksLikeEoc(es[j])
  }

  predicate NoneHollow(es: seq<Formed>) {
    forall i :: 0 <= i < |es| ==> !Hollow(es[i])
  }

  /** No level has two hollow nodes. */
  predicate Sparse(es: seq<Formed>) {
    && (forall i, j :: 0 <= i < j < |es| ==> !(Hollow(es[i]) && Hollow(es[j])))
    && forall i :: 0 <= i < |es| && es[i].FConstructed? ==> Sparse(es[i].children)
  }

  lemma {:induction false} LegibleIsFilled(e: Formed)
    requires Readable(e) && Legible(e) && !Hollow(e)
    ensures Filled(e)
  {
    if e.FConstructed? && e.form == ToEnd {
      forall i | 0 <= i < |e.children| ensures Filled(e.children[i]) { LegibleIsFilled(e.children[i]); }
    }
  }

  /** No level has more nodes than the pool, which starts afresh on every level when there
      is no definition. */
  predicate LevelsFit(es: seq<Formed>, pool: nat) {
    && |es| <= pool
    && forall i :: 0 <= i < |es| && es[i].FConstructed? ==> LevelsFit(es[i].children, pool)
  }

  predicate TlvLevelsFit(ts: seq<Tlv>, pool: nat) {
    && |ts| <= pool
    && forall i :: 0 <= i < |ts| && ts[i].Constructed? ==> TlvLevelsFit(ts[i].children, pool)
  }

  /** The tree with every tag number as the decoder reads it. */
  function Reread(t: Tlv): Tlv {
    match t
    case Primitive(c, n, s) => Primitive(c, TagReadBack(n), s)
    case Constructed(c, n, ts) => Constructed(c, TagReadBack(n), AllReread(ts))
  }

  function AllReread(ts: seq<Tlv>): (us: seq<Tlv>)
    ensures |us| == |ts|
  {
    if ts == [] then [] else [Reread(ts[0])] + AllReread(ts[1..])
  }

  /** Every tag number fits one septet. */
  predicate SmallTags(t: Tlv) {
    t.tag <= 127 && (t.Constructed? ==> AllSmallTags(t.children))
  }

  predicate AllSmallTags(ts: seq<Tlv>) {
    if ts == [] then true else SmallTags(ts[0]) && AllSmallTags(ts[1..])
  }

  lemma {:induction false} RereadIsIdentity(t: Tlv)
    ensures Reread(t) == t <==> SmallTags(t)
    decreases t, 1
  {
    if t.tag > 30 { ReadBackExact(t.tag); }
    if t.Constructed? { AllRereadIsIdentity(t.children); }
  }

  lemma {:induction false} AllRereadIsIdentity(ts: seq<Tlv>)
    ensures AllReread(ts) == ts <==> AllSmallTags(ts)
    decreases ts, 0
  {
    if ts != [] {
      RereadIsIdentity(ts[0]);
      AllRereadIsIdentity(ts[1..]);
      assert AllReread(ts)[0] == Reread(ts[0]);
      assert AllReread(ts)[1..] == AllReread(ts[1..]);
    }
  }

  /** A TLV tree with the encoder's choice of length form everywhere. */
  function Definite(t: Tlv): (e: Formed) {
    match t
    case Primitive(c, n, s) => FPrimitive(c, n, s, Minimal)
    case Constructed(c, n, ts) => FConstructed(c, n, AllDefinite(ts), Minimal)
  }

  function AllDefinite(ts: seq<Tlv>): (es: seq<Formed>)
    ensures |es| == |ts|
  {
    if ts == [] then [] else [Definite(ts[0])] + AllDefinite(ts[1..])
  }

  // ---------------------------------------------------------------- the program's own encoding

  /** Section 8.1 of X.690 with the definite form everywhere: every length counts the octets
      of the contents that follow it. */
  function Ber(t: Tlv): seq<byte>
    decreases t, 1
  {
    var contents := BerContents(t);
    TagOctets(t.cls, t.Constructed?, t.tag) + (FormOctets(Minimal, |contents|) + contents)
  }

  function BerContents(t: Tlv): seq<byte>
    decreases t, 0
  {
    match t
    case Primitive(_, _, s) => s
    case Constructed(_, _, ts) => BerAll(ts)
  }

  function BerAll(ts: seq<Tlv>): seq<byte> {
    if ts == [] then [] else Ber(ts[0]) + BerAll(ts[1..])
  }

  lemma {:induction false} BerAllConcat(a: seq<Tlv>, b: seq<Tlv>)
    ensures BerAll(a + b) == BerAll(a) + BerAll(b)
  {
    if a == [] {
      assert a + b == b;
    } else {
      var head := Ber(a[0]);
      calc {
        BerAll(a + b);
        { assert (a + b)[0] == a[0] && (a + b)[1..] == a[1..] + b; }
        head + BerAll(a[1..] + b);
        { BerAllConcat(a[1..], b); }
        head + (BerAll(a[1..]) + BerAll(b));
        head + BerAll(a[1..]) + BerAll(b);
      }
    }
  }

  lemma {:induction false} DefiniteBytes(t: Tlv)
    ensures Bytes(Definite(t)) == Ber(t)
    ensures Contents(Definite(t)) == BerContents(t)
    ensures Meaning(Definite(t)) == t
    decreases t, 1
  {
    hide TagOctets, FormOctets;
    if t.Constructed? {
      AllDefiniteBytes(t.children);
    }
    assert Contents(Definite(t)) + Mark(Minimal) == BerContents(t);
  }

  lemma {:induction false} AllDefiniteBytes(ts: seq<Tlv>)
    ensures AllBytes(AllDefinite(ts)) == BerAll(ts)
    ensures Meanings(AllDefinite(ts)) == ts
    decreases ts, 0
  {
    hide Ber, Bytes;
    if ts != [] {
      DefiniteBytes(ts[0]);
      AllDefiniteBytes(ts[1..]);
      assert AllDefinite(ts)[1..] == AllDefinite(ts[1..]);
    }
  }

  /** Contents are never longer than what contains them. */
  lemma {:induction false} DefiniteReadable(ts: seq<Tlv>, pool: nat)
    requires |BerAll(ts)| <= MAX_LENGTH && TlvLevelsFit(ts, pool)
    ensures AllReadable(AllDefinite(ts)) && LevelsFit(AllDefinite(ts), pool)
    ensures Settled(AllDefinite(ts)) && Sparse(AllDefinite(ts)) && NoneHollow(AllDefinite(ts))
    decreases ts
  {
    hide TagOctets, FormOctets;
    forall i | 0 <= i < |ts|
      ensures Readable(AllDefinite(ts)[i]) && Legible(AllDefinite(ts)[i]) && !Hollow(AllDefinite(ts)[i])
      ensures AllDefinite(ts)[i].FConstructed? ==> Sparse(AllDefinite(ts)[i].children)
      ensures AllDefinite(ts)[i].FConstructed? ==> LevelsFit(AllDefinite(ts)[i].children, pool)
    {
      AllDefiniteAt(ts, i);
      DefiniteBytes(ts[i]);
      PartIsShorter(ts, i);
      if ts[i].Constructed? {
        DefiniteReadable(ts[i].children, pool);
      }
    }
  }

  lemma {:induction false} AllDefiniteAt(ts: seq<Tlv>, i: nat)
    requires i < |ts|
    ensures AllDefinite(ts)[i] == Definite(ts[i])
  {
    if i > 0 { AllDefiniteAt(ts[1..], i - 1); }
  }

  lemma {:induction false} PartIsShorter(ts: seq<Tlv>, i: nat)
    requires i < |ts|
    ensures |BerContents(ts[i])| <= |BerAll(ts)|
  {
    if i > 0 { PartIsShorter(ts[1..], i - 1); }
  }

  // ---------------------------------------------------------------- octets in a buffer

  /** The octets s stand in buffer m at offset p. */
  predicate Holds(m: seq<byte>, p: nat, s: seq<byte>) {
    p + |s| <= |m| && forall i :: 0 <= i < |s| ==> m[p + i] == s[i]
  }

  lemma HoldsAt(m: seq<byte>, p: nat, s: seq<byte>, i: nat)
    requires Holds(m, p, s) && i < |s|
    ensures p + i < |m| && m[p + i] == s[i]
  {
  }

  lemma HoldsSlice(m: seq<byte>, p: nat, s: seq<byte>)
    requires Holds(m, p, s)
    ensures p + |s| <= |m|
    ensures m[p..p + |s|] == s
  {
  }

  lemma HoldsParts(m: seq<byte>, p: nat, a: seq<byte>, b: seq<byte>)
    ensures Holds(m, p, a + b) <==> Holds(m, p, a) && Holds(m, p + |a|, b)
  {
    if Holds(m, p, a + b) {
      forall i | 0 <= i < |a| ensures m[p + i] == a[i] { assert (a + b)[i] == a[i]; }
      forall i | 0 <= i < |b| ensures m[p + |a| + i] == b[i] {
        assert m[p + (|a| + i)] == (a + b)[|a| + i];
      }
    } else if Holds(m, p, a) && Holds(m, p + |a|, b) {
      forall i | 0 <= i < |a + b| ensures m[p + i] == (a + b)[i] {
        if i >= |a| { assert m[p + |a| + (i - |a|)] == b[i - |a|]; }
      }
    }
  }

  /** A window of the buffer still holds what lies inside it. */
  lemma HoldsInside(m: seq<byte>, p: nat, s: seq<byte>, from: nat)
    requires from <= p && Holds(m, p, s)
    ensures Holds(m[from..], p - from, s)
  {
    forall i | 0 <= i < |s| ensures m[from..][p - from + i] == s[i] {
      assert m[from..][p - from + i] == m[p + i];
    }
  }

  lemma HoldsPrefix(m: seq<byte>, p: nat, s: seq<byte>)
    requires Holds(m, p, s)
    ensures m[p..] == s + m[p + |s|..]
  {
  }
}
