/** Encoding a decoded message again: encode on the decoded nodes, with the octet counts they
    arrived with. A decoded node is linked to itself, or to a CHOICE of the definition that
    leads back to it, so encode goes over the decoded nodes. */
module BerReencode {
  import opened BerOctets
  import opened BerTlv
  import opened BerDecode
  import opened BerHollow
  import opened BerWire
  import opened BerSchema
  import opened BerSchemaRoundTrip
  import opened BerSchemaDecode

  /** The octets encode returns for a decoded node. */
  function KeptSize(k: Kept): nat {
    k.tagSize + k.lenSize + if k.constructed then KeptSizes(k.kids) else k.len
  }

  function KeptSizes(ks: seq<Kept>): nat {
    if ks == [] then 0 else KeptSize(ks[0]) + KeptSizes(ks[1..])
  }

  /** What a decoder guarantees of a node's fields. */
  predicate Sized(k: Kept) {
    && k.tagSize >= 1 && (k.tagSize == 1 ==> k.tag <= 30) && 1 <= k.lenSize <= 128
    && (!k.constructed ==> |k.octets| == k.len) && AllSized(k.kids)
  }

  predicate AllSized(ks: seq<Kept>) {
    forall i :: 0 <= i < |ks| ==> Sized(ks[i])
  }

  /** Identifier and length as encode leaves them in the octets `was` of the buffer: a short
      length leaves all but the first of the octets counted for it. */
  function HeaderOver(k: Kept, was: seq<byte>): (r: seq<byte>)
    requires Sized(k) && |was| == k.tagSize + k.lenSize
    ensures |r| == |was|
  {
    var s := PreparedTag(k.cls, k.constructed, k.tag, k.tagSize) + PreparedLength(k.len, k.lenSize);
    s + was[|s|..]
  }

  /** The octets encode leaves of a decoded node where the buffer held `was`. */
  function Over(k: Kept, was: seq<byte>): (r: seq<byte>)
    requires Sized(k) && |was| == KeptSize(k)
    ensures |r| == |was|
  {
    var h := k.tagSize + k.lenSize;
    HeaderOver(k, was[..h]) + if k.constructed then AllOver(k.kids, was[h..]) else k.octets
  }

  function AllOver(ks: seq<Kept>, was: seq<byte>): (r: seq<byte>)
    requires AllSized(ks) && |was| == KeptSizes(ks)
    ensures |r| == |was|
  {
    if ks == [] then []
    else var n := KeptSize(ks[0]); Over(ks[0], was[..n]) + AllOver(ks[1..], was[n..])
  }

  // ---------------------------------------------------------------- the loop

  lemma OverParts(k: Kept, was: seq<byte>)
    requires Sized(k) && |was| == KeptSize(k)
    ensures var h := k.tagSize + k.lenSize;
            && |was| == h + (if k.constructed then KeptSizes(k.kids) else k.len)
            && (k.constructed ==> AllSized(k.kids) && Over(k, was) == HeaderOver(k, was[..h]) + AllOver(k.kids, was[h..]))
            && (!k.constructed ==> |k.octets| == k.len && Over(k, was) == HeaderOver(k, was[..h]) + k.octets)
  {
    hide HeaderOver, AllOver, KeptSizes;
  }

  lemma NextOver(ks: seq<Kept>, was: seq<byte>)
    requires ks != [] && AllSized(ks) && |was| == KeptSizes(ks)
    ensures var n := KeptSize(ks[0]);
            && n <= |was| && AllSized(ks[1..]) && |was[n..]| == KeptSizes(ks[1..])
            && AllOver(ks, was) == Over(ks[0], was[..n]) + AllOver(ks[1..], was[n..])
  {
    hide Over, KeptSize;
  }

  lemma WrittenParts(buf: array<byte>, p: nat, a: seq<byte>, n: nat)
    requires Written(buf, p, a) && n <= |a|
    ensures Written(buf, p, a[..n]) && Written(buf, p + n, a[n..])
  {
    forall j | 0 <= j < |a| - n ensures buf[p + n + j] == a[n..][j] { assert buf[p + (n + j)] == a[n + j]; }
  }

  /** encode on a decoded node, where the buffer holds `was`. */
  method EncodeKept(buf: array<byte>, p: nat, k: Kept, ghost was: seq<byte>) returns (n: nat)
    requires Sized(k) && |was| == KeptSize(k) && Written(buf, p, was)
    modifies buf
    ensures n == KeptSize(k) && Written(buf, p, Over(k, was)) && OnlyWindow(buf, p, p + n)
    decreases k, 1
  {
    hide Over, AllOver, HeaderOver, AllSized, KeptSizes;
    OverParts(k, was);
    n := k.tagSize + k.lenSize;
    WrittenParts(buf, p, was, n);
    EncodeKeptHeader(buf, p, k, was[..n]);
    assert Written(buf, p + n, was[n..]);
    ghost var header := HeaderOver(k, was[..n]);
    if k.constructed {
      var size := EncodeKeptKids(buf, p + n, k.kids, was[n..]);
      assert Written(buf, p, header);
      WrittenTogether(buf, p, header, AllOver(k.kids, was[n..]));
      n := n + size;
    } else {
      CopyOctets(buf, p + n, k.octets);
      assert Written(buf, p, header);
      WrittenTogether(buf, p, header, k.octets);
      n := n + k.len;
    }
  }

  method CopyOctets(buf: array<byte>, p: nat, s: seq<byte>)
    requires p + |s| <= buf.Length
    modifies buf
    ensures Written(buf, p, s) && OnlyWindow(buf, p, p + |s|)
  {
    for i := 0 to |s|
      invariant forall j :: 0 <= j < i ==> buf[p + j] == s[j]
      invariant OnlyWindow(buf, p, p + |s|)
    {
      buf[p + i] := s[i];
    }
  }

  method EncodeKeptHeader(buf: array<byte>, p: nat, k: Kept, ghost was: seq<byte>)
    requires Sized(k) && |was| == k.tagSize + k.lenSize && Written(buf, p, was)
    modifies buf
    ensures Written(buf, p, HeaderOver(k, was)) && OnlyWindow(buf, p, p + |was|)
  {
    hide PreparedTag, PreparedLength;
    EncodePreparedTag(buf, p, k.cls, k.constructed, k.tag, k.tagSize);
    EncodePreparedLength(buf, p + k.tagSize, k.len, k.lenSize);
    ghost var s, t := PreparedTag(k.cls, k.constructed, k.tag, k.tagSize), PreparedLength(k.len, k.lenSize);
    assert Written(buf, p, s);
    WrittenTogether(buf, p, s, t);
    ghost var gap := was[|s + t|..];
    assert Written(buf, p + |s + t|, gap);
    WrittenTogether(buf, p, s + t, gap);
  }

  method EncodeKeptKids(buf: array<byte>, p: nat, ks: seq<Kept>, ghost was: seq<byte>) returns (n: nat)
    requires AllSized(ks) && |was| == KeptSizes(ks) && Written(buf, p, was)
    modifies buf
    ensures n == KeptSizes(ks) && Written(buf, p, AllOver(ks, was)) && OnlyWindow(buf, p, p + n)
    decreases ks, 0
  {
    hide Over, KeptSize, AllOver, Sized, KeptSizes;
    n := 0;
    ghost var done: seq<byte>, left := [], was;
    assert ks[0..] == ks;
    for i := 0 to |ks|
      invariant AllSized(ks[i..]) && |left| == KeptSizes(ks[i..]) && n + |left| == |was| && |done| == n
      invariant Written(buf, p, done) && Written(buf, p + n, left) && OnlyWindow(buf, p, p + n)
      invariant AllOver(ks, was) == done + AllOver(ks[i..], left)
    {
      NextOver(ks[i..], left);
      assert ks[i..][0] == ks[i] && ks[i..][1..] == ks[i + 1..];
      ghost var size := KeptSize(ks[i]);
      WrittenParts(buf, p + n, left, size);
      var k := EncodeKept(buf, p + n, ks[i], left[..size]);
      ghost var s := Over(ks[i], left[..size]);
      WrittenTogether(buf, p, done, s);
      done, left := done + s, left[size..];
      n := n + k;
    }
    NoneOver();
  }

  lemma NoneOver()
    ensures KeptSizes([]) == 0 && forall was: seq<byte> :: |was| == 0 ==> AllOver([], was) == []
  {
  }

  // ---------------------------------------------------------------- when the octets come back

  /** The encoder can write the length as it arrived: it was definite, and long only if it had
      to be. A long form with more octets than necessary is kept if the length is above 127. */
  predicate KeepsForm(e: Formed) {
    && e.form != ToEnd
    && (|Contents(e)| <= 127 ==> |FormOctets(e.form, |Contents(e)|)| == 1)
    && (e.FConstructed? ==> AllKeepForm(e.children))
  }

  predicate AllKeepForm(es: seq<Formed>) {
    if es == [] then true else KeepsForm(es[0]) && AllKeepForm(es[1..])
  }

  /** No length is indefinite. */
  predicate Closed(e: Formed) {
    e.form != ToEnd && (e.FConstructed? ==> AllClosed(e.children))
  }

  predicate AllClosed(es: seq<Formed>) {
    if es == [] then true else Closed(es[0]) && AllClosed(es[1..])
  }

  lemma {:induction false} KeptIsSized(e: Formed)
    requires Readable(e) && SmallTags(Meaning(e))
    ensures Sized(KeptOf(e))
    decreases e, 1
  {
    hide TagReadBack, TagSize, LengthSize;
    TagIsSized(e.tag);
    FormIsSized(e.form, |Contents(e)|);
    if e.FConstructed? { KeptAreSized(e.children); }
  }

  lemma {:induction false} KeptAreSized(es: seq<Formed>)
    requires AllReadable(es) && AllSmallTags(Meanings(es))
    ensures AllSized(KeptAll(es))
    decreases es, 0
  {
    hide Sized, KeptOf;
    if es != [] {
      assert Meanings(es)[1..] == Meanings(es[1..]);
      KeptIsSized(es[0]);
      KeptAreSized(es[1..]);
    }
  }

  lemma TagIsSized(t: nat)
    requires t <= 127
    ensures TagReadBack(t) == t && (TagSize(t) == 1 ==> t <= 30)
  {
    PreparedTagAgrees(Universal, false, t);
    if t > 30 { ReadBackExact(t); }
  }

  lemma FormIsSized(f: Form, n: nat)
    requires FormFits(f, n)
    ensures 1 <= |FormOctets(f, n)| <= 128
  {
    if f == Minimal { PreparedLengthAgrees(n); }
  }

  lemma {:induction false} SizeIsLess(e: Formed)
    requires Readable(e)
    ensures KeptSize(KeptOf(e)) <= |Bytes(e)|
    ensures KeptSize(KeptOf(e)) == |Bytes(e)| <==> Closed(e)
    decreases e, 1
  {
    hide TagOctets, FormOctets, TagSize, TagReadBack;
    if e.FConstructed? { SizesAreLess(e.children); }
  }

  lemma {:induction false} SizesAreLess(es: seq<Formed>)
    requires AllReadable(es)
    ensures KeptSizes(KeptAll(es)) <= |AllBytes(es)|
    ensures KeptSizes(KeptAll(es)) == |AllBytes(es)| <==> AllClosed(es)
    decreases es, 0
  {
    hide KeptSize, KeptOf, Bytes, Closed;
    if es != [] {
      SizeIsLess(es[0]);
      SizesAreLess(es[1..]);
      assert KeptAll(es)[1..] == KeptAll(es[1..]);
    }
  }

  lemma SplitEqual<T>(a: seq<T>, b: seq<T>, c: seq<T>, d: seq<T>)
    requires |a| == |c|
    ensures a + b == c + d <==> a == c && b == d
  {
    if a + b == c + d {
      assert a == (a + b)[..|a|] && b == (a + b)[|a|..];
      assert c == (c + d)[..|a|] && d == (c + d)[|a|..];
    }
  }

  lemma HeaderComesBack(e: Formed, was: seq<byte>)
    requires Readable(e) && SmallTags(Meaning(e)) && e.form != ToEnd
    requires Sized(KeptOf(e)) && |was| == KeptOf(e).tagSize + KeptOf(e).lenSize
    ensures HeaderOver(KeptOf(e), was) == TagOctets(e.cls, e.FConstructed?, e.tag) + FormOctets(e.form, |Contents(e)|)
       <==> |Contents(e)| > 127 || |FormOctets(e.form, |Contents(e)|)| == 1
  {
    hide TagReadBack, TagSize, LengthSize, TagOctets, PreparedTag, Contents, Octets;
    var k, n := KeptOf(e), |Contents(e)|;
    TagIsSized(e.tag);
    PreparedTagAgrees(e.cls, e.FConstructed?, e.tag);
    var tag, len := PreparedTag(k.cls, k.constructed, k.tag, k.tagSize), PreparedLength(n, k.lenSize);
    var gap := was[|tag + len|..];
    assert HeaderOver(k, was) == tag + (len + gap);
    SplitEqual(tag, len + gap, tag, FormOctets(e.form, n));
    LengthComesBack(e.form, n, gap);
  }

  lemma LengthComesBack(f: Form, n: nat, gap: seq<byte>)
    requires f != ToEnd && FormFits(f, n) && 1 <= |FormOctets(f, n)| <= 128
    requires |PreparedLength(n, |FormOctets(f, n)|) + gap| == |FormOctets(f, n)|
    ensures PreparedLength(n, |FormOctets(f, n)|) + gap == FormOctets(f, n) <==> n > 127 || |FormOctets(f, n)| == 1
  {
    hide Octets;
    var s := FormOctets(f, n);
    if n > 127 {
      assert gap == [];
      if f == Minimal { PreparedLengthAgrees(n); }
    } else {
      assert (PreparedLength(n, |s|) + gap)[0] == n;
    }
  }

  lemma {:induction false} NodeComesBack(e: Formed, was: seq<byte>)
    requires Readable(e) && SmallTags(Meaning(e)) && Closed(e)
    requires Sized(KeptOf(e)) && |was| == KeptSize(KeptOf(e))
    ensures Over(KeptOf(e), was) == Bytes(e) <==> KeepsForm(e)
    decreases e, 1
  {
    hide TagOctets, FormOctets, HeaderOver, AllOver, TagReadBack, TagSize, KeptSizes, AllBytes, Over;
    var k, n := KeptOf(e), |Contents(e)|;
    var h := k.tagSize + k.lenSize;
    OverParts(k, was);
    HeaderComesBack(e, was[..h]);
    var tag, len := TagOctets(e.cls, e.FConstructed?, e.tag), FormOctets(e.form, n);
    assert Bytes(e) == (tag + len) + Contents(e);
    if e.FConstructed? {
      SplitEqual(HeaderOver(k, was[..h]), AllOver(k.kids, was[h..]), tag + len, AllBytes(e.children));
      NodesComeBack(e.children, was[h..]);
    } else {
      SplitEqual(HeaderOver(k, was[..h]), k.octets, tag + len, Contents(e));
    }
  }

  lemma {:induction false} NodesComeBack(es: seq<Formed>, was: seq<byte>)
    requires AllReadable(es) && AllSmallTags(Meanings(es)) && AllClosed(es)
    requires AllSized(KeptAll(es)) && |was| == KeptSizes(KeptAll(es))
    ensures AllOver(KeptAll(es), was) == AllBytes(es) <==> AllKeepForm(es)
    decreases es, 0
  {
    hide Over, KeptOf, KeptSize, Bytes, KeepsForm, Closed, Sized;
    if es != [] {
      var ks, n := KeptAll(es), KeptSize(KeptOf(es[0]));
      assert ks[1..] == KeptAll(es[1..]) && Meanings(es)[1..] == Meanings(es[1..]);
      NextOver(ks, was);
      SizeIsLess(es[0]);
      NodeComesBack(es[0], was[..n]);
      NodesComeBack(es[1..], was[n..]);
      SplitEqual(Over(ks[0], was[..n]), AllOver(ks[1..], was[n..]), Bytes(es[0]), AllBytes(es[1..]));
    }
  }

  /** Encoding decoded nodes again gives the octets they were decoded from, whatever is in the
      buffer, exactly if every length can be written as it arrived. */
  lemma ReencodesExactly(es: seq<Formed>, was: seq<byte>)
    requires AllReadable(es) && AllSmallTags(Meanings(es)) && |was| == KeptSizes(KeptAll(es))
    ensures AllSized(KeptAll(es)) && (AllOver(KeptAll(es), was) == AllBytes(es) <==> AllKeepForm(es))
  {
    KeptAreSized(es);
    SizesAreLess(es);
    if AllClosed(es) { NodesComeBack(es, was); } else { KeepingIsClosed(es); }
  }

  lemma {:induction false} KeepingIsClosed(es: seq<Formed>)
    ensures AllKeepForm(es) ==> AllClosed(es)
    decreases es
  {
    if es != [] && AllKeepForm(es) {
      var e := es[0];
      KeepingIsClosed(es[1..]);
      assert KeepsForm(e);
      if e.FConstructed? { KeepingIsClosed(e.children); }
      assert Closed(e);
    }
  }

  // ---------------------------------------------------------------- the round trip

  /** A message that means what was linked, in whatever length forms, is decoded to what was
      linked, and encoding the decoded nodes gives its octets exactly if its lengths can be
      written as they arrived. */
  lemma AnyFormRoundTrip(d: Spec, l: Link, es: seq<Formed>, rest: seq<byte>, pool: nat, was: seq<byte>)
    requires Sound(d) && Shaped(d, l) && Complete(d, l) && Distinguished(d)
    requires Meanings(es) == Tlvs(d, l) && AllSmallTags(Tlvs(d, l))
    requires AllReadable(es) && Settled(es) && Sparse(es) && |was| == KeptSizes(KeptAll(es))
    ensures var ts, r := Tlvs(d, l), SchemaDecode(AllBytes(es) + rest, |AllBytes(es)|, d, pool);
            if Total(ts) <= pool then
              && r.Read? && Plains(r.nodes) == ts && r.used == Total(ts) && r.level.kids == [Packed(d, l)]
              && r.nodes == KeptAll(es) && AllSized(r.nodes) && (AllOver(r.nodes, was) == AllBytes(es) <==> AllKeepForm(es))
            else r == Bad(400)
  {
    hide Tlvs, Complete, Distinguished, Shaped, Packed, SchemaDecode, Settled, Sparse, AllReadable, AllBytes, KeptAll, AllOver;
    SchemaReads(d, l, es, rest, pool);
    ReencodesExactly(es, was);
  }

  lemma {:induction false} DefiniteKeeps(ts: seq<Tlv>)
    requires |BerAll(ts)| <= MAX_LENGTH
    ensures AllKeepForm(AllDefinite(ts))
    decreases ts
  {
    hide TagOctets, LengthOctets;
    if ts != [] {
      var t := ts[0];
      DefiniteBytes(t);
      DefiniteKeeps(ts[1..]);
      if t.Constructed? { DefiniteKeeps(t.children); }
      assert KeepsForm(Definite(t));
      assert AllDefinite(ts)[1..] == AllDefinite(ts[1..]);
    }
  }

  /** Decoding with a fresh definition what a linked message is encoded to links what was
      linked, if every tag number is at most 127; it succeeds exactly if the message has no
      more nodes than the pool. Encoding the decoded nodes gives the same octets. */
  lemma SchemaRoundTrip(d: Spec, l: Link, rest: seq<byte>, pool: nat, was: seq<byte>)
    requires Sound(d) && Shaped(d, l) && Complete(d, l) && Distinguished(d)
    requires |BerAll(Tlvs(d, l))| <= MAX_LENGTH && AllSmallTags(Tlvs(d, l)) && |was| == |BerAll(Tlvs(d, l))|
    ensures var ts := Tlvs(d, l); var r := SchemaDecode(BerAll(ts) + rest, |BerAll(ts)|, d, pool);
            if Total(ts) <= pool then
              && r.Read? && Plains(r.nodes) == ts && r.used == Total(ts) && r.level.kids == [Packed(d, l)]
              && Tlvs(d, Packed(d, l)) == ts
              && AllSized(r.nodes) && KeptSizes(r.nodes) == |was| && AllOver(r.nodes, was) == BerAll(ts)
            else r == Bad(400)
  {
    hide Tlvs, Complete, Distinguished, Shaped, Packed, SchemaDecode, KeptAll, AllOver, KeptSizes, BerAll, AllBytes;
    var ts := Tlvs(d, l);
    var es := AllDefinite(ts);
    TotalFits(ts, Total(ts));
    AllDefiniteBytes(ts);
    DefiniteReadable(ts, Total(ts));
    DefiniteKeeps(ts);
    KeepingIsClosed(es);
    SizesAreLess(es);
    AnyFormRoundTrip(d, l, es, rest, pool, was);
    PackedTlvs(d, l);
  }
}
