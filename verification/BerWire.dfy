/** The loops of src/asn1/asn1.cpp over octet buffers, each proved to compute the function
    that specifies it. */
module BerWire {
  import opened BerOctets
  import opened BerTlv
  import opened BerDecode

  // ---------------------------------------------------------------- reading

  /** x << 7 * k and x << 8 * k */
  function Left7(x: nat, k: nat): nat
    decreases k
  {
    if k == 0 then x else Left7(128 * x, k - 1)
  }

  function Left8(x: nat, k: nat): nat
    decreases k
  {
    if k == 0 then x else Left8(256 * x, k - 1)
  }

  lemma Left7Adds(x: nat, y: nat, k: nat)
    ensures Left7(x, k) + Left7(y, k) == Left7(x + y, k)
    decreases k
  {
    if k > 0 { Left7Adds(128 * x, 128 * y, k - 1); }
  }

  lemma Left8Adds(x: nat, y: nat, k: nat)
    ensures Left8(x, k) + Left8(y, k) == Left8(x + y, k)
    decreases k
  {
    if k > 0 { Left8Adds(256 * x, 256 * y, k - 1); }
  }

  lemma Left7Zero(k: nat)
    ensures Left7(0, k) == 0
  {
    if k > 0 { Left7Zero(k - 1); }
  }

  lemma Left8Zero(k: nat)
    ensures Left8(0, k) == 0
  {
    if k > 0 { Left8Zero(k - 1); }
  }

  /** The while loop of decode_tag: how many octets continue the tag. */
  method CountContinued(s: seq<byte>) returns (n: nat)
    ensures n == Continued(s)
  {
    n := 0;
    while n < |s| && s[n] >= 0x80
      invariant n <= |s|
      invariant Continued(s) == n + Continued(s[n..])
    {
      n := n + 1;
    }
  }

  /** The for loop of decode_tag: seven bits of every octet, most significant first. */
  method GatherSeptets(s: seq<byte>) returns (tag: nat)
    ensures tag == SeptetValue(s)
  {
    tag := 0;
    Left7Zero(|s|);
    for i := 0 to |s|
      invariant tag == Left7(SeptetValue(s[..i]), |s| - i)
    {
      Left7Adds(128 * SeptetValue(s[..i]), s[i] % 128, |s| - i - 1);
      assert s[..i + 1][..i] == s[..i];
      tag := tag + Left7(s[i] % 128, |s| - i - 1);
    }
    assert s[..|s|] == s;
  }

  method DecodeTag(m: seq<byte>) returns (r: TagResult)
    ensures r == TagOf(m)
  {
    if m == [] { return NoTag; }
    var cls, constructed := ClassOf(m[0]), m[0] / 32 % 2 == 1;
    if m[0] % 32 != 31 {
      return Tag(cls, constructed, m[0] % 32, 1);
    }
    var size := CountContinued(m[1..]);
    size := size + 1;
    if size >= |m| { return NoTag; }
    var tag := GatherSeptets(m[1..1 + size]);
    return Tag(cls, constructed, tag, size + 1);
  }

  method DecodeLength(m: seq<byte>, limit: nat) returns (r: LengthResult)
    ensures r == LengthAt(m, limit)
    decreases limit, 0
  {
    if limit == 0 { return Refused; }
    if m == [] { return Unreadable; }
    if m[0] > 0x80 {
      var k := m[0] - 0x80;
      if k == 0x7f || k >= limit { return Refused; }
      if k >= |m| { return Unreadable; }
      var value := 0;
      Left8Zero(k);
      for i := 0 to k
        invariant value == Left8(OctetValue(m[1..1 + i]), k - i)
      {
        Left8Adds(256 * OctetValue(m[1..1 + i]), m[1 + i], k - i - 1);
        assert m[1..2 + i][..i] == m[1..1 + i];
        value := value + Left8(m[1 + i], k - i - 1);
      }
      return Length(value, k + 1, Long);
    } else if m[0] == 0x80 {
      var eoc := FindEndOfContents(m[1..], limit - 1);
      match eoc
      case At(n) => return Length(n, 1, Indefinite);
      case Broken => return Unreadable;
    } else {
      return Length(m[0], 1, Short);
    }
  }

  method FindEndOfContents(m: seq<byte>, limit: nat) returns (r: Eoc)
    ensures r == FindEoc(m, limit)
    decreases limit, 1
  {
    hide LengthAt, TagOf;
    var p := 0;
    while p < limit
      invariant FindEoc(m, limit) == EocFrom(m, limit, p)
      decreases limit - p
    {
      var start := p;
      if p >= |m| { return Broken; }
      var tag := DecodeTag(m[p..]);
      if tag.NoTag? { return Broken; }
      p := p + tag.size;
      var length := DecodeLength(m[p..], limit);
      if !length.Length? { return Broken; }
      p := p + length.size;
      if tag.constructed && length.form == Indefinite {
        if p > limit { return Broken; }
        var inner := FindEndOfContents(m[p..], limit - p);
        if inner.Broken? { return Broken; }
        p := p + inner.pos + 2;
      } else {
        p := p + length.value;
      }
      assert Element(m, limit, start) == At(p);
      if p + 1 < limit {
        if p + 1 >= |m| { return Broken; }
        if m[p] == 0 && m[p + 1] == 0 { return At(p); }
      }
    }
    return At(0);
  }

  lemma PrependNode(done: seq<Tlv>, node: Tlv, rest: Decoded)
    ensures Prepend(done, Prepend([node], rest)) == Prepend(done + [node], rest)
  {
    if rest.Forest? {
      assert done + ([node] + rest.nodes) == done + [node] + rest.nodes;
    }
  }

  method DecodeForest(m: seq<byte>, limit: nat, pool: nat) returns (r: Decoded)
    ensures r == Decode(m, limit, pool)
    decreases limit, 1
  {
    hide NodeAt;
    var p, used, nodes := 0, 0, [];
    while p < limit
      invariant Decode(m, limit, pool) == Prepend(nodes, DecodeFrom(m, limit, p, pool, used))
      decreases limit - p
    {
      used := used + 1;
      if used > pool { return Failed(400); }
      var step := ReadNode(m, limit, p, pool);
      if step.Stop? { return step.why; }
      PrependNode(nodes, step.node, DecodeFrom(m, limit, step.next, pool, used));
      nodes := nodes + [step.node];
      p := step.next;
    }
    return Forest(nodes);
  }

  /** One turn of the loop. */
  method ReadNode(m: seq<byte>, limit: nat, p: nat, pool: nat) returns (s: Step)
    requires p < limit
    ensures s == NodeAt(m, limit, p, pool)
    decreases limit, 0
  {
    hide HeaderAt, DecodeFrom;
    var h := ReadHeader(m, limit, p);
    if h.NoHeader? { return Stop(Crash); }
    if h.BadHeader? { return Stop(Failed(h.code)); }
    if h.value + h.length > |m| { return Stop(Crash); }
    if h.constructed {
      var kids := DecodeForest(m[h.value..], h.length, pool);
      return if kids.Forest? then Next(Constructed(h.cls, h.tag, kids.nodes), h.next) else Stop(kids);
    } else {
      return Next(Primitive(h.cls, h.tag, m[h.value..h.value + h.length]), h.next);
    }
  }

  method ReadHeader(m: seq<byte>, limit: nat, p: nat) returns (h: Header)
    requires p < limit
    ensures h == HeaderAt(m, limit, p)
  {
    hide LengthAt, TagOf;
    if p >= |m| { return NoHeader; }
    var tag := DecodeTag(m[p..]);
    if tag.NoTag? { return NoHeader; }
    var q := p + tag.size;
    if q > limit { return NoHeader; }
    var length := DecodeLength(m[q..], limit - q);
    if length.Refused? { return BadHeader(300); }
    if length.Unreadable? { return NoHeader; }
    q := q + length.size;
    if q > limit { return NoHeader; }
    if length.value > limit - q { return BadHeader(200); }
    return Header(tag.cls, tag.constructed, tag.tag, tag.size, length.size, q, length.value,
                  q + length.value + if length.form == Indefinite then 2 else 0);
  }

  // ---------------------------------------------------------------- writing

  /** The octets of buf outside a window are as before. */
  twostate predicate OnlyWindow(buf: array<byte>, from: nat, to: nat)
    reads buf
  {
    forall i :: 0 <= i < buf.Length && !(from <= i < to) ==> buf[i] == old(buf[i])
  }

  /** The octets s stand in buf at offset p. */
  ghost predicate Written(buf: array<byte>, p: nat, s: seq<byte>)
    reads buf
  {
    p + |s| <= buf.Length && forall j :: 0 <= j < |s| ==> buf[p + j] == s[j]
  }

  lemma WrittenTogether(buf: array<byte>, p: nat, a: seq<byte>, b: seq<byte>)
    requires Written(buf, p, a) && Written(buf, p + |a|, b)
    ensures Written(buf, p, a + b)
  {
    forall j | 0 <= j < |a + b| ensures buf[p + j] == (a + b)[j] {
      if j >= |a| { assert buf[p + |a| + (j - |a|)] == b[j - |a|]; }
    }
  }

  /** The octet count is the one stored in the node. */
  method EncodePreparedTag(buf: array<byte>, p: nat, cls: TagClass, constructed: bool, tag: nat, tagSize: nat)
    requires tagSize >= 1 && (tagSize == 1 ==> tag <= 30) && p + tagSize <= buf.Length
    modifies buf
    ensures Written(buf, p, PreparedTag(cls, constructed, tag, tagSize))
    ensures OnlyWindow(buf, p, p + tagSize)
  {
    hide Shift8, BitLength, TagTail;
    if tagSize > 1 {
      var k := tagSize - 1;
      buf[p] := HeadOctet(cls, constructed, 0x1f);
      var q := p + 1;
      var i := 0;
      while i < k
        invariant 0 <= i <= k
        invariant buf[p] == HeadOctet(cls, constructed, 0x1f)
        invariant forall j :: q <= j < q + i ==> buf[j] == 0x80 + Shift8(tag, k - 1 - (j - q)) % 128
        invariant OnlyWindow(buf, p, q + k)
      {
        buf[q + i] := 0x80 + Shift8(tag, k - 1 - i) % 128;
        i := i + 1;
      }
      buf[q + i - 1] := buf[q + i - 1] % 128;
      LastShift(tag);
      TailWritten(buf[q..q + k], tag, k);
      assert Written(buf, q, TagTail(tag, k));
      WrittenTogether(buf, p, [HeadOctet(cls, constructed, 0x1f)], TagTail(tag, k));
    } else {
      buf[p] := HeadOctet(cls, constructed, tag);
    }
  }

  lemma LastShift(n: nat)
    ensures Shift8(n, 0) == n
  {
  }

  lemma TailWritten(s: seq<byte>, tag: nat, k: nat)
    requires k > 0 && |s| == k
    requires forall j :: 0 <= j < k - 1 ==> s[j] == 0x80 + Shift8(tag, k - 1 - j) % 128
    requires s[k - 1] == tag % 128
    ensures s == TagTail(tag, k)
  {
    forall j | 0 <= j < k ensures s[j] == TagTail(tag, k)[j] {
      if j < k - 1 { FlaggedAt(tag / 256, k - 1, j); }
    }
  }

  /** The octet count is the one stored in the node; a short length leaves all but the first
      of the octets counted as they were. */
  method EncodePreparedLength(buf: array<byte>, p: nat, length: nat, lenSize: nat)
    requires 1 <= lenSize <= 128 && p + lenSize <= buf.Length
    modifies buf
    ensures Written(buf, p, PreparedLength(length, lenSize))
    ensures OnlyWindow(buf, p, p + |PreparedLength(length, lenSize)|)
  {
    if length > 127 {
      var k := lenSize - 1;
      buf[p] := 0x80 + k;
      var q := p + 1;
      for i := 0 to k
        invariant buf[p] == 0x80 + k
        invariant forall j :: q <= j < q + i ==> buf[j] == Shift8(length, k - 1 - (j - q)) % 256
        invariant OnlyWindow(buf, p, q + k)
      {
        buf[q + i] := Shift8(length, k - i - 1) % 256;
      }
      OctetsWritten(buf[q..q + k], length, k);
      assert Written(buf, q, Octets(length, k));
      WrittenTogether(buf, p, [0x80 + k], Octets(length, k));
    } else {
      buf[p] := length;
    }
  }

  lemma OctetsWritten(s: seq<byte>, n: nat, k: nat)
    requires |s| == k
    requires forall j :: 0 <= j < k ==> s[j] == Shift8(n, k - 1 - j) % 256
    ensures s == Octets(n, k)
  {
    forall j | 0 <= j < k ensures s[j] == Octets(n, k)[j] { OctetAt(n, k, j); }
  }
}
