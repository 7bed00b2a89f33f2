/** Identifier and length octets of a TLV, as src/asn1/asn1.cpp computes, writes and reads
    them (sections 8.1.2 and 8.1.3 of ITU-T X.690).

    Octets are integers 0..255. Shifts are repeated divisions by the digit base, so every
    truncation to one octet is visible. */
module BerOctets {

  type byte = x: int | 0 <= x < 256

  datatype TagClass = Universal | Application | ContextSpecific | Private

  /** The class bits, already in place in the identifier octet. */
  function ClassBits(c: TagClass): (b: byte)
  {
    match c
    case Universal => 0x00
    case Application => 0x40
    case ContextSpecific => 0x80
    case Private => 0xc0
  }

  /** The class in the two high bits of an identifier octet. */
  function ClassOf(b: byte): TagClass {
    if b < 0x40 then Universal else if b < 0x80 then Application
    else if b < 0xc0 then ContextSpecific else Private
  }

  /** ceil(log2(n + 1)): the number of bits needed to write n. */
  function BitLength(n: nat): nat {
    if n == 0 then 0 else 1 + BitLength(n / 2)
  }

  // ---------------------------------------------------------------- octets of a number

  /** n >> 8 * k */
  function Shift8(n: nat, k: nat): nat {
    if k == 0 then n else Shift8(n / 256, k - 1)
  }

  /** The low k octets of n, most significant first. */
  function Octets(n: nat, k: nat): (s: seq<byte>)
    ensures |s| == k
  {
    if k == 0 then [] else Octets(n / 256, k - 1) + [n % 256]
  }

  /** The number the octets stand for, most significant first. */
  function OctetValue(s: seq<byte>): nat {
    if s == [] then 0 else 256 * OctetValue(s[..|s| - 1]) + s[|s| - 1]
  }

  /** Octet i is n >> 8 * (k - 1 - i), truncated: what the encoder's loop writes. */
  lemma {:induction false} OctetAt(n: nat, k: nat, i: nat)
    requires i < k
    ensures Octets(n, k)[i] == Shift8(n, k - 1 - i) % 256
  {
    if i < k - 1 {
      OctetAt(n / 256, k - 1, i);
    }
  }

  /** k octets hold n exactly when nothing is left after shifting them out. */
  lemma {:induction false} OctetsHold(n: nat, k: nat)
    ensures OctetValue(Octets(n, k)) == n <==> Shift8(n, k) == 0
    ensures OctetValue(Octets(n, k)) <= n
  {
    if k > 0 {
      OctetsHold(n / 256, k - 1);
      assert Octets(n, k)[..k - 1] == Octets(n / 256, k - 1);
    }
  }

  /** prepare_length's octet count: enough for n, and one fewer would not be. */
  function OctetCount(n: nat): nat {
    (BitLength(n) + 7) / 8
  }

  lemma BitLength4(n: nat)
    requires n >= 16
    ensures BitLength(n) == 4 + BitLength(n / 16)
  {
    var a := n / 2;
    var b := a / 2;
    var c := b / 2;
    assert BitLength(n) == 1 + BitLength(a);
    assert BitLength(a) == 1 + BitLength(b);
    assert BitLength(b) == 1 + BitLength(c);
    assert BitLength(c) == 1 + BitLength(c / 2);
    assert c / 2 == n / 16;
  }

  lemma BitLength8(n: nat)
    requires n >= 256
    ensures BitLength(n) == 8 + BitLength(n / 256)
  {
    BitLength4(n);
    BitLength4(n / 16);
  }

  lemma BitLengthSmall(n: nat, b: nat)
    requires b in {1, 2, 4, 8, 16, 32, 64, 128, 256}
    ensures n < b ==> BitLength(n) <= (if b == 1 then 0 else if b == 2 then 1 else if b == 4 then 2
              else if b == 8 then 3 else if b == 16 then 4 else if b == 32 then 5
              else if b == 64 then 6 else if b == 128 then 7 else 8)
    decreases b
  {
    if b > 1 { BitLengthSmall(n / 2, b / 2); }
  }

  lemma {:induction false} OctetCountIsMinimal(n: nat)
    requires n > 0
    ensures OctetCount(n) > 0
    ensures Shift8(n, OctetCount(n)) == 0
    ensures Shift8(n, OctetCount(n) - 1) > 0
  {
    if n < 256 {
      BitLengthSmall(n, 256);
      assert BitLength(n) >= 1;
      assert OctetCount(n) == 1;
      assert Shift8(n / 256, 0) == 0;
    } else {
      BitLength8(n);
      OctetCountIsMinimal(n / 256);
    }
  }

  lemma {:induction false} OctetCountBound(n: nat, k: nat)
    requires n > 0
    ensures OctetCount(n) <= k <==> Shift8(n, k) == 0
    decreases k
  {
    OctetCountIsMinimal(n);
    if k > 0 {
      if n < 256 {
        BitLengthSmall(n, 256);
        ShiftZero(k - 1);
      } else {
        BitLength8(n);
        OctetCountBound(n / 256, k - 1);
      }
    }
  }

  lemma ShiftZero(k: nat)
    ensures Shift8(0, k) == 0
  {
  }

  // ---------------------------------------------------------------- length octets

  /** The longest value whose length the encoder handles: log2 is taken of an int plus one. */
  const MAX_LENGTH: nat := 0x7FFF_FFFE

  /** value_length_size as prepare_length sets it; unlink also hands it negative lengths. */
  function LengthSize(n: int): (k: nat)
    ensures k >= 1
  {
    if n > 127 then OctetCount(n) + 1 else 1
  }

  /** What encode_prepared_length writes. */
  function LengthOctets(n: nat): (s: seq<byte>)
    requires n <= MAX_LENGTH
    ensures |s| == LengthSize(n)
  {
    if n <= 127 then [n] else
      AtMostFourOctets(n);
      [0x80 + OctetCount(n)] + Octets(n, OctetCount(n))
  }

  lemma AtMostFourOctets(n: nat)
    requires 0 < n <= MAX_LENGTH
    ensures 1 <= OctetCount(n) <= 4
  {
    OctetCountIsMinimal(n);
    OctetCountBound(n, 4);
    assert Shift8(n, 4) == Shift8(n / 256, 3) == Shift8(n / 256 / 256, 2);
    assert Shift8(n / 256 / 256, 2) == Shift8(n / 256 / 256 / 256, 1) == Shift8(n / 256 / 256 / 256 / 256, 0);
  }

  /** What encode_prepared_length writes of a length for which k octets have been counted: a
      short length fills only the first of them. */
  function PreparedLength(n: nat, k: nat): (s: seq<byte>)
    requires 1 <= k <= 128
    ensures |s| == if n > 127 then k else 1
  {
    if n > 127 then [0x80 + (k - 1)] + Octets(n, k - 1) else [n]
  }

  /** The octets counted are those needed. */
  lemma PreparedLengthAgrees(n: nat)
    requires n <= MAX_LENGTH
    ensures LengthSize(n) <= 5 && PreparedLength(n, LengthSize(n)) == LengthOctets(n)
  {
    if n > 127 { AtMostFourOctets(n); }
  }

  datatype LengthForm = Short | Long | Indefinite

  /** The outcome of reading a length: the value, the number of length octets and the form;
      Refused is decode_length's error return. */
  datatype LengthResult = Length(value: nat, size: nat, form: LengthForm) | Refused | Unreadable

  /** decode_length on a definite form: s is the memory from the length octets to the end of
      the buffer, limit the number of octets the caller claims are left. */
  function DefiniteLength(s: seq<byte>, limit: nat): LengthResult {
    if limit == 0 then Refused
    else if s == [] then Unreadable
    else if s[0] < 0x80 then Length(s[0], 1, Short)
    else if s[0] == 0x80 then Unreadable
    else
      var k := s[0] - 0x80;
      if k == 0x7f || k >= limit then Refused
      else if k >= |s| then Unreadable
      else Length(OctetValue(s[1..1 + k]), k + 1, Long)
  }

  /** Length octets read back as written, whatever follows; the form is the shortest one. */
  lemma LengthRoundTrip(n: nat, rest: seq<byte>, limit: nat)
    requires n <= MAX_LENGTH && LengthSize(n) <= limit
    ensures DefiniteLength(LengthOctets(n) + rest, limit)
         == Length(n, LengthSize(n), if n <= 127 then Short else Long)
    ensures n > 127 ==> Shift8(n, LengthSize(n) - 2) > 0
  {
    if n > 127 {
      var k := OctetCount(n);
      AtMostFourOctets(n);
      OctetCountIsMinimal(n);
      OctetsHold(n, k);
      assert (LengthOctets(n) + rest)[1..1 + k] == Octets(n, k);
    }
  }

  /** A definite long form with any sufficient number of octets, as section 8.1.3.5 of X.690
      permits, is read back too. */
  lemma LongLengthRoundTrip(n: nat, k: nat, rest: seq<byte>, limit: nat)
    requires 1 <= k < 0x7f && Shift8(n, k) == 0 && k < limit
    ensures DefiniteLength([0x80 + k] + Octets(n, k) + rest, limit) == Length(n, k + 1, Long)
  {
    OctetsHold(n, k);
    var s: seq<byte> := [0x80 + k] + Octets(n, k) + rest;
    assert s[1..1 + k] == Octets(n, k);
  }

  // ---------------------------------------------------------------- identifier octets

  /** prepare_tag's count of septets after the first octet. */
  function SeptetCount(t: nat): nat {
    (BitLength(t) + 6) / 7
  }

  /** tag_value_size as prepare_tag sets it; -1 stands for "take the universal tag". */
  function TagSize(t: int): (k: nat)
    ensures k >= 1
  {
    if t > 30 then SeptetCount(t) + 1 else 1
  }

  /** The low seven bits of t >> 8 * (k - 1 - i), each with the continuation bit set. */
  function Flagged(t: nat, k: nat): (s: seq<byte>)
    ensures |s| == k
    ensures forall i :: 0 <= i < k ==> s[i] >= 0x80
  {
    if k == 0 then [] else Flagged(t / 256, k - 1) + [0x80 + t % 128]
  }

  /** The subsequent identifier octets encode_prepared_tag writes: the flag of the last one
      is cleared. */
  function TagTail(t: nat, k: nat): (s: seq<byte>)
    requires k > 0
    ensures |s| == k
  {
    Flagged(t / 256, k - 1) + [t % 128]
  }

  lemma {:induction false} FlaggedAt(t: nat, k: nat, i: nat)
    requires i < k
    ensures Flagged(t, k)[i] == 0x80 + Shift8(t, k - 1 - i) % 128
  {
    if i < k - 1 {
      FlaggedAt(t / 256, k - 1, i);
    }
  }

  /** The first identifier octet: class, complexity and five low bits. */
  function HeadOctet(c: TagClass, constructed: bool, low: nat): (b: byte)
    requires low < 32
    ensures ClassOf(b) == c
    ensures (b / 32 % 2 == 1) == constructed
    ensures b % 32 == low
  {
    ClassBits(c) + (if constructed then 0x20 else 0) + low
  }

  /** What encode_prepared_tag writes. */
  function TagOctets(c: TagClass, constructed: bool, t: nat): (s: seq<byte>)
    ensures |s| == TagSize(t)
  {
    if t <= 30 then [HeadOctet(c, constructed, t)] else
      SeptetCountPositive(t);
      [HeadOctet(c, constructed, 0x1f)] + TagTail(t, SeptetCount(t))
  }

  /** What encode_prepared_tag writes of a tag for which k octets have been counted. */
  function PreparedTag(c: TagClass, constructed: bool, t: nat, k: nat): (s: seq<byte>)
    requires k >= 1 && (k == 1 ==> t <= 30)
    ensures |s| == k
  {
    if k > 1 then [HeadOctet(c, constructed, 0x1f)] + TagTail(t, k - 1) else [HeadOctet(c, constructed, t)]
  }

  lemma PreparedTagAgrees(c: TagClass, constructed: bool, t: nat)
    ensures TagSize(t) == 1 <==> t <= 30
    ensures PreparedTag(c, constructed, t, TagSize(t)) == TagOctets(c, constructed, t)
  {
    if t > 30 { SeptetCountPositive(t); }
  }

  /** The value of a run of septets, seven bits an octet, most significant first. */
  function SeptetValue(s: seq<byte>): nat {
    if s == [] then 0 else 128 * SeptetValue(s[..|s| - 1]) + s[|s| - 1] % 128
  }

  /** The number of octets with the continuation bit set that start s. */
  function Continued(s: seq<byte>): (k: nat)
    ensures k <= |s|
    ensures forall i :: 0 <= i < k ==> s[i] >= 0x80
    ensures k < |s| ==> s[k] < 0x80
  {
    if s == [] || s[0] < 0x80 then 0 else 1 + Continued(s[1..])
  }

  /** The outcome of reading identifier octets; Unreadable is a read past the buffer. */
  datatype TagResult = Tag(cls: TagClass, constructed: bool, tag: nat, size: nat) | NoTag

  /** decode_tag on the octets up to the end of the buffer. */
  function TagOf(s: seq<byte>): (r: TagResult)
    ensures r.Tag? ==> 1 <= r.size <= |s|
  {
    if s == [] then NoTag
    else
      var c, p := ClassOf(s[0]), s[0] / 32 % 2 == 1;
      if s[0] % 32 != 31 then Tag(c, p, s[0] % 32, 1)
      else
        var k := Continued(s[1..]) + 1;
        if k >= |s| then NoTag
        else Tag(c, p, SeptetValue(s[1..1 + k]), k + 1)
  }

  lemma SeptetCountPositive(t: nat)
    requires t > 0
    ensures SeptetCount(t) > 0
  {
  }

  lemma ContinuedAt(s: seq<byte>, k: nat)
    requires k < |s| && s[k] < 0x80 && forall i :: 0 <= i < k ==> s[i] >= 0x80
    ensures Continued(s) == k
  {
    if k > 0 {
      ContinuedAt(s[1..], k - 1);
    }
  }

  /** The number decode_tag makes of a written tag. */
  function TagReadBack(t: nat): nat {
    if t <= 30 then t else
      SeptetCountPositive(t);
      SeptetValue(TagTail(t, SeptetCount(t)))
  }

  lemma LongTagRead(head: byte, t: nat, k: nat, rest: seq<byte>)
    requires head % 32 == 31 && k > 0
    ensures TagOf([head] + TagTail(t, k) + rest)
         == Tag(ClassOf(head), head / 32 % 2 == 1, SeptetValue(TagTail(t, k)), k + 1)
  {
    hide SeptetValue, ClassOf;
    var s := [head] + TagTail(t, k) + rest;
    assert s[1..] == TagTail(t, k) + rest;
    ContinuedAt(s[1..], k - 1);
    assert s[1..1 + k] == TagTail(t, k);
  }

  /** Any written tag is read with its own class, complexity and size; only the number can
      come back different. */
  lemma TagShapeRoundTrip(c: TagClass, constructed: bool, t: nat, rest: seq<byte>)
    ensures TagOf(TagOctets(c, constructed, t) + rest)
         == Tag(c, constructed, TagReadBack(t), TagSize(t))
  {
    if t > 30 {
      var k := SeptetCount(t);
      SeptetCountPositive(t);
      LongTagRead(HeadOctet(c, constructed, 0x1f), t, k, rest);
    }
  }

  lemma {:induction false} FlaggedValue(t: nat, k: nat)
    ensures SeptetValue(Flagged(t, k)) <= t
  {
    if k > 0 {
      hide SeptetValue, Flagged;
      FlaggedValue(t / 256, k - 1);
      FlaggedIs(t, k);
      ValueOfMore(Flagged(t / 256, k - 1), 0x80 + t % 128);
      LowSeptet(t);
    } else {
      assert Flagged(t, k) == [];
    }
  }

  lemma FlaggedIs(t: nat, k: nat)
    requires k > 0
    ensures Flagged(t, k) == Flagged(t / 256, k - 1) + [0x80 + t % 128]
  {
  }

  lemma ValueOfMore(f: seq<byte>, d: byte)
    ensures SeptetValue(f + [d]) == 128 * SeptetValue(f) + d % 128
  {
    assert (f + [d])[..|f|] == f;
  }

  lemma LowSeptet(t: nat)
    ensures 128 * (t / 256) + t % 128 <= t
  {
    assert t == 256 * (t / 256) + t % 256;
    assert t % 256 % 128 == t % 128;
  }

  lemma {:induction false} SeptetCountAbove(t: nat)
    ensures t >= 128 <==> SeptetCount(t) >= 2
  {
    BitLengthSmall(t, 128);
    if t >= 128 {
      BitLength4(t);
      var u := t / 16;
      assert u >= 8;
      assert BitLength(u) == 1 + BitLength(u / 2);
      assert BitLength(u / 2) == 1 + BitLength(u / 2 / 2);
      assert BitLength(u / 2 / 2) == 1 + BitLength(u / 2 / 2 / 2);
    }
  }

  /** The encoder shifts by eight bits an octet where the decoder expects seven, so a tag
      number survives exactly when one septet holds it. */
  lemma TagRoundTrip(c: TagClass, constructed: bool, t: nat, rest: seq<byte>)
    ensures TagOf(TagOctets(c, constructed, t) + rest) == Tag(c, constructed, t, TagSize(t))
       <==> t <= 127
  {
    TagShapeRoundTrip(c, constructed, t, rest);
    if t > 30 {
      ReadBackExact(t);
    }
  }

  lemma ReadBackExact(t: nat)
    requires t > 30
    ensures TagReadBack(t) == t <==> t <= 127
  {
    hide SeptetValue, SeptetCount, Flagged, TagTail;
    var k := SeptetCount(t);
    SeptetCountPositive(t);
    SeptetCountAbove(t);
    TailIs(t, k);
    ValueOfMore(Flagged(t / 256, k - 1), t % 128);
    if t >= 128 {
      FlaggedValue(t / 256, k - 1);
      EightIsMoreThanSeven(t, SeptetValue(Flagged(t / 256, k - 1)));
    } else {
      NothingFlagged(t / 256);
    }
  }

  lemma TailIs(t: nat, k: nat)
    requires k > 0
    ensures TagTail(t, k) == Flagged(t / 256, k - 1) + [t % 128]
  {
  }

  lemma NothingFlagged(t: nat)
    ensures SeptetValue(Flagged(t, 0)) == 0
  {
  }

  lemma EightIsMoreThanSeven(t: nat, v: nat)
    requires t >= 128 && v <= t / 256
    ensures 128 * v + t % 128 < t
  {
    var q := t / 128;
    assert t / 256 == q / 2;
    assert t == 128 * q + t % 128;
    assert v < q;
  }

  /** Octets as ITU-T X.690 prescribes them: the classes numbered in the two high bits (8.1.2.2),
      single octets and the first of several (8.1.2.4), and the lengths of its example
      (8.1.3.5) and around it. */
  lemma StandardOctets()
    ensures var classes := [Universal, Application, ContextSpecific, Private];
            forall k :: 0 <= k < 4 ==> ClassBits(classes[k]) == 64 * k
    ensures TagOctets(Universal, true, 16) == [0x30] && TagOctets(ContextSpecific, true, 1) == [0xA1]
    ensures TagOctets(Application, false, 31) == [0x5F, 0x1F]
    ensures LengthOctets(127) == [0x7F] && LengthOctets(128) == [0x81, 0x80] && LengthOctets(201) == [0x81, 0xC9]
    ensures LengthOctets(300) == [0x82, 0x01, 0x2C]
  {
    hide SeptetCount, OctetCount, Flagged;
    assert SeptetCount(31) == 1 && Flagged(31 / 256, 0) == [] by { OneSeptet(31); }
    OctetsNeeded(128, 1);
    OctetsNeeded(201, 1);
    OctetsNeeded(300, 2);
    assert Octets(300, 2) == Octets(1, 1) + [0x2C];
  }

  lemma OneSeptet(t: nat)
    requires 0 < t <= 127
    ensures SeptetCount(t) == 1 && Flagged(t / 256, 0) == []
  {
    SeptetCountPositive(t);
    SeptetCountAbove(t);
  }

  lemma OctetsNeeded(n: nat, k: nat)
    requires 0 < n <= MAX_LENGTH && ((k == 1 && n < 256) || (k == 2 && 256 <= n < 65536))
    ensures OctetCount(n) == k
  {
    OctetCountIsMinimal(n);
    OctetCountBound(n, 1);
    OctetCountBound(n, 2);
    assert Shift8(n, 1) == Shift8(n / 256, 0) == n / 256;
    assert Shift8(n, 2) == Shift8(n / 256, 1) == Shift8(n / 256 / 256, 0);
  }
}
