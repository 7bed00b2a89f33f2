/** Messages that are cut off, and the errors the decoder returns for them. */
module BerErrors {
  import opened BerOctets
  import opened BerTlv
  import opened BerDecode

  /** Length octets that are not all there are refused. */
  lemma CutLength(f: Form, n: nat, m: seq<byte>, q: nat, limit: nat)
    requires f != ToEnd && FormFits(f, n) && Holds(m, q, FormOctets(f, n)) && limit < |FormOctets(f, n)|
    ensures LengthAt(m[q..], limit) == Refused
  {
    var s := FormOctets(f, n);
    HoldsPrefix(m, q, s);
    assert m[q..][0] == s[0];
    if f == Minimal && n > 127 { AtMostFourOctets(n); }
  }

  /** An element of definite length that is cut off behind its identifier: error 300 if the
      length is not complete, 200 if the contents are not. */
  lemma CutOff(e: Formed, m: seq<byte>, limit: nat, pool: nat)
    requires Readable(e) && e.form != ToEnd && Holds(m, 0, Bytes(e)) && pool > 0
    requires TagSize(e.tag) <= limit < |Bytes(e)|
    ensures Decode(m, limit, pool) ==
            Failed(if limit < TagSize(e.tag) + |FormOctets(e.form, |Contents(e)|)| then 300 else 200)
  {
    hide TagOctets, TagReadBack, TagOf, LengthAt, Bytes, Holds, FormOctets, AllBytes;
    var q, k := TagSize(e.tag), |FormOctets(e.form, |Contents(e)|)|;
    BytesAt(e, m, 0);
    TagRead(e, m, 0);
    if limit < q + k {
      CutLength(e.form, |Contents(e)|, m, q, limit - q);
    } else {
      DefiniteRead(e.form, |Contents(e)|, m, q, limit - q);
    }
    SizesOf(e);
    assert NodeAt(m, limit, 0, pool).Stop?;
  }

  lemma SizesOf(e: Formed)
    requires e.form != ToEnd
    ensures |Bytes(e)| == TagSize(e.tag) + |FormOctets(e.form, |Contents(e)|)| + |Contents(e)| && TagSize(e.tag) > 0
  {
  }
}
