/** The stream that carries a list of configuration changes from the configuration daemon to
    a user of it, one change a packet, in src/cfg/config_gdt.cpp. */
module ConfigStream {

  type Octet = x: int | 0 <= x < 256

  /** A change in the flat list: a ConfigItem's name, value, node_type and node_state. */
  datatype Record = Record(path: seq<Octet>, value: seq<Octet>, nodeType: int, nodeState: int)

  /** A parameter of a configuration message: its number and the octets of its value. */
  datatype Param = Param(id: nat, value: seq<Octet>)

  type Packet = seq<Param>

  const NODE_STATE: nat := 7405
  const ITEM_VALUE: nat := 7406
  const NODE_TYPE: nat := 7408
  const ITEM_PATH: nat := 7415
  const ITEM_COUNT: nat := 7417

  // ---------------------------------------------------------------- numbers

  /** The four octets of a 32-bit number, most significant first. */
  function Be32(n: nat): (os: seq<Octet>)
    ensures |os| == 4
  {
    [n / 256 / 256 / 256 % 256, n / 256 / 256 % 256, n / 256 % 256, n % 256]
  }

  function FromBe32(os: seq<Octet>): nat
    requires |os| == 4
  {
    var a: int, b: int, c: int, d: int := os[0], os[1], os[2], os[3];
    ((a * 256 + b) * 256 + c) * 256 + d
  }

  lemma Be32RoundTrip(n: nat)
    ensures FromBe32(Be32(n)) == n % 0x1_0000_0000
  {
    var a := n / 256;
    var b := a / 256;
    var c := b / 256;
    assert n == 256 * a + n % 256 && a == 256 * b + a % 256 && b == 256 * c + b % 256 && c == 256 * (c / 256) + c % 256;
    assert n == 0x1_0000_0000 * (c / 256) + FromBe32(Be32(n));
    Remainder(n, c / 256, FromBe32(Be32(n)));
  }

  lemma Remainder(n: nat, q: nat, r: nat)
    requires n == 0x1_0000_0000 * q + r && r < 0x1_0000_0000
    ensures n % 0x1_0000_0000 == r
  {
  }

  /** The first octet of an int in memory, and what a char read back from it is. */
  function LowOctet(x: int): Octet {
    x % 256
  }

  function SignedChar(o: Octet): int {
    if o < 128 then o else o - 256
  }

  predicate FitsChar(x: int) {
    -128 <= x < 128
  }

  lemma CharRoundTrip(x: int)
    ensures SignedChar(LowOctet(x)) == x <==> FitsChar(x)
  {
  }

  // ---------------------------------------------------------------- packets

  function Opening(n: nat): Packet {
    [Param(ITEM_COUNT, Be32(n))]
  }

  function Change(c: Record): Packet {
    [Param(ITEM_PATH, c.path), Param(ITEM_VALUE, c.value), Param(NODE_TYPE, [LowOctet(c.nodeType)]),
     Param(NODE_STATE, [LowOctet(c.nodeState)])]
  }

  /** The change as the receiver gets to know it. */
  function Received(c: Record): Record {
    c.(nodeType := SignedChar(LowOctet(c.nodeType)), nodeState := SignedChar(LowOctet(c.nodeState)))
  }

  function AllReceived(cs: seq<Record>): (rs: seq<Record>)
    ensures |rs| == |cs| && forall i :: 0 <= i < |cs| ==> rs[i] == Received(cs[i])
  {
    seq(|cs|, i requires 0 <= i < |cs| => Received(cs[i]))
  }

  // ---------------------------------------------------------------- the two ends

  /** The sender: NtfyUsrStreamNext and notify_user. */
  class NtfyUsrStreamNext {
    const flat: seq<Record>
    var resIndex: nat

    constructor (flat: seq<Record>)
      ensures this.flat == flat && resIndex == 0
    {
      this.flat, resIndex := flat, 0;
    }

    /** The packet notify_user opens the stream with: whatever a receiver counted before, it
        announces how many changes there are, and it carries none. */
    method Open() returns (p: Packet)
      ensures p == Opening(|flat|)
      ensures forall count :: CountIn(p, count) == |flat| % 0x1_0000_0000
      ensures forall rs :: Read(p, false, rs) == rs
    {
      p := [Param(ITEM_COUNT, Be32(|flat|))];
      forall count ensures CountIn(p, count) == |flat| % 0x1_0000_0000 { CountArrives(|flat|, count); }
      assert p[1..] == [];
    }

    /** The next packet, or the end of the sequence. */
    method Run() returns (ends: bool, p: Packet)
      modifies this
      ensures ends == (old(resIndex) >= |flat|)
      ensures !ends ==> p == Change(flat[old(resIndex)]) && resIndex == old(resIndex) + 1
      ensures ends ==> p == [] && resIndex == old(resIndex)
    {
      ends, p := resIndex >= |flat|, [];
      if !ends {
        var c := flat[resIndex];
        p := [Param(ITEM_PATH, c.path), Param(ITEM_VALUE, c.value), Param(NODE_TYPE, [LowOctet(c.nodeType)]),
              Param(NODE_STATE, [LowOctet(c.nodeState)])];
        resIndex := resIndex + 1;
      }
    }
  }

  /** What a list of parameters adds to the records received: a path starts a record, which is
      UNKNOWN until told otherwise; what comes before the first path is lost. */
  function Read(ps: seq<Param>, open: bool, rs: seq<Record>): seq<Record>
    requires open ==> rs != []
    decreases |ps|
  {
    if ps == [] then rs
    else
      var p := ps[0];
      var n := |rs| - 1;
      if p.id == ITEM_PATH then Read(ps[1..], true, rs + [Record(p.value, [], -1, 0)])
      else if !open then Read(ps[1..], open, rs)
      else if p.id == ITEM_VALUE then Read(ps[1..], open, rs[n := rs[n].(value := rs[n].value + p.value)])
      else if p.id == NODE_TYPE && p.value != [] then Read(ps[1..], open, rs[n := rs[n].(nodeType := SignedChar(p.value[0]))])
      else if p.id == NODE_STATE && p.value != [] then Read(ps[1..], open, rs[n := rs[n].(nodeState := SignedChar(p.value[0]))])
      else Read(ps[1..], open, rs)
  }

  /** The count a list of parameters announces, if any. */
  function CountIn(ps: seq<Param>, count: nat): nat {
    if ps == [] then count
    else CountIn(ps[1..], if ps[0].id == ITEM_COUNT && |ps[0].value| == 4 then FromBe32(ps[0].value) else count)
  }

  lemma CountArrives(n: nat, count: nat)
    ensures CountIn(Opening(n), count) == n % 0x1_0000_0000
  {
    Be32RoundTrip(n);
    assert Opening(n)[1..] == [];
  }

  /** The receiver: CfgUpdateStreamNew and CfgUpdateStreamNext. */
  class CfgUpdateStreamNext {
    var updateCount: nat
    var cfgRes: seq<Record>

    constructor ()
      ensures updateCount == 0 && cfgRes == []
    {
      updateCount, cfgRes := 0, [];
    }

    /** The stream opens. */
    method New(p: Packet)
      modifies this`updateCount
      ensures updateCount == CountIn(p, old(updateCount))
    {
      var i := 0;
      assert p[0..] == p;
      while i < |p|
        invariant i <= |p| && CountIn(p[i..], updateCount) == CountIn(p, old(updateCount))
      {
        assert p[i..][0] == p[i] && p[i..][1..] == p[i + 1..];
        if p[i].id == ITEM_COUNT && |p[i].value| == 4 {
          updateCount := FromBe32(p[i].value);
        }
        i := i + 1;
      }
    }

    /** A packet arrives. */
    method Next(p: Packet)
      modifies this`cfgRes
      ensures cfgRes == Read(p, false, old(cfgRes))
    {
      var open, i := false, 0;
      assert p[0..] == p;
      while i < |p|
        invariant i <= |p| && (open ==> cfgRes != [])
        invariant Read(p[i..], open, cfgRes) == Read(p, false, old(cfgRes))
      {
        assert p[i..][0] == p[i] && p[i..][1..] == p[i + 1..];
        var n := |cfgRes| - 1;
        if p[i].id == ITEM_PATH {
          cfgRes := cfgRes + [Record(p[i].value, [], -1, 0)];
          open := true;
        } else if open && p[i].id == ITEM_VALUE {
          cfgRes := cfgRes[n := cfgRes[n].(value := cfgRes[n].value + p[i].value)];
        } else if open && p[i].id == NODE_TYPE && p[i].value != [] {
          cfgRes := cfgRes[n := cfgRes[n].(nodeType := SignedChar(p[i].value[0]))];
        } else if open && p[i].id == NODE_STATE && p[i].value != [] {
          cfgRes := cfgRes[n := cfgRes[n].(nodeState := SignedChar(p[i].value[0]))];
        }
        i := i + 1;
      }
    }
  }

  lemma ChangeIsRead(c: Record, rs: seq<Record>)
    ensures Read(Change(c), false, rs) == rs + [Received(c)]
  {
    var ps, n := Change(c), |rs|;
    var r1 := rs + [Record(c.path, [], -1, 0)];
    var r2 := r1[n := Record(c.path, c.value, -1, 0)];
    var r3 := r2[n := r2[n].(nodeType := SignedChar(LowOctet(c.nodeType)))];
    var r4 := r3[n := r3[n].(nodeState := SignedChar(LowOctet(c.nodeState)))];
    assert [] + c.value == c.value;
    assert ps[1..] == [ps[1], ps[2], ps[3]] && ps[1..][1..] == [ps[2], ps[3]];
    assert Read([], true, r4) == r4;
    assert [ps[3]][1..] == [] && Read([ps[3]], true, r3) == r4;
    assert [ps[2], ps[3]][1..] == [ps[3]] && Read([ps[2], ps[3]], true, r2) == r4;
    assert [ps[1], ps[2], ps[3]][1..] == [ps[2], ps[3]] && Read([ps[1], ps[2], ps[3]], true, r1) == r4;
    assert r4 == rs + [Received(c)];
  }

  // ---------------------------------------------------------------- the stream as a whole

  /** Where the stream is. */
  datatype Wire = Opened(packet: Packet) | Sent(packet: Packet) | Answered | Ended

  datatype System = System(flat: seq<Record>, resIndex: nat, wire: Wire, count: nat, cfgRes: seq<Record>)

  function Start(flat: seq<Record>): System {
    System(flat, 0, Opened(Opening(|flat|)), 0, [])
  }

  /** The one who has the turn takes it. */
  function Step(s: System): System {
    match s.wire
    case Opened(p) => s.(wire := Answered, count := CountIn(p, s.count))
    case Sent(p) => s.(wire := Answered, cfgRes := Read(p, false, s.cfgRes))
    case Answered =>
      if s.resIndex < |s.flat| then s.(wire := Sent(Change(s.flat[s.resIndex])), resIndex := s.resIndex + 1)
      else s.(wire := Ended)
    case Ended => s
  }

  function After(s: System, n: nat): System
    decreases n
  {
    if n == 0 then s else After(Step(s), n - 1)
  }

  /** What every reachable state satisfies. */
  predicate Consistent(s: System) {
    && |s.cfgRes| <= s.resIndex <= |s.flat|
    && s.cfgRes == AllReceived(s.flat[..|s.cfgRes|])
    && (s.wire.Opened? ==> s.wire.packet == Opening(|s.flat|) && s.resIndex == 0)
    && (s.wire.Sent? ==> s.resIndex == |s.cfgRes| + 1 && s.wire.packet == Change(s.flat[s.resIndex - 1]))
    && (!s.wire.Sent? ==> s.resIndex == |s.cfgRes|)
    && (!s.wire.Opened? ==> s.count == |s.flat| % 0x1_0000_0000)
    && (s.wire.Ended? ==> s.resIndex == |s.flat|)
  }

  lemma StepKeeps(s: System)
    requires Consistent(s)
    ensures Consistent(Step(s)) && Step(s).flat == s.flat
  {
    if s.wire.Opened? { CountArrives(|s.flat|, s.count); }
    if s.wire.Sent? {
      var c, n := s.flat[s.resIndex - 1], |s.cfgRes|;
      ChangeIsRead(c, s.cfgRes);
      assert s.flat[..n + 1] == s.flat[..n] + [c];
      assert AllReceived(s.flat[..n + 1]) == AllReceived(s.flat[..n]) + [Received(c)];
    }
  }

  /** In every state of every run the receiver has a beginning of the list, at most one change
      behind what was sent, and once the stream has ended the whole of it, as long as was
      announced. */
  lemma {:induction false} EveryRun(s: System, n: nat)
    requires Consistent(s)
    ensures Consistent(After(s, n)) && After(s, n).flat == s.flat
    decreases n
  {
    if n > 0 {
      StepKeeps(s);
      EveryRun(Step(s), n - 1);
    }
  }

  /** How many turns are left. */
  function Left(s: System): nat
    requires s.resIndex <= |s.flat|
  {
    match s.wire
    case Opened(_) => 2 * (|s.flat| - s.resIndex) + 2
    case Sent(_) => 2 * (|s.flat| - s.resIndex) + 2
    case Answered => 2 * (|s.flat| - s.resIndex) + 1
    case Ended => 0
  }

  lemma {:induction false} Ends(s: System, n: nat)
    requires Consistent(s) && n >= Left(s)
    ensures After(s, n).wire.Ended?
    decreases n
  {
    if n > 0 {
      StepKeeps(s);
      Ends(Step(s), n - 1);
    }
  }

  /** Every stream ends, after two turns for each change and two more, with the receiver knowing
      the list as sent exactly if every type and state fits the one octet it travels in. */
  lemma WholeListArrives(flat: seq<Record>, n: nat)
    requires n >= 2 * |flat| + 2
    ensures var s := After(Start(flat), n);
            && s.wire.Ended? && s.count == |flat| % 0x1_0000_0000 && |s.cfgRes| == |flat|
            && (s.cfgRes == flat <==> forall i :: 0 <= i < |flat| ==> FitsChar(flat[i].nodeType) && FitsChar(flat[i].nodeState))
  {
    assert flat[..0] == [];
    EveryRun(Start(flat), n);
    Ends(Start(flat), n);
    var s := After(Start(flat), n);
    assert flat[..|flat|] == flat;
    forall i | 0 <= i < |flat|
      ensures s.cfgRes[i] == flat[i] <==> FitsChar(flat[i].nodeType) && FitsChar(flat[i].nodeState)
    {
      CharRoundTrip(flat[i].nodeType);
      CharRoundTrip(flat[i].nodeState);
    }
  }
}
