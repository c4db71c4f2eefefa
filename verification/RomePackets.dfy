/** Command packets of bluetooth/libbt-vendor/src/hw_rome.c and how a firmware file is cut into them,
    against a decoder of HCI command packets (UART transport, volume 4, part A, section 2; HCI
    command packet, volume 4, part E, section 5.4.1 of the Bluetooth Core Specification 5.2). */
module RomePackets {
  import opened Collections
  import opened Words
  import opened Memory

  const HCI_MAX_CMD_SIZE := 260
  const EDL_PATCH_DLD_REQ_CMD: byte := 0x01
  const EDL_PATCH_TLV_REQ_CMD: byte := 0x1E
  const EDL_PATCH_SET_REQ_CMD: byte := 0x16
  const PATCH_HDR_LEN := 28

  /** Opcode 0xFC00: vendor group 0x3F, command 0. */
  const VENDOR_OPCODE: nat := 0xFC00

  // ----- what a controller reads -----

  /** Opcode and parameters of a packet whose length byte matches its content. */
  function ParseCommand(pkt: seq<byte>): Option<(nat, seq<byte>)> {
    if |pkt| >= 4 && pkt[0] == 0x01 && |pkt| - 4 == pkt[3]
    then Some(((pkt[1] as int) + 256 * (pkt[2] as int), pkt[4..])) else None
  }

  /** The file bytes in a TLV download command. */
  function TlvPayload(pkt: seq<byte>): Option<seq<byte>> {
    match ParseCommand(pkt)
    case Some((op, ps)) =>
      if op == VENDOR_OPCODE && |ps| >= 2 && ps[0] == EDL_PATCH_TLV_REQ_CMD && |ps| - 2 == ps[1]
      then Some(ps[2..]) else None
    case None => None
  }

  function LittleEndian(s: seq<byte>): nat {
    if s == [] then 0 else (s[0] as int) + 256 * LittleEndian(s[1..])
  }

  /** Load address and bytes in a rampatch download command. */
  function LoadPayload(pkt: seq<byte>): Option<(nat, seq<byte>)> {
    match ParseCommand(pkt)
    case Some((op, ps)) =>
      if op == VENDOR_OPCODE && |ps| >= 6 && ps[0] == EDL_PATCH_DLD_REQ_CMD && |ps| - 2 == ps[1]
      then Some((LittleEndian(ps[2..6]), ps[6..])) else None
    case None => None
  }

  /** The file that a sequence of TLV commands carries. */
  function Received(pkts: seq<seq<byte>>): Option<seq<byte>> {
    if pkts == [] then Some([]) else
      match (Received(pkts[..|pkts| - 1]), TlvPayload(pkts[|pkts| - 1]))
      case (Some(f), Some(d)) => Some(f + d)
      case _ => None
  }

  /** The bytes that a sequence of load commands places in one contiguous stretch of the 32-bit
      address space from `base`; no value if a command leaves a gap or overlaps. */
  function Loaded(base: nat, pkts: seq<seq<byte>>): Option<seq<byte>> {
    if pkts == [] then Some([]) else
      match (Loaded(base, pkts[..|pkts| - 1]), LoadPayload(pkts[|pkts| - 1]))
      case (Some(f), Some((addr, d))) => if addr == Wrap32(base + |f|) then Some(f + d) else None
      case _ => None
  }

  // ----- the packets -----

  function TlvPacket(seg: seq<byte>): (p: seq<byte>)
    requires |seg| <= 243
    ensures |p| == 6 + |seg| <= HCI_MAX_CMD_SIZE
  {
    [0x01, 0x00, 0xFC, |seg| + 2, EDL_PATCH_TLV_REQ_CMD, |seg|] + seg
  }

  /** The `n` low bytes of `a`, lowest first. */
  function LowBytes(a: nat, n: nat): (r: seq<byte>)
    ensures |r| == n
  {
    if n == 0 then [] else [a % 256] + LowBytes(a / 256, n - 1)
  }

  function AddressBytes(a: nat): (r: seq<byte>)
    ensures |r| == 4
  {
    LowBytes(a, 4)
  }

  function LoadPacket(addr: nat, seg: seq<byte>): (p: seq<byte>)
    requires |seg| <= 239
    ensures |p| == 10 + |seg| <= HCI_MAX_CMD_SIZE
  {
    [0x01, 0x00, 0xFC, |seg| + 6, EDL_PATCH_DLD_REQ_CMD, |seg| + 4] + AddressBytes(addr) + seg
  }

  /** Every TLV packet decodes to its segment. */
  lemma TlvRoundTrip(seg: seq<byte>)
    requires |seg| <= 243
    ensures TlvPayload(TlvPacket(seg)) == Some(seg)
  {}

  function Pow256(n: nat): nat {
    if n == 0 then 1 else 256 * Pow256(n - 1)
  }

  lemma {:induction false} LowBytesRoundTrip(a: nat, n: nat)
    requires a < Pow256(n)
    ensures LittleEndian(LowBytes(a, n)) == a
  {
    if n == 0 {
    } else {
      LowBytesRoundTrip(a / 256, n - 1);
      assert LowBytes(a, n)[1..] == LowBytes(a / 256, n - 1);
    }
  }

  lemma AddressRoundTrip(a: nat)
    requires a < TWO32
    ensures LittleEndian(AddressBytes(a)) == a
  {
    assert Pow256(4) == TWO32 by { assert Pow256(2) == 0x1_0000; }
    LowBytesRoundTrip(a, 4);
  }

  lemma LoadRoundTrip(addr: nat, seg: seq<byte>)
    requires |seg| <= 239 && addr < TWO32
    ensures LoadPayload(LoadPacket(addr, seg)) == Some((addr, seg))
  {
    var p := LoadPacket(addr, seg);
    var ps := p[4..];
    assert ParseCommand(p) == Some((VENDOR_OPCODE, ps));
    assert ps[0] == EDL_PATCH_DLD_REQ_CMD && ps[1] == |seg| + 4 && |ps| == |seg| + 6;
    var ab := AddressBytes(addr);
    assert p[6..10] == ab && p[10..] == seg;
    assert ps[2..6] == p[6..10] && ps[6..] == p[10..];
    AddressRoundTrip(addr);
  }

  // ----- segmentation -----

  /** Whole segments of `max` bytes, then what is left, if anything is. */
  function Segments(f: seq<byte>, max: nat): (r: seq<seq<byte>>)
    requires max > 0
    ensures forall i :: 0 <= i < |r| ==> 0 < |r[i]| <= max
  {
    if f == [] then [] else if |f| <= max then [f] else [f[..max]] + Segments(f[max..], max)
  }

  function TlvPackets(segs: seq<seq<byte>>): (r: seq<seq<byte>>)
    requires forall i :: 0 <= i < |segs| ==> |segs[i]| <= 243
    ensures |r| == |segs|
  {
    seq(|segs|, i requires 0 <= i < |segs| => TlvPacket(segs[i]))
  }

  lemma {:induction false} FlattenSegments(f: seq<byte>, max: nat)
    requires max > 0
    ensures Flatten(Segments(f, max)) == f
  {
    if |f| > max {
      FlattenSegments(f[max..], max);
      var rest := Segments(f[max..], max);
      assert ([f[..max]] + rest)[1..] == rest;
    } else if f != [] {
      assert Flatten([f]) == f + Flatten([]);
    }
  }

  lemma {:induction false} ReceivedFlatten(segs: seq<seq<byte>>)
    requires forall i :: 0 <= i < |segs| ==> |segs[i]| <= 243
    ensures Received(TlvPackets(segs)) == Some(Flatten(segs))
  {
    if segs == [] {
    } else {
      var n := |segs| - 1;
      ReceivedFlatten(segs[..n]);
      assert TlvPackets(segs)[..n] == TlvPackets(segs[..n]);
      TlvRoundTrip(segs[n]);
      FlattenSnoc(segs[..n], segs[n]);
      assert segs[..n] + [segs[n]] == segs;
    }
  }

  /** Nothing is lost, whatever the size of the file: the TLV packets carry exactly the file. */
  lemma TlvLossless(f: seq<byte>)
    ensures Received(TlvPackets(Segments(f, 243))) == Some(f)
  {
    FlattenSegments(f, 243);
    ReceivedFlatten(Segments(f, 243));
  }

  /** All segments but the last are full. */
  lemma {:induction false} SegmentsAt(f: seq<byte>, max: nat, i: nat)
    requires max > 0 && i < |Segments(f, max)|
    ensures Scale(i, max) <= |f| && Scale(i, max) + |Segments(f, max)[i]| <= |f|
    ensures Segments(f, max)[i] == f[Scale(i, max)..Scale(i, max) + |Segments(f, max)[i]|]
    ensures i + 1 < |Segments(f, max)| ==> |Segments(f, max)[i]| == max
    ensures i + 1 == |Segments(f, max)| ==> Scale(i, max) + |Segments(f, max)[i]| == |f|
  {
    if |f| <= max || i == 0 {
    } else {
      SegmentsAt(f[max..], max, i - 1);
    }
  }

  /** How many segments there are: as many full ones as fit, and one more if something is left. */
  lemma {:induction false} SegmentsCount(f: seq<byte>, max: nat, full: nat, rest: nat)
    requires max > 0 && |f| == Scale(full, max) + rest && rest < max
    ensures |Segments(f, max)| == full + if rest > 0 then 1 else 0
  {
    if full == 0 {
    } else {
      SegmentsCount(f[max..], max, full - 1, rest);
    }
  }

  lemma SegmentsUnfold(f: seq<byte>, max: nat)
    requires max > 0 && f != []
    ensures Segments(f, max) == if |f| <= max then [f] else [f[..max]] + Segments(f[max..], max)
  {}

  /** Segment `i` as the download loop addresses it. */
  lemma {:induction false} SegmentIs(f: seq<byte>, max: nat, full: nat, rest: nat, i: nat)
    requires max > 0 && |f| == Scale(full, max) + rest && rest < max
    requires i < full + if rest > 0 then 1 else 0
    ensures i < |Segments(f, max)| && Scale(i, max) + (if i < full then max else rest) <= |f|
    ensures Segments(f, max)[i] == f[Scale(i, max)..Scale(i, max) + (if i < full then max else rest)]
  {
    hide Segments, Scale;
    var n := if i < full then max else rest;
    ScaleStep(full, max);
    ScaleStep(i, max);
    SegmentsUnfold(f, max);
    if i == 0 {
      assert Segments(f, max)[0] == f[0..n];
    } else {
      var g := f[max..];
      SegmentIs(g, max, full - 1, rest, i - 1);
      var lo := Scale(i - 1, max);
      assert |f| > max && Segments(f, max)[i] == Segments(g, max)[i - 1];
      assert g[lo..lo + n] == f[max + lo..max + lo + n];
    }
  }

  /** Load commands for successive segments of at most 239 bytes. */
  function LoadPackets(base: nat, segs: seq<seq<byte>>): (r: seq<seq<byte>>)
    requires forall i :: 0 <= i < |segs| ==> |segs[i]| <= 239
    ensures |r| == |segs|
  {
    seq(|segs|, i requires 0 <= i < |segs| => LoadPacket(Wrap32(base + Scale(i, 239)), segs[i]))
  }

  lemma {:induction false} FlattenFull(segs: seq<seq<byte>>)
    requires forall i :: 0 <= i < |segs| ==> |segs[i]| == 239
    ensures |Flatten(segs)| == Scale(|segs|, 239)
  {
    if segs == [] {
    } else {
      FlattenFull(segs[1..]);
    }
  }

  lemma {:induction false} LoadedFlatten(base: nat, segs: seq<seq<byte>>)
    requires forall i :: 0 <= i < |segs| ==> |segs[i]| <= 239
    requires forall i :: 0 <= i < |segs| - 1 ==> |segs[i]| == 239
    ensures Loaded(base, LoadPackets(base, segs)) == Some(Flatten(segs))
  {
    hide LoadPayload, LoadPacket, Scale, Wrap32;
    if segs == [] {
    } else {
      var n := |segs| - 1;
      var front, last := segs[..n], segs[n];
      LoadedFlatten(base, front);
      FlattenFull(front);
      assert LoadPackets(base, segs)[..n] == LoadPackets(base, front);
      assert LoadPackets(base, segs)[n] == LoadPacket(Wrap32(base + Scale(n, 239)), last);
      LoadRoundTrip(Wrap32(base + Scale(n, 239)), last);
      FlattenSnoc(front, last);
      assert front + [last] == segs;
    }
  }

  /** Nothing is lost of a rampatch either: its commands fill one contiguous stretch of memory from
      the base address with exactly the patch. */
  lemma RampatchLossless(base: nat, f: seq<byte>)
    ensures Loaded(base, LoadPackets(base, Segments(f, 239))) == Some(f)
  {
    var segs := Segments(f, 239);
    forall i | 0 <= i < |segs| - 1
      ensures |segs[i]| == 239
    {
      SegmentsAt(f, 239, i);
    }
    LoadedFlatten(base, segs);
    FlattenSegments(f, 239);
  }

  // ----- framing in place -----

  /** The four low bytes as the framing code extracts them. */
  lemma ExtractedBytes(a: nat)
    ensures AddressBytes(a) == [a % 256, (a / 0x100) % 256, (a / 0x1_0000) % 256, (a / 0x100_0000) % 256]
  {
    var b := a / 256;
    var c := b / 256;
    var d := c / 256;
    assert c == a / 0x1_0000 && d == a / 0x100_0000;
    assert LowBytes(d, 1) == [d % 256] + LowBytes(d / 256, 0);
    assert LowBytes(c, 2) == [c % 256] + LowBytes(d, 1);
    assert LowBytes(b, 3) == [b % 256] + LowBytes(c, 2);
  }

  /** Which segment of the file a download command takes. */
  function SegmentOffset(edlCmd: byte, segtNo: nat): nat {
    if edlCmd == EDL_PATCH_DLD_REQ_CMD then (if segtNo == 0 then 0 else Scale(segtNo - 1, 239))
    else if edlCmd == EDL_PATCH_TLV_REQ_CMD then Scale(segtNo, 243)
    else 0
  }

  /** The header that every command starts with. */
  method FrameHeader(cmd: array<byte>, edlCmd: byte, plen: byte)
    requires cmd.Length == HCI_MAX_CMD_SIZE
    modifies cmd
    ensures cmd[..5] == [0x01, 0x00, 0xFC, plen, edlCmd]
  {
    cmd[0], cmd[1], cmd[2], cmd[3], cmd[4] := 0x01, 0x00, 0xFC, plen, edlCmd;
  }

  method FrameLoad(cmd: array<byte>, addr: nat, seg: seq<byte>)
    requires cmd.Length == HCI_MAX_CMD_SIZE && |seg| <= 239
    modifies cmd
    ensures cmd[..10 + |seg|] == LoadPacket(addr, seg)
  {
    FrameHeader(cmd, EDL_PATCH_DLD_REQ_CMD, |seg| + 6);
    cmd[5] := |seg| + 4;
    cmd[6], cmd[7], cmd[8], cmd[9] := addr % 256, (addr / 0x100) % 256, (addr / 0x1_0000) % 256, (addr / 0x100_0000) % 256;
    ExtractedBytes(addr);
    assert cmd[..10] == cmd[..5] + [cmd[5]] + AddressBytes(addr);
    Memcpy(cmd, 10, seg);
  }

  method FrameTlv(cmd: array<byte>, seg: seq<byte>)
    requires cmd.Length == HCI_MAX_CMD_SIZE && |seg| <= 243
    modifies cmd
    ensures cmd[..6 + |seg|] == TlvPacket(seg)
  {
    FrameHeader(cmd, EDL_PATCH_TLV_REQ_CMD, |seg| + 2);
    cmd[5] := |seg|;
    assert cmd[..6] == cmd[..5] + [cmd[5]];
    Memcpy(cmd, 6, seg);
  }

  /** `frame_hci_cmd_pkt`: the packet for a command, in the first bytes of the command buffer. */
  method FrameHciCmdPkt(cmd: array<byte>, edlCmd: byte, baseAddr: nat, segtNo: nat, size: nat,
                        phdr: seq<byte>, pdata: seq<byte>)
    requires cmd.Length == HCI_MAX_CMD_SIZE && size < 256
    requires edlCmd == EDL_PATCH_DLD_REQ_CMD ==>
               segtNo >= 1 && size <= 239 && SegmentOffset(edlCmd, segtNo) + size <= |pdata|
    requires edlCmd == EDL_PATCH_TLV_REQ_CMD ==> size <= 243 && SegmentOffset(edlCmd, segtNo) + size <= |pdata|
    requires edlCmd == EDL_PATCH_SET_REQ_CMD ==> |phdr| == PATCH_HDR_LEN
    modifies cmd
    ensures edlCmd == EDL_PATCH_DLD_REQ_CMD ==>
              var off := SegmentOffset(edlCmd, segtNo);
              cmd[..10 + size] == LoadPacket(Wrap32(baseAddr + off), pdata[off..off + size])
    ensures edlCmd == EDL_PATCH_TLV_REQ_CMD ==>
              var off := SegmentOffset(edlCmd, segtNo);
              cmd[..6 + size] == TlvPacket(pdata[off..off + size])
    ensures edlCmd == EDL_PATCH_SET_REQ_CMD ==> cmd[5..33] == phdr
    ensures edlCmd != EDL_PATCH_DLD_REQ_CMD && edlCmd != EDL_PATCH_TLV_REQ_CMD ==>
              cmd[..5] == [0x01, 0x00, 0xFC, size, edlCmd]
  {
    Memcpy(cmd, 0, seq(HCI_MAX_CMD_SIZE, _ => 0));
    var off := SegmentOffset(edlCmd, segtNo);
    if edlCmd == EDL_PATCH_DLD_REQ_CMD {
      FrameLoad(cmd, Wrap32(baseAddr + off), pdata[off..off + size]);
    } else if edlCmd == EDL_PATCH_TLV_REQ_CMD {
      FrameTlv(cmd, pdata[off..off + size]);
    } else {
      FrameHeader(cmd, edlCmd, size);
      if edlCmd == EDL_PATCH_SET_REQ_CMD {
        Memcpy(cmd, 5, phdr);
      }
    }
  }
}
