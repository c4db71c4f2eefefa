/** The byte stream from a Rome controller and the two event readers that the host uses on it:
    `read_hci_event` of bluetooth/libbt-vendor/src/hci_uart.c and `read_vs_hci_event` of
    bluetooth/libbt-vendor/src/hw_rome.c. Framing: UART packet type 0x04 (volume 4, part A, section
    2), then event code, length and parameters (volume 4, part E, section 5.4.4 of the Bluetooth Core
    Specification 5.2). */
module RomeEvents {
  import opened Collections
  import opened Words

  const HCI_EVENT_PKT: byte := 0x04
  const VSEVENT_CODE: byte := 0xFF
  const STRAY_EVT: byte := 0x17

  // ----- events in a stream -----

  /** The stream from its first packet-type byte 0x04 on. */
  function Synchronised(rx: seq<byte>): (r: seq<byte>)
    ensures |r| <= |rx|
    ensures r != [] ==> r[0] == HCI_EVENT_PKT
  {
    if rx == [] then [] else if rx[0] == HCI_EVENT_PKT then rx else Synchronised(rx[1..])
  }

  /** The next whole event and what follows it. */
  function NextEvent(rx: seq<byte>): (r: Option<(seq<byte>, seq<byte>)>)
    ensures r.Some? ==> |r.value.0| >= 3 && |r.value.1| < |rx|
  {
    var s := Synchronised(rx);
    if |s| < 3 then None else
      var n: int := s[2];
      if |s| < 3 + n then None else Some((s[..3 + n], s[3 + n..]))
  }

  /** Byte `i` of the response buffer, which is cleared before an event is read into it. */
  function At(e: seq<byte>, i: nat): byte {
    if i < |e| then e[i] else 0
  }

  /** The result of `get_vs_hci_event` for all but stray events; zero is success. */
  function Status(e: seq<byte>): int {
    match At(e, 3)
    case 0x00 => if At(e, 4) == 0x04 || At(e, 4) == 0x00 then At(e, 5) else 0
    case 0x0B => 0
    case 0x92 => if At(e, 4) != 1 then -1 else 0
    case 0x18 => 0
    case 0x19 => 0
    case 0x1B => 0
    case _ => -1
  }

  predicate IsStray(e: seq<byte>) {
    At(e, 3) == STRAY_EVT
  }

  /** Whether `read_vs_hci_event` reports success on this stream. A stray event during a download
      makes it read on, but whatever that nested read finds is ignored. */
  predicate VsAccepts(rx: seq<byte>, pending: bool) {
    match NextEvent(rx)
    case None => false
    case Some((e, _)) => e[1] == VSEVENT_CODE && if IsStray(e) then pending else Status(e) == 0
  }

  /** The stream that a vendor event read leaves behind. Strays are passed over while a download is
      pending. An event that is not there as a whole is used up. The header of an event of another kind
      is read in one piece or in two, and the reader gives up after the first: `short` says that this
      was the event code alone. */
  function VsRest(rx: seq<byte>, pending: bool, short: bool): seq<byte>
    decreases |rx|
  {
    var s := Synchronised(rx);
    if |s| < 3 then []
    else if s[1] != VSEVENT_CODE then s[if short then 2 else 3..]
    else match NextEvent(rx)
      case None => []
      case Some((e, rest)) => if IsStray(e) && pending then VsRest(rest, pending, short) else rest
  }

  /** The read comes to the header of an event of another kind. */
  predicate MeetsOther(rx: seq<byte>, pending: bool)
    decreases |rx|
  {
    var s := Synchronised(rx);
    |s| >= 3 && if s[1] != VSEVENT_CODE then true
                else match NextEvent(rx)
                  case None => false
                  case Some((e, rest)) => IsStray(e) && pending && MeetsOther(rest, pending)
  }

  /** How the bytes arrive makes a difference only then. */
  lemma {:induction false} SplitMatters(rx: seq<byte>, pending: bool)
    ensures VsRest(rx, pending, true) == VsRest(rx, pending, false) <==> !MeetsOther(rx, pending)
    decreases |rx|
  {
    var s := Synchronised(rx);
    if |s| < 3 || NextEvent(rx).None? {
    } else if s[1] != VSEVENT_CODE {
      assert |s[2..]| != |s[3..]|;
    } else {
      SplitMatters(NextEvent(rx).value.1, pending);
    }
  }

  // ----- the link -----

  /** The UART as the host sees it. After each command the controller's answer, given by `script`,
      becomes readable. */
  class Link {
    var rx: seq<byte>
    var sent: seq<seq<byte>>
    var script: seq<seq<byte>>

    constructor (script: seq<seq<byte>>)
      ensures rx == [] && sent == [] && this.script == script
    {
      rx, sent, this.script := [], [], script;
    }

    method Send(pkt: seq<byte>)
      modifies this
      ensures sent == old(sent) + [pkt]
      ensures old(script) == [] ==> rx == old(rx) && script == []
      ensures old(script) != [] ==> rx == old(rx) + old(script)[0] && script == old(script)[1..]
    {
      sent := sent + [pkt];
      if script != [] {
        rx, script := rx + script[0], script[1..];
      }
    }

    /** One `read` of at most `k` bytes. However many bytes are there, it may return fewer; it fails
        when there are none. */
    method Read(k: nat) returns (b: seq<byte>)
      requires k > 0
      modifies this`rx
      ensures |b| <= k && (b == [] <==> old(rx) == [])
      ensures |b| <= |old(rx)| && b == old(rx)[..|b|] && rx == old(rx)[|b|..]
    {
      if rx == [] {
        return [];
      }
      var n: nat :| 1 <= n <= |rx| && n <= k;
      b, rx := rx[..n], rx[n..];
    }

    /** Reads single bytes until a packet-type byte 0x04 has been read. */
    method ReadType() returns (ok: bool)
      modifies this`rx
      ensures ok <==> Synchronised(old(rx)) != []
      ensures ok ==> rx == Synchronised(old(rx))[1..]
      ensures ok ==> |rx| < |old(rx)|
      ensures !ok ==> rx == []
    {
      ghost var start := rx;
      while true
        invariant Synchronised(rx) == Synchronised(start) && |rx| <= |start|
        decreases |rx|
      {
        var b := Read(1);
        if b == [] {
          return false;
        }
        if b[0] == HCI_EVENT_PKT {
          return true;
        }
      }
    }

    /** Reads exactly `n` more bytes, in as many pieces as they come. */
    method ReadExactly(n: nat) returns (ok: bool, buf: seq<byte>)
      modifies this`rx
      ensures ok <==> |old(rx)| >= n
      ensures ok ==> buf == old(rx)[..n] && rx == old(rx)[n..]
      ensures !ok ==> rx == []
    {
      buf := [];
      ghost var start := rx;
      while |buf| < n
        invariant |buf| <= n && |buf| <= |start| && buf == start[..|buf|] && rx == start[|buf|..]
      {
        var b := Read(n - |buf|);
        if b == [] {
          return false, buf;
        }
        buf := buf + b;
      }
      return true, buf;
    }

    /** `read_hci_event`: takes the next whole event, of whatever kind, off the stream; if there is none,
        everything is used up. */
    method ReadHciEvent() returns (ok: bool, e: seq<byte>)
      modifies this`rx
      ensures ok <==> NextEvent(old(rx)).Some?
      ensures ok ==> (e, rx) == NextEvent(old(rx)).value
      ensures !ok ==> rx == []
    {
      ghost var s := Synchronised(rx);
      e := [];
      ok := ReadType();
      if !ok {
        return;
      }
      var head, params;
      ok, head := ReadExactly(2);
      if !ok {
        return;
      }
      assert head == s[1..3] && rx == s[3..];
      ok, params := ReadExactly(head[1]);
      if !ok {
        return;
      }
      e := [HCI_EVENT_PKT] + head + params;
      assert e == s[..3 + |params|] && rx == s[3 + |params|..];
    }

    /** The header of a vendor event: gives up as soon as a piece shows another event code. */
    method ReadVsHeader() returns (ok: bool, head: seq<byte>, ghost short: bool)
      modifies this`rx
      ensures ok <==> |old(rx)| >= 2 && old(rx)[0] == VSEVENT_CODE
      ensures ok ==> head == old(rx)[..2] && rx == old(rx)[2..]
      ensures !ok ==> rx == if |old(rx)| < 2 then [] else old(rx)[if short then 1 else 2..]
    {
      head, short := [], false;
      ghost var start := rx;
      while |head| < 2
        invariant |head| <= 2 && |head| <= |start| && head == start[..|head|] && rx == start[|head|..]
        invariant head != [] ==> head[0] == VSEVENT_CODE
      {
        var b := Read(2 - |head|);
        head := head + b;
        if b == [] || head[0] != VSEVENT_CODE {
          return false, head, |head| == 1;
        }
      }
      return true, head, short;
    }

    /** `read_vs_hci_event` with the stray-event case of `get_vs_hci_event`; `pending` is true while a
        patch download is under way. */
    method ReadVsHciEvent(pending: bool) returns (ok: bool, ghost short: bool)
      modifies this`rx
      ensures ok <==> VsAccepts(old(rx), pending)
      ensures rx == VsRest(old(rx), pending, short)
      decreases |rx|
    {
      ghost var s := Synchronised(rx);
      short := false;
      ok := ReadType();
      if !ok {
        return;
      }
      var head, params;
      ok, head, short := ReadVsHeader();
      if !ok {
        return;
      }
      assert head == s[1..3] && rx == s[3..];
      ok, params := ReadExactly(head[1]);
      if !ok {
        return;
      }
      var e := [HCI_EVENT_PKT] + head + params;
      assert e == s[..3 + |params|] && rx == s[3 + |params|..];
      if IsStray(e) {
        if pending {
          var ignored;
          ignored, short := ReadVsHciEvent(pending);
        }
        return pending, short;
      }
      return Status(e) == 0, short;
    }
  }

  // ----- what the controller sends -----

  /** A whole event with the given code. */
  predicate IsEvent(e: seq<byte>, code: byte) {
    |e| >= 3 && e[0] == HCI_EVENT_PKT && e[1] == code && |e| - 3 == e[2]
  }

  /** A vendor event that acknowledges a command. */
  predicate IsAck(e: seq<byte>) {
    IsEvent(e, VSEVENT_CODE) && !IsStray(e) && Status(e) == 0
  }

  predicate IsStrayEvent(e: seq<byte>) {
    IsEvent(e, VSEVENT_CODE) && IsStray(e)
  }

  lemma NextIsFirst(e: seq<byte>, code: byte, rest: seq<byte>)
    requires IsEvent(e, code)
    ensures NextEvent(e + rest) == Some((e, rest))
  {}

  /** Bytes before the packet type are passed over. */
  lemma {:induction false} SkipsNoise(noise: seq<byte>, e: seq<byte>, code: byte, rest: seq<byte>)
    requires IsEvent(e, code) && HCI_EVENT_PKT !in noise
    ensures NextEvent(noise + e + rest) == Some((e, rest))
  {
    if noise == [] {
      NextIsFirst(e, code, rest);
      assert noise + e + rest == e + rest;
    } else {
      SkipsNoise(noise[1..], e, code, rest);
      assert (noise + e + rest)[1..] == noise[1..] + e + rest;
    }
  }

  /** A vendor read takes one vendor event that is not a stray, and during a download any number of
      strays before it, and nothing more. Without strays it accepts exactly the acknowledgements; behind
      a stray it accepts whatever comes. */
  lemma {:induction false} StraysThenEvent(strays: seq<seq<byte>>, e: seq<byte>, rest: seq<byte>, pending: bool, short: bool)
    requires forall i :: 0 <= i < |strays| ==> IsStrayEvent(strays[i])
    requires IsEvent(e, VSEVENT_CODE) && !IsStray(e) && (pending || strays == [])
    ensures VsAccepts(Flatten(strays) + e + rest, pending) <==> strays != [] || Status(e) == 0
    ensures VsRest(Flatten(strays) + e + rest, pending, short) == rest
  {
    if strays == [] {
      NextIsFirst(e, VSEVENT_CODE, rest);
      assert Flatten(strays) + e + rest == e + rest;
    } else {
      var behind := Flatten(strays[1..]) + e + rest;
      assert Flatten(strays) + e + rest == strays[0] + behind;
      NextIsFirst(strays[0], VSEVENT_CODE, behind);
      StraysThenEvent(strays[1..], e, rest, pending, short);
    }
  }

  /** The first event that is not a stray acknowledges. */
  predicate Acked(rx: seq<byte>)
    decreases |rx|
  {
    match NextEvent(rx)
    case None => false
    case Some((e, rest)) => e[1] == VSEVENT_CODE && if IsStray(e) then Acked(rest) else Status(e) == 0
  }

  predicate StrayFirst(rx: seq<byte>) {
    match NextEvent(rx)
    case None => false
    case Some((e, _)) => e[1] == VSEVENT_CODE && IsStray(e)
  }

  /** For every stream during a download: the read is accepted without an acknowledgement if and only if
      the first event is a stray and no acknowledgement follows the strays. */
  lemma AcceptsExactly(rx: seq<byte>)
    ensures VsAccepts(rx, true) <==> Acked(rx) || StrayFirst(rx)
  {
    match NextEvent(rx)
    case None =>
    case Some((e, rest)) =>
      assert !IsStray(e) ==> (Acked(rx) <==> e[1] == VSEVENT_CODE && Status(e) == 0);
  }

  const POWER_APPLY: seq<byte> := [0x04, 0xFF, 0x01, 0x17]
  const REJECTION: seq<byte> := [0x04, 0xFF, 0x03, 0x00, 0x04, 0x03]

  /** A rejected segment: refused by itself, accepted behind a stray. */
  lemma StrayHidesRejection()
    ensures !VsAccepts(REJECTION, true)
    ensures VsAccepts(POWER_APPLY + REJECTION, true) && VsRest(POWER_APPLY + REJECTION, true, false) == []
  {
    StraysThenEvent([], REJECTION, [], true, false);
    StraysThenEvent([POWER_APPLY], REJECTION, [], true, false);
    assert Flatten([POWER_APPLY]) == POWER_APPLY + Flatten([]);
    assert Flatten([POWER_APPLY]) + REJECTION + [] == POWER_APPLY + REJECTION;
    assert Flatten([]) + REJECTION + [] == REJECTION;
  }
}
