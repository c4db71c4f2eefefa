/** The TLV and rampatch downloads of bluetooth/libbt-vendor/src/hw_rome.c: which acknowledgements the
    host waits for after each segment, against the rules for what the controller sends. */
module RomeDownload {
  import opened Collections
  import opened Words
  import opened RomePackets
  import Ev = RomeEvents

  const ROME_VER_1_1 := 0x0101_0000
  const ROME_VER_3_2 := 0x0302_0044
  const SKIP_NONE := 0
  const SKIP_VSE_CC := 3

  /** Chip version, whether the file is a patch or NVM data, and the event mode in its header. */
  datatype Config = Config(ver: nat, patch: bool, mode: nat)

  /** Whether a vendor event and whether a command complete event belong to a segment. */
  datatype Waits = Waits(vse: bool, cce: bool)

  // ----- the controller's rules, as the source's comments give them -----

  /** NVM files: both events for every segment. Patches from 1.1 on: a vendor event for every segment
      and a command complete event for all but the last. Patches on 3.2 whose header asks for it: no
      command complete events, and a vendor event for the last segment only. */
  function Emits(c: Config, last: bool): Waits {
    if !c.patch then Waits(true, true)
    else if c.ver == ROME_VER_3_2 && c.mode == SKIP_VSE_CC then Waits(last, false)
    else Waits(true, !last)
  }

  /** The event modes that the code handles. */
  predicate KnownMode(c: Config) {
    !c.patch || c.mode == SKIP_NONE || c.mode == SKIP_VSE_CC
  }

  /** The combinations that it handles and has rules for. */
  predicate Known(c: Config) {
    KnownMode(c) && (!c.patch || ROME_VER_1_1 <= c.ver <= ROME_VER_3_2)
  }

  /** The combinations it gets right. */
  predicate Supported(c: Config) {
    !c.patch || (ROME_VER_1_1 <= c.ver < ROME_VER_3_2 && c.mode == SKIP_NONE)
    || (c.ver == ROME_VER_3_2 && (c.mode == SKIP_NONE || c.mode == SKIP_VSE_CC))
  }

  // ----- the host's flags -----

  function Initial(c: Config): Waits {
    if c.patch && c.mode == SKIP_VSE_CC then Waits(false, false) else Waits(true, true)
  }

  /** The flags once the last full segment, or the remainder, is next; `more` says whether another
      segment follows. */
  function Adjusted(c: Config, w: Waits, more: bool): Waits {
    if c.patch && ROME_VER_1_1 <= c.ver < ROME_VER_3_2 then w.(cce := more)
    else if c.patch && c.ver == ROME_VER_3_2 then
      if c.mode == SKIP_NONE then w.(cce := more)
      else if c.mode == SKIP_VSE_CC then w.(vse := !more) else w
    else w
  }

  /** The flags after `i` whole segments. */
  function FlagsAfter(c: Config, full: nat, rest: nat, i: nat): Waits {
    if 0 < i == full then Adjusted(c, Initial(c), rest > 0) else Initial(c)
  }

  /** The flags in force for segment `i` of a file of `full` whole segments and `rest` more bytes. */
  function Plan(c: Config, full: nat, rest: nat, i: nat): Waits {
    if i + 1 < full then Initial(c)
    else if i + 1 == full then Adjusted(c, Initial(c), rest > 0)
    else Adjusted(c, FlagsAfter(c, full, rest, full), rest == 0)
  }

  /** For a patch of a version that the rules do not name, the flags stay as the event mode set them. */
  lemma OtherVersionPlan(c: Config, full: nat, rest: nat, i: nat)
    requires KnownMode(c) && c.patch && (c.ver < ROME_VER_1_1 || c.ver > ROME_VER_3_2)
    ensures Plan(c, full, rest, i) == if c.mode == SKIP_NONE then Waits(true, true) else Waits(false, false)
  {}

  /** The flags follow the plan. */
  lemma PlanFlags(c: Config, full: nat, rest: nat, i: nat)
    ensures FlagsAfter(c, full, rest, 0) == Initial(c)
    ensures i < full ==>
              FlagsAfter(c, full, rest, i + 1) == Plan(c, full, rest, i)
              == if i + 1 == full then Adjusted(c, FlagsAfter(c, full, rest, i), rest > 0) else FlagsAfter(c, full, rest, i)
    ensures i == full ==> Plan(c, full, rest, i) == Adjusted(c, FlagsAfter(c, full, rest, i), rest == 0)
  {}

  function Count(full: nat, rest: nat): nat {
    full + if rest > 0 then 1 else 0
  }

  /** The host waits for exactly the events that the controller sends, segment by segment, if and
      only if the combination is supported. */
  lemma PlanMatches(c: Config, full: nat, rest: nat)
    requires Known(c) && Count(full, rest) > 0
    ensures Supported(c) <==>
            forall i: nat :: i < Count(full, rest) ==> Plan(c, full, rest, i) == Emits(c, i + 1 == Count(full, rest))
  {
    if !Supported(c) {
      assert Plan(c, full, rest, 0) != Emits(c, 1 == Count(full, rest));
    }
  }

  // ----- what the controller answers -----

  /** The events for one segment: any number of stray vendor events before the acknowledging one,
      and a command complete event. */
  datatype Answer = Answer(strays: seq<seq<byte>>, ack: seq<byte>, complete: seq<byte>)

  ghost predicate WellFormed(a: Answer) {
    && (forall i :: 0 <= i < |a.strays| ==> Ev.IsStrayEvent(a.strays[i]))
    && Ev.IsAck(a.ack) && Ev.IsEvent(a.complete, 0x0E)
  }

  function AnswerBytes(a: Answer, w: Waits): seq<byte> {
    (if w.vse then Flatten(a.strays) + a.ack else []) + if w.cce then a.complete else []
  }

  /** The controller's script for a whole download. */
  ghost predicate Obeys(script: seq<seq<byte>>, c: Config, answers: seq<Answer>) {
    && |script| == |answers|
    && (forall i :: 0 <= i < |answers| ==> WellFormed(answers[i]))
    && (forall i :: 0 <= i < |script| ==> script[i] == AnswerBytes(answers[i], Emits(c, i + 1 == |script|)))
  }

  // ----- the stream during a download -----

  /** Result and remaining stream of the wait for a command complete event; any event will do. */
  function Completed(rx: seq<byte>, cce: bool): (bool, seq<byte>) {
    if !cce then (true, rx)
    else match Ev.NextEvent(rx)
      case None => (false, [])
      case Some((_, rest)) => (true, rest)
  }

  /** Result and remaining stream of the waits after one command. */
  function Answered(rx: seq<byte>, w: Waits, pending: bool, short: bool): (bool, seq<byte>) {
    if !w.vse then Completed(rx, w.cce)
    else
      var rest := Ev.VsRest(rx, pending, short);
      if Ev.VsAccepts(rx, pending) then Completed(rest, w.cce) else (false, rest)
  }

  /** What a run of commands starts from and waits for: unread bytes, the controller's script, the
      waits of each command, and whether strays are passed over. */
  datatype Dialogue = Dialogue(rx: seq<byte>, script: seq<seq<byte>>, plan: seq<Waits>, pending: bool)

  function ScriptAt(script: seq<seq<byte>>, i: nat): seq<byte> {
    if i < |script| then script[i] else []
  }

  function Remaining(script: seq<seq<byte>>, n: nat): seq<seq<byte>> {
    if n < |script| then script[n..] else []
  }

  /** Whether the first `n` commands were all answered, and the stream behind the last one that was
      sent. `shorts` says how the header of an unexpected event was split. */
  function Talk(d: Dialogue, n: nat, shorts: seq<bool>): (bool, seq<byte>)
    requires n <= |d.plan| && n <= |shorts|
  {
    if n == 0 then (true, d.rx) else
      var t := Talk(d, n - 1, shorts);
      if !t.0 then t else Answered(t.1 + ScriptAt(d.script, n - 1), d.plan[n - 1], d.pending, shorts[n - 1])
  }

  lemma {:induction false} TalkExtends(d: Dialogue, n: nat, shorts: seq<bool>, short: bool)
    requires n <= |d.plan| && n <= |shorts|
    ensures Talk(d, n, shorts + [short]) == Talk(d, n, shorts)
  {
    if n == 0 {
    } else {
      TalkExtends(d, n - 1, shorts, short);
    }
  }

  /** One more command. */
  lemma TalkNext(d: Dialogue, n: nat, shorts: seq<bool>, short: bool)
    requires n < |d.plan| && n == |shorts| && Talk(d, n, shorts).0
    ensures Talk(d, n + 1, shorts + [short])
            == Answered(Talk(d, n, shorts).1 + ScriptAt(d.script, n), d.plan[n], d.pending, short)
  {
    TalkExtends(d, n, shorts, short);
  }

  /** If the answer holds exactly the awaited events, they are all read. */
  lemma AnsweredExactly(a: Answer, w: Waits, pending: bool, short: bool)
    requires WellFormed(a) && (pending || a.strays == [])
    ensures Answered(AnswerBytes(a, w), w, pending, short) == (true, [])
  {
    hide Ev.VsAccepts, Ev.VsRest, Ev.NextEvent;
    var rest := if w.cce then a.complete else [];
    Ev.StraysThenEvent(a.strays, a.ack, rest, pending, short);
    Ev.NextIsFirst(a.complete, 0x0E, []);
    assert a.complete + [] == a.complete;
    assert !w.vse ==> AnswerBytes(a, w) == rest;
  }

  /** A script that answers the plan is read to the end. */
  lemma {:induction false} TalkMatched(d: Dialogue, answers: seq<Answer>, n: nat, shorts: seq<bool>)
    requires n <= |d.plan| && n <= |shorts| && n <= |answers| && n <= |d.script| && d.rx == []
    requires forall i :: 0 <= i < n ==> WellFormed(answers[i]) && (d.pending || answers[i].strays == [])
    requires forall i :: 0 <= i < n ==> d.script[i] == AnswerBytes(answers[i], d.plan[i])
    ensures Talk(d, n, shorts) == (true, [])
  {
    hide AnswerBytes, WellFormed, Answered;
    if n == 0 {
    } else {
      TalkMatched(d, answers, n - 1, shorts);
      AnsweredExactly(answers[n - 1], d.plan[n - 1], d.pending, shorts[n - 1]);
      assert [] + d.script[n - 1] == d.script[n - 1];
    }
  }

  // ----- a refusal -----

  /** An answer that refuses a segment: nothing, or a vendor event that is no stray and has a non-zero
      status. */
  ghost predicate Refuses(bytes: seq<byte>) {
    bytes == [] || exists n :: 3 <= n <= |bytes| && RefusingEvent(bytes[..n])
  }

  predicate RefusingEvent(e: seq<byte>) {
    Ev.IsEvent(e, Ev.VSEVENT_CODE) && !Ev.IsStray(e) && Ev.Status(e) != 0
  }

  /** An awaited vendor event refuses or does not come, or an awaited completion does not come. */
  ghost predicate Fails(bytes: seq<byte>, w: Waits) {
    (w.vse && Refuses(bytes)) || (w.cce && bytes == [])
  }

  lemma RefusalFails(bytes: seq<byte>, w: Waits, pending: bool, short: bool)
    requires Fails(bytes, w)
    ensures !Answered(bytes, w, pending, short).0
  {
    if bytes != [] {
      var n :| 3 <= n <= |bytes| && RefusingEvent(bytes[..n]);
      Ev.NextIsFirst(bytes[..n], Ev.VSEVENT_CODE, bytes[n..]);
      assert bytes == bytes[..n] + bytes[n..];
    }
  }

  /** The first `k` commands are answered as planned, and the next is refused or not answered. */
  ghost predicate RefusedAt(d: Dialogue, answers: seq<Answer>, k: nat) {
    && d.rx == [] && k < |d.plan| && k <= |answers| && k <= |d.script|
    && (forall i :: 0 <= i < k ==> WellFormed(answers[i]) && (d.pending || answers[i].strays == []))
    && (forall i :: 0 <= i < k ==> d.script[i] == AnswerBytes(answers[i], d.plan[i]))
    && Fails(ScriptAt(d.script, k), d.plan[k])
  }

  lemma {:induction false} TalkGoneWrong(d: Dialogue, m: nat, n: nat, shorts: seq<bool>)
    requires m <= n <= |d.plan| && n <= |shorts| && !Talk(d, m, shorts).0
    ensures !Talk(d, n, shorts).0
  {
    if m == n {
    } else {
      TalkGoneWrong(d, m, n - 1, shorts);
    }
  }

  /** The host stops exactly there: the dialogue fails with the refused command and not before. */
  lemma StopsAt(d: Dialogue, answers: seq<Answer>, k: nat, n: nat, shorts: seq<bool>)
    requires RefusedAt(d, answers, k) && n <= |d.plan| && n <= |shorts|
    ensures Talk(d, n, shorts).0 <==> n <= k
  {
    hide AnswerBytes, WellFormed, Answered, Fails;
    if n <= k {
      TalkMatched(d, answers, n, shorts);
    } else {
      TalkMatched(d, answers, k, shorts);
      RefusalFails(ScriptAt(d.script, k), d.plan[k], d.pending, shorts[k]);
      assert [] + ScriptAt(d.script, k) == ScriptAt(d.script, k);
      TalkGoneWrong(d, k + 1, n, shorts);
    }
  }

  /** So exactly `k + 1` packets are sent, and the download fails. */
  lemma RefusalStops(link: Ev.Link, d: Dialogue, sent: seq<seq<byte>>, pkts: seq<seq<byte>>, n: nat, shorts: seq<bool>,
                     ok: bool, answers: seq<Answer>)
    requires Sent(link, d, sent, pkts, n, shorts, ok) && (n == |pkts| || !ok)
    ensures forall k: nat :: RefusedAt(d, answers, k) ==> !ok && n == k + 1
  {
    hide RefusedAt, Talk;
    forall k: nat | RefusedAt(d, answers, k)
      ensures !ok && n == k + 1
    {
      StopsAt(d, answers, k, n, shorts);
      StopsAt(d, answers, k, n - 1, shorts);
      RefusedWithin(d, answers, k);
    }
  }

  lemma RefusedWithin(d: Dialogue, answers: seq<Answer>, k: nat)
    requires RefusedAt(d, answers, k)
    ensures k < |d.plan|
  {}

  // ----- a TLV download against the rules -----

  /** The waits of all segments. */
  ghost function PlanOf(c: Config, full: nat, rest: nat): (r: seq<Waits>)
    ensures |r| == Count(full, rest)
    ensures forall i :: 0 <= i < |r| ==> r[i] == Plan(c, full, rest, i)
  {
    seq(Count(full, rest), i requires 0 <= i => Plan(c, full, rest, i))
  }

  /** What the dialogue of a TLV download consists of. */
  ghost function TlvDialogue(c: Config, rx: seq<byte>, script: seq<seq<byte>>, full: nat, rest: nat): Dialogue {
    Dialogue(rx, script, PlanOf(c, full, rest), true)
  }

  /** A supported combination: after every segment all events so far have been read. */
  lemma SupportedTalk(c: Config, script: seq<seq<byte>>, answers: seq<Answer>, full: nat, rest: nat, n: nat, shorts: seq<bool>)
    requires Supported(c) && Obeys(script, c, answers) && |script| == Count(full, rest)
    requires n <= |script| && n <= |shorts|
    ensures Talk(TlvDialogue(c, [], script, full, rest), n, shorts) == (true, [])
  {
    hide Talk, AnswerBytes, WellFormed, Plan, Emits;
    var d := TlvDialogue(c, [], script, full, rest);
    if n > 0 {
      PlanMatches(c, full, rest);
    }
    TalkMatched(d, answers, n, shorts);
  }

  /** The plan for a patch that skips events on an older chip: at most one wait, for a command complete
      event, and not after the last segment. */
  lemma SkippingPlan(c: Config, full: nat, rest: nat, i: nat)
    requires Known(c) && !Supported(c) && i < Count(full, rest)
    ensures Plan(c, full, rest, i) == Waits(false, i + 1 == full && rest > 0)
    ensures Emits(c, i + 1 == Count(full, rest)) == Waits(true, i + 1 < Count(full, rest))
  {}

  /** A vendor answer starts with a whole event. */
  lemma StartsWithEvent(a: Answer, more: seq<byte>)
    requires WellFormed(a)
    ensures Ev.NextEvent(Flatten(a.strays) + a.ack + more).Some?
  {
    hide Ev.NextEvent;
    if a.strays == [] {
      Ev.NextIsFirst(a.ack, Ev.VSEVENT_CODE, more);
      assert Flatten(a.strays) + a.ack + more == a.ack + more;
    } else {
      var behind := Flatten(a.strays[1..]) + a.ack + more;
      Ev.NextIsFirst(a.strays[0], Ev.VSEVENT_CODE, behind);
      assert Flatten(a.strays) + a.ack + more == a.strays[0] + behind;
    }
  }

  /** The answers to the first `n` segments. */
  lemma ScriptStarts(c: Config, script: seq<seq<byte>>, answers: seq<Answer>, full: nat, rest: nat, n: nat)
    requires Known(c) && !Supported(c) && Obeys(script, c, answers) && |script| == Count(full, rest) && 0 < n <= |script|
    ensures Ev.NextEvent(Flatten(script[..n])).Some?
    ensures script[n - 1] != []
  {
    hide Ev.NextEvent, Plan, Emits, Supported, Known;
    SkippingPlan(c, full, rest, 0);
    SkippingPlan(c, full, rest, n - 1);
    var a, w := answers[0], Emits(c, 1 == |script|);
    var tail := if w.cce then a.complete else [];
    assert script[0] == Flatten(a.strays) + a.ack + tail;
    assert script[..n][0] == script[0];
    var more := tail + Flatten(script[..n][1..]);
    StartsWithEvent(a, more);
    assert Flatten(script[..n]) == Flatten(a.strays) + a.ack + more;
    assert script[n - 1] == AnswerBytes(answers[n - 1], Emits(c, n == |script|));
    assert |answers[n - 1].ack| >= 3;
  }

  /** An unsupported combination: no read fails, and the events pile up. */
  lemma {:induction false} SkippingTalk(c: Config, script: seq<seq<byte>>, answers: seq<Answer>, full: nat, rest: nat,
                                        n: nat, shorts: seq<bool>)
    requires Known(c) && !Supported(c) && Obeys(script, c, answers) && |script| == Count(full, rest)
    requires n <= |script| && n <= |shorts|
    ensures var t := Talk(TlvDialogue(c, [], script, full, rest), n, shorts);
            && t.0 && (n < full || rest == 0 ==> t.1 == Flatten(script[..n]))
            && (0 < n == |script| ==> t.1 != [])
  {
    hide Obeys, Known, Supported, Plan, Emits, Ev.NextEvent;
    if n == 0 {
      assert script[..0] == [];
    } else {
      SkippingTalk(c, script, answers, full, rest, n - 1, shorts);
      SkippingPlan(c, full, rest, n - 1);
      ScriptStarts(c, script, answers, full, rest, n);
      FlattenSnoc(script[..n - 1], script[n - 1]);
      assert script[..n - 1] + [script[n - 1]] == script[..n];
    }
  }

  /** The host reads exactly the events that an obeying controller sends, without missing one and
      without leaving one, if and only if the combination is supported. Otherwise the download goes
      through all the same and leaves events unread. */
  lemma ReadsExactly(c: Config, script: seq<seq<byte>>, answers: seq<Answer>, full: nat, rest: nat, n: nat, shorts: seq<bool>)
    requires Known(c) && Obeys(script, c, answers) && |script| == Count(full, rest) && n <= |script| && n <= |shorts|
    ensures var t := Talk(TlvDialogue(c, [], script, full, rest), n, shorts);
            t.0 && (0 < n == |script| ==> (t.1 == [] <==> Supported(c)))
  {
    hide Talk, Obeys, Known, Supported;
    if Supported(c) {
      SupportedTalk(c, script, answers, full, rest, n, shorts);
    } else {
      SkippingTalk(c, script, answers, full, rest, n, shorts);
    }
  }

  /** A version 1.1 chip, a one-segment patch that asks to skip events: whatever the chip answers is left
      unread. */
  lemma OldChipSkipping(a: Answer, short: bool)
    ensures var c := Config(ROME_VER_1_1, true, SKIP_VSE_CC);
            && Known(c) && !Supported(c)
            && Talk(TlvDialogue(c, [], [AnswerBytes(a, Emits(c, true))], 0, 1), 1, [short])
               == (true, Flatten(a.strays) + a.ack)
  {
    var c := Config(ROME_VER_1_1, true, SKIP_VSE_CC);
    var d := TlvDialogue(c, [], [AnswerBytes(a, Emits(c, true))], 0, 1);
    assert Talk(d, 0, [short]) == (true, []);
    assert d.plan[0] == Waits(false, false);
    assert [] + d.script[0] == Flatten(a.strays) + a.ack;
  }

  // ----- files -----

  /** The packets of a TLV file. */
  function TlvFile(file: seq<byte>): seq<seq<byte>> {
    TlvPackets(Segments(file, 243))
  }

  /** The packets of a rampatch. */
  function LoadFile(base: nat, patch: seq<byte>): seq<seq<byte>> {
    LoadPackets(base, Segments(patch, 239))
  }

  predicate Cut(file: seq<byte>, max: nat, full: nat, rest: nat) {
    |file| == Scale(full, max) + rest && rest < max
  }

  lemma CutOf(file: seq<byte>, max: nat)
    requires max > 0
    ensures Cut(file, max, |file| / max, |file| % max)
  {
    DivMod(|file|, max);
    ScaleIsProduct(|file| / max, max);
  }

  /** The link after `n` packets of `pkts`, all answered. */
  ghost predicate Through(link: Ev.Link, d: Dialogue, sent: seq<seq<byte>>, pkts: seq<seq<byte>>, n: nat, shorts: seq<bool>)
    reads link
  {
    && n == |shorts| <= |pkts| == |d.plan|
    && link.sent == sent + pkts[..n] && link.script == Remaining(d.script, n)
    && (true, link.rx) == Talk(d, n, shorts)
  }

  /** The link after `n` packets, the last of them with result `ok`. */
  ghost predicate Sent(link: Ev.Link, d: Dialogue, sent: seq<seq<byte>>, pkts: seq<seq<byte>>, n: nat, shorts: seq<bool>, ok: bool)
    reads link
  {
    && 0 < n == |shorts| <= |pkts| == |d.plan|
    && link.sent == sent + pkts[..n] && link.script == Remaining(d.script, n)
    && Talk(d, n - 1, shorts).0 && (ok, link.rx) == Talk(d, n, shorts)
  }

  // ----- the host -----

  class Host {
    var waitVsc: bool
    var pending: bool
    const cfg: Config

    constructor (cfg: Config)
      ensures this.cfg == cfg && waitVsc && !pending
    {
      this.cfg := cfg;
      waitVsc, pending := true, false;
    }

    /** `hci_send_vs_cmd` and the wait for a command complete event behind it: result and remaining
        stream are a function of what has arrived and, after an event of another kind, of how its header
        was split. */
    method SendAndWait(link: Ev.Link, pkt: seq<byte>, waitCc: bool) returns (ok: bool, ghost short: bool)
      modifies link
      ensures link.sent == old(link.sent) + [pkt] && link.script == Remaining(old(link.script), 1)
      ensures (ok, link.rx)
           == Answered(old(link.rx) + ScriptAt(old(link.script), 0), Waits(waitVsc, waitCc), pending, short)
      ensures var arrived := old(link.rx) + ScriptAt(old(link.script), 0);
              ok <==>
              && (waitVsc ==> Ev.VsAccepts(arrived, pending))
              && (waitCc ==> Ev.NextEvent(if waitVsc then Ev.VsRest(arrived, pending, short) else arrived).Some?)
    {
      hide Ev.VsAccepts, Ev.VsRest, Ev.NextEvent;
      link.Send(pkt);
      assert old(link.rx) + [] == old(link.rx);
      ok, short := true, false;
      if waitVsc {
        ok, short := link.ReadVsHciEvent(pending);
        if !ok {
          return;
        }
      }
      if waitCc {
        var e;
        ok, e := link.ReadHciEvent();
      }
    }

    /** The two places that change the flags when the last segments come up. */
    method AdjustFlags(waitCc: bool, more: bool) returns (r: bool)
      modifies this`waitVsc
      ensures Waits(waitVsc, r) == Adjusted(cfg, Waits(old(waitVsc), waitCc), more)
    {
      r := waitCc;
      if ROME_VER_1_1 <= cfg.ver < ROME_VER_3_2 && cfg.patch {
        r := more;
      } else if cfg.ver == ROME_VER_3_2 && cfg.patch {
        if cfg.mode == SKIP_NONE {
          r := more;
        } else if cfg.mode == SKIP_VSE_CC {
          waitVsc := !more;
        }
      }
    }

    /** The switch on the event mode in the header of a patch. */
    method InitialFlags() returns (waitCc: bool)
      requires KnownMode(cfg)
      modifies this`waitVsc
      ensures Waits(waitVsc, waitCc) == Initial(cfg)
    {
      if cfg.patch {
        if cfg.mode == SKIP_NONE {
          waitVsc, waitCc := true, true;
        } else {
          waitVsc, waitCc := false, false;
        }
      } else {
        waitVsc, waitCc := true, true;
      }
    }

    /** `rome_tlv_dnld_segment` */
    method DownloadSegment(link: Ev.Link, file: seq<byte>, index: nat, size: nat, waitCc: bool)
      returns (ok: bool, ghost short: bool)
      requires size <= 243 && Scale(index, 243) + size <= |file|
      modifies link
      ensures link.sent == old(link.sent) + [TlvPacket(file[Scale(index, 243)..Scale(index, 243) + size])]
      ensures link.script == Remaining(old(link.script), 1)
      ensures (ok, link.rx)
           == Answered(old(link.rx) + ScriptAt(old(link.script), 0), Waits(waitVsc, waitCc), pending, short)
    {
      hide Answered, ScriptAt, Remaining;
      var cmd := new byte[HCI_MAX_CMD_SIZE];
      FrameHciCmdPkt(cmd, EDL_PATCH_TLV_REQ_CMD, 0, index, size, [], file);
      ghost var pkt := TlvPacket(file[Scale(index, 243)..Scale(index, 243) + size]);
      assert cmd[3] == cmd[..6 + size][3] == pkt[3];
      var total := 1 + 3 + cmd[3] as int;
      ok, short := SendAndWait(link, cmd[..total], waitCc);
    }

    /** One segment of the rampatch download. */
    method SendLoad(link: Ev.Link, base: nat, patch: seq<byte>, index: nat, size: nat) returns (ok: bool, ghost short: bool)
      requires index >= 1 && size <= 239 && Scale(index - 1, 239) + size <= |patch|
      modifies link
      ensures var off := Scale(index - 1, 239);
              link.sent == old(link.sent) + [LoadPacket(Wrap32(base + off), patch[off..off + size])]
      ensures link.script == Remaining(old(link.script), 1)
      ensures (ok, link.rx)
           == Answered(old(link.rx) + ScriptAt(old(link.script), 0), Waits(waitVsc, true), pending, short)
    {
      hide Answered, ScriptAt, Remaining;
      var cmd := new byte[HCI_MAX_CMD_SIZE];
      FrameHciCmdPkt(cmd, EDL_PATCH_DLD_REQ_CMD, base, index, size, [], patch);
      ghost var off := Scale(index - 1, 239);
      ghost var pkt := LoadPacket(Wrap32(base + off), patch[off..off + size]);
      assert cmd[3] == cmd[..10 + size][3] == pkt[3];
      var total := 1 + 3 + cmd[3] as int;
      ok, short := SendAndWait(link, cmd[..total], true);
    }

    /** Segment `i` of a TLV file. */
    method Advance(link: Ev.Link, file: seq<byte>, full: nat, rest: nat, i: nat, size: nat, waitCc: bool,
                   ghost d: Dialogue, ghost sent: seq<seq<byte>>, ghost shorts: seq<bool>)
      returns (ok: bool, ghost shorts': seq<bool>)
      requires Cut(file, 243, full, rest) && i < Count(full, rest) && size == (if i < full then 243 else rest)
      requires Through(link, d, sent, TlvFile(file), i, shorts) && i < |d.plan|
      requires pending == d.pending && Waits(waitVsc, waitCc) == d.plan[i]
      modifies link
      ensures Sent(link, d, sent, TlvFile(file), i + 1, shorts', ok)
      ensures ok ==> Through(link, d, sent, TlvFile(file), i + 1, shorts')
    {
      hide Answered, Talk, Segments, TlvPacket, Scale;
      SegmentIs(file, 243, full, rest, i);
      ghost var short;
      ok, short := DownloadSegment(link, file, i, size, waitCc);
      shorts' := shorts + [short];
      TalkNext(d, i, shorts, short);
      TalkExtends(d, i, shorts, short);
    }

    /** The loop of `rome_tlv_dnld_req` over the full segments. */
    method FullSegments(link: Ev.Link, file: seq<byte>, full: nat, rest: nat, waitCc0: bool,
                        ghost d: Dialogue, ghost sent: seq<seq<byte>>)
      returns (ok: bool, waitCc: bool, ghost done: nat, ghost shorts: seq<bool>)
      requires Cut(file, 243, full, rest) && d == TlvDialogue(cfg, d.rx, d.script, full, rest)
      requires Waits(waitVsc, waitCc0) == Initial(cfg) && Through(link, d, sent, TlvFile(file), 0, [])
      modifies this, link
      ensures ok ==> done == full && Through(link, d, sent, TlvFile(file), full, shorts)
      ensures ok ==> Waits(waitVsc, waitCc) == FlagsAfter(cfg, full, rest, full)
      ensures !ok ==> 0 < done <= full
      ensures done > 0 ==> Sent(link, d, sent, TlvFile(file), done, shorts, ok)
    {
      hide Through, Sent, TlvDialogue, TlvFile, Cut, Plan, FlagsAfter, Adjusted, Initial;
      PlanFlags(cfg, full, rest, 0);
      ok, waitCc, done, shorts := true, waitCc0, 0, [];
      var i := 0;
      while i < full
        invariant i <= full && done == i && ok
        invariant Through(link, d, sent, TlvFile(file), i, shorts)
        invariant i > 0 ==> Sent(link, d, sent, TlvFile(file), i, shorts, true)
        invariant Waits(waitVsc, waitCc) == FlagsAfter(cfg, full, rest, i)
      {
        PlanFlags(cfg, full, rest, i);
        PlanAt(cfg, d.rx, d.script, full, rest, i);
        if i + 1 == full {
          waitCc := AdjustFlags(waitCc, rest > 0);
        }
        pending := true;
        ok, shorts := Advance(link, file, full, rest, i, 243, waitCc, d, sent, shorts);
        pending, done := false, done + 1;
        if !ok {
          return;
        }
        i := i + 1;
      }
    }

    /** `rome_tlv_dnld_req`. It sends the first `done` packets of the file, up to the first that is not
        answered as planned. Against an obeying controller it always goes through, and leaves no event
        unread if and only if the combination is supported. */
    method DownloadTlv(link: Ev.Link, file: seq<byte>, ghost answers: seq<Answer>)
      returns (ok: bool, ghost done: nat, ghost shorts: seq<bool>)
      requires KnownMode(cfg)
      modifies this, link
      ensures !pending
      ensures file == [] ==> !ok && done == 0 && link.sent == old(link.sent) && link.rx == old(link.rx)
      ensures file != [] ==>
                && (done == |TlvFile(file)| || (done < |TlvFile(file)| && !ok))
                && Sent(link, TlvDialogue(cfg, old(link.rx), old(link.script), |file| / 243, |file| % 243),
                        old(link.sent), TlvFile(file), done, shorts, ok)
      ensures file != [] && Known(cfg) && old(link.rx) == [] && |answers| == |TlvFile(file)|
              && Obeys(old(link.script), cfg, answers) ==>
                ok && (link.rx == [] <==> Supported(cfg))
      ensures forall k: nat :: RefusedAt(TlvDialogue(cfg, old(link.rx), old(link.script), |file| / 243, |file| % 243), answers, k) ==>
                !ok && done == k + 1
    {
      hide RefusedAt, Through, Sent, Talk, TlvDialogue, TlvFile, Cut, Plan, FlagsAfter, Adjusted, Initial, Supported, Known, Obeys;
      var full := |file| / 243;
      var rest := if |file| < 243 then |file| else |file| % 243;
      ghost var rx, script, sent := link.rx, link.script, link.sent;
      ghost var d := TlvDialogue(cfg, rx, script, full, rest);
      FileCut(file, full, rest);
      PlanAt(cfg, rx, script, full, rest, 0);
      NothingSent(link, d, TlvFile(file));
      var waitCc := InitialFlags();
      ok, waitCc, done, shorts := FullSegments(link, file, full, rest, waitCc, d, sent);
      if !ok {
        pending := false;
        Verdict(cfg, d, answers, full, rest, link, sent, TlvFile(file), done, shorts, ok);
        RefusalStops(link, d, sent, TlvFile(file), done, shorts, ok, answers);
        return;
      }
      ok := full > 0;
      PlanFlags(cfg, full, rest, full);
      PlanAt(cfg, rx, script, full, rest, full);
      waitCc := AdjustFlags(waitCc, rest == 0);
      pending := true;
      if rest > 0 {
        ok, shorts := Advance(link, file, full, rest, full, rest, waitCc, d, sent, shorts);
        done := done + 1;
      }
      pending := false;
      if done > 0 {
        Verdict(cfg, d, answers, full, rest, link, sent, TlvFile(file), done, shorts, ok);
        RefusalStops(link, d, sent, TlvFile(file), done, shorts, ok, answers);
      } else {
        StillUntouched(link, d, sent, TlvFile(file), shorts);
        NothingRefused(d, answers);
      }
    }

    /** Segment `i` of a rampatch. */
    method AdvanceLoad(link: Ev.Link, base: nat, patch: seq<byte>, full: nat, rest: nat, i: nat, size: nat,
                       ghost d: Dialogue, ghost sent: seq<seq<byte>>, ghost shorts: seq<bool>)
      returns (ok: bool, ghost shorts': seq<bool>)
      requires Cut(patch, 239, full, rest) && i < Count(full, rest) && size == (if i < full then 239 else rest)
      requires Through(link, d, sent, LoadFile(base, patch), i, shorts) && i < |d.plan|
      requires pending == d.pending && Waits(waitVsc, true) == d.plan[i]
      modifies link
      ensures Sent(link, d, sent, LoadFile(base, patch), i + 1, shorts', ok)
      ensures ok ==> Through(link, d, sent, LoadFile(base, patch), i + 1, shorts')
    {
      hide Answered, Talk, Segments, LoadPacket, Scale;
      SegmentIs(patch, 239, full, rest, i);
      ghost var short;
      ok, short := SendLoad(link, base, patch, i + 1, size);
      shorts' := shorts + [short];
      TalkNext(d, i, shorts, short);
      TalkExtends(d, i, shorts, short);
    }

    /** `rome_edl_patch_download_request`: the same for the load commands of a rampatch, which are all
        followed by both waits. */
    method DownloadRampatch(link: Ev.Link, base: nat, patch: seq<byte>, ghost answers: seq<Answer>)
      returns (ok: bool, ghost done: nat, ghost shorts: seq<bool>)
      modifies link
      ensures patch == [] ==> ok && done == 0 && link.sent == old(link.sent) && link.rx == old(link.rx)
      ensures patch != [] ==>
                && (done == |LoadFile(base, patch)| || (done < |LoadFile(base, patch)| && !ok))
                && Sent(link, LoadDialogue(old(link.rx), old(link.script), waitVsc, pending, |LoadFile(base, patch)|),
                        old(link.sent), LoadFile(base, patch), done, shorts, ok)
      ensures AllAnswered(LoadDialogue(old(link.rx), old(link.script), waitVsc, pending, |LoadFile(base, patch)|), answers) ==>
                ok && link.rx == []
      ensures forall k: nat :: RefusedAt(LoadDialogue(old(link.rx), old(link.script), waitVsc, pending, |LoadFile(base, patch)|), answers, k) ==>
                !ok && done == k + 1
    {
      hide RefusedAt, Talk, Scale, LoadPackets, Segments, AllAnswered;
      var full := |patch| / 239;
      CutOf(patch, 239);
      SegmentsCount(patch, 239, full, |patch| % 239);
      ghost var n := |LoadFile(base, patch)|;
      ghost var d, sent := LoadDialogue(link.rx, link.script, waitVsc, pending, n), link.sent;
      TalkNone(d);
      done, shorts := 0, [];
      var index := 1;
      while index <= full
        invariant 1 <= index <= full + 1 && done == index - 1
        invariant Through(link, d, sent, LoadFile(base, patch), done, shorts)
        invariant done > 0 ==> Sent(link, d, sent, LoadFile(base, patch), done, shorts, true)
      {
        ok, shorts := AdvanceLoad(link, base, patch, full, |patch| % 239, index - 1, 239, d, sent, shorts);
        done := done + 1;
        if !ok {
          LoadVerdict(d, answers, done, shorts);
          RefusalStops(link, d, sent, LoadFile(base, patch), done, shorts, ok, answers);
          return;
        }
        index := index + 1;
      }
      ok := true;
      var size := if |patch| < 239 then |patch| else |patch| % 239;
      if size > 0 {
        ok, shorts := AdvanceLoad(link, base, patch, full, size, index - 1, size, d, sent, shorts);
        done := done + 1;
      }
      LoadVerdict(d, answers, done, shorts);
      if done > 0 {
        RefusalStops(link, d, sent, LoadFile(base, patch), done, shorts, ok, answers);
      } else {
        NothingRefused(d, answers);
      }
    }
  }

  lemma NothingRefused(d: Dialogue, answers: seq<Answer>)
    requires d.plan == []
    ensures forall k: nat :: !RefusedAt(d, answers, k)
  {}

  lemma TalkNone(d: Dialogue)
    ensures Talk(d, 0, []) == (true, d.rx)
  {}

  lemma NothingSent(link: Ev.Link, d: Dialogue, pkts: seq<seq<byte>>)
    requires link.rx == d.rx && link.script == d.script && |pkts| == |d.plan|
    ensures Through(link, d, link.sent, pkts, 0, [])
  {
    assert link.sent + pkts[..0] == link.sent;
  }

  lemma StillUntouched(link: Ev.Link, d: Dialogue, sent: seq<seq<byte>>, pkts: seq<seq<byte>>, shorts: seq<bool>)
    requires Through(link, d, sent, pkts, 0, shorts)
    ensures link.sent == sent && link.rx == d.rx
  {
    assert sent + pkts[..0] == sent;
  }

  lemma PlanAt(c: Config, rx: seq<byte>, script: seq<seq<byte>>, full: nat, rest: nat, i: nat)
    ensures var d := TlvDialogue(c, rx, script, full, rest);
            && d.rx == rx && d.script == script && d.pending && |d.plan| == Count(full, rest)
            && (i < |d.plan| ==> d.plan[i] == Plan(c, full, rest, i))
  {}

  /** How a file is cut. */
  lemma FileCut(file: seq<byte>, full: nat, rest: nat)
    requires full == |file| / 243 && rest == if |file| < 243 then |file| else |file| % 243
    ensures rest == |file| % 243 && Cut(file, 243, full, rest) && |TlvFile(file)| == Count(full, rest)
    ensures file == [] <==> Count(full, rest) == 0
  {
    CutOf(file, 243);
    SegmentsCount(file, 243, full, rest);
  }

  lemma Verdict(c: Config, d: Dialogue, answers: seq<Answer>, full: nat, rest: nat, link: Ev.Link,
                sent: seq<seq<byte>>, pkts: seq<seq<byte>>, n: nat, shorts: seq<bool>, ok: bool)
    requires d == TlvDialogue(c, d.rx, d.script, full, rest) && Sent(link, d, sent, pkts, n, shorts, ok)
    ensures n <= |pkts| && |pkts| == Count(full, rest)
    ensures Known(c) && d.rx == [] && |answers| == |pkts| && Obeys(d.script, c, answers) ==>
              ok && (n == |pkts| ==> (link.rx == [] <==> Supported(c)))
  {
    hide Talk, Supported, Known;
    if Known(c) && d.rx == [] && |answers| == |pkts| && Obeys(d.script, c, answers) {
      ReadsExactly(c, d.script, answers, full, rest, n, shorts);
    }
  }

  /** The dialogue of a rampatch download of `n` commands. */
  ghost function LoadDialogue(rx: seq<byte>, script: seq<seq<byte>>, vsc: bool, pending: bool, n: nat): (d: Dialogue)
    ensures |d.plan| == n
  {
    Dialogue(rx, script, seq(n, i => Waits(vsc, true)), pending)
  }

  /** Every command is answered with what it waits for; strays come only while a download counts as
      pending. */
  ghost predicate AllAnswered(d: Dialogue, answers: seq<Answer>) {
    && d.rx == [] && |d.script| == |answers| == |d.plan|
    && (forall i :: 0 <= i < |answers| ==> WellFormed(answers[i]) && (d.pending || answers[i].strays == []))
    && (forall i :: 0 <= i < |answers| ==> d.script[i] == AnswerBytes(answers[i], d.plan[i]))
  }

  lemma LoadVerdict(d: Dialogue, answers: seq<Answer>, n: nat, shorts: seq<bool>)
    requires n <= |d.plan| && n <= |shorts|
    ensures AllAnswered(d, answers) ==> Talk(d, n, shorts) == (true, [])
  {
    hide Talk, AnswerBytes, WellFormed;
    if AllAnswered(d, answers) {
      TalkMatched(d, answers, n, shorts);
    }
  }
}
