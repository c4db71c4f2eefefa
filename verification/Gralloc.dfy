/** Preview buffers passed between the camera and a display window: `QCameraGrallocMemory` of
    camera/QCamera2/HAL/QCameraMem.cpp. */
module Gralloc {
  import opened Collections

  const MM_CAMERA_MAX_NUM_FRAMES := 16

  // ----- who has which buffer -----

  predicate Distinct(hs: seq<int>) {
    forall i, j :: 0 <= i < j < |hs| ==> hs[i] != hs[j]
  }

  /** The handles whose flag is `mine`. */
  function Flagged(fs: seq<bool>, hs: seq<int>, mine: bool): set<int>
    requires |fs| == |hs|
  {
    set i | 0 <= i < |hs| && fs[i] == mine :: hs[i]
  }

  /** The flags say exactly who holds each buffer. */
  ghost predicate Matches(fs: seq<bool>, hs: seq<int>, lent: set<int>, held: set<int>) {
    && |fs| == |hs| && Distinct(hs)
    && lent == Flagged(fs, hs, true) && held == Flagged(fs, hs, false)
  }

  /** Clearing a flag hands the buffer over. */
  lemma Give(fs: seq<bool>, hs: seq<int>, lent: set<int>, held: set<int>, i: nat)
    requires Matches(fs, hs, lent, held) && i < |hs| && fs[i]
    ensures hs[i] in lent && Matches(fs[i := false], hs, lent - {hs[i]}, held + {hs[i]})
  {}

  /** Setting a flag takes it. */
  lemma Take(fs: seq<bool>, hs: seq<int>, lent: set<int>, held: set<int>, i: nat)
    requires Matches(fs, hs, lent, held) && i < |hs| && !fs[i]
    ensures hs[i] in held && Matches(fs[i := true], hs, lent + {hs[i]}, held - {hs[i]})
  {}

  // ----- the window -----

  /** How many of the requests to come are granted in a row. */
  function Granted(will: seq<bool>): nat {
    if will == [] || !will[0] then 0 else 1 + Granted(will[1..])
  }

  function Later(will: seq<bool>): seq<bool> {
    if will == [] then [] else will[1..]
  }

  lemma Inhabited(s: set<int>)
    ensures s == {} || exists x :: x in s
  {
    if forall x :: x !in s {
      assert s == {};
    }
  }

  /** A window: what it holds, what it has lent, and which of the requests to come it will grant. It
      lends only what it holds. */
  class Window {
    var held: set<int>
    var lent: set<int>
    var will: seq<bool>

    constructor (will: seq<bool>)
      ensures held == {} && lent == {} && this.will == will
    {
      held, lent, this.will := {}, {}, will;
    }

    /** A query or a setting. */
    method Ask() returns (ok: bool)
      modifies this`will
      ensures ok == (Granted(old(will)) > 0) && will == Later(old(will))
    {
      ok := will != [] && will[0];
      will := Later(will);
    }

    /** Buffers for a new stream. */
    method SetBufferCount(n: nat) returns (ok: bool)
      modifies this`held, this`will
      ensures ok == (Granted(old(will)) > 0) && will == Later(old(will))
      ensures ok ==> |held| == n
      ensures !ok ==> held == old(held)
    {
      ok := Ask();
      if ok {
        Names(n);
        var pool: set<int> :| |pool| == n;
        held := pool;
      }
    }

    /** Lends one of its buffers, whichever it likes. */
    method Dequeue() returns (h: Option<int>)
      modifies this
      ensures will == Later(old(will))
      ensures h.Some? <==> Granted(old(will)) > 0 && old(held) != {}
      ensures h.None? ==> held == old(held) && lent == old(lent)
      ensures h.Some? ==> h.value in old(held) && held == old(held) - {h.value} && lent == old(lent) + {h.value}
    {
      var ok := Ask();
      h := None;
      Inhabited(held);
      if ok && held != {} {
        var x :| x in held;
        held, lent, h := held - {x}, lent + {x}, Some(x);
      }
    }

    method Enqueue(h: int) returns (ok: bool)
      requires h in lent
      modifies this
      ensures ok == (Granted(old(will)) > 0) && will == Later(old(will))
      ensures ok ==> held == old(held) + {h} && lent == old(lent) - {h}
      ensures !ok ==> held == old(held) && lent == old(lent)
    {
      ok := Ask();
      if ok {
        held, lent := held + {h}, lent - {h};
      }
    }

    method Cancel(h: int)
      requires h in lent
      modifies this`held, this`lent
      ensures held == old(held) + {h} && lent == old(lent) - {h}
    {
      held, lent := held + {h}, lent - {h};
    }
  }

  function UpTo(n: nat): set<int> {
    if n == 0 then {} else UpTo(n - 1) + {n - 1}
  }

  lemma {:induction false} Names(n: nat)
    ensures |UpTo(n)| == n && forall x :: x in UpTo(n) ==> x < n
  {
    if n == 0 {
    } else {
      Names(n - 1);
    }
  }

  // ----- the camera side -----

  function Elems(hs: seq<int>): set<int> {
    set h | h in hs
  }

  lemma ElemsHead(hs: seq<int>)
    requires hs != [] && Distinct(hs)
    ensures hs[0] in Elems(hs) && Elems(hs[1..]) == Elems(hs) - {hs[0]} && Distinct(hs[1..])
  {}

  /** All buffers in hand. */
  lemma AllMine(fs: seq<bool>, hs: seq<int>)
    requires |fs| == |hs| && Distinct(hs) && forall i :: 0 <= i < |fs| ==> fs[i]
    ensures Matches(fs, hs, Elems(hs), {})
  {}

  lemma {:induction false} DistinctCount(hs: seq<int>)
    requires Distinct(hs)
    ensures |Elems(hs)| == |hs|
  {
    if hs == [] {
      NoElems();
    } else {
      ElemsHead(hs);
      DistinctCount(hs[1..]);
    }
  }

  /** Every buffer is with exactly one side. */
  lemma Partition(fs: seq<bool>, hs: seq<int>, lent: set<int>, held: set<int>)
    requires Matches(fs, hs, lent, held)
    ensures lent !! held && |lent| + |held| == |hs|
  {
    forall h
      ensures h in Elems(hs) <==> h in lent + held
    {
      if h in hs {
        var j :| 0 <= j < |hs| && hs[j] == h;
        assert fs[j] ==> h in lent;
        assert !fs[j] ==> h in held;
      }
    }
    assert Elems(hs) == lent + held;
    DistinctCount(hs);
  }

  /** How an allocation ends. */
  datatype Status = Done | NoWindow | SetupFailed | DequeueFailed(at: nat) | IonFailed(at: nat)

  /** The outcome of an allocation of `n` buffers, when the window grants the next `grants` requests, of
      which four come before the buffers, and the descriptors of the first `good` buffers work. */
  function Outcome(grants: nat, good: nat, n: nat): Status {
    if grants < 4 then SetupFailed
    else if grants - 4 < n && grants - 4 <= good then DequeueFailed(grants - 4)
    else if good < n then IonFailed(good)
    else Done
  }

  /** An allocation succeeds if and only if the window grants everything and every descriptor works. */
  lemma DoneExactly(grants: nat, good: nat, n: nat)
    ensures Outcome(grants, good, n) == Done <==> grants >= 4 + n && good >= n
  {}

  /** Both kinds of remains occur: with five grants for two buffers or more, a first descriptor that
      fails leaves a buffer, and one that works leaves itself. */
  lemma RemainsOccur(n: nat, good: nat)
    requires n >= 2
    ensures Outcome(Granted([true, true, true, true, true]), good, n) == if good == 0 then IonFailed(0) else DequeueFailed(1)
  {
    var will := [true, true, true, true, true];
    assert will[1..] == [true, true, true, true] && will[1..][1..] == [true, true, true];
    assert Granted([true, true, true]) == 3 by { assert [true, true, true][1..] == [true, true] && [true, true][1..] == [true]; }
  }

  lemma GrantedLater(will: seq<bool>)
    ensures Granted(will) > 0 ==> Granted(Later(will)) == Granted(will) - 1
  {}

  /** What `displayBuffer` returns. */
  datatype Shown = Index(value: nat) | BadIndex | InvalidOperation

  class Memory {
    const window: Window?
    const handles: array<int>
    const flags: array<bool>
    var bufferCount: nat
    var minUndequeued: nat
    var ion: nat

    constructor (window: Window?)
      ensures this.window == window && Shaped() && bufferCount == 0 && ion == 0
      ensures fresh(handles) && fresh(flags)
    {
      this.window := window;
      handles := new int[MM_CAMERA_MAX_NUM_FRAMES](_ => -1);
      flags := new bool[MM_CAMERA_MAX_NUM_FRAMES](_ => false);
      bufferCount, minUndequeued, ion := 0, 0, 0;
    }

    ghost predicate Shaped()
      reads this
    {
      && flags.Length == handles.Length == MM_CAMERA_MAX_NUM_FRAMES
      && bufferCount <= MM_CAMERA_MAX_NUM_FRAMES
    }

    /** Nothing is allocated: no buffer lent to us, no descriptor open. */
    ghost predicate Idle()
      reads this, window
    {
      Shaped() && bufferCount == 0 && ion == 0 && (window != null ==> window.lent == {})
    }

    /** The flags say exactly who holds each of our buffers, and each has its descriptor. */
    ghost predicate Live()
      reads this, window, flags, handles
    {
      && Shaped() && window != null && ion == bufferCount
      && Matches(flags[..bufferCount], handles[..bufferCount], window.lent, window.held)
    }

    /** Between them, the camera and the window have all buffers, each once. */
    lemma LiveCount()
      requires Live()
      ensures window != null && window.lent !! window.held && |window.lent| + |window.held| == bufferCount
    {
      Partition(flags[..bufferCount], handles[..bufferCount], window.lent, window.held);
    }

    /** The loop in each of the failure branches: gives back the first `cnt` buffers. */
    method CancelFirst(cnt: nat, ghost hs: seq<int>, ghost extra: set<int>)
      requires Shaped() && window != null && cnt == |hs| <= MM_CAMERA_MAX_NUM_FRAMES
      requires hs == handles[..cnt] && Distinct(hs) && Elems(hs) !! extra
      requires forall i :: 0 <= i < cnt ==> flags[i]
      requires window.lent == Elems(hs) + extra
      modifies window, handles, flags
      ensures window.lent == extra
      ensures forall i :: 0 <= i < cnt ==> !flags[i] && handles[i] == -1
      ensures forall i :: cnt <= i < MM_CAMERA_MAX_NUM_FRAMES ==> flags[i] == old(flags[i]) && handles[i] == old(handles[i])
    {
      hide Distinct, Elems;
      assert hs[0..] == hs;
      for i := 0 to cnt
        invariant window.lent == Elems(hs[i..]) + extra && Distinct(hs[i..]) && Elems(hs[i..]) !! extra
        invariant forall j :: 0 <= j < i ==> !flags[j] && handles[j] == -1
        invariant forall j :: i <= j < cnt ==> flags[j] && handles[j] == hs[j]
        invariant forall j :: cnt <= j < MM_CAMERA_MAX_NUM_FRAMES ==> flags[j] == old(flags[j]) && handles[j] == old(handles[j])
      {
        ElemsHead(hs[i..]);
        assert hs[i..][1..] == hs[i + 1..];
        if flags[i] {
          window.Cancel(handles[i]);
        }
        flags[i] := false;
        handles[i] := -1;
      }
      assert hs[cnt..] == [];
      NoElems();
    }

    /** The part of the loop of `allocate` that takes buffer `cnt` and opens its descriptor, which
        works for the first `good` buffers. */
    method TakeOne(cnt: nat, good: nat, ghost hs: seq<int>) returns (r: Status)
      requires Shaped() && window != null && cnt == |hs| < MM_CAMERA_MAX_NUM_FRAMES && ion == cnt && bufferCount == 0
      requires hs == handles[..cnt] && Distinct(hs) && window.lent == Elems(hs) && window.lent !! window.held
      requires (forall i :: 0 <= i < cnt ==> flags[i]) && window.held != {}
      modifies this`ion, window, handles, flags
      ensures r == if Granted(old(window.will)) == 0 then DequeueFailed(cnt) else if cnt >= good then IonFailed(cnt) else Done
      ensures r == Done ==>
                && hs == handles[..cnt] && Distinct(handles[..cnt + 1]) && ion == cnt + 1
                && window.lent == Elems(handles[..cnt + 1]) && window.lent !! window.held
                && |window.held| == |old(window.held)| - 1 && window.will == Later(old(window.will))
                && forall i :: 0 <= i <= cnt ==> flags[i]
      ensures r.DequeueFailed? ==> window.lent == {} && ion == cnt
      ensures r.IonFailed? ==> window.lent == {handles[cnt]} && flags[cnt] && ion == 0
    {
      hide Distinct, Elems, Granted;
      var h := window.Dequeue();
      if h.None? {
        flags[cnt] := false;
        CancelFirst(cnt, hs, {});
        return DequeueFailed(cnt);
      }
      handles[cnt], flags[cnt] := h.value, true;
      assert handles[..cnt] == hs && handles[..cnt + 1] == hs + [h.value];
      FreshHandle(hs, h.value);
      if cnt >= good {
        CancelFirst(cnt, hs, {h.value});
        ion := 0;
        return IonFailed(cnt);
      }
      ion := ion + 1;
      return Done;
    }

    /** The queries and settings before the buffers are taken. */
    method Prepare(count: nat, min: nat) returns (ok: bool)
      requires Shaped() && window != null
      modifies this`minUndequeued, window`held, window`will
      ensures ok == (Granted(old(window.will)) >= 4)
      ensures ok ==> minUndequeued == min && |window.held| == count + min
      ensures ok ==> Granted(window.will) == Granted(old(window.will)) - 4
    {
      ok := window.Ask();
      if !ok {
        return;
      }
      minUndequeued := min;
      ok := window.SetBufferCount(count + min);
      if !ok {
        return;
      }
      ok := window.Ask();
      if !ok {
        return;
      }
      ok := window.Ask();
    }

    /** `allocate`. `min` is the number of buffers that the window wants to keep; descriptors can be
        opened and imported for the first `good` buffers.

        A failed allocation leaves things as they were if and only if not even the first buffer was
        granted. Otherwise a failing descriptor leaves its buffer with us, and a refused buffer leaves
        the descriptors of the earlier ones open. */
    method Allocate(count: nat, min: nat, good: nat) returns (r: Status)
      requires Idle() && count + min <= MM_CAMERA_MAX_NUM_FRAMES
      modifies this, window, handles, flags
      ensures r == if window == null then NoWindow else Outcome(Granted(old(window.will)), good, count + min)
      ensures r == Done ==> Live() && bufferCount == count + min && minUndequeued == min && JustAllocated()
      ensures r != Done ==> Shaped() && bufferCount == 0
      ensures r != Done ==> (Idle() <==> window == null || Granted(old(window.will)) < 5)
      ensures r.IonFailed? ==> window != null && |window.lent| == 1 && ion == 0
      ensures r.DequeueFailed? ==> window != null && window.lent == {} && ion == r.at
    {
      hide Distinct, Elems, Granted;
      if window == null {
        return NoWindow;
      }
      ghost var total, grants := count + min, Granted(window.will);
      var ok := Prepare(count, min);
      if !ok {
        return SetupFailed;
      }
      r := Done;
      assert handles[..0] == [];
      NoElems();
      NoneDistinct();
      for cnt := 0 to count + min
        invariant Shaped() && bufferCount == 0 && minUndequeued == min && ion == cnt && r == Done
        invariant Distinct(handles[..cnt]) && window.lent == Elems(handles[..cnt]) && window.lent !! window.held
        invariant |window.held| == total - cnt && cnt <= good && Granted(window.will) == grants - 4 - cnt
        invariant forall i :: 0 <= i < cnt ==> flags[i]
      {
        GrantedLater(window.will);
        r := TakeOne(cnt, good, handles[..cnt]);
        if r != Done {
          return;
        }
      }
      bufferCount := count + min;
      KeepMinimum(min);
    }

    /** Gives the first buffers back after a successful allocation. */
    method KeepMinimum(min: nat)
      requires Shaped() && window != null && ion == bufferCount && min <= bufferCount && minUndequeued == min
      requires Distinct(handles[..bufferCount]) && window.lent == Elems(handles[..bufferCount]) && window.held == {}
      requires forall i :: 0 <= i < bufferCount ==> flags[i]
      modifies window, flags
      ensures Live() && JustAllocated()
    {
      hide Distinct, Elems, Flagged, Matches;
      ghost var n, hs := bufferCount, handles[..bufferCount];
      AllMine(flags[..n], hs);
      for i := 0 to min
        invariant Matches(flags[..n], hs, window.lent, window.held)
        invariant forall j :: 0 <= j < n ==> flags[j] == (j >= i)
      {
        Give(flags[..n], hs, window.lent, window.held, i);
        ghost var fs := flags[..n];
        window.Cancel(handles[i]);
        flags[i] := false;
        assert flags[..n] == fs[i := false];
      }
    }

    /** Every buffer but the ones kept by the window is ours. */
    ghost predicate JustAllocated()
      requires Shaped()
      reads this, flags
    {
      forall i :: 0 <= i < bufferCount ==> flags[i] == (i >= minUndequeued)
    }

    /** `deallocate`. Every buffer goes back if and only if the window is still attached or there is none
        to give back. */
    method Deallocate(attached: bool)
      requires Live()
      modifies this, window, flags
      ensures Shaped() && bufferCount == 0 && ion == 0 && window != null
      ensures forall i :: 0 <= i < old(bufferCount) ==> !flags[i]
      ensures Idle() <==> attached || old(window.lent) == {}
      ensures if attached then window.lent == {} && window.held == old(window.held) + old(window.lent)
              else window.lent == old(window.lent) && window.held == old(window.held)
    {
      hide Distinct, Flagged, Matches;
      ghost var n, hs, lent, held := bufferCount, handles[..bufferCount], window.lent, window.held;
      for cnt := 0 to bufferCount
        invariant Shaped() && bufferCount == n && ion == n - cnt && window.held + window.lent == held + lent
        invariant attached ==> Matches(flags[..n], hs, window.lent, window.held)
        invariant !attached ==> window.lent == lent && window.held == held
        invariant forall i :: 0 <= i < cnt ==> !flags[i]
      {
        ion := ion - 1;
        ghost var fs := flags[..n];
        if flags[cnt] && attached {
          Give(fs, hs, window.lent, window.held, cnt);
          window.Cancel(handles[cnt]);
        }
        flags[cnt] := false;
        assert flags[..n] == fs[cnt := false];
        assert !fs[cnt] ==> fs[cnt := false] == fs;
      }
      if attached {
        NothingMine(flags[..n], hs, window.lent, window.held);
      }
      bufferCount := 0;
    }

    /** `getRegFlags`: right after an allocation these are the flags of the buffers in our hands. */
    method GetRegFlags(reg: array<int>)
      requires Shaped() && reg.Length >= bufferCount && reg.Length >= minUndequeued
      modifies reg
      ensures forall i :: 0 <= i < bufferCount ==> reg[i] == if i < minUndequeued then 0 else 1
      ensures JustAllocated() ==> forall i :: 0 <= i < bufferCount ==> (reg[i] == 1 <==> flags[i])
    {
      var i := 0;
      while i < minUndequeued
        invariant i <= minUndequeued && forall j :: 0 <= j < i ==> reg[j] == 0
      {
        reg[i] := 0;
        i := i + 1;
      }
      while i < bufferCount
        invariant minUndequeued <= i <= reg.Length && forall j :: 0 <= j < minUndequeued ==> reg[j] == 0
        invariant forall j :: minUndequeued <= j < i ==> reg[j] == 1
      {
        reg[i] := 1;
        i := i + 1;
      }
    }

    /** The search for a buffer that the window gave back. */
    method Recover(h: int, ghost lent: set<int>, ghost held: set<int>) returns (i: nat)
      requires Shaped() && window != null && ion == bufferCount
      requires Matches(flags[..bufferCount], handles[..bufferCount], lent, held) && h in held
      requires window.lent == lent + {h} && window.held == held - {h}
      modifies flags
      ensures Live() && i < bufferCount && flags[i] && handles[i] == h
      ensures |window.lent| == |lent| + 1
    {
      hide Distinct;
      ghost var hs, fs := handles[..bufferCount], flags[..bufferCount];
      HeldHasIndex(fs, hs, lent, held, h);
      i := 0;
      while i < bufferCount && handles[i] != h
        invariant i <= bufferCount && forall j :: 0 <= j < i ==> hs[j] != h
      {
        i := i + 1;
      }
      Take(fs, hs, lent, held, i);
      flags[i] := true;
      assert flags[..bufferCount] == fs[i := true];
    }

    /** `displayBuffer`: gives one buffer to the display, takes one back if there is one. `enqueued`
        says whether the window accepted the first. */
    method DisplayBuffer(index: nat) returns (r: Shown, ghost enqueued: bool)
      requires Live() && index < bufferCount
      modifies window, flags
      ensures Live()
      ensures enqueued == (old(flags[index]) && Granted(old(window.will)) > 0)
      ensures r == InvalidOperation <==> !old(flags[index])
      ensures r.Index? <==> old(flags[index]) && Granted(Later(old(window.will))) > 0 && (enqueued || old(window.held) != {})
      ensures r.Index? ==> r.value < bufferCount && flags[r.value] && handles[r.value] in window.lent
      ensures window.lent == old(window.lent) - (if enqueued then {handles[index]} else {})
                             + if r.Index? then {handles[r.value]} else {}
      ensures enqueued && r.Index? ==> |window.lent| == |old(window.lent)|
    {
      hide Distinct, Flagged, Matches, Granted, Later;
      enqueued := false;
      if !flags[index] {
        return InvalidOperation, false;
      }
      ghost var n := bufferCount;
      ghost var hs, fs, lent0 := handles[..n], flags[..n], window.lent;
      Give(fs, hs, window.lent, window.held, index);
      var ok := window.Enqueue(handles[index]);
      if ok {
        enqueued := true;
        flags[index] := false;
        fs := fs[index := false];
        assert flags[..n] == fs;
      }
      ghost var lent1, held1 := window.lent, window.held;
      var h := window.Dequeue();
      r := BadIndex;
      if h.Some? {
        var i := Recover(h.value, lent1, held1);
        r := Index(i);
      }
    }
  }

  lemma HeldHasIndex(fs: seq<bool>, hs: seq<int>, lent: set<int>, held: set<int>, h: int)
    requires Matches(fs, hs, lent, held) && h in held
    ensures h !in lent && h in hs
    ensures forall i :: 0 <= i < |hs| && hs[i] == h ==> !fs[i]
  {}

  /** Every run: an allocation, any displays of any buffers, and a deallocation. When the allocation
      succeeds, every buffer is with exactly one side all along, and in the end every buffer is back with
      the window and every descriptor is closed. */
  method Session(m: Memory, count: nat, min: nat, good: nat, shows: seq<nat>) returns (r: Status)
    requires m.Idle() && count + min <= MM_CAMERA_MAX_NUM_FRAMES
    requires forall i :: 0 <= i < |shows| ==> shows[i] < count + min
    modifies m, m.window, m.handles, m.flags
    ensures r == if m.window == null then NoWindow else Outcome(Granted(old(m.window.will)), good, count + min)
    ensures r == Done ==> m.Idle() && m.window != null && |m.window.held| == count + min
  {
    hide Memory.Live, Memory.Idle, Memory.JustAllocated;
    r := m.Allocate(count, min, good);
    if r != Done {
      return;
    }
    m.LiveCount();
    for i := 0 to |shows|
      invariant m.Live() && m.bufferCount == count + min && m.window != null
      invariant |m.window.lent| + |m.window.held| == count + min
    {
      ghost var enqueued;
      var index;
      index, enqueued := m.DisplayBuffer(shows[i]);
      m.LiveCount();
    }
    m.LiveCount();
    m.Deallocate(true);
  }

  lemma FreshHandle(hs: seq<int>, h: int)
    requires Distinct(hs) && h !in Elems(hs)
    ensures Distinct(hs + [h]) && Elems(hs + [h]) == Elems(hs) + {h} && Elems(hs) !! {h}
  {}

  lemma NoneDistinct()
    ensures Distinct([])
  {}

  lemma NothingMine(fs: seq<bool>, hs: seq<int>, lent: set<int>, held: set<int>)
    requires Matches(fs, hs, lent, held) && forall i :: 0 <= i < |fs| ==> !fs[i]
    ensures lent == {}
  {}

  lemma NoElems()
    ensures Elems([]) == {}
  {}
}
