/** compat-wireless/compat/kfifo.c with one producer inside `__kfifo_in` and one consumer inside
    `__kfifo_out` or `__kfifo_out_peek` at the same time and without a lock. A step reads the
    indices, copies one byte or publishes an index; steps of the two sides interleave freely and
    the bytes of a batch may be copied in any order. */
module KfifoConcurrent {
  import opened Words
  import Kfifo
  import Ring

  /** What a caller of `__kfifo_in` offers: `len` elements. */
  datatype Offered = Offered(input: seq<byte>, len: nat)

  /** An offer and how many of its elements were taken. */
  datatype Batch = Batch(offer: Offered, n: nat)

  datatype Producer =
    | Idle
    | Filling(buf: seq<byte>, n: nat, todo: set<nat>, offer: Offered)

  datatype Consumer =
    | Waiting
    | Draining(got: seq<byte>, n: nat, todo: set<nat>, peek: bool)

  /** The shared fifo, what each side is doing, and the history: the numbers of elements and the
      bytes ever published by the producer and released by the consumer, and the completed offers. */
  datatype State = State(
    k: nat, esize: nat,
    inIdx: nat, outIdx: nat, data: seq<byte>,
    producer: Producer, consumer: Consumer,
    published: nat, sent: seq<byte>, batches: seq<Batch>,
    released: nat, received: seq<byte>)

  datatype Action =
    | Offer(input: seq<byte>, len: nat)
    | PutByte(i: nat)
    | Publish
    | Request(len: nat, peek: bool)
    | GetByte(i: nat)
    | Release

  /** The byte of the buffer that byte `i` of a batch at index `idx` goes to or comes from, as the
      pair of `memcpy` calls lays it out. */
  function Slot(s: State, idx: nat, n: nat, i: nat): int {
    var off := Scale(And(idx, Pow2(s.k) - 1), s.esize);
    var l := Min(Scale(n, s.esize), |s.data| - off);
    if i < l then off + i else i - l
  }

  /** The slot of byte `j` of the whole stream, if nothing ever wrapped but the buffer. */
  function Place(s: State, j: nat): nat
    requires |s.data| > 0
  {
    Ring.Around(j, |s.data|)
  }

  function Indices(n: nat): (r: set<nat>)
    ensures forall i: nat :: i in r <==> i < n
  {
    if n == 0 then {} else Indices(n - 1) + {n - 1}
  }

  predicate Enabled(s: State, a: Action) {
    match a
    case Offer(input, len) => s.producer.Idle? && |input| == Scale(len, s.esize)
    case PutByte(i) => s.producer.Filling? && i in s.producer.todo && i < |s.producer.buf|
                       && 0 <= Slot(s, s.inIdx, s.producer.n, i) < |s.data|
    case Publish => s.producer.Filling? && s.producer.todo == {}
    case Request(_, _) => s.consumer.Waiting?
    case GetByte(i) => s.consumer.Draining? && i in s.consumer.todo && i < |s.consumer.got|
                       && 0 <= Slot(s, s.outIdx, s.consumer.n, i) < |s.data|
    case Release => s.consumer.Draining? && s.consumer.todo == {}
  }

  /** One step; an action that its side cannot take now does nothing. */
  function Step(s: State, a: Action): State {
    if !Enabled(s, a) then s else
    match a
    case Offer(input, len) =>
      var n: nat := Min(len, Wrap32(Pow2(s.k) - Wrap32(s.inIdx - s.outIdx)));
      ScaleMono(n, len, s.esize);
      s.(producer := Filling(input[..Scale(n, s.esize)], n, Indices(Scale(n, s.esize)), Offered(input, len)))
    case PutByte(i) =>
      s.(data := s.data[Slot(s, s.inIdx, s.producer.n, i) := s.producer.buf[i]],
         producer := s.producer.(todo := s.producer.todo - {i}))
    case Publish =>
      s.(inIdx := Wrap32(s.inIdx + s.producer.n), producer := Idle,
         published := s.published + s.producer.n, sent := s.sent + s.producer.buf,
         batches := s.batches + [Batch(s.producer.offer, s.producer.n)])
    case Request(len, peek) =>
      var n: nat := Min(len, Wrap32(s.inIdx - s.outIdx));
      s.(consumer := Draining(seq(Scale(n, s.esize), _ => 0), n, Indices(Scale(n, s.esize)), peek))
    case GetByte(i) =>
      s.(consumer := s.consumer.(got := s.consumer.got[i := s.data[Slot(s, s.outIdx, s.consumer.n, i)]],
                                 todo := s.consumer.todo - {i}))
    case Release =>
      if s.consumer.peek then s.(consumer := Waiting)
      else Released(s)
  }

  /** The state after the consumer has published its new index. */
  function Released(s: State): State
    requires s.consumer.Draining?
  {
    s.(outIdx := Wrap32(s.outIdx + s.consumer.n), consumer := Waiting,
       released := s.released + s.consumer.n, received := s.received + s.consumer.got)
  }

  function Exec(s: State, actions: seq<Action>): State {
    if actions == [] then s else Step(Exec(s, actions[..|actions| - 1]), actions[|actions| - 1])
  }

  ghost predicate Initial(s: State) {
    && 1 <= s.k <= 31 && s.esize > 0 && |s.data| == Scale(Pow2(s.k), s.esize) < TWO32
    && s.inIdx == s.outIdx == s.published == s.released == 0
    && s.sent == s.received == [] && s.batches == []
    && s.producer.Idle? && s.consumer.Waiting?
  }

  /** A batch is a prefix of whole elements of what its caller offered. */
  predicate Prefixed(b: Batch, e: nat) {
    b.n <= b.offer.len && |b.offer.input| == Scale(b.offer.len, e) && Scale(b.n, e) <= |b.offer.input|
  }

  /** The bytes of the elements taken from each offer, one offer after the other. */
  function Taken(bs: seq<Batch>, e: nat): seq<byte>
    requires forall i :: 0 <= i < |bs| ==> Prefixed(bs[i], e)
  {
    if bs == [] then [] else
      var b := bs[|bs| - 1];
      assert Prefixed(bs[|bs| - 1], e);
      Taken(bs[..|bs| - 1], e) + b.offer.input[..Scale(b.n, e)]
  }

  /** What was sent are prefixes of what was offered, in order; so is what is being copied. */
  ghost predicate AsOffered(s: State) {
    && (forall i :: 0 <= i < |s.batches| ==> Prefixed(s.batches[i], s.esize))
    && s.sent == Taken(s.batches, s.esize)
    && (s.producer.Filling? ==>
          && Prefixed(Batch(s.producer.offer, s.producer.n), s.esize)
          && s.producer.buf == s.producer.offer.input[..Scale(s.producer.n, s.esize)])
  }

  /** What the design promises. What was sent are prefixes of what was offered. The bytes handed to the consumer are a prefix of the bytes the
      producer supplied; a byte still to be written goes to a slot that holds no unread data; a byte
      still to be read comes from a slot that holds published data, and is the right byte; and the
      two sides never touch the same slot. */
  ghost predicate Safe(s: State) {
    && |s.data| > 0
    && AsOffered(s) && s.received <= s.sent
    && (s.producer.Filling? ==> forall i ::
          i in s.producer.todo ==>
          i < |s.producer.buf| && 0 <= Slot(s, s.inIdx, s.producer.n, i) < |s.data|)
    && (s.producer.Filling? ==> forall i, j ::
          i in s.producer.todo && |s.received| <= j < |s.sent| ==>
          Slot(s, s.inIdx, s.producer.n, i) != Place(s, j))
    && (s.consumer.Draining? ==>
          && |s.received| + |s.consumer.got| <= |s.sent|
          && (forall i :: i in s.consumer.todo ==>
                && i < |s.consumer.got|
                && 0 <= Slot(s, s.outIdx, s.consumer.n, i) < |s.data|
                && s.data[Slot(s, s.outIdx, s.consumer.n, i)] == s.sent[|s.received| + i])
          && (forall i :: 0 <= i < |s.consumer.got| && i !in s.consumer.todo ==>
                s.consumer.got[i] == s.sent[|s.received| + i]))
    && (s.producer.Filling? && s.consumer.Draining? ==> forall i, j ::
          i in s.producer.todo && j in s.consumer.todo ==>
          Slot(s, s.inIdx, s.producer.n, i) != Slot(s, s.outIdx, s.consumer.n, j))
  }

  // ----- the inductive invariant, in bytes -----

  ghost predicate Shape(s: State) {
    && 1 <= s.k <= 31 && s.esize > 0 && |s.data| == Scale(Pow2(s.k), s.esize) < TWO32
    && s.inIdx == Wrap32(s.published) && s.outIdx == Wrap32(s.released)
    && s.released <= s.published <= s.released + Pow2(s.k)
    && |s.sent| == Scale(s.published, s.esize) && |s.received| == Scale(s.released, s.esize)
    && |s.received| <= |s.sent| <= |s.received| + |s.data|
  }

  ghost predicate Stored(s: State)
    requires |s.data| > 0
  {
    && s.received <= s.sent
    && forall j :: |s.received| <= j < |s.sent| ==> s.data[Place(s, j)] == s.sent[j]
  }

  ghost predicate ProducerOk(s: State)
    requires |s.data| > 0
  {
    s.producer.Filling? ==>
      && |s.producer.buf| == Scale(s.producer.n, s.esize)
      && s.published + s.producer.n <= s.released + Pow2(s.k)
      && |s.sent| + |s.producer.buf| <= |s.received| + |s.data|
      && (forall i :: i in s.producer.todo ==> i < |s.producer.buf|)
      && (forall i :: 0 <= i < |s.producer.buf| && i !in s.producer.todo ==>
            s.data[Place(s, |s.sent| + i)] == s.producer.buf[i])
  }

  ghost predicate ConsumerOk(s: State) {
    s.consumer.Draining? ==>
      && |s.consumer.got| == Scale(s.consumer.n, s.esize)
      && s.released + s.consumer.n <= s.published
      && |s.received| + |s.consumer.got| <= |s.sent|
      && (forall i :: i in s.consumer.todo ==> i < |s.consumer.got|)
      && (forall i :: 0 <= i < |s.consumer.got| && i !in s.consumer.todo ==>
            s.consumer.got[i] == s.sent[|s.received| + i])
  }

  ghost predicate Inv(s: State) {
    Shape(s) && |s.data| > 0 && Stored(s) && ProducerOk(s) && ConsumerOk(s)
  }

  /** The two-part layout of a batch is the circular one. */
  lemma SlotIsCircular(s: State, total: nat, n: nat, i: nat)
    requires Shape(s) && n <= Pow2(s.k) && i < Scale(n, s.esize)
    ensures |s.data| > 0
    ensures Slot(s, Wrap32(total), n, i) == Ring.Around(Scale(total, s.esize) + i, |s.data|)
  {
    hide And, Scale, Wrap32, Pow2;
    var size := |s.data|;
    Kfifo.IndexPosition(total, s.k, s.esize);
    ScaleMono(n, Pow2(s.k), s.esize);
    var off := Scale(And(Wrap32(total), Pow2(s.k) - 1), s.esize);
    Ring.AroundAdd(Scale(total, s.esize), i, size);
    Ring.TwoParts(off, i, Scale(n, s.esize), size);
  }

  lemma ProducerSlot(s: State, i: nat)
    requires Inv(s) && s.producer.Filling? && i < |s.producer.buf|
    ensures Slot(s, s.inIdx, s.producer.n, i) == Place(s, |s.sent| + i)
  {
    SlotIsCircular(s, s.published, s.producer.n, i);
  }

  lemma ConsumerSlot(s: State, i: nat)
    requires Inv(s) && s.consumer.Draining? && i < |s.consumer.got|
    ensures Slot(s, s.outIdx, s.consumer.n, i) == Place(s, |s.received| + i)
  {
    SlotIsCircular(s, s.released, s.consumer.n, i);
  }

  lemma InvImpliesSafe(s: State)
    requires Inv(s) && AsOffered(s)
    ensures Safe(s)
  {
    if s.producer.Filling? {
      forall i | i in s.producer.todo
        ensures 0 <= Slot(s, s.inIdx, s.producer.n, i) < |s.data|
      {
        ProducerSlot(s, i);
      }
      forall i, j | i in s.producer.todo && |s.received| <= j < |s.sent|
        ensures Slot(s, s.inIdx, s.producer.n, i) != Place(s, j)
      {
        ProducerSlot(s, i);
        Ring.AroundDistinct(j, |s.sent| + i, |s.data|);
      }
    }
    if s.consumer.Draining? {
      forall i | i in s.consumer.todo
        ensures 0 <= Slot(s, s.outIdx, s.consumer.n, i) < |s.data|
        ensures s.data[Slot(s, s.outIdx, s.consumer.n, i)] == s.sent[|s.received| + i]
      {
        ConsumerSlot(s, i);
      }
    }
    if s.producer.Filling? && s.consumer.Draining? {
      forall i, j | i in s.producer.todo && j in s.consumer.todo
        ensures Slot(s, s.inIdx, s.producer.n, i) != Slot(s, s.outIdx, s.consumer.n, j)
      {
        ProducerSlot(s, i);
        ConsumerSlot(s, j);
        Ring.AroundDistinct(|s.received| + j, |s.sent| + i, |s.data|);
      }
    }
  }

  /** The 32-bit differences that both sides compute are the true ones. */
  lemma Backlog(s: State)
    requires Shape(s)
    ensures Wrap32(s.inIdx - s.outIdx) == s.published - s.released
    ensures Wrap32(Pow2(s.k) - Wrap32(s.inIdx - s.outIdx)) == Pow2(s.k) - (s.published - s.released)
  {
    Pow2At32();
    Pow2Mono(s.k, 31);
    WrapDifference(s.published, s.released);
    WrapSmall(s.published - s.released);
    WrapSmall(Pow2(s.k) - (s.published - s.released));
  }

  // ----- each action keeps the invariant -----

  lemma OfferKeeps(s: State, input: seq<byte>, len: nat)
    requires Inv(s) && Enabled(s, Offer(input, len))
    ensures Inv(Step(s, Offer(input, len)))
  {
    var cap := Pow2(s.k);
    Backlog(s);
    var n: nat := Min(len, cap - (s.published - s.released));
    ScaleMono(n, len, s.esize);
    OfferFits(s, n);
    var s' := Step(s, Offer(input, len));
    assert s' == s.(producer := Filling(input[..Scale(n, s.esize)], n, Indices(Scale(n, s.esize)), Offered(input, len)));
    assert Stored(s') && ConsumerOk(s');
  }

  lemma OfferFits(s: State, n: nat)
    requires Shape(s) && s.published + n <= s.released + Pow2(s.k)
    ensures |s.sent| + Scale(n, s.esize) <= |s.received| + |s.data|
  {
    ScaleAdd(s.published, n, s.esize);
    ScaleAdd(s.released, Pow2(s.k), s.esize);
    ScaleMono(s.published + n, s.released + Pow2(s.k), s.esize);
  }

  lemma PutByteKeepsStored(s: State, i: nat)
    requires Inv(s) && Enabled(s, PutByte(i))
    ensures Stored(Step(s, PutByte(i)))
  {
    var s' := Step(s, PutByte(i));
    ProducerSlot(s, i);
    forall j | |s.received| <= j < |s.sent|
      ensures s'.data[Place(s', j)] == s.sent[j]
    {
      Ring.AroundDistinct(j, |s.sent| + i, |s.data|);
    }
  }

  lemma PutByteKeepsBatch(s: State, i: nat)
    requires Inv(s) && Enabled(s, PutByte(i))
    ensures ProducerOk(Step(s, PutByte(i)))
  {
    var s' := Step(s, PutByte(i));
    ProducerSlot(s, i);
    forall h | 0 <= h < |s.producer.buf| && h !in s'.producer.todo
      ensures s'.data[Place(s', |s.sent| + h)] == s.producer.buf[h]
    {
      if h != i {
        OtherSlot(s, h, i);
      }
    }
  }

  lemma OtherSlot(s: State, h: nat, i: nat)
    requires |s.data| > 0 && h != i && h < |s.data| && i < |s.data|
    ensures Place(s, |s.sent| + h) != Place(s, |s.sent| + i)
  {
    if h < i {
      Ring.AroundDistinct(|s.sent| + h, |s.sent| + i, |s.data|);
    } else {
      Ring.AroundDistinct(|s.sent| + i, |s.sent| + h, |s.data|);
    }
  }

  lemma PutByteKeeps(s: State, i: nat)
    requires Inv(s) && Enabled(s, PutByte(i))
    ensures Inv(Step(s, PutByte(i)))
  {
    hide Scale, Wrap32, Pow2, Slot, Place, Stored, ProducerOk;
    PutByteKeepsStored(s, i);
    PutByteKeepsBatch(s, i);
  }

  lemma PublishKeeps(s: State)
    requires Inv(s) && Enabled(s, Publish)
    ensures Inv(Step(s, Publish))
  {
    var s' := Step(s, Publish);
    WrapSum(s.published, s.producer.n);
    assert |s'.sent| == Scale(s'.published, s.esize) by {
      ScaleAdd(s.published, s.producer.n, s.esize);
    }
    assert Shape(s') && ConsumerOk(s') && ProducerOk(s');
    forall j | |s.received| <= j < |s'.sent|
      ensures s'.data[Place(s, j)] == s'.sent[j]
    {
      if j >= |s.sent| {
        assert (j - |s.sent|) !in s.producer.todo;
        assert |s.sent| + (j - |s.sent|) == j;
      }
    }
  }

  lemma RequestKeeps(s: State, len: nat, peek: bool)
    requires Inv(s) && Enabled(s, Request(len, peek))
    ensures Inv(Step(s, Request(len, peek)))
  {
    hide Scale, Wrap32, Pow2, Slot;
    Backlog(s);
    var n: nat := Min(len, s.published - s.released);
    assert |s.received| + Scale(n, s.esize) <= |s.sent| by {
      ScaleAdd(s.released, n, s.esize);
      ScaleMono(s.released + n, s.published, s.esize);
    }
    var s' := Step(s, Request(len, peek));
    assert s' == s.(consumer := Draining(seq(Scale(n, s.esize), _ => 0), n, Indices(Scale(n, s.esize)), peek));
    assert Shape(s') && Stored(s') && ProducerOk(s');
  }

  lemma GetByteKeeps(s: State, i: nat)
    requires Inv(s) && Enabled(s, GetByte(i))
    ensures Inv(Step(s, GetByte(i)))
  {
    hide Slot, Scale, Wrap32, Pow2, Shape, ProducerOk;
    ConsumerSlot(s, i);
    GetByteFrame(s, i);
  }

  lemma GetByteFrame(s: State, i: nat)
    requires Inv(s) && Enabled(s, GetByte(i))
    ensures var t := Step(s, GetByte(i)); Shape(t) && Stored(t) && ProducerOk(t)
  {}

  /** A completed batch is the next stretch of the stream. */
  lemma BatchIsNext(s: State)
    requires Inv(s) && Enabled(s, Release)
    ensures s.received + s.consumer.got == s.sent[..|s.received| + |s.consumer.got|]
  {}

  lemma ReleaseKeepsShape(s: State)
    requires Inv(s) && Enabled(s, Release)
    ensures Shape(Released(s))
  {
    WrapSum(s.released, s.consumer.n);
    ScaleAdd(s.released, s.consumer.n, s.esize);
  }

  lemma ReleaseKeeps(s: State)
    requires Inv(s) && Enabled(s, Release)
    ensures Inv(Step(s, Release))
  {
    if !s.consumer.peek {
      ReleaseKeepsShape(s);
      BatchIsNext(s);
      assert Stored(Released(s));
    }
  }

  lemma StepKeeps(s: State, a: Action)
    requires Inv(s)
    ensures Inv(Step(s, a))
  {
    if Enabled(s, a) {
      match a
      case Offer(input, len) => OfferKeeps(s, input, len);
      case PutByte(i) => PutByteKeeps(s, i);
      case Publish => PublishKeeps(s);
      case Request(len, peek) => RequestKeeps(s, len, peek);
      case GetByte(i) => GetByteKeeps(s, i);
      case Release => ReleaseKeeps(s);
    }
  }

  // ----- what is taken and delivered -----

  /** An offer is taken as a whole or as far as it fills the fifo: from its first element on. */
  lemma OfferTakes(s: State, input: seq<byte>, len: nat)
    requires Inv(s) && Enabled(s, Offer(input, len))
    ensures var p := Step(s, Offer(input, len)).producer;
            && p.Filling? && p.n <= len && p.buf <= input && |p.buf| == Scale(p.n, s.esize)
            && (p.n == len || s.published + p.n == s.released + Pow2(s.k))
            && p.todo == Indices(|p.buf|) && p.offer == Offered(input, len)
  {
    Backlog(s);
    ScaleMono(Min(len, Pow2(s.k) - (s.published - s.released)), len, s.esize);
  }

  /** A request is met as a whole or as far as there is published data. */
  lemma RequestTakes(s: State, len: nat, peek: bool)
    requires Inv(s) && Enabled(s, Request(len, peek))
    ensures var c := Step(s, Request(len, peek)).consumer;
            && c.Draining? && c.n <= len && |c.got| == Scale(c.n, s.esize) && c.peek == peek
            && (c.n == len || s.released + c.n == s.published)
            && c.todo == Indices(|c.got|)
  {
    Backlog(s);
  }

  /** A finished request delivers the next bytes of the stream, and a peek leaves them there. */
  lemma ReleaseDelivers(s: State)
    requires Inv(s) && Enabled(s, Release)
    ensures var n, m := |s.received|, |s.consumer.got|;
            && n + m <= |s.sent| && s.consumer.got == s.sent[n..n + m]
            && Step(s, Release).received == if s.consumer.peek then s.received else s.received + s.consumer.got
  {
    BatchIsNext(s);
    var n, m := |s.received|, |s.consumer.got|;
    assert s.sent[..n + m][n..] == s.sent[n..n + m];
  }

  /** Neither side ever waits for the other: an idle side can start, every byte left of a batch can be
      copied, and a copied batch can be published. */
  lemma NeverStuck(s: State)
    requires Inv(s) && AsOffered(s)
    ensures s.producer.Idle? ==> forall o: Offered :: |o.input| == Scale(o.len, s.esize) ==> Enabled(s, Offer(o.input, o.len))
    ensures s.producer.Filling? ==> forall i: nat :: i in s.producer.todo ==> Enabled(s, PutByte(i))
    ensures s.producer.Filling? && s.producer.todo == {} ==> Enabled(s, Publish)
    ensures s.consumer.Waiting? ==> forall len: nat, peek: bool :: Enabled(s, Request(len, peek))
    ensures s.consumer.Draining? ==> forall i: nat :: i in s.consumer.todo ==> Enabled(s, GetByte(i))
    ensures s.consumer.Draining? && s.consumer.todo == {} ==> Enabled(s, Release)
  {
    hide Scale, Inv, Slot, AsOffered;
    InvImpliesSafe(s);
  }

  lemma TakenNext(bs: seq<Batch>, b: Batch, e: nat)
    requires (forall i :: 0 <= i < |bs| ==> Prefixed(bs[i], e)) && Prefixed(b, e)
    ensures forall i :: 0 <= i < |bs + [b]| ==> Prefixed((bs + [b])[i], e)
    ensures Taken(bs + [b], e) == Taken(bs, e) + b.offer.input[..Scale(b.n, e)]
  {
    var more := bs + [b];
    assert more[..|bs|] == bs;
  }

  lemma AsOfferedKept(s: State, a: Action)
    requires Inv(s) && AsOffered(s)
    ensures AsOffered(Step(s, a))
  {
    hide Scale, Inv, Slot, Wrap32, Indices;
    if Enabled(s, a) {
      match a
      case Offer(input, len) =>
        OfferTakes(s, input, len);
        ScaleMono(Step(s, a).producer.n, len, s.esize);
      case Publish => TakenNext(s.batches, Batch(s.producer.offer, s.producer.n), s.esize);
      case _ =>
    }
  }

  lemma {:induction false} AllAsOffered(s: State, actions: seq<Action>)
    requires Inv(s) && AsOffered(s)
    ensures Inv(Exec(s, actions)) && AsOffered(Exec(s, actions))
  {
    hide Inv, AsOffered, Step;
    if actions == [] {
    } else {
      var n := |actions| - 1;
      AllAsOffered(s, actions[..n]);
      StepKeeps(Exec(s, actions[..n]), actions[n]);
      AsOfferedKept(Exec(s, actions[..n]), actions[n]);
    }
  }

  /** Every state that any interleaving can reach is safe. */
  lemma EveryInterleavingIsSafe(s: State, actions: seq<Action>)
    requires Initial(s)
    ensures Safe(Exec(s, actions))
  {
    ScaleMod(0, Pow2(s.k), s.esize);
    AllAsOffered(s, actions);
    InvImpliesSafe(Exec(s, actions));
  }
}
