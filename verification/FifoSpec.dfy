/** The plain bounded queue that the kfifo has to agree with. */
module FifoSpec {
  import opened Words

  datatype Op<T> =
    | In(buf: seq<T>)
    | Out(len: nat)
    | Peek(len: nat)

  datatype Reply<T> =
    | Accepted(n: nat)
    | Delivered(elems: seq<T>)

  /** One operation on a queue of at most `cap` elements: an insertion takes what fits,
      a removal what is there. */
  function Apply<T>(cap: nat, q: seq<T>, op: Op<T>): (r: (seq<T>, Reply<T>))
    requires |q| <= cap
    ensures |r.0| <= cap
  {
    match op
    case In(buf) =>
      var n := Min(|buf|, cap - |q|);
      (q + buf[..n], Accepted(n))
    case Out(len) =>
      var n := Min(len, |q|);
      (q[n..], Delivered(q[..n]))
    case Peek(len) =>
      (q, Delivered(q[..Min(len, |q|)]))
  }

  /** The queue and the replies after a whole run of operations. */
  function Run<T>(cap: nat, q: seq<T>, ops: seq<Op<T>>): (r: (seq<T>, seq<Reply<T>>))
    requires |q| <= cap
    ensures |r.0| <= cap && |r.1| == |ops|
  {
    if ops == [] then (q, []) else
      var (q1, replies) := Run(cap, q, ops[..|ops| - 1]);
      var (q2, last) := Apply(cap, q1, ops[|ops| - 1]);
      (q2, replies + [last])
  }

  /** All elements that the insertions of a run got accepted, in order. */
  function Entered<T>(ops: seq<Op<T>>, replies: seq<Reply<T>>): seq<T>
    requires |ops| == |replies|
  {
    if ops == [] then [] else
      var i := |ops| - 1;
      Entered(ops[..i], replies[..i]) +
      match (ops[i], replies[i])
      case (In(buf), Accepted(n)) => if n <= |buf| then buf[..n] else []
      case _ => []
  }

  /** All elements that the removals of a run delivered, in order; peeking removes nothing. */
  function Left<T>(ops: seq<Op<T>>, replies: seq<Reply<T>>): seq<T>
    requires |ops| == |replies|
  {
    if ops == [] then [] else
      var i := |ops| - 1;
      Left(ops[..i], replies[..i]) +
      match (ops[i], replies[i])
      case (Out(_), Delivered(elems)) => elems
      case _ => []
  }

  /** First in, first out, nothing lost and nothing invented: over any run, what was queued
      followed by what entered is what left followed by what is still queued. */
  lemma {:induction false} Conservation<T>(cap: nat, q: seq<T>, ops: seq<Op<T>>)
    requires |q| <= cap
    ensures var (q', replies) := Run(cap, q, ops);
            q + Entered(ops, replies) == Left(ops, replies) + q'
  {
    hide Apply;
    if ops == [] {
    } else {
      var i := |ops| - 1;
      Conservation(cap, q, ops[..i]);
      var (q1, rs) := Run(cap, q, ops[..i]);
      var (q2, r) := Apply(cap, q1, ops[i]);
      EffectDetermines(cap, q1, ops[i], q2, r);
      assert (rs + [r])[..i] == rs;
      var entered, left := Entered(ops[..i], rs), Left(ops[..i], rs);
      match ops[i]
      case In(buf) =>
        assert q + (entered + buf[..r.n]) == (q + entered) + buf[..r.n];
        assert left + (q1 + buf[..r.n]) == (left + q1) + buf[..r.n];
      case Out(_) =>
        assert left + q1 == (left + r.elems) + q2;
      case Peek(_) =>
        assert entered + [] == entered && left + [] == left;
    }
  }

  // ----- the queue by its effects -----

  /** What an operation may do, said of the queue before and after it. An insertion takes a prefix of
      what is offered, all of it or as much as fills the queue. A removal takes a prefix of the queue, as
      long as asked for or all of it. Peeking shows such a prefix and takes nothing. */
  predicate Effect<T(==)>(cap: nat, q: seq<T>, op: Op<T>, q': seq<T>, reply: Reply<T>) {
    match op
    case In(buf) =>
      && reply.Accepted? && reply.n <= |buf| && q' == q + buf[..reply.n] && |q'| <= cap
      && (reply.n == |buf| || |q'| == cap)
    case Out(len) =>
      && reply.Delivered? && q == reply.elems + q' && |reply.elems| <= len
      && (|reply.elems| == len || q' == [])
    case Peek(len) =>
      && reply.Delivered? && q' == q && reply.elems <= q && |reply.elems| <= len
      && (|reply.elems| == len || reply.elems == q)
  }

  /** This determines queue and reply. */
  lemma EffectDetermines<T>(cap: nat, q: seq<T>, op: Op<T>, q': seq<T>, reply: Reply<T>)
    requires |q| <= cap
    ensures Effect(cap, q, op, q', reply) <==> (q', reply) == Apply(cap, q, op)
  {
    match op
    case In(buf) =>
    case Out(len) =>
      if Effect(cap, q, op, q', reply) {
        assert reply.elems == q[..|reply.elems|] && q' == q[|reply.elems|..];
      }
      var n := Min(len, |q|);
      assert q == q[..n] + q[n..];
    case Peek(len) =>
      if Effect(cap, q, op, q', reply) {
        assert reply.elems == q[..|reply.elems|];
      }
  }

  /** Every step of every run has its effect. */
  lemma {:induction false} EveryStep<T>(cap: nat, q: seq<T>, ops: seq<Op<T>>, i: nat)
    requires |q| <= cap && i < |ops|
    ensures Effect(cap, Run(cap, q, ops[..i]).0, ops[i], Run(cap, q, ops[..i + 1]).0, Run(cap, q, ops).1[i])
  {
    hide Apply, Effect;
    var n := |ops| - 1;
    var before := Run(cap, q, ops[..n]);
    if i == n {
      assert ops[..i + 1] == ops;
      var (q2, last) := Apply(cap, before.0, ops[n]);
      EffectDetermines(cap, before.0, ops[n], q2, last);
    } else {
      EveryStep(cap, q, ops[..n], i);
      assert ops[..n][..i] == ops[..i] && ops[..n][..i + 1] == ops[..i + 1];
    }
  }
}
