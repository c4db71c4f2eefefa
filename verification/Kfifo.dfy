/** compat-wireless/compat/kfifo.c: a ring buffer whose 32-bit `in` and `out` indices run
    freely and wrap, against the plain queue of FifoSpec. */
module Kfifo {
  import opened Collections
  import opened Words
  import opened Memory
  import Ring
  import FifoSpec

  const EINVAL := 22
  const ENOMEM := 12

  /** The largest power of two that is at most `n`. */
  function RoundDownPow2(n: nat): (p: nat)
    requires n >= 1
    ensures p <= n < 2 * p
    ensures exists k: nat :: p == Pow2(k)
  {
    if n == 1 then
      assert Pow2(0) == 1;
      1
    else
      var h := RoundDownPow2(n / 2);
      var k: nat :| h == Pow2(k);
      assert Pow2(k + 1) == 2 * h;
      2 * h
  }

  /** Two to the 31 elements of two bytes: the computed byte size is zero. */
  lemma SizeWraps()
    ensures RoundDownPow2(0x8000_0000) == 0x8000_0000 && Wrap32(Scale(0x8000_0000, 2)) == 0
  {
    var p := RoundDownPow2(0x8000_0000);
    var k: nat :| p == Pow2(k);
    Pow2At32();
    if k < 31 {
      Pow2Mono(k, 30);
    } else if k > 31 {
      Pow2Mono(32, k);
    }
    ScaleIsProduct(0x8000_0000, 2);
    WrapIsMod(TWO32);
  }

  /** `s` cut into `n` elements of `e` bytes. */
  function Chunks(s: seq<byte>, n: nat, e: nat): (r: seq<seq<byte>>)
    requires |s| == Scale(n, e)
    ensures |r| == n
  {
    if n == 0 then [] else [s[..e]] + Chunks(s[e..], n - 1, e)
  }

  /** Cutting a sequence in two at an element boundary cuts its elements in two. */
  lemma {:induction false} ChunksSplit(s: seq<byte>, n: nat, m: nat, e: nat)
    requires m <= n && |s| == Scale(n, e)
    ensures Scale(n, e) == Scale(m, e) + Scale(n - m, e)
    ensures Chunks(s[..Scale(m, e)], m, e) == Chunks(s, n, e)[..m]
    ensures Chunks(s[Scale(m, e)..], n - m, e) == Chunks(s, n, e)[m..]
  {
    ScaleMono(m, n, e);
    if m == 0 {
      assert s[0..] == s;
    } else {
      var k, t := Scale(m - 1, e), s[e..];
      ChunksSplit(t, n - 1, m - 1, e);
      TakeDrop(s, e, k);
    }
  }

  /** The elements put together are the bytes again, and each has its size. */
  lemma {:induction false} ChunksAre(s: seq<byte>, n: nat, e: nat)
    requires |s| == Scale(n, e)
    ensures Flatten(Chunks(s, n, e)) == s
    ensures forall i :: 0 <= i < n ==> |Chunks(s, n, e)[i]| == e
  {
    if n == 0 {
    } else {
      ChunksAre(s[e..], n - 1, e);
      assert Chunks(s, n, e)[1..] == Chunks(s[e..], n - 1, e);
    }
  }

  lemma TakeDrop(s: seq<byte>, a: nat, b: nat)
    requires a + b <= |s|
    ensures s[..a + b][..a] == s[..a]
    ensures s[..a + b][a..] == s[a..][..b]
    ensures s[a + b..] == s[a..][b..]
  {}

  /** Elements of stored bytes followed by the first `m` elements of a buffer. */
  lemma ChunksAppend(s: seq<byte>, n: nat, buf: seq<byte>, len: nat, m: nat, e: nat)
    requires |s| == Scale(n, e) && |buf| == Scale(len, e) && m <= len
    ensures Scale(m, e) <= Scale(len, e) && Scale(n + m, e) == Scale(n, e) + Scale(m, e)
    ensures Chunks(s + buf[..Scale(m, e)], n + m, e) == Chunks(s, n, e) + Chunks(buf, len, e)[..m]
  {
    ChunksSplit(buf, len, m, e);
    ScaleAdd(n, m, e);
    var t := s + buf[..Scale(m, e)];
    ChunksSplit(t, n + m, n, e);
    assert t[..Scale(n, e)] == s && t[Scale(n, e)..] == buf[..Scale(m, e)];
  }

  /** The byte position of a wrapped index is that of the index that never wrapped. */
  lemma IndexPosition(x: nat, k: nat, e: nat)
    requires k <= 32 && e > 0
    ensures Scale(Pow2(k), e) > 0
    ensures Ring.Around(Scale(Wrap32(x), e), Scale(Pow2(k), e)) == Ring.Around(Scale(x, e), Scale(Pow2(k), e))
    ensures Scale(And(Wrap32(x), Pow2(k) - 1), e) == Ring.Around(Scale(x, e), Scale(Pow2(k), e))
  {
    WrapMod(x, k);
    ScaleMod(Wrap32(x), Pow2(k), e);
    ScaleMod(x, Pow2(k), e);
    Ring.AroundIsMod(Scale(Wrap32(x), e), Scale(Pow2(k), e));
    Ring.AroundIsMod(Scale(x, e), Scale(Pow2(k), e));
    AndMask(Wrap32(x), k);
  }

  /** Insertion: the 32-bit difference of the indices grows by what was inserted. */
  lemma InLength(k: nat, inIdx: nat, outIdx: nat, n: nat)
    requires k <= 31 && inIdx < TWO32 && outIdx < TWO32
    requires Wrap32(inIdx - outIdx) + n <= Pow2(k)
    ensures Wrap32(Wrap32(inIdx + n) - outIdx) == Wrap32(inIdx - outIdx) + n
  {
    Pow2At32();
    Pow2Mono(k, 31);
    WrapDifference(inIdx + n, outIdx);
    WrapSmall(outIdx);
    WrapDifference(inIdx, outIdx);
    WrapSum(inIdx - outIdx, n);
    WrapSmall(Wrap32(inIdx - outIdx) + n);
  }

  /** Removal: the 32-bit difference shrinks by what was removed. */
  lemma OutLength(inIdx: nat, outIdx: nat, n: nat)
    requires inIdx < TWO32 && outIdx < TWO32 && n <= Wrap32(inIdx - outIdx)
    ensures Wrap32(inIdx - Wrap32(outIdx + n)) == Wrap32(inIdx - outIdx) - n
    ensures Wrap32(outIdx + Wrap32(inIdx - outIdx)) == inIdx
  {}

  /** An index moved forward by `n` elements, wrapping, points `n` elements further on. */
  lemma MovedPosition(k: nat, e: nat, idx: nat, n: nat)
    requires k <= 32 && e > 0
    ensures Scale(Pow2(k), e) > 0
    ensures Ring.Around(Scale(Wrap32(idx + n), e), Scale(Pow2(k), e))
         == Ring.Around(Scale(idx, e) + Scale(n, e), Scale(Pow2(k), e))
  {
    IndexPosition(idx + n, k, e);
    ScaleAdd(idx, n, e);
  }

  lemma GeometryValue(k: nat, e: nat, off: nat, len: nat)
    requires k <= 32 && e > 0 && off < TWO32 && len <= Pow2(k)
    ensures 0 < Scale(Pow2(k), e)
    ensures Scale(And(off, Pow2(k) - 1), e) == Ring.Around(Scale(off, e), Scale(Pow2(k), e))
    ensures Scale(len, e) <= Scale(Pow2(k), e)
  {
    WrapSmall(off);
    IndexPosition(off, k, e);
    ScaleMono(len, Pow2(k), e);
  }

  /** Writing `n` elements at index `in` appends them to the `len` elements read from `out`. */
  lemma AppendedValue(d: seq<byte>, k: nat, e: nat, inIdx: nat, outIdx: nat, len: nat, n: nat, src: seq<byte>)
    requires k <= 32 && e > 0 && |d| == Scale(Pow2(k), e)
    requires inIdx < TWO32 && outIdx < TWO32 && len == Wrap32(inIdx - outIdx)
    requires len + n <= Pow2(k) && |src| == Scale(n, e)
    ensures |d| > 0
    ensures Ring.Read(Ring.Write(d, Scale(inIdx, e), src), Scale(outIdx, e), Scale(len + n, e))
         == Ring.Read(d, Scale(outIdx, e), Scale(len, e)) + src
  {
    OutLength(inIdx, outIdx, 0);
    MovedPosition(k, e, outIdx, len);
    ScaleAdd(len, n, e);
    ScaleMono(len + n, Pow2(k), e);
    Ring.AppendAt(d, Scale(outIdx, e), Scale(len, e), Scale(inIdx, e), src);
  }

  /** Reading on from `out + n` drops `n` of the `len` elements read from `out`. */
  lemma DroppedValue(d: seq<byte>, k: nat, e: nat, outIdx: nat, len: nat, n: nat)
    requires k <= 32 && e > 0 && |d| == Scale(Pow2(k), e) && n <= len
    ensures |d| > 0
    ensures Scale(len, e) == Scale(n, e) + Scale(len - n, e)
    ensures Ring.Read(d, Scale(Wrap32(outIdx + n), e), Scale(len - n, e))
         == Ring.Read(d, Scale(outIdx, e), Scale(len, e))[Scale(n, e)..]
    ensures Ring.Read(d, Scale(outIdx, e), Scale(n, e)) == Ring.Read(d, Scale(outIdx, e), Scale(len, e))[..Scale(n, e)]
  {
    MovedPosition(k, e, outIdx, n);
    ScaleMono(n, len, e);
    Ring.DropAt(d, Scale(outIdx, e), Scale(len, e), Scale(n, e), Scale(Wrap32(outIdx + n), e));
  }

  class Fifo {
    var inIdx: nat
    var outIdx: nat
    var mask: nat
    var esize: nat
    var data: array?<byte>

    constructor ()
      ensures data == null
    {
      inIdx, outIdx, mask, esize, data := 0, 0, 0, 0, null;
    }

    ghost predicate Shaped()
      reads this
    {
      && inIdx < TWO32 && outIdx < TWO32 && esize > 0
      && (exists k: nat :: 1 <= k <= 31 && mask + 1 == Pow2(k))
      && data != null && data.Length == Scale(mask + 1, esize) < TWO32
    }

    ghost predicate Valid()
      reads this
    {
      Shaped() && Len() <= mask + 1
    }

    /** `in - out` in 32-bit arithmetic: the number of elements stored. */
    function Len(): (n: nat)
      reads this
    {
      Wrap32(inIdx - outIdx)
    }

    /** The stored bytes, oldest first. */
    ghost function Contents(): (s: seq<byte>)
      requires Valid()
      reads this, data
      ensures |s| == Scale(Len(), esize)
    {
      Ring.Read(data[..], Scale(outIdx, esize), Scale(Len(), esize))
    }

    /** The stored elements, oldest first. */
    ghost function Elements(): (s: seq<seq<byte>>)
      requires Valid()
      reads this, data
      ensures |s| == Len() <= mask + 1
    {
      Chunks(Contents(), Len(), esize)
    }

    /** `kfifo_unused`: never negative, although computed with wrap-around. */
    function Unused(): (n: nat)
      requires Valid()
      reads this
      ensures n == mask + 1 - Len()
    {
      Pow2At32();
      var k: nat :| 1 <= k <= 31 && mask + 1 == Pow2(k);
      Pow2Mono(k, 31);
      Wrap32(mask + 1 - Wrap32(inIdx - outIdx))
    }

    /** `__kfifo_alloc`; `granted` says whether the memory allocation succeeds. The byte size is computed
        in 32 bits: the fifo is usable if and only if it fits and elements are not empty. */
    method Alloc(size: nat, elemSize: nat, granted: bool) returns (rc: int)
      requires 1 <= size < TWO32
      modifies this
      ensures rc == 0 <==> size >= 2 && granted
      ensures rc == 0 ==> mask + 1 == RoundDownPow2(size) && esize == elemSize && data != null && fresh(data)
      ensures rc == 0 ==> (Valid() <==> elemSize > 0 && Scale(RoundDownPow2(size), elemSize) < TWO32)
      ensures rc == 0 && Valid() ==> Elements() == []
      ensures rc != 0 ==> data == null && mask == 0 && rc == if size < 2 then -EINVAL else -ENOMEM
    {
      var rounded := RoundDownPow2(size);
      inIdx, outIdx, esize := 0, 0, elemSize;
      if rounded < 2 {
        data, mask := null, 0;
        return -EINVAL;
      }
      if !granted {
        data, mask := null, 0;
        return -ENOMEM;
      }
      data := new byte[Wrap32(Scale(rounded, elemSize))];
      mask := rounded - 1;
      var k: nat :| rounded == Pow2(k);
      Pow2At32();
      if k >= 32 {
        Pow2Mono(32, k);
      }
      return 0;
    }

    /** Where an index points in the buffer, and that a whole batch of elements fits in it. */
    lemma Geometry(off: nat, len: nat)
      requires Shaped() && off < TWO32 && len <= mask + 1
      ensures 0 < data.Length
      ensures Scale(And(off, mask), esize) == Ring.Around(Scale(off, esize), data.Length)
      ensures Scale(len, esize) <= data.Length
      ensures esize == 1 ==> Scale(And(off, mask), esize) == And(off, mask)
      ensures esize == 1 ==> Scale(len, esize) == len && Scale(mask + 1, esize) == mask + 1
    {
      var k: nat :| 1 <= k <= 31 && mask + 1 == Pow2(k);
      GeometryValue(k, esize, off, len);
      ScaleOne(And(off, mask));
      ScaleOne(len);
      ScaleOne(mask + 1);
    }

    /** The two `memcpy` calls of `kfifo_copy_in`: up to the end of the buffer, then from its start. */
    method PutBytes(src: seq<byte>, off: nat)
      requires data != null && off < data.Length && |src| <= data.Length
      modifies data
      ensures data[..] == Ring.Write(old(data[..]), off, src)
    {
      var l := Min(|src|, data.Length - off);
      Ring.WriteSplit(data[..], off, src);
      Memcpy(data, off, src[..l]);
      Memcpy(data, 0, src[l..]);
    }

    /** The two `memcpy` calls of `kfifo_copy_out`. */
    method GetBytes(n: nat, off: nat) returns (dst: seq<byte>)
      requires data != null && off < data.Length && n <= data.Length
      ensures dst == Ring.Read(data[..], off, n)
    {
      var l := Min(n, data.Length - off);
      Ring.ReadSplit(data[..], off, n);
      dst := data[off..off + l] + data[..n - l];
      assert dst == data[..][off..off + l] + data[..][..n - l];
    }

    /** `kfifo_copy_in`. */
    method CopyIn(src: seq<byte>, len: nat, off: nat)
      requires Shaped() && off < TWO32
      requires len <= mask + 1 && |src| == Scale(len, esize)
      modifies data
      ensures data[..] == Ring.Write(old(data[..]), Scale(off, esize), src)
    {
      Geometry(off, len);
      Ring.SamePlaceWrite(data[..], Scale(And(off, mask), esize), Scale(off, esize), src);
      var o := And(off, mask);
      if esize != 1 {
        o := Scale(o, esize);
      }
      PutBytes(src, o);
    }

    /** `kfifo_copy_out`. */
    method CopyOut(len: nat, off: nat) returns (dst: seq<byte>)
      requires Shaped() && off < TWO32 && len <= mask + 1
      ensures dst == Ring.Read(data[..], Scale(off, esize), Scale(len, esize))
    {
      Geometry(off, len);
      Ring.SamePlaceRead(data[..], Scale(And(off, mask), esize), Scale(off, esize), Scale(len, esize));
      var o, n := And(off, mask), len;
      if esize != 1 {
        o, n := Scale(o, esize), Scale(n, esize);
      }
      dst := GetBytes(n, o);
    }

    /** Storing elements behind the stored ones and publishing the new `in` appends them. */
    lemma Appended(n: nat, src: seq<byte>)
      requires Valid() && Len() + n <= mask + 1 && |src| == Scale(n, esize)
      ensures Wrap32(Wrap32(inIdx + n) - outIdx) == Len() + n
      ensures Ring.Read(Ring.Write(data[..], Scale(inIdx, esize), src), Scale(outIdx, esize), Scale(Len() + n, esize))
           == Contents() + src
    {
      var k: nat :| 1 <= k <= 31 && mask + 1 == Pow2(k);
      InLength(k, inIdx, outIdx, n);
      AppendedValue(data[..], k, esize, inIdx, outIdx, Len(), n, src);
    }

    /** Publishing a larger `out` drops elements from the front. */
    lemma Dropped(n: nat)
      requires Valid() && n <= Len()
      ensures Wrap32(inIdx - Wrap32(outIdx + n)) == Len() - n
      ensures Scale(Len(), esize) == Scale(n, esize) + Scale(Len() - n, esize)
      ensures Ring.Read(data[..], Scale(Wrap32(outIdx + n), esize), Scale(Len() - n, esize)) == Contents()[Scale(n, esize)..]
      ensures Ring.Read(data[..], Scale(outIdx, esize), Scale(n, esize)) == Contents()[..Scale(n, esize)]
    {
      var k: nat :| 1 <= k <= 31 && mask + 1 == Pow2(k);
      OutLength(inIdx, outIdx, n);
      DroppedValue(data[..], k, esize, outIdx, Len(), n);
    }

    /** Copies `n` elements in behind the stored ones, then publishes them. */
    method Push(src: seq<byte>, n: nat)
      requires Valid() && Len() + n <= mask + 1 && |src| == Scale(n, esize)
      modifies this`inIdx, data
      ensures Valid() && Len() == old(Len()) + n
      ensures Contents() == old(Contents()) + src
    {
      Appended(n, src);
      CopyIn(src, n, inIdx);
      inIdx := Wrap32(inIdx + n);
    }

    /** `__kfifo_in`: one insertion of the plain queue. */
    method In(buf: seq<byte>, len: nat) returns (n: nat)
      requires Valid() && |buf| == Scale(len, esize)
      modifies this`inIdx, data
      ensures Valid()
      ensures n <= len && (n == len || Len() == mask + 1)
      ensures Elements() == old(Elements()) + Chunks(buf, len, esize)[..n]
      ensures (Elements(), FifoSpec.Accepted(n))
           == FifoSpec.Apply(mask + 1, old(Elements()), FifoSpec.In(Chunks(buf, len, esize)))
    {
      n := len;
      var l := Unused();
      if n > l {
        n := l;
      }
      ChunksAppend(Contents(), Len(), buf, len, n, esize);
      Push(buf[..Scale(n, esize)], n);
    }

    /** `__kfifo_out_peek`: the queue's oldest elements, which stay queued. */
    method OutPeek(len: nat) returns (n: nat, dst: seq<byte>)
      requires Valid()
      ensures n <= len && (n == len || n == Len()) && |dst| == Scale(n, esize)
      ensures Chunks(dst, n, esize) <= Elements()
      ensures (Elements(), FifoSpec.Delivered(Chunks(dst, n, esize)))
           == FifoSpec.Apply(mask + 1, Elements(), FifoSpec.Peek(len))
    {
      n := len;
      var l := Len();
      if n > l {
        n := l;
      }
      Dropped(n);
      ChunksSplit(Contents(), Len(), n, esize);
      dst := CopyOut(n, outIdx);
    }

    /** `__kfifo_out`: one removal of the plain queue. */
    method Out(len: nat) returns (n: nat, dst: seq<byte>)
      requires Valid()
      modifies this`outIdx
      ensures Valid()
      ensures n <= len && (n == len || Len() == 0) && |dst| == Scale(n, esize)
      ensures old(Elements()) == Chunks(dst, n, esize) + Elements()
      ensures (Elements(), FifoSpec.Delivered(Chunks(dst, n, esize)))
           == FifoSpec.Apply(mask + 1, old(Elements()), FifoSpec.Out(len))
    {
      n, dst := OutPeek(len);
      Dropped(n);
      ChunksSplit(Contents(), Len(), n, esize);
      outIdx := Wrap32(outIdx + n);
    }
  }

  /** A caller's request, with its data as one flat buffer of `len` elements. */
  datatype Request =
    | Put(buf: seq<byte>, len: nat)
    | Get(len: nat)
    | Look(len: nat)

  predicate Fits(r: Request, e: nat) {
    r.Put? ==> |r.buf| == Scale(r.len, e)
  }

  function View(r: Request, e: nat): FifoSpec.Op<seq<byte>>
    requires Fits(r, e)
  {
    match r
    case Put(buf, len) => FifoSpec.In(Chunks(buf, len, e))
    case Get(len) => FifoSpec.Out(len)
    case Look(len) => FifoSpec.Peek(len)
  }

  function Views(rs: seq<Request>, e: nat): (ops: seq<FifoSpec.Op<seq<byte>>>)
    requires forall i :: 0 <= i < |rs| ==> Fits(rs[i], e)
    ensures |ops| == |rs|
  {
    seq(|rs|, i requires 0 <= i < |rs| => View(rs[i], e))
  }

  method ServeOne(f: Fifo, r: Request) returns (reply: FifoSpec.Reply<seq<byte>>)
    requires f.Valid() && Fits(r, f.esize)
    modifies f`inIdx, f`outIdx, f.data
    ensures f.Valid()
    ensures (f.Elements(), reply) == FifoSpec.Apply(f.mask + 1, old(f.Elements()), View(r, f.esize))
    ensures r.Put? ==> FifoSpec.Effect(f.mask + 1, old(f.Elements()), FifoSpec.In(Chunks(r.buf, r.len, f.esize)), f.Elements(), reply)
    ensures r.Get? ==> FifoSpec.Effect(f.mask + 1, old(f.Elements()), FifoSpec.Out(r.len), f.Elements(), reply)
    ensures r.Look? ==> FifoSpec.Effect(f.mask + 1, old(f.Elements()), FifoSpec.Peek(r.len), f.Elements(), reply)
  {
    hide FifoSpec.Apply, FifoSpec.Effect;
    var n, dst;
    match r {
      case Put(buf, len) =>
        n := f.In(buf, len);
        reply := FifoSpec.Accepted(n);
      case Get(len) =>
        n, dst := f.Out(len);
        reply := FifoSpec.Delivered(Chunks(dst, n, f.esize));
      case Look(len) =>
        n, dst := f.OutPeek(len);
        reply := FifoSpec.Delivered(Chunks(dst, n, f.esize));
    }
    FifoSpec.EffectDetermines(f.mask + 1, old(f.Elements()), View(r, f.esize), f.Elements(), reply);
  }

  /** Any run of requests on the fifo is the same run of the plain queue: same replies, same
      final contents, however often the indices wrap on the way. */
  method Serve(f: Fifo, rs: seq<Request>) returns (replies: seq<FifoSpec.Reply<seq<byte>>>)
    requires f.Valid()
    requires forall i :: 0 <= i < |rs| ==> Fits(rs[i], f.esize)
    modifies f`inIdx, f`outIdx, f.data
    ensures f.Valid()
    ensures (f.Elements(), replies) == FifoSpec.Run(f.mask + 1, old(f.Elements()), Views(rs, f.esize))
  {
    hide Fifo.Valid, Fifo.Elements, View, Fits, FifoSpec.Apply;
    replies := [];
    ghost var cap, e, start, ops := f.mask + 1, f.esize, f.Elements(), Views(rs, f.esize);
    assert ops[..0] == [];
    for i := 0 to |rs|
      invariant f.Valid()
      invariant (f.Elements(), replies) == FifoSpec.Run(cap, start, ops[..i])
    {
      var reply := ServeOne(f, rs[i]);
      replies := replies + [reply];
      assert ops[..i + 1][..i] == ops[..i];
    }
    assert ops[..|rs|] == ops;
  }
}
