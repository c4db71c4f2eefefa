/** The record functions of compat-wireless/compat/kfifo.c (`*_r`): variable-length records behind
    a one- or two-byte length prefix in a byte fifo, against the plain queue of whole records.
    Prefix and payload may each run over the end of the buffer and over the 32-bit wrap. */
module KfifoRecord {
  import opened Collections
  import opened Words
  import Ring
  import Kfifo
  import opened RecordSpec

  ghost predicate ByteFifo(f: Kfifo.Fifo, recsize: nat)
    reads f
  {
    f.Valid() && f.esize == 1 && f.data.Length == f.mask + 1 && 1 <= recsize <= 2
  }

  /** The stored bytes, oldest first. */
  ghost function Bytes(f: Kfifo.Fifo): (s: seq<byte>)
    requires f.Valid() && f.data.Length > 0
    reads f, f.data
    ensures |s| == f.Len()
  {
    Ring.Read(f.data[..], f.outIdx, f.Len())
  }

  ghost predicate HoldsRecords(f: Kfifo.Fifo, recsize: nat)
    reads f, f.data
  {
    ByteFifo(f, recsize) && Decode(Bytes(f), recsize).Some?
  }

  ghost function Records(f: Kfifo.Fifo, recsize: nat): seq<seq<byte>>
    requires HoldsRecords(f, recsize)
    reads f, f.data
  {
    Decode(Bytes(f), recsize).value
  }

  /** Where byte `i` behind index `idx` is stored in a byte fifo of 2^k bytes. */
  lemma BytePosition(d: seq<byte>, k: nat, idx: nat, i: nat)
    requires 1 <= k <= 31 && |d| == Pow2(k)
    ensures |d| >= 2
    ensures And(Wrap32(idx + i), Pow2(k) - 1) == Ring.Around(idx + i, |d|)
    ensures Ring.Around(Wrap32(idx + i), |d|) == Ring.Around(idx + i, |d|)
  {
    WrapMod(idx + i, k);
    Ring.AroundIsMod(idx + i, |d|);
    Ring.AroundIsMod(Wrap32(idx + i), |d|);
    AndMask(Wrap32(idx + i), k);
    Pow2Mono(1, k);
  }

  /** What the stores of `__kfifo_poke_n` amount to. */
  lemma Poked(d: seq<byte>, k: nat, idx: nat, n: nat, recsize: nat)
    requires 1 <= k <= 31 && |d| == Pow2(k) && idx < TWO32 && 1 <= recsize <= 2
    ensures And(idx, Pow2(k) - 1) < |d| && And(Wrap32(idx + 1), Pow2(k) - 1) < |d|
    ensures var d1 := d[And(idx, Pow2(k) - 1) := n % 256];
            Ring.Write(d, idx, Prefix(n, recsize))
            == if recsize == 1 then d1 else d1[And(Wrap32(idx + 1), Pow2(k) - 1) := (n / 256) % 256]
  {
    hide And, Pow2, Wrap32, Ring.Around;
    BytePosition(d, k, idx, 0);
    WrapSmall(idx);
    BytePosition(d, k, idx, 1);
    var p := Prefix(n, recsize);
    assert p[..1] == [n % 256] && [n % 256][..0] == [];
    assert Ring.Write(d, idx, p[..1]) == d[And(idx, Pow2(k) - 1) := n % 256];
    if recsize == 1 {
      assert p[..1] == p;
    }
  }

  /** What the loads of `__kfifo_peek_n` amount to. */
  lemma Peeked(d: seq<byte>, k: nat, idx: nat, recsize: nat)
    requires 1 <= k <= 31 && |d| == Pow2(k) && idx < TWO32 && 1 <= recsize <= 2
    ensures And(idx, Pow2(k) - 1) < |d| && And(Wrap32(idx + 1), Pow2(k) - 1) < |d|
    ensures Ring.Read(d, idx, recsize)[0] == d[And(idx, Pow2(k) - 1)]
    ensures recsize == 2 ==> Ring.Read(d, idx, recsize)[1] == d[And(Wrap32(idx + 1), Pow2(k) - 1)]
  {
    BytePosition(d, k, idx, 0);
    WrapSmall(idx);
    BytePosition(d, k, idx, 1);
  }

  /** A payload written behind a prefix, at the wrapped index, makes one encoded record. */
  lemma PayloadWritten(d: seq<byte>, k: nat, idx: nat, prefix: seq<byte>, buf: seq<byte>)
    requires 1 <= k <= 31 && |d| == Pow2(k)
    ensures Ring.Write(Ring.Write(d, idx, prefix), Wrap32(idx + |prefix|), buf) == Ring.Write(d, idx, prefix + buf)
  {
    BytePosition(d, k, idx, |prefix|);
    Ring.SamePlaceWrite(Ring.Write(d, idx, prefix), Wrap32(idx + |prefix|), idx + |prefix|, buf);
    Ring.WriteTwice(d, idx, prefix, buf);
  }

  /** Reading behind the prefix, at the wrapped index, is reading a part of the contents. */
  lemma PayloadRead(d: seq<byte>, k: nat, idx: nat, recsize: nat, l: nat, total: nat)
    requires 1 <= k <= 31 && |d| == Pow2(k) && recsize + l <= total
    ensures Ring.Read(d, Wrap32(idx + recsize), l) == Ring.Read(d, idx, total)[recsize..recsize + l]
  {
    BytePosition(d, k, idx, recsize);
    Ring.DropAt(d, idx, recsize + l, recsize, Wrap32(idx + recsize));
    Ring.ReadDrop(d, idx, total, recsize + l);
    assert Ring.Read(d, idx, total)[..recsize + l][recsize..] == Ring.Read(d, idx, total)[recsize..recsize + l];
  }

  /** `__kfifo_poke_n`. */
  method PokeN(f: Kfifo.Fifo, n: nat, recsize: nat)
    requires ByteFifo(f, recsize)
    modifies f.data
    ensures f.data[..] == Ring.Write(old(f.data[..]), f.inIdx, Prefix(n, recsize))
  {
    ghost var k: nat :| 1 <= k <= 31 && f.mask + 1 == Pow2(k);
    Poked(f.data[..], k, f.inIdx, n, recsize);
    f.data[And(f.inIdx, f.mask)] := n % 256;
    if recsize > 1 {
      f.data[And(Wrap32(f.inIdx + 1), f.mask)] := (n / 256) % 256;
    }
  }

  /** `__kfifo_peek_n`, and `__kfifo_len_r`: the length of the next record. */
  method PeekN(f: Kfifo.Fifo, recsize: nat) returns (l: nat)
    requires ByteFifo(f, recsize)
    ensures l == HeadLength(Ring.Read(f.data[..], f.outIdx, recsize), recsize)
    ensures l <= MaxLength(recsize)
  {
    ghost var k: nat :| 1 <= k <= 31 && f.mask + 1 == Pow2(k);
    Peeked(f.data[..], k, f.outIdx, recsize);
    l := f.data[And(f.outIdx, f.mask)];
    if recsize - 1 != 0 {
      var high := f.data[And(Wrap32(f.outIdx + 1), f.mask)];
      l := l + 256 * (high as int);
    }
  }

  /** Writing at `in` appends to what is read from `out`. */
  lemma BytesAppended(d: seq<byte>, k: nat, inIdx: nat, outIdx: nat, len: nat, src: seq<byte>)
    requires 1 <= k <= 31 && |d| == Pow2(k) && inIdx < TWO32 && outIdx < TWO32
    requires len == Wrap32(inIdx - outIdx) && len + |src| <= |d|
    ensures Wrap32(Wrap32(inIdx + |src|) - outIdx) == len + |src|
    ensures Ring.Read(Ring.Write(d, inIdx, src), outIdx, len + |src|) == Ring.Read(d, outIdx, len) + src
  {
    hide Ring.Read, Ring.Write, Pow2;
    Kfifo.InLength(k, inIdx, outIdx, |src|);
    Kfifo.OutLength(inIdx, outIdx, 0);
    BytePosition(d, k, outIdx, len);
    Ring.AppendAt(d, outIdx, len, inIdx, src);
  }

  /** Moving `out` on by `n` drops `n` bytes. */
  lemma BytesDropped(d: seq<byte>, k: nat, inIdx: nat, outIdx: nat, len: nat, n: nat)
    requires 1 <= k <= 31 && |d| == Pow2(k) && inIdx < TWO32 && outIdx < TWO32
    requires len == Wrap32(inIdx - outIdx) && n <= len
    ensures Wrap32(inIdx - Wrap32(outIdx + n)) == len - n
    ensures Ring.Read(d, Wrap32(outIdx + n), len - n) == Ring.Read(d, outIdx, len)[n..]
  {
    Kfifo.OutLength(inIdx, outIdx, n);
    BytePosition(d, k, outIdx, n);
    Ring.DropAt(d, outIdx, len, n, Wrap32(outIdx + n));
  }

  method CopyBytesIn(f: Kfifo.Fifo, src: seq<byte>, off: nat)
    requires f.Shaped() && f.esize == 1 && off < TWO32 && |src| <= f.mask + 1
    modifies f.data
    ensures f.data[..] == Ring.Write(old(f.data[..]), off, src)
  {
    ScaleOne(off);
    ScaleOne(|src|);
    f.CopyIn(src, |src|, off);
  }

  method CopyBytesOut(f: Kfifo.Fifo, len: nat, off: nat) returns (dst: seq<byte>)
    requires f.Shaped() && f.esize == 1 && off < TWO32 && len <= f.mask + 1
    ensures dst == Ring.Read(f.data[..], off, len)
  {
    dst := f.CopyOut(len, off);
    ScaleOne(off);
    ScaleOne(len);
  }

  lemma SliceTake(s: seq<byte>, a: nat, n: nat, l: nat)
    requires l <= n && a + n <= |s|
    ensures s[a..a + n][..l] == s[a..a + l]
  {}

  /** Stores prefix and payload and publishes them. */
  method StoreRecord(f: Kfifo.Fifo, buf: seq<byte>, recsize: nat)
    requires ByteFifo(f, recsize) && |buf| + recsize <= f.Unused()
    modifies f`inIdx, f.data
    ensures ByteFifo(f, recsize)
    ensures Bytes(f) == old(Bytes(f)) + EncodeOne(buf, recsize)
  {
    hide Ring.Read, Ring.Write, Pow2;
    ghost var k: nat :| 1 <= k <= 31 && f.mask + 1 == Pow2(k);
    BytesAppended(f.data[..], k, f.inIdx, f.outIdx, f.Len(), EncodeOne(buf, recsize));
    PayloadWritten(f.data[..], k, f.inIdx, Prefix(|buf|, recsize), buf);
    PokeN(f, |buf|, recsize);
    CopyBytesIn(f, buf, Wrap32(f.inIdx + recsize));
    f.inIdx := Wrap32(f.inIdx + (|buf| + recsize));
  }

  /** `__kfifo_in_r`. The record goes in whole or not at all. If its length fits the prefix this
      is one insertion of the record queue. The sum of length and prefix must not wrap to one that seems
      to fit, since the copy would then run out of the buffer. */
  method InR(f: Kfifo.Fifo, buf: seq<byte>, len: nat, recsize: nat) returns (n: nat)
    requires ByteFifo(f, recsize) && |buf| == len < TWO32
    requires len + recsize < TWO32 || Wrap32(len + recsize) > f.Unused()
    modifies f`inIdx, f.data
    ensures ByteFifo(f, recsize)
    ensures len + recsize <= old(f.Unused()) ==>
              n == len && Bytes(f) == old(Bytes(f)) + EncodeOne(buf, recsize)
    ensures len + recsize > old(f.Unused()) ==> n == 0 && Bytes(f) == old(Bytes(f))
    ensures old(HoldsRecords(f, recsize)) && len <= MaxLength(recsize) ==>
              && HoldsRecords(f, recsize)
              && (Records(f, recsize), Stored(n))
                 == Apply(f.mask + 1, recsize, old(Records(f, recsize)), Put(buf))
  {
    if HoldsRecords(f, recsize) {
      EncodeDecode(Bytes(f), recsize);
      DecodeSnoc(Bytes(f), buf, recsize);
    }
    if Wrap32(len + recsize) > f.Unused() {
      return 0;
    }
    StoreRecord(f, buf, recsize);
    return len;
  }

  /** Equal indices mean no records, different indices at least one byte. */
  lemma EmptyOrNot(f: Kfifo.Fifo, recsize: nat)
    requires HoldsRecords(f, recsize)
    ensures f.inIdx == f.outIdx ==> f.Len() == 0
    ensures f.inIdx != f.outIdx ==> f.Len() > 0
    ensures f.Len() == 0 <==> Records(f, recsize) == []
  {
    SameIndices(f.inIdx, f.outIdx);
  }

  lemma SameIndices(x: nat, y: nat)
    requires x < TWO32 && y < TWO32
    ensures Wrap32(x - y) == 0 <==> x == y
  {}

  /** A fifo that holds records and is not empty starts with a whole record. */
  lemma FirstRecord(f: Kfifo.Fifo, recsize: nat) returns (r: seq<byte>, rest: seq<seq<byte>>)
    requires HoldsRecords(f, recsize) && f.Len() > 0
    ensures Records(f, recsize) == [r] + rest
    ensures HeadLength(Ring.Read(f.data[..], f.outIdx, recsize), recsize) == |r|
    ensures recsize + |r| <= f.Len()
    ensures Bytes(f)[recsize..recsize + |r|] == r
    ensures Decode(Bytes(f)[recsize + |r|..], recsize) == Some(rest)
  {
    Ring.ReadDrop(f.data[..], f.outIdx, f.Len(), recsize);
    r, rest := FrontRecord(Bytes(f), recsize);
    assert HeadLength(Bytes(f)[..recsize], recsize) == HeadLength(Bytes(f), recsize);
  }

  /** The payload behind the prefix, as the copy routine finds it. */
  lemma PayloadAt(f: Kfifo.Fifo, recsize: nat, l: nat)
    requires ByteFifo(f, recsize) && recsize + l <= f.Len()
    ensures Ring.Read(f.data[..], Wrap32(f.outIdx + recsize), l) == Bytes(f)[recsize..recsize + l]
  {
    var k: nat :| 1 <= k <= 31 && f.mask + 1 == Pow2(k);
    PayloadRead(f.data[..], k, f.outIdx, recsize, l, f.Len());
  }

  /** `kfifo_out_copy_r`: as much of the next record as the caller asked for. */
  method OutCopyR(f: Kfifo.Fifo, len: nat, recsize: nat) returns (dst: seq<byte>, n: nat)
    requires HoldsRecords(f, recsize) && f.Len() > 0
    ensures n == HeadLength(Ring.Read(f.data[..], f.outIdx, recsize), recsize)
    ensures Records(f, recsize) != [] && n == |Records(f, recsize)[0]|
    ensures dst == Records(f, recsize)[0][..Min(len, n)]
  {
    ghost var r, rest := FirstRecord(f, recsize);
    n := PeekN(f, recsize);
    var l := if len > n then n else len;
    PayloadAt(f, recsize, l);
    dst := CopyBytesOut(f, l, Wrap32(f.outIdx + recsize));
    SliceTake(Bytes(f), recsize, n, l);
  }

  /** `__kfifo_out_peek_r`. */
  method OutPeekR(f: Kfifo.Fifo, len: nat, recsize: nat) returns (dst: seq<byte>)
    requires HoldsRecords(f, recsize)
    ensures Records(f, recsize) == [] ==> dst == []
    ensures Records(f, recsize) != [] ==> dst == Records(f, recsize)[0][..Min(len, |Records(f, recsize)[0]|)]
    ensures (Records(f, recsize), Delivered(dst))
         == Apply(f.mask + 1, recsize, Records(f, recsize), Look(len))
  {
    EmptyOrNot(f, recsize);
    if f.inIdx == f.outIdx {
      return [];
    }
    var n;
    dst, n := OutCopyR(f, len, recsize);
  }

  /** Moving `out` over prefix and payload drops exactly the first record. */
  method Advance(f: Kfifo.Fifo, n: nat, recsize: nat)
    requires HoldsRecords(f, recsize) && f.Len() > 0
    requires n == HeadLength(Ring.Read(f.data[..], f.outIdx, recsize), recsize)
    modifies f`outIdx
    ensures HoldsRecords(f, recsize)
    ensures old(Records(f, recsize)) != [] && Records(f, recsize) == old(Records(f, recsize))[1..]
  {
    hide Decode, HeadLength, Ring.Read, Wrap32, Pow2;
    ghost var r, rest := FirstRecord(f, recsize);
    ghost var k: nat :| 1 <= k <= 31 && f.mask + 1 == Pow2(k);
    BytesDropped(f.data[..], k, f.inIdx, f.outIdx, f.Len(), n + recsize);
    assert ([r] + rest)[1..] == rest;
    f.outIdx := Wrap32(f.outIdx + (n + recsize));
    assert Bytes(f) == old(Bytes(f))[recsize + n..];
  }

  /** `__kfifo_out_r`: one removal of the record queue, even if `len` is shorter than the record. */
  method OutR(f: Kfifo.Fifo, len: nat, recsize: nat) returns (dst: seq<byte>)
    requires HoldsRecords(f, recsize)
    modifies f`outIdx
    ensures HoldsRecords(f, recsize)
    ensures old(Records(f, recsize)) == [] ==> dst == [] && Records(f, recsize) == [] && f.outIdx == old(f.outIdx)
    ensures old(Records(f, recsize)) != [] ==>
              && Records(f, recsize) == old(Records(f, recsize))[1..]
              && dst == old(Records(f, recsize))[0][..Min(len, |old(Records(f, recsize))[0]|)]
    ensures (Records(f, recsize), Delivered(dst))
         == Apply(f.mask + 1, recsize, old(Records(f, recsize)), Get(len))
  {
    EmptyOrNot(f, recsize);
    if f.inIdx == f.outIdx {
      return [];
    }
    var n;
    dst, n := OutCopyR(f, len, recsize);
    Advance(f, n, recsize);
  }

  /** Moving `out` past `in` leaves a difference larger than any capacity. */
  lemma NothingToSkip(f: Kfifo.Fifo, n: nat)
    requires f.Valid() && f.Len() == 0 && 0 < n < 0x2_0000
    ensures Wrap32(f.inIdx - Wrap32(f.outIdx + n)) > f.mask + 1
  {
    var k: nat :| 1 <= k <= 31 && f.mask + 1 == Pow2(k);
    Pow2At32();
    Pow2Mono(k, 31);
    SameIndices(f.inIdx, f.outIdx);
    WrapDifference(f.inIdx, f.outIdx + n);
    assert Wrap32(TWO32 - n) == TWO32 - n == Wrap32(0 - n);
  }

  /** `__kfifo_skip_r`, which unlike `__kfifo_out_r` does not look whether there is a record: it
      removes one if there is one, and otherwise leaves indices that no fifo contents have. */
  method SkipR(f: Kfifo.Fifo, recsize: nat)
    requires HoldsRecords(f, recsize)
    modifies f`outIdx
    ensures old(f.Len()) > 0 <==> f.Valid()
    ensures old(f.Len()) > 0 ==>
              && HoldsRecords(f, recsize)
              && old(Records(f, recsize)) != [] && Records(f, recsize) == old(Records(f, recsize))[1..]
              && (Records(f, recsize), Skipped) == Apply(f.mask + 1, recsize, old(Records(f, recsize)), Skip)
  {
    var n := PeekN(f, recsize);
    if f.Len() > 0 {
      Advance(f, n, recsize);
    } else {
      NothingToSkip(f, n + recsize);
      f.outIdx := Wrap32(f.outIdx + (n + recsize));
    }
  }

  /** A new fifo and a skip: the indices are then those of no contents. */
  method SkipOfNothing() returns (f: Kfifo.Fifo)
    ensures !f.Valid()
  {
    f := new Kfifo.Fifo();
    assert Kfifo.RoundDownPow2(4) == 4;
    var rc := f.Alloc(4, 1, true);
    ScaleOne(4);
    assert Bytes(f) == [];
    SkipR(f, 1);
  }

  method ServeOne(f: Kfifo.Fifo, recsize: nat, op: Op) returns (reply: Reply)
    requires HoldsRecords(f, recsize) && Legal(recsize, Records(f, recsize), op)
    modifies f`inIdx, f`outIdx, f.data
    ensures HoldsRecords(f, recsize)
    ensures (Records(f, recsize), reply) == Apply(f.mask + 1, recsize, old(Records(f, recsize)), op)
  {
    match op {
      case Put(rec) =>
        var n := InR(f, rec, |rec|, recsize);
        reply := Stored(n);
      case Get(len) =>
        var dst := OutR(f, len, recsize);
        reply := Delivered(dst);
      case Look(len) =>
        var dst := OutPeekR(f, len, recsize);
        reply := Delivered(dst);
      case Skip =>
        SkipR(f, recsize);
        reply := Skipped;
    }
  }

  /** Any legal run of record operations on the fifo is the same run of the queue of records. */
  method Serve(f: Kfifo.Fifo, recsize: nat, ops: seq<Op>) returns (replies: seq<Reply>)
    requires HoldsRecords(f, recsize)
    requires LegalRun(f.mask + 1, recsize, Records(f, recsize), ops)
    modifies f`inIdx, f`outIdx, f.data
    ensures HoldsRecords(f, recsize)
    ensures (Records(f, recsize), replies) == Run(f.mask + 1, recsize, old(Records(f, recsize)), ops)
  {
    hide HoldsRecords, Records, Apply, Legal;
    replies := [];
    ghost var cap, start := f.mask + 1, Records(f, recsize);
    assert ops[..0] == [];
    for i := 0 to |ops|
      invariant HoldsRecords(f, recsize)
      invariant (Records(f, recsize), replies) == Run(cap, recsize, start, ops[..i])
    {
      var reply := ServeOne(f, recsize, ops[i]);
      replies := replies + [reply];
      assert ops[..i + 1][..i] == ops[..i];
    }
    assert ops[..|ops|] == ops;
  }
}
