/** A byte buffer read and written circularly, as a value. `Read` and `Write` are the meaning
    of the two `memcpy` calls in each of the fifo's copy routines. */
module Ring {
  import opened Words
  import opened Memory

  /** Position `x` in a buffer of `m` bytes that is walked round and round: `x % m`, by
      repeated subtraction. */
  function Around(x: nat, m: nat): (r: nat)
    requires m > 0
    ensures r < m
  {
    if x < m then x else Around(x - m, m)
  }

  lemma {:induction false} AroundIsMod(x: nat, m: nat)
    requires m > 0
    ensures Around(x, m) == x % m
  {
    if x < m {
      ModUnique(x, m, 0, x);
    } else {
      AroundIsMod(x - m, m);
      ModShift(x - m, m, 1);
    }
  }

  lemma {:induction false} AroundAdd(x: nat, y: nat, m: nat)
    requires m > 0
    ensures Around(Around(x, m) + y, m) == Around(x + y, m)
  {
    if x < m {
    } else {
      AroundAdd(x - m, y, m);
    }
  }

  /** Two positions less than one round apart are different. */
  lemma {:induction false} AroundDistinct(x: nat, y: nat, m: nat)
    requires m > 0 && x < y < x + m
    ensures Around(x, m) != Around(y, m)
  {
    if x >= m {
      AroundDistinct(x - m, y - m, m);
    } else if y >= m {
      assert Around(y - m, m) == y - m;
    }
  }

  /** The `n` bytes that start at position `start` and run around the end of `d`. */
  function Read(d: seq<byte>, start: nat, n: nat): (r: seq<byte>)
    requires |d| > 0
    ensures |r| == n
  {
    seq(n, i requires 0 <= i < n => d[Around(start + i, |d|)])
  }

  /** `d` with the bytes of `s` laid out circularly from position `start`. */
  function Write(d: seq<byte>, start: nat, s: seq<byte>): (r: seq<byte>)
    requires |d| > 0
    ensures |r| == |d|
  {
    if s == [] then d else
      var n := |s| - 1;
      Write(d, start, s[..n])[Around(start + n, |d|) := s[n]]
  }

  /** Every byte written is found in its place. */
  lemma {:induction false} Written(d: seq<byte>, start: nat, s: seq<byte>, i: nat)
    requires |d| > 0 && i < |s| <= |d|
    ensures Write(d, start, s)[Around(start + i, |d|)] == s[i]
  {
    var n := |s| - 1;
    if i < n {
      Written(d, start, s[..n], i);
      AroundDistinct(start + i, start + n, |d|);
    }
  }

  /** Every position up to one round before or behind the written bytes is untouched. */
  lemma {:induction false} Untouched(d: seq<byte>, start: nat, s: seq<byte>, p: nat)
    requires |d| > 0 && |s| <= |d|
    requires p < start && start + |s| <= p + |d|
    ensures Write(d, start, s)[Around(p, |d|)] == d[Around(p, |d|)]
  {
    if s == [] {
    } else {
      var n := |s| - 1;
      Untouched(d, start, s[..n], p);
      AroundDistinct(p, start + n, |d|);
    }
  }

  /** Positions only matter up to the size of the buffer. */
  lemma SamePlaceRead(d: seq<byte>, x: nat, y: nat, n: nat)
    requires |d| > 0 && Around(x, |d|) == Around(y, |d|)
    ensures Read(d, x, n) == Read(d, y, n)
  {}

  lemma {:induction false} SamePlaceWrite(d: seq<byte>, x: nat, y: nat, s: seq<byte>)
    requires |d| > 0 && Around(x, |d|) == Around(y, |d|)
    ensures Write(d, x, s) == Write(d, y, s)
  {
    if s == [] {
    } else {
      var n := |s| - 1;
      SamePlaceWrite(d, x, y, s[..n]);
      AroundAdd(x, n, |d|);
      AroundAdd(y, n, |d|);
    }
  }

  /** Writing directly behind the stored bytes appends to them, as long as they all fit:
      nothing unread is overwritten, wherever the end of the buffer falls. */
  lemma ReadAfterWrite(d: seq<byte>, start: nat, n: nat, s: seq<byte>)
    requires |d| > 0 && n + |s| <= |d|
    ensures Read(Write(d, start + n, s), start, n + |s|) == Read(d, start, n) + s
  {
    var w := Write(d, start + n, s);
    var after, before := Read(w, start, n + |s|), Read(d, start, n) + s;
    forall i | 0 <= i < n + |s|
      ensures after[i] == before[i]
    {
      if i < n {
        Untouched(d, start + n, s, start + i);
      } else {
        Written(d, start + n, s, i - n);
        assert start + i == start + n + (i - n);
      }
    }
  }

  /** Writing at the position where the stored bytes end, however that position is expressed. */
  lemma AppendAt(d: seq<byte>, start: nat, n: nat, at: nat, s: seq<byte>)
    requires |d| > 0 && n + |s| <= |d| && Around(at, |d|) == Around(start + n, |d|)
    ensures Read(Write(d, at, s), start, n + |s|) == Read(d, start, n) + s
  {
    SamePlaceWrite(d, at, start + n, s);
    ReadAfterWrite(d, start, n, s);
  }

  /** Two writes one behind the other are one write. */
  lemma {:induction false} WriteTwice(d: seq<byte>, start: nat, a: seq<byte>, b: seq<byte>)
    requires |d| > 0
    ensures Write(Write(d, start, a), start + |a|, b) == Write(d, start, a + b)
  {
    if b == [] {
      assert a + b == a;
    } else {
      var n := |b| - 1;
      WriteTwice(d, start, a, b[..n]);
      assert (a + b)[..|a| + n] == a + b[..n];
    }
  }

  /** Dropping bytes from the front is advancing the start. */
  lemma ReadDrop(d: seq<byte>, start: nat, n: nat, k: nat)
    requires |d| > 0 && k <= n
    ensures Read(d, start, n)[k..] == Read(d, start + k, n - k)
    ensures Read(d, start, n)[..k] == Read(d, start, k)
  {}

  /** Reading on from the position `k` bytes behind the start, however it is expressed. */
  lemma DropAt(d: seq<byte>, start: nat, n: nat, k: nat, at: nat)
    requires |d| > 0 && k <= n && Around(at, |d|) == Around(start + k, |d|)
    ensures Read(d, at, n - k) == Read(d, start, n)[k..]
    ensures Read(d, start, k) == Read(d, start, n)[..k]
  {
    SamePlaceRead(d, at, start + k, n - k);
    ReadDrop(d, start, n, k);
  }

  /** The split that the copy routines make: up to the end of the buffer, then from its start. */
  lemma ReadSplit(d: seq<byte>, off: nat, n: nat)
    requires off < |d| && n <= |d|
    ensures var l := Min(n, |d| - off);
            Read(d, off, n) == d[off..off + l] + d[..n - l]
  {
    var l := Min(n, |d| - off);
    var all, parts := Read(d, off, n), d[off..off + l] + d[..n - l];
    forall i | 0 <= i < n
      ensures all[i] == parts[i]
    {
      if i < l {
        assert Around(off + i, |d|) == off + i;
      } else {
        assert Around(off + i, |d|) == Around(off + i - |d|, |d|) == i - l;
      }
    }
  }

  /** A write that stays before the end of the buffer is one copy. */
  lemma {:induction false} WriteStraight(d: seq<byte>, off: nat, s: seq<byte>)
    requires off + |s| <= |d| && |d| > 0
    ensures Write(d, off, s) == Splice(d, off, s)
  {
    if s == [] {
    } else {
      var n := |s| - 1;
      WriteStraight(d, off, s[..n]);
      SpliceSnoc(d, off, s[..n], s[n]);
      assert s[..n] + [s[n]] == s;
    }
  }

  lemma SpliceSnoc(d: seq<byte>, off: nat, s: seq<byte>, v: byte)
    requires off + |s| < |d|
    ensures Splice(d, off, s + [v]) == Splice(d, off, s)[off + |s| := v]
  {}

  /** Any write that fits is two copies, the second from the start of the buffer. */
  lemma WriteSplit(d: seq<byte>, off: nat, s: seq<byte>)
    requires off < |d| && |s| <= |d|
    ensures var l := Min(|s|, |d| - off);
            Write(d, off, s) == Splice(Splice(d, off, s[..l]), 0, s[l..])
  {
    var l := Min(|s|, |d| - off);
    WriteTwice(d, off, s[..l], s[l..]);
    assert s[..l] + s[l..] == s;
    WriteStraight(d, off, s[..l]);
    var d1 := Splice(d, off, s[..l]);
    if l == |d| - off {
      assert Around(off + l - |d|, |d|) == 0;
      SamePlaceWrite(d1, off + l, 0, s[l..]);
    } else {
      assert s[l..] == [];
    }
    WriteStraight(d1, 0, s[l..]);
  }

  /** The two-copy layout, one byte at a time. */
  lemma TwoParts(off: nat, i: nat, n: nat, m: nat)
    requires off < m && i < n <= m
    ensures Around(off + i, m) == if i < Min(n, m - off) then off + i else i - Min(n, m - off)
  {}
}
