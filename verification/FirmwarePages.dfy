/** The page buffer behind a firmware upload, compat-wireless/compat/compat_firmware_class.c, as the
    flat byte array that it stands for. */
module FirmwarePages {
  import opened Collections
  import opened Words
  import opened Memory

  const PAGE_SIZE := 4096

  // ----- pages and the flat array -----

  predicate Paged(store: seq<seq<byte>>) {
    forall i :: 0 <= i < |store| ==> |store[i]| == PAGE_SIZE
  }

  lemma {:induction false} FlatLength(store: seq<seq<byte>>)
    requires Paged(store)
    ensures |Flatten(store)| == |store| * PAGE_SIZE
  {
    if store == [] {
    } else {
      FlatLength(store[1..]);
    }
  }

  /** The bytes around page `k`. */
  lemma FlatAround(store: seq<seq<byte>>, k: nat)
    requires Paged(store) && k < |store|
    ensures |Flatten(store[..k])| == k * PAGE_SIZE
    ensures Flatten(store) == Flatten(store[..k]) + store[k] + Flatten(store[k + 1..])
  {
    FlatLength(store[..k]);
    FlattenConcat(store[..k], store[k..]);
    assert store == store[..k] + store[k..];
    assert store[k..][1..] == store[k + 1..];
  }

  /** A piece of a page is the corresponding piece of the flat array. */
  lemma FlatPiece(store: seq<seq<byte>>, k: nat, o: nat, n: nat)
    requires Paged(store) && k < |store| && o + n <= PAGE_SIZE
    ensures k * PAGE_SIZE + o + n <= |Flatten(store)|
    ensures Flatten(store)[k * PAGE_SIZE + o..k * PAGE_SIZE + o + n] == store[k][o..o + n]
  {
    FlatAround(store, k);
    SliceMiddle(Flatten(store[..k]), store[k], Flatten(store[k + 1..]), o, n);
  }

  lemma SliceMiddle(a: seq<byte>, b: seq<byte>, c: seq<byte>, o: nat, n: nat)
    requires o + n <= |b|
    ensures (a + b + c)[|a| + o..|a| + o + n] == b[o..o + n]
  {}

  lemma SpliceMiddle(a: seq<byte>, b: seq<byte>, c: seq<byte>, o: nat, s: seq<byte>)
    requires o + |s| <= |b|
    ensures Splice(a + b + c, |a| + o, s) == a + Splice(b, o, s) + c
  {}

  /** Copying into a page is copying into the flat array. */
  lemma FlatSplice(store: seq<seq<byte>>, k: nat, o: nat, s: seq<byte>)
    requires Paged(store) && k < |store| && o + |s| <= PAGE_SIZE
    ensures k * PAGE_SIZE + o + |s| <= |Flatten(store)|
    ensures Flatten(store[k := Splice(store[k], o, s)]) == Splice(Flatten(store), k * PAGE_SIZE + o, s)
  {
    var after := store[k := Splice(store[k], o, s)];
    FlatAround(store, k);
    FlatAround(after, k);
    assert after[..k] == store[..k] && after[k + 1..] == store[k + 1..];
    SpliceMiddle(Flatten(store[..k]), store[k], Flatten(store[k + 1..]), o, s);
  }

  lemma SpliceNext(d: seq<byte>, at: nat, buf: seq<byte>, i: nat, n: nat)
    requires at + |buf| <= |d| && i + n <= |buf|
    ensures Splice(Splice(d, at, buf[..i]), at + i, buf[i..i + n]) == Splice(d, at, buf[..i + n])
  {}

  lemma SpliceEnds(d: seq<byte>, at: nat, buf: seq<byte>)
    requires at + |buf| <= |d|
    ensures Splice(d, at, buf[..0]) == d && buf[..|buf|] == buf
  {}

  lemma FlatGrows(a: seq<seq<byte>>, b: seq<seq<byte>>)
    requires a <= b
    ensures Flatten(a) <= Flatten(b)
  {}

  /** `after` holds `buf` at the offset, and outside of that every byte of `before`. */
  ghost predicate Stored(before: seq<byte>, at: nat, buf: seq<byte>, after: seq<byte>) {
    && |before| <= |after| && at + |buf| <= |after|
    && after[at..at + |buf|] == buf
    && forall i :: 0 <= i < |before| && !(at <= i < at + |buf|) ==> after[i] == before[i]
  }

  lemma StoredBySplice(before: seq<byte>, grown: seq<byte>, at: nat, buf: seq<byte>)
    requires before <= grown && at + |buf| <= |grown|
    ensures Stored(before, at, buf, Splice(grown, at, buf))
  {}

  function Max(a: nat, b: nat): nat {
    if a >= b then a else b
  }

  /** At most `count` bytes from the offset; none from behind the end. */
  function Clip(d: seq<byte>, offset: nat, count: nat): seq<byte> {
    if offset > |d| then [] else d[offset..offset + Min(count, |d| - offset)]
  }

  lemma SlicesMeet(d: seq<byte>, a: nat, b: nat, c: nat)
    requires a <= b <= c <= |d|
    ensures d[a..b] + d[b..c] == d[a..c]
  {}

  lemma SliceOfPrefix(d: seq<byte>, n: nat, a: nat, b: nat)
    requires a <= b <= n <= |d|
    ensures d[..n][a..b] == d[a..b]
  {}

  datatype Reply = Moved(n: nat) | Eperm | Enodev | Enomem

  /** Pages that hold `n` bytes. */
  function PagesFor(n: nat): (p: nat)
    ensures n <= p * PAGE_SIZE < n + PAGE_SIZE
  {
    (n + PAGE_SIZE - 1) / PAGE_SIZE
  }

  // ----- the buffer -----

  class Buffer {
    var pages: array<array?<byte>>
    var nrPages: nat
    var pageArraySize: nat
    var size: nat
    var done: bool
    var aborted: bool
    ghost var frames: seq<array<byte>>
    ghost var store: seq<seq<byte>>

    /** The pages in use are distinct, hold what `store` says, and cover the size. */
    ghost predicate Valid()
      reads this, pages, frames
    {
      && pages.Length == pageArraySize && nrPages <= pageArraySize
      && |frames| == |store| == nrPages && Paged(store)
      && (forall i :: 0 <= i < nrPages ==> pages[i] == frames[i] && frames[i][..] == store[i])
      && (forall i, j :: 0 <= i < j < nrPages ==> frames[i] != frames[j])
      && size <= nrPages * PAGE_SIZE
    }

    constructor ()
      ensures Valid() && size == 0 && store == [] && frames == [] && !done && !aborted && fresh(pages)
    {
      pages := new array?<byte>[0];
      nrPages, pageArraySize, size, done, aborted := 0, 0, 0, false, false;
      frames, store := [], [];
    }

    /** How many allocations it takes to hold `minSize` bytes. */
    function Needed(minSize: nat): nat
      reads this
    {
      var pagesNeeded := PagesFor(minSize);
      (if pageArraySize < pagesNeeded then 1 else 0) + if nrPages < pagesNeeded then pagesNeeded - nrPages else 0
    }

    /** The first part of `fw_realloc_buffer`: a larger array of page pointers with the old ones in
        front. `mem` says whether the allocation succeeds. */
    method GrowArray(needed: nat, mem: bool) returns (ok: bool)
      requires Valid()
      modifies this`pages, this`pageArraySize, this`aborted
      ensures Valid() && ok == (old(pageArraySize) >= needed || mem)
      ensures ok ==> pageArraySize >= needed && aborted == old(aborted)
      ensures ok && pages != old(pages) ==> pageArraySize >= 2 * old(pageArraySize)
      ensures !ok ==> aborted && pages == old(pages)
      ensures pages == old(pages) || fresh(pages)
    {
      ok := true;
      if pageArraySize < needed {
        var newSize := if needed >= pageArraySize * 2 then needed else pageArraySize * 2;
        if !mem {
          aborted := true;
          return false;
        }
        var newPages := new array?<byte>[newSize](_ => null);
        for i := 0 to pageArraySize
          modifies newPages
          invariant forall j :: 0 <= j < i ==> newPages[j] == pages[j]
        {
          newPages[i] := pages[i];
        }
        pages, pageArraySize := newPages, newSize;
      }
    }

    /** One more page, with whatever content it comes with. */
    method AddPage(mem: bool) returns (ok: bool)
      requires Valid() && nrPages < pageArraySize
      modifies this`nrPages, this`aborted, this`frames, this`store, pages
      ensures Valid() && old(store) <= store && old(frames) <= frames && ok == mem
      ensures forall f :: f in frames && f !in old(frames) ==> fresh(f)
      ensures ok ==> nrPages == old(nrPages) + 1 && aborted == old(aborted)
      ensures !ok ==> nrPages == old(nrPages) && store == old(store) && aborted
    {
      var page: array?<byte> := null;
      if mem {
        page := new byte[PAGE_SIZE];
      }
      pages[nrPages] := page;
      if page == null {
        aborted := true;
        return false;
      }
      frames, store := frames + [page], store + [page[..]];
      nrPages := nrPages + 1;
      return true;
    }

    /** `fw_realloc_buffer`: enough pages for `minSize` bytes, or an abort; no byte changes. The first
        `mem` allocations succeed. */
    method Realloc(minSize: nat, mem: nat) returns (ok: bool)
      requires Valid()
      modifies this`pages, this`pageArraySize, this`nrPages, this`aborted, this`frames, this`store, pages
      ensures Valid() && old(store) <= store && old(frames) <= frames
      ensures pages == old(pages) || fresh(pages)
      ensures forall f :: f in frames && f !in old(frames) ==> fresh(f)
      ensures ok <==> old(Needed(minSize)) <= mem
      ensures ok ==> minSize <= nrPages * PAGE_SIZE && aborted == old(aborted)
      ensures !ok ==> aborted
    {
      var needed, left := PagesFor(minSize), mem;
      if pageArraySize < needed && left > 0 {
        left := left - 1;
      }
      ok := GrowArray(needed, mem > 0);
      if !ok {
        return;
      }
      while nrPages < needed
        invariant Valid() && pageArraySize >= needed && aborted == old(aborted)
        invariant old(store) <= store && old(frames) <= frames
        invariant pages == old(pages) || fresh(pages)
        invariant forall f :: f in frames && f !in old(frames) ==> fresh(f)
        invariant 0 <= left && (nrPages < needed ==> (needed - nrPages <= left <==> old(Needed(minSize)) <= mem))
        invariant nrPages >= needed ==> old(Needed(minSize)) <= mem
      {
        ok := AddPage(left > 0);
        if !ok {
          return;
        }
        left := left - 1;
      }
      return true;
    }

    /** One `memcpy` into a page. */
    method CopyToPage(k: nat, o: nat, s: seq<byte>)
      requires Valid() && k < nrPages && o + |s| <= PAGE_SIZE
      modifies this`store, frames[k]
      ensures Valid() && |store| == |old(store)|
      ensures k * PAGE_SIZE + o + |s| <= |Flatten(old(store))|
      ensures Flatten(store) == Splice(Flatten(old(store)), k * PAGE_SIZE + o, s)
    {
      FlatSplice(store, k, o, s);
      Memcpy(pages[k], o, s);
      store := store[k := Splice(store[k], o, s)];
    }

    /** The copy loop of `firmware_data_write`. */
    method CopyIn(at: nat, buf: seq<byte>)
      requires Valid() && at + |buf| <= nrPages * PAGE_SIZE
      modifies this`store, frames
      ensures Valid() && |store| == |old(store)|
      ensures at + |buf| <= |Flatten(old(store))| && Flatten(store) == Splice(Flatten(old(store)), at, buf)
    {
      hide Valid, Splice, Flatten;
      var offset, count := at, |buf|;
      ghost var start, framesAt := Flatten(store), frames;
      Shape();
      SpliceEnds(start, at, buf);
      while count > 0
        invariant Valid() && frames == framesAt && |store| == |old(store)| == nrPages
        invariant 0 <= count <= |buf| && offset == at + |buf| - count
        invariant Flatten(store) == Splice(start, at, buf[..|buf| - count])
      {
        Shape();
        var nr, ofs := offset / PAGE_SIZE, offset % PAGE_SIZE;
        var cnt := Min(PAGE_SIZE - ofs, count);
        var done := |buf| - count;
        SpliceNext(start, at, buf, done, cnt);
        CopyToPage(nr, ofs, buf[done..done + cnt]);
        offset, count := offset + cnt, count - cnt;
      }
    }

    lemma Shape()
      requires Valid()
      ensures |store| == nrPages == |frames| && |Flatten(store)| == nrPages * PAGE_SIZE && size <= |Flatten(store)|
    {
      FlatLength(store);
    }

    /** `firmware_data_write`: the flat array grows if it must and then holds the data at the offset,
        and every byte stored before is still there unless it was written over. */
    method Write(offset: nat, buf: seq<byte>, capable: bool, mem: nat) returns (rv: Reply)
      requires Valid()
      modifies this, pages, frames
      ensures Valid() && done == old(done)
      ensures pages == old(pages) || fresh(pages)
      ensures forall f :: f in frames && f !in old(frames) ==> fresh(f)
      ensures rv == if !capable then Eperm else if done then Enodev
                    else if old(Needed(offset + |buf|)) > mem then Enomem else Moved(|buf|)
      ensures rv.Moved? ==> Stored(Flatten(old(store)), offset, buf, Flatten(store))
      ensures rv.Moved? ==> size == Max(offset + |buf|, old(size))
      ensures !rv.Moved? ==> size == old(size) && Flatten(old(store)) <= Flatten(store)
      ensures rv == Enomem ==> aborted
    {
      hide Valid, Flatten, Stored;
      if !capable {
        return Eperm;
      }
      if done {
        return Enodev;
      }
      ghost var before := store;
      var ok := Realloc(offset + |buf|, mem);
      FlatGrows(before, store);
      if !ok {
        return Enomem;
      }
      Shape();
      ghost var grown := Flatten(store);
      assert forall i :: 0 <= i < |frames| ==> frames[i] in old(frames) || fresh(frames[i]);
      CopyIn(offset, buf);
      StoredBySplice(Flatten(before), grown, offset, buf);
      Shape();
      SetSize(Max(offset + |buf|, size));
      return Moved(|buf|);
    }

    method SetSize(n: nat)
      requires Valid() && n <= nrPages * PAGE_SIZE
      modifies this`size
      ensures Valid() && size == n
    {
      size := n;
    }

    /** `firmware_data_read`: the bytes of the flat array from the offset, clipped to the size. */
    method Read(offset: nat, count0: nat) returns (rv: Reply, out: seq<byte>)
      requires Valid()
      ensures done ==> rv == Enodev && out == []
      ensures !done ==> rv == Moved(|out|)
      ensures !done ==> size <= |Flatten(store)| && out == Clip(Flatten(store)[..size], offset, count0)
    {
      hide Valid, Flatten;
      out := [];
      if done {
        return Enodev, [];
      }
      Shape();
      if offset > size {
        return Moved(0), [];
      }
      var count := Min(count0, size - offset);
      var total, at := count, offset;
      while count > 0
        invariant 0 <= count <= total && at == offset + total - count && |out| == total - count
        invariant out == Flatten(store)[offset..at]
      {
        var nr, ofs := at / PAGE_SIZE, at % PAGE_SIZE;
        var cnt := Min(PAGE_SIZE - ofs, count);
        var piece := CopyFromPage(nr, ofs, cnt);
        SlicesMeet(Flatten(store), offset, at, at + cnt);
        out := out + piece;
        at, count := at + cnt, count - cnt;
      }
      SliceOfPrefix(Flatten(store), size, offset, at);
      return Moved(total), out;
    }

    method CopyFromPage(k: nat, o: nat, n: nat) returns (s: seq<byte>)
      requires Valid() && k < nrPages && o + n <= PAGE_SIZE
      ensures k * PAGE_SIZE + o + n <= |Flatten(store)|
      ensures s == Flatten(store)[k * PAGE_SIZE + o..k * PAGE_SIZE + o + n]
    {
      FlatPiece(store, k, o, n);
      s := pages[k][o..o + n];
      assert s == frames[k][..][o..o + n];
    }
  }

  // ----- any sequence of reads and writes -----

  datatype Request = WriteReq(offset: nat, data: seq<byte>, capable: bool, mem: nat) | ReadReq(offset: nat, count: nat)
  datatype Response = Response(reply: Reply, out: seq<byte>)

  /** The last byte written to each place, and the highest end of a write. */
  datatype Model = Model(written: map<nat, byte>, size: nat)

  function Record(w: map<nat, byte>, at: nat, data: seq<byte>): map<nat, byte> {
    if data == [] then w else var n := |data| - 1; Record(w, at, data[..n])[at + n := data[n]]
  }

  lemma {:induction false} RecordAt(w: map<nat, byte>, at: nat, data: seq<byte>, i: nat)
    ensures i in Record(w, at, data) <==> i in w || at <= i < at + |data|
    ensures i in Record(w, at, data) ==> Record(w, at, data)[i] == if at <= i < at + |data| then data[i - at] else w[i]
  {
    if data == [] {
    } else {
      RecordAt(w, at, data[..|data| - 1], i);
    }
  }

  function After(m: Model, q: Request, r: Response): Model {
    if q.WriteReq? && r.reply.Moved?
    then Model(Record(m.written, q.offset, q.data), Max(q.offset + |q.data|, m.size))
    else m
  }

  function Clipped(m: Model, offset: nat, count: nat): nat {
    if offset > m.size then 0 else Min(count, m.size - offset)
  }

  /** The right answer to a request: a read returns the last bytes written, up to the size; a write with
      memory for all its pages and a page array succeeds. */
  ghost predicate Right(m: Model, done: bool, q: Request, r: Response) {
    match q
    case WriteReq(offset, data, capable, mem) =>
      && r.out == []
      && if !capable then r.reply == Eperm else if done then r.reply == Enodev
         else if mem > PagesFor(offset + |data|) then r.reply == Moved(|data|)
         else r.reply == Enomem || r.reply == Moved(|data|)
    case ReadReq(offset, count) =>
      if done then r == Response(Enodev, [])
      else
        && r.reply == Moved(|r.out|) && |r.out| == Clipped(m, offset, count)
        && forall i :: 0 <= i < |r.out| && offset + i in m.written ==> r.out[i] == m.written[offset + i]
  }

  ghost predicate Holds(m: Model, flat: seq<byte>, size: nat) {
    && m.size == size <= |flat|
    && forall i :: i in m.written ==> i < size && flat[i] == m.written[i]
  }

  lemma WriteHolds(m: Model, before: seq<byte>, size: nat, at: nat, data: seq<byte>, after: seq<byte>)
    requires Holds(m, before, size) && Stored(before, at, data, after)
    ensures Holds(Model(Record(m.written, at, data), Max(at + |data|, m.size)), after, Max(at + |data|, size))
  {
    var w := Record(m.written, at, data);
    forall i | i in w
      ensures i < Max(at + |data|, size) && after[i] == w[i]
    {
      RecordAt(m.written, at, data, i);
      if at <= i < at + |data| {
        assert after[i] == after[at..at + |data|][i - at];
      }
    }
  }

  lemma FailureHolds(m: Model, before: seq<byte>, size: nat, after: seq<byte>)
    requires Holds(m, before, size) && before <= after
    ensures Holds(m, after, size)
  {}

  lemma ReadRight(m: Model, flat: seq<byte>, size: nat, offset: nat, count: nat, out: seq<byte>)
    requires Holds(m, flat, size) && out == Clip(flat[..size], offset, count)
    ensures Right(m, false, ReadReq(offset, count), Response(Moved(|out|), out))
  {}

  method ServeOne(b: Buffer, q: Request, ghost m: Model) returns (r: Response)
    requires b.Valid() && Holds(m, Flatten(b.store), b.size)
    modifies b, b.pages, b.frames
    ensures b.Valid() && b.done == old(b.done)
    ensures b.pages == old(b.pages) || fresh(b.pages)
    ensures forall f :: f in b.frames && f !in old(b.frames) ==> fresh(f)
    ensures Right(m, b.done, q, r) && Holds(After(m, q, r), Flatten(b.store), b.size)
  {
    hide Buffer.Valid, Flatten, Stored, Holds, Record;
    match q
    case WriteReq(offset, data, capable, mem) =>
      ghost var before, size := Flatten(b.store), b.size;
      var reply := b.Write(offset, data, capable, mem);
      r := Response(reply, []);
      if reply.Moved? {
        WriteHolds(m, before, size, offset, data, Flatten(b.store));
      } else {
        FailureHolds(m, before, size, Flatten(b.store));
      }
    case ReadReq(offset, count) =>
      var reply, out := b.Read(offset, count);
      r := Response(reply, out);
      if !b.done {
        ReadRight(m, Flatten(b.store), b.size, offset, count, out);
      }
  }

  function ModelAt(qs: seq<Request>, rs: seq<Response>, k: nat): Model
    requires k <= |qs| && k <= |rs|
  {
    if k == 0 then Model(map[], 0) else After(ModelAt(qs, rs, k - 1), qs[k - 1], rs[k - 1])
  }

  lemma {:induction false} ModelAtPrefix(qs: seq<Request>, rs: seq<Response>, r: Response, k: nat)
    requires k <= |rs| < |qs|
    ensures ModelAt(qs, rs + [r], k) == ModelAt(qs, rs, k)
  {
    if k == 0 {
    } else {
      ModelAtPrefix(qs, rs, r, k - 1);
    }
  }

  /** Every sequence of reads and writes on a new buffer is answered as by a flat array. */
  method Serve(qs: seq<Request>) returns (rs: seq<Response>)
    ensures |rs| == |qs|
    ensures forall k :: 0 <= k < |qs| ==> Right(ModelAt(qs, rs, k), false, qs[k], rs[k])
  {
    hide Buffer.Valid, Flatten, Right, Holds, After;
    var b := new Buffer();
    rs := [];
    StartHolds();
    while |rs| < |qs|
      invariant |rs| <= |qs| && b.Valid() && !b.done
      invariant fresh(b) && fresh(b.pages) && forall i :: 0 <= i < |b.frames| ==> fresh(b.frames[i])
      invariant Holds(ModelAt(qs, rs, |rs|), Flatten(b.store), b.size)
      invariant forall k :: 0 <= k < |rs| ==> Right(ModelAt(qs, rs, k), false, qs[k], rs[k])
    {
      var n := |rs|;
      ghost var frames := b.frames;
      var r := ServeOne(b, qs[n], ModelAt(qs, rs, n));
      forall i | 0 <= i < |b.frames|
        ensures fresh(b.frames[i])
      {
        assert b.frames[i] in b.frames;
        if b.frames[i] in frames {
          var j :| 0 <= j < |frames| && frames[j] == b.frames[i];
        }
      }
      forall k | 0 <= k <= n
        ensures ModelAt(qs, rs + [r], k) == ModelAt(qs, rs, k)
      {
        ModelAtPrefix(qs, rs, r, k);
      }
      rs := rs + [r];
    }
  }

  lemma StartHolds()
    ensures Holds(Model(map[], 0), Flatten([]), 0)
  {}
}
