/** The DMA view of compat-wireless/compat/kfifo.c: `setup_sgl` describes a fifo byte range by
    scatter entries, each a run of physical memory. */
module KfifoScatter {
  import opened Words
  import Ring
  import Kfifo

  const PAGE_SIZE := 4096

  /** The physical address of the page that holds a virtual page, for every virtual page. */
  type PageMap = nat -> int

  /** The physical address behind a virtual one. */
  function Phys(pm: PageMap, v: nat): int {
    pm(v / PAGE_SIZE) + v % PAGE_SIZE
  }

  /** The physical addresses of `n` successive virtual bytes. */
  function Translate(pm: PageMap, v: nat, n: nat): (r: seq<int>)
    ensures |r| == n
  {
    seq(n, i requires 0 <= i < n => Phys(pm, v + i))
  }

  /** A scatter entry: `length` bytes from `offset` in the page at physical address `page`. */
  datatype Entry = Entry(page: int, length: nat, offset: nat)

  /** The physical addresses an entry stands for: one contiguous run. */
  function Denotes(e: Entry): (r: seq<int>)
    ensures |r| == e.length
  {
    seq(e.length, i requires 0 <= i < e.length => e.page + e.offset + i)
  }

  function DenotesAll(es: seq<Entry>): seq<int> {
    if es == [] then [] else DenotesAll(es[..|es| - 1]) + Denotes(es[|es| - 1])
  }

  lemma DenotesSnoc(es: seq<Entry>, e: Entry)
    ensures DenotesAll(es + [e]) == DenotesAll(es) + Denotes(e)
  {}

  lemma {:induction false} DenotesConcat(es: seq<Entry>, fs: seq<Entry>)
    ensures DenotesAll(es + fs) == DenotesAll(es) + DenotesAll(fs)
  {
    if fs == [] {
      assert es + fs == es;
    } else {
      var n := |fs| - 1;
      DenotesConcat(es, fs[..n]);
      assert (es + fs)[..|es + fs| - 1] == es + fs[..n];
    }
  }

  lemma TranslateSplit(pm: PageMap, v: nat, n: nat, m: nat)
    ensures Translate(pm, v, n + m) == Translate(pm, v, n) + Translate(pm, v + n, m)
  {}

  /** The run of `pages` whole pages from virtual page `p` is physically contiguous. */
  ghost predicate Contiguous(pm: PageMap, p: nat, pages: nat) {
    forall i :: 0 <= i < pages ==> pm(p + i) == pm(p) + i * PAGE_SIZE
  }

  /** Within a contiguous run of pages, translation is one addition. */
  lemma ContiguousBytes(pm: PageMap, p: nat, pages: nat, off: nat, n: nat)
    requires Contiguous(pm, p, pages) && off + n <= pages * PAGE_SIZE
    ensures Translate(pm, p * PAGE_SIZE + off, n) == Denotes(Entry(pm(p), n, off))
  {
    var virt, phys := Translate(pm, p * PAGE_SIZE + off, n), Denotes(Entry(pm(p), n, off));
    forall i | 0 <= i < n
      ensures virt[i] == phys[i]
    {
      var q, r := (off + i) / PAGE_SIZE, (off + i) % PAGE_SIZE;
      assert off + i == q * PAGE_SIZE + r;
      var v := p * PAGE_SIZE + off + i;
      assert v == (p + q) * PAGE_SIZE + r;
      assert v / PAGE_SIZE == p + q && v % PAGE_SIZE == r;
      assert virt[i] == Phys(pm, v);
      assert pm(p + q) == pm(p) + q * PAGE_SIZE;
    }
  }

  /** One more entry for the next bytes of a range. */
  lemma Emit(pm: PageMap, sgl: seq<Entry>, buf: nat, done: nat, page: nat, pages: nat, off: nat, n: nat)
    requires DenotesAll(sgl) == Translate(pm, buf, done)
    requires Contiguous(pm, page, pages) && page * PAGE_SIZE + off == buf + done && off + n <= pages * PAGE_SIZE
    ensures DenotesAll(sgl + [Entry(pm(page), n, off)]) == Translate(pm, buf, done + n)
  {
    ContiguousBytes(pm, page, pages, off, n);
    TranslateSplit(pm, buf, done, n);
    DenotesSnoc(sgl, Entry(pm(page), n, off));
  }

  lemma NextPage(b: nat)
    ensures (b + PAGE_SIZE) / PAGE_SIZE == b / PAGE_SIZE + 1
  {}

  /** A run of pages goes on exactly if the next page is where the check expects it. */
  lemma Extend(pm: PageMap, p: nat, pages: nat)
    requires Contiguous(pm, p, pages)
    ensures Contiguous(pm, p, pages + 1) <==> pm(p + pages) == pm(p) + pages * PAGE_SIZE
  {}

  /** Virtual page `k` does not follow the page before it in physical memory. */
  predicate Broken(pm: PageMap, k: nat) {
    k > 0 && pm(k) != pm(k - 1) + PAGE_SIZE
  }

  /** The number of breaks from page `a` to page `b`. */
  function Breaks(pm: PageMap, a: nat, b: nat): nat {
    if b <= a then 0 else Breaks(pm, a, b - 1) + if Broken(pm, b) then 1 else 0
  }

  lemma {:induction false} BreaksMono(pm: PageMap, a: nat, b: nat, c: nat)
    requires b <= c
    ensures Breaks(pm, a, b) <= Breaks(pm, a, c)
  {
    if b == c {
    } else {
      BreaksMono(pm, a, b, c - 1);
    }
  }

  /** The comparison with the first page of a run finds the breaks. */
  lemma BreakSeen(pm: PageMap, p: nat, pages: nat)
    requires Contiguous(pm, p, pages) && pages > 0
    ensures pm(p) != pm(p + pages) - pages * PAGE_SIZE <==> Broken(pm, p + pages)
  {
    assert pm(p + (pages - 1)) == pm(p) + (pages - 1) * PAGE_SIZE;
  }

  lemma NoBreakInside(pm: PageMap, p: nat, pages: nat)
    requires Contiguous(pm, p, pages + 1) && pages > 0
    ensures !Broken(pm, p + pages)
  {
    assert pm(p + (pages - 1)) == pm(p) + (pages - 1) * PAGE_SIZE;
    assert pm(p + pages) == pm(p) + pages * PAGE_SIZE;
  }

  /** How many entries it takes, if there is room for `limit`. */
  function EntryCount(pm: PageMap, buf: nat, limit: nat, len: nat): nat {
    if len == 0 then 0 else Min(limit, 1 + Breaks(pm, buf / PAGE_SIZE, (buf + len) / PAGE_SIZE))
  }

  /** There is room left at the end of a range that ends with its page, and the page behind it lies
      elsewhere. */
  predicate EmptyTail(pm: PageMap, buf: nat, limit: nat, len: nat) {
    && len > 0 && (buf + len) % PAGE_SIZE == 0 && Broken(pm, (buf + len) / PAGE_SIZE)
    && Breaks(pm, buf / PAGE_SIZE, (buf + len) / PAGE_SIZE) < limit
  }

  /** Page 0 and the pages behind it in different places. */
  function Scattered(k: nat): int {
    if k == 0 then 0 else (k + 16) * PAGE_SIZE
  }

  /** One whole page, with room for two entries: the second one is empty. */
  lemma EmptyTailOccurs()
    ensures EmptyTail(Scattered, 0, 2, PAGE_SIZE) && EntryCount(Scattered, 0, 2, PAGE_SIZE) == 2
  {
    assert Breaks(Scattered, 0, 1) == Breaks(Scattered, 0, 0) + 1;
  }

  ghost predicate HasEmpty(sgl: seq<Entry>) {
    exists i :: 0 <= i < |sgl| && sgl[i].length == 0
  }

  lemma EmptyConcat(a: seq<Entry>, b: seq<Entry>)
    ensures HasEmpty(a + b) <==> HasEmpty(a) || HasEmpty(b)
  {
    var c := a + b;
    assert forall i :: 0 <= i < |a| ==> c[i] == a[i];
    assert forall i :: 0 <= i < |b| ==> c[|a| + i] == b[i];
  }

  lemma EmptySnoc(a: seq<Entry>, e: Entry)
    ensures HasEmpty(a + [e]) <==> HasEmpty(a) || e.length == 0
  {
    EmptyConcat(a, [e]);
    assert HasEmpty([e]) <==> [e][0].length == 0;
  }

  /** The loop of `setup_sgl_buf` is at page `page`, with `pages` more pages behind it in one run. */
  ghost predicate AtPage(pm: PageMap, buf: nat, len: nat, sgl: seq<Entry>, done: nat, page: nat, pages: nat, off: nat, rest: nat) {
    && done + rest == len && off < PAGE_SIZE && page * PAGE_SIZE + off == buf + done
    && ((page == buf / PAGE_SIZE && done == 0) || (page > buf / PAGE_SIZE && off == 0 && Broken(pm, page)))
    && Contiguous(pm, page, pages + 1)
    && |sgl| == Breaks(pm, buf / PAGE_SIZE, page + pages)
    && (page + pages) * PAGE_SIZE <= buf + len
    && DenotesAll(sgl) == Translate(pm, buf, done) && !HasEmpty(sgl)
  }

  /** The last entry. */
  lemma Finish(pm: PageMap, buf: nat, limit: nat, len: nat, sgl: seq<Entry>, done: nat, page: nat, pages: nat, off: nat, rest: nat)
    requires AtPage(pm, buf, len, sgl, done, page, pages, off, rest) && len > 0
    requires buf + len < (page + pages + 1) * PAGE_SIZE && |sgl| < limit
    ensures var all := sgl + [Entry(pm(page), rest, off)];
            && DenotesAll(all) == Translate(pm, buf, len) && |all| == EntryCount(pm, buf, limit, len)
            && (HasEmpty(all) <==> EmptyTail(pm, buf, limit, len))
  {
    hide Translate, Contiguous, Breaks, DenotesAll, HasEmpty;
    Emit(pm, sgl, buf, done, page, pages + 1, off, rest);
    assert (buf + len) / PAGE_SIZE == page + pages;
    if pages > 0 {
      NoBreakInside(pm, page, pages);
    }
    EmptySnoc(sgl, Entry(pm(page), rest, off));
    assert rest == 0 <==> EmptyTail(pm, buf, limit, len);
  }

  /** A break: the run so far becomes an entry, and a new run starts. */
  lemma NextRun(pm: PageMap, buf: nat, len: nat, sgl: seq<Entry>, done: nat, page: nat, pages: nat, off: nat, rest: nat)
    requires AtPage(pm, buf, len, sgl, done, page, pages, off, rest)
    requires (page + pages + 1) * PAGE_SIZE <= buf + len && Broken(pm, page + pages + 1)
    ensures var n := (pages + 1) * PAGE_SIZE - off;
            n <= rest && AtPage(pm, buf, len, sgl + [Entry(pm(page), n, off)], done + n, page + pages + 1, 0, 0, rest - n)
  {
    hide Translate, DenotesAll, HasEmpty;
    var n := (pages + 1) * PAGE_SIZE - off;
    Emit(pm, sgl, buf, done, page, pages + 1, off, n);
    EmptySnoc(sgl, Entry(pm(page), n, off));
  }

  /** No break: the run goes on. */
  lemma SameRun(pm: PageMap, buf: nat, len: nat, sgl: seq<Entry>, done: nat, page: nat, pages: nat, off: nat, rest: nat)
    requires AtPage(pm, buf, len, sgl, done, page, pages, off, rest)
    requires (page + pages + 1) * PAGE_SIZE <= buf + len && !Broken(pm, page + pages + 1)
    ensures AtPage(pm, buf, len, sgl, done, page, pages + 1, off, rest)
  {
    hide Translate, DenotesAll, HasEmpty;
    BreakSeen(pm, page, pages + 1);
    Extend(pm, page, pages + 1);
  }

  lemma FirstPage(pm: PageMap, buf: nat, len: nat)
    ensures AtPage(pm, buf, len, [], 0, buf / PAGE_SIZE, 0, buf % PAGE_SIZE, len)
  {}

  /** `setup_sgl_buf` on a scatter list of `room` entries. The entries together denote the bytes from
      virtual address `buf`, all `len` of them unless the entries run out. There is one for each run of
      physical memory, up to the page of the byte behind the range: if that page lies elsewhere and the
      range ends with its own page, the last entry is empty. */
  method SetupSglBuf(pm: PageMap, buf: nat, nents: nat, room: nat, len: nat) returns (sgl: seq<Entry>, ghost done: nat)
    requires nents > 0 && len > 0 ==> room > 0
    ensures |sgl| == EntryCount(pm, buf, Min(nents, room), len)
    ensures done <= len && DenotesAll(sgl) == Translate(pm, buf, done)
    ensures done == len || |sgl| == Min(nents, room)
    ensures HasEmpty(sgl) <==> EmptyTail(pm, buf, Min(nents, room), len)
  {
    hide Contiguous, Translate, Breaks, Broken, AtPage, DenotesAll;
    sgl, done := [], 0;
    FirstPage(pm, buf, len);
    if nents == 0 || len == 0 {
      NoEntries(pm, buf);
      return;
    }
    var b, rest: nat, l: nat := buf, len, 0;
    var page: nat, off: nat := buf / PAGE_SIZE, buf % PAGE_SIZE;
    ghost var pages: nat := 0;
    while rest >= l + PAGE_SIZE - off
      invariant AtPage(pm, buf, len, sgl, done, page, pages, off, rest)
      invariant l == pages * PAGE_SIZE && b / PAGE_SIZE == page + pages && |sgl| < Min(nents, room)
      decreases buf + len - (page + pages) * PAGE_SIZE
    {
      NextPage(b);
      PageFacts(pm, buf, len, sgl, done, page, pages, off, rest);
      l := l + PAGE_SIZE;
      b := b + PAGE_SIZE;
      var npage := b / PAGE_SIZE;
      BreakSeen(pm, page, pages + 1);
      if pm(page) != pm(npage) - l {
        NextRun(pm, buf, len, sgl, done, page, pages, off, rest);
        sgl := sgl + [Entry(pm(page), l - off, off)];
        done := done + (l - off);
        PageFacts(pm, buf, len, sgl, done, npage, 0, 0, rest - (l - off));
        if |sgl| == nents || |sgl| == room {
          BreaksMono(pm, buf / PAGE_SIZE, npage, (buf + len) / PAGE_SIZE);
          return;
        }
        page := npage;
        rest := rest - (l - off);
        l, off, pages := 0, 0, 0;
      } else {
        SameRun(pm, buf, len, sgl, done, page, pages, off, rest);
        pages := pages + 1;
      }
    }
    PageFacts(pm, buf, len, sgl, done, page, pages, off, rest);
    Finish(pm, buf, Min(nents, room), len, sgl, done, page, pages, off, rest);
    sgl := sgl + [Entry(pm(page), rest, off)];
    done := len;
  }

  lemma NoEntries(pm: PageMap, buf: nat)
    ensures DenotesAll([]) == Translate(pm, buf, 0)
  {}

  lemma PageFacts(pm: PageMap, buf: nat, len: nat, sgl: seq<Entry>, done: nat, page: nat, pages: nat, off: nat, rest: nat)
    requires AtPage(pm, buf, len, sgl, done, page, pages, off, rest)
    ensures done + rest == len && off < PAGE_SIZE && page * PAGE_SIZE + off == buf + done
    ensures Contiguous(pm, page, pages + 1) && |sgl| == Breaks(pm, buf / PAGE_SIZE, page + pages)
    ensures (page + pages) * PAGE_SIZE <= buf + len && (page + pages) <= (buf + len) / PAGE_SIZE
    ensures DenotesAll(sgl) == Translate(pm, buf, done) && !HasEmpty(sgl)
  {}

  /** The physical bytes of a fifo range of `n` bytes whose first byte is at `off`, in a buffer at
      virtual address `base`: up to the end of the buffer and on from its start. */
  function FifoBytes(pm: PageMap, base: nat, size: nat, off: nat, n: nat): seq<int>
    requires off < size && n <= size
  {
    seq(n, i requires 0 <= i < n => Phys(pm, base + Ring.Around(off + i, size)))
  }

  lemma FifoBytesSplit(pm: PageMap, base: nat, size: nat, off: nat, n: nat)
    requires off < size && n <= size
    ensures var l := Min(n, size - off);
            FifoBytes(pm, base, size, off, n) == Translate(pm, base + off, l) + Translate(pm, base, n - l)
  {
    var l := Min(n, size - off);
    var whole, parts := FifoBytes(pm, base, size, off, n), Translate(pm, base + off, l) + Translate(pm, base, n - l);
    forall i | 0 <= i < n
      ensures whole[i] == parts[i]
    {
      if i < l {
        assert base + Ring.Around(off + i, size) == base + off + i;
      } else {
        assert Ring.Around(off + i, size) == Ring.Around(off + i - size, size) == i - l;
      }
    }
  }

  /** The two calls of `setup_sgl_buf`: up to the end of the buffer, then from its start. The scatter
      list has at least `nents` entries. */
  method SetupSglBytes(pm: PageMap, base: nat, size: nat, nents: nat, n: nat, off: nat)
    returns (sgl: seq<Entry>, ghost done: nat)
    requires off < size && n <= size
    ensures |sgl| <= nents && done <= n
    ensures DenotesAll(sgl) == FifoBytes(pm, base, size, off, done)
    ensures done == n || |sgl| == nents
    ensures HasEmpty(sgl) <==> EmptyWithin(pm, base, size, nents, n, off)
  {
    hide Breaks, Broken;
    var l := Min(n, size - off);
    ghost var d1, d2;
    var second;
    sgl, d1 := SetupSglBuf(pm, base + off, nents, nents, l);
    second, d2 := SetupSglBuf(pm, base, nents - |sgl|, nents - |sgl|, n - l);
    DenotesConcat(sgl, second);
    FifoBytesSplit(pm, base, size, off, d1 + d2);
    if d1 < l {
      assert second == [];
      assert d2 == 0 by { assert |DenotesAll(second)| == 0; }
    }
    EmptyConcat(sgl, second);
    sgl := sgl + second;
    done := d1 + d2;
  }

  /** One of the two parts of a fifo range gets an empty entry. */
  predicate EmptyWithin(pm: PageMap, base: nat, size: nat, nents: nat, n: nat, off: nat)
    requires off < size
  {
    var l := Min(n, size - off);
    var used := EntryCount(pm, base + off, nents, l);
    EmptyTail(pm, base + off, nents, l) || (used < nents && EmptyTail(pm, base, nents - used, n - l))
  }

  /** `setup_sgl`: the entries denote the fifo range that starts at index `off`, element by element
      and around the end of the buffer, or a prefix of it when the entries run out. */
  method SetupSgl(f: Kfifo.Fifo, pm: PageMap, base: nat, nents: nat, len: nat, off: nat)
    returns (sgl: seq<Entry>, ghost done: nat)
    requires f.Shaped() && len <= f.mask + 1 && off < TWO32
    ensures |sgl| <= nents
    ensures 0 < f.data.Length
    ensures done <= Scale(len, f.esize) <= f.data.Length
    ensures var at := Ring.Around(Scale(off, f.esize), f.data.Length);
            && DenotesAll(sgl) == FifoBytes(pm, base, f.data.Length, at, done)
            && (HasEmpty(sgl) <==> EmptyWithin(pm, base, f.data.Length, nents, Scale(len, f.esize), at))
    ensures done == Scale(len, f.esize) || |sgl| == nents
  {
    f.Geometry(off, len);
    var o, size, n := And(off, f.mask), f.mask + 1, len;
    if f.esize != 1 {
      o, size, n := Scale(o, f.esize), Scale(size, f.esize), Scale(n, f.esize);
    }
    sgl, done := SetupSglBytes(pm, base, size, nents, n, o);
  }
}
