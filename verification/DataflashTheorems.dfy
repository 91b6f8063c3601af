/** What WriteBlocks does to the flat medium, and exactly when it leaves the rest of the medium alone. */
module DataflashTheorems {
  import opened Arith
  import opened Bytes
  import opened Dataflash
  import opened DataflashSteps

  /**
   * The caller's test: with pages larger than a block the range must fit one page, end on a page, or leave a
   * last piece whose whole blocks are fewer than a page; with smaller pages it must start and end on a page.
   */
  predicate Safe(w: Request)
    requires 0 < w.g.pageSize
  {
    var tail := w.End() % w.g.pageSize;
    if w.g.pageSize > BLOCK_SIZE then
      w.FirstPage() == w.LastPage() || tail == 0 || (tail + BLOCK_SIZE - 1) / BLOCK_SIZE * BLOCK_SIZE < w.g.pageSize
    else
      0 < w.blocks && w.Start() % w.g.pageSize == 0 && tail == 0
  }

  /** Every byte of every touched page is streamed or preloaded. */
  ghost predicate Covered(w: Request)
    requires 0 < w.g.pageSize
  {
    forall q, o :: w.FirstPage() <= q <= w.LastPage() && 0 <= o < w.g.pageSize ==> ByteCovered(w, q, o)
  }

  predicate ByteCovered(w: Request, q: nat, o: nat)
    requires 0 < w.g.pageSize
  {
    w.Start() <= q * w.g.pageSize + o < w.End() || w.Preloaded(q)
  }

  /** A page strictly between the first and the last lies inside the range. */
  lemma MiddlePage(w: Request, q: nat, o: nat)
    requires w.Fits() && w.FirstPage() < q < w.LastPage() && o < w.g.pageSize
    ensures w.Start() <= q * w.g.pageSize + o < w.End()
  {
    LastPageFits(w);
    MulMono(w.FirstPage() + 1, q, w.g.pageSize);
    MulStep(w.FirstPage(), w.g.pageSize);
    MulMono(q + 1, w.LastPage(), w.g.pageSize);
    MulStep(q, w.g.pageSize);
    assert w.LastPage() * w.g.pageSize <= w.End() - 1;
  }

  /** Where the last page ends relative to the range. */
  lemma TailOf(w: Request)
    requires w.Fits() && 0 < w.blocks
    ensures w.End() % w.g.pageSize == 0 ==> w.End() == w.LastPage() * w.g.pageSize + w.g.pageSize
    ensures w.End() % w.g.pageSize != 0 ==> w.End() == w.LastPage() * w.g.pageSize + w.End() % w.g.pageSize
  {
    var p := w.g.pageSize;
    var last := w.LastPage();
    var r := w.End() - last * p;
    assert 1 <= r <= p by { assert w.End() - 1 == last * p + (w.End() - 1) % p; }
    if r == p {
      MulStep(last, p);
      DivUnique(w.End(), p, last + 1, 0);
    } else {
      DivUnique(w.End(), p, last, r);
    }
  }

  /** Is the last page of a range over several large pages preloaded? TotalBlocks rounds the rest up to blocks. */
  lemma LastPagePreload(w: Request)
    requires w.Fits() && w.g.pageSize > BLOCK_SIZE && w.FirstPage() < w.LastPage() && w.End() % w.g.pageSize != 0
    ensures var tail := w.End() % w.g.pageSize;
      w.Preloaded(w.LastPage()) <==> (tail + BLOCK_SIZE - 1) / BLOCK_SIZE * BLOCK_SIZE < w.g.pageSize
  {
    TailOf(w);
    LaterPage(w, w.LastPage());
    var tail, done := w.End() % w.g.pageSize, w.LastPage() * w.g.pageSize - w.Start();
    WholeBlocks(w.blocks, tail, done);
    PreloadMeans(w, w.LastPage(), done);
    TestOnBlocks(w.g.pageSize, (tail + BLOCK_SIZE - 1) / BLOCK_SIZE);
  }

  /** A later page starts after the range does. */
  lemma LaterPage(w: Request, q: nat)
    requires w.Fits() && w.FirstPage() < q
    ensures w.Start() < q * w.g.pageSize
  {
    LastPageFits(w);
    MulMono(w.FirstPage() + 1, q, w.g.pageSize);
    MulStep(w.FirstPage(), w.g.pageSize);
  }

  lemma PreloadMeans(w: Request, q: nat, done: nat)
    requires w.Fits() && w.g.pageSize > BLOCK_SIZE && w.FirstPage() != q && q * w.g.pageSize == w.Start() + done
    ensures w.Preloaded(q) <==> done / BLOCK_SIZE <= w.blocks && w.LessThanOnePageLeft(w.blocks - done / BLOCK_SIZE)
  {
  }

  lemma TestOnBlocks(pageSize: nat, left: nat)
    requires pageSize % 16 == 0 && left * CHUNKS_PER_BLOCK < 0x1_0000
    ensures (left * CHUNKS_PER_BLOCK) % 0x1_0000 < pageSize / 16 <==> left * BLOCK_SIZE < pageSize
  {
    assert pageSize == 16 * (pageSize / 16);
  }

  lemma WholeBlocks(blocks: nat, tail: nat, done: int)
    requires done == blocks * BLOCK_SIZE - tail
    ensures done / BLOCK_SIZE == blocks - (tail + BLOCK_SIZE - 1) / BLOCK_SIZE
  {
  }

  /**
   * Which later pages of large pages are preloaded: 2048 blocks are 0x10000 chunks, so the test sees the blocks left
   * modulo 2048, and a page is also preloaded, for nothing, when a multiple of 2048 blocks and less than a page are left.
   */
  lemma LaterPreloadIff(w: Request, q: nat)
    requires w.Fits() && w.g.pageSize > BLOCK_SIZE && w.FirstPage() < q <= w.LastPage()
    ensures var left := w.blocks - (q * w.g.pageSize - w.Start()) / BLOCK_SIZE;
      && 0 < left && (w.Preloaded(q) <==> left % 2048 * BLOCK_SIZE < w.g.pageSize)
      && (w.Preloaded(q) && 2048 <= left ==> w.Start() < q * w.g.pageSize && q * w.g.pageSize + w.g.pageSize <= w.End())
  {
    LaterPage(w, q);
    var done := q * w.g.pageSize - w.Start();
    LeftOver(w, q, done);
    PreloadMeans(w, q, done);
    var left := w.blocks - done / BLOCK_SIZE;
    ChunksLeft(left, w.g.pageSize);
    hide w.FirstPage, w.LastPage, w.Preloaded, w.Fits;
  }

  lemma LeftOver(w: Request, q: nat, done: nat)
    requires w.Fits() && q <= w.LastPage() && q * w.g.pageSize == w.Start() + done && w.FirstPage() < q
    ensures done < w.blocks * BLOCK_SIZE && done / BLOCK_SIZE < w.blocks
    ensures w.g.pageSize < 4096 && (2048 <= w.blocks - done / BLOCK_SIZE ==> q * w.g.pageSize + w.g.pageSize <= w.End())
  {
    LastPageFits(w);
    MulMono(q, w.LastPage(), w.g.pageSize);
    assert 0 < w.blocks && w.LastPage() * w.g.pageSize <= w.End() - 1;
  }

  lemma ChunksLeft(left: nat, pageSize: nat)
    requires pageSize % 16 == 0
    ensures (left * CHUNKS_PER_BLOCK) % 0x1_0000 < pageSize / 16 <==> left % 2048 * BLOCK_SIZE < pageSize
  {
    var turns, rest := left / 2048, left % 2048;
    assert left * CHUNKS_PER_BLOCK == turns * 0x1_0000 + rest * CHUNKS_PER_BLOCK;
    DivUnique(left * CHUNKS_PER_BLOCK, 0x1_0000, turns, rest * CHUNKS_PER_BLOCK);
    TestOnBlocks(pageSize, rest);
  }

  /** The caller's test says exactly that nothing is left to chance. */
  lemma SafeIffCovered(w: Request)
    requires w.Fits()
    ensures Safe(w) <==> Covered(w)
  {
    LastPageFits(w);
    var first, last, p := w.FirstPage(), w.LastPage(), w.g.pageSize;
    if Safe(w) {
      forall q, o | first <= q <= last && 0 <= o < p ensures ByteCovered(w, q, o) {
        CoveredWhenSafe(w, q, o);
      }
    } else {
      UncoveredByte(w);
      assert !ByteCovered(w, LostPage(w), LostOffset(w));
    }
  }

  lemma CoveredWhenSafe(w: Request, q: nat, o: nat)
    requires w.Fits() && Safe(w) && w.FirstPage() <= q <= w.LastPage() && o < w.g.pageSize
    ensures ByteCovered(w, q, o)
  {
    LastPageFits(w);
    if w.FirstPage() < q < w.LastPage() {
      MiddlePage(w, q, o);
    } else if w.g.pageSize > BLOCK_SIZE {
      if q != w.FirstPage() {
        TailOf(w);
        LaterPage(w, q);
        if w.End() % w.g.pageSize != 0 {
          LastPagePreload(w);
        }
      }
    } else {
      TailOf(w);
      MulMono(w.FirstPage(), q, w.g.pageSize);
      MulMono(q, w.LastPage(), w.g.pageSize);
    }
  }

  /** The page, and the byte of it, that an unsafe request fills from a stale buffer. */
  function LostPage(w: Request): nat
    requires 0 < w.g.pageSize
  {
    if w.g.pageSize <= BLOCK_SIZE && (w.blocks == 0 || w.Start() % w.g.pageSize != 0) then w.FirstPage() else w.LastPage()
  }

  function LostOffset(w: Request): nat
    requires 0 < w.g.pageSize
  {
    if w.g.pageSize <= BLOCK_SIZE && (w.blocks == 0 || w.Start() % w.g.pageSize != 0) then 0 else w.End() % w.g.pageSize
  }

  lemma UncoveredByte(w: Request)
    requires w.Fits() && !Safe(w)
    ensures w.FirstPage() <= LostPage(w) <= w.LastPage() && LostOffset(w) < w.g.pageSize
    ensures !ByteCovered(w, LostPage(w), LostOffset(w))
  {
    LastPageFits(w);
    if w.g.pageSize > BLOCK_SIZE {
      TailOf(w);
      LastPagePreload(w);
    } else if 0 < w.blocks && w.Start() % w.g.pageSize == 0 {
      TailOf(w);
    }
  }

  lemma BlocksFillSmallPages(k: nat, p: nat)
    requires 0 < p && BLOCK_SIZE % p == 0
    ensures (k * BLOCK_SIZE) % p == 0
  {
    var m := BLOCK_SIZE / p;
    assert m * p == BLOCK_SIZE;
    MulAssoc(k, m, p);
    MultipleMod(k * m, p);
  }

  lemma BlocksFillLargePages(k: nat, p: nat)
    requires 0 < p && p % BLOCK_SIZE == 0
    ensures ((k * BLOCK_SIZE) % p) % BLOCK_SIZE == 0
  {
    ModKeepsFactor(BLOCK_SIZE, k, p / BLOCK_SIZE);
  }

  lemma WholeBlockTail(tail: nat, p: nat)
    requires tail < p && tail % BLOCK_SIZE == 0
    ensures (tail + BLOCK_SIZE - 1) / BLOCK_SIZE * BLOCK_SIZE < p
  {
  }

  /** Page sizes that divide a block or are made of whole blocks are safe for every request. */
  lemma WholeBlockPagesSafe(w: Request)
    requires w.Fits() && 0 < w.blocks
    requires w.g.pageSize % BLOCK_SIZE == 0 || BLOCK_SIZE % w.g.pageSize == 0
    ensures Safe(w)
  {
    var p := w.g.pageSize;
    assert 0 < p && w.Start() == w.addr * BLOCK_SIZE && w.End() == (w.addr + w.blocks) * BLOCK_SIZE;
    if p > BLOCK_SIZE {
      LargeTail(w.addr + w.blocks, p);
    } else {
      SmallTail(w.addr, p);
      SmallTail(w.addr + w.blocks, p);
    }
    hide w.Fits, w.FirstPage, w.LastPage, w.Start, w.End;
  }

  lemma LargeTail(n: nat, p: nat)
    requires p > BLOCK_SIZE && (p % BLOCK_SIZE == 0 || BLOCK_SIZE % p == 0)
    ensures var tail := n * BLOCK_SIZE % p; tail == 0 || (tail + BLOCK_SIZE - 1) / BLOCK_SIZE * BLOCK_SIZE < p
  {
    DivUnique(BLOCK_SIZE, p, 0, BLOCK_SIZE);
    BlocksFillLargePages(n, p);
    WholeBlockTail(n * BLOCK_SIZE % p, p);
  }

  lemma SmallTail(n: nat, p: nat)
    requires 0 < p <= BLOCK_SIZE && (p % BLOCK_SIZE == 0 || BLOCK_SIZE % p == 0)
    ensures n * BLOCK_SIZE % p == 0
  {
    assert p == BLOCK_SIZE || p % BLOCK_SIZE == p;
    BlocksFillSmallPages(n, p);
  }

  /** The 1056-byte pages the 64 Mbit chips come with are safe as well: 512 k mod 1056 never exceeds 1024. */
  lemma NativePagesSafe(w: Request)
    requires w.Fits() && 0 < w.blocks && w.g.pageSize == 1056
    ensures Safe(w)
  {
    assert w.End() == 32 * (16 * (w.addr + w.blocks));
    NativeTail(16 * (w.addr + w.blocks));
    hide w.Fits, w.FirstPage, w.LastPage, w.End;
  }

  lemma NativeTail(n: nat)
    ensures (32 * n % 1056 + BLOCK_SIZE - 1) / BLOCK_SIZE * BLOCK_SIZE < 1056
  {
    ModKeepsFactor(32, n, 33);
  }

  /** A finished safe write changes the range to the stream and nothing else. */
  lemma ExactWrite(w: Request, before: seq<Page>, after: seq<Page>, stale: iset<byte>)
    requires w.Fits() && Safe(w) && w.blocks * BLOCK_SIZE <= |w.data|
    requires |before| == w.g.TotalPages() && (forall q :: 0 <= q < |before| ==> |before[q]| == w.g.pageSize)
    requires w.PagesWritten(w.LastPage() + 1, before, after, stale)
    ensures |Flat(before)| == w.g.TotalPages() * w.g.pageSize
    ensures Flat(after) == Splice(Flat(before), w.Start(), w.data[..w.blocks * BLOCK_SIZE])
  {
    assert |after| == |before|;
    assert w.Start() + w.blocks * BLOCK_SIZE == w.End() <= |before| * w.g.pageSize;
    forall q, o | 0 <= q < |after| && 0 <= o < w.g.pageSize
      ensures |after[q]| == w.g.pageSize
      ensures after[q][o] == SplicedByte(before, w.g.pageSize, w.Start(), w.data[..w.blocks * BLOCK_SIZE], q, o)
    {
      ExactByte(w, before, after, stale, q, o);
    }
    hide w.PagesWritten, w.Fits, w.FirstPage, w.LastPage, Safe;
    FlatSplice(before, after, w.g.pageSize, w.Start(), w.data[..w.blocks * BLOCK_SIZE]);
  }

  lemma ExactByte(w: Request, before: seq<Page>, after: seq<Page>, stale: iset<byte>, q: nat, o: nat)
    requires w.Fits() && Safe(w) && w.blocks * BLOCK_SIZE <= |w.data|
    requires |before| == w.g.TotalPages() && q < |before| && o < w.g.pageSize && |before[q]| == w.g.pageSize
    requires w.PagesWritten(w.LastPage() + 1, before, after, stale)
    ensures |after[q]| == w.g.pageSize
    ensures var pos := q * w.g.pageSize + o;
      after[q][o] == if w.Start() <= pos < w.End() then w.data[pos - w.Start()] else before[q][o]
  {
    if w.FirstPage() <= q <= w.LastPage() {
      CoveredWhenSafe(w, q, o);
      assert w.ByteWritten(q, o, w.End(), before[q][o], after[q][o], stale);
    } else {
      OutsidePage(w, q, o);
    }
  }

  lemma OutsidePage(w: Request, q: nat, o: nat)
    requires w.Fits() && o < w.g.pageSize && !(w.FirstPage() <= q <= w.LastPage())
    ensures !(w.Start() <= q * w.g.pageSize + o < w.End())
  {
    LastPageFits(w);
    if q < w.FirstPage() {
      MulMono(q + 1, w.FirstPage(), w.g.pageSize);
      MulStep(q, w.g.pageSize);
    } else if 0 < w.blocks {
      TailOf(w);
      MulMono(w.LastPage() + 1, q, w.g.pageSize);
      MulStep(w.LastPage(), w.g.pageSize);
    } else {
      MulMono(w.LastPage() + 1, q, w.g.pageSize);
      MulStep(w.LastPage(), w.g.pageSize);
    }
  }

  /**
   * A safe write that stops early, with the stream or by a reset, leaves each page wholly old or wholly as the whole
   * write would leave it, whatever the host would have sent on.
   */
  lemma PageAtomic(w: Request, frontier: nat, before: seq<Page>, after: seq<Page>, full: seq<byte>, stale: iset<byte>, q: nat)
    requires w.Fits() && Safe(w) && w.data <= full && w.blocks * BLOCK_SIZE <= |full|
    requires |before| == w.g.TotalPages() && (forall i :: 0 <= i < |before| ==> |before[i]| == w.g.pageSize)
    requires w.PagesWritten(frontier, before, after, stale) && frontier <= w.LastPage() + 1 && q < |before|
    ensures |after[q]| == w.g.pageSize
    ensures forall o :: 0 <= o < w.g.pageSize ==>
      after[q][o] ==
        if q < frontier then SplicedByte(before, w.g.pageSize, w.Start(), full[..w.blocks * BLOCK_SIZE], q, o) else before[q][o]
  {
    forall o | 0 <= o < w.g.pageSize && q < frontier
      ensures after[q][o] == SplicedByte(before, w.g.pageSize, w.Start(), full[..w.blocks * BLOCK_SIZE], q, o)
    {
      if w.FirstPage() <= q {
        CoveredWhenSafe(w, q, o);
        assert w.ByteWritten(q, o, w.End(), before[q][o], after[q][o], stale);
      } else {
        OutsidePage(w, q, o);
      }
    }
  }
}
