/** Runs of the dataflash manager: a write read back, and the requests that lose bytes. */
module DataflashUses {
  import opened Arith
  import opened Bytes
  import opened Dataflash
  import opened DataflashManager
  import opened DataflashPackets
  import opened DataflashSteps
  import opened DataflashTheorems
  import opened Endpoint

  ghost const ANY_BYTE: iset<byte> := iset b: byte | true

  /**
   * Reading a written range back gives the stream written. Time for the chips to finish is only needed when the
   * write went over several chips.
   */
  method WriteThenRead(m: MassStorage, blockAddress: nat, totalBlocks: nat, hostTakes: nat, settle: bool, ghost w: Request)
    returns (written: bool, read: bool)
    requires w == Request(m.chips.g, blockAddress, totalBlocks, Offered(m.usbOut)) && w.Fits() && Safe(w)
    requires m.chips.Valid() && ReadyToWrite(w, m.chips) && NoPacketNoBytes(m.usbOut)
    requires settle || w.FirstPage() == w.LastPage() || w.g.totalChips == 1
    requires m.usbIn.Valid() && m.usbIn.size % 16 == 0 && |m.usbIn.bank| % 16 == 0
    modifies m
    ensures written <==> old(m.usbOut.Available()) && totalBlocks * BLOCK_SIZE <= |w.data|
    ensures written && totalBlocks * CHUNKS_PER_BLOCK <= hostTakes ==> read
    ensures read ==> written
    ensures read ==> m.usbIn.Stream() == old(m.usbIn.Stream()) + w.data[..totalBlocks * BLOCK_SIZE]
    ensures read && EmptyBankDivides(old(m.usbIn)) ==>
      m.usbIn.bank == [] && Concat(m.usbIn.sent) == Concat(old(m.usbIn.sent)) + w.data[..totalBlocks * BLOCK_SIZE]
  {
    var never := totalBlocks * CHUNKS_PER_BLOCK + 1;
    ghost var frontier, end;
    read := false;
    written, frontier := m.WriteBlocks(blockAddress, totalBlocks, never, w, ANY_BYTE);
    if written {
      ghost var before := old(Flat(m.chips.memory));
      ghost var data := w.data[..totalBlocks * BLOCK_SIZE];
      assert Splice(before, w.Start(), data)[w.Start()..w.End()] == data;
      ghost var r := Request(m.chips.g, blockAddress, totalBlocks, []);
      IdleAfterWrite(w, r, m.chips);
      if settle {
        m.chips := m.chips.Settled();
      }
      ghost var start := m.usbIn;
      read, end := m.ReadBlocks(blockAddress, totalBlocks, never, hostTakes, r);
      if read && EmptyBankDivides(start) {
        AllSent(start, m.usbIn, data, totalBlocks);
      }
    }
  }

  /** Full packets of a size that divides the blocks, and less than a packet left: nothing is left. */
  lemma AllSent(before: InPipe, now: InPipe, data: seq<byte>, blocks: nat)
    requires EmptyBankDivides(before) && before.size == now.size && |data| == blocks * BLOCK_SIZE
    requires before.sent <= now.sent && |now.bank| < now.size && now.Stream() == before.Stream() + data
    requires forall i :: |before.sent| <= i < |now.sent| ==> |now.sent[i]| == now.size
    ensures now.bank == [] && Concat(now.sent) == Concat(before.sent) + data
  {
    var more := now.sent[|before.sent|..];
    assert now.sent == before.sent + more;
    assert before.Stream() == Concat(before.sent) && now.Stream() == Concat(now.sent) + now.bank;
    assert Flat(more) == Concat(more) && BLOCK_SIZE == 512;
    hide *;
    ConcatSplit(before.sent, more);
    FlatLength(more, now.size);
    assert |now.Stream()| == |Concat(before.sent)| + |Concat(more)| + |now.bank|;
    PacketsLeave(before, now, |more|, |data|, blocks);
  }

  lemma PacketsLeave(before: InPipe, now: InPipe, packets: nat, bytes: nat, blocks: nat)
    requires EmptyBankDivides(before) && before.size == now.size && |now.bank| < now.size
    requires bytes == blocks * BLOCK_SIZE && bytes == packets * now.size + |now.bank|
    ensures now.bank == []
  {
    WholePackets(blocks, now.size, packets, |now.bank|);
  }

  /** An endpoint with nothing in its bank, of a size that divides a block. */
  predicate EmptyBankDivides(p: InPipe) {
    p.bank == [] && 0 < p.size && BLOCK_SIZE % p.size == 0
  }

  lemma WholePackets(blocks: nat, size: nat, packets: nat, rest: nat)
    requires 0 < size && BLOCK_SIZE % size == 0 && blocks * BLOCK_SIZE == packets * size + rest && rest < size
    ensures rest == 0
  {
    var k := BLOCK_SIZE / size;
    assert BLOCK_SIZE == k * size;
    MulAssoc(blocks, k, size);
    DivUnique(blocks * BLOCK_SIZE, size, packets, rest);
    DivUnique(blocks * BLOCK_SIZE, size, blocks * k, 0);
  }

  lemma {:induction false} ConcatSplit(a: seq<seq<byte>>, b: seq<seq<byte>>)
    ensures Concat(a + b) == Concat(a) + Concat(b)
  {
    if a == [] {
      assert a + b == b;
    } else {
      ConcatSplit(a[1..], b);
      assert (a + b)[0] == a[0] && (a + b)[1..] == a[1..] + b;
      Associative(a[0], Concat(a[1..]), Concat(b));
    }
  }

  lemma Associative(a: seq<byte>, b: seq<byte>, c: seq<byte>)
    ensures a + (b + c) == a + b + c
  {
  }

  lemma IdleAfterWrite(w: Request, r: Request, c: Chips)
    requires w.Fits() && r == Request(w.g, w.addr, w.blocks, []) && c.Valid() && c.g == w.g && c.clean
    requires IdleAt(c, w.LastPage())
    ensures r.Fits() && r.FirstPage() == w.FirstPage() && r.LastPage() == w.LastPage()
    ensures c.Settled().Valid() && IdleFor(r, c.Settled())
    ensures w.FirstPage() == w.LastPage() || w.g.totalChips == 1 ==> IdleFor(r, c)
  {
    var first, last := w.FirstPage(), w.LastPage();
    assert r.FirstPage() == first && r.LastPage() == last;
    hide w.FirstPage, w.LastPage, r.FirstPage, r.LastPage;
    forall q | first <= q <= last ensures IdleAt(c.Settled(), q) {
    }
    if w.g.totalChips == 1 {
      forall q: nat ensures IdleAt(c, q) {
        DivUnique(q, 1, q, 0);
        DivUnique(last, 1, last, 0);
      }
    }
  }

  // ---------------------------------------------------------------- one write after another

  /** Does a finished write leave chip i programming? It waits for the chip of its last page only. */
  predicate Programming(w: Request, i: nat)
    requires 0 < w.g.pageSize && 0 < w.g.totalChips
  {
    var n, last := w.g.totalChips, w.LastPage();
    i < n && i != last % n && w.FirstPage() + PagesBack(i, last % n, n) <= last
  }

  /**
   * Does page q of the next write, its first on that chip, meet what the write before left there? A preload does if it
   * is the very first, as it does not wait; without one the data must go into the other buffer.
   */
  predicate Meets(w: Request, next: Request, q: nat)
    requires 0 < w.g.pageSize && 0 < w.g.totalChips && next.g == w.g
  {
    var n, last := w.g.totalChips, w.LastPage();
    && q < next.FirstPage() + n && Programming(w, q % n)
    && if next.Preloaded(q) then q == next.FirstPage()
       else 0 < next.blocks && NextBuffer(q % n, last % n, w.SecondAt(last)) != Buffer(next.SecondAt(q))
  }

  /** May another write follow at once? */
  predicate MayFollow(w: Request, next: Request)
    requires 0 < w.g.pageSize && 0 < w.g.totalChips && next.g == w.g
  {
    forall q :: next.FirstPage() <= q <= next.LastPage() ==> !Meets(w, next, q)
  }

  /** After a write to idle chips, another one meets no operation of the first exactly when MayFollow says so. */
  lemma FollowsIff(w: Request, next: Request, before: Chips, after: Chips)
    requires w.Fits() && next.Fits() && before.Valid() && after.Valid() && w.g == next.g == before.g == after.g
    requires AllIdle(before) && after.clean && LeftBusy(w, before, after, w.LastPage()) && IdleAt(after, w.LastPage())
    ensures ReadyToWrite(next, after) <==> MayFollow(w, next)
  {
    forall q: nat ensures Clash(next, after, q) <==> Meets(w, next, q) {
      MeetsIff(w, next, before, after, q);
    }
    hide Clash, Meets, next.FirstPage, next.LastPage;
  }

  lemma MeetsIff(w: Request, next: Request, before: Chips, after: Chips, q: nat)
    requires w.g.Valid() && w.g == next.g == before.g == after.g
    requires AllIdle(before) && LeftBusy(w, before, after, w.LastPage()) && IdleAt(after, w.LastPage())
    ensures Clash(next, after, q) <==> Meets(w, next, q)
  {
    var n, last, i := w.g.totalChips, w.LastPage(), q % w.g.totalChips;
    assert after.busy[i] == if Programming(w, i) then Using(1 - NextBuffer(i, last % n, w.SecondAt(last))) else Idle;
    hide Request.FirstPage, Request.LastPage, Request.SecondAt, Request.Preloaded, Programming, LeftBusy, AllIdle, IdleAt;
  }

  /** With one chip, or after a write of one page, anything may follow. */
  lemma FollowsAlways(w: Request, next: Request)
    requires w.Fits() && next.g == w.g && (w.g.totalChips == 1 || w.FirstPage() == w.LastPage())
    ensures MayFollow(w, next)
  {
    forall q: nat ensures !Programming(w, q % w.g.totalChips) {
    }
  }

  lemma FollowingRange(w: Request, next: Request, plain: Request)
    requires 0 < w.g.pageSize && 0 < w.g.totalChips && next.g == w.g && plain == Request(next.g, next.addr, next.blocks, [])
    ensures MayFollow(w, next) <==> MayFollow(w, plain)
    ensures plain.Fits() <==> next.Fits()
  {
    forall q: nat ensures Meets(w, next, q) <==> Meets(w, plain, q) {
      hide Programming, NextBuffer, w.LastPage;
    }
    hide Meets;
  }

  /**
   * Two writes, one right after the other, from idle chips: when both complete, something was asked of a busy chip
   * exactly when the second may not follow the first.
   */
  method WriteTwice(m: MassStorage, first: nat, blocks: nat, second: nat, more: nat, ghost w: Request, ghost plain: Request)
    returns (both: bool)
    requires w == Request(m.chips.g, first, blocks, Offered(m.usbOut)) && w.Fits()
    requires plain == Request(m.chips.g, second, more, []) && plain.Fits()
    requires m.chips.Valid() && AllIdle(m.chips) && NoPacketNoBytes(m.usbOut)
    modifies m
    ensures 0 < more && (blocks + more) * BLOCK_SIZE + 16 <= |w.data| ==> both
    ensures both ==> (m.chips.clean <==> MayFollow(w, plain))
  {
    ghost var frontier;
    ghost var before := m.chips;
    ghost var next := Request(m.chips.g, second, more, []);
    IdleReady(w, m.chips);
    if w.data != [] {
      OfferedSome(m.usbOut);
    }
    assert w.CoversStale(m.chips, ANY_BYTE);
    hide AllIdle, MayFollow, ReadyToWrite, LeftBusy, IdleAt, Chips.Valid, Intake, Offered, Flat, Safe, w.PagesWritten, w.CoversStale,
      w.Fits, w.FirstPage, w.LastPage;
    both, frontier := m.WriteBlocks(first, blocks, blocks * CHUNKS_PER_BLOCK + 1, w, ANY_BYTE);
    if both {
      next := Request(m.chips.g, second, more, Offered(m.usbOut));
      FollowingRange(w, next, plain);
      FollowsIff(w, next, before, m.chips);
      OfferedLater(m.usbOut);
      AnyByte(next, m.chips);
      both, frontier := m.WriteBlocks(second, more, more * CHUNKS_PER_BLOCK + 1, next, ANY_BYTE);
    }
  }

  lemma AnyByte(w: Request, c: Chips)
    requires w.Fits()
    ensures w.CoversStale(c, ANY_BYTE)
  {
  }

  lemma OfferedSome(p: OutPipe)
    requires NoPacketNoBytes(p) && Offered(p) != []
    ensures p.Available()
  {
  }

  lemma IdleReady(w: Request, c: Chips)
    requires w.Fits() && c.Valid() && c.g == w.g && AllIdle(c)
    ensures ReadyToWrite(w, c)
  {
    forall q: nat ensures !Clash(w, c, q) {
    }
  }

  /**
   * With several chips and pages larger than a block, a write of at least as many pages as chips that is continued
   * on the next page at once finds that page's chip programming, and preloads from it all the same.
   */
  lemma ContinuedTooSoon(w: Request, next: Request, before: Chips, after: Chips)
    requires w.Fits() && next.Fits() && before.Valid() && after.Valid() && w.g == next.g == before.g == after.g
    requires AllIdle(before) && LeftBusy(w, before, after, w.LastPage())
    requires 1 < w.g.totalChips && w.g.pageSize > BLOCK_SIZE
    requires next.FirstPage() == w.LastPage() + 1 && w.FirstPage() + w.g.totalChips - 1 <= w.LastPage()
    ensures after.SelectChipFromPage(next.FirstPage()).CanUse(0, next.FirstPage())
    ensures !MayFollow(w, next) && !OpenPage(after, next.FirstPage(), next.Start() % w.g.pageSize).clean
  {
    FirstCanUse(next, after);
    NextChip(w.LastPage(), w.g.totalChips);
    var q := next.FirstPage();
    assert next.FirstPage() <= next.LastPage() by { LastPageFits(next); }
    assert next.Preloaded(q) && Programming(w, q % w.g.totalChips);
    assert Meets(w, next, q) && after.busy[q % w.g.totalChips] != Idle;
    hide w.FirstPage, w.LastPage, w.SecondAt, next.FirstPage, next.LastPage, Meets, Programming, LeftBusy;
  }

  // ---------------------------------------------------------------- bytes lost by unsafe requests

  function Zeros(n: nat): seq<byte> {
    seq(n, _ => 0)
  }

  lemma {:induction false} ConcatZeros(chunks: nat)
    ensures Concat(seq(chunks, _ => Zeros(16))) == Zeros(16 * chunks)
  {
    if 0 < chunks {
      ConcatZeros(chunks - 1);
      assert seq(chunks, _ => Zeros(16))[1..] == seq(chunks - 1, _ => Zeros(16));
    }
  }

  function ZeroPipe(chunks: nat): OutPipe {
    OutPipe(true, [], seq(chunks, _ => Zeros(16)))
  }

  lemma ZeroPackets(chunks: nat)
    ensures Offered(ZeroPipe(chunks)) == Zeros(16 * chunks) && NoPacketNoBytes(ZeroPipe(chunks))
  {
    ConcatZeros(chunks);
    OfferedWhole(ZeroPipe(chunks));
  }

  /** A medium of zeros with one page of ones, empty buffers, all chips idle. */
  function OddPage(g: Geometry, page: nat): Chips {
    Chips(g, seq(g.TotalPages(), q => if q == page then seq(g.pageSize, _ => 255 as byte) else Zeros(g.pageSize)),
          seq(2 * g.totalChips, _ => Zeros(g.pageSize)), seq(g.totalChips, _ => Idle), g.totalChips, 0, 0, 0, true)
  }

  /**
   * The test is exact: every request that fails it loses a byte outside its range on some medium, whatever
   * its page size, position and length.
   */
  method UnsafeWriteLosesByte(g: Geometry, addr: nat, blocks: nat)
    returns (m: MassStorage, ghost before: Chips, ghost w: Request, ghost pos: nat)
    requires Request(g, addr, blocks, []).Fits() && !Safe(Request(g, addr, blocks, []))
    ensures before.Valid() && AllIdle(before) && w == Request(g, addr, blocks, Zeros(blocks * BLOCK_SIZE))
    ensures |Flat(m.chips.memory)| == |Flat(before.memory)| == g.TotalPages() * g.pageSize
    ensures pos < g.TotalPages() * g.pageSize && !(w.Start() <= pos < w.End())
    ensures Flat(before.memory)[pos] == 255 && Flat(m.chips.memory)[pos] == 0
  {
    var shape := Request(g, addr, blocks, []);
    var lost := LostPage(shape);
    w := Request(g, addr, blocks, Zeros(blocks * BLOCK_SIZE));
    UncoveredByte(w);
    LastPageFits(w);
    ghost var stale := iset{0 as byte};
    OddPageStale(w, lost);
    ZeroPackets(blocks * CHUNKS_PER_BLOCK);
    hide w.Fits, w.PagesWritten, w.CoversStale, w.FirstPage, w.LastPage, w.Preloaded, Safe, LostPage, LostOffset,
      Offered, Chips.Valid, AllIdle, ReadyToWrite, OddPage, ByteCovered, Concat;
    m := new MassStorage(OddPage(g, lost), ZeroPipe(blocks * CHUNKS_PER_BLOCK), InPipe(16, [], []));
    before := m.chips;
    var completed, frontier := m.WriteBlocks(addr, blocks, blocks * CHUNKS_PER_BLOCK + 1, w, stale);
    pos := LostPosition(w, before, m.chips, stale);
  }

  lemma OddPageStale(w: Request, page: nat)
    requires w.Fits() && page < w.g.TotalPages() && Within(w.data, iset{0 as byte}) && !w.Preloaded(page)
    ensures OddPage(w.g, page).Valid() && AllIdle(OddPage(w.g, page)) && ReadyToWrite(w, OddPage(w.g, page))
    ensures w.CoversStale(OddPage(w.g, page), iset{0 as byte})
  {
  }

  /** The byte that was 255 on the odd page and is 0 after the write. */
  lemma LostPosition(w: Request, before: Chips, after: Chips, stale: iset<byte>) returns (pos: nat)
    requires w.Fits() && !Safe(w) && before == OddPage(w.g, LostPage(w)) && after.Valid() && after.g == w.g
    requires stale == iset{0 as byte} && w.PagesWritten(w.LastPage() + 1, before.memory, after.memory, stale)
    ensures |Flat(after.memory)| == |Flat(before.memory)| == w.g.TotalPages() * w.g.pageSize
    ensures pos < w.g.TotalPages() * w.g.pageSize && !(w.Start() <= pos < w.End())
    ensures Flat(before.memory)[pos] == 255 && Flat(after.memory)[pos] == 0
  {
    UncoveredByte(w);
    LastPageFits(w);
    var q, o := LostPage(w), LostOffset(w);
    assert w.ByteWritten(q, o, w.End(), before.memory[q][o], after.memory[q][o], stale);
    FlatIndex(before.memory, w.g.pageSize, q, o);
    FlatIndex(after.memory, w.g.pageSize, q, o);
    pos := q * w.g.pageSize + o;
  }
}
