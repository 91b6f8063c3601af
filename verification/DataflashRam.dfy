/**
 * DataflashManager_WriteBlocks_RAM: the same page walk as WriteBlocks, except that a new page is always
 * streamed into the first buffer, whichever buffer is committed.
 */
module DataflashRam {
  import opened Arith
  import opened Bytes
  import opened Dataflash
  import opened DataflashManager
  import opened DataflashSteps
  import opened DataflashTheorems
  import opened DataflashUses
  import opened Endpoint

  /** The last page committed before the buffers are switched: the first page on the last chip. */
  function SwitchPage(w: Request): nat
    requires 0 < w.g.pageSize && 0 < w.g.totalChips
  {
    w.FirstPage() + (w.g.totalChips - 1 - w.FirstPage() % w.g.totalChips)
  }

  /** Up to the switch the page walk is that of WriteBlocks, and no second buffer has been touched. */
  ghost predicate BeforeSwitch(w: Request, before: Chips, c: Chips, page: nat, second: bool, cur: nat, spare: iset<byte>) {
    && Streaming(w, before, c, page, false, cur, ANY_BYTE) && page <= SwitchPage(w) && !second
    && c.selected + (SwitchPage(w) - page) == w.g.totalChips - 1
    && forall i :: 0 <= i < w.g.totalChips ==> Within(c.buffers[2 * i + 1], spare)
  }

  /** After it, data goes to the first buffer and the page right after the switch gets a second buffer. */
  ghost predicate PastSwitch(w: Request, c: Chips, page: nat, second: bool, cur: nat, spare: iset<byte>) {
    PastPlace(w, c, page, cur) && SpareKept(w, c, page, second, spare)
  }

  ghost predicate PastPlace(w: Request, c: Chips, page: nat, cur: nat) {
    && w.Fits() && c.Valid() && c.g == w.g
    && SwitchPage(w) < page <= w.LastPage() && page < |c.memory|
    && c.selected == page % w.g.totalChips && c.selected < w.g.totalChips
    && c.streaming == 0 && page * w.g.pageSize + c.offset == cur && c.offset <= w.g.pageSize
    && w.Start() <= cur <= w.End()
  }

  ghost predicate SpareKept(w: Request, c: Chips, page: nat, second: bool, spare: iset<byte>)
    requires 0 < w.g.pageSize && 0 < w.g.totalChips && 2 * c.selected + 1 < |c.buffers| && SwitchPage(w) < page < |c.memory|
  {
    && (page == SwitchPage(w) + 1 ==> second && Within(c.buffers[2 * c.selected + 1], spare))
    && (page > SwitchPage(w) + 1 ==> Within(c.memory[SwitchPage(w) + 1], spare))
  }

  ghost predicate RamState(w: Request, before: Chips, c: Chips, page: nat, second: bool, cur: nat, spare: iset<byte>)
    requires w.Fits()
  {
    if page <= SwitchPage(w) then BeforeSwitch(w, before, c, page, second, cur, spare)
    else PastSwitch(w, c, page, second, cur, spare) && FirstsWritten(w, before.memory, c.memory)
  }

  /** The pages up to the switch have got their data. */
  ghost predicate FirstsWritten(w: Request, before: seq<Page>, after: seq<Page>)
    requires w.Fits()
  {
    |after| == |before| && forall q :: w.FirstPage() <= q <= SwitchPage(w) && q < |before| ==> w.PageWritten(q, w.End(), before[q], after[q], ANY_BYTE)
  }

  lemma FirstsKept(w: Request, before: seq<Page>, after: seq<Page>, page: nat, data: Page)
    requires w.Fits() && FirstsWritten(w, before, after) && SwitchPage(w) < page < |after|
    ensures FirstsWritten(w, before, after[page := data])
  {
    hide w.PageWritten, SwitchPage;
  }

  lemma FirstsDone(w: Request, before: seq<Page>, after: seq<Page>)
    requires w.Fits() && w.PagesWritten(SwitchPage(w) + 1, before, after, ANY_BYTE)
    ensures FirstsWritten(w, before, after)
  {
    hide w.PageWritten, SwitchPage;
  }

  /** What the second buffers, and the page after the switch, hold before the write. */
  ghost predicate SpareCovers(w: Request, before: Chips, spare: iset<byte>) {
    && before.Valid() && w.Fits() && before.g == w.g
    && (forall i :: 0 <= i < w.g.totalChips ==> Within(before.buffers[2 * i + 1], spare))
    && (SwitchPage(w) + 1 < |before.memory| ==> Within(before.memory[SwitchPage(w) + 1], spare))
  }

  /** The page after the switch holds nothing but what a second buffer or the page itself held before. */
  ghost predicate MissedPage(w: Request, memory: seq<Page>, spare: iset<byte>)
    requires w.Fits()
  {
    SwitchPage(w) + 1 < |memory| && Within(memory[SwitchPage(w) + 1], spare)
  }

  lemma AnyByteCovers(w: Request, c: Chips)
    requires w.Fits()
    ensures w.CoversStale(c, ANY_BYTE)
  {
  }

  lemma RamOpen(w: Request, before: Chips, spare: iset<byte>)
    requires w.Fits() && before.Valid() && before.g == w.g && SpareCovers(w, before, spare)
    ensures before.SelectChipFromPage(w.FirstPage()).CanUse(0, w.FirstPage())
    ensures RamState(w, before, OpenPage(before, w.FirstPage(), w.Start() % w.g.pageSize), w.FirstPage(), false, w.Start(), spare)
  {
    AnyByteCovers(w, before);
    OpenStep(w, before, ANY_BYTE);
  }

  lemma RamSend(w: Request, before: Chips, c: Chips, page: nat, second: bool, cur: nat, spare: iset<byte>, sent: seq<byte>)
    requires w.Fits() && RamState(w, before, c, page, second, cur, spare)
    requires 0 < |sent| && c.offset + |sent| <= w.g.pageSize && cur + |sent| <= w.End()
    requires cur + |sent| - w.Start() <= |w.data| && w.Start() <= cur
    requires sent == w.data[cur - w.Start()..cur + |sent| - w.Start()]
    ensures c.CanStream(|sent|)
    ensures RamState(w, before, c.SendBytes(sent), page, second, cur + |sent|, spare)
  {
    if page <= SwitchPage(w) {
      SendStep(w, before, c, page, false, cur, ANY_BYTE, sent);
    }
  }

  /** The RAM variant's opening of a page: preload into the buffer in use, but stream into the first one. */
  function RamNextPage(c: Chips, page: nat, second: bool, preload: bool): Chips
    requires 0 < c.g.totalChips
    requires c.SelectChipFromPage(page).CanUse(Buffer(second), page)
  {
    NextPage(c, page, second, preload).BufferWrite(0, 0)
  }

  lemma RamTurn(w: Request, before: Chips, c: Chips, page: nat, second: bool, cur: nat, spare: iset<byte>, preload: bool)
    requires w.Fits() && RamState(w, before, c, page, second, cur, spare) && SpareCovers(w, before, spare)
    requires c.offset == w.g.pageSize && cur < w.End() && cur == page * w.g.pageSize + w.g.pageSize && w.FirstPage() <= page
    requires preload <==> w.Preloaded(page + 1)
    ensures c.CanUse(Buffer(second), page)
    ensures var n := Commit(c, page, second);
      var second' := SwitchBuffer(n, second);
      && 0 < n.g.totalChips && n.SelectChipFromPage(page + 1).CanUse(Buffer(second'), page + 1)
      && RamState(w, before, RamNextPage(n, page + 1, second', preload), page + 1, second', cur, spare)
  {
    if page < SwitchPage(w) {
      RamTurnBefore(w, before, c, page, cur, spare, preload);
    } else if page == SwitchPage(w) {
      RamTurnSwitch(w, before, c, page, cur, spare, preload);
    } else {
      RamTurnPast(w, c, page, second, cur, spare, preload);
      PastCommitted(w, before, c, page, second, preload);
    }
  }

  /** A page past the switch leaves those before it alone. */
  lemma PastCommitted(w: Request, before: Chips, c: Chips, page: nat, second: bool, preload: bool)
    requires w.Fits() && PastPlace(w, c, page, page * w.g.pageSize + c.offset) && FirstsWritten(w, before.memory, c.memory)
    requires c.CanUse(Buffer(second), page)
    ensures FirstsWritten(w, before.memory, Commit(c, page, second).memory)
    ensures var n := Commit(c, page, second);
      0 < n.g.totalChips && n.SelectChipFromPage(page + 1).CanUse(Buffer(SwitchBuffer(n, second)), page + 1) ==>
      FirstsWritten(w, before.memory, RamNextPage(n, page + 1, SwitchBuffer(n, second), preload).memory)
  {
    AddressedSelf(c, page);
    FirstsKept(w, before.memory, c.memory, page, c.buffers[2 * c.selected + Buffer(second)]);
    hide FirstsWritten, w.FirstPage, w.LastPage, SwitchPage;
  }

  lemma RamTurnBefore(w: Request, before: Chips, c: Chips, page: nat, cur: nat, spare: iset<byte>, preload: bool)
    requires BeforeSwitch(w, before, c, page, false, cur, spare) && page < SwitchPage(w)
    requires c.offset == w.g.pageSize && cur < w.End() && (preload <==> w.Preloaded(page + 1))
    ensures c.CanUse(0, page)
    ensures var n := Commit(c, page, false);
      && 0 < n.g.totalChips && n.SelectChipFromPage(page + 1).CanUse(0, page + 1) && !SwitchBuffer(n, false)
      && BeforeSwitch(w, before, RamNextPage(n, page + 1, false, preload), page + 1, false, cur, spare)
  {
    TurnStep(w, before, c, page, false, cur, ANY_BYTE, preload);
    CommitStep(w, before, c, page, false, cur, ANY_BYTE);
    NextChip(page, w.g.totalChips);
    NextPageInRange(w, page, cur);
    hide Tracked, CleanUpTo, w.PagesWritten, w.PageWritten, w.CoversStale;
  }

  lemma RamTurnSwitch(w: Request, before: Chips, c: Chips, page: nat, cur: nat, spare: iset<byte>, preload: bool)
    requires BeforeSwitch(w, before, c, page, false, cur, spare) && page == SwitchPage(w) && SpareCovers(w, before, spare)
    requires c.offset == w.g.pageSize && cur < w.End()
    ensures c.CanUse(0, page)
    ensures var n := Commit(c, page, false);
      && 0 < n.g.totalChips && n.SelectChipFromPage(page + 1).CanUse(1, page + 1) && SwitchBuffer(n, false)
      && PastSwitch(w, RamNextPage(n, page + 1, true, preload), page + 1, true, cur, spare)
      && FirstsWritten(w, before.memory, RamNextPage(n, page + 1, true, preload).memory)
  {
    CommitStep(w, before, c, page, false, cur, ANY_BYTE);
    NextChip(page, w.g.totalChips);
    NextPageInRange(w, page, cur);
    var n := Commit(c, page, false);
    AddressedSelf(n.SelectChipFromPage(page + 1), page + 1);
    assert n.memory[page + 1] == n.memory[page + 1..][0] == before.memory[page + 1];
    FirstsDone(w, before.memory, n.memory);
    hide FirstsWritten, Tracked, CleanUpTo, w.PageWritten, w.CoversStale;
  }

  lemma RamTurnPast(w: Request, c: Chips, page: nat, second: bool, cur: nat, spare: iset<byte>, preload: bool)
    requires PastSwitch(w, c, page, second, cur, spare)
    requires c.offset == w.g.pageSize && cur < w.End()
    ensures c.CanUse(Buffer(second), page)
    ensures var n := Commit(c, page, second);
      var second' := SwitchBuffer(n, second);
      && 0 < n.g.totalChips && n.SelectChipFromPage(page + 1).CanUse(Buffer(second'), page + 1)
      && PastSwitch(w, RamNextPage(n, page + 1, second', preload), page + 1, second', cur, spare)
  {
    PastPlaceTurn(w, c, page, second, cur, preload);
    SpareTurn(w, c, page, second, cur, spare, preload);
    hide PastPlace, SpareKept, Within, Commit, RamNextPage;
  }

  lemma PastPlaceTurn(w: Request, c: Chips, page: nat, second: bool, cur: nat, preload: bool)
    requires PastPlace(w, c, page, cur) && c.offset == w.g.pageSize && cur < w.End()
    ensures c.CanUse(Buffer(second), page)
    ensures var n := Commit(c, page, second);
      var second' := SwitchBuffer(n, second);
      && 0 < n.g.totalChips && n.SelectChipFromPage(page + 1).CanUse(Buffer(second'), page + 1)
      && PastPlace(w, RamNextPage(n, page + 1, second', preload), page + 1, cur)
  {
    NextChip(page, w.g.totalChips);
    NextPageInRange(w, page, cur);
    TurnsChip(c, page, second, preload);
    hide w.FirstPage, w.LastPage, SwitchPage, Chips.Valid, Commit, RamNextPage, Chips.CanUse;
  }

  /** What the turn of a page does to the chip selection and the buffer pointer. */
  lemma TurnsChip(c: Chips, page: nat, second: bool, preload: bool)
    requires c.Valid() && c.selected == page % c.g.totalChips && page + 1 < |c.memory|
    ensures c.CanUse(Buffer(second), page)
    ensures var n := Commit(c, page, second);
      var second' := SwitchBuffer(n, second);
      && n.g == c.g && n.SelectChipFromPage(page + 1).CanUse(Buffer(second'), page + 1)
      && var f := RamNextPage(n, page + 1, second', preload);
        && f.Valid() && f.g == c.g && f.selected == (page + 1) % c.g.totalChips < c.g.totalChips
        && f.streaming == 0 && f.offset == 0
  {
    AddressedSelf(c, page);
    NextChip(page, c.g.totalChips);
    var n := Commit(c, page, second);
    assert n.Valid();
    RamOpens(n, page + 1, SwitchBuffer(n, second), preload);
    hide Chips.Valid, Commit, RamNextPage, Chips.CanUse;
  }

  lemma RamOpens(n: Chips, page: nat, second: bool, preload: bool)
    requires n.Valid() && page < |n.memory|
    ensures n.SelectChipFromPage(page).CanUse(Buffer(second), page)
    ensures var f := RamNextPage(n, page, second, preload);
      && f.Valid() && f.g == n.g && f.selected == page % n.g.totalChips < n.g.totalChips && f.streaming == 0 && f.offset == 0
  {
    AddressedSelf(n.SelectChipFromPage(page), page);
  }

  lemma SpareTurn(w: Request, c: Chips, page: nat, second: bool, cur: nat, spare: iset<byte>, preload: bool)
    requires PastSwitch(w, c, page, second, cur, spare) && c.offset == w.g.pageSize && cur < w.End()
    requires c.CanUse(Buffer(second), page)
    requires 0 < c.g.totalChips && Commit(c, page, second).SelectChipFromPage(page + 1).CanUse(Buffer(SwitchBuffer(Commit(c, page, second), second)), page + 1)
    requires var n := Commit(c, page, second);
      PastPlace(w, RamNextPage(n, page + 1, SwitchBuffer(n, second), preload), page + 1, cur)
    ensures var n := Commit(c, page, second);
      SpareKept(w, RamNextPage(n, page + 1, SwitchBuffer(n, second), preload), page + 1, SwitchBuffer(n, second), spare)
  {
    AddressedSelf(c, page);
  }

  /** The commit that ends the call. */
  lemma RamFinish(w: Request, before: Chips, c: Chips, page: nat, second: bool, spare: iset<byte>)
    requires w.Fits() && RamState(w, before, c, page, second, w.End(), spare) && page == w.LastPage()
    requires page == w.FirstPage() || 0 < c.offset
    ensures c.CanUse(Buffer(second), page)
    ensures var n := Commit(c, page, second);
      && n.Valid() && n.g == w.g
      && (page <= SwitchPage(w) ==> (n.clean <==> ReadyToWrite(w, before)) && w.PagesWritten(page + 1, before.memory, n.memory, ANY_BYTE))
      && (page > SwitchPage(w) ==> MissedPage(w, n.memory, spare) && FirstsWritten(w, before.memory, n.memory))
  {
    AddressedSelf(c, page);
    if page <= SwitchPage(w) {
      CommitStep(w, before, c, page, false, w.End(), ANY_BYTE);
    } else {
      PastCommitted(w, before, c, page, second, false);
    }
    hide FirstsWritten;
  }

  ghost predicate RamLoop(w: Request, before: Chips, c: Chips, page: nat, second: bool, pageByteDiv16: nat, cur: nat, spare: iset<byte>) {
    && w.Fits() && RamState(w, before, c, page, second, cur, spare) && SpareCovers(w, before, spare)
    && c.g == w.g && c.offset == 16 * pageByteDiv16 && c.offset <= w.g.pageSize
    && w.FirstPage() <= page <= w.LastPage() && page * w.g.pageSize + c.offset == cur && w.Start() <= cur
    && (page == w.FirstPage() || 0 < c.offset)
  }

  /**
   * Up to the buffer switch the variant does what WriteBlocks does. Past it, the first page after the
   * switch receives none of the data; the pages before it have theirs.
   */
  method WriteBlocksRam(m: MassStorage, blockAddress: nat, totalBlocks: nat, bufferPtr: seq<byte>,
      ghost w: Request, ghost spare: iset<byte>)
    requires w == Request(m.chips.g, blockAddress, totalBlocks, bufferPtr) && w.Fits()
    requires totalBlocks * BLOCK_SIZE <= |bufferPtr|
    requires m.chips.Valid() && SpareCovers(w, m.chips, spare)
    modifies m`chips
    ensures m.chips.Valid() && m.chips.g == old(m.chips.g)
    ensures w.LastPage() <= SwitchPage(w) ==>
      && (m.chips.clean <==> ReadyToWrite(w, old(m.chips)))
      && (m.chips.clean ==> w.PagesWritten(w.LastPage() + 1, old(m.chips.memory), m.chips.memory, ANY_BYTE))
    ensures w.LastPage() <= SwitchPage(w) && m.chips.clean && Safe(w) ==>
      && w.End() <= |old(Flat(m.chips.memory))|
      && Flat(m.chips.memory) == Splice(old(Flat(m.chips.memory)), w.Start(), bufferPtr[..w.blocks * BLOCK_SIZE])
    ensures w.LastPage() > SwitchPage(w) ==> MissedPage(w, m.chips.memory, spare) && FirstsWritten(w, old(m.chips.memory), m.chips.memory)
    ensures m.chips.selected == m.chips.g.totalChips
  {
    hide FirstsWritten, w.Fits, w.PagesWritten, w.FirstPage, w.LastPage, Safe, SwitchPage, MissedPage, RamLoop, RamState, SpareCovers, Chips.Valid, ReadyToWrite, Flat, Within;
    ghost var before := m.chips;
    ghost var cur := w.Start();
    var page, pageByteDiv16 := RamOpenFirst(m, blockAddress, w, spare);
    var second := false;
    var blocksLeft: nat := totalBlocks;
    while blocksLeft > 0
      invariant blocksLeft <= totalBlocks && cur == w.Start() + BLOCK_SIZE * (totalBlocks - blocksLeft)
      invariant RamLoop(w, before, m.chips, page, second, pageByteDiv16, cur, spare)
    {
      var chunkInBlock := 0;
      while chunkInBlock < CHUNKS_PER_BLOCK
        invariant 0 <= chunkInBlock <= CHUNKS_PER_BLOCK
        invariant cur == w.Start() + BLOCK_SIZE * (totalBlocks - blocksLeft) + 16 * chunkInBlock
        invariant RamLoop(w, before, m.chips, page, second, pageByteDiv16, cur, spare)
      {
        var at := (totalBlocks - blocksLeft) * BLOCK_SIZE + 16 * chunkInBlock;
        page, second, pageByteDiv16 :=
          RamChunk(m, page, second, pageByteDiv16, blocksLeft, bufferPtr[at..at + 16], w, before, chunkInBlock, cur, spare);
        cur := cur + 16;
        chunkInBlock := chunkInBlock + 1;
      }
      blocksLeft := blocksLeft - 1;
    }
    RamLast(m, page, second, w, before, pageByteDiv16, spare);
  }

  method RamOpenFirst(m: MassStorage, blockAddress: nat, ghost w: Request, ghost spare: iset<byte>)
    returns (page: nat, pageByteDiv16: nat)
    requires w.Fits() && w.g == m.chips.g && w.addr == blockAddress && m.chips.Valid()
    requires SpareCovers(w, m.chips, spare)
    modifies m`chips
    ensures RamLoop(w, old(m.chips), m.chips, page, false, pageByteDiv16, w.Start(), spare)
  {
    RamOpen(w, m.chips, spare);
    StartAligned(w);
    LastPageFits(w);
    page := (blockAddress * BLOCK_SIZE) / m.chips.g.pageSize;
    var pageByte := (blockAddress * BLOCK_SIZE) % m.chips.g.pageSize;
    pageByteDiv16 := pageByte / 16;
    m.chips := m.chips.SelectChipFromPage(page);
    if m.chips.g.pageSize > BLOCK_SIZE {
      m.chips := m.chips.MainMemToBuffer(0, page).WaitWhileBusy();
    }
    m.chips := m.chips.BufferWrite(0, pageByte);
  }

  method RamChunk(m: MassStorage, page: nat, second: bool, pageByteDiv16: nat, blocksLeft: nat, data: seq<byte>,
      ghost w: Request, ghost before: Chips, ghost chunk: nat, ghost cur: nat, ghost spare: iset<byte>)
    returns (page': nat, second': bool, pageByteDiv16': nat)
    requires RamLoop(w, before, m.chips, page, second, pageByteDiv16, cur, spare) && w.Fits()
    requires 0 < blocksLeft <= w.blocks && chunk < CHUNKS_PER_BLOCK && w.blocks * BLOCK_SIZE <= |w.data|
    requires cur == w.Start() + BLOCK_SIZE * (w.blocks - blocksLeft) + 16 * chunk
    requires |data| == 16 && cur + 16 - w.Start() <= |w.data| && data == w.data[cur - w.Start()..cur + 16 - w.Start()]
    modifies m`chips
    ensures RamLoop(w, before, m.chips, page', second', pageByteDiv16', cur + 16, spare)
  {
    hide RamState, SpareCovers, Chips.Valid;
    page', second', pageByteDiv16' := page, second, pageByteDiv16;
    BlockInRange(w, blocksLeft, chunk);
    if pageByteDiv16 == m.chips.g.pageSize / 16 {
      page', second' := RamTurnPage(m, page, second, blocksLeft, w, before, chunk, cur, spare);
      pageByteDiv16' := 0;
    }
    RamSend(w, before, m.chips, page', second', cur, spare, data);
    SendBlock(m, data);
    pageByteDiv16' := pageByteDiv16' + 1;
  }

  method RamTurnPage(m: MassStorage, page: nat, second: bool, blocksLeft: nat,
      ghost w: Request, ghost before: Chips, ghost chunk: nat, ghost cur: nat, ghost spare: iset<byte>)
    returns (page': nat, second': bool)
    requires w.Fits() && RamState(w, before, m.chips, page, second, cur, spare) && SpareCovers(w, before, spare)
    requires m.chips.g == w.g && m.chips.offset == w.g.pageSize && cur < w.End()
    requires w.FirstPage() <= page && cur == page * w.g.pageSize + w.g.pageSize
    requires blocksLeft <= w.blocks && chunk < CHUNKS_PER_BLOCK
    requires cur == w.Start() + BLOCK_SIZE * (w.blocks - blocksLeft) + 16 * chunk
    modifies m`chips
    ensures page' == page + 1 <= w.LastPage() && page' * w.g.pageSize == cur
    ensures m.chips.offset == 0 && m.chips.g == old(m.chips.g)
    ensures RamState(w, before, m.chips, page', second', cur, spare)
  {
    hide RamState, SpareCovers;
    NextPageInRange(w, page, cur);
    PreloadTest(w, page + 1, blocksLeft, chunk);
    RamTurn(w, before, m.chips, page, second, cur, spare, w.Preloaded(page + 1));
    m.chips := m.chips.WaitWhileBusy().BufferToMainMem(Buffer(second), page);
    page' := page + 1;
    second' := if m.chips.selected + 1 == m.chips.g.totalChips then !second else second;
    m.chips := m.chips.SelectChipFromPage(page');
    if m.chips.g.pageSize > BLOCK_SIZE && (blocksLeft * CHUNKS_PER_BLOCK) % 0x1_0000 < m.chips.g.pageSize / 16 {
      m.chips := m.chips.WaitWhileBusy().MainMemToBuffer(Buffer(second'), page').WaitWhileBusy();
    }
    m.chips := m.chips.BufferWrite(0, 0);
  }

  /** The 16-byte loop from RAM. */
  method SendBlock(m: MassStorage, data: seq<byte>)
    requires m.chips.CanStream(|data|)
    modifies m`chips
    ensures m.chips == old(m.chips).SendBytes(data)
  {
    SendNone(m.chips);
    assert data[..0] == [] && data[..|data|] == data;
    for byteNum := 0 to |data|
      invariant old(m.chips).CanStream(byteNum) && m.chips == old(m.chips).SendBytes(data[..byteNum])
    {
      SendOneMore(old(m.chips), data[..byteNum], data[byteNum]);
      assert data[..byteNum] + [data[byteNum]] == data[..byteNum + 1];
      m.chips := m.chips.SendByte(data[byteNum]);
    }
  }

  method RamLast(m: MassStorage, page: nat, second: bool, ghost w: Request, ghost before: Chips, ghost pageByteDiv16: nat, ghost spare: iset<byte>)
    requires RamLoop(w, before, m.chips, page, second, pageByteDiv16, w.End(), spare)
    requires w.Fits() && before.Valid() && before.g == w.g && w.blocks * BLOCK_SIZE <= |w.data|
    modifies m`chips
    ensures m.chips.Valid() && m.chips.g == w.g
    ensures w.LastPage() <= SwitchPage(w) ==> (m.chips.clean <==> ReadyToWrite(w, before)) && w.PagesWritten(w.LastPage() + 1, before.memory, m.chips.memory, ANY_BYTE)
    ensures w.LastPage() <= SwitchPage(w) && Safe(w) ==>
      && w.End() <= |Flat(before.memory)|
      && Flat(m.chips.memory) == Splice(Flat(before.memory), w.Start(), w.data[..w.blocks * BLOCK_SIZE])
    ensures w.LastPage() > SwitchPage(w) ==> MissedPage(w, m.chips.memory, spare) && FirstsWritten(w, before.memory, m.chips.memory)
    ensures m.chips.selected == m.chips.g.totalChips
  {
    hide RamState, SpareCovers, w.PagesWritten, Safe, MissedPage, FirstsWritten;
    AtLastPage(w, page, w.End());
    LastPageFits(w);
    RamFinish(w, before, m.chips, page, second, spare);
    if page <= SwitchPage(w) {
      WriteIsSplice(w, before, Commit(m.chips, page, second), ANY_BYTE);
    }
    m.chips := m.chips.WaitWhileBusy().BufferToMainMem(Buffer(second), page).WaitWhileBusy();
    m.chips := m.chips.DeselectChip();
  }

  lemma BlankSpare(w: Request)
    requires w.Fits()
    ensures SpareCovers(w, OddPage(w.g, w.g.TotalPages()), iset{0 as byte}) && OddPage(w.g, w.g.TotalPages()).Valid()
  {
  }

  lemma MissedByte(w: Request, after: Chips) returns (pos: nat)
    requires w.Fits() && after.Valid() && after.g == w.g && w.LastPage() > SwitchPage(w)
    requires MissedPage(w, after.memory, iset{0 as byte})
    ensures w.Start() <= pos < w.End() && pos < |Flat(after.memory)| && Flat(after.memory)[pos] == 0
  {
    LastPageFits(w);
    var q := SwitchPage(w) + 1;
    pos := q * w.g.pageSize;
    FlatIndex(after.memory, w.g.pageSize, q, 0);
    InsideRange(w, q);
  }

  lemma FirstByte(w: Request, before: seq<Page>, after: Chips)
    requires w.Fits() && 0 < w.blocks && after.Valid() && after.g == w.g && w.LastPage() > SwitchPage(w)
    requires FirstsWritten(w, before, after.memory) && w.data != []
    ensures w.Start() < |Flat(after.memory)| && Flat(after.memory)[w.Start()] == w.data[0]
  {
    LastPageFits(w);
    var q, o := w.FirstPage(), w.Start() % w.g.pageSize;
    assert q * w.g.pageSize + o == w.Start();
    FlatIndex(after.memory, w.g.pageSize, q, o);
    assert w.PageWritten(q, w.End(), before[q], after.memory[q], ANY_BYTE);
    assert w.ByteWritten(q, o, w.End(), before[q][o], after.memory[q][o], ANY_BYTE);
  }

  lemma InsideRange(w: Request, q: nat)
    requires w.Fits() && w.FirstPage() < q <= w.LastPage()
    ensures w.Start() <= q * w.g.pageSize < w.End()
  {
    LastPageFits(w);
    MulMono(w.FirstPage() + 1, q, w.g.pageSize);
    MulStep(w.FirstPage(), w.g.pageSize);
    MulMono(q, w.LastPage(), w.g.pageSize);
    assert w.LastPage() * w.g.pageSize <= w.End() - 1;
  }

  /** Every request that goes past the switch loses data: 255 written to a blank medium reads back as 0. */
  method RamWriteLosesData(g: Geometry, addr: nat, blocks: nat)
    returns (m: MassStorage, ghost w: Request, ghost pos: nat)
    requires Request(g, addr, blocks, []).Fits() && Request(g, addr, blocks, []).LastPage() > SwitchPage(Request(g, addr, blocks, []))
    ensures w == Request(g, addr, blocks, seq(blocks * BLOCK_SIZE, _ => 255 as byte))
    ensures w.Start() <= pos < w.End() && w.data[pos - w.Start()] == 255
    ensures pos < |Flat(m.chips.memory)| && Flat(m.chips.memory)[pos] == 0 && Flat(m.chips.memory)[w.Start()] == 255
  {
    var data := seq(blocks * BLOCK_SIZE, _ => 255 as byte);
    w := Request(g, addr, blocks, data);
    BlankSpare(w);
    hide FirstsWritten, w.Fits, w.FirstPage, w.LastPage, SwitchPage, MissedPage, SpareCovers, OddPage, Chips.Valid, ReadyToWrite, Flat;
    m := new MassStorage(OddPage(g, g.TotalPages()), OutPipe(false, [], []), InPipe(16, [], []));
    WriteBlocksRam(m, addr, blocks, data, w, iset{0 as byte});
    pos := MissedByte(w, m.chips);
    FirstByte(w, OddPage(g, g.TotalPages()).memory, m.chips);
  }
}
