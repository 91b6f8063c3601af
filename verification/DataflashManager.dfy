/**
 * DataflashManager: writes and reads of 512-byte OS blocks on a medium of dataflash pages, proved against
 * a flat array of bytes.
 */
module DataflashManager {
  import opened Bytes
  import opened Dataflash
  import opened DataflashPackets
  import opened DataflashSteps
  import opened DataflashTheorems
  import opened Endpoint

  class MassStorage {
    var chips: Chips
    var usbOut: OutPipe
    var usbIn: InPipe

    constructor (chips: Chips, usbOut: OutPipe, usbIn: InPipe)
      ensures this.chips == chips && this.usbOut == usbOut && this.usbIn == usbIn
    {
      this.chips, this.usbOut, this.usbIn := chips, usbOut, usbIn;
    }

    /** Sixteen reads from the endpoint bank to the buffer being written, whatever the bank holds. */
    method WriteChunk()
      requires chips.CanStream(16)
      modifies this`chips, this`usbOut
      ensures chips == old(chips.SendBytes(Front(usbOut.bank, 16))) && usbOut == old(AfterBytes(usbOut, 16)) && usbIn == old(usbIn)
    {
      SendNone(chips);
      OneMoreByte(usbOut, 0);
      assert Front(usbOut.bank, 0) == [];
      hide Front, NextByte, AfterByte, AfterBytes, Chips.SendBytes, Chips.SendByte;
      for byteNum := 0 to 16
        invariant usbIn == old(usbIn) && usbOut == old(AfterBytes(usbOut, byteNum))
        invariant old(chips.CanStream(byteNum)) && chips == old(chips.SendBytes(Front(usbOut.bank, byteNum)))
      {
        OneMoreByte(old(usbOut), byteNum);
        SendOneMore(old(chips), old(Front(usbOut.bank, byteNum)), NextByte(usbOut));
        chips := chips.SendByte(NextByte(usbOut));
        usbOut := AfterByte(usbOut);
      }
    }

    /**
     * DataflashManager_WriteBlocks. The host's reset flag is seen set after `resetAfter` chunks, and the
     * host offers the packets of usbOut and then nothing. `frontier` is the first page not programmed. What is said
     * of the memory holds if nothing was asked of a busy chip; that is so exactly when ReadyToWrite held at the start.
     */
    method WriteBlocks(blockAddress: nat, totalBlocks: nat, resetAfter: nat, ghost w: Request, ghost stale: iset<byte>)
      returns (completed: bool, ghost frontier: nat)
      requires w == Request(chips.g, blockAddress, totalBlocks, Offered(usbOut)) && w.Fits()
      requires chips.Valid() && NoPacketNoBytes(usbOut)
      requires w.CoversStale(chips, stale)
      modifies this
      ensures chips.Valid() && chips.g == old(chips.g) && usbIn == old(usbIn)
      ensures ReadyToWrite(w, old(chips)) ==> chips.clean
      ensures completed ==> (chips.clean <==> ReadyToWrite(w, old(chips)))
      ensures w.FirstPage() <= frontier <= w.LastPage() + 1
      ensures chips.clean ==> w.PagesWritten(frontier, old(chips.memory), chips.memory, stale)
      ensures LeftBusy(w, old(chips), chips, if completed then w.LastPage() else frontier)
      ensures completed <==> old(usbOut.Available()) && w.blocks * BLOCK_SIZE <= |w.data| && (w.blocks == 0 || w.blocks * CHUNKS_PER_BLOCK < resetAfter)
      ensures completed ==> frontier == w.LastPage() + 1 && chips.selected == chips.g.totalChips && IdleAt(chips, w.LastPage())
      ensures completed ==> (usbOut.hasPacket ==> usbOut.bank != [])
      ensures completed ==> NoPacketNoBytes(usbOut) && Intake(usbOut) == w.data[w.blocks * BLOCK_SIZE..]
      ensures completed && chips.clean && Safe(w) ==>
        && w.End() <= |old(Flat(chips.memory))|
        && Flat(chips.memory) == Splice(old(Flat(chips.memory)), w.Start(), w.data[..w.blocks * BLOCK_SIZE])
    {
      ghost var before := chips;
      hide w.PagesWritten, w.PageWritten, w.CoversStale, w.FirstPage, w.LastPage, w.Fits, Streaming, InLoop, Chips.Valid, Safe,
        Awaited, AtChunk, InHand, Splice, LeftBusy, ReadyToWrite, IdleAt, Flat, Intake, Offered, OutPipe.Await, OutPipe.Available, NoPacketNoBytes;
      ghost var cur := w.Start();
      var page, pageByteDiv16 := Open(blockAddress, w, stale);
      var usingSecondBuffer := false;
      var blocksLeft: nat := totalBlocks;
      var chunks: nat := 0;
      InLoopMeans(w, before, chips, Awaited(usbOut), page, false, pageByteDiv16, cur, stale);
      if !usbOut.Available() {
        return false, page;
      }
      usbOut := usbOut.Await();

      while blocksLeft > 0
        invariant blocksLeft <= totalBlocks && cur == w.Start() + BLOCK_SIZE * (totalBlocks - blocksLeft)
        invariant InLoop(w, before, chips, usbOut, page, usingSecondBuffer, pageByteDiv16, cur, stale) && usbIn == old(usbIn)
        invariant 16 * chunks == cur - w.Start() && (chunks == 0 || chunks < resetAfter)
      {
        var chunkInBlock := 0;
        while chunkInBlock < CHUNKS_PER_BLOCK
          invariant 0 <= chunkInBlock <= CHUNKS_PER_BLOCK
          invariant cur == w.Start() + BLOCK_SIZE * (totalBlocks - blocksLeft) + 16 * chunkInBlock
          invariant InLoop(w, before, chips, usbOut, page, usingSecondBuffer, pageByteDiv16, cur, stale) && usbIn == old(usbIn)
          invariant 16 * chunks == cur - w.Start() && (chunks == 0 || chunks < resetAfter)
        {
          var ready := NextPacket(w, before, page, usingSecondBuffer, pageByteDiv16, cur, stale);
          if !ready {
            InLoopMeans(w, before, chips, usbOut, page, usingSecondBuffer, pageByteDiv16, cur, stale);
            return false, page;
          }
          page, usingSecondBuffer, pageByteDiv16 :=
            StreamChunk(page, usingSecondBuffer, pageByteDiv16, blocksLeft, w, before, chunkInBlock, cur, stale);
          cur := cur + 16;
          chunkInBlock := chunkInBlock + 1;
          chunks := chunks + 1;
          if resetAfter <= chunks {
            InLoopMeans(w, before, chips, usbOut, page, usingSecondBuffer, pageByteDiv16, cur, stale);
            return false, page;
          }
        }
        blocksLeft := blocksLeft - 1;
      }

      Finish(page, usingSecondBuffer, w, before, pageByteDiv16, cur, stale);
      WriteIsSplice(w, before, chips, stale);
      return true, page + 1;
    }

    /** Selects the first page's chip, preloads the page if pages are larger than blocks, and starts the buffer write. */
    method Open(blockAddress: nat, ghost w: Request, ghost stale: iset<byte>) returns (page: nat, pageByteDiv16: nat)
      requires w == Request(chips.g, blockAddress, w.blocks, Offered(usbOut)) && w.Fits()
      requires chips.Valid() && w.CoversStale(chips, stale) && NoPacketNoBytes(usbOut)
      modifies this`chips
      ensures Awaited(usbOut) == if usbOut.Available() then usbOut.Await() else usbOut
      ensures InLoop(w, old(chips), chips, Awaited(usbOut), page, false, pageByteDiv16, w.Start(), stale)
    {
      OpenStep(w, chips, stale);
      StartAligned(w);
      page := (blockAddress * BLOCK_SIZE) / chips.g.pageSize;
      var pageByte := (blockAddress * BLOCK_SIZE) % chips.g.pageSize;
      pageByteDiv16 := pageByte / 16;
      chips := chips.SelectChipFromPage(page);
      if chips.g.pageSize > BLOCK_SIZE {
        chips := chips.MainMemToBuffer(0, page).WaitWhileBusy();
      }
      chips := chips.BufferWrite(0, pageByte);
    }

    /** Gives a bank that is used up back and waits for the next packet; fails when the host sends no more. */
    method NextPacket(ghost w: Request, ghost before: Chips, ghost page: nat, ghost second: bool,
        ghost pageByteDiv16: nat, ghost cur: nat, ghost stale: iset<byte>)
      returns (ready: bool)
      requires InLoop(w, before, chips, usbOut, page, second, pageByteDiv16, cur, stale)
      modifies this`usbOut
      ensures ready ==> InHand(w, before, chips, usbOut, page, second, pageByteDiv16, cur, stale)
      ensures !ready ==> InLoop(w, before, chips, usbOut, page, second, pageByteDiv16, cur, stale) && cur - w.Start() == |w.data|
    {
      PacketStep(w, before, chips, usbOut, page, second, pageByteDiv16, cur, stale);
      hide *;
      if !usbOut.ReadWriteAllowed() {
        usbOut := usbOut.Clear();
        if !usbOut.Available() {
          return false;
        }
        usbOut := usbOut.Await();
      }
      return true;
    }

    /** One pass of the inner loop: turns the page if it is full, then moves one chunk to the buffer. */
    method StreamChunk(page: nat, second: bool, pageByteDiv16: nat, blocksLeft: nat,
        ghost w: Request, ghost before: Chips, ghost chunk: nat, ghost cur: nat, ghost stale: iset<byte>)
      returns (page': nat, second': bool, pageByteDiv16': nat)
      requires InHand(w, before, chips, usbOut, page, second, pageByteDiv16, cur, stale)
      requires 0 < blocksLeft <= w.blocks && chunk < CHUNKS_PER_BLOCK
      requires cur == w.Start() + BLOCK_SIZE * (w.blocks - blocksLeft) + 16 * chunk
      modifies this`chips, this`usbOut
      ensures InLoop(w, before, chips, usbOut, page', second', pageByteDiv16', cur + 16, stale)
    {
      hide w.PagesWritten, w.PageWritten, w.CoversStale;
      page', second', pageByteDiv16' := page, second, pageByteDiv16;
      BlockInRange(w, blocksLeft, chunk);
      if pageByteDiv16 == chips.g.pageSize / 16 {
        page', second' := TurnPage(page, second, blocksLeft, w, before, chunk, cur, stale);
        pageByteDiv16' := 0;
      }
      ChunkStep(w, before, chips, usbOut, page', second', pageByteDiv16', cur, stale);
      hide Streaming, InLoop, InHand;
      WriteChunk();
      pageByteDiv16' := pageByteDiv16' + 1;
    }

    /** The end of a page: commits the buffer, moves to the next page and chip, and preloads if less than a page is left. */
    method TurnPage(page: nat, second: bool, blocksLeft: nat,
        ghost w: Request, ghost before: Chips, ghost chunk: nat, ghost cur: nat, ghost stale: iset<byte>)
      returns (page': nat, second': bool)
      requires Streaming(w, before, chips, page, second, cur, stale)
      requires chips.offset == chips.g.pageSize && cur < w.End()
      requires blocksLeft <= w.blocks && chunk < CHUNKS_PER_BLOCK
      requires cur == w.Start() + BLOCK_SIZE * (w.blocks - blocksLeft) + 16 * chunk
      modifies this`chips
      ensures page' == page + 1 && chips.offset == 0 && chips.g == old(chips.g)
      ensures Streaming(w, before, chips, page', second', cur, stale)
    {
      NextPageInRange(w, page, cur);
      PreloadTest(w, page + 1, blocksLeft, chunk);
      TurnStep(w, before, chips, page, second, cur, stale, w.Preloaded(page + 1));
      ghost var preload := w.Preloaded(page + 1);
      assert preload <==> chips.g.pageSize > BLOCK_SIZE && (blocksLeft * CHUNKS_PER_BLOCK) % 0x1_0000 < chips.g.pageSize / 16;
      hide Streaming, NextPage, Commit, SwitchBuffer, Chips.CanUse, Chips.SelectChipFromPage;
      page', second' := SwitchPage(page, second, blocksLeft, preload);
    }

    /** The commands at the end of a page. */
    method SwitchPage(page: nat, second: bool, blocksLeft: nat, ghost preload: bool) returns (page': nat, second': bool)
      requires preload <==> chips.g.pageSize > BLOCK_SIZE && (blocksLeft * CHUNKS_PER_BLOCK) % 0x1_0000 < chips.g.pageSize / 16
      requires chips.CanUse(Buffer(second), page)
      requires var n := Commit(chips, page, second); n.SelectChipFromPage(page + 1).CanUse(Buffer(SwitchBuffer(n, second)), page + 1)
      modifies this`chips
      ensures page' == page + 1 && second' == SwitchBuffer(Commit(old(chips), page, second), second)
      ensures chips == NextPage(Commit(old(chips), page, second), page + 1, second', preload)
      ensures chips.offset == 0 && chips.g == old(chips.g)
    {
      chips := chips.WaitWhileBusy().BufferToMainMem(Buffer(second), page);
      page' := page + 1;
      second' := if chips.selected + 1 == chips.g.totalChips then !second else second;
      chips := chips.SelectChipFromPage(page');
      if chips.g.pageSize > BLOCK_SIZE && (blocksLeft * CHUNKS_PER_BLOCK) % 0x1_0000 < chips.g.pageSize / 16 {
        chips := chips.WaitWhileBusy().MainMemToBuffer(Buffer(second'), page').WaitWhileBusy();
      }
      chips := chips.BufferWrite(Buffer(second'), 0);
    }

    /** Commits the last page, waits for its chip, gives an exhausted bank back and deselects. */
    method Finish(page: nat, second: bool, ghost w: Request, ghost before: Chips, ghost pageByteDiv16: nat,
        ghost cur: nat, ghost stale: iset<byte>)
      requires InLoop(w, before, chips, usbOut, page, second, pageByteDiv16, cur, stale) && cur == w.End()
      modifies this`chips, this`usbOut
      ensures page == w.LastPage() && chips.Valid() && (chips.clean <==> ReadyToWrite(w, before)) && chips.g == before.g
      ensures chips.selected == chips.g.totalChips && w.PagesWritten(page + 1, before.memory, chips.memory, stale)
      ensures LeftBusy(w, before, chips, page) && IdleAt(chips, page) && (usbOut.hasPacket ==> usbOut.bank != [])
      ensures w.blocks * BLOCK_SIZE <= |w.data| && NoPacketNoBytes(usbOut) && Intake(usbOut) == w.data[w.blocks * BLOCK_SIZE..]
    {
      CommitStep(w, before, chips, page, second, cur, stale);
      AtLastPage(w, page, cur);
      hide w.FirstPage, w.LastPage, w.SecondAt, w.CoversStale, w.PageWritten, w.PagesWritten, Within;
      chips := chips.WaitWhileBusy().BufferToMainMem(Buffer(second), page).WaitWhileBusy();
      if !usbOut.ReadWriteAllowed() {
        usbOut := usbOut.Clear();
      }
      chips := chips.DeselectChip();
    }

    /** Sixteen bytes from the page being read to the endpoint bank. */
    method ReadChunk(ghost flat: seq<byte>, ghost cur: nat)
      requires chips.readPage < |chips.memory| && chips.offset + 16 <= |chips.memory[chips.readPage]|
      requires |usbIn.bank| + 16 <= usbIn.size
      requires cur + 16 <= |flat| && flat[cur..cur + 16] == chips.memory[chips.readPage][chips.offset..chips.offset + 16]
      modifies this`chips, this`usbIn
      ensures chips == old(chips.(offset := chips.offset + 16))
      ensures usbIn == old(usbIn.(bank := usbIn.bank + flat[cur..cur + 16]))
    {
      assert usbIn.bank + flat[cur..cur] == usbIn.bank;
      for byteNum := 0 to 16
        invariant chips == old(chips.(offset := chips.offset + byteNum))
        invariant usbIn == old(usbIn.(bank := usbIn.bank + flat[cur..cur + byteNum]))
      {
        assert chips.ReceiveByte() == flat[cur..cur + 16][byteNum];
        assert flat[cur..cur + byteNum] + [flat[cur + byteNum]] == flat[cur..cur + byteNum + 1];
        usbIn := usbIn.Write(chips.ReceiveByte());
        chips := chips.AfterReceive();
      }
    }

    method OpenRead(blockAddress: nat, ghost w: Request) returns (page: nat, pageByteDiv16: nat)
      requires w == Request(chips.g, blockAddress, w.blocks, []) && w.Fits() && chips.Valid()
      modifies this`chips
      ensures Reading(w, old(chips), chips, page, pageByteDiv16, w.Start()) && page == w.FirstPage()
      ensures w.End() <= |Flat(chips.memory)|
    {
      FlatLength(chips.memory, chips.g.pageSize);
      ReadOpens(w, chips);
      page := (blockAddress * BLOCK_SIZE) / chips.g.pageSize;
      var pageByte := (blockAddress * BLOCK_SIZE) % chips.g.pageSize;
      pageByteDiv16 := pageByte / 16;
      chips := chips.SelectChipFromPage(page);
      chips := chips.MainMemPageRead(page, pageByte);
    }

    method TurnReadPage(page: nat, ghost w: Request, ghost before: Chips, ghost read: nat) returns (page': nat)
      requires Reading(w, before, chips, page, w.g.pageSize / 16, read) && read < w.End()
      modifies this`chips
      ensures Reading(w, before, chips, page', 0, read) && 0 < w.g.pageSize / 16
    {
      ReadNextPage(w, page, read);
      ReadTracked(w, before, chips, page + 1, 0);
      hide IdleUpTo;
      page' := page + 1;
      chips := chips.SelectChipFromPage(page');
      chips := chips.MainMemPageRead(page', 0);
    }

    method MoveChunk(page: nat, ghost w: Request, ghost start: Chips, ghost pageByteDiv16: nat, ghost read: nat, ghost before: InPipe, ghost flat: seq<byte>)
      requires Reading(w, start, chips, page, pageByteDiv16, read) && pageByteDiv16 != w.g.pageSize / 16
      requires flat == Flat(start.memory) && w.Start() <= read <= |flat|
      requires Sending(before, usbIn, flat[w.Start()..read]) && usbIn.ReadWriteAllowed() && read + 16 <= w.End()
      modifies this`chips, this`usbIn
      ensures Reading(w, start, chips, page, pageByteDiv16 + 1, read + 16)
      ensures read + 16 <= |flat| && Sending(before, usbIn, flat[w.Start()..read + 16]) && usbIn.sent == old(usbIn.sent)
    {
      FlatSlice(chips.memory, chips.g.pageSize, page, chips.offset, 16);
      ChunkKeepsReading(w, start, chips, page, pageByteDiv16, read);
      hide Reading;
      SendMore(before, usbIn, flat, w.Start(), read);
      ReadChunk(flat, read);
    }

    /** Sends a full bank and waits for the host to take it. */
    method MakeRoom(taken: nat, hostTakes: nat, ghost before: InPipe, ghost data: seq<byte>) returns (ready: bool, taken': nat)
      requires Sending(before, usbIn, data) && taken <= hostTakes
      modifies this`usbIn
      ensures Sending(before, usbIn, data)
      ensures ready ==> usbIn.ReadWriteAllowed() && taken <= taken' <= taken + 1 && |usbIn.sent| == |old(usbIn.sent)| + (taken' - taken)
      ensures ready ==> taken' == taken || taken < hostTakes
      ensures !ready ==> taken == hostTakes && |usbIn.sent| == |old(usbIn.sent)| + 1
    {
      if !usbIn.ReadWriteAllowed() {
        SendFull(before, usbIn, data);
        usbIn := usbIn.Clear();
        if taken == hostTakes {
          return false, taken;
        }
        return true, taken + 1;
      }
      return true, taken;
    }

    /**
     * DataflashManager_ReadBlocks, for a host that takes `hostTakes` packets and resets after `resetAfter`
     * chunks. Every packet sent is full, and a bank that is full in the end is sent too; no more than one packet is sent
     * that the host does not take. A chip asked for a page while it still programs answers with nothing of use: then the
     * medium is not clean.
     */
    method ReadBlocks(blockAddress: nat, totalBlocks: nat, resetAfter: nat, hostTakes: nat, ghost w: Request)
      returns (completed: bool, ghost read: nat)
      requires w == Request(chips.g, blockAddress, totalBlocks, []) && w.Fits()
      requires chips.Valid()
      requires usbIn.Valid() && usbIn.size % 16 == 0 && |usbIn.bank| % 16 == 0
      modifies this
      ensures chips.g == old(chips.g) && chips.memory == old(chips.memory) && chips.busy == old(chips.busy) && usbOut == old(usbOut)
      ensures IdleFor(w, old(chips)) ==> chips.clean
      ensures completed ==> (chips.clean <==> IdleFor(w, old(chips)))
      ensures usbIn.Valid() && usbIn.size == old(usbIn.size) && w.Start() <= read <= w.End() <= |Flat(chips.memory)|
      ensures chips.clean ==> usbIn.Stream() == old(usbIn.Stream()) + Flat(chips.memory)[w.Start()..read]
      ensures old(usbIn.sent) <= usbIn.sent
      ensures forall i :: |old(usbIn.sent)| <= i < |usbIn.sent| ==> |usbIn.sent[i]| == usbIn.size
      ensures |usbIn.sent| <= |old(usbIn.sent)| + hostTakes + 1
      ensures completed ==> read == w.End() && |usbIn.bank| < usbIn.size && chips.selected == chips.g.totalChips
      ensures w.blocks * CHUNKS_PER_BLOCK < resetAfter && w.blocks * CHUNKS_PER_BLOCK <= hostTakes ==> completed
    {
      hide w.Fits, w.FirstPage, w.LastPage, Reading, Sending, Chips.Valid, Flat, IdleFor, IdleUpTo, InPipe.Valid, InPipe.Stream;
      var pageSize := chips.g.pageSize;
      ghost var flat := Flat(chips.memory);
      var page, pageByteDiv16 := OpenRead(blockAddress, w);
      var blocksLeft: nat, taken: nat, chunks: nat := totalBlocks, 0, 0;
      ghost var first := page;
      read := w.Start();
      SendNothing(usbIn, flat[w.Start()..read]);

      while blocksLeft > 0
        invariant blocksLeft <= totalBlocks && read == w.Start() + BLOCK_SIZE * (totalBlocks - blocksLeft)
        invariant Reading(w, old(chips), chips, page, pageByteDiv16, read) && (page == first || 0 < pageByteDiv16) && usbOut == old(usbOut)
        invariant Sending(old(usbIn), usbIn, flat[w.Start()..read])
        invariant 16 * chunks == read - w.Start() && taken <= chunks && (chunks == 0 || chunks < resetAfter)
        invariant taken <= hostTakes && |usbIn.sent| == |old(usbIn.sent)| + taken
      {
        var chunkInBlock := 0;
        while chunkInBlock < CHUNKS_PER_BLOCK
          invariant 0 <= chunkInBlock <= CHUNKS_PER_BLOCK
          invariant read == w.Start() + BLOCK_SIZE * (totalBlocks - blocksLeft) + 16 * chunkInBlock
          invariant Reading(w, old(chips), chips, page, pageByteDiv16, read) && (page == first || 0 < pageByteDiv16) && usbOut == old(usbOut)
          invariant Sending(old(usbIn), usbIn, flat[w.Start()..read])
          invariant 16 * chunks == read - w.Start() && taken <= chunks && (chunks == 0 || chunks < resetAfter)
          invariant taken <= hostTakes && |usbIn.sent| == |old(usbIn.sent)| + taken
        {
          var ready;
          ready, taken := MakeRoom(taken, hostTakes, old(usbIn), flat[w.Start()..read]);
          if !ready {
            ReadSoFar(w, old(chips), chips, page, pageByteDiv16, read, old(usbIn), usbIn, flat[w.Start()..read]);
            return false, read;
          }
          if pageByteDiv16 == pageSize / 16 {
            page := TurnReadPage(page, w, old(chips), read);
            pageByteDiv16 := 0;
          }
          MoveChunk(page, w, old(chips), pageByteDiv16, read, old(usbIn), flat);
          read := read + 16;
          pageByteDiv16 := pageByteDiv16 + 1;
          chunkInBlock := chunkInBlock + 1;
          chunks := chunks + 1;
          if resetAfter <= chunks {
            ReadSoFar(w, old(chips), chips, page, pageByteDiv16, read, old(usbIn), usbIn, flat[w.Start()..read]);
            return false, read;
          }
        }
        blocksLeft := blocksLeft - 1;
      }

      if !usbIn.ReadWriteAllowed() {
        SendFull(old(usbIn), usbIn, flat[w.Start()..read]);
        usbIn := usbIn.Clear();
      }
      ReadSoFar(w, old(chips), chips, page, pageByteDiv16, read, old(usbIn), usbIn, flat[w.Start()..read]);
      chips := chips.DeselectChip();
      return true, read;
    }
  }

  /** What the read loop keeps about the chips. */
  ghost predicate Reading(w: Request, before: Chips, c: Chips, page: nat, pageByteDiv16: nat, read: nat) {
    && w.Fits() && c.Valid() && c.g == before.g == w.g && c.memory == before.memory && c.busy == before.busy
    && w.FirstPage() <= page <= w.LastPage() && (c.clean <==> IdleUpTo(w, before, page))
    && page < |c.memory| && c.readPage == page && c.offset == 16 * pageByteDiv16 <= w.g.pageSize
    && page * w.g.pageSize + c.offset == read && read <= w.End()
  }

  lemma ChunkKeepsReading(w: Request, before: Chips, c: Chips, page: nat, pageByteDiv16: nat, read: nat)
    requires Reading(w, before, c, page, pageByteDiv16, read) && pageByteDiv16 != w.g.pageSize / 16 && read + 16 <= w.End()
    ensures c.readPage == page < |c.memory| && c.offset + 16 <= |c.memory[page]|
    ensures Reading(w, before, c.(offset := c.offset + 16), page, pageByteDiv16 + 1, read + 16)
  {
    hide w.FirstPage, w.LastPage, IdleUpTo;
  }

  lemma ReadOpens(w: Request, c: Chips)
    requires w.Fits() && c.Valid() && c.g == w.g
    ensures c.SelectChipFromPage(w.FirstPage()).CanUse(0, w.FirstPage())
    ensures var offset := w.Start() % w.g.pageSize;
      Reading(w, c, c.SelectChipFromPage(w.FirstPage()).MainMemPageRead(w.FirstPage(), offset), w.FirstPage(), offset / 16, w.Start())
  {
    LastPageFits(w);
    StartAligned(w);
    FirstCanUse(w, c);
    ReadTracked(w, c, c, w.FirstPage(), w.Start() % w.g.pageSize);
    assert w.FirstPage() * w.g.pageSize + w.Start() % w.g.pageSize == w.Start();
    hide IdleUpTo, IdleAt;
  }

  /** What it keeps about the IN endpoint: `data` has been written since `before`, in full packets. */
  ghost predicate Sending(before: InPipe, now: InPipe, data: seq<byte>) {
    && now.Valid() && now.size == before.size && now.size % 16 == 0 && |now.bank| % 16 == 0
    && now.Stream() == before.Stream() + data && before.sent <= now.sent
    && forall i :: |before.sent| <= i < |now.sent| ==> |now.sent[i]| == now.size
  }

  lemma SendNothing(before: InPipe, none: seq<byte>)
    requires before.Valid() && before.size % 16 == 0 && |before.bank| % 16 == 0 && none == []
    ensures Sending(before, before, none)
  {
    assert before.Stream() + none == before.Stream();
  }

  lemma ReadSoFar(w: Request, start: Chips, c: Chips, page: nat, pageByteDiv16: nat, read: nat, before: InPipe, now: InPipe, data: seq<byte>)
    requires Reading(w, start, c, page, pageByteDiv16, read) && Sending(before, now, data)
    ensures c.g == w.g && c.memory == start.memory && c.busy == start.busy && (IdleFor(w, start) ==> c.clean)
    ensures read == w.End() && (page == w.FirstPage() || 0 < pageByteDiv16) ==> (c.clean <==> IdleFor(w, start))
    ensures now.Valid() && now.Stream() == before.Stream() + data
    ensures before.sent <= now.sent && now.size == before.size
    ensures forall i :: |before.sent| <= i < |now.sent| ==> |now.sent[i]| == now.size
  {
    if read == w.End() && (page == w.FirstPage() || 0 < pageByteDiv16) {
      AtLastPage(w, page, read);
    }
    hide w.LastPage, w.FirstPage, IdleAt;
  }

  lemma SendFull(before: InPipe, now: InPipe, data: seq<byte>)
    requires Sending(before, now, data) && !now.ReadWriteAllowed()
    ensures Sending(before, now.Clear(), data) && now.Clear().ReadWriteAllowed()
  {
    ConcatAppend(now.sent, now.bank);
  }

  lemma SendMore(before: InPipe, now: InPipe, flat: seq<byte>, start: nat, read: nat)
    requires start <= read && read + 16 <= |flat| && Sending(before, now, flat[start..read]) && now.ReadWriteAllowed()
    ensures |now.bank| + 16 <= now.size
    ensures Sending(before, now.(bank := now.bank + flat[read..read + 16]), flat[start..read + 16])
  {
    assert flat[start..read] + flat[read..read + 16] == flat[start..read + 16];
    var data, piece := flat[start..read], flat[read..read + 16];
    var more := now.(bank := now.bank + piece);
    assert more.Stream() == now.Stream() + piece == before.Stream() + (data + piece);
  }

  lemma ReadNextPage(w: Request, page: nat, read: nat)
    requires w.Fits() && w.FirstPage() <= page && read == page * w.g.pageSize + w.g.pageSize && read < w.End()
    ensures page + 1 <= w.LastPage() < w.g.TotalPages() && (page + 1) * w.g.pageSize == read
  {
    NextPageInRange(w, page, read);
  }

  /** The flat view of a finished write. */
  lemma WriteIsSplice(w: Request, before: Chips, after: Chips, stale: iset<byte>)
    requires w.Fits() && before.Valid() && before.g == w.g && w.blocks * BLOCK_SIZE <= |w.data|
    requires w.PagesWritten(w.LastPage() + 1, before.memory, after.memory, stale)
    ensures w.End() <= |Flat(before.memory)|
    ensures Safe(w) ==> Flat(after.memory) == Splice(Flat(before.memory), w.Start(), w.data[..w.blocks * BLOCK_SIZE])
  {
    FlatLength(before.memory, w.g.pageSize);
    if Safe(w) {
      ExactWrite(w, before.memory, after.memory, stale);
    }
  }
}
