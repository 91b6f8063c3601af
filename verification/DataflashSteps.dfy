/**
 * One write request on the dataflash medium: which pages it touches, what each byte of them may become,
 * and what every step of the write loop keeps.
 */
module DataflashSteps {
  import opened Arith
  import opened Bytes
  import opened Dataflash
  import opened DataflashPackets
  import opened Endpoint

  const BLOCK_SIZE := 512
  const CHUNKS_PER_BLOCK := 32

  /** One write request: a range of OS blocks and the stream that is offered for it. */
  datatype Request = Request(g: Geometry, addr: nat, blocks: nat, data: seq<byte>) {
    function Start(): nat {
      addr * BLOCK_SIZE
    }

    function End(): nat {
      Start() + blocks * BLOCK_SIZE
    }

    function FirstPage(): nat
      requires 0 < g.pageSize
    {
      Start() / g.pageSize
    }

    function LastPage(): nat
      requires 0 < g.pageSize
    {
      if blocks == 0 then FirstPage() else (End() - 1) / g.pageSize
    }

    /** Does the page stream into the second buffer of its chip? The buffers switch after each last chip. */
    predicate SecondAt(page: nat)
      requires 0 < g.pageSize && 0 < g.totalChips
    {
      (page / g.totalChips - FirstPage() / g.totalChips) % 2 == 1
    }

    /** A 16-bit block count, and a range that starts and ends inside the medium. */
    ghost predicate Fits() {
      && g.Valid() && blocks <= 0xFFFF
      && Start() < g.TotalPages() * g.pageSize && End() <= g.TotalPages() * g.pageSize
    }

    /** The test at a page boundary, on the blocks not yet finished, in 16-bit unsigned arithmetic. */
    predicate LessThanOnePageLeft(blocksLeft: nat) {
      (blocksLeft * CHUNKS_PER_BLOCK) % 0x1_0000 < g.pageSize / 16
    }

    /** Is page q copied into the buffer before data is streamed over it? */
    predicate Preloaded(q: nat)
      requires 0 < g.pageSize
    {
      g.pageSize > BLOCK_SIZE
      && (q == FirstPage()
          || (q * g.pageSize >= Start()
              && (q * g.pageSize - Start()) / BLOCK_SIZE <= blocks
              && LessThanOnePageLeft(blocks - (q * g.pageSize - Start()) / BLOCK_SIZE)))
    }

    /**
     * What byte o of page q may be once the stream has been written up to position `limit`: streamed data
     * inside the range, else the old byte of a preloaded page, else whatever the buffer held.
     */
    ghost predicate ByteWritten(q: nat, o: nat, limit: nat, before: byte, after: byte, stale: iset<byte>)
      requires 0 < g.pageSize
    {
      var pos := q * g.pageSize + o;
      if Start() <= pos < limit then pos - Start() < |data| && after == data[pos - Start()]
      else if Preloaded(q) then after == before
      else after in stale
    }

    ghost predicate PageWritten(q: nat, limit: nat, before: Page, after: Page, stale: iset<byte>)
      requires 0 < g.pageSize
    {
      |before| == |after| == g.pageSize
      && forall o :: 0 <= o < g.pageSize ==> ByteWritten(q, o, limit, before[o], after[o], stale)
    }

    /** Pages FirstPage up to `frontier` are written, all other pages are as before. */
    ghost predicate PagesWritten(frontier: nat, before: seq<Page>, after: seq<Page>, stale: iset<byte>)
      requires 0 < g.pageSize
    {
      |before| == |after|
      && forall q :: 0 <= q < |before| ==>
        if FirstPage() <= q < frontier then PageWritten(q, End(), before[q], after[q], stale)
        else after[q] == before[q]
    }

    /** Every byte that can end up in a buffer without belonging to the page in hand. */
    ghost predicate CoversStale(c: Chips, stale: iset<byte>)
      requires 0 < g.pageSize
    {
      && (forall i :: 0 <= i < |c.buffers| ==> Within(c.buffers[i], stale))
      && Within(data, stale)
      && forall q :: 0 <= q < |c.memory| && FirstPage() <= q <= LastPage() && Preloaded(q) ==> Within(c.memory[q], stale)
    }
  }

  ghost predicate Within(s: seq<byte>, values: iset<byte>) {
    forall i :: 0 <= i < |s| ==> s[i] in values
  }

  function Buffer(second: bool): nat {
    if second then 1 else 0
  }

  /** The buffer in use on chip c while page streams into `Buffer(second)` of its own chip: chips before the
      page's chip have moved on to the other buffer. */
  function NextBuffer(c: nat, chip: nat, second: bool): nat {
    if c >= chip then Buffer(second) else 1 - Buffer(second)
  }

  /** How many pages before one on `chip` the chip `i` of n was last in turn. */
  function PagesBack(i: nat, chip: nat, n: nat): nat
    requires i < n
  {
    if i < chip then chip - i else chip + n - i
  }

  /** What chip i was last told to do when `page` is opened: program the last page it was given, if it was given one. */
  function LeftOn(w: Request, before: Chips, i: nat, page: nat): Busy
    requires 0 < w.g.pageSize && 0 < w.g.totalChips && i < w.g.totalChips && i < |before.busy|
  {
    var chip := page % w.g.totalChips;
    if page < w.FirstPage() + PagesBack(i, chip, w.g.totalChips) then before.busy[i]
    else Using(1 - NextBuffer(i, chip, w.SecondAt(page)))
  }

  /** What the other chips are doing while `page` is in hand. */
  ghost predicate LeftBusy(w: Request, before: Chips, c: Chips, page: nat)
    requires 0 < w.g.pageSize && 0 < w.g.totalChips
  {
    && |c.busy| == |before.busy| == w.g.totalChips
    && forall i :: 0 <= i < |c.busy| && i != page % w.g.totalChips ==> c.busy[i] == LeftOn(w, before, i, page)
  }

  /** And the page's own chip: a preload has waited for it. */
  ghost predicate OwnBusy(w: Request, before: Chips, c: Chips, page: nat)
    requires 0 < w.g.pageSize && 0 < w.g.totalChips
  {
    var chip := page % w.g.totalChips;
    && |c.busy| == |before.busy| == w.g.totalChips
    && c.busy[chip] == if w.Preloaded(page) then Idle else LeftOn(w, before, chip, page)
  }

  /**
   * Does page q, the first of the write on its chip, meet an operation from before the write? A preload of the very
   * first page does not wait, the later ones do; without one, data goes into a buffer the chip may still program from.
   */
  ghost predicate Clash(w: Request, before: Chips, q: nat)
    requires 0 < w.g.pageSize && 0 < w.g.totalChips
  {
    var chip := q % w.g.totalChips;
    && q < w.FirstPage() + w.g.totalChips && chip < |before.busy|
    && if w.Preloaded(q) then q == w.FirstPage() && before.busy[chip] != Idle
       else 0 < w.blocks && before.busy[chip] == Using(Buffer(w.SecondAt(q)))
  }

  /** The medium is clean at the start, and the pages before `end` meet nothing. */
  ghost predicate CleanUpTo(w: Request, before: Chips, end: nat)
    requires 0 < w.g.pageSize && 0 < w.g.totalChips
  {
    before.clean && forall q :: w.FirstPage() <= q < end ==> !Clash(w, before, q)
  }

  /** And the page in hand, once it has been preloaded or a byte has gone into its buffer. */
  ghost predicate CleanSoFar(w: Request, before: Chips, page: nat, cur: nat)
    requires 0 < w.g.pageSize && 0 < w.g.totalChips
  {
    && CleanUpTo(w, before, page)
    && (Clash(w, before, page) ==> !w.Preloaded(page) && (cur == w.Start() || cur == page * w.g.pageSize))
  }

  /** What a write wants of the chips: none of its pages meets an operation from before. */
  ghost predicate ReadyToWrite(w: Request, c: Chips)
    requires 0 < w.g.pageSize && 0 < w.g.totalChips
  {
    CleanUpTo(w, c, w.LastPage() + 1)
  }

  /** The chips' side of the write, exactly: what each one is doing, and whether anything was asked of a busy one. */
  ghost predicate Tracked(w: Request, before: Chips, c: Chips, page: nat, second: bool, cur: nat)
    requires 0 < w.g.pageSize && 0 < w.g.totalChips
  {
    && second == w.SecondAt(page) && LeftBusy(w, before, c, page) && OwnBusy(w, before, c, page)
    && (c.clean <==> CleanSoFar(w, before, page, cur))
  }

  /** The state between two chunks: pages below `page` committed, the current one in its buffer up to `cur`. */
  ghost predicate Streaming(w: Request, before: Chips, c: Chips, page: nat, second: bool, cur: nat, stale: iset<byte>) {
    && w.Fits() && before.Valid() && c.Valid() && before.g == c.g == w.g
    && w.FirstPage() <= page <= w.LastPage() && page < |c.memory|
    && c.selected == page % w.g.totalChips && c.selected < w.g.totalChips
    && c.streaming == Buffer(second)
    && page * w.g.pageSize + c.offset == cur && c.offset <= w.g.pageSize
    && w.Start() <= cur <= w.End() && cur - w.Start() <= |w.data|
    && w.PagesWritten(page, before.memory, c.memory, stale)
    && w.PageWritten(page, cur, before.memory[page], c.buffers[2 * c.selected + c.streaming], stale)
    && (forall i :: 0 <= i < |c.buffers| ==> Within(c.buffers[i], stale))
    && w.CoversStale(before, stale)
    && Tracked(w, before, c, page, second, cur)
  }

  // ---------------------------------------------------------------- steps of the write loop

  lemma AddressedSelf(c: Chips, page: nat)
    requires 0 < c.g.totalChips && c.selected == page % c.g.totalChips
    ensures c.Addressed(page) == page
  {
  }

  lemma LastPageFits(w: Request)
    requires w.Fits()
    ensures w.FirstPage() <= w.LastPage() < w.g.TotalPages()
    ensures w.FirstPage() * w.g.pageSize <= w.Start() < w.FirstPage() * w.g.pageSize + w.g.pageSize
  {
    DivBound(w.Start(), w.g.pageSize, w.g.TotalPages());
    if w.blocks > 0 {
      DivBound(w.End() - 1, w.g.pageSize, w.g.TotalPages());
      if w.LastPage() < w.FirstPage() {
        MulMono(w.LastPage() + 1, w.FirstPage(), w.g.pageSize);
        MulStep(w.LastPage(), w.g.pageSize);
      }
    }
  }

  function OpenPage(c: Chips, page: nat, pageByte: nat): Chips
    requires 0 < c.g.totalChips
    requires c.SelectChipFromPage(page).CanUse(0, page)
  {
    var c1 := c.SelectChipFromPage(page);
    var c2 := if c.g.pageSize > BLOCK_SIZE then c1.MainMemToBuffer(0, page).WaitWhileBusy() else c1;
    c2.BufferWrite(0, pageByte)
  }

  lemma OpenStep(w: Request, before: Chips, stale: iset<byte>)
    requires w.Fits() && before.Valid() && before.g == w.g
    requires w.CoversStale(before, stale)
    ensures before.SelectChipFromPage(w.FirstPage()).CanUse(0, w.FirstPage())
    ensures Streaming(w, before, OpenPage(before, w.FirstPage(), w.Start() % w.g.pageSize), w.FirstPage(), false, w.Start(), stale)
  {
    LastPageFits(w);
    FirstCanUse(w, before);
    OpenBusy(w, before);
    OpenBytes(w, before, stale);
    assert w.FirstPage() * w.g.pageSize + w.Start() % w.g.pageSize == w.Start();
    hide w.FirstPage, w.LastPage, w.SecondAt, w.CoversStale, w.PageWritten, w.ByteWritten, Tracked, Within;
  }

  lemma FirstCanUse(w: Request, before: Chips)
    requires w.Fits() && before.Valid() && before.g == w.g
    ensures w.FirstPage() < |before.memory| && w.FirstPage() % w.g.totalChips < w.g.totalChips
    ensures var c := before.SelectChipFromPage(w.FirstPage());
      c.CanUse(0, w.FirstPage()) && c.selected == w.FirstPage() % w.g.totalChips && c.Addressed(w.FirstPage()) == w.FirstPage()
  {
    LastPageFits(w);
    AddressedSelf(before.SelectChipFromPage(w.FirstPage()), w.FirstPage());
  }

  lemma OpenBusy(w: Request, before: Chips)
    requires w.Fits() && before.Valid() && before.g == w.g
    requires before.SelectChipFromPage(w.FirstPage()).CanUse(0, w.FirstPage())
    ensures Tracked(w, before, OpenPage(before, w.FirstPage(), w.Start() % w.g.pageSize), w.FirstPage(), false, w.Start())
  {
    FirstCanUse(w, before);
    SecondStep(w, w.FirstPage());
    assert w.Preloaded(w.FirstPage()) <==> w.g.pageSize > BLOCK_SIZE;
    hide w.FirstPage, w.SecondAt, w.Preloaded;
  }

  lemma OpenBytes(w: Request, before: Chips, stale: iset<byte>)
    requires w.Fits() && before.Valid() && before.g == w.g && w.CoversStale(before, stale)
    requires before.SelectChipFromPage(w.FirstPage()).CanUse(0, w.FirstPage())
    ensures var c := OpenPage(before, w.FirstPage(), w.Start() % w.g.pageSize);
      && c.Valid() && c.memory == before.memory && c.selected < w.g.totalChips && w.FirstPage() < |before.memory|
      && w.PageWritten(w.FirstPage(), w.Start(), before.memory[w.FirstPage()], c.buffers[2 * c.selected], stale)
      && forall i :: 0 <= i < |c.buffers| ==> Within(c.buffers[i], stale)
  {
    FirstCanUse(w, before);
    LastPageFits(w);
    var page := w.FirstPage();
    var c := OpenPage(before, page, w.Start() % w.g.pageSize);
    assert c.buffers == if w.g.pageSize > BLOCK_SIZE then before.buffers[2 * c.selected := before.memory[page]] else before.buffers;
    assert w.Preloaded(page) ==> Within(before.memory[page], stale);
    hide w.FirstPage, w.LastPage;
    var buf := c.buffers[2 * c.selected];
    forall o | 0 <= o < w.g.pageSize
      ensures w.ByteWritten(page, o, w.Start(), before.memory[page][o], buf[o], stale)
    {
    }
  }

  /** A run of data bytes moves `cur` on. */
  lemma SendStep(w: Request, before: Chips, c: Chips, page: nat, second: bool, cur: nat, stale: iset<byte>, sent: seq<byte>)
    requires Streaming(w, before, c, page, second, cur, stale)
    requires 0 < |sent| && c.offset + |sent| <= w.g.pageSize && cur + |sent| <= w.End()
    requires cur + |sent| - w.Start() <= |w.data| && sent == w.data[cur - w.Start()..cur + |sent| - w.Start()]
    ensures c.CanStream(|sent|)
    ensures Streaming(w, before, c.SendBytes(sent), page, second, cur + |sent|, stale)
  {
    var i := 2 * c.selected + c.streaming;
    var n := c.SendBytes(sent);
    forall o | 0 <= o < w.g.pageSize
      ensures w.ByteWritten(page, o, cur + |sent|, before.memory[page][o], n.buffers[i][o], stale) && n.buffers[i][o] in stale
    {
      SentAt(c, sent, o);
      ByteSent(w, before, c, page, second, cur, stale, sent, o);
    }
    SendTracked(w, before, c, page, second, cur, sent);
    SendKeeps(w, before, c, page, second, cur, stale, sent);
  }

  /** Data in a buffer is asked too much of a chip exactly when the page clashes. */
  lemma SendTracked(w: Request, before: Chips, c: Chips, page: nat, second: bool, cur: nat, sent: seq<byte>)
    requires w.g.Valid() && c.CanStream(|sent|) && |c.busy| == |before.busy| == w.g.totalChips && w.FirstPage() <= page
    requires c.selected == page % w.g.totalChips && c.streaming == Buffer(second)
    requires w.Start() <= cur && page * w.g.pageSize <= cur && sent != [] && cur + |sent| <= w.End()
    requires Tracked(w, before, c, page, second, cur)
    ensures Tracked(w, before, c.SendBytes(sent), page, second, cur + |sent|)
  {
    var chip := page % w.g.totalChips;
    assert w.Preloaded(page) ==> c.busy[chip] == Idle && (Clash(w, before, page) ==> page == w.FirstPage());
    hide w.FirstPage, w.SecondAt, w.Preloaded, CleanUpTo;
  }

  /** One byte of the buffer after the run. */
  lemma ByteSent(w: Request, before: Chips, c: Chips, page: nat, second: bool, cur: nat, stale: iset<byte>, sent: seq<byte>, o: nat)
    requires Streaming(w, before, c, page, second, cur, stale) && o < w.g.pageSize
    requires 0 < |sent| && c.offset + |sent| <= w.g.pageSize && cur + |sent| <= w.End()
    requires cur + |sent| - w.Start() <= |w.data| && sent == w.data[cur - w.Start()..cur + |sent| - w.Start()]
    ensures var held := c.buffers[2 * c.selected + c.streaming][o];
      var now := if c.offset <= o < c.offset + |sent| then sent[o - c.offset] else held;
      w.ByteWritten(page, o, cur + |sent|, before.memory[page][o], now, stale) && now in stale
  {
    var held := c.buffers[2 * c.selected + c.streaming][o];
    assert w.ByteWritten(page, o, cur, before.memory[page][o], held, stale);
    if c.offset <= o < c.offset + |sent| {
      assert sent[o - c.offset] == w.data[cur - w.Start() + o - c.offset];
    }
  }

  /** The rest of the state after the run. */
  lemma SendKeeps(w: Request, before: Chips, c: Chips, page: nat, second: bool, cur: nat, stale: iset<byte>, sent: seq<byte>)
    requires Streaming(w, before, c, page, second, cur, stale)
    requires 0 < |sent| && c.offset + |sent| <= w.g.pageSize && cur + |sent| <= w.End() && cur + |sent| - w.Start() <= |w.data|
    requires c.CanStream(|sent|) && Tracked(w, before, c.SendBytes(sent), page, second, cur + |sent|)
    requires var buf := c.SendBytes(sent).buffers[2 * c.selected + c.streaming];
      |buf| == w.g.pageSize && forall o :: 0 <= o < w.g.pageSize ==>
        w.ByteWritten(page, o, cur + |sent|, before.memory[page][o], buf[o], stale) && buf[o] in stale
    ensures Streaming(w, before, c.SendBytes(sent), page, second, cur + |sent|, stale)
  {
    hide Tracked;
  }

  function Commit(c: Chips, page: nat, second: bool): Chips
    requires c.selected < |c.busy| && c.CanUse(Buffer(second), page)
  {
    c.WaitWhileBusy().BufferToMainMem(Buffer(second), page)
  }

  /** A page whose remaining positions all lie outside the range is final. */
  lemma CommitStep(w: Request, before: Chips, c: Chips, page: nat, second: bool, cur: nat, stale: iset<byte>)
    requires Streaming(w, before, c, page, second, cur, stale)
    requires (cur == w.End() && (page == w.FirstPage() || 0 < c.offset)) || c.offset == w.g.pageSize
    ensures c.CanUse(Buffer(second), page)
    ensures var n := Commit(c, page, second);
      && n.Valid() && (n.clean <==> CleanUpTo(w, before, page + 1)) && w.PagesWritten(page + 1, before.memory, n.memory, stale)
      && n.memory[page + 1..] == before.memory[page + 1..]
      && n.buffers == c.buffers && n.selected == c.selected
      && n.busy == c.busy[c.selected := Using(Buffer(second))]
  {
    AddressedSelf(c, page);
    CommitTracked(w, before, c, page, second, cur);
    hide Tracked, CleanUpTo;
    var n := Commit(c, page, second);
    var buf := c.buffers[2 * c.selected + c.streaming];
    assert n.memory == c.memory[page := buf];
    forall o | 0 <= o < w.g.pageSize
      ensures w.ByteWritten(page, o, w.End(), before.memory[page][o], buf[o], stale)
    {
      assert w.ByteWritten(page, o, cur, before.memory[page][o], buf[o], stale);
    }
    assert c.busy[c.selected := Idle][c.selected := Using(Buffer(second))] == c.busy[c.selected := Using(Buffer(second))];
    forall q | 0 <= q < |n.memory|
      ensures if w.FirstPage() <= q < page + 1 then w.PageWritten(q, w.End(), before.memory[q], n.memory[q], stale)
              else n.memory[q] == before.memory[q]
    {
    }
  }

  /** A finished page has a byte in its buffer, unless the request is empty. */
  lemma CommitTracked(w: Request, before: Chips, c: Chips, page: nat, second: bool, cur: nat)
    requires w.Fits() && w.FirstPage() <= page <= w.LastPage() && Tracked(w, before, c, page, second, cur)
    requires page * w.g.pageSize + c.offset == cur && w.Start() <= cur <= w.End()
    requires (cur == w.End() && (page == w.FirstPage() || 0 < c.offset)) || c.offset == w.g.pageSize
    ensures c.clean <==> CleanUpTo(w, before, page + 1)
  {
    LastPageFits(w);
    if w.FirstPage() < page {
      MulMono(w.FirstPage() + 1, page, w.g.pageSize);
      MulStep(w.FirstPage(), w.g.pageSize);
    }
    assert 0 < w.blocks ==> w.Start() < cur;
    hide w.FirstPage, w.LastPage, w.SecondAt, LeftBusy, OwnBusy;
  }

  function SwitchBuffer(c: Chips, second: bool): bool {
    if c.selected + 1 == c.g.totalChips then !second else second
  }

  lemma NextChip(page: nat, chips: nat)
    requires 0 < chips
    ensures (page + 1) % chips == if page % chips + 1 == chips then 0 else page % chips + 1
    ensures (page + 1) / chips == if page % chips + 1 == chips then page / chips + 1 else page / chips
  {
    MulStep(page / chips, chips);
    var q := page / chips;
    if page % chips + 1 == chips {
      DivUnique(page + 1, chips, q + 1, 0);
    } else {
      DivUnique(page + 1, chips, q, page % chips + 1);
    }
  }

  /** The buffers switch when the next page is on the first chip again. */
  lemma SecondStep(w: Request, page: nat)
    requires 0 < w.g.pageSize && 0 < w.g.totalChips
    ensures w.SecondAt(page + 1) == if page % w.g.totalChips + 1 == w.g.totalChips then !w.SecondAt(page) else w.SecondAt(page)
    ensures !w.SecondAt(w.FirstPage())
  {
    NextChip(page, w.g.totalChips);
  }

  /** What happens after a commit inside the loop: move to the next page, preloading it if asked to. */
  function NextPage(c: Chips, page: nat, second: bool, preload: bool): Chips
    requires 0 < c.g.totalChips
    requires c.SelectChipFromPage(page).CanUse(Buffer(second), page)
  {
    var c1 := c.SelectChipFromPage(page);
    var c2 := if preload then c1.WaitWhileBusy().MainMemToBuffer(Buffer(second), page).WaitWhileBusy() else c1;
    c2.BufferWrite(Buffer(second), 0)
  }

  /** Which pages the loop preloads: TotalBlocks still counts the block in progress. */
  lemma PreloadTest(w: Request, page: nat, blocksLeft: nat, chunk: nat)
    requires w.Fits() && w.FirstPage() < page && blocksLeft <= w.blocks && chunk < CHUNKS_PER_BLOCK
    requires page * w.g.pageSize == w.Start() + BLOCK_SIZE * (w.blocks - blocksLeft) + 16 * chunk
    ensures w.Preloaded(page) <==> w.g.pageSize > BLOCK_SIZE && w.LessThanOnePageLeft(blocksLeft)
  {
    var done := page * w.g.pageSize - w.Start();
    assert done / BLOCK_SIZE == w.blocks - blocksLeft;
  }

  lemma NextPageInRange(w: Request, page: nat, cur: nat)
    requires w.Fits() && w.FirstPage() <= page && cur == page * w.g.pageSize + w.g.pageSize && cur < w.End()
    ensures page + 1 <= w.LastPage() < w.g.TotalPages() && (page + 1) * w.g.pageSize == cur
  {
    LastPageFits(w);
    MulStep(page, w.g.pageSize);
    if w.LastPage() < page + 1 {
      DivBound(w.End() - 1, w.g.pageSize, w.g.TotalPages());
      MulMono(w.LastPage() + 1, page + 1, w.g.pageSize);
      MulStep(w.LastPage(), w.g.pageSize);
    }
  }

  /** Opening the page after a commit, for a page whose earlier positions are all final. */
  lemma NextPageStep(w: Request, before: Chips, n: Chips, page: nat, second: bool, cur: nat, stale: iset<byte>, preload: bool)
    requires w.Fits() && before.Valid() && n.Valid() && before.g == n.g == w.g
    requires w.FirstPage() < page <= w.LastPage() < w.g.TotalPages() && n.memory[page] == before.memory[page]
    requires page * w.g.pageSize == cur && w.Start() <= cur <= w.End() && cur - w.Start() <= |w.data|
    requires w.PagesWritten(page, before.memory, n.memory, stale) && w.CoversStale(before, stale)
    requires forall i :: 0 <= i < |n.buffers| ==> Within(n.buffers[i], stale)
    requires second == w.SecondAt(page) && AllLeft(w, before, n, page) && (n.clean <==> CleanUpTo(w, before, page))
    requires preload <==> w.Preloaded(page)
    ensures n.SelectChipFromPage(page).CanUse(Buffer(second), page)
    ensures Streaming(w, before, NextPage(n, page, second, preload), page, second, cur, stale)
  {
    AddressedSelf(n.SelectChipFromPage(page), page);
    NextTracked(w, before, n, page, second, cur, preload);
    hide Tracked, AllLeft, CleanUpTo, w.SecondAt;
    var f := NextPage(n, page, second, preload);
    assert f.memory == n.memory;
    var buf := f.buffers[2 * f.selected + f.streaming];
    assert preload ==> buf == before.memory[page];
    forall o | 0 <= o < w.g.pageSize
      ensures w.ByteWritten(page, o, cur, before.memory[page][o], buf[o], stale)
    {
    }
  }

  /** The turn of a page: commit, switch buffers after the last chip, open the next page. */
  lemma TurnStep(w: Request, before: Chips, c: Chips, page: nat, second: bool, cur: nat, stale: iset<byte>, preload: bool)
    requires Streaming(w, before, c, page, second, cur, stale)
    requires c.offset == w.g.pageSize && cur < w.End()
    requires preload <==> w.Preloaded(page + 1)
    ensures c.CanUse(Buffer(second), page)
    ensures var n := Commit(c, page, second);
      var second' := SwitchBuffer(n, second);
      && 0 < n.g.totalChips && n.SelectChipFromPage(page + 1).CanUse(Buffer(second'), page + 1)
      && Streaming(w, before, NextPage(n, page + 1, second', preload), page + 1, second', cur, stale)
  {
    CommitStep(w, before, c, page, second, cur, stale);
    NextPageInRange(w, page, cur);
    NextChip(page, w.g.totalChips);
    var n := Commit(c, page, second);
    SecondStep(w, page);
    TurnBusy(w, before, c, n, page);
    assert n.memory[page + 1] == n.memory[page + 1..][0] == before.memory[page + 1];
    NextPageStep(w, before, n, page + 1, SwitchBuffer(n, second), cur, stale, preload);
  }

  /** What all chips are doing between a commit and the opening of `page`. */
  ghost predicate AllLeft(w: Request, before: Chips, n: Chips, page: nat)
    requires 0 < w.g.pageSize && 0 < w.g.totalChips
  {
    && |n.busy| == |before.busy| == w.g.totalChips
    && forall i :: 0 <= i < |n.busy| ==> n.busy[i] == LeftOn(w, before, i, page)
  }

  lemma NextTracked(w: Request, before: Chips, n: Chips, page: nat, second: bool, cur: nat, preload: bool)
    requires w.Fits() && n.g == w.g && w.FirstPage() < page && cur == page * w.g.pageSize
    requires n.SelectChipFromPage(page).CanUse(Buffer(second), page) && page < w.g.TotalPages()
    requires second == w.SecondAt(page) && AllLeft(w, before, n, page) && (n.clean <==> CleanUpTo(w, before, page))
    requires preload <==> w.Preloaded(page)
    ensures Tracked(w, before, NextPage(n, page, second, preload), page, second, cur)
  {
    hide w.FirstPage, w.SecondAt, w.Preloaded, CleanUpTo, LeftOn;
  }

  /** The chip of the page just committed programs it; the others are one page further back. */
  lemma TurnBusy(w: Request, before: Chips, c: Chips, n: Chips, page: nat)
    requires 0 < w.g.pageSize && 0 < w.g.totalChips && w.FirstPage() <= page
    requires LeftBusy(w, before, c, page)
    requires n.busy == c.busy[page % w.g.totalChips := Using(Buffer(w.SecondAt(page)))]
    ensures AllLeft(w, before, n, page + 1)
  {
    NextChip(page, w.g.totalChips);
    SecondStep(w, page);
    hide w.SecondAt, w.FirstPage;
  }

  /** The last page of the range is the one in hand when the whole range has been streamed. */
  lemma AtLastPage(w: Request, page: nat, cur: nat)
    requires w.Fits() && w.FirstPage() <= page <= w.LastPage()
    requires page * w.g.pageSize <= cur <= page * w.g.pageSize + w.g.pageSize && cur == w.End()
    requires page == w.FirstPage() || page * w.g.pageSize < cur
    ensures page == w.LastPage()
  {
    if w.blocks > 0 {
      LastPageFits(w);
      DivUnique(w.End() - 1, w.g.pageSize, page, w.End() - 1 - page * w.g.pageSize);
    }
  }

  ghost predicate AllIdle(c: Chips) {
    c.clean && forall i :: 0 <= i < |c.busy| ==> c.busy[i] == Idle
  }

  /** The chip a page is on has finished. */
  ghost predicate IdleAt(c: Chips, page: nat) {
    0 < c.g.totalChips && page % c.g.totalChips < |c.busy| && c.busy[page % c.g.totalChips] == Idle
  }

  /** The medium is clean at the start, and the chips of the pages up to `last` have finished. */
  ghost predicate IdleUpTo(w: Request, c: Chips, last: nat)
    requires 0 < w.g.pageSize
  {
    c.clean && forall q :: w.FirstPage() <= q <= last ==> IdleAt(c, q)
  }

  /** What a read wants of the chips: those it reads from have finished. */
  ghost predicate IdleFor(w: Request, c: Chips)
    requires 0 < w.g.pageSize
  {
    IdleUpTo(w, c, w.LastPage())
  }

  /** Reading the next page asks too much of a chip exactly when that has not finished. */
  lemma ReadTracked(w: Request, before: Chips, c: Chips, page: nat, start: nat)
    requires w.Fits() && c.Valid() && c.g == before.g == w.g && w.FirstPage() <= page <= w.LastPage() && c.busy == before.busy
    requires c.clean <==> before.clean && forall q :: w.FirstPage() <= q < page ==> IdleAt(before, q)
    ensures var chosen := c.SelectChipFromPage(page);
      page < |c.memory| && chosen.selected < |c.busy| && chosen.Addressed(page) == page
      && chosen.MainMemPageRead(page, start).Valid()
      && (chosen.MainMemPageRead(page, start).clean <==> IdleUpTo(w, before, page))
  {
    LastPageFits(w);
    var chosen := c.SelectChipFromPage(page);
    AddressedSelf(chosen, page);
    var now := chosen.MainMemPageRead(page, start);
    assert now.clean <==> c.clean && IdleAt(before, page);
    hide w.LastPage, w.FirstPage, IdleAt;
  }

  /** What the write loop keeps, before it looks at the endpoint. */
  ghost predicate InLoop(w: Request, before: Chips, c: Chips, p: OutPipe, page: nat, second: bool, pageByteDiv16: nat,
    cur: nat, stale: iset<byte>)
  {
    && AtChunk(w, before, c, page, second, pageByteDiv16, cur, stale)
    && NoPacketNoBytes(p) && Intake(p) == w.data[cur - w.Start()..]
  }

  /** And once it has: the next chunk is in the bank, as far as the packet goes. */
  ghost predicate InHand(w: Request, before: Chips, c: Chips, p: OutPipe, page: nat, second: bool, pageByteDiv16: nat,
    cur: nat, stale: iset<byte>)
  {
    && AtChunk(w, before, c, page, second, pageByteDiv16, cur, stale)
    && p.hasPacket && Front(p.bank, 16) + Intake(AfterBytes(p, 16)) == w.data[cur - w.Start()..]
  }

  ghost predicate AtChunk(w: Request, before: Chips, c: Chips, page: nat, second: bool, pageByteDiv16: nat, cur: nat, stale: iset<byte>) {
    && Streaming(w, before, c, page, second, cur, stale)
    && (page == w.FirstPage() || 0 < c.offset) && c.offset == 16 * pageByteDiv16
  }

  /** The look at the endpoint: a bank that is used up is given back, and the next packet is waited for. */
  lemma PacketStep(w: Request, before: Chips, c: Chips, p: OutPipe, page: nat, second: bool, pageByteDiv16: nat, cur: nat, stale: iset<byte>)
    requires InLoop(w, before, c, p, page, second, pageByteDiv16, cur, stale)
    ensures p.ReadWriteAllowed() ==> InHand(w, before, c, p, page, second, pageByteDiv16, cur, stale)
    ensures !p.ReadWriteAllowed() ==> InLoop(w, before, c, p.Clear(), page, second, pageByteDiv16, cur, stale)
    ensures !p.ReadWriteAllowed() && p.Clear().Available() ==>
      InHand(w, before, c, p.Clear().Await(), page, second, pageByteDiv16, cur, stale)
    ensures !p.ReadWriteAllowed() && !p.Clear().Available() ==> cur - w.Start() == |w.data|
  {
    IntakeStep(p);
    assert cur - w.Start() <= |w.data| by { assert Streaming(w, before, c, page, second, cur, stale); }
    hide Streaming, w.Start, Intake, Front, AfterBytes;
  }

  /** What a return from inside the loop leaves behind. */
  lemma InLoopMeans(w: Request, before: Chips, c: Chips, p: OutPipe, page: nat, second: bool, pageByteDiv16: nat,
      cur: nat, stale: iset<byte>)
    requires InLoop(w, before, c, p, page, second, pageByteDiv16, cur, stale)
    ensures w.Fits() && c.Valid() && c.g == before.g == w.g && w.FirstPage() <= page <= w.LastPage()
    ensures ReadyToWrite(w, before) ==> c.clean
    ensures w.PagesWritten(page, before.memory, c.memory, stale) && LeftBusy(w, before, c, page)
    ensures w.Start() <= cur && cur - w.Start() <= |w.data| && c.offset <= w.g.pageSize
    ensures NoPacketNoBytes(p) && Intake(p) == w.data[cur - w.Start()..]
  {
  }

  lemma StartAligned(w: Request)
    requires w.Fits()
    ensures (w.Start() % w.g.pageSize) % 16 == 0
  {
    ModKeepsFactor(16, 32 * w.addr, w.g.pageSize / 16);
  }

  /** Inside the loop there is room for one more chunk. */
  lemma BlockInRange(w: Request, blocksLeft: nat, chunk: nat)
    requires 0 < blocksLeft <= w.blocks && chunk < CHUNKS_PER_BLOCK
    ensures w.Start() + BLOCK_SIZE * (w.blocks - blocksLeft) + 16 * chunk + 16 <= w.End()
  {
  }

  /** Moving one chunk from the endpoint bank to the buffer keeps the loop going. */
  lemma ChunkStep(w: Request, before: Chips, c: Chips, p: OutPipe, page: nat, second: bool, pageByteDiv16: nat,
      cur: nat, stale: iset<byte>)
    requires Streaming(w, before, c, page, second, cur, stale) && cur + 16 <= w.End()
    requires c.offset == 16 * pageByteDiv16 && c.offset + 16 <= w.g.pageSize
    requires p.hasPacket && Front(p.bank, 16) + Intake(AfterBytes(p, 16)) == w.data[cur - w.Start()..]
    ensures c.CanStream(16)
    ensures InLoop(w, before, c.SendBytes(Front(p.bank, 16)), AfterBytes(p, 16), page, second, pageByteDiv16 + 1, cur + 16, stale)
  {
    var chunk, rest := Front(p.bank, 16), w.data[cur - w.Start()..];
    assert |rest| == |w.data| - (cur - w.Start()) && rest[..16] == chunk && rest[16..] == Intake(AfterBytes(p, 16));
    assert chunk == w.data[cur - w.Start()..cur + 16 - w.Start()];
    assert rest[16..] == w.data[cur + 16 - w.Start()..];
    hide Front, Intake;
    SendStep(w, before, c, page, second, cur, stale, chunk);
  }
}
