/**
 * The board's dataflash ICs and the driver calls that reach them. A chip has main memory pages and
 * two page-sized SRAM buffers; consecutive global pages go round-robin over the chips, so global page
 * `local * totalChips + chip` is local page `local` of `chip`.
 */
module Dataflash {
  import opened Arith
  import opened Bytes

  type Page = seq<byte>

  datatype Geometry = Geometry(pageSize: nat, totalChips: nat, pagesPerChip: nat) {
    /** The page size is a multiple of 16 whose chunk count fits a byte, page numbers fit 16 bits. */
    ghost predicate Valid() {
      && 16 <= pageSize && pageSize % 16 == 0 && pageSize / 16 <= 255
      && 1 <= totalChips && TotalPages() <= 0x1_0000
    }

    function TotalPages(): nat {
      totalChips * pagesPerChip
    }
  }

  /** What a chip may still be doing: nothing, or a timed operation that uses one of its buffers. */
  datatype Busy = Idle | Using(buffer: nat)

  datatype Chips = Chips(
    g: Geometry,
    memory: seq<Page>,    // by global page number
    buffers: seq<Page>,   // buffer b of chip c at 2 * c + b
    busy: seq<Busy>,      // by chip
    selected: nat,        // totalChips when no chip is selected
    streaming: nat,       // buffer of the selected chip that data bytes go to
    offset: nat,          // next byte of that buffer
    readPage: nat,        // global page a main memory read is at
    clean: bool)          // no timed operation started on a busy chip, no buffer touched while in use
  {
    ghost predicate Valid() {
      && g.Valid()
      && |memory| == g.TotalPages() && (forall q :: 0 <= q < |memory| ==> |memory[q]| == g.pageSize)
      && |buffers| == 2 * g.totalChips && (forall i :: 0 <= i < |buffers| ==> |buffers[i]| == g.pageSize)
      && |busy| == g.totalChips && selected <= g.totalChips
    }

    /** Dataflash_SelectChipFromPage. */
    function SelectChipFromPage(page: nat): Chips
      requires 0 < g.totalChips
    {
      this.(selected := if page >= g.TotalPages() then g.totalChips else page % g.totalChips)
    }

    function DeselectChip(): Chips {
      this.(selected := g.totalChips)
    }

    /** The global page that the address bytes of `page` name on the selected chip. */
    function Addressed(page: nat): nat
      requires 0 < g.totalChips
    {
      (page / g.totalChips) * g.totalChips + selected
    }

    predicate CanUse(buffer: nat, page: nat) {
      0 < g.totalChips && selected < g.totalChips && selected < |busy| && buffer < 2
      && 2 * selected + buffer < |buffers| && Addressed(page) < |memory|
    }

    /** DF_CMD_MAINMEMTOBUFFn: copies a page of the selected chip into one of its buffers. */
    function MainMemToBuffer(buffer: nat, page: nat): Chips
      requires CanUse(buffer, page)
    {
      this.(buffers := buffers[2 * selected + buffer := memory[Addressed(page)]],
            busy := busy[selected := Using(buffer)],
            clean := clean && busy[selected] == Idle)
    }

    /** DF_CMD_BUFFnTOMAINMEMWITHERASE: programs a page of the selected chip from one of its buffers. */
    function BufferToMainMem(buffer: nat, page: nat): Chips
      requires CanUse(buffer, page)
    {
      this.(memory := memory[Addressed(page) := buffers[2 * selected + buffer]],
            busy := busy[selected := Using(buffer)],
            clean := clean && busy[selected] == Idle)
    }

    /** Dataflash_WaitWhileBusy: polls the selected chip until it is ready. */
    function WaitWhileBusy(): Chips
      requires selected < |busy|
    {
      this.(busy := busy[selected := Idle])
    }

    /** DF_CMD_BUFFnWRITE: the data bytes that follow go to `buffer` from `start` on. */
    function BufferWrite(buffer: nat, start: nat): Chips {
      this.(streaming := buffer, offset := start)
    }

    predicate CanStream(count: nat) {
      selected < |busy| && 2 * selected + streaming < |buffers|
      && offset + count <= |buffers[2 * selected + streaming]|
    }

    /** Dataflash_SendByte for one data byte of a buffer write. */
    function SendByte(data: byte): (c: Chips)
      requires CanStream(1)
    {
      this.(buffers := buffers[2 * selected + streaming := buffers[2 * selected + streaming][offset := data]],
            offset := offset + 1,
            clean := clean && busy[selected] != Using(streaming))
    }

    /** A run of data bytes. */
    function SendBytes(data: seq<byte>): (c: Chips)
      requires CanStream(|data|)
    {
      var i := 2 * selected + streaming;
      this.(buffers := buffers[i := Splice(buffers[i], offset, data)],
            offset := offset + |data|,
            clean := clean && (data == [] || busy[selected] != Using(streaming)))
    }

    /** DF_CMD_MAINMEMPAGEREAD: the bytes received next come from this page. */
    function MainMemPageRead(page: nat, start: nat): Chips
      requires 0 < g.totalChips && selected < |busy|
    {
      this.(readPage := Addressed(page), offset := start, clean := clean && busy[selected] == Idle)
    }

    predicate CanReceive() {
      readPage < |memory| && offset < |memory[readPage]|
    }

    /** Dataflash_ReceiveByte. */
    function ReceiveByte(): byte
      requires CanReceive()
    {
      memory[readPage][offset]
    }

    function AfterReceive(): Chips {
      this.(offset := offset + 1)
    }

    /** Time passes and every chip finishes what it was doing. */
    function Settled(): Chips {
      this.(busy := seq(|busy|, _ => Idle))
    }
  }

  /** A byte of the buffer that a run of data bytes goes to. */
  lemma SentAt(c: Chips, data: seq<byte>, o: nat)
    requires c.CanStream(|data|) && o < |c.buffers[2 * c.selected + c.streaming]|
    ensures var i := 2 * c.selected + c.streaming;
      && |c.SendBytes(data).buffers[i]| == |c.buffers[i]|
      && c.SendBytes(data).buffers[i][o] == if c.offset <= o < c.offset + |data| then data[o - c.offset] else c.buffers[i][o]
  {
    SplicedAt(c.buffers[2 * c.selected + c.streaming], c.offset, data, o);
  }

  /** Sending one more byte extends the run: byte-at-a-time sending is SendBytes. */
  lemma SendOneMore(c: Chips, data: seq<byte>, next: byte)
    requires c.CanStream(|data| + 1)
    ensures c.SendBytes(data).CanStream(1)
    ensures c.SendBytes(data).SendByte(next) == c.SendBytes(data + [next])
  {
    var i := 2 * c.selected + c.streaming;
    var buf := c.buffers[i];
    assert Splice(buf, c.offset, data)[c.offset + |data| := next] == Splice(buf, c.offset, data + [next]);
    assert c.SendBytes(data).SendByte(next).buffers == c.SendBytes(data + [next]).buffers;
  }

  lemma SendNone(c: Chips)
    requires c.CanStream(0)
    ensures c.SendBytes([]) == c
  {
    var i := 2 * c.selected + c.streaming;
    assert Splice(c.buffers[i], c.offset, []) == c.buffers[i];
    assert c.buffers[i := c.buffers[i]] == c.buffers;
  }

  // ---------------------------------------------------------------- the medium as one flat array

  function Flat(pages: seq<Page>): seq<byte> {
    Concat(pages)
  }

  lemma {:induction false} FlatIndex(pages: seq<Page>, size: nat, q: nat, o: nat)
    requires forall i :: 0 <= i < |pages| ==> |pages[i]| == size
    requires q < |pages| && o < size
    ensures 0 <= q * size + o < |pages| * size == |Flat(pages)|
    ensures Flat(pages)[q * size + o] == pages[q][o]
  {
    FlatLength(pages, size);
    MulMono(q + 1, |pages|, size);
    MulStep(q, size);
    if q > 0 {
      FlatIndex(pages[1..], size, q - 1, o);
      assert Flat(pages) == pages[0] + Flat(pages[1..]);
    }
  }

  lemma {:induction false} FlatLength(pages: seq<Page>, size: nat)
    requires forall i :: 0 <= i < |pages| ==> |pages[i]| == size
    ensures |Flat(pages)| == |pages| * size
  {
    if pages != [] {
      FlatLength(pages[1..], size);
      MulStep(|pages|, size);
    }
  }

  /** Where byte o of page q stands in the flat medium. */
  function Position(q: nat, size: nat, o: nat): nat {
    q * size + o
  }

  /** Two flat media agree when every position, split into page and offset, agrees. */
  lemma FlatEqual(pages: seq<Page>, size: nat, flat: seq<byte>)
    requires 0 < size && (forall i :: 0 <= i < |pages| ==> |pages[i]| == size)
    requires |flat| == |pages| * size
    requires forall q, o :: 0 <= q < |pages| && 0 <= o < size ==> Position(q, size, o) < |flat| && pages[q][o] == flat[Position(q, size, o)]
    ensures Flat(pages) == flat
  {
    FlatLength(pages, size);
    forall k | 0 <= k < |flat| ensures Flat(pages)[k] == flat[k] {
      var q, o := k / size, k % size;
      DivBound(k, size, |pages|);
      assert Position(q, size, o) == k;
      FlatIndex(pages, size, q, o);
    }
  }

  /** Byte o of page q when `data` overwrites the flat medium from `start` on. */
  function SplicedByte(before: seq<Page>, size: nat, start: nat, data: seq<byte>, q: nat, o: nat): byte
    requires q < |before| && o < |before[q]|
  {
    var pos := Position(q, size, o);
    if start <= pos < start + |data| then data[pos - start] else before[q][o]
  }

  /** A splice described page by page. */
  lemma FlatSplice(before: seq<Page>, after: seq<Page>, size: nat, start: nat, data: seq<byte>)
    requires 0 < size && |after| == |before| && start + |data| <= |before| * size
    requires forall i :: 0 <= i < |before| ==> |before[i]| == size && |after[i]| == size
    requires forall q, o :: 0 <= q < |before| && 0 <= o < size ==> after[q][o] == SplicedByte(before, size, start, data, q, o)
    ensures |Flat(before)| == |before| * size
    ensures Flat(after) == Splice(Flat(before), start, data)
  {
    FlatLength(before, size);
    var flat := Splice(Flat(before), start, data);
    hide Flat, Splice, SplicedByte;
    forall q, o | 0 <= q < |after| && 0 <= o < size
      ensures Position(q, size, o) < |flat| && after[q][o] == flat[Position(q, size, o)]
    {
      SplicedIndex(before, size, start, data, q, o);
    }
    FlatEqual(after, size, flat);
  }

  /** One byte of the overwritten flat medium. */
  lemma SplicedIndex(before: seq<Page>, size: nat, start: nat, data: seq<byte>, q: nat, o: nat)
    requires forall i :: 0 <= i < |before| ==> |before[i]| == size
    requires q < |before| && o < size && start + |data| <= |before| * size == |Flat(before)|
    ensures Position(q, size, o) < |Flat(before)|
    ensures Splice(Flat(before), start, data)[Position(q, size, o)] == SplicedByte(before, size, start, data, q, o)
  {
    FlatIndex(before, size, q, o);
    SplicedAt(Flat(before), start, data, q * size + o);
  }

  lemma FlatSlice(pages: seq<Page>, size: nat, q: nat, o: nat, n: nat)
    requires forall i :: 0 <= i < |pages| ==> |pages[i]| == size
    requires q < |pages| && 0 < n && o + n <= size
    ensures q * size + o + n <= |Flat(pages)| == |pages| * size
    ensures Flat(pages)[q * size + o..q * size + o + n] == pages[q][o..o + n]
  {
    FlatIndex(pages, size, q, o + n - 1);
    var at := q * size + o;
    forall k | at <= k < at + n ensures Flat(pages)[k] == pages[q][k - q * size] {
      FlatIndex(pages, size, q, k - q * size);
    }
  }
}
