/** The firmware being written to flash page by page, as the DFU download loop does it. */
module DfuFlash {
  import opened Arith
  import opened AvrFlash
  import opened Bytes

  /**
   * A download: where it starts, in which page and how far into it, the bytes that arrive, what the fill buffer held,
   * and the flash as it was before the first page was erased.
   */
  datatype Download = Download(firstPage: nat, offset: nat, pageSize: nat, data: seq<byte>, fill: seq<byte>, before: seq<byte>, log: seq<PageOp>) {
    /** Where the first page starts. */
    function Base(): nat {
      firstPage * pageSize
    }

    /** Number of pages touched; the first one is erased in any case. */
    function Pages(): nat
      requires 0 < pageSize
    {
      if data == [] then 1 else (|data| + pageSize - 1) / pageSize
    }

    ghost predicate Fits() {
      && 0 < pageSize && pageSize % 2 == 0 && offset < pageSize && offset % 2 == 0 && |data| % 2 == 0 && |fill| == pageSize
      && Base() + Pages() * pageSize <= |before|
    }

    /** Which byte of a page's share of the data goes to offset o: the fill buffer is filled from `offset` on, and around. */
    function Turned(o: nat): int {
      if offset <= o then o - offset else o + pageSize - offset
    }

    /** Byte o of the k-th page when the download is done. */
    function ImageByte(k: nat, o: nat): byte
      requires o < |fill|
    {
      var j := k * pageSize + Turned(o);
      if data == [] then BLANK else if 0 <= j < |data| then data[j] else if k == 0 then fill[o] else BLANK
    }

    /** All the pages touched. */
    function Image(): seq<byte>
      requires 0 < pageSize == |fill|
    {
      seq(Pages() * pageSize, i requires 0 <= i < Pages() * pageSize => ImageByte(i / pageSize, i % pageSize))
    }

    function Expected(a: nat): byte
      requires 0 < pageSize == |fill| && a < |before|
    {
      if Base() <= a < Base() + Pages() * pageSize then Image()[a - Base()] else before[a]
    }

    /** The pages touched hold the image, and nothing else has changed. */
    ghost predicate Done(after: seq<byte>)
      requires 0 < pageSize == |fill|
    {
      && |after| == |before|
      && forall a :: 0 <= a < |after| ==> after[a] == Expected(a)
    }
  }

  lemma ImageAt(d: Download, k: nat, o: nat)
    requires 0 < d.pageSize == |d.fill| && k < d.Pages() && o < d.pageSize
    ensures k * d.pageSize + o < |d.Image()| == d.Pages() * d.pageSize && d.Image()[k * d.pageSize + o] == d.ImageByte(k, o)
  {
    MulMono(k + 1, d.Pages(), d.pageSize);
    MulStep(k, d.pageSize);
    PageOf(k, o, d.pageSize);
  }

  /** Each of `pages` pages from `first` on erased once and then written once. */
  function EraseWrite(first: nat, pages: nat): seq<PageOp> {
    if pages == 0 then [] else EraseWrite(first, pages - 1) + [Erase(first + pages - 1), Write(first + pages - 1)]
  }

  /** The pages before `page` written, `page` itself blank. */
  ghost predicate MemoryDuring(d: Download, memory: seq<byte>, page: nat)
    requires 0 < d.pageSize == |d.fill|
  {
    var start := page * d.pageSize;
    && |memory| == |d.before| && 0 <= start - d.Base() <= |d.Image()|
    && forall a :: 0 <= a < |memory| ==>
      memory[a] == if d.Base() <= a < start then d.Image()[a - d.Base()] else if start <= a < start + d.pageSize then BLANK else d.before[a]
  }

  /** The pages up to and with `page` written. */
  ghost predicate MemoryAfter(d: Download, memory: seq<byte>, page: nat)
    requires 0 < d.pageSize == |d.fill|
  {
    var end := page * d.pageSize + d.pageSize;
    && |memory| == |d.before| && 0 <= end - d.Base() <= |d.Image()|
    && forall a :: 0 <= a < |memory| ==> memory[a] == if d.Base() <= a < end then d.Image()[a - d.Base()] else d.before[a]
  }

  /** The first `done` bytes of the k-th page's data in the fill buffer. */
  ghost predicate FillDuring(d: Download, fill: seq<byte>, k: nat, done: nat)
    requires |d.fill| == d.pageSize
  {
    var start := k * d.pageSize;
    && |fill| == d.pageSize && start + done <= |d.data|
    && forall o :: 0 <= o < d.pageSize ==>
      fill[o] == if 0 <= d.Turned(o) < done then d.data[start + d.Turned(o)] else if k == 0 then d.fill[o] else BLANK
  }

  /** In the middle of the k-th page, of which `done` bytes are in the fill buffer. */
  ghost predicate Writing(d: Download, f: Flash, k: nat, done: nat) {
    var page := d.firstPage + k;
    && d.Fits() && f.Valid() && f.pageSize == d.pageSize && |f.memory| == |d.before|
    && k < d.Pages() && done <= d.pageSize && done % 2 == 0 && k * d.pageSize + done <= |d.data|
    && page * d.pageSize == d.Base() + k * d.pageSize && page * d.pageSize + d.pageSize <= |d.before|
    && MemoryDuring(d, f.memory, page) && FillDuring(d, f.fill, k, done)
    && f.log == d.log + EraseWrite(d.firstPage, k) + [Erase(page)]
  }

  /** The first page erased: the state PROG_START leaves. */
  lemma WritingStarts(d: Download, before: Flash)
    requires d.Fits() && before.Valid() && before.pageSize == d.pageSize && before.memory == d.before && before.fill == d.fill
    requires before.log == d.log
    ensures Writing(d, before.PageErase(d.Base() + d.offset), 0, 0)
  {
    PageOf(d.firstPage, d.offset, d.pageSize);
    PagesPositive(d);
    MulMono(1, d.Pages(), d.pageSize);
    assert d.log + EraseWrite(d.firstPage, 0) == d.log;
    var g := before.PageErase(d.Base() + d.offset);
    assert g.memory == Splice(before.memory, d.Base(), Blanks(d.pageSize));
    forall a | 0 <= a < |g.memory|
      ensures g.memory[a] == if d.Base() <= a < d.Base() + d.pageSize then BLANK else d.before[a]
    {
      SplicedAt(before.memory, d.Base(), Blanks(d.pageSize), a);
    }
  }

  lemma PagesPositive(d: Download)
    requires d.Fits()
    ensures 0 < d.Pages()
  {
    if d.data != [] {
      DivUnique(d.pageSize, d.pageSize, 1, 0);
      var n := |d.data| + d.pageSize - 1;
      assert n == (n / d.pageSize) * d.pageSize + n % d.pageSize;
    }
  }

  /** Where the next word goes: the place `offset + done`, around the page. */
  function Place(d: Download, done: nat): int {
    if d.offset + done < d.pageSize then d.offset + done else d.offset + done - d.pageSize
  }

  lemma WordPlace(d: Download, page: nat, done: nat)
    requires d.Fits() && done + 2 <= d.pageSize && done % 2 == 0
    ensures var addr := page * d.pageSize + d.offset + done;
      addr % d.pageSize == Place(d, done) && Place(d, done) % 2 == 0 && 0 <= Place(d, done) <= d.pageSize - 2
  {
    PlaceEven(d, done);
    var addr := page * d.pageSize + d.offset + done;
    hide *;
    if d.offset + done < d.pageSize {
      DivUnique(addr, d.pageSize, page, d.offset + done);
    } else {
      MulStep(page, d.pageSize);
      DivUnique(addr, d.pageSize, page + 1, d.offset + done - d.pageSize);
    }
  }

  lemma PlaceEven(d: Download, done: nat)
    requires d.Fits() && done + 2 <= d.pageSize && done % 2 == 0
    ensures Place(d, done) % 2 == 0 && 0 <= Place(d, done) <= d.pageSize - 2
    ensures Place(d, done) == if d.offset + done < d.pageSize then d.offset + done else d.offset + done - d.pageSize
  {
    EvenPlace(d.offset, done, d.pageSize);
    hide Download.Pages, Download.Base;
  }

  lemma EvenPlace(offset: nat, done: nat, size: nat)
    requires offset % 2 == 0 && done % 2 == 0 && size % 2 == 0 && offset < size && done + 2 <= size
    ensures (offset + done) % 2 == 0 && (offset + done - size) % 2 == 0 && (offset + done < size ==> offset + done + 2 <= size)
  {
    var a, b, c := offset / 2, done / 2, size / 2;
    Twice(a + b);
    Twice(a + b - c);
    assert offset == 2 * a && done == 2 * b && size == 2 * c;
  }

  lemma Twice(n: int)
    ensures (2 * n) % 2 == 0
  {
  }

  lemma WordFilled(d: Download, f: Flash, k: nat, done: nat, low: byte, high: byte)
    requires Writing(d, f, k, done) && done + 2 <= d.pageSize
    requires var n := k * d.pageSize + done; n + 2 <= |d.data| && low == d.data[n] && high == d.data[n + 1]
    ensures Writing(d, f.PageFill((d.firstPage + k) * d.pageSize + d.offset + done, low, high), k, done + 2)
  {
    WordPlace(d, d.firstPage + k, done);
    var at := Place(d, done);
    var g := f.PageFill((d.firstPage + k) * d.pageSize + d.offset + done, low, high);
    assert g.fill == f.fill[at := low][at + 1 := high];
    hide MemoryDuring, EraseWrite;
    MoreFilled(d, f.fill, k, done, low, high);
  }

  lemma MoreFilled(d: Download, fill: seq<byte>, k: nat, done: nat, low: byte, high: byte)
    requires d.Fits() && FillDuring(d, fill, k, done) && done + 2 <= d.pageSize && done % 2 == 0
    requires 0 <= Place(d, done) <= d.pageSize - 2
    requires var n := k * d.pageSize + done; n + 2 <= |d.data| && low == d.data[n] && high == d.data[n + 1]
    ensures FillDuring(d, fill[Place(d, done) := low][Place(d, done) + 1 := high], k, done + 2)
  {
  }

  /** Where byte o of the k-th page stands in the image. */
  function Spot(d: Download, k: nat, o: nat): nat {
    k * d.pageSize + o
  }

  /** The fill buffer is the k-th page of the image. */
  ghost predicate IsPage(d: Download, fill: seq<byte>, k: nat)
    requires 0 < d.pageSize == |d.fill| == |fill|
  {
    forall o :: 0 <= o < d.pageSize ==> Spot(d, k, o) < |d.Image()| && fill[o] == d.Image()[Spot(d, k, o)]
  }

  /** A page's data complete in the fill buffer: it is the page of the image. */
  lemma PageComplete(d: Download, fill: seq<byte>, k: nat, done: nat)
    requires d.Fits() && |d.fill| == |fill| == d.pageSize && FillDuring(d, fill, k, done) && k < d.Pages() && 0 < done <= d.pageSize
    requires done == d.pageSize || k * d.pageSize + done == |d.data|
    ensures IsPage(d, fill, k)
  {
    hide Spot, FillDuring, Download.Image, Download.Pages;
    forall o | 0 <= o < d.pageSize ensures Spot(d, k, o) < |d.Image()| && fill[o] == d.Image()[Spot(d, k, o)] {
      ImageIs(d, fill, k, done, o);
    }
  }

  lemma ImageIs(d: Download, fill: seq<byte>, k: nat, done: nat, o: nat)
    requires d.Fits() && |d.fill| == |fill| == d.pageSize && FillDuring(d, fill, k, done) && k < d.Pages() && 0 < done <= d.pageSize && o < d.pageSize
    requires done == d.pageSize || k * d.pageSize + done == |d.data|
    ensures Spot(d, k, o) < |d.Image()| && fill[o] == d.Image()[Spot(d, k, o)]
  {
    FillByte(d, fill, k, done, o);
    hide Download.Image, Download.ImageByte, FillDuring;
    ImageAt(d, k, o);
  }

  lemma FillByte(d: Download, fill: seq<byte>, k: nat, done: nat, o: nat)
    requires d.Fits() && FillDuring(d, fill, k, done) && 0 < done <= d.pageSize && o < d.pageSize
    requires done == d.pageSize || k * d.pageSize + done == |d.data|
    ensures fill[o] == d.ImageByte(k, o)
  {
  }

  /** Writing the page that holds the last bytes finishes the download. */
  lemma LastPageWritten(d: Download, f: Flash, k: nat, done: nat)
    requires Writing(d, f, k, done) && k * d.pageSize + done == |d.data| && 0 < done
    ensures var g := f.PageWrite((d.firstPage + k) * d.pageSize + d.offset);
      && g.Valid() && g.FillClear() && d.Done(g.memory)
      && g.log == d.log + EraseWrite(d.firstPage, d.Pages())
  {
    PageWritten(d, f, k, done);
    PagesExact(d, k, done);
    OpsGrow(d, k);
    hide Writing, Flash.PageWrite, MemoryDuring, FillDuring, EraseWrite;
  }

  lemma OpsGrow(d: Download, k: nat)
    ensures d.log + EraseWrite(d.firstPage, k) + [Erase(d.firstPage + k)] + [Write(d.firstPage + k)] == d.log + EraseWrite(d.firstPage, k + 1)
  {
    var ops, page := EraseWrite(d.firstPage, k), d.firstPage + k;
    assert EraseWrite(d.firstPage, k + 1) == ops + [Erase(page), Write(page)];
    hide EraseWrite;
    assert d.log + ops + [Erase(page)] + [Write(page)] == d.log + (ops + [Erase(page), Write(page)]);
  }

  lemma PagesExact(d: Download, k: nat, done: nat)
    requires d.Fits() && 0 < done <= d.pageSize && k * d.pageSize + done == |d.data|
    ensures d.Pages() == k + 1 && d.Pages() * d.pageSize == k * d.pageSize + d.pageSize
  {
    MulStep(k, d.pageSize);
    DivUnique(|d.data| + d.pageSize - 1, d.pageSize, k + 1, done - 1);
  }

  /** The memory and log after the current page is written. */
  lemma PageWritten(d: Download, f: Flash, k: nat, done: nat)
    requires Writing(d, f, k, done) && 0 < done && (done == d.pageSize || k * d.pageSize + done == |d.data|)
    ensures var page := d.firstPage + k;
      var g := f.PageWrite(page * d.pageSize + d.offset);
      && g.Valid() && g.FillClear() && g.pageSize == d.pageSize && |g.memory| == |d.before|
      && page * d.pageSize == d.Base() + k * d.pageSize && MemoryAfter(d, g.memory, page)
      && g.log == d.log + EraseWrite(d.firstPage, k) + [Erase(page)] + [Write(page)]
  {
    var page := d.firstPage + k;
    PageBlank(d, f, k, done);
    PageComplete(d, f.fill, k, done);
    hide MemoryDuring, FillDuring, EraseWrite, MemoryAfter, Flash.PageWrite, Splice, Download.Image;
    MemorySpliced(d, f.memory, f.fill, page, k);
  }

  lemma PageBlank(d: Download, f: Flash, k: nat, done: nat)
    requires Writing(d, f, k, done)
    ensures f.PageWrite((d.firstPage + k) * d.pageSize + d.offset) == WrittenFlash(f, d.firstPage + k)
  {
    var page := d.firstPage + k;
    PageReady(d, f, k, done);
    hide *;
    SameWrite(f, page, d.offset);
    BlankPageWritten(f, page);
  }

  lemma PageReady(d: Download, f: Flash, k: nat, done: nat)
    requires Writing(d, f, k, done)
    ensures var page := d.firstPage + k;
      && f.Valid() && f.HasPage(page) && d.offset < d.pageSize == f.pageSize
      && forall a :: page * f.pageSize <= a < page * f.pageSize + f.pageSize ==> f.memory[a] == BLANK
  {
    hide FillDuring, EraseWrite, Download.Image, Download.Pages;
  }

  /** A page is written by any address in it. */
  lemma SameWrite(f: Flash, page: nat, offset: nat)
    requires f.Valid() && offset < f.pageSize
    ensures f.PageWrite(page * f.pageSize + offset) == f.PageWrite(page * f.pageSize)
  {
    PageOf(page, offset, f.pageSize);
    PageOf(page, 0, f.pageSize);
  }

  lemma MemorySpliced(d: Download, memory: seq<byte>, fill: seq<byte>, page: nat, k: nat)
    requires 0 < d.pageSize == |d.fill| == |fill| && |memory| == |d.before| && page * d.pageSize + d.pageSize <= |memory|
    requires page * d.pageSize == d.Base() + k * d.pageSize && MemoryDuring(d, memory, page) && IsPage(d, fill, k)
    ensures MemoryAfter(d, Splice(memory, page * d.pageSize, fill), page)
  {
    var start, image := page * d.pageSize, d.Image();
    assert Spot(d, k, d.pageSize - 1) < |image|;
    var after := Splice(memory, start, fill);
    forall a | 0 <= a < |after|
      ensures after[a] == if d.Base() <= a < start + d.pageSize then image[a - d.Base()] else d.before[a]
    {
      SplicedAt(memory, start, fill, a);
      if start <= a < start + d.pageSize {
        assert fill[a - start] == image[Spot(d, k, a - start)];
      }
    }
  }

  /** A full page written and the next one erased. */
  lemma PageTurned(d: Download, f: Flash, k: nat)
    requires Writing(d, f, k, d.pageSize) && k * d.pageSize + d.pageSize < |d.data|
    ensures var page := d.firstPage + k;
      && (page + 1) * d.pageSize == page * d.pageSize + d.pageSize && f.PageWrite(page * d.pageSize + d.offset).Valid()
      && Writing(d, f.PageWrite(page * d.pageSize + d.offset).PageErase((page + 1) * d.pageSize + d.offset), k + 1, 0)
  {
    PageWritten(d, f, k, d.pageSize);
    MorePages(d, k);
    OpsGrow(d, k);
    var g := f.PageWrite((d.firstPage + k) * d.pageSize + d.offset);
    hide Writing, Flash.PageWrite, EraseWrite, MemoryAfter, MemoryDuring, FillDuring;
    TurnedMemory(d, k, g);
  }

  lemma TurnedMemory(d: Download, k: nat, g: Flash)
    requires d.Fits() && g.Valid() && g.FillClear() && g.pageSize == d.pageSize && |g.memory| == |d.before|
    requires k + 1 < d.Pages() && (k + 1) * d.pageSize < |d.data| && (k + 1) * d.pageSize == k * d.pageSize + d.pageSize
    requires var page := d.firstPage + k;
      && page * d.pageSize == d.Base() + k * d.pageSize && (page + 1) * d.pageSize == page * d.pageSize + d.pageSize
      && page * d.pageSize + 2 * d.pageSize <= |d.before| && MemoryAfter(d, g.memory, page)
      && g.log == d.log + EraseWrite(d.firstPage, k + 1)
    ensures Writing(d, g.PageErase((d.firstPage + k + 1) * d.pageSize + d.offset), k + 1, 0)
  {
    var next := d.firstPage + k + 1;
    PageOf(next, d.offset, d.pageSize);
    var e := g.PageErase(next * d.pageSize + d.offset);
    assert e.memory == Splice(g.memory, next * d.pageSize, Blanks(d.pageSize));
    hide EraseWrite, Flash.PageErase, Splice, Download.Image;
    forall a | 0 <= a < |e.memory|
      ensures e.memory[a] == if next * d.pageSize <= a < next * d.pageSize + d.pageSize then BLANK else g.memory[a]
    {
      SplicedAt(g.memory, next * d.pageSize, Blanks(d.pageSize), a);
    }
  }

  lemma MorePages(d: Download, k: nat)
    requires d.Fits() && k * d.pageSize + d.pageSize < |d.data|
    ensures k + 1 < d.Pages() && (k + 1) * d.pageSize == k * d.pageSize + d.pageSize
    ensures (d.firstPage + k) * d.pageSize == d.Base() + k * d.pageSize
    ensures (d.firstPage + k + 1) * d.pageSize == (d.firstPage + k) * d.pageSize + d.pageSize
    ensures (d.firstPage + k) * d.pageSize + 2 * d.pageSize <= |d.before|
  {
    var s := d.pageSize;
    MulStep(k, s);
    MulStep(k + 1, s);
    MulStep(d.firstPage + k, s);
    DivAtLeast(|d.data| + s - 1, s, k + 2);
    MulMono(k + 2, d.Pages(), s);
  }
}
