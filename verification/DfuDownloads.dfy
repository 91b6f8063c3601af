/**
 * Downloads of the DFU bootloader: firmware and EEPROM requests that fit, the loops that carry them out, and the chip
 * erase.
 */
module DfuDownloads {
  import opened Arith
  import opened AvrFlash
  import opened Bytes
  import opened DfuFlash
  import opened DfuProtocol
  import opened Endpoint

  function FirstAddr(packet: seq<byte>): nat
    requires 6 <= |packet|
  {
    Word(packet[2], packet[3])
  }

  function LastAddr(packet: seq<byte>): nat
    requires 6 <= |packet|
  {
    Word(packet[4], packet[5])
  }

  /** How many bytes of a range the loop moves: whole words of its 16-bit length. */
  function Arriving(size: nat): nat {
    2 * (size % 0x1_0000 / 2)
  }

  /** What writing some firmware at an address comes to: the bytes of it that arrive, where the first of them goes. */
  ghost function Asked(f: Flash, addr: nat, firmware: seq<byte>): Download
    requires 0 < f.pageSize
  {
    Download(PageNumber(addr, f.pageSize), addr % f.pageSize, f.pageSize, firmware[..Arriving(|firmware|)], f.fill, f.memory, f.log)
  }

  /** The firmware of a request: what comes between the filler and the file suffix. */
  function FirmwareOf(packets: seq<seq<byte>>): seq<byte>
    requires packets != [] && SUFFIX_SIZE <= |Concat(packets[1..])|
  {
    Concat(packets[1..])[..|Concat(packets[1..])| - SUFFIX_SIZE]
  }

  /** What a request to write flash asks for. */
  ghost function RequestedDownload(f: Flash, page64: octet, packets: seq<seq<byte>>): Download
    requires 0 < f.pageSize && packets != [] && 6 <= |packets[0]| && SUFFIX_SIZE <= |Concat(packets[1..])|
  {
    Asked(f, LongAddress(FirstAddr(packets[0]), page64), FirmwareOf(packets))
  }

  /**
   * A request that writes firmware to a range of flash, of any length, from any packet-aligned start, whatever the
   * fill buffer holds: the command and the fixed filler in the first packet, then packets with the firmware and the
   * file suffix, all but the last of whole words. Such a start needs no alignment filler, as AlignmentFraming asks.
   */
  ghost predicate FirmwareRequest(f: Flash, page64: octet, packets: seq<seq<byte>>) {
    && f.Valid()
    && packets != [] && |packets[0]| == 6 + FILLER_SIZE && packets[0][0] == PROG_START && packets[0][1] == 0x00
    && WordPackets(OutPipe(false, [], packets[1..]))
    && FirstAddr(packets[0]) <= LastAddr(packets[0])
    && |Concat(packets[1..])| == LastAddr(packets[0]) - FirstAddr(packets[0]) + 1 + SUFFIX_SIZE
    && FirstAddr(packets[0]) % CONTROL_SIZE == 0
    && RequestedDownload(f, page64, packets).Fits()
  }

  /** On a device whose pages are whole packets long, a page-aligned start needs no alignment filler. */
  lemma AlignedStart(first: nat, page64: octet, pageSize: nat)
    requires 0 < pageSize && pageSize % CONTROL_SIZE == 0 && LongAddress(first, page64) % pageSize == 0
    ensures first % CONTROL_SIZE == 0
  {
    var at := LongAddress(first, page64);
    var k, m := pageSize / CONTROL_SIZE, at / pageSize;
    assert at == m * pageSize == m * (k * CONTROL_SIZE);
    MulAssoc(m, k, CONTROL_SIZE);
    assert first == (m * k - 0x800 * page64) * CONTROL_SIZE;
    MultipleMod(m * k - 0x800 * page64, CONTROL_SIZE);
  }

  /**
   * A request that writes an EEPROM range inside the device: framed like a firmware request, with no demand on the
   * packets.
   */
  ghost predicate EepromRequest(e: seq<byte>, packets: seq<seq<byte>>) {
    && packets != [] && |packets[0]| == 6 + FILLER_SIZE && packets[0][0] == PROG_START && packets[0][1] == 0x01
    && FirstAddr(packets[0]) <= LastAddr(packets[0]) < |e| <= 0x1_0000 && FirstAddr(packets[0]) % CONTROL_SIZE == 0
    && var size := LastAddr(packets[0]) - FirstAddr(packets[0]) + 1;
    && size < 0x1_0000 && |Concat(packets[1..])| == size + SUFFIX_SIZE
  }

  /** A request that asks for flash (0) or EEPROM (2) to be read back. */
  predicate ReadRequest(packets: seq<seq<byte>>, memory: byte) {
    |packets| == 1 && 6 <= |packets[0]| && packets[0][0] == DISP_DATA && packets[0][1] == memory
  }

  // ---------------------------------------------------------------- commands

  lemma LoadedWhole(r: Registers, first: seq<byte>, total: nat)
    requires |r.data| == 5 && 6 <= |first| <= total
    ensures Loaded(r, first, total) == r.(command := first[0], data := first[1..6], dataSize := total - 6)
  {
  }

  lemma AddressesOf(r: Registers, first: seq<byte>)
    requires 6 <= |first| && r.data == first[1..6]
    ensures |r.data| == 5 && r.data[0] == first[1] && WithAddresses(r) == r.(startAddr := FirstAddr(first), endAddr := LastAddr(first))
  {
    hide Word;
  }

  /** A whole program or read command, on a bootloader that is not secure. */
  lemma CommandOf(t: Tables, r: Registers, f: Flash, first: seq<byte>, bootStart: nat)
    requires |r.data| == 5 && !r.isSecure && f.Valid() && 6 <= |first| <= r.dataSize
    ensures var c := CommandTaken(t, r, f, first, bootStart);
      var l := r.(command := first[0], data := first[1..6], dataSize := r.dataSize - 6, startAddr := FirstAddr(first), endAddr := LastAddr(first));
      && (first[0] == PROG_START && first[1] == 0x00 ==>
        c == (l.(state := DfuDnloadIdle), f.PageErase(LongAddress(FirstAddr(first), r.flash64KBPage))))
      && (first[0] == PROG_START && first[1] == 0x01 ==> c == (l.(state := DfuDnloadIdle), f))
      && (first[0] == DISP_DATA && first[1] in {0x00, 0x02} ==> c == (l.(state := DfuUploadIdle), f))
  {
    LoadedWhole(r, first, r.dataSize);
    AddressesOf(Loaded(r, first, r.dataSize), first);
    hide WithAddresses, FirstAddr, LastAddr, Loaded, Flash.PageErase;
  }

  // ---------------------------------------------------------------- flash

  /** A download carried through: the pages hold its image, each of them erased once and, if data arrived, written once. */
  ghost predicate Finished(d: Download, f: Flash) {
    && d.Fits() && f.Valid() && f.pageSize == d.pageSize && d.Done(f.memory)
    && (d.data == [] ==> f.fill == d.fill && f.log == d.log + [Erase(d.firstPage)])
    && (d.data != [] ==> f.FillClear() && f.log == d.log + EraseWrite(d.firstPage, d.Pages()))
  }

  /** Packets of whole words, but for the last one. */
  ghost predicate WordPackets(p: OutPipe) {
    && (p.pending != [] ==> |p.bank| % 2 == 0) && NonEmpty(p.pending)
    && forall i :: 0 <= i < |p.pending| - 1 ==> |p.pending[i]| % 2 == 0
  }

  /** After the command of a firmware download: only filler is left in the bank, and the first page is erased. */
  ghost predicate DownloadReady(d: Download, f: Flash, p: OutPipe, suffix: seq<byte>) {
    && Writing(d, f, 0, 0) && |p.bank| == FILLER_SIZE && WordPackets(p) && Concat(p.pending) == d.data + suffix
  }

  /** After its command, a firmware request is ready for the download. */
  lemma FirmwareReady(f: Flash, page64: octet, packets: seq<seq<byte>>)
    requires FirmwareRequest(f, page64, packets)
    ensures var d, addr := RequestedDownload(f, page64, packets), LongAddress(FirstAddr(packets[0]), page64);
      && |d.data| <= |Concat(packets[1..])| && addr == d.Base() + d.offset
      && DownloadReady(d, f.PageErase(addr), OutPipe(true, packets[0][6..], packets[1..]), Concat(packets[1..])[|d.data|..])
  {
    var d := RequestedDownload(f, page64, packets);
    AskedStarts(f, LongAddress(FirstAddr(packets[0]), page64), FirmwareOf(packets));
    RequestShape(f, page64, packets);
    hide *;
    assert Concat(packets[1..]) == d.data + Concat(packets[1..])[|d.data|..];
    ReadyWith(d, f.PageErase(LongAddress(FirstAddr(packets[0]), page64)), packets[0][6..], packets[1..], Concat(packets[1..])[|d.data|..]);
  }

  lemma RequestShape(f: Flash, page64: octet, packets: seq<seq<byte>>)
    requires FirmwareRequest(f, page64, packets)
    ensures |packets[0][6..]| == FILLER_SIZE && WordPackets(OutPipe(true, packets[0][6..], packets[1..]))
    ensures var d := RequestedDownload(f, page64, packets);
      |d.data| <= |Concat(packets[1..])| && d.data == Concat(packets[1..])[..|d.data|]
  {
    hide Download.Fits, Word, Concat;
  }

  lemma ReadyWith(d: Download, f: Flash, filler: seq<byte>, rest: seq<seq<byte>>, suffix: seq<byte>)
    requires Writing(d, f, 0, 0) && |filler| == FILLER_SIZE && WordPackets(OutPipe(true, filler, rest)) && Concat(rest) == d.data + suffix
    ensures DownloadReady(d, f, OutPipe(true, filler, rest), suffix)
  {
  }

  lemma AskedStarts(f: Flash, addr: nat, firmware: seq<byte>)
    requires f.Valid() && Asked(f, addr, firmware).Fits()
    ensures var d := Asked(f, addr, firmware); addr == d.Base() + d.offset && Writing(d, f.PageErase(addr), 0, 0)
  {
    var d := Asked(f, addr, firmware);
    assert addr == PageNumber(addr, f.pageSize) * f.pageSize + addr % f.pageSize;
    hide Writing, Flash.PageErase, d.Fits, Arriving;
    WritingStarts(d, f);
  }

  lemma FillerGone(d: Download, f: Flash, p: OutPipe, suffix: seq<byte>)
    requires DownloadReady(d, f, p, suffix)
    ensures Writing(d, f, 0, 0)
    ensures var q := Discarded(p, FILLER_SIZE); Discarded(q, 0) == q && WordPackets(q) && q.Stream() == d.data + suffix
  {
    hide Writing, OutPipe.Stream, Concat;
    DiscardInBank(p, FILLER_SIZE);
    EmptyBank(p.AfterRead(FILLER_SIZE));
  }

  lemma EmptyBank(p: OutPipe)
    requires p.bank == []
    ensures Discarded(p, 0) == p && p.Stream() == Concat(p.pending)
  {
  }

  /** The address the k-th page is written by: the one its first word goes to. */
  function PageStart(d: Download, k: nat): nat {
    (d.firstPage + k) * d.pageSize + d.offset
  }

  /** How much of the data is behind, `done` bytes into the k-th page. */
  function Behind(d: Download, k: nat, done: nat): nat {
    k * d.pageSize + done
  }

  /** What the download loop keeps, in the k-th page. */
  ghost predicate InDownload(d: Download, s: WordLoop, k: nat, left: nat, suffix: seq<byte>) {
    && Writing(d, s.f, k, 2 * s.count) && s.pageStart == PageStart(d, k)
    && s.addr == s.pageStart + 2 * s.count && 2 * s.count < d.pageSize
    && WordsLeft(d, s.p, Behind(d, k, 2 * s.count), left, suffix)
  }

  ghost predicate WordsLeft(d: Download, p: OutPipe, at: int, left: nat, suffix: seq<byte>) {
    && 0 <= at && at + 2 * left == |d.data| && WordPackets(p) && p.Stream() == d.data[at..] + suffix
  }

  /** While words are left, the next packet is there. */
  lemma PacketReady(d: Download, s: WordLoop, k: nat, left: nat, suffix: seq<byte>)
    requires InDownload(d, s, k, left, suffix) && 0 < left
    ensures !HostGone(s.p) && InDownload(d, s.(p := NextBank(s.p)), k, left, suffix) && 2 <= |NextBank(s.p).bank|
  {
    var at := Behind(d, k, 2 * s.count);
    assert s.(p := NextBank(s.p)).pageStart == s.pageStart;
    hide Writing;
    WordReady(d, s.p, at, left, suffix);
  }

  lemma WordReady(d: Download, p: OutPipe, at: nat, left: nat, suffix: seq<byte>)
    requires WordsLeft(d, p, at, left, suffix) && 0 < left
    ensures !HostGone(p) && WordsLeft(d, NextBank(p), at, left, suffix) && 2 <= |NextBank(p).bank|
  {
    var q := NextBank(p);
    assert q.Stream() == p.Stream();
    assert 2 <= |p.Stream()|;
    assert q.pending == [] ==> q.Stream() == q.bank;
  }

  /** Reading one word off the stream. */
  lemma WordRead(d: Download, p: OutPipe, at: nat, left: nat, suffix: seq<byte>)
    requires WordsLeft(d, p, at, left + 1, suffix) && 2 <= |p.bank|
    ensures at + 2 <= |d.data| && p.bank[0] == d.data[at] && p.bank[1] == d.data[at + 1]
    ensures WordsLeft(d, p.AfterRead(2), at + 2, left, suffix)
  {
    var rest := d.data[at..] + suffix;
    assert p.bank[0] == p.Stream()[0] == rest[0] && p.bank[1] == p.Stream()[1] == rest[1];
    assert p.AfterRead(2).Stream() == p.Stream()[2..] == rest[2..] == d.data[at + 2..] + suffix;
  }

  /** The flash and the packets after one more word, before the page is dealt with. */
  lemma WordIn(d: Download, s: WordLoop, k: nat, left: nat, suffix: seq<byte>)
    requires InDownload(d, s, k, left + 1, suffix) && 2 <= |s.p.bank|
    ensures s.f.Valid()
    ensures var g, q := s.f.PageFill(s.addr, BankByte(s.p, 0), BankByte(s.p, 1)), AfterWord(s.p);
      && Writing(d, g, k, 2 * s.count + 2) && 2 * s.count + 2 <= d.pageSize && g.pageSize == d.pageSize == |g.fill| && d.pageSize % 2 == 0
      && WordsLeft(d, q, Behind(d, k, 2 * s.count + 2), left, suffix)
  {
    InDownloadMeans(d, s, k, left + 1, suffix);
    WordRead(d, s.p, Behind(d, k, 2 * s.count), left, suffix);
    WordFilled(d, s.f, k, 2 * s.count, s.p.bank[0], s.p.bank[1]);
    hide Writing, d.Fits, Flash.PageFill, WordPackets, OutPipe.Stream;
  }

  lemma InDownloadMeans(d: Download, s: WordLoop, k: nat, left: nat, suffix: seq<byte>)
    requires InDownload(d, s, k, left, suffix)
    ensures d.Fits() && s.f.Valid() && s.f.pageSize == d.pageSize && d.pageSize % 2 == 0 && 2 * s.count + 2 <= d.pageSize
    ensures s.pageStart == PageStart(d, k) && s.addr == PageStart(d, k) + 2 * s.count
  {
    hide MemoryDuring, FillDuring;
  }

  /** The last word: its page is written. */
  lemma LastWord(d: Download, g: Flash, q: OutPipe, k: nat, done: nat, suffix: seq<byte>)
    requires Writing(d, g, k, done) && 0 < done && |g.fill| == g.pageSize && 0 < g.pageSize == d.pageSize
    requires WordsLeft(d, q, Behind(d, k, done), 0, suffix)
    ensures Finished(d, g.PageWrite(PageStart(d, k)))
  {
    assert Behind(d, k, done) == |d.data| == k * d.pageSize + done && d.data != [];
    assert d.Fits() && PageStart(d, k) == (d.firstPage + k) * d.pageSize + d.offset;
    hide *;
    LastPageWritten(d, g, k, done);
    FinishedWith(d, g.PageWrite(PageStart(d, k)));
  }

  lemma FinishedWith(d: Download, f: Flash)
    requires d.Fits() && f.Valid() && f.pageSize == d.pageSize && d.data != [] && d.Done(f.memory)
    requires f.FillClear() && f.log == d.log + EraseWrite(d.firstPage, d.Pages())
    ensures Finished(d, f)
  {
  }

  /** A full page: it is written and the next one erased. */
  lemma FullPage(d: Download, g: Flash, q: OutPipe, k: nat, left: nat, suffix: seq<byte>)
    requires Writing(d, g, k, d.pageSize) && 0 < left && |g.fill| == g.pageSize && 0 < g.pageSize == d.pageSize
    requires WordsLeft(d, q, Behind(d, k, d.pageSize), left, suffix)
    ensures var next := PageStart(d, k) + d.pageSize;
      InDownload(d, WordLoop(g.PageWrite(PageStart(d, k)).PageErase(next), q, next, next, 0), k + 1, left, suffix)
  {
    PageTurned(d, g, k);
    MulStep(k, d.pageSize);
    hide Writing, d.Fits, Flash.PageWrite, Flash.PageErase, WordPackets, OutPipe.Stream;
  }

  /** One word: the next is due, or the page has turned, or the download is finished. */
  lemma WordStep(d: Download, s: WordLoop, k: nat, left: nat, suffix: seq<byte>)
    requires InDownload(d, s, k, left + 1, suffix) && 2 <= |s.p.bank|
    ensures s.f.Valid()
    ensures var n := OneWord(s, left);
      && (left == 0 ==> Finished(d, n.f))
      && (0 < left ==> InDownload(d, n, if n.count == 0 then k + 1 else k, left, suffix))
  {
    hide *;
    WordIn(d, s, k, left, suffix);
    InDownloadMeans(d, s, k, left + 1, suffix);
    OneWordIs(s, left);
    var g, q := s.f.PageFill(s.addr, BankByte(s.p, 0), BankByte(s.p, 1)), AfterWord(s.p);
    if left == 0 {
      LastWord(d, g, q, k, 2 * s.count + 2, suffix);
    } else if 2 * s.count + 2 == d.pageSize {
      FullPage(d, g, q, k, left, suffix);
    } else {
      SamePage(d, OneWord(s, left), k, left, suffix);
    }
  }

  lemma OneWordIs(s: WordLoop, left: nat)
    requires s.f.Valid() && 2 * s.count + 2 <= s.f.pageSize
    ensures var g, q := s.f.PageFill(s.addr, BankByte(s.p, 0), BankByte(s.p, 1)), AfterWord(s.p);
      var next := s.addr + 2;
      && |g.fill| == g.pageSize == s.f.pageSize
      && (left == 0 ==> OneWord(s, left).f == g.PageWrite(s.pageStart))
      && (0 < left && 2 * s.count + 2 == s.f.pageSize ==>
        OneWord(s, left) == WordLoop(g.PageWrite(s.pageStart).PageErase(next), q, next, next, 0))
      && (0 < left && 2 * s.count + 2 != s.f.pageSize ==> OneWord(s, left) == WordLoop(g, q, s.pageStart, next, s.count + 1))
  {
    hide Flash.PageFill, Flash.PageWrite, Flash.PageErase, AfterWord, BankByte;
  }

  lemma SamePage(d: Download, n: WordLoop, k: nat, left: nat, suffix: seq<byte>)
    requires Writing(d, n.f, k, 2 * n.count) && n.pageStart == PageStart(d, k) && n.addr == n.pageStart + 2 * n.count && 2 * n.count < d.pageSize
    requires WordsLeft(d, n.p, Behind(d, k, 2 * n.count), left, suffix)
    ensures InDownload(d, n, k, left, suffix)
  {
  }

  /** The whole loop. */
  lemma {:induction false} WordsFinish(d: Download, s: WordLoop, k: nat, left: nat, suffix: seq<byte>)
    requires 0 < left && InDownload(d, s, k, left, suffix)
    ensures s.f.Valid() && WordsWritten(s, left).1 && Finished(d, WordsWritten(s, left).0.f)
    decreases left
  {
    hide *;
    PacketReady(d, s, k, left, suffix);
    InDownloadMeans(d, s, k, left, suffix);
    var q := NextBank(s.p);
    WordStep(d, s.(p := q), k, left - 1, suffix);
    WordsUnroll(s, left);
    if 1 < left {
      var n := OneWord(s.(p := q), left - 1);
      WordsFinish(d, n, if n.count == 0 then k + 1 else k, left - 1, suffix);
    }
  }

  lemma WordsUnroll(s: WordLoop, left: nat)
    requires 0 < left && s.f.Valid() && !HostGone(s.p)
    ensures var n := OneWord(s.(p := NextBank(s.p)), left - 1);
      WordsWritten(s, left) == if left == 1 then (n, true) else WordsWritten(n, left - 1)
  {
  }

  /** The 16-bit length of a range is its length unless that is 64KB. */
  lemma DownloadLength(r: Registers, size: nat)
    requires r.endAddr - r.startAddr + 1 == size <= 0x1_0000
    ensures BytesRemaining(r) == size <==> size < 0x1_0000
  {
  }

  lemma LoopStarts(d: Download, f: Flash, p: OutPipe, suffix: seq<byte>)
    requires Writing(d, f, 0, 0) && WordPackets(p) && p.Stream() == d.data + suffix
    ensures |d.data| % 2 == 0 && f.Valid()
    ensures var start := d.Base() + d.offset;
      && (d.data != [] ==> InDownload(d, WordLoop(f, p, start, start, 0), 0, |d.data| / 2, suffix))
      && (d.data == [] ==> Finished(d, f))
  {
    assert d.data[0..] == d.data;
    if d.data == [] {
      NothingWritten(d, f);
    }
    hide MemoryDuring, FillDuring, EraseWrite, OutPipe.Stream, WordPackets;
  }

  /** When no byte arrives, the first page stays erased, and the fill buffer as it was. */
  lemma NothingWritten(d: Download, f: Flash)
    requires Writing(d, f, 0, 0) && d.data == []
    ensures Finished(d, f)
  {
    assert d.log + EraseWrite(d.firstPage, 0) + [Erase(d.firstPage)] == d.log + [Erase(d.firstPage)];
    forall o | 0 <= o < d.pageSize ensures f.fill[o] == d.fill[o] {
    }
    forall o | 0 <= o < d.pageSize ensures d.Image()[o] == BLANK {
      ImageAt(d, 0, o);
    }
  }

  /** Filler, firmware and suffix received: what arrives of the firmware is in flash. */
  lemma FirmwareReceived(d: Device, p: OutPipe, dl: Download, suffix: seq<byte>)
    requires |d.r.data| == 5 && d.r.data[0] == 0x00 && d.r.state == DfuDnloadIdle && 0 < d.r.dataSize && d.f.Valid()
    requires DownloadReady(dl, d.f, p, suffix) && LongAddress(d.r.startAddr, d.r.flash64KBPage) == dl.Base() + dl.offset
    requires d.r.startAddr % CONTROL_SIZE == 0 && BytesRemaining(d.r) / 2 == |dl.data| / 2
    ensures var n := Received(d, p); Finished(dl, n.f) && n == d.(f := n.f, r := d.r.(startAddr := d.r.endAddr))
  {
    var q, start := AtData(d.r, p), dl.Base() + dl.offset;
    FillerGone(dl, d.f, p, suffix);
    assert q == Discarded(p, FILLER_SIZE) && Received(d, p) == FlashPart(d, q);
    FlashPartIs(d, q, start);
    hide *;
    LoopWrites(dl, d.f, q, suffix);
  }

  lemma FlashPartIs(d: Device, q: OutPipe, start: nat)
    requires d.f.Valid() && start == LongAddress(d.r.startAddr, d.r.flash64KBPage)
    ensures var n := WordsWritten(WordLoop(d.f, q, start, start, 0), BytesRemaining(d.r) / 2);
      n.1 ==> FlashPart(d, q) == d.(f := n.0.f, r := d.r.(startAddr := d.r.endAddr))
  {
    hide WordsWritten, BytesRemaining;
  }

  lemma LoopWrites(d: Download, f: Flash, p: OutPipe, suffix: seq<byte>)
    requires Writing(d, f, 0, 0) && WordPackets(p) && p.Stream() == d.data + suffix
    ensures f.Valid()
    ensures var n := WordsWritten(WordLoop(f, p, d.Base() + d.offset, d.Base() + d.offset, 0), |d.data| / 2);
      n.1 && Finished(d, n.0.f)
  {
    var s := WordLoop(f, p, d.Base() + d.offset, d.Base() + d.offset, 0);
    LoopStarts(d, f, p, suffix);
    assert d.data == [] ==> WordsWritten(s, 0) == (s, true);
    hide *;
    if d.data != [] {
      WordsFinish(d, s, 0, |d.data| / 2, suffix);
    }
  }

  /** A firmware request carries what arrives of the firmware into flash, and touches nothing else. */
  lemma FirmwareDownloaded(t: Tables, d: Device, packets: seq<seq<byte>>, bootStart: nat)
    requires |d.r.data| == 5 && d.f.Valid() && Dnload(packets).Proper() && !d.r.isSecure && !d.r.waitForExit
    requires FirmwareRequest(d.f, d.r.flash64KBPage, packets)
    ensures var n := Step(t, d, Dnload(packets), bootStart).0;
      && Finished(RequestedDownload(d.f, d.r.flash64KBPage, packets), n.f) && n.e == d.e
      && n.r.state == DfuDnloadIdle && !n.r.isSecure && !n.r.waitForExit && n.r.flash64KBPage == d.r.flash64KBPage && |n.r.data| == 5
  {
    var dl := RequestedDownload(d.f, d.r.flash64KBPage, packets);
    ProperFirst(packets);
    var r := d.r.(dataSize := |Concat(packets)|);
    FirmwareSize(d.f, d.r.flash64KBPage, packets);
    CommandOf(t, r, d.f, packets[0], bootStart);
    FirmwareReady(d.f, d.r.flash64KBPage, packets);
    AfterCommand(packets);
    var c := CommandTaken(t, r, d.f, packets[0], bootStart);
    LoadedData(packets[0]);
    assert BytesRemaining(c.0) / 2 == |dl.data| / 2;
    hide FirmwareRequest, RequestedDownload, CommandTaken, Received, Finished, DownloadReady, Concat, FirstAddr, LastAddr, Flash.PageErase, BehindCommand, Request.Proper;
    FirmwareReceived(Device(c.0, c.1, d.e), BehindCommand(packets), dl, Concat(packets[1..])[|dl.data|..]);
  }

  lemma LoadedData(first: seq<byte>)
    requires 6 <= |first|
    ensures |first[1..6]| == 5 && first[1..6][0] == first[1]
  {
  }

  lemma AfterCommand(packets: seq<seq<byte>>)
    requires packets != [] && 6 <= |packets[0]|
    ensures BehindCommand(packets) == OutPipe(true, packets[0][6..], packets[1..])
  {
  }

  lemma FirmwareSize(f: Flash, page64: octet, packets: seq<seq<byte>>)
    requires FirmwareRequest(f, page64, packets)
    ensures |packets[0]| == 6 + FILLER_SIZE && packets[0][0] == PROG_START && packets[0][1] == 0x00 && |Concat(packets)| > 6
    ensures var size := |FirmwareOf(packets)|;
      && size == LastAddr(packets[0]) - FirstAddr(packets[0]) + 1 <= 0x1_0000 && FirstAddr(packets[0]) % CONTROL_SIZE == 0
      && |RequestedDownload(f, page64, packets).data| == Arriving(size)
  {
    hide Download.Fits, WordPackets;
  }

  // ---------------------------------------------------------------- which firmware survives

  /** The byte at an address of a flash that carries a finished download. */
  function LeftAt(d: Download, a: nat): byte
    requires 0 < d.pageSize == |d.fill|
  {
    if a < |d.before| then d.Expected(a) else BLANK
  }

  lemma FinishedHolds(d: Download, g: Flash, a: nat)
    requires Finished(d, g)
    ensures g.ReadByte(a) == LeftAt(d, a)
  {
  }

  /** There is such a flash. */
  lemma Carried(d: Download) returns (g: Flash)
    requires d.Fits()
    ensures Finished(d, g)
  {
    g := Flash(d.pageSize, seq(|d.before|, a requires 0 <= a < |d.before| => d.Expected(a)), if d.data == [] then d.fill else Blanks(d.pageSize),
      d.log + if d.data == [] then [Erase(d.firstPage)] else EraseWrite(d.firstPage, d.Pages()));
  }

  /** A range that arrives whole: of an even length below 64KB, and starting on a page or not leaving its first one. */
  predicate ArrivesWhole(pageSize: nat, addr: nat, size: nat)
    requires 0 < pageSize
  {
    size < 0x1_0000 && size % 2 == 0 && (addr % pageSize == 0 || addr % pageSize + size <= pageSize)
  }

  /** Reading the range back gives the firmware. */
  ghost predicate Survives(f: Flash, addr: nat, firmware: seq<byte>)
    requires f.Valid()
  {
    forall g :: Finished(Asked(f, addr, firmware), g) ==> FlashBytes(g, addr, |firmware|) == firmware
  }

  /** Firmware of some length survives, whatever its bytes, exactly when its range arrives whole. */
  lemma FirmwareSurvivesIff(f: Flash, addr: nat, size: nat)
    requires f.Valid() && 0 < size <= 0x1_0000 && Asked(f, addr, Blanks(size)).Fits()
    ensures (forall firmware: seq<byte> | |firmware| == size :: Survives(f, addr, firmware)) <==> ArrivesWhole(f.pageSize, addr, size)
  {
    assert 0 < f.pageSize;
    hide *;
    if ArrivesWhole(f.pageSize, addr, size) {
      forall firmware: seq<byte> | |firmware| == size ensures Survives(f, addr, firmware) {
        SameFit(f, addr, firmware, Blanks(size));
        SurvivesWhole(f, addr, firmware);
      }
    } else {
      var firmware := Victim(f, addr, size);
      assert !Survives(f, addr, firmware);
    }
  }

  /** Whether a download fits does not depend on its bytes. */
  lemma SameFit(f: Flash, addr: nat, firmware: seq<byte>, other: seq<byte>)
    requires f.Valid() && |firmware| == |other| && Asked(f, addr, other).Fits()
    ensures Asked(f, addr, firmware).Fits()
  {
    ArrivesIn(|firmware|);
    hide Arriving;
  }

  lemma ArrivesIn(size: nat)
    ensures Arriving(size) <= size && (size < 0x1_0000 ==> Arriving(size) == size - size % 2) && Arriving(0x1_0000) == 0
  {
  }

  lemma SurvivesWhole(f: Flash, addr: nat, firmware: seq<byte>)
    requires f.Valid() && Asked(f, addr, firmware).Fits() && ArrivesWhole(f.pageSize, addr, |firmware|)
    ensures Survives(f, addr, firmware)
  {
    ArrivesIn(|firmware|);
    forall g | Finished(Asked(f, addr, firmware), g) ensures FlashBytes(g, addr, |firmware|) == firmware {
      hide *;
      PrefixArrives(f, addr, firmware, g);
    }
  }

  /** From a page start, or inside the first page, the first 2 * (size / 2) bytes get to their addresses. */
  lemma PrefixArrives(f: Flash, addr: nat, firmware: seq<byte>, g: Flash)
    requires f.Valid() && Asked(f, addr, firmware).Fits() && Finished(Asked(f, addr, firmware), g)
    requires addr % f.pageSize == 0 || addr % f.pageSize + Arriving(|firmware|) <= f.pageSize
    ensures Arriving(|firmware|) <= |firmware|
    ensures FlashBytes(g, addr, Arriving(|firmware|)) == firmware[..Arriving(|firmware|)]
  {
    AskedIs(f, addr, firmware);
    ArrivesIn(|firmware|);
    hide *;
    ReadsData(Asked(f, addr, firmware), g);
  }

  lemma AskedIs(f: Flash, addr: nat, firmware: seq<byte>)
    requires f.Valid() && Asked(f, addr, firmware).Fits()
    requires addr % f.pageSize == 0 || addr % f.pageSize + Arriving(|firmware|) <= f.pageSize
    ensures var d := Asked(f, addr, firmware);
      && d.data == firmware[..Arriving(|firmware|)] && |d.data| == Arriving(|firmware|) <= |firmware|
      && addr == d.Base() + d.offset && (d.offset == 0 || d.offset + |d.data| <= d.pageSize)
  {
    ArrivesIn(|firmware|);
    InItsPage(addr, f.pageSize);
    hide Arriving, PageNumber;
  }

  lemma InItsPage(addr: nat, size: nat)
    requires 0 < size
    ensures addr == PageNumber(addr, size) * size + addr % size && addr % size < size
  {
  }

  lemma ReadsData(d: Download, g: Flash)
    requires Finished(d, g) && (d.offset == 0 || d.offset + |d.data| <= d.pageSize)
    ensures FlashBytes(g, d.Base() + d.offset, |d.data|) == d.data
  {
    assert d.Fits();
    forall j | 0 <= j < |d.data| ensures g.ReadByte(d.Base() + d.offset + j) == d.data[j] {
      hide *;
      FinishedHolds(d, g, d.Base() + d.offset + j);
      LandsInPlace(d, j);
    }
    hide Finished;
  }

  /** In an aligned range, and in one inside the first page, every byte lands at its address. */
  lemma LandsInPlace(d: Download, j: nat)
    requires d.Fits() && j < |d.data| && (d.offset == 0 || d.offset + |d.data| <= d.pageSize)
    ensures LeftAt(d, d.Base() + d.offset + j) == d.data[j]
  {
    DataInPages(d);
    if d.offset == 0 {
      AlignedByte(d, j);
    } else {
      InPlace(d, 0, d.offset + j, j);
    }
  }

  lemma AlignedByte(d: Download, j: nat)
    requires d.Fits() && j < |d.data| <= d.Pages() * d.pageSize && d.offset == 0
    ensures LeftAt(d, d.Base() + j) == d.data[j]
  {
    var k, o := Split(j, d.pageSize, d.Pages());
    assert d.Turned(o) == o;
    hide *;
    InPlace(d, k, o, j);
  }

  /** A position as page and offset. */
  lemma Split(j: nat, n: nat, count: nat) returns (k: nat, o: nat)
    requires 0 < n && j < count * n
    ensures k < count && o < n && j == k * n + o
  {
    k, o := j / n, j % n;
    DivBound(j, n, count);
  }

  lemma InPlace(d: Download, k: nat, o: nat, j: nat)
    requires d.Fits() && j < |d.data| && k < d.Pages() && d.offset <= o < d.pageSize && d.offset + j == k * d.pageSize + o
    requires k * d.pageSize + d.Turned(o) == j
    ensures LeftAt(d, d.Base() + d.offset + j) == d.data[j]
  {
    ImageAt(d, k, o);
    assert d.ImageByte(k, o) == d.data[j];
    hide Download.Image, Download.ImageByte, Download.Pages, Download.Turned;
  }

  lemma DataInPages(d: Download)
    requires d.Fits()
    ensures |d.data| <= d.Pages() * d.pageSize && 0 < d.Pages()
  {
    PagesPositive(d);
    if d.data != [] {
      var n := |d.data| + d.pageSize - 1;
      assert n == (n / d.pageSize) * d.pageSize + n % d.pageSize;
    }
  }

  /** The index of a byte that never gets to its address: the last of an odd length, the first that turns around in the page. */
  function Lost(pageSize: nat, addr: nat, size: nat): (j: nat)
    requires 0 < pageSize && 0 < size && !ArrivesWhole(pageSize, addr, size)
    ensures j < size
  {
    if size >= 0x1_0000 then 0 else if size % 2 == 1 then size - 1 else pageSize - addr % pageSize
  }

  /** What is left at its address does not depend on it. */
  lemma LostByte(f: Flash, addr: nat, firmware: seq<byte>, x: byte)
    requires f.Valid() && 0 < |firmware| <= 0x1_0000 && !ArrivesWhole(f.pageSize, addr, |firmware|)
    requires Asked(f, addr, firmware).Fits()
    ensures var j := Lost(f.pageSize, addr, |firmware|);
      LeftAt(Asked(f, addr, firmware[j := x]), addr + j) == LeftAt(Asked(f, addr, firmware), addr + j)
  {
    if |firmware| == 0x1_0000 || |firmware| % 2 == 1 {
      LastByteLost(f, addr, firmware, x);
      hide *;
    } else {
      TurnedByteLost(f, addr, firmware, x);
      hide *;
    }
  }

  lemma LastByteLost(f: Flash, addr: nat, firmware: seq<byte>, x: byte)
    requires f.Valid() && 0 < |firmware| <= 0x1_0000 && (|firmware| == 0x1_0000 || |firmware| % 2 == 1)
    requires !ArrivesWhole(f.pageSize, addr, |firmware|)
    ensures Asked(f, addr, firmware[Lost(f.pageSize, addr, |firmware|) := x]) == Asked(f, addr, firmware)
  {
    var j, n := Lost(f.pageSize, addr, |firmware|), Arriving(|firmware|);
    ArrivesIn(|firmware|);
    assert firmware[j := x][..n] == firmware[..n];
    hide Arriving, Lost, ArrivesWhole;
  }

  lemma TurnedByteLost(f: Flash, addr: nat, firmware: seq<byte>, x: byte)
    requires f.Valid() && 0 < |firmware| < 0x1_0000 && |firmware| % 2 == 0 && !ArrivesWhole(f.pageSize, addr, |firmware|)
    requires Asked(f, addr, firmware).Fits()
    ensures var j := Lost(f.pageSize, addr, |firmware|);
      LeftAt(Asked(f, addr, firmware[j := x]), addr + j) == LeftAt(Asked(f, addr, firmware), addr + j)
  {
    var j, d := Lost(f.pageSize, addr, |firmware|), Asked(f, addr, firmware);
    ArrivesIn(|firmware|);
    InItsPage(addr, f.pageSize);
    assert firmware[..|firmware|] == firmware && firmware[j := x][..|firmware|] == firmware[j := x];
    assert d.data == firmware && Asked(f, addr, firmware[j := x]) == d.(data := firmware[j := x]);
    assert addr == d.Base() + d.offset && j == f.pageSize - d.offset && 0 < d.offset && d.offset + |d.data| > d.pageSize;
    hide *;
    TurnedAround(d, firmware[j := x]);
  }

  /** The address right behind the first page: what is left there is not the byte meant for it. */
  lemma TurnedAround(d: Download, other: seq<byte>)
    requires d.Fits() && d.data != [] && 0 < d.offset && d.offset + |d.data| > d.pageSize
    requires |other| == |d.data| && forall i :: 0 <= i < |other| && i != d.pageSize - d.offset ==> other[i] == d.data[i]
    ensures LeftAt(d.(data := other), d.Base() + d.pageSize) == LeftAt(d, d.Base() + d.pageSize)
  {
    var e := d.(data := other);
    assert d.Pages() == e.Pages() && e.Base() == d.Base();
    PagesPositive(d);
    if d.Pages() == 1 {
      assert d.Pages() * d.pageSize == d.pageSize;
    } else {
      MulMono(2, d.Pages(), d.pageSize);
      ImageAt(d, 1, 0);
      ImageAt(e, 1, 0);
    }
    hide Download.Image, Download.Pages;
  }

  /** Firmware that does not survive in a range that does not arrive whole. */
  lemma Victim(f: Flash, addr: nat, size: nat) returns (firmware: seq<byte>)
    requires f.Valid() && 0 < size <= 0x1_0000 && Asked(f, addr, Blanks(size)).Fits() && !ArrivesWhole(f.pageSize, addr, size)
    ensures |firmware| == size && !Survives(f, addr, firmware)
  {
    var zeros: seq<byte> := seq(size, _ => 0);
    var j := Lost(f.pageSize, addr, size);
    var one := zeros[j := 1];
    SameFit(f, addr, zeros, Blanks(size));
    SameFit(f, addr, one, Blanks(size));
    LostByte(f, addr, zeros, 1);
    assert zeros[j] == 0 && one[j] == 1 && |one| == |zeros| == size;
    hide *;
    var g := Carried(Asked(f, addr, zeros));
    var h := Carried(Asked(f, addr, one));
    FinishedHolds(Asked(f, addr, zeros), g, addr + j);
    FinishedHolds(Asked(f, addr, one), h, addr + j);
    firmware := if g.ReadByte(addr + j) == 0 then one else zeros;
    if Survives(f, addr, zeros) {
      NotBack(f, addr, zeros, g, j);
    }
    if Survives(f, addr, one) {
      NotBack(f, addr, one, h, j);
    }
  }

  lemma NotBack(f: Flash, addr: nat, firmware: seq<byte>, g: Flash, j: nat)
    requires f.Valid() && Finished(Asked(f, addr, firmware), g) && j < |firmware| && Survives(f, addr, firmware)
    ensures g.ReadByte(addr + j) == firmware[j]
  {
    assert FlashBytes(g, addr, |firmware|)[j] == firmware[j];
  }

  // ---------------------------------------------------------------- EEPROM

  /** `n - left` bytes of the stream are in the EEPROM. */
  ghost predicate InEeprom(s: ByteLoop, left: nat, before: seq<byte>, start: nat, stream: seq<byte>, n: nat) {
    && left <= n <= |stream| && start + n <= |before| <= 0x1_0000
    && NonEmpty(s.p.pending) && s.p.Stream() == stream[n - left..]
    && s.addr == (start + n - left) % 0x1_0000 && s.e == Splice(before, start, stream[..n - left])
  }

  lemma ByteStep(s: ByteLoop, left: nat, before: seq<byte>, start: nat, stream: seq<byte>, n: nat)
    requires InEeprom(s, left, before, start, stream, n) && 0 < left
    ensures !HostGone(s.p) && InEeprom(OneByte(s.(p := NextBank(s.p))), left - 1, before, start, stream, n)
  {
    var k := n - left;
    NextByte(s.p, stream, k);
    SpliceGrows(before, start, stream, k);
    assert s.addr == start + k;
    hide Splice, NextBank, AfterByte, BankByte, OutPipe.Stream;
  }

  /** The next byte of the stream, over the packets. */
  lemma NextByte(p: OutPipe, stream: seq<byte>, k: nat)
    requires NonEmpty(p.pending) && k < |stream| && p.Stream() == stream[k..]
    ensures !HostGone(p) && NonEmpty(AfterByte(NextBank(p)).pending)
    ensures BankByte(NextBank(p), 0) == stream[k] && AfterByte(NextBank(p)).Stream() == stream[k + 1..]
  {
    var q := NextBank(p);
    var rest := stream[k..];
    assert q.Stream() == p.Stream() == rest && q.bank != [];
    FirstOff(q);
  }

  /** Reading the first byte of a bank takes it off the stream. */
  lemma FirstOff(q: OutPipe)
    requires q.bank != []
    ensures q.Stream() != [] && BankByte(q, 0) == q.Stream()[0] && AfterByte(q).Stream() == q.Stream()[1..]
  {
  }

  lemma SpliceGrows(before: seq<byte>, start: nat, stream: seq<byte>, k: nat)
    requires k < |stream| && start + k + 1 <= |before|
    ensures Splice(before, start, stream[..k])[start + k := stream[k]] == Splice(before, start, stream[..k + 1])
  {
    var old', new' := Splice(before, start, stream[..k])[start + k := stream[k]], Splice(before, start, stream[..k + 1]);
    forall i | 0 <= i < |before| ensures old'[i] == new'[i] {
      SplicedAt(before, start, stream[..k], i);
      SplicedAt(before, start, stream[..k + 1], i);
    }
  }

  /** The whole loop, for any packets. */
  lemma {:induction false} BytesFinish(s: ByteLoop, left: nat, before: seq<byte>, start: nat, stream: seq<byte>, n: nat)
    requires InEeprom(s, left, before, start, stream, n)
    ensures BytesWritten(s, left).1 && InEeprom(BytesWritten(s, left).0, 0, before, start, stream, n)
    decreases left
  {
    if 0 < left {
      ByteStep(s, left, before, start, stream, n);
      hide InEeprom, OneByte, NextBank;
      BytesFinish(OneByte(s.(p := NextBank(s.p))), left - 1, before, start, stream, n);
    }
  }

  /** The EEPROM loop puts the next n bytes of the stream at the start address, for any packets. */
  lemma EepromWritten(s: ByteLoop, n: nat)
    requires NonEmpty(s.p.pending) && n <= |s.p.Stream()| && s.addr + n <= |s.e| <= 0x1_0000 && s.addr < 0x1_0000
    ensures var w := BytesWritten(s, n);
      && w.1 && w.0.e == Splice(s.e, s.addr, s.p.Stream()[..n]) && w.0.p.Stream() == s.p.Stream()[n..]
      && w.0.addr == (s.addr + n) % 0x1_0000
  {
    var stream := s.p.Stream();
    assert stream[..0] == [] && stream[0..] == stream && Splice(s.e, s.addr, []) == s.e;
    BytesFinish(s, n, s.e, s.addr, stream, n);
  }

  /** The filler is gone, and the data and the suffix are next. */
  lemma DataNext(r: Registers, first: seq<byte>, rest: seq<seq<byte>>)
    requires |first| == FILLER_SIZE && r.startAddr % CONTROL_SIZE == 0
    ensures AtData(r, OutPipe(true, first, rest)).Stream() == Concat(rest) && AtData(r, OutPipe(true, first, rest)).pending == rest
  {
    var p := OutPipe(true, first, rest);
    DiscardInBank(p, FILLER_SIZE);
    EmptyBank(p.AfterRead(FILLER_SIZE));
  }

  /** An EEPROM request puts its bytes into the EEPROM, and touches nothing else. */
  lemma EepromDownloaded(t: Tables, d: Device, packets: seq<seq<byte>>, bootStart: nat)
    requires |d.r.data| == 5 && d.f.Valid() && Dnload(packets).Proper() && !d.r.isSecure && !d.r.waitForExit
    requires EepromRequest(d.e, packets)
    ensures var n := Step(t, d, Dnload(packets), bootStart).0;
      && n.e == EepromAfter(d.e, packets) && n.f == d.f
      && n.r.state == DfuDnloadIdle && !n.r.isSecure && !n.r.waitForExit && n.r.flash64KBPage == d.r.flash64KBPage && |n.r.data| == 5
  {
    ProperFirst(packets);
    EepromShape(d.e, packets);
    var r := d.r.(dataSize := |Concat(packets)|);
    CommandOf(t, r, d.f, packets[0], bootStart);
    AfterCommand(packets);
    LoadedData(packets[0]);
    ProperRest(packets);
    var c := CommandTaken(t, r, d.f, packets[0], bootStart);
    hide EepromRequest, CommandTaken, Received, Concat, FirstAddr, LastAddr, BehindCommand, Request.Proper, EepromAfter;
    EepromReceived(Device(c.0, c.1, d.e), packets);
  }

  /** The EEPROM with the bytes of the request. */
  ghost function EepromAfter(e: seq<byte>, packets: seq<seq<byte>>): seq<byte>
    requires EepromRequest(e, packets)
  {
    Splice(e, FirstAddr(packets[0]), EepromData(e, packets))
  }

  ghost function EepromData(e: seq<byte>, packets: seq<seq<byte>>): seq<byte>
    requires EepromRequest(e, packets)
  {
    Concat(packets[1..])[..LastAddr(packets[0]) - FirstAddr(packets[0]) + 1]
  }

  lemma EepromShape(e: seq<byte>, packets: seq<seq<byte>>)
    requires EepromRequest(e, packets)
    ensures |packets[0]| == 6 + FILLER_SIZE && packets[0][0] == PROG_START && packets[0][1] == 0x01
    ensures |Concat(packets)| == 6 + FILLER_SIZE + |Concat(packets[1..])|
  {
  }

  lemma ProperRest(packets: seq<seq<byte>>)
    requires Dnload(packets).Proper() && packets != []
    ensures NonEmpty(packets[1..])
  {
  }

  lemma EepromReceived(d: Device, packets: seq<seq<byte>>)
    requires |d.r.data| == 5 && d.f.Valid() && d.r.data[0] == 0x01 && d.r.state == DfuDnloadIdle && 0 < d.r.dataSize
    requires EepromRequest(d.e, packets) && NonEmpty(packets[1..])
    requires d.r.startAddr == FirstAddr(packets[0]) && d.r.endAddr == LastAddr(packets[0])
    ensures var n := Received(d, OutPipe(true, packets[0][6..], packets[1..]));
      n == d.(e := EepromAfter(d.e, packets), r := d.r.(startAddr := n.r.startAddr))
  {
    var size := LastAddr(packets[0]) - FirstAddr(packets[0]) + 1;
    EepromFits(d.e, packets);
    DataNext(d.r, packets[0][6..], packets[1..]);
    var q := AtData(d.r, OutPipe(true, packets[0][6..], packets[1..]));
    assert Received(d, OutPipe(true, packets[0][6..], packets[1..])) == EepromPart(d, q);
    assert EepromAfter(d.e, packets) == Splice(d.e, d.r.startAddr, Concat(packets[1..])[..size]);
    hide Received, EepromAfter, AtData, OutPipe.Stream, Concat, FirstAddr, LastAddr, Splice, BytesRemaining, EepromPart, EepromRequest;
    DownloadLength(d.r, size);
    EepromFilled(d, q, size);
  }

  lemma EepromFits(e: seq<byte>, packets: seq<seq<byte>>)
    requires EepromRequest(e, packets)
    ensures |packets[0]| == 6 + FILLER_SIZE && FirstAddr(packets[0]) <= LastAddr(packets[0]) < |e| <= 0x1_0000
    ensures FirstAddr(packets[0]) % CONTROL_SIZE == 0
    ensures var size := LastAddr(packets[0]) - FirstAddr(packets[0]) + 1; size < 0x1_0000 && size <= |Concat(packets[1..])|
  {
    hide Word, Concat;
  }

  lemma EepromFilled(d: Device, q: OutPipe, size: nat)
    requires BytesRemaining(d.r) == size <= |q.Stream()| && NonEmpty(q.pending)
    requires d.r.startAddr + size <= |d.e| <= 0x1_0000 && d.r.startAddr < 0x1_0000
    ensures var n := EepromPart(d, q);
      n == d.(e := Splice(d.e, d.r.startAddr, q.Stream()[..size]), r := d.r.(startAddr := n.r.startAddr))
  {
    hide BytesWritten, Splice, OutPipe.Stream, BytesRemaining;
    EepromWritten(ByteLoop(d.e, q, d.r.startAddr), size);
  }

  // ---------------------------------------------------------------- requests without data

  /** The empty DNLOAD request ends a download. */
  lemma DownloadEnds(t: Tables, d: Device, bootStart: nat)
    requires |d.r.data| == 5 && d.f.Valid() && !d.r.waitForExit && d.r.state == DfuDnloadIdle
    ensures Step(t, d, Dnload([]), bootStart) == (d.(r := d.r.(dataSize := 0, state := DfuIdle)), [])
  {
  }

  /** A read request sets up an upload of the range, and touches no memory. */
  lemma ReadStarts(t: Tables, d: Device, packets: seq<seq<byte>>, memory: byte, bootStart: nat)
    requires |d.r.data| == 5 && d.f.Valid() && Dnload(packets).Proper() && !d.r.isSecure && !d.r.waitForExit
    requires ReadRequest(packets, memory) && memory in {0x00, 0x02}
    ensures var n := Step(t, d, Dnload(packets), bootStart).0;
      && n.f == d.f && n.e == d.e && n.r.state == DfuUploadIdle && |n.r.data| == 5 && n.r.data[0] == memory
      && n.r.startAddr == FirstAddr(packets[0]) && n.r.endAddr == LastAddr(packets[0]) && n.r.flash64KBPage == d.r.flash64KBPage
  {
    ProperFirst(packets);
    SentWhole(packets);
    CommandOf(t, d.r.(dataSize := |Concat(packets)|), d.f, packets[0], bootStart);
    LoadedData(packets[0]);
    hide CommandTaken, Concat, FirstAddr, LastAddr, BehindCommand, Request.Proper;
  }

  lemma SentWhole(packets: seq<seq<byte>>)
    requires |packets| == 1
    ensures Concat(packets) == packets[0]
  {
    assert packets[1..] == [];
  }

  // ---------------------------------------------------------------- ranges of 64KB

  /** A range from 0 to 0xFFFF has the 16-bit length zero: nothing of it is written or read. */
  lemma FullRangeSkipped(d: Device, p: OutPipe)
    requires |d.r.data| == 5 && d.f.Valid() && d.r.startAddr == 0 && d.r.endAddr == 0xFFFF
    ensures Received(d, p).f == d.f && Received(d, p).e == d.e
    ensures d.r.state == DfuUploadIdle ==> UploadAnswer(d.r, d.f, d.e) == []
  {
    assert BytesRemaining(d.r) == 0;
  }

  // ---------------------------------------------------------------- the chip erase

  /** Below `end`, a flash whose pages have been erased and written: what was in the fill buffer, and blank pages after it. */
  ghost predicate Erased(was: Flash, after: seq<byte>, end: nat) {
    && |after| == |was.memory| && |was.fill| == was.pageSize
    && forall a :: 0 <= a < |after| ==>
      after[a] == if end <= a then was.memory[a] else if a < was.pageSize then was.fill[a] else BLANK
  }

  /** The erase loop, `page` pages in. */
  ghost predicate Erasing(f: Flash, was: Flash, page: nat) {
    && f.pageSize == was.pageSize && f.log == was.log + EraseWrite(0, page)
    && Erased(was, f.memory, page * f.pageSize) && f.fill == if page == 0 then was.fill else Blanks(f.pageSize)
  }

  lemma EraseStarts(f: Flash)
    requires f.Valid()
    ensures Erasing(f, f, 0)
  {
  }

  lemma EraseInRange(page: nat, size: nat, bootStart: nat)
    requires 0 < size && bootStart % size == 0 && page * size < bootStart
    ensures (page + 1) * size == page * size + size <= bootStart
  {
    MulStep(page, size);
    var pages := bootStart / size;
    assert bootStart == pages * size;
    if pages <= page {
      MulMono(pages, page, size);
    }
    MulMono(page + 1, pages, size);
  }

  lemma EraseEnds(page: nat, size: nat, bootStart: nat)
    requires 0 < size && page * size == bootStart
    ensures bootStart / size == page
  {
    DivUnique(bootStart, size, page, 0);
  }

  /** One pass of the erase loop. */
  lemma EraseStep(f: Flash, was: Flash, page: nat)
    requires f.Valid() && Erasing(f, was, page) && f.HasPage(page)
    ensures |f.PageErase(page * f.pageSize).fill| == f.PageErase(page * f.pageSize).pageSize
    ensures Erasing(f.PageErase(page * f.pageSize).PageWrite(page * f.pageSize), was, page + 1)
  {
    ErasingMeans(f, was, page);
    var start := page * f.pageSize;
    assert start == page * was.pageSize;
    hide *;
    PageRewritten(f, page, start);
    EraseLog(was.log, page);
    var g := f.PageErase(start).PageWrite(start);
    ErasedMore(was, f.memory, g.memory, f.fill, page, start);
    ErasingNext(g, was, page + 1);
  }

  lemma ErasingMeans(f: Flash, was: Flash, page: nat)
    requires Erasing(f, was, page)
    ensures f.pageSize == was.pageSize && f.log == was.log + EraseWrite(0, page) && |f.fill| == |was.fill| == was.pageSize
    ensures Erased(was, f.memory, page * f.pageSize) && f.fill == if page == 0 then was.fill else Blanks(f.pageSize)
  {
  }

  lemma ErasingNext(f: Flash, was: Flash, page: nat)
    requires f.pageSize == was.pageSize && f.log == was.log + EraseWrite(0, page) && 0 < page
    requires Erased(was, f.memory, page * was.pageSize) && f.fill == Blanks(f.pageSize)
    ensures Erasing(f, was, page)
  {
  }

  /** A page erased and written takes over the fill buffer. */
  lemma PageRewritten(f: Flash, page: nat, start: nat)
    requires f.Valid() && f.HasPage(page) && start == page * f.pageSize
    ensures var g := f.PageErase(start).PageWrite(start);
      && g.pageSize == f.pageSize && g.fill == Blanks(f.pageSize) && g.log == f.log + [Erase(page)] + [Write(page)]
      && |g.memory| == |f.memory| && Rewritten(f.memory, g.memory, f.fill, start, f.pageSize)
  {
    var size := f.pageSize;
    ErasedPage(f, page);
    var e := f.PageErase(start);
    forall a | start <= a < start + size ensures e.memory[a] == BLANK {
      SplicedAt(f.memory, start, Blanks(size), a);
    }
    BlankPageWritten(e, page);
    var g := e.PageWrite(start);
    hide Flash.PageErase, Flash.PageWrite, Splice;
    forall a | 0 <= a < |g.memory| ensures g.memory[a] == if start <= a < start + size then f.fill[a - start] else f.memory[a] {
      SplicedAt(f.memory, start, Blanks(size), a);
      SplicedAt(e.memory, start, f.fill, a);
    }
  }

  /** One page of a memory replaced. */
  ghost predicate Rewritten(before: seq<byte>, after: seq<byte>, fill: seq<byte>, start: nat, size: nat)
    requires |fill| == size
  {
    && |after| == |before|
    && forall a :: 0 <= a < |after| ==> after[a] == if start <= a < start + size then fill[a - start] else before[a]
  }

  lemma ErasedMore(was: Flash, before: seq<byte>, after: seq<byte>, fill: seq<byte>, page: nat, start: nat)
    requires start == page * was.pageSize && |fill| == |was.fill| == was.pageSize && Erased(was, before, start)
    requires fill == (if page == 0 then was.fill else Blanks(was.pageSize)) && Rewritten(before, after, fill, start, was.pageSize)
    ensures Erased(was, after, (page + 1) * was.pageSize)
  {
    hide *;
    MulStep(page, was.pageSize);
    if 0 < page {
      MulMono(1, page, was.pageSize);
      LaterErased(was, before, after, start);
    } else {
      FirstErased(was, before, after);
    }
  }

  lemma FirstErased(was: Flash, before: seq<byte>, after: seq<byte>)
    requires |was.fill| == was.pageSize && Erased(was, before, 0) && Rewritten(before, after, was.fill, 0, was.pageSize)
    ensures Erased(was, after, was.pageSize)
  {
  }

  lemma LaterErased(was: Flash, before: seq<byte>, after: seq<byte>, start: nat)
    requires |was.fill| == was.pageSize <= start && Erased(was, before, start)
    requires Rewritten(before, after, Blanks(was.pageSize), start, was.pageSize)
    ensures Erased(was, after, start + was.pageSize)
  {
  }

  lemma EraseLog(log: seq<PageOp>, page: nat)
    ensures log + EraseWrite(0, page) + [Erase(page)] + [Write(page)] == log + EraseWrite(0, page + 1)
  {
    assert EraseWrite(0, page + 1) == EraseWrite(0, page) + [Erase(page), Write(page)];
  }

  lemma ErasedPage(f: Flash, page: nat)
    requires f.Valid() && f.HasPage(page)
    ensures f.PageErase(page * f.pageSize) == f.(memory := Splice(f.memory, page * f.pageSize, Blanks(f.pageSize)), log := f.log + [Erase(page)])
  {
    PageOf(page, 0, f.pageSize);
  }

  lemma {:induction false} EraseLoop(f: Flash, was: Flash, page: nat, bootStart: nat)
    requires f.Valid() && bootStart <= |f.memory| && bootStart % f.pageSize == 0 && page * f.pageSize <= bootStart
    requires Erasing(f, was, page)
    ensures Erasing(ErasedFrom(f, page * f.pageSize, bootStart), was, bootStart / f.pageSize)
    decreases bootStart - page * f.pageSize
  {
    if page * f.pageSize == bootStart {
      EraseEnds(page, f.pageSize, bootStart);
    } else {
      EraseInRange(page, f.pageSize, bootStart);
      EraseStep(f, was, page);
      var at := page * f.pageSize;
      hide Erasing, Flash.PageErase, Flash.PageWrite;
      EraseLoop(f.PageErase(at).PageWrite(at), was, page + 1, bootStart);
    }
  }

  /**
   * The whole chip erase: every application page erased and written once, the first with what the fill buffer held,
   * the others blank, nothing else touched.
   */
  lemma ChipErased(f: Flash, bootStart: nat)
    requires f.Valid() && bootStart <= |f.memory| && bootStart % f.pageSize == 0
    ensures var g := ErasedFrom(f, 0, bootStart);
      && Erased(f, g.memory, bootStart) && g.log == f.log + EraseWrite(0, bootStart / f.pageSize)
      && (0 < bootStart ==> g.FillClear())
  {
    EraseStarts(f);
    var pages := bootStart / f.pageSize;
    assert pages * f.pageSize == bootStart;
    assert 0 * f.pageSize == 0;
    hide Erased, EraseWrite;
    EraseLoop(f, f, 0, bootStart);
  }

  /** So the application is blank exactly when the fill buffer was clear. */
  lemma BlankIff(was: Flash, after: seq<byte>, bootStart: nat)
    requires was.Valid() && Erased(was, after, bootStart) && bootStart <= |after| && bootStart % was.pageSize == 0
    ensures BlankRange(after, 0, bootStart) <==> bootStart == 0 || was.FillClear()
  {
    if 0 < bootStart {
      EraseInRange(0, was.pageSize, bootStart);
      if BlankRange(after, 0, bootStart) {
        forall i | 0 <= i < was.pageSize ensures was.fill[i] == BLANK {
          assert after[i] == was.fill[i];
        }
      }
    }
  }

  // ---------------------------------------------------------------- secure mode

  /** What a request to a secure bootloader may do to the memories. */
  ghost predicate Protected(before: Flash, after: Flash, eepromBefore: seq<byte>, eepromAfter: seq<byte>, isSecure: bool, bootStart: nat) {
    && eepromAfter == eepromBefore
    && (isSecure ==> after == before)
    && (!isSecure ==> Erased(before, after.memory, bootStart))
  }

  /** One request to a secure bootloader: a step of the registers alone, and the memories stay or are blanked. */
  lemma SecureRequest(t: Tables, d: Device, request: Request, bootStart: nat)
    requires SecureOk(d.r) && d.r.isSecure && d.f.Valid() && request.Proper()
    requires bootStart <= |d.f.memory| && bootStart % d.f.pageSize == 0
    ensures var n := Step(t, d, request, bootStart);
      (n.0.r, n.1) == SecureStep(t, d.r, request) && Protected(d.f, n.0.f, d.e, n.0.e, n.0.r.isSecure, bootStart)
  {
    if request.Dnload? {
      SecureDnload(t, d.(r := d.r.(dataSize := request.Length())), request.packets, bootStart);
    }
  }

  lemma SecureDnload(t: Tables, d: Device, packets: seq<seq<byte>>, bootStart: nat)
    requires SecureOk(d.r) && d.r.isSecure && d.f.Valid() && Dnload(packets).Proper() && d.r.dataSize == |Concat(packets)|
    requires bootStart <= |d.f.memory| && bootStart % d.f.pageSize == 0 && (Concat(packets) != [] ==> packets != [] && packets[0] != [])
    ensures var n := Dnloaded(t, d, packets, bootStart);
      n.r == SecureStep(t, d.r, Dnload(packets)).0 && Protected(d.f, n.f, d.e, n.e, n.r.isSecure, bootStart)
  {
    ProperFirst(packets);
    if d.r.dataSize != 0 {
      SecureTaken(t, Loaded(d.r, packets[0], d.r.dataSize), d.f, bootStart);
    }
    hide Protected, Loaded, Commanded, SecureCommand, BehindCommand, Concat;
    if d.r.dataSize == 0 {
      StaysProtected(d.f, d.e, bootStart);
    }
  }

  lemma StaysProtected(f: Flash, e: seq<byte>, bootStart: nat)
    ensures Protected(f, f, e, e, true, bootStart)
  {
  }

  lemma SecureTaken(t: Tables, r: Registers, f: Flash, bootStart: nat)
    requires |r.data| == 5 && r.isSecure && r.state in {DfuIdle, DfuError} && !r.waitForExit && f.Valid()
    requires bootStart <= |f.memory| && bootStart % f.pageSize == 0
    ensures var c := Commanded(t, r, f, bootStart);
      && c.0 == SecureCommand(t, r) && c.0.state in {DfuIdle, DfuError}
      && forall e: seq<byte> :: Protected(f, c.1, e, e, c.0.isSecure, bootStart)
  {
    ChipErased(f, bootStart);
    hide ErasedFrom, Erased, ReadCommand, Flash.FillClear;
  }
}
