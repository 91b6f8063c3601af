/** Downloads of the DFU bootloader that the host does not finish: what is in the memories, and what is left of the range. */
module DfuInterrupted {
  import opened Arith
  import opened AvrFlash
  import opened Bytes
  import opened DfuDownloads
  import opened DfuFlash
  import opened DfuProtocol
  import opened Endpoint

  /** The packets had the host sent more. */
  function More(p: OutPipe, missing: seq<seq<byte>>): OutPipe {
    p.(pending := p.pending + missing)
  }

  // ---------------------------------------------------------------- flash

  /** The pages whose words all arrived hold them, the page under way is blank, and the others are as they were. */
  ghost predicate CutOff(d: Download, f: Flash, received: nat) {
    0 < d.pageSize == |d.fill| && MemoryDuring(d, f.memory, d.firstPage + PageNumber(received, d.pageSize))
  }

  lemma WordCutOff(d: Download, s: WordLoop, k: nat, left: nat, missing: seq<seq<byte>>, suffix: seq<byte>)
    requires InDownload(d, s.(p := More(s.p, missing)), k, left, suffix) && |s.p.Stream()| < 2 * left && !HostGone(s.p)
    ensures 1 < left && s.f.Valid()
    ensures var n := OneWord(s.(p := NextBank(s.p)), left - 1);
      && InDownload(d, n.(p := More(n.p, missing)), if n.count == 0 then k + 1 else k, left - 1, suffix)
      && |n.p.Stream()| + 2 == |s.p.Stream()|
  {
    var whole := s.(p := More(s.p, missing));
    assert 0 < left;
    SameBank(s.p, missing);
    hide InDownload, OneWord, OutPipe.Stream, More, NextBank, AfterWord;
    PacketReady(d, whole, k, left, suffix);
    assert whole.(p := NextBank(whole.p)) == s.(p := More(NextBank(s.p), missing));
    WordStep(d, s.(p := More(NextBank(s.p), missing)), k, left - 1, suffix);
    SameWord(s.(p := NextBank(s.p)), left - 1, missing);
  }

  lemma SameBank(p: OutPipe, missing: seq<seq<byte>>)
    requires !HostGone(p)
    ensures NextBank(More(p, missing)) == More(NextBank(p), missing)
    ensures NextBank(p).Stream() == p.Stream() && (2 <= |NextBank(p).bank| ==> |AfterWord(NextBank(p)).Stream()| + 2 == |p.Stream()|)
    ensures NextBank(p).bank == More(NextBank(p), missing).bank && |NextBank(p).bank| <= |p.Stream()|
  {
    assert p.bank == [] ==> (p.pending + missing)[1..] == p.pending[1..] + missing;
    assert p.bank == [] ==> [] + Concat(p.pending) == p.pending[0] + Concat(p.pending[1..]);
  }

  lemma SameWord(s: WordLoop, left: nat, missing: seq<seq<byte>>)
    requires s.f.Valid()
    ensures OneWord(s.(p := More(s.p, missing)), left) == var n := OneWord(s, left); n.(p := More(n.p, missing))
    ensures OneWord(s, left).p == AfterWord(s.p)
  {
    hide Flash.PageFill, Flash.PageWrite, Flash.PageErase;
  }

  lemma {:induction false} WordsCutOff(d: Download, s: WordLoop, k: nat, left: nat, missing: seq<seq<byte>>, suffix: seq<byte>)
    requires InDownload(d, s.(p := More(s.p, missing)), k, left, suffix) && |s.p.Stream()| < 2 * left
    ensures s.f.Valid()
    ensures var n := WordsWritten(s, left);
      !n.1 && CutOff(d, n.0.f, |d.data| - 2 * left + |s.p.Stream()|)
    decreases left
  {
    hide *;
    if HostGone(s.p) {
      GoneNow(d, s, k, left, missing, suffix);
    } else {
      WordCutOff(d, s, k, left, missing, suffix);
      WordsUnroll(s, left);
      var n := OneWord(s.(p := NextBank(s.p)), left - 1);
      WordsCutOff(d, n, if n.count == 0 then k + 1 else k, left - 1, missing, suffix);
    }
  }

  lemma GoneNow(d: Download, s: WordLoop, k: nat, left: nat, missing: seq<seq<byte>>, suffix: seq<byte>)
    requires InDownload(d, s.(p := More(s.p, missing)), k, left, suffix) && 0 < left && HostGone(s.p)
    ensures s.f.Valid() && WordsWritten(s, left) == (s.(p := s.p.Clear()), false)
    ensures s.p.Stream() == [] && 0 <= |d.data| - 2 * left && CutOff(d, s.f, |d.data| - 2 * left)
  {
    assert Behind(d, k, 2 * s.count) == |d.data| - 2 * left;
    InDownloadMeans(d, s.(p := More(s.p, missing)), k, left, suffix);
    DivUnique(|d.data| - 2 * left, d.pageSize, k, 2 * s.count);
    hide d.Fits, MemoryDuring, FillDuring;
  }

  /**
   * The host goes away in the middle of a firmware download: of the pages of the range, those received whole are
   * programmed, the one under way is blank, the others are untouched. The range left is the whole range.
   */
  lemma FirmwareCutOff(d: Device, p: OutPipe, dl: Download, missing: seq<seq<byte>>, suffix: seq<byte>)
    requires |d.r.data| == 5 && d.r.data[0] == 0x00 && d.r.state == DfuDnloadIdle && 0 < d.r.dataSize && d.f.Valid()
    requires DownloadReady(dl, d.f, More(p, missing), suffix) && LongAddress(d.r.startAddr, d.r.flash64KBPage) == dl.Base() + dl.offset
    requires d.r.startAddr % CONTROL_SIZE == 0 && BytesRemaining(d.r) / 2 == |dl.data| / 2 && |Concat(p.pending)| < |dl.data|
    ensures var n := Received(d, p); n == d.(f := n.f) && CutOff(dl, n.f, |Concat(p.pending)|)
  {
    assert Received(d, p) == FlashPart(d, AtData(d.r, p)) && |p.bank| == FILLER_SIZE;
    hide *;
    FillerFirst(d.r, p, missing);
    FillerGone(dl, d.f, More(p, missing), suffix);
    FlashCutOff(d, AtData(d.r, p), dl, missing, suffix);
  }

  lemma FlashCutOff(d: Device, q: OutPipe, dl: Download, missing: seq<seq<byte>>, suffix: seq<byte>)
    requires d.f.Valid() && Writing(dl, d.f, 0, 0) && WordPackets(More(q, missing)) && More(q, missing).Stream() == dl.data + suffix
    requires LongAddress(d.r.startAddr, d.r.flash64KBPage) == dl.Base() + dl.offset
    requires BytesRemaining(d.r) / 2 == |dl.data| / 2 && |q.Stream()| < |dl.data|
    ensures var n := FlashPart(d, q); n == d.(f := n.f) && CutOff(dl, n.f, |q.Stream()|)
  {
    var start := dl.Base() + dl.offset;
    var s := WordLoop(d.f, q, start, start, 0);
    FlashPartEnds(d, q, start);
    hide *;
    LoopStarts(dl, d.f, More(q, missing), suffix);
    assert s.(p := More(q, missing)) == WordLoop(d.f, More(q, missing), start, start, 0);
    WordsCutOff(dl, s, 0, |dl.data| / 2, missing, suffix);
  }

  /** Only a range that was received whole moves the start address. */
  lemma FlashPartEnds(d: Device, q: OutPipe, start: nat)
    requires d.f.Valid() && start == LongAddress(d.r.startAddr, d.r.flash64KBPage)
    ensures var n := WordsWritten(WordLoop(d.f, q, start, start, 0), BytesRemaining(d.r) / 2);
      FlashPart(d, q) == d.(f := n.0.f, r := d.r.(startAddr := if n.1 then d.r.endAddr else d.r.startAddr))
  {
    hide WordsWritten, BytesRemaining;
  }

  lemma FillerFirst(r: Registers, p: OutPipe, missing: seq<seq<byte>>)
    requires |p.bank| == FILLER_SIZE && r.startAddr % CONTROL_SIZE == 0
    ensures AtData(r, p) == p.AfterRead(FILLER_SIZE) && AtData(r, p).Stream() == Concat(p.pending) && AtData(r, p).pending == p.pending
    ensures Discarded(More(p, missing), FILLER_SIZE) == More(AtData(r, p), missing)
  {
    DiscardInBank(p, FILLER_SIZE);
    DiscardInBank(More(p, missing), FILLER_SIZE);
    EmptyBank(p.AfterRead(FILLER_SIZE));
    assert More(p, missing).AfterRead(FILLER_SIZE) == More(p.AfterRead(FILLER_SIZE), missing);
    hide Discarded, OutPipe.Stream, Concat;
  }

  // ---------------------------------------------------------------- EEPROM

  /** Bytes that do not come: the loop stops where the stream does. */
  lemma {:induction false} BytesCutOff(s: ByteLoop, left: nat)
    requires NonEmpty(s.p.pending) && |s.p.Stream()| < left && s.addr + |s.p.Stream()| <= |s.e| <= 0x1_0000 && s.addr < 0x1_0000
    ensures var w := BytesWritten(s, left);
      !w.1 && w.0.e == Splice(s.e, s.addr, s.p.Stream()) && w.0.addr == (s.addr + |s.p.Stream()|) % 0x1_0000
  {
    var stream := s.p.Stream();
    assert stream[..0] == [] && stream[0..] == stream && stream[..|stream|] == stream && Splice(s.e, s.addr, []) == s.e;
    hide BytesWritten, Splice;
    BytesStop(s, |stream|, left - |stream|, s.e, s.addr, stream);
  }

  lemma {:induction false} BytesStop(s: ByteLoop, left: nat, over: nat, before: seq<byte>, start: nat, stream: seq<byte>)
    requires InEeprom(s, left, before, start, stream, |stream|) && 0 < over
    ensures var w := BytesWritten(s, left + over);
      !w.1 && w.0.e == Splice(before, start, stream) && w.0.addr == (start + |stream|) % 0x1_0000
    decreases left
  {
    if 0 < left {
      ByteStep(s, left, before, start, stream, |stream|);
      hide InEeprom, OneByte, NextBank;
      BytesStop(OneByte(s.(p := NextBank(s.p))), left - 1, over, before, start, stream);
    } else {
      assert stream[..|stream|] == stream && s.p.Stream() == [];
      NoneLeft(s.p);
    }
  }

  lemma NoneLeft(p: OutPipe)
    requires NonEmpty(p.pending) && p.Stream() == []
    ensures HostGone(p)
  {
  }

  /** The host goes away in the middle of an EEPROM download: what came is written, and the range left is what did not come. */
  lemma EepromCutOff(d: Device, p: OutPipe)
    requires |d.r.data| == 5 && d.r.data[0] == 0x01 && d.r.state == DfuDnloadIdle && 0 < d.r.dataSize && d.f.Valid()
    requires |p.bank| == FILLER_SIZE && NonEmpty(p.pending) && d.r.startAddr % CONTROL_SIZE == 0
    requires d.r.endAddr < |d.e| <= 0x1_0000 && |Concat(p.pending)| < BytesRemaining(d.r) == d.r.endAddr - d.r.startAddr + 1
    ensures var n, came := Received(d, p), Concat(p.pending);
      && n == d.(e := Splice(d.e, d.r.startAddr, came), r := d.r.(startAddr := d.r.startAddr + |came|))
      && BytesRemaining(n.r) == BytesRemaining(d.r) - |came|
  {
    hide *;
    var q, came, size := AtData(d.r, p), Concat(p.pending), BytesRemaining(d.r);
    EepromBranch(d, p);
    FillerFirst(d.r, p, []);
    BytesCutOff(ByteLoop(d.e, q, d.r.startAddr), size);
    RangeLeft(d.r, |came|);
  }

  lemma EepromBranch(d: Device, p: OutPipe)
    requires |d.r.data| == 5 && d.r.data[0] == 0x01 && d.r.state == DfuDnloadIdle && 0 < d.r.dataSize && d.f.Valid()
    ensures var n := BytesWritten(ByteLoop(d.e, AtData(d.r, p), d.r.startAddr), BytesRemaining(d.r));
      Received(d, p) == d.(e := n.0.e, r := d.r.(startAddr := n.0.addr))
  {
    hide AtData, BytesWritten, BytesRemaining;
  }

  lemma RangeLeft(r: Registers, came: nat)
    requires r.endAddr < 0x1_0000 && came < BytesRemaining(r) == r.endAddr - r.startAddr + 1
    ensures r.startAddr + came < 0x1_0000 && (r.startAddr + came) % 0x1_0000 == r.startAddr + came
    ensures BytesRemaining(r.(startAddr := r.startAddr + came)) == BytesRemaining(r) - came
  {
  }

  // ---------------------------------------------------------------- ranges that are complete

  /** A range that has been received leaves nothing to write: data behind it changes neither memory. */
  lemma FlashRangeDone(d: Device, q: OutPipe, more: OutPipe)
    requires d.f.Valid() && d.r.endAddr < 0x1_0000
    ensures var n, start := FlashPart(d, q), LongAddress(d.r.startAddr, d.r.flash64KBPage);
      WordsWritten(WordLoop(d.f, q, start, start, 0), BytesRemaining(d.r) / 2).1 ==> FlashPart(n, more).f == n.f && FlashPart(n, more).e == n.e
  {
    FlashPartEnds(d, q, LongAddress(d.r.startAddr, d.r.flash64KBPage));
    OneByteOfRange(d.r);
    var n := FlashPart(d, q);
    NoWords(n, more);
    hide FlashPart, WordsWritten, BytesRemaining, LongAddress;
  }

  lemma OneByteOfRange(r: Registers)
    ensures BytesRemaining(r.(startAddr := r.endAddr)) == 1
  {
  }

  lemma NoWords(d: Device, q: OutPipe)
    requires d.f.Valid()
    ensures BytesRemaining(d.r) == 1 ==> FlashPart(d, q).f == d.f && FlashPart(d, q).e == d.e
  {
    hide BytesRemaining, LongAddress;
  }

  lemma EepromRangeDone(d: Device, q: OutPipe, more: OutPipe)
    requires NonEmpty(q.pending) && d.r.startAddr < 0x1_0000 && d.r.endAddr < 0x1_0000
    requires BytesRemaining(d.r) <= |q.Stream()| && d.r.startAddr + BytesRemaining(d.r) <= |d.e| <= 0x1_0000
    ensures var n := EepromPart(d, q); EepromPart(n, more).e == n.e
  {
    var s, size := ByteLoop(d.e, q, d.r.startAddr), BytesRemaining(d.r);
    EepromWritten(s, size);
    RangeGone(d.r);
    var n := EepromPart(d, q);
    assert n.r.startAddr == BytesWritten(s, size).0.addr;
    assert BytesRemaining(n.r) == 0;
    NoBytes(n, more);
    hide *;
  }

  lemma RangeGone(r: Registers)
    ensures BytesRemaining(r.(startAddr := (r.startAddr + BytesRemaining(r)) % 0x1_0000)) == 0
  {
  }

  lemma NoBytes(d: Device, q: OutPipe)
    ensures BytesRemaining(d.r) == 0 ==> EepromPart(d, q).e == d.e
  {
    hide BytesRemaining;
  }
}
