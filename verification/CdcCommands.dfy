/** What a host can rely on of the single commands of the CDC bootloader: what one leaves, the others find. */
module CdcCommands {
  import opened AvrFlash
  import opened Bytes
  import opened CdcProtocol
  import opened CdcTheorems

  // ---------------------------------------------------------------- committing a page

  /** 'm': the page of the address takes the fill buffer, as far as it can be programmed; nothing else changes. */
  lemma PageCommitted(b: Board, d: Device, a: nat)
    requires d.flash.Valid() && |b.signature| == 3 && a < |d.flash.memory|
    requires d.flash.HasPage(PageNumber(d.addr, d.flash.pageSize))
    ensures var o, f := Execute(b, d, [0x6D]), d.flash;
      && o.response == [OK] && o.device == d.(flash := o.device.flash)
      && o.device.flash.FillClear() && |o.device.flash.memory| == |f.memory| && |f.fill| == f.pageSize
      && o.device.flash.memory[a] ==
        if PageNumber(a, f.pageSize) == PageNumber(d.addr, f.pageSize) then f.memory[a] & f.fill[a % f.pageSize] else f.memory[a]
  {
    var f, page := d.flash, PageNumber(d.addr, d.flash.pageSize);
    CommitDone(b, d);
    InOnePage(f.memory, f.Programmed(page), page, f.pageSize, a);
    AtItsPlace(f, page, a);
    assert f.PageWrite(d.addr).memory == Splice(f.memory, page * f.pageSize, f.Programmed(page));
    hide Splice, Flash.Programmed, Execute, PageNumber;
  }

  lemma CommitDone(b: Board, d: Device)
    requires d.flash.Valid() && |b.signature| == 3
    ensures Execute(b, d, [0x6D]) == Outcome(d.(flash := d.flash.PageWrite(d.addr)), [OK], 1)
  {
  }

  lemma AtItsPlace(f: Flash, page: nat, a: nat)
    requires f.Valid() && a < |f.memory|
    ensures PageNumber(a, f.pageSize) == page ==> a % f.pageSize < f.pageSize && f.Programmed(page)[a % f.pageSize] == f.memory[a] & f.fill[a % f.pageSize]
  {
    assert a == PageNumber(a, f.pageSize) * f.pageSize + a % f.pageSize;
  }

  // ---------------------------------------------------------------- word by word

  lemma OneMore(b: Board, d: Device, commands: seq<seq<byte>>, last: seq<byte>)
    requires d.flash.Valid() && |b.signature| == 3
    ensures After(b, d, commands + [last]) == Execute(b, After(b, d, commands), last).device
    ensures After(b, d, []) == d
  {
    assert (commands + [last])[..|commands|] == commands;
  }

  /** A word as the host sends it, high byte first: 'C' with the high byte, 'c' with the low one. */
  datatype HostWord = HostWord(high: byte, low: byte)

  function WordStreams(words: seq<HostWord>): seq<seq<byte>> {
    if words == [] then []
    else
      var w := words[|words| - 1];
      WordStreams(words[..|words| - 1]) + [[0x43, w.high]] + [[0x63, w.low]]
  }

  /** What is kept of them: the low bytes, each with a zero above it. */
  function Kept(words: seq<HostWord>): (s: seq<byte>)
    ensures |s| == 2 * |words|
  {
    seq(2 * |words|, i requires 0 <= i < 2 * |words| => if i % 2 == 0 then words[i / 2].low else 0)
  }

  /** What the host means, low byte first as the flash has it. */
  function Meant(words: seq<HostWord>): (s: seq<byte>)
    ensures |s| == 2 * |words|
  {
    seq(2 * |words|, i requires 0 <= i < 2 * |words| => if i % 2 == 0 then words[i / 2].low else words[i / 2].high)
  }

  lemma KeptIff(words: seq<HostWord>)
    ensures Kept(words) == Meant(words) <==> forall i :: 0 <= i < |words| ==> words[i].high == 0
  {
    forall i | 0 <= i < |words| ensures Kept(words)[2 * i + 1] == 0 && Meant(words)[2 * i + 1] == words[i].high {
      assert (2 * i + 1) / 2 == i;
    }
    if forall i :: 0 <= i < |words| ==> words[i].high == 0 {
      forall j | 0 <= j < 2 * |words| ensures Kept(words)[j] == Meant(words)[j] {
      }
    } else {
      var i :| 0 <= i < |words| && words[i].high != 0;
      assert Kept(words)[2 * i + 1] != Meant(words)[2 * i + 1];
    }
  }

  /** One word: the second fill replaces the first. */
  lemma WordSent(b: Board, d: Device, w: HostWord)
    requires d.flash.Valid() && |b.signature| == 3 && d.addr % 2 == 0
    ensures var first := Execute(b, d, [0x43, w.high]).device;
      Execute(b, first, [0x63, w.low]).device == d.(flash := d.flash.PageFill(d.addr, w.low, 0), addr := Advance(d.addr, 2))
  {
    FillDone(b, d, w.high);
    var first := Execute(b, d, [0x43, w.high]).device;
    LowDone(b, first, w.low);
    FilledTwice(d.flash, d.addr, w.high, w.low);
    hide Execute, Flash.PageFill;
  }

  lemma FillDone(b: Board, d: Device, high: byte)
    requires d.flash.Valid() && |b.signature| == 3
    ensures Execute(b, d, [0x43, high]) == Outcome(d.(flash := d.flash.PageFill(d.addr, high, 0)), [OK], 2)
  {
    hide Flash.PageFill;
  }

  lemma LowDone(b: Board, d: Device, low: byte)
    requires d.flash.Valid() && |b.signature| == 3
    ensures Execute(b, d, [0x63, low]) == Outcome(d.(flash := d.flash.PageFill(d.addr + 1, low, 0), addr := Advance(d.addr, 2)), [OK], 2)
  {
    hide Flash.PageFill;
  }

  lemma FilledTwice(f: Flash, addr: nat, first: byte, second: byte)
    requires f.Valid() && addr % 2 == 0
    ensures f.PageFill(addr, first, 0).PageFill(addr + 1, second, 0) == f.PageFill(addr, second, 0)
  {
    var at := addr % f.pageSize;
    EvenPlace(addr, f.pageSize);
    FilledAt(f, addr, at, first, 0);
    FilledAt(f, addr, at, second, 0);
    FilledAt(f.PageFill(addr, first, 0), addr + 1, at, second, 0);
    assert f.fill[at := first][at + 1 := 0][at := second][at + 1 := 0] == f.fill[at := second][at + 1 := 0];
    hide Flash.PageFill;
  }

  lemma FilledAt(f: Flash, addr: nat, at: nat, low: byte, high: byte)
    requires f.Valid() && at % 2 == 0 && at + 1 < f.pageSize && (addr % f.pageSize == at || addr % f.pageSize == at + 1)
    ensures f.PageFill(addr, low, high) == f.(fill := f.fill[at := low][at + 1 := high])
  {
  }

  /** The words in the fill buffer, the address behind them. */
  lemma {:induction false} WordsSent(b: Board, d: Device, words: seq<HostWord>)
    requires d.flash.Valid() && |b.signature| == 3 && d.addr % 2 == 0 && d.addr < ADDRESS_SPACE && d.addr + 2 * |words| <= ADDRESS_SPACE
    ensures After(b, d, WordStreams(words)) ==
      d.(flash := FillWords(d.flash, d.addr, Kept(words), |words|), addr := Advance(d.addr, 2 * |words|))
    decreases |words|
  {
    hide *;
    if words == [] {
      NoneSent(b, d, words);
    } else {
      var n := |words| - 1;
      var before, w := words[..n], words[n];
      WordsSent(b, d, before);
      StreamsGrow(words);
      OneMore(b, d, WordStreams(before), [0x43, w.high]);
      OneMore(b, d, WordStreams(before) + [[0x43, w.high]], [0x63, w.low]);
      LastSent(b, d, words);
    }
  }

  lemma NoneSent(b: Board, d: Device, words: seq<HostWord>)
    requires d.flash.Valid() && |b.signature| == 3 && words == [] && d.addr < ADDRESS_SPACE
    ensures After(b, d, WordStreams(words)) == d.(flash := FillWords(d.flash, d.addr, Kept(words), 0), addr := Advance(d.addr, 0))
  {
  }

  lemma StreamsGrow(words: seq<HostWord>)
    requires words != []
    ensures var w := words[|words| - 1];
      WordStreams(words) == WordStreams(words[..|words| - 1]) + [[0x43, w.high]] + [[0x63, w.low]]
  {
  }

  lemma LastSent(b: Board, d: Device, words: seq<HostWord>)
    requires d.flash.Valid() && |b.signature| == 3 && words != [] && d.addr % 2 == 0 && d.addr + 2 * |words| <= ADDRESS_SPACE
    ensures var n := |words| - 1;
      var at := d.(flash := FillWords(d.flash, d.addr, Kept(words[..n]), n), addr := Advance(d.addr, 2 * n));
      Execute(b, Execute(b, at, [0x43, words[n].high]).device, [0x63, words[n].low]).device ==
        d.(flash := FillWords(d.flash, d.addr, Kept(words), |words|), addr := Advance(d.addr, 2 * |words|))
  {
    var n := |words| - 1;
    var at := d.(flash := FillWords(d.flash, d.addr, Kept(words[..n]), n), addr := Advance(d.addr, 2 * n));
    hide *;
    AdvancedTo(d.addr, n);
    LastKept(words);
    SameWords(d.flash, d.addr, Kept(words[..n]), Kept(words), n);
    LastWord(d.flash, d.addr, Kept(words), |words|);
    WordSent(b, at, words[n]);
  }

  lemma LastKept(words: seq<HostWord>)
    requires words != []
    ensures var n := |words| - 1;
      && Kept(words)[2 * n] == words[n].low && Kept(words)[2 * n + 1] == 0
      && Kept(words)[..2 * n] == Kept(words[..n]) && Kept(words[..n])[..2 * n] <= Kept(words)
  {
  }

  lemma AdvancedTo(addr: nat, n: nat)
    requires addr % 2 == 0 && addr + 2 * n + 2 <= ADDRESS_SPACE
    ensures Advance(addr, 2 * n) == addr + 2 * n && Advance(Advance(addr, 2 * n), 2) == Advance(addr, 2 * (n + 1))
    ensures Advance(addr, 2 * n) % 2 == 0
  {
  }

  lemma {:induction false} SameWords(f: Flash, addr: nat, some: seq<byte>, all: seq<byte>, n: nat)
    requires f.Valid() && 2 * n <= |some| && some[..2 * n] <= all
    ensures FillWords(f, addr, some, n) == FillWords(f, addr, all, n)
  {
    if 0 < n {
      assert some[..2 * (n - 1)] == some[..2 * n][..2 * (n - 1)];
      SameWords(f, addr, some, all, n - 1);
      var k := 2 * (n - 1);
      assert some[k] == some[..2 * n][k] == all[k] && some[k + 1] == some[..2 * n][k + 1] == all[k + 1];
      hide Flash.PageFill;
    }
  }

  /** A blank page, and a clear fill buffer for it. */
  ghost predicate FreshPage(f: Flash, page: nat, start: nat) {
    && f.Valid() && f.FillClear() && start == page * f.pageSize && start + f.pageSize <= |f.memory| <= ADDRESS_SPACE
    && forall a :: start <= a < start + f.pageSize ==> f.memory[a] == BLANK
  }

  /**
   * Words sent one by one into a blank page, the address set back, and the page committed: a block read, and a word read
   * (high byte first), answer the low bytes that were sent, with zeros above them.
   */
  lemma WordsRoundTrip(b: Board, d: Device, page: nat, start: nat, offset: nat, words: seq<HostWord>, ah: byte, al: byte, high: byte, low: byte)
    requires |b.signature| == 3 && words != [] && FreshPage(d.flash, page, start) && d.addr == start + offset
    requires offset % 2 == 0 && offset + 2 * |words| <= d.flash.pageSize
    requires SetAddress(ah, al) == d.addr && Word(high, low) == 2 * |words|
    ensures var sent := After(b, d, WordStreams(words));
      var m := Execute(b, Execute(b, sent, [0x41, ah, al]).device, [0x6D]).device;
      && Execute(b, m, BlockCommand(READ_BLOCK, high, low, FLASH, [])).response == Kept(words)
      && Execute(b, m, [0x52]).response == [0, words[0].low]
  {
    var read := BlockCommand(READ_BLOCK, high, low, FLASH, []);
    assert At(read, 0) == READ_BLOCK && At(read, 1) == high && At(read, 2) == low && At(read, 3) == FLASH;
    assert Kept(words)[0] == words[0].low && Kept(words)[1] == 0;
    WordsProgrammed(b, d, page, start, offset, words, ah, al);
    hide *;
    var m := Execute(b, Execute(b, After(b, d, WordStreams(words)), [0x41, ah, al]).device, [0x6D]).device;
    BlockDone(b, m, read, READ_BLOCK, FLASH, 2 * |words|);
    ReadWordAgrees(b, m);
    TwoBytes(m.flash, m.addr, 2 * |words|);
  }

  lemma WordsProgrammed(b: Board, d: Device, page: nat, start: nat, offset: nat, words: seq<HostWord>, ah: byte, al: byte)
    requires |b.signature| == 3 && words != [] && FreshPage(d.flash, page, start) && d.addr == start + offset
    requires offset % 2 == 0 && offset + 2 * |words| <= d.flash.pageSize && SetAddress(ah, al) == d.addr
    ensures var m := Execute(b, Execute(b, After(b, d, WordStreams(words)), [0x41, ah, al]).device, [0x6D]).device;
      && m.flash.Valid() && m.addr == d.addr && d.addr % 2 == 0 && d.addr + 1 < ADDRESS_SPACE
      && FlashBytes(m.flash, d.addr, 2 * |words|) == Kept(words)
  {
    hide *;
    WordAddress(d.flash, page, start, offset, |words|);
    WordsBack(b, d, words, ah, al);
    WordsCommitted(d.flash, page, start, offset, words);
  }

  lemma WordAddress(f: Flash, page: nat, start: nat, offset: nat, n: nat)
    requires FreshPage(f, page, start) && offset % 2 == 0 && offset + 2 * n <= f.pageSize && 0 < n
    ensures f.Valid() && (start + offset) % 2 == 0
    ensures start + offset < ADDRESS_SPACE && start + offset + 1 < ADDRESS_SPACE && start + offset + 2 * n <= ADDRESS_SPACE
  {
    EvenAddress(page, offset, f.pageSize);
  }

  /** The words in the fill buffer, the address set back, and the page committed. */
  lemma WordsBack(b: Board, d: Device, words: seq<HostWord>, ah: byte, al: byte)
    requires d.flash.Valid() && |b.signature| == 3 && d.addr % 2 == 0 && d.addr < ADDRESS_SPACE && d.addr + 2 * |words| <= ADDRESS_SPACE
    requires SetAddress(ah, al) == d.addr
    ensures var m := Execute(b, Execute(b, After(b, d, WordStreams(words)), [0x41, ah, al]).device, [0x6D]).device;
      m.flash.Valid() && m == d.(flash := FillWords(d.flash, d.addr, Kept(words), |words|).PageWrite(d.addr))
  {
    WordsSent(b, d, words);
    var sent := After(b, d, WordStreams(words));
    AddressDone(b, sent, ah, al);
    CommitDone(b, Execute(b, sent, [0x41, ah, al]).device);
    hide Execute, After, WordStreams, Kept, FillWords, Flash.PageWrite, SetAddress, Advance;
  }

  lemma WordsCommitted(f: Flash, page: nat, start: nat, offset: nat, words: seq<HostWord>)
    requires FreshPage(f, page, start) && offset % 2 == 0 && words != [] && offset + 2 * |words| <= f.pageSize
    ensures FlashBytes(FillWords(f, start + offset, Kept(words), |words|).PageWrite(start + offset), start + offset, 2 * |words|) == Kept(words)
  {
    var n, g := 2 * |words|, FillWords(f, start + offset, Kept(words), |words|);
    assert Kept(words)[..n] == Kept(words) && f.Valid() && |f.fill| == f.pageSize && start == page * f.pageSize;
    assert start + f.pageSize <= |f.memory| <= ADDRESS_SPACE && g.Valid() && g.pageSize == f.pageSize && |g.fill| == g.pageSize && g.memory == f.memory;
    hide *;
    PageOf(page, offset, f.pageSize);
    WordsInBuffer(f, start + offset, offset, Kept(words), |words|);
    FreshWritten(f, g, page, start, offset);
    EvenAddress(page, offset, f.pageSize);
    SplicedBytes(f, g.PageWrite(start + offset), start, offset, Kept(words));
  }

  lemma SplicedBytes(f: Flash, w: Flash, start: nat, offset: nat, data: seq<byte>)
    requires |f.fill| == f.pageSize && start + f.pageSize <= |f.memory| <= ADDRESS_SPACE && offset + |data| <= f.pageSize
    requires (start + offset) % 2 == 0 && w.memory == Splice(f.memory, start, Splice(f.fill, offset, data))
    ensures FlashBytes(w, start + offset, |data|) == data
  {
    assert |w.memory| == |f.memory|;
    forall i | 0 <= i < |data| ensures FlashBytes(w, start + offset, |data|)[i] == data[i] {
      hide *;
      SplicedAt(f.memory, start, Splice(f.fill, offset, data), start + offset + i);
      SplicedAt(f.fill, offset, data, offset + i);
      ByteOfBlock(w, start + offset, |data|, i);
    }
  }

  lemma FreshWritten(f: Flash, g: Flash, page: nat, start: nat, offset: nat)
    requires FreshPage(f, page, start) && g.Valid() && g.pageSize == f.pageSize && g.memory == f.memory && offset < f.pageSize
    ensures g.PageWrite(start + offset).memory == Splice(f.memory, start, g.fill)
  {
    BlankPageWritten(g, page);
    PageOf(page, offset, f.pageSize);
    PageOf(page, 0, f.pageSize);
    SamePage(g, start + offset, start);
  }

  /** 'R' answers the word a block read of two bytes answers, high byte first. */
  lemma ReadWordAgrees(b: Board, d: Device)
    requires d.flash.Valid() && |b.signature| == 3 && d.addr % 2 == 0 && d.addr + 1 < ADDRESS_SPACE
    ensures var word := FlashBytes(d.flash, d.addr, 2); Execute(b, d, [0x52]) == Outcome(d, [word[1], word[0]], 1)
  {
    BlockAddress(d.addr, 0);
    BlockAddress(d.addr, 1);
  }

  lemma TwoBytes(f: Flash, addr: nat, n: nat)
    requires 2 <= n
    ensures FlashBytes(f, addr, 2)[0] == FlashBytes(f, addr, n)[0] && FlashBytes(f, addr, 2)[1] == FlashBytes(f, addr, n)[1]
  {
  }

  // ---------------------------------------------------------------- EEPROM bytes

  /** 'D' for each byte. */
  function ByteStreams(bytes: seq<byte>): seq<seq<byte>> {
    seq(|bytes|, i requires 0 <= i < |bytes| => [0x44, bytes[i]])
  }

  /** 'd' n times. */
  function ReadStreams(n: nat): seq<seq<byte>> {
    seq(n, _ => [0x64])
  }

  lemma {:induction false} BytesSent(b: Board, d: Device, bytes: seq<byte>, n: nat)
    requires d.flash.Valid() && |b.signature| == 3 && d.addr < ADDRESS_SPACE && n <= |bytes|
    ensures After(b, d, ByteStreams(bytes)[..n]) == d.(eeprom := WriteEepromBytes(d.eeprom, d.addr, bytes, n), addr := Advance(d.addr, 2 * n))
    decreases n
  {
    if n == 0 {
      assert ByteStreams(bytes)[..0] == [];
    } else {
      BytesSent(b, d, bytes, n - 1);
      assert ByteStreams(bytes)[..n] == ByteStreams(bytes)[..n - 1] + [[0x44, bytes[n - 1]]];
      OneMore(b, d, ByteStreams(bytes)[..n - 1], [0x44, bytes[n - 1]]);
      OneByteSent(b, After(b, d, ByteStreams(bytes)[..n - 1]), bytes[n - 1]);
      AdvanceAgain(d.addr, 2 * (n - 1));
      hide Execute, After, ByteStreams, EepromAddress, Advance;
    }
  }

  lemma OneByteSent(b: Board, d: Device, x: byte)
    requires d.flash.Valid() && |b.signature| == 3
    ensures Execute(b, d, [0x44, x]).device == d.(eeprom := WriteEeprom(d.eeprom, EepromAddress(d.addr), x), addr := Advance(d.addr, 2))
  {
  }

  lemma AdvanceAgain(addr: nat, n: nat)
    ensures Advance(Advance(addr, n), 2) == Advance(addr, n + 2)
  {
  }

  lemma {:induction false} BytesAsked(b: Board, d: Device, n: nat)
    requires d.flash.Valid() && |b.signature| == 3 && d.addr < ADDRESS_SPACE
    ensures After(b, d, ReadStreams(n)) == d.(addr := Advance(d.addr, 2 * n))
    decreases n
  {
    if n == 0 {
      assert ReadStreams(0) == [];
    } else {
      BytesAsked(b, d, n - 1);
      assert ReadStreams(n) == ReadStreams(n - 1) + [[0x64]];
      OneMore(b, d, ReadStreams(n - 1), [0x64]);
      OneByteAsked(b, After(b, d, ReadStreams(n - 1)));
      AdvanceAgain(d.addr, 2 * (n - 1));
      hide Execute, After, ReadStreams, Advance;
    }
  }

  lemma OneByteAsked(b: Board, d: Device)
    requires d.flash.Valid() && |b.signature| == 3
    ensures Execute(b, d, [0x64]) == Outcome(d.(addr := Advance(d.addr, 2)), [ReadEeprom(d.eeprom, EepromAddress(d.addr))], 1)
  {
  }

  /** Bytes sent one by one to EEPROM, and the address set back: each 'd' answers the next of them; flash stays. */
  lemma BytesRoundTrip(b: Board, d: Device, bytes: seq<byte>, ah: byte, al: byte, i: nat)
    requires d.flash.Valid() && |b.signature| == 3 && d.addr % 2 == 0 && d.addr / 2 + |bytes| <= |d.eeprom| <= 0x1_0000
    requires SetAddress(ah, al) == d.addr && i < |bytes|
    ensures var back := Execute(b, After(b, d, ByteStreams(bytes)), [0x41, ah, al]).device;
      && back.flash == d.flash
      && Execute(b, After(b, back, ReadStreams(i)), [0x64]).response == [bytes[i]]
  {
    assert ByteStreams(bytes)[..|bytes|] == ByteStreams(bytes);
    assert d.addr < ADDRESS_SPACE;
    BytesSent(b, d, bytes, |bytes|);
    var sent := After(b, d, ByteStreams(bytes));
    AddressDone(b, sent, ah, al);
    var back := Execute(b, sent, [0x41, ah, al]).device;
    BytesAsked(b, back, i);
    OneByteAsked(b, After(b, back, ReadStreams(i)));
    EepromBlockRoundTrip(d.eeprom, d.addr, bytes);
    assert EepromBytes(back.eeprom, d.addr, |bytes|)[i] == bytes[i];
    hide Execute, After, ReadStreams, ByteStreams, WriteEepromBytes, Advance, EepromAddress, ReadEeprom, SetAddress;
  }

  // ---------------------------------------------------------------- the other commands

  /** 'e' on the whole device: see ChipErase for what the bytes mean. */
  lemma EraseCommanded(b: Board, d: Device, pages: nat, a: nat)
    requires d.flash.Valid() && |b.signature| == 3 && b.bootStart == pages * d.flash.pageSize <= |d.flash.memory| && a < |d.flash.memory|
    ensures var o, page := Execute(b, d, [0x65]), PageNumber(a, d.flash.pageSize);
      && o.response == [OK] && o.device == d.(flash := o.device.flash) && |o.device.flash.memory| == |d.flash.memory|
      && o.device.flash.memory[a] ==
        if !ErasedPage(page, d.flash.pageSize, pages) then d.flash.memory[a] else if page == 0 then d.flash.fill[a] else BLANK
  {
    EraseDone(b, d);
    ChipErase(d.flash, pages, a);
    hide Execute, EraseFrom, ErasedPage, PageNumber;
  }

  lemma EraseDone(b: Board, d: Device)
    requires d.flash.Valid() && |b.signature| == 3
    ensures Execute(b, d, [0x65]) == Outcome(d.(flash := EraseFrom(d.flash, 0, b.bootStart)), [OK], 1)
  {
    hide EraseFrom;
  }

  /** The letters that are commands, and escape. */
  const LETTERS: set<byte> := {
    0x4C, 0x50, 0x54, 0x45, 0x42, 0x67, 0x41, 0x65, 0x6C, 0x43, 0x63, 0x6D, 0x44, 0x64, 0x74, 0x61, 0x70, 0x53, 0x56,
    0x73, 0x62, 0x72, 0x46, 0x4E, 0x51, 0x52, 0x1B}

  /** Anything else is answered with '?' and changes nothing; so is a block of a memory that is neither flash nor EEPROM. */
  lemma Refused(b: Board, d: Device, input: seq<byte>)
    requires d.flash.Valid() && |b.signature| == 3 && input != []
    requires input[0] !in LETTERS || ((input[0] == WRITE_BLOCK || input[0] == READ_BLOCK) && At(input, 3) != FLASH && At(input, 3) != EEPROM)
    ensures Execute(b, d, input).response == [FAIL] && Execute(b, d, input).device == d
  {
    hide Word, SetAddress, EraseFrom;
  }

  /** The exit command is the only one that ends the loop. */
  lemma OnlyExitEnds(b: Board, d: Device, input: seq<byte>)
    requires d.flash.Valid() && |b.signature| == 3
    ensures Execute(b, d, input).device.running <==> d.running && At(input, 0) != 0x45
  {
    hide Report, EraseFrom, WriteFlashBlock, WriteEepromBlock, FlashBytes, EepromBytes;
  }

  /** The letters of the commands that change something other than the address, and of those that move the address. */
  const CHANGING: set<byte> := {0x45, 0x42, 0x65, 0x6C, 0x43, 0x63, 0x6D, 0x44}
  const MOVING: set<byte> := {0x41, 0x42, 0x67, 0x63, 0x44, 0x64}

  /** What a command can change, by its letter. */
  lemma Unchanged(b: Board, d: Device, input: seq<byte>)
    requires d.flash.Valid() && |b.signature| == 3
    ensures At(input, 0) !in CHANGING ==> Execute(b, d, input).device == d.(addr := Execute(b, d, input).device.addr)
    ensures At(input, 0) !in MOVING ==> Execute(b, d, input).device.addr == d.addr
  {
    hide Report, EraseFrom, WriteFlashBlock, WriteEepromBlock, FlashBytes, EepromBytes, SetAddress, Word, Taken;
  }

  /** The letters a carriage return confirms. */
  const CONFIRMED: set<byte> := {0x4C, 0x50, 0x54, 0x45, 0x41, 0x65, 0x6C, 0x43, 0x63, 0x6D, 0x44}

  /** The answers that say nothing but that the command was taken: one byte, and none to the escape that synchronises. */
  lemma Confirmed(b: Board, d: Device, input: seq<byte>)
    requires d.flash.Valid() && |b.signature| == 3
    ensures At(input, 0) in CONFIRMED || (At(input, 0) == WRITE_BLOCK && At(input, 3) in {FLASH, EEPROM}) ==> Execute(b, d, input).response == [0x0D]
    ensures At(input, 0) == 0x1B ==> Execute(b, d, input) == Outcome(d, [], 1)
  {
    hide EraseFrom, WriteFlashBlock, WriteEepromBlock, FlashBytes, EepromBytes, SetAddress, Word, Taken;
  }

  /** Who answers: the part code of AVRProg and an end mark, auto-increment, a serial programmer, LUFACDC, version 1.0. */
  lemma Introduced(b: Board, d: Device)
    requires d.flash.Valid() && |b.signature| == 3
    ensures Execute(b, d, [0x74]).response == [0x44, 0]
    ensures Execute(b, d, [0x61]).response == [0x59] && Execute(b, d, [0x70]).response == [0x53]
    ensures Execute(b, d, [0x53]).response == [0x4C, 0x55, 0x46, 0x41, 0x43, 0x44, 0x43]
    ensures Execute(b, d, [0x56]).response == [0x31, 0x30]
  {
  }

  /** A command takes its letter and its parameters: two after 'A', one after T, l, C, c and D, three and a write's data for a block. */
  lemma Parameters(letter: byte, parameters: seq<byte>)
    ensures letter == 0x41 ==> (Complete([letter] + parameters) <==> 2 <= |parameters|)
    ensures letter in {0x54, 0x6C, 0x43, 0x63, 0x44} ==> (Complete([letter] + parameters) <==> 1 <= |parameters|)
    ensures letter !in {0x41, 0x54, 0x6C, 0x43, 0x63, 0x44, READ_BLOCK, WRITE_BLOCK} ==> Complete([letter] + parameters)
    ensures letter == READ_BLOCK ==> (Complete([letter] + parameters) <==> 3 <= |parameters|)
    ensures letter == WRITE_BLOCK && 3 <= |parameters| && parameters[2] in {FLASH, EEPROM} ==>
      (Complete([letter] + parameters) <==> 3 + Word(parameters[0], parameters[1]) <= |parameters|)
  {
    hide Word;
  }

  lemma SameInput(b: Board, d: Device, input: seq<byte>, other: seq<byte>)
    requires d.flash.Valid() && |b.signature| == 3 && forall i: nat :: i < Used(input) ==> At(input, i) == At(other, i)
    ensures Execute(b, d, input) == Execute(b, d, other)
  {
    assert At(input, 0) == At(other, 0);
    if At(input, 0) == WRITE_BLOCK || At(input, 0) == READ_BLOCK {
      assert At(input, 1) == At(other, 1) && At(input, 2) == At(other, 2) && At(input, 3) == At(other, 3);
      var n := Word(At(input, 1), At(input, 2));
      if At(input, 0) == WRITE_BLOCK && (At(input, 3) == EEPROM || At(input, 3) == FLASH) {
        assert Used(input) == 4 + n;
        assert Taken(input, 4, n) == Taken(other, 4, n);
      }
    }
  }

  /** Only a command's own bytes count, and a host that goes away in the middle has as good as sent zeros. */
  lemma OwnBytesOnly(b: Board, d: Device, input: seq<byte>, more: seq<byte>)
    requires d.flash.Valid() && |b.signature| == 3
    ensures Complete(input) ==> Execute(b, d, input + more) == Execute(b, d, input)
    ensures (forall i :: 0 <= i < |more| ==> more[i] == 0) ==> Execute(b, d, input + more) == Execute(b, d, input)
  {
    if Complete(input) || forall i :: 0 <= i < |more| ==> more[i] == 0 {
      SameInput(b, d, input, input + more);
    }
    hide Execute, Used;
  }

  /** An EEPROM address has 16 bits: a device address 128KB on is the same byte. */
  lemma EepromWraps(b: Board, d: Device, turns: nat, x: byte)
    requires d.flash.Valid() && |b.signature| == 3
    ensures var far := d.(addr := d.addr + 0x2_0000 * turns);
      && Execute(b, far, [0x44, x]).device.eeprom == Execute(b, d, [0x44, x]).device.eeprom
      && Execute(b, far, [0x64]).response == Execute(b, d, [0x64]).response
  {
    var far := d.(addr := d.addr + 0x2_0000 * turns);
    OneByteSent(b, d, x);
    OneByteSent(b, far, x);
    OneByteAsked(b, d);
    OneByteAsked(b, far);
    SameByte(d.addr, turns);
    hide Execute, EepromAddress, Advance;
  }

  lemma SameByte(addr: nat, turns: nat)
    ensures EepromAddress(addr + 0x2_0000 * turns) == EepromAddress(addr)
  {
    assert (addr + 0x2_0000 * turns) / 2 == addr / 2 + 0x1_0000 * turns;
  }

  /** The lock bits change by 'l' alone, to the value sent; the read of the lock or of one of the fuse bytes that follows sees them. */
  lemma LocksSet(b: Board, d: Device, input: seq<byte>, letter: byte)
    requires d.flash.Valid() && |b.signature| == 3
    ensures var locks := Execute(b, d, input).device.locks;
      && locks == (if At(input, 0) == 0x6C then d.locks + [At(input, 1)] else d.locks)
      && (letter in {0x72, 0x46, 0x4E, 0x51} ==> Execute(b, Execute(b, d, input).device, [letter]).response == [b.bits(letter, locks)])
  {
    BitsRead(b, Execute(b, d, input).device, letter);
    hide Report, EraseFrom, WriteFlashBlock, WriteEepromBlock, FlashBytes, EepromBytes, SetAddress, Word, Taken;
  }

  lemma BitsRead(b: Board, d: Device, letter: byte)
    requires d.flash.Valid() && |b.signature| == 3
    ensures letter in {0x72, 0x46, 0x4E, 0x51} ==> Execute(b, d, [letter]).response == [b.bits(letter, d.locks)]
  {
  }

  /** What a host finds out about the device: the signature, last byte first, and the page size in two bytes behind a yes. */
  lemma DeviceToldTruly(b: Board, d: Device)
    requires d.flash.Valid() && |b.signature| == 3 && d.flash.pageSize < 0x1_0000
    ensures var s := Execute(b, d, [0x73]).response; |s| == 3 && [s[2], s[1], s[0]] == b.signature
    ensures var p := Execute(b, d, [0x62]).response; |p| == 3 && p[0] == 0x59 && Word(p[1], p[2]) == d.flash.pageSize
    ensures Execute(b, d, [0x73]).device == d && Execute(b, d, [0x62]).device == d
  {
    SizeBytes(d.flash.pageSize);
    hide LowByte, Word;
  }

  lemma SizeBytes(n: nat)
    requires n < 0x1_0000
    ensures Word(LowByte(n / 256), LowByte(n)) == n
  {
    LowByteValue(n / 256);
    LowByteValue(n);
    TwoDigits(n, LowByte(n / 256) as int, LowByte(n) as int);
    hide LowByte;
  }

  lemma TwoDigits(n: nat, high: int, low: int)
    requires n < 0x1_0000 && high == n / 256 % 256 && low == n % 256
    ensures 256 * high + low == n
  {
  }
}
