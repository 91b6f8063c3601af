/** What the commands of the CDC bootloader keep and undo: the address, the memories, the chip erase. */
module CdcTheorems {
  import opened Arith
  import opened AvrFlash
  import opened Bytes
  import opened CdcProtocol

  // ---------------------------------------------------------------- the address stays even

  lemma AddressStaysEven(b: Board, d: Device, input: seq<byte>)
    requires d.flash.Valid() && |b.signature| == 3 && d.addr % 2 == 0
    ensures Execute(b, d, input).device.addr % 2 == 0
  {
    var n := Word(At(input, 1), At(input, 2));
    AdvanceEven(d.addr, n);
    AdvanceEven(d.addr, WholeWords(n));
    AdvanceEven(d.addr, 1);
    AddressAfter(b, d, input);
    hide Execute;
  }

  /** Where a command can leave the address. */
  lemma AddressAfter(b: Board, d: Device, input: seq<byte>)
    requires d.flash.Valid() && |b.signature| == 3
    ensures var n, addr := Word(At(input, 1), At(input, 2)), Execute(b, d, input).device.addr;
      || addr == d.addr || addr == SetAddress(At(input, 1), At(input, 2)) || addr == Advance(d.addr, 2)
      || addr == Advance(d.addr, 2 * n) || addr == Advance(d.addr, 2 * WholeWords(n))
  {
  }

  /** The device after a list of commands. */
  function After(b: Board, d: Device, commands: seq<seq<byte>>): (e: Device)
    requires d.flash.Valid() && |b.signature| == 3
    ensures e.flash.Valid()
  {
    if commands == [] then d else Execute(b, After(b, d, commands[..|commands| - 1]), commands[|commands| - 1]).device
  }

  /** CurrAddress starts at zero, so in every reachable state it is even. */
  lemma {:induction false} EvenInEveryRun(b: Board, d: Device, commands: seq<seq<byte>>)
    requires d.flash.Valid() && |b.signature| == 3 && d.addr % 2 == 0
    ensures After(b, d, commands).addr % 2 == 0
  {
    if commands != [] {
      EvenInEveryRun(b, d, commands[..|commands| - 1]);
      AddressStaysEven(b, After(b, d, commands[..|commands| - 1]), commands[|commands| - 1]);
    }
  }

  // ---------------------------------------------------------------- flash blocks

  /** The place in its page of the k-th byte from an address. */
  lemma PlaceInPage(addr: nat, offset: nat, k: nat, size: nat)
    requires 0 < size && addr % size == offset && offset + k < size
    ensures (addr + k) % size == offset + k
  {
    PageOf(PageNumber(addr, size), offset + k, size);
  }

  /** The fill buffer after some words of a block inside one page. */
  lemma {:induction false} WordsInBuffer(f: Flash, addr: nat, offset: nat, data: seq<byte>, words: nat)
    requires f.Valid() && offset % 2 == 0 && 2 * words <= |data| && offset + 2 * words <= f.pageSize
    requires addr + 2 * words <= ADDRESS_SPACE && addr % f.pageSize == offset
    ensures FillWords(f, addr, data, words).fill == Splice(f.fill, offset, data[..2 * words])
    decreases words
  {
    hide FillWords, Splice, Flash.PageFill;
    if words == 0 {
      NoWords(f, addr, offset, data);
    } else {
      WordsInBuffer(f, addr, offset, data, words - 1);
      LastWord(f, addr, data, words);
      var k := 2 * (words - 1);
      assert 2 * words == k + 2;
      OneMoreWord(FillWords(f, addr, data, words - 1), f.fill, addr, offset, data, k);
    }
  }

  lemma NoWords(f: Flash, addr: nat, offset: nat, data: seq<byte>)
    requires f.Valid() && offset <= |f.fill|
    ensures FillWords(f, addr, data, 0).fill == Splice(f.fill, offset, data[..0])
  {
    assert Splice(f.fill, offset, data[..0]) == f.fill;
  }

  lemma LastWord(f: Flash, addr: nat, data: seq<byte>, words: nat)
    requires f.Valid() && 0 < words && 2 * words <= |data| && addr + 2 * words <= ADDRESS_SPACE
    ensures var k := 2 * (words - 1); FillWords(f, addr, data, words) == FillWords(f, addr, data, words - 1).PageFill(addr + k, data[k], data[k + 1])
  {
    hide Flash.PageFill;
  }

  lemma OneMoreWord(g: Flash, fill: seq<byte>, addr: nat, offset: nat, data: seq<byte>, k: nat)
    requires g.Valid() && |fill| == g.pageSize && k + 2 <= |data| && k % 2 == 0 && offset % 2 == 0 && offset + k + 2 <= |fill|
    requires addr % g.pageSize == offset && g.fill == Splice(fill, offset, data[..k])
    ensures g.PageFill(addr + k, data[k], data[k + 1]).fill == Splice(fill, offset, data[..k + 2])
  {
    hide *;
    PlaceInPage(addr, offset, k, g.pageSize);
    EvenTogether(offset, k);
    FilledAt(g, addr + k, offset + k, data[k], data[k + 1]);
    SpliceWord(fill, offset, data, k);
  }

  lemma EvenTogether(a: nat, b: nat)
    requires a % 2 == 0 && b % 2 == 0
    ensures (a + b) % 2 == 0
  {
  }

  lemma FilledAt(f: Flash, addr: nat, offset: nat, low: byte, high: byte)
    requires f.Valid() && addr % f.pageSize == offset && offset % 2 == 0 && offset + 2 <= f.pageSize
    ensures f.PageFill(addr, low, high).fill == f.fill[offset := low][offset + 1 := high]
  {
  }

  lemma SpliceWord(fill: seq<byte>, at: nat, data: seq<byte>, k: nat)
    requires at + k + 2 <= |fill| && k + 2 <= |data|
    ensures Splice(fill, at, data[..k])[at + k := data[k]][at + k + 1 := data[k + 1]] == Splice(fill, at, data[..k + 2])
  {
  }

  /** Writing a block: its page holds the fill buffer, everything else is as before. */
  lemma PageReplaced(f: Flash, page: nat, start: nat, offset: nat, data: seq<byte>)
    requires f.Valid() && start == page * f.pageSize && start + f.pageSize <= |f.memory| && offset < f.pageSize
    ensures WriteFlashBlock(f, start + offset, data).memory == Splice(f.memory, start, FilledPage(f, start + offset, data).fill)
  {
    PageOf(page, offset, f.pageSize);
    PageOf(page, 0, f.pageSize);
    var e := f.PageErase(start + offset);
    assert e.memory == Splice(f.memory, start, Blanks(f.pageSize));
    var g := FilledPage(f, start + offset, data);
    PageIsBlank(f.memory, start, f.pageSize);
    hide FillWords, FilledPage, Splice, Blanks, Flash.PageErase;
    BlankPageWritten(g, page);
    SamePage(g, start + offset, start);
    SpliceTwice(f.memory, start, Blanks(f.pageSize), g.fill);
  }

  lemma PageIsBlank(m: seq<byte>, start: nat, size: nat)
    requires start + size <= |m|
    ensures |Blanks(size)| == size
    ensures forall a :: start <= a < start + size ==> Splice(m, start, Blanks(size))[a] == BLANK
  {
  }

  lemma SamePage(f: Flash, a: nat, b: nat)
    requires f.Valid() && a / f.pageSize == b / f.pageSize
    ensures f.PageWrite(a) == f.PageWrite(b)
  {
  }

  lemma SpliceTwice(m: seq<byte>, start: nat, one: seq<byte>, two: seq<byte>)
    requires |one| == |two| && start + |one| <= |m|
    ensures Splice(Splice(m, start, one), start, two) == Splice(m, start, two)
  {
  }

  lemma BlockAddress(addr: nat, i: nat)
    requires addr + i < ADDRESS_SPACE && addr % 2 == 0
    ensures FlashByteAddress(addr, i) == addr + i
  {
  }

  lemma EvenAddress(page: nat, offset: nat, size: nat)
    requires size % 2 == 0 && offset % 2 == 0
    ensures (page * size + offset) % 2 == 0
  {
    MulAssoc(page, size / 2, 2);
  }

  /** A block of whole words inside one page reads back as it was written, and no other page changes. */
  lemma FlashBlockRoundTrip(f: Flash, page: nat, start: nat, offset: nat, data: seq<byte>)
    requires f.Valid() && start == page * f.pageSize && start + f.pageSize <= |f.memory| <= ADDRESS_SPACE
    requires offset < f.pageSize && offset % 2 == 0 && |data| % 2 == 0 && offset + |data| <= f.pageSize
    ensures var g := WriteFlashBlock(f, start + offset, data);
      && FlashBytes(g, start + offset, |data|) == data
      && g.memory[..start] == f.memory[..start] && g.memory[start + f.pageSize..] == f.memory[start + f.pageSize..]
  {
    PageReplaced(f, page, start, offset, data);
    PageOf(page, offset, f.pageSize);
    EvenAddress(page, offset, f.pageSize);
    var e := f.PageErase(start + offset);
    WordsInBuffer(e, start + offset, offset, data, WholeWords(|data|));
    assert data[..2 * WholeWords(|data|)] == data;
    hide WriteFlashBlock, FilledPage;
    PageReadsBack(f.memory, WriteFlashBlock(f, start + offset, data), start, e.fill, offset, data);
  }

  lemma PageReadsBack(m: seq<byte>, g: Flash, start: nat, fill: seq<byte>, offset: nat, data: seq<byte>)
    requires start + |fill| <= |m| <= ADDRESS_SPACE && (start + offset) % 2 == 0 && offset + |data| <= |fill|
    requires g.memory == Splice(m, start, Splice(fill, offset, data))
    ensures FlashBytes(g, start + offset, |data|) == data
    ensures g.memory[..start] == m[..start] && g.memory[start + |fill|..] == m[start + |fill|..]
  {
    SpliceInSplice(m, start, fill, offset, data);
    hide Splice, FlashBytes;
    ReadsBack(g, start + offset, data);
  }

  lemma SpliceInSplice(m: seq<byte>, start: nat, fill: seq<byte>, offset: nat, data: seq<byte>)
    requires start + |fill| <= |m| && offset + |data| <= |fill|
    ensures var after := Splice(m, start, Splice(fill, offset, data));
      && after[start + offset..start + offset + |data|] == data
      && after[..start] == m[..start] && after[start + |fill|..] == m[start + |fill|..]
  {
  }

  lemma ReadsBack(f: Flash, addr: nat, data: seq<byte>)
    requires addr + |data| <= |f.memory| <= ADDRESS_SPACE && addr % 2 == 0 && f.memory[addr..addr + |data|] == data
    ensures FlashBytes(f, addr, |data|) == data
  {
    forall i | 0 <= i < |data| ensures FlashBytes(f, addr, |data|)[i] == data[i] {
      BlockAddress(addr, i);
      assert f.memory[addr + i] == f.memory[addr..addr + |data|][i];
    }
  }

  function Other(b: byte): byte {
    if b == 0 then 1 else 0
  }

  /** Only the bytes of the words filled matter: an odd last byte never reaches the fill buffer. */
  lemma {:induction false} OnlyWholeWords(f: Flash, addr: nat, one: seq<byte>, two: seq<byte>, words: nat)
    requires f.Valid() && 2 * words <= |one| && 2 * words <= |two| && one[..2 * words] == two[..2 * words]
    ensures FillWords(f, addr, one, words) == FillWords(f, addr, two, words)
    decreases words
  {
    if 0 < words {
      WordAgrees(one, two, words);
      OnlyWholeWords(f, addr, one, two, words - 1);
      hide Flash.PageFill;
    }
  }

  lemma WordAgrees(one: seq<byte>, two: seq<byte>, words: nat)
    requires 0 < words && 2 * words <= |one| && 2 * words <= |two| && one[..2 * words] == two[..2 * words]
    ensures var k := 2 * (words - 1); one[..k] == two[..k] && one[k] == two[k] && one[k + 1] == two[k + 1]
  {
    var k, n := 2 * (words - 1), 2 * words;
    assert one[..n][..k] == one[..k] && two[..n][..k] == two[..k];
    assert one[k] == one[..n][k] && one[k + 1] == one[..n][k + 1];
  }

  /** Some data of an odd length is read back wrong. */
  lemma OddBlockFails(f: Flash, addr: nat, n: nat) returns (data: seq<byte>)
    requires f.Valid() && n % 2 == 1
    ensures |data| == n && FlashBytes(WriteFlashBlock(f, addr, data), addr, n) != data
  {
    var zeros: seq<byte> := seq(n, _ => 0);
    var read := FlashBytes(WriteFlashBlock(f, addr, zeros), addr, n);
    data := zeros[n - 1 := Other(read[n - 1])];
    OnlyWholeWords(f.PageErase(addr), addr, zeros, data, WholeWords(n));
    hide FillWords, Flash.PageErase, Flash.PageWrite, FlashBytes;
    assert FlashBytes(WriteFlashBlock(f, addr, data), addr, n)[n - 1] == read[n - 1] != data[n - 1];
  }

  /** Some data that runs past the end of the page is read back wrong: the next page is not written. */
  lemma CrossingBlockFails(f: Flash, page: nat, start: nat, offset: nat, n: nat) returns (data: seq<byte>)
    requires f.Valid() && start == page * f.pageSize && start + offset + n <= |f.memory| <= ADDRESS_SPACE
    requires offset % 2 == 0 && offset < f.pageSize < offset + n
    ensures |data| == n && FlashBytes(WriteFlashBlock(f, start + offset, data), start + offset, n) != data
  {
    var k, wrong := f.pageSize - offset, Other(f.memory[start + f.pageSize]);
    data := seq(n, _ => wrong);
    assert |data| == n && data[k] == wrong != f.memory[start + f.pageSize] && 0 < f.pageSize;
    assert f.Valid() && f.pageSize % 2 == 0;
    hide *;
    NextPageKept(f, page, start, offset, data);
    EvenAddress(page, offset, f.pageSize);
    ByteOfBlock(WriteFlashBlock(f, start + offset, data), start + offset, n, k);
  }

  lemma NextPageKept(f: Flash, page: nat, start: nat, offset: nat, data: seq<byte>)
    requires f.Valid() && start == page * f.pageSize && start + f.pageSize < |f.memory| && offset < f.pageSize
    ensures var g := WriteFlashBlock(f, start + offset, data);
      |g.memory| == |f.memory| && g.memory[start + f.pageSize] == f.memory[start + f.pageSize]
  {
    PageReplaced(f, page, start, offset, data);
    BehindPage(f.memory, start, FilledPage(f, start + offset, data).fill);
    hide WriteFlashBlock, FilledPage, Splice;
  }

  lemma BehindPage(memory: seq<byte>, start: nat, fill: seq<byte>)
    requires start + |fill| < |memory|
    ensures Splice(memory, start, fill)[start + |fill|] == memory[start + |fill|]
  {
  }

  lemma ByteOfBlock(g: Flash, addr: nat, n: nat, k: nat)
    requires addr % 2 == 0 && k < n && addr + n <= |g.memory| <= ADDRESS_SPACE
    ensures FlashBytes(g, addr, n)[k] == g.memory[addr + k]
  {
    BlockAddress(addr, k);
  }

  ghost predicate EveryBlockSurvives(f: Flash, addr: nat, n: nat)
    requires f.Valid()
  {
    forall data: seq<byte> :: |data| == n ==> FlashBytes(WriteFlashBlock(f, addr, data), addr, n) == data
  }

  /** Blocks of a length survive, whatever they hold, exactly when they are whole words inside one page. */
  lemma FlashBlockSurvivesIff(f: Flash, page: nat, start: nat, offset: nat, n: nat)
    requires f.Valid() && start == page * f.pageSize && start + f.pageSize <= |f.memory| <= ADDRESS_SPACE
    requires offset % 2 == 0 && offset < f.pageSize && start + offset + n <= |f.memory|
    ensures EveryBlockSurvives(f, start + offset, n) <==> n % 2 == 0 && offset + n <= f.pageSize
  {
    if n % 2 == 1 {
      var data := OddBlockFails(f, start + offset, n);
    } else if f.pageSize < offset + n {
      var data := CrossingBlockFails(f, page, start, offset, n);
    } else {
      FittingBlockSurvives(f, page, start, offset, n);
    }
  }

  lemma FittingBlockSurvives(f: Flash, page: nat, start: nat, offset: nat, n: nat)
    requires f.Valid() && start == page * f.pageSize && start + f.pageSize <= |f.memory| <= ADDRESS_SPACE
    requires offset % 2 == 0 && n % 2 == 0 && offset + n <= f.pageSize && offset < f.pageSize
    ensures EveryBlockSurvives(f, start + offset, n)
  {
    hide WriteFlashBlock, FlashBytes;
    forall data: seq<byte> | |data| == n ensures FlashBytes(WriteFlashBlock(f, start + offset, data), start + offset, n) == data {
      FlashBlockRoundTrip(f, page, start, offset, data);
    }
  }

  // ---------------------------------------------------------------- EEPROM blocks

  lemma {:induction false} EepromBlockWritten(eeprom: seq<byte>, addr: nat, data: seq<byte>, count: nat)
    requires addr % 2 == 0 && count <= |data| && addr / 2 + count <= |eeprom| <= 0x1_0000
    ensures WriteEepromBytes(eeprom, addr, data, count) == Splice(eeprom, addr / 2, data[..count])
    decreases count
  {
    if count == 0 {
      assert Splice(eeprom, addr / 2, []) == eeprom;
    } else {
      var k := count - 1;
      EepromBlockWritten(eeprom, addr, data, k);
      EepromPlace(addr, k);
      assert Splice(eeprom, addr / 2, data[..k])[addr / 2 + k := data[k]] == Splice(eeprom, addr / 2, data[..count]);
    }
  }

  lemma EepromBlockRoundTrip(eeprom: seq<byte>, addr: nat, data: seq<byte>)
    requires addr % 2 == 0 && addr / 2 + |data| <= |eeprom| <= 0x1_0000
    ensures EepromBytes(WriteEepromBlock(eeprom, addr, data), addr, |data|) == data
  {
    EepromBlockWritten(eeprom, addr, data, |data|);
    assert data[..|data|] == data;
    var e := WriteEepromBlock(eeprom, addr, data);
    hide WriteEepromBlock;
    forall i | 0 <= i < |data| ensures EepromBytes(e, addr, |data|)[i] == data[i] {
      EepromPlace(addr, i);
      assert e[addr / 2 + i] == data[i];
    }
  }

  lemma EepromPlace(addr: nat, i: nat)
    requires addr % 2 == 0 && addr / 2 + i < 0x1_0000
    ensures EepromAddress(Advance(addr, 2 * i)) == addr / 2 + i
  {
  }

  // ---------------------------------------------------------------- the commands together

  /** The block fits: in flash whole words inside one page, in EEPROM any bytes inside the device. */
  ghost predicate BlockFits(d: Device, kind: byte, n: nat) {
    && d.flash.Valid() && d.addr % 2 == 0
    && (kind == FLASH ==>
      && d.flash.HasPage(PageNumber(d.addr, d.flash.pageSize)) && |d.flash.memory| <= ADDRESS_SPACE
      && n % 2 == 0 && d.addr % d.flash.pageSize + n <= d.flash.pageSize)
    && (kind == EEPROM ==> d.addr / 2 + n <= |d.eeprom| <= 0x1_0000)
  }

  /** The bytes of a block command. */
  function BlockCommand(letter: byte, high: byte, low: byte, kind: byte, data: seq<byte>): seq<byte> {
    [letter, high, low, kind] + data
  }

  /**
   * Write a block, set the address back, read the block: the answer is what was written, and both transfers
   * leave the address in the same place.
   */
  lemma MemoryRoundTrip(b: Board, d: Device, high: byte, low: byte, kind: byte, data: seq<byte>, ah: byte, al: byte)
    requires |b.signature| == 3 && (kind == FLASH || kind == EEPROM) && |data| == Word(high, low)
    requires BlockFits(d, kind, |data|) && SetAddress(ah, al) == d.addr
    ensures var written := Execute(b, d, BlockCommand(WRITE_BLOCK, high, low, kind, data));
      var back := Execute(b, written.device, [0x41, ah, al]);
      var read := Execute(b, back.device, BlockCommand(READ_BLOCK, high, low, kind, []));
      && written.response == [OK] && written.used == 4 + |data|
      && read.response == data && read.device.addr == written.device.addr
      && read.device.flash == written.device.flash && read.device.eeprom == written.device.eeprom
  {
    var input := BlockCommand(WRITE_BLOCK, high, low, kind, data);
    var again := BlockCommand(READ_BLOCK, high, low, kind, []);
    assert Taken(input, 4, |data|) == data;
    assert At(input, 0) == WRITE_BLOCK && At(input, 1) == high && At(input, 2) == low && At(input, 3) == kind;
    assert At(again, 0) == READ_BLOCK && At(again, 1) == high && At(again, 2) == low && At(again, 3) == kind;
    if kind == FLASH {
      FlashBlockFits(d, data);
    } else {
      EepromBlockRoundTrip(d.eeprom, d.addr, data);
    }
    hide WriteFlashBlock, WriteEepromBlock, FlashBytes, EepromBytes, Word, SetAddress, Advance, Taken, At, Report, EraseFrom, BlockCommand;
    BlockDone(b, d, input, WRITE_BLOCK, kind, |data|);
    var w := Execute(b, d, input).device;
    AddressDone(b, w, ah, al);
    BlockDone(b, w.(addr := d.addr), again, READ_BLOCK, kind, |data|);
  }

  lemma FlashBlockFits(d: Device, data: seq<byte>)
    requires BlockFits(d, FLASH, |data|)
    ensures FlashBytes(WriteFlashBlock(d.flash, d.addr, data), d.addr, |data|) == data
  {
    var size := d.flash.pageSize;
    var offset: nat := d.addr % size;
    assert d.addr == PageNumber(d.addr, size) * size + offset;
    ModKeepsFactor(2, d.addr / 2, size / 2);
    FlashBlockRoundTrip(d.flash, PageNumber(d.addr, size), d.addr - offset, offset, data);
  }

  lemma AddressDone(b: Board, d: Device, ah: byte, al: byte)
    requires |b.signature| == 3 && d.flash.Valid()
    ensures Execute(b, d, [0x41, ah, al]).device == d.(addr := SetAddress(ah, al))
  {
    hide SetAddress, Report, EraseFrom;
  }

  lemma BlockDone(b: Board, d: Device, input: seq<byte>, letter: byte, kind: byte, n: nat)
    requires |b.signature| == 3 && d.flash.Valid() && (letter == WRITE_BLOCK || letter == READ_BLOCK) && (kind == FLASH || kind == EEPROM)
    requires At(input, 0) == letter && At(input, 3) == kind && Word(At(input, 1), At(input, 2)) == n
    ensures Execute(b, d, input) == Block(d, input)
    ensures var o, addr := Block(d, input), if kind == FLASH then Advance(d.addr, 2 * WholeWords(n)) else Advance(d.addr, 2 * n);
      && o.device.addr == addr
      && (letter == READ_BLOCK ==>
        && o.device == d.(addr := addr)
        && o.response == if kind == FLASH then FlashBytes(d.flash, d.addr, n) else EepromBytes(d.eeprom, d.addr, n))
      && (letter == WRITE_BLOCK ==> o.response == [OK] && o.used == 4 + n && o.device == d.(addr := addr,
        flash := if kind == FLASH then WriteFlashBlock(d.flash, d.addr, Taken(input, 4, n)) else d.flash,
        eeprom := if kind == FLASH then d.eeprom else WriteEepromBlock(d.eeprom, d.addr, Taken(input, 4, n))))
  {
    hide WriteFlashBlock, WriteEepromBlock, FlashBytes, EepromBytes, Word, Advance, Taken, At, Report, EraseFrom, Change;
  }

  // ---------------------------------------------------------------- chip erase coverage

  /** The page the erase loop visits at step k: each step is one byte longer than a page. */
  function VisitedPage(k: nat, size: nat): nat
    requires 0 < size
  {
    k + PageNumber(k, size)
  }

  /** Step k is at address k * (size + 1), which is in that page. */
  lemma StepAddress(k: nat, size: nat)
    requires 0 < size
    ensures k * (size + 1) == VisitedPage(k, size) * size + k % size
    ensures PageNumber(k * (size + 1), size) == VisitedPage(k, size)
  {
    var q, r := PageNumber(k, size), k % size;
    assert k == q * size + r;
    assert k * (size + 1) == k * size + k;
    assert (k + q) * size == k * size + q * size;
    DivUnique(k * (size + 1), size, k + q, r);
  }

  ghost predicate Visited(page: nat, size: nat, bootStart: nat)
    requires 0 < size
  {
    exists k: nat :: k * (size + 1) < bootStart && VisitedPage(k, size) == page
  }

  /** Of the application pages, those with remainder `size` modulo `size + 1` are skipped, and only those. */
  lemma VisitedIff(page: nat, size: nat, pages: nat)
    requires 0 < size && page < pages
    ensures Visited(page, size, pages * size) <==> page % (size + 1) != size
  {
    if page % (size + 1) != size {
      ReachedPage(page, size, pages);
    } else if Visited(page, size, pages * size) {
      var k: nat :| k * (size + 1) < pages * size && VisitedPage(k, size) == page;
      VisitedRemainder(k, size);
      assert false;
    }
  }

  lemma ReachedPage(page: nat, size: nat, pages: nat)
    requires 0 < size && page < pages && page % (size + 1) != size
    ensures Visited(page, size, pages * size)
  {
    var m, r := PageNumber(page, size + 1), page % (size + 1);
    assert page == m * (size + 1) + r;
    var k := m * size + r;
    PageOf(m, r, size);
    MulSum(m, size);
    assert VisitedPage(k, size) == page;
    StepAddress(k, size);
    MulMono(page + 1, pages, size);
    MulStep(page, size);
  }

  lemma MulSum(m: nat, size: nat)
    ensures m * (size + 1) == m * size + m
  {
  }

  lemma VisitedRemainder(k: nat, size: nat)
    requires 0 < size
    ensures VisitedPage(k, size) % (size + 1) == k % size
  {
    var q := PageNumber(k, size);
    assert k == q * size + k % size;
    MulSum(q, size);
    DivUnique(k + q, size + 1, q, k % size);
  }

  /** Every application page is visited exactly when there are no more pages than bytes in one. */
  lemma EraseCoverage(size: nat, pages: nat)
    requires 0 < size
    ensures AllVisited(size, pages, pages * size) <==> pages <= size
  {
    var bootStart := pages * size;
    if pages <= size {
      forall page: nat | page < pages ensures Visited(page, size, bootStart) {
        VisitedIff(page, size, pages);
        SmallRemainder(page, size);
      }
    } else {
      VisitedIff(size, size, pages);
      SmallRemainder(size, size);
      assert !Visited(size, size, bootStart);
    }
  }

  ghost predicate AllVisited(size: nat, pages: nat, bootStart: nat)
    requires 0 < size
  {
    forall page: nat :: page < pages ==> Visited(page, size, bootStart)
  }

  lemma SmallRemainder(page: nat, size: nat)
    requires page <= size
    ensures page % (size + 1) == page
  {
    DivUnique(page, size + 1, 0, page);
  }

  /** What the loop has still to blank from step k on. */
  ghost predicate StillVisited(page: nat, from: nat, size: nat, bootStart: nat)
    requires 0 < size
  {
    exists k: nat :: from <= k && k * (size + 1) < bootStart && VisitedPage(k, size) == page
  }

  /** The loop blanks the pages it visits and touches nothing else, once the fill buffer is clear. */
  lemma {:induction false} EraseLoop(f: Flash, k: nat, bootStart: nat, a: nat)
    requires f.Valid() && f.FillClear() && bootStart <= |f.memory| && bootStart % f.pageSize == 0 && a < |f.memory|
    ensures EraseFrom(f, k * (f.pageSize + 1), bootStart).memory[a]
      == if StillVisited(PageNumber(a, f.pageSize), k, f.pageSize, bootStart) then BLANK else f.memory[a]
    decreases bootStart - k
  {
    var size, at := f.pageSize, k * (f.pageSize + 1);
    if at < bootStart {
      var page := VisitedPage(k, size);
      StepAddress(k, size);
      MulStep(k, size + 1);
      var g := f.PageErase(at).PageWrite(at);
      EraseOnePage(f, at, page, bootStart, a);
      assert PageNumber(a, size) == page ==> g.memory[a] == f.fill[a % size] == BLANK;
      assert k < bootStart by { MulMono(1, size + 1, k); }
      EraseLoop(g, k + 1, bootStart, a);
      Unroll(PageNumber(a, size), k, size, bootStart);
    } else {
      NoneLeft(PageNumber(a, size), k, size, bootStart);
    }
  }

  /** One page erased and written holds what was in the fill buffer, which is then clear. */
  lemma EraseOnePage(f: Flash, at: nat, page: nat, bootStart: nat, a: nat)
    requires f.Valid() && bootStart <= |f.memory| && bootStart % f.pageSize == 0 && a < |f.memory| && at < bootStart
    requires PageNumber(at, f.pageSize) == page
    ensures var g := f.PageErase(at).PageWrite(at);
      && g.Valid() && g.FillClear() && g.pageSize == f.pageSize && |g.memory| == |f.memory|
      && g.memory[a] == if PageNumber(a, f.pageSize) == page then f.fill[a % f.pageSize] else f.memory[a]
  {
    var size := f.pageSize;
    var pages := PageNumber(bootStart, size);
    assert bootStart == pages * size;
    DivBound(at, size, pages);
    MulMono(page + 1, pages, size);
    MulStep(page, size);
    var e := f.PageErase(at);
    assert e.memory == Splice(f.memory, page * size, Blanks(size));
    PageIsBlank(f.memory, page * size, size);
    hide Splice;
    BlankPageWritten(e, page);
    PageOf(page, 0, size);
    SamePage(e, at, page * size);
    SpliceTwice(f.memory, page * size, Blanks(size), f.fill);
    assert e.PageWrite(at).memory == Splice(f.memory, page * size, f.fill);
    InOnePage(f.memory, f.fill, page, size, a);
  }

  lemma InOnePage(m: seq<byte>, data: seq<byte>, page: nat, size: nat, a: nat)
    requires 0 < size == |data| && page * size + size <= |m| && a < |m|
    ensures Splice(m, page * size, data)[a] == if PageNumber(a, size) == page then data[a % size] else m[a]
  {
    assert a == PageNumber(a, size) * size + a % size;
    if page * size <= a < page * size + size {
      DivUnique(a, size, page, a - page * size);
    }
    SplicedAt(m, page * size, data, a);
  }

  lemma Unroll(page: nat, k: nat, size: nat, bootStart: nat)
    requires 0 < size && k * (size + 1) < bootStart
    ensures StillVisited(page, k, size, bootStart) <==> page == VisitedPage(k, size) || StillVisited(page, k + 1, size, bootStart)
  {
    if StillVisited(page, k, size, bootStart) {
      var j: nat :| k <= j && j * (size + 1) < bootStart && VisitedPage(j, size) == page;
      if j != k {
        assert k + 1 <= j;
      }
    }
  }

  lemma NoneLeft(page: nat, k: nat, size: nat, bootStart: nat)
    requires 0 < size && bootStart <= k * (size + 1)
    ensures !StillVisited(page, k, size, bootStart)
  {
    if StillVisited(page, k, size, bootStart) {
      var j: nat :| k <= j && j * (size + 1) < bootStart && VisitedPage(j, size) == page;
      MulMono(k, j, size + 1);
      assert false;
    }
  }

  /** Does the loop visit an application page, and which later ones does it skip? */
  predicate ErasedPage(page: nat, size: nat, pages: nat) {
    page < pages && page % (size + 1) != size
  }

  /** Every byte of flash after the 'e' command: the fill buffer in page 0, blank in the other pages visited, as before elsewhere. */
  lemma ChipErase(f: Flash, pages: nat, a: nat)
    requires f.Valid() && pages * f.pageSize <= |f.memory| && a < |f.memory|
    ensures var page := PageNumber(a, f.pageSize);
      EraseFrom(f, 0, pages * f.pageSize).memory[a] ==
        if !ErasedPage(page, f.pageSize, pages) then f.memory[a] else if page == 0 then f.fill[a] else BLANK
  {
    var size, page := f.pageSize, PageNumber(a, f.pageSize);
    if 0 < pages {
      MultipleMod(pages, size);
      MulMono(1, pages, size);
      LaterPages(page, size, pages);
      hide *;
      EraseUpTo(f, pages * size, pages, a);
    } else {
      assert pages * size == 0 && EraseFrom(f, 0, 0) == f && !ErasedPage(page, size, pages);
      hide *;
    }
  }

  lemma EraseUpTo(f: Flash, bootStart: nat, pages: nat, a: nat)
    requires f.Valid() && 0 < bootStart <= |f.memory| && bootStart % f.pageSize == 0 && a < |f.memory|
    requires var page := PageNumber(a, f.pageSize);
      && (StillVisited(page, 1, f.pageSize, bootStart) <==> 0 < page && ErasedPage(page, f.pageSize, pages))
      && ErasedPage(0, f.pageSize, pages)
    ensures var page := PageNumber(a, f.pageSize);
      EraseFrom(f, 0, bootStart).memory[a] ==
        if !ErasedPage(page, f.pageSize, pages) then f.memory[a] else if page == 0 then f.fill[a] else BLANK
  {
    PageOf(0, 0, f.pageSize);
    EraseOnePage(f, 0, 0, bootStart, a);
    FirstOffset(a, f.pageSize);
    FirstStep(f, bootStart);
    hide Flash.PageErase, Flash.PageWrite, StillVisited, EraseFrom, ErasedPage, Flash.FillClear, PageNumber;
    EraseLoop(f.PageErase(0).PageWrite(0), 1, bootStart, a);
  }

  lemma FirstStep(f: Flash, bootStart: nat)
    requires f.Valid() && 0 < bootStart
    ensures EraseFrom(f, 0, bootStart) == EraseFrom(f.PageErase(0).PageWrite(0), 1 * (f.pageSize + 1), bootStart)
  {
  }

  lemma FirstOffset(a: nat, size: nat)
    requires 0 < size
    ensures PageNumber(a, size) == 0 ==> a % size == a
  {
  }

  /** The pages the loop visits after the first one. */
  lemma LaterPages(page: nat, size: nat, pages: nat)
    requires 0 < size && 0 < pages
    ensures StillVisited(page, 1, size, pages * size) <==> 0 < page && ErasedPage(page, size, pages)
    ensures ErasedPage(0, size, pages)
  {
    SmallRemainder(0, size);
    StepAddress(0, size);
    MulMono(1, pages, size);
    Unroll(page, 0, size, pages * size);
    if page < pages {
      VisitedIff(page, size, pages);
      assert StillVisited(page, 0, size, pages * size) <==> Visited(page, size, pages * size);
    }
    if StillVisited(page, 1, size, pages * size) {
      var k: nat :| 1 <= k && k * (size + 1) < pages * size && VisitedPage(k, size) == page;
      StepAddress(k, size);
      DivBound(k * (size + 1), size, pages);
      MulMono(1, k, size + 1);
    }
  }

  /** The application of a device of `pages` pages, with `memory` in its flash, after the 'e' command. */
  ghost predicate BlankAfterErase(f: Flash, memory: seq<byte>, pages: nat)
    requires f.Valid() && pages * f.pageSize <= |memory|
  {
    BlankRange(EraseFrom(f.(memory := memory), 0, pages * f.pageSize).memory, 0, pages * f.pageSize)
  }

  /** 'e' blanks the application, whatever it holds, exactly when the fill buffer is clear and no page is skipped. */
  lemma EraseBlanksIff(f: Flash, pages: nat)
    requires f.Valid() && pages * f.pageSize <= |f.memory|
    ensures (forall memory: seq<byte> | |memory| == |f.memory| :: BlankAfterErase(f, memory, pages))
      <==> pages == 0 || (f.FillClear() && pages <= f.pageSize)
  {
    if pages == 0 || (f.FillClear() && pages <= f.pageSize) {
      forall memory: seq<byte> | |memory| == |f.memory| ensures BlankAfterErase(f, memory, pages) {
        AllBlank(f, memory, pages);
      }
    } else {
      var memory := NotBlank(f, pages);
      assert !BlankAfterErase(f, memory, pages);
    }
  }

  lemma AllBlank(f: Flash, memory: seq<byte>, pages: nat)
    requires f.Valid() && pages * f.pageSize <= |memory| == |f.memory|
    requires pages == 0 || (f.FillClear() && pages <= f.pageSize)
    ensures BlankAfterErase(f, memory, pages)
  {
    var g, size := f.(memory := memory), f.pageSize;
    forall a | 0 <= a < pages * size ensures EraseFrom(g, 0, pages * size).memory[a] == BLANK {
      ChipErase(g, pages, a);
      DivBound(a, size, pages);
      SmallRemainder(PageNumber(a, size), size);
      assert PageNumber(a, size) == 0 ==> a < size;
    }
  }

  lemma NotBlank(f: Flash, pages: nat) returns (memory: seq<byte>)
    requires f.Valid() && pages * f.pageSize <= |f.memory| && 0 < pages && !(f.FillClear() && pages <= f.pageSize)
    ensures |memory| == |f.memory| && !BlankAfterErase(f, memory, pages)
  {
    memory := seq(|f.memory|, _ => 0);
    if f.pageSize < pages {
      SkippedStays(f.(memory := memory), pages);
    } else {
      FillStays(f.(memory := memory), pages);
    }
  }

  /** The first page skipped is as it was. */
  lemma SkippedStays(f: Flash, pages: nat)
    requires f.Valid() && f.pageSize < pages && pages * f.pageSize <= |f.memory| && f.memory == seq(|f.memory|, _ => 0)
    ensures !BlankRange(EraseFrom(f, 0, pages * f.pageSize).memory, 0, pages * f.pageSize)
  {
    var size := f.pageSize;
    MulMono(size + 1, pages, size);
    MulStep(size, size);
    PageOf(size, 0, size);
    SmallRemainder(size, size);
    ChipErase(f, pages, size * size + 0);
    assert f.memory[size * size] == 0;
    hide EraseFrom, PageNumber;
  }

  /** Page 0 takes over a fill buffer that is not clear. */
  lemma FillStays(f: Flash, pages: nat)
    requires f.Valid() && !f.FillClear() && 0 < pages && pages * f.pageSize <= |f.memory|
    ensures !BlankRange(EraseFrom(f, 0, pages * f.pageSize).memory, 0, pages * f.pageSize)
  {
    var size := f.pageSize;
    var a := NotClear(f);
    MulMono(1, pages, size);
    FirstPlace(a, size);
    SmallRemainder(0, size);
    ChipErase(f, pages, a);
    hide EraseFrom, PageNumber;
  }

  lemma NotClear(f: Flash) returns (a: nat)
    requires f.Valid() && !f.FillClear()
    ensures a < f.pageSize && f.fill[a] != BLANK
  {
    a :| a < f.pageSize && f.fill[a] != BLANK;
  }

  lemma FirstPlace(a: nat, size: nat)
    requires a < size
    ensures PageNumber(a, size) == 0
  {
    PageOf(0, a, size);
  }

  // ---------------------------------------------------------------- word by word programming

  /** The word at an even place of the fill buffer, low byte first. */
  function BufferWord(f: Flash, at: nat): (byte, byte)
    requires at + 1 < |f.fill|
  {
    (f.fill[at], f.fill[at + 1])
  }

  /**
   * 'C' with the high byte and then 'c' with the low byte of a word: each fills the whole word. Whichever fill the part
   * keeps, the later one as in Execute or the earlier one, the word sent is there only if it has no high byte.
   */
  lemma HighByteLost(b: Board, d: Device, high: byte, low: byte)
    requires d.flash.Valid() && |b.signature| == 3 && d.addr % 2 == 0
    ensures var first := Execute(b, d, [0x43, high]).device;
      var second := Execute(b, first, [0x63, low]).device;
      var at := d.addr % d.flash.pageSize;
      && 0 <= at && at + 1 < |first.flash.fill| == |second.flash.fill|
      && BufferWord(second.flash, at) == (low, 0) && BufferWord(first.flash, at) == (high, 0)
      && (BufferWord(second.flash, at) == (low, high) <==> high == 0)
      && (BufferWord(first.flash, at) == (low, high) <==> high == 0 && low == 0)
      && second.addr == Advance(d.addr, 2)
  {
    var size := d.flash.pageSize;
    EvenPlace(d.addr, size);
    ByteFills(b, d, 0x43, high);
    var first := Execute(b, d, [0x43, high]).device;
    ByteFills(b, first, 0x63, low);
  }

  lemma EvenPlace(addr: nat, size: nat)
    requires 0 < size && size % 2 == 0 && addr % 2 == 0
    ensures 0 <= addr % size && addr % size % 2 == 0 && addr % size + 1 < size
    ensures (addr + 1) % size == addr % size + 1
  {
    ModKeepsFactor(2, addr / 2, size / 2);
    PlaceInPage(addr, addr % size, 1, size);
  }

  /** Each of the two commands fills the word at the address with its byte and a zero. */
  lemma ByteFills(b: Board, d: Device, letter: byte, data: byte)
    requires d.flash.Valid() && |b.signature| == 3 && d.addr % 2 == 0 && (letter == 0x43 || letter == 0x63)
    ensures var o := Execute(b, d, [letter, data]).device;
      var at := d.addr % d.flash.pageSize;
      && 0 <= at && at + 1 < d.flash.pageSize == |d.flash.fill|
      && o.flash == d.flash.(fill := d.flash.fill[at := data][at + 1 := 0])
      && o.addr == if letter == 0x63 then Advance(d.addr, 2) else d.addr
  {
    EvenPlace(d.addr, d.flash.pageSize);
    var at := d.addr % d.flash.pageSize;
    FillsAt(d.flash, d.addr, at, data);
    FillsAt(d.flash, d.addr + 1, at, data);
    FillChange(b, d, letter, data);
  }

  lemma FillChange(b: Board, d: Device, letter: byte, data: byte)
    requires d.flash.Valid() && |b.signature| == 3 && (letter == 0x43 || letter == 0x63)
    ensures Execute(b, d, [letter, data]).device ==
      if letter == 0x43 then d.(flash := d.flash.PageFill(d.addr, data, 0))
      else d.(flash := d.flash.PageFill(d.addr + 1, data, 0), addr := Advance(d.addr, 2))
  {
  }

  lemma FillsAt(f: Flash, addr: nat, at: nat, data: byte)
    requires f.Valid() && at % 2 == 0 && at + 1 < f.pageSize && (addr % f.pageSize == at || addr % f.pageSize == at + 1)
    ensures f.PageFill(addr, data, 0) == f.(fill := f.fill[at := data][at + 1 := 0])
  {
  }
}
