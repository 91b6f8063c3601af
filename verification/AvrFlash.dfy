/** Self-programmed AVR flash: pages, the page fill buffer, and a record of the page operations. */
module AvrFlash {
  import opened Arith
  import opened Bytes

  datatype PageOp = Erase(page: nat) | Write(page: nat)

  const BLANK: byte := 0xFF

  function Blanks(n: nat): seq<byte> {
    seq(n, _ => BLANK)
  }

  datatype Flash = Flash(pageSize: nat, memory: seq<byte>, fill: seq<byte>, log: seq<PageOp>) {
    ghost predicate Valid() {
      0 < pageSize && pageSize % 2 == 0 && |fill| == pageSize
    }

    predicate HasPage(page: nat) {
      page * pageSize + pageSize <= |memory|
    }

    /** The fill buffer as it is after a reset or a page write. */
    ghost predicate FillClear() {
      fill == Blanks(pageSize)
    }

    /** The memory with one page replaced; a page past the end has no memory. */
    function WithPage(page: nat, data: seq<byte>): (m: seq<byte>)
      requires |data| == pageSize
      ensures |m| == |memory|
    {
      if HasPage(page) then Splice(memory, page * pageSize, data) else memory
    }

    /** boot_page_erase: blanks the page that contains the address. */
    function PageErase(addr: nat): (f: Flash)
      requires 0 < pageSize
      ensures f.pageSize == pageSize && f.fill == fill && |f.memory| == |memory|
    {
      this.(memory := WithPage(addr / pageSize, Blanks(pageSize)), log := log + [Erase(addr / pageSize)])
    }

    /** boot_page_fill: puts a word, low byte first, at the address's place in the fill buffer. */
    function PageFill(addr: nat, low: byte, high: byte): (f: Flash)
      requires Valid()
      ensures f.Valid() && f.pageSize == pageSize && f.memory == memory && f.log == log
    {
      var at := addr % pageSize - addr % pageSize % 2;
      this.(fill := fill[at := low][at + 1 := high])
    }

    /** boot_page_write: programming only clears bits; the fill buffer is cleared. */
    function PageWrite(addr: nat): (f: Flash)
      requires 0 < pageSize && |fill| == pageSize
      ensures f.pageSize == pageSize == |f.fill| && |f.memory| == |memory|
    {
      this.(memory := WithPage(addr / pageSize, Programmed(addr / pageSize)), fill := Blanks(pageSize),
            log := log + [Write(addr / pageSize)])
    }

    /** What programming the page leaves in it. */
    function Programmed(page: nat): (s: seq<byte>)
      requires |fill| == pageSize
      ensures |s| == pageSize
    {
      seq(pageSize, i requires 0 <= i < pageSize => ReadByte(page * pageSize + i) & fill[i])
    }

    /** pgm_read_byte. */
    function ReadByte(addr: nat): byte {
      if addr < |memory| then memory[addr] else BLANK
    }
  }

  /** eeprom_read_byte; an address outside the device reads as blank. */
  function ReadEeprom(eeprom: seq<byte>, addr: nat): byte {
    if addr < |eeprom| then eeprom[addr] else BLANK
  }

  /** A page erased and then written holds the fill buffer. */
  lemma ErasedThenWritten(f: Flash, page: nat)
    requires f.Valid() && f.HasPage(page) && f.memory[page * f.pageSize..page * f.pageSize + f.pageSize] == Blanks(f.pageSize)
    ensures f.Programmed(page) == f.fill
  {
    forall i | 0 <= i < f.pageSize ensures f.Programmed(page)[i] == f.fill[i] {
      var start := page * f.pageSize;
      assert f.ReadByte(start + i) == f.memory[start..start + f.pageSize][i];
      assert BLANK & f.fill[i] == f.fill[i];
    }
  }

  function WrittenFlash(f: Flash, page: nat): Flash
    requires |f.fill| == f.pageSize && f.HasPage(page)
  {
    f.(memory := Splice(f.memory, page * f.pageSize, f.fill), fill := Blanks(f.pageSize), log := f.log + [Write(page)])
  }

  /** Writing an erased page moves the fill buffer into it. */
  lemma BlankPageWritten(f: Flash, page: nat)
    requires f.Valid() && f.HasPage(page)
    requires forall a :: page * f.pageSize <= a < page * f.pageSize + f.pageSize ==> f.memory[a] == BLANK
    ensures f.PageWrite(page * f.pageSize) == WrittenFlash(f, page)
  {
    PageOf(page, 0, f.pageSize);
    assert f.memory[page * f.pageSize..page * f.pageSize + f.pageSize] == Blanks(f.pageSize);
    ErasedThenWritten(f, page);
  }

  /** An aligned page start is in its page. */
  lemma PageOf(page: nat, offset: nat, size: nat)
    requires offset < size
    ensures (page * size + offset) / size == page && (page * size + offset) % size == offset
  {
    DivUnique(page * size + offset, size, page, offset);
  }

  /** The page an address is in. */
  function PageNumber(addr: nat, size: nat): nat
    requires 0 < size
  {
    addr / size
  }

  /** Blank from `from` up to `to`. */
  ghost predicate BlankRange(memory: seq<byte>, from: nat, end: nat) {
    end <= |memory| && forall a :: from <= a < end ==> memory[a] == BLANK
  }
}
