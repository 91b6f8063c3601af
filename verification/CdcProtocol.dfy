/**
 * The AVR910 command layer of the CDC bootloader as a function on byte streams: what a command does to the
 * memories, what it answers, and how many bytes it takes, however the bytes are cut into packets.
 */
module CdcProtocol {
  import opened Arith
  import opened AvrFlash
  import opened Bytes

  /** The memories and registers; `locks` are the lock bit values handed to the hardware so far. */
  datatype Device = Device(addr: nat, flash: Flash, eeprom: seq<byte>, running: bool, locks: seq<byte>)

  /** What the build and the hardware fix: the boot section, the signature, and the lock and fuse bits read. */
  datatype Board = Board(bootStart: nat, signature: seq<byte>, bits: (byte, seq<byte>) -> byte)

  datatype Outcome = Outcome(device: Device, response: seq<byte>, used: nat)

  const OK: byte := 0x0D
  const FAIL: byte := 0x3F
  const IDENTIFIER: seq<byte> := [0x4C, 0x55, 0x46, 0x41, 0x43, 0x44, 0x43]
  /** The letters of the commands and memory types. */
  const EEPROM: byte := 0x45
  const FLASH: byte := 0x46
  const READ_BLOCK: byte := 0x67
  const WRITE_BLOCK: byte := 0x42

  const ADDRESS_SPACE := 0x1_0000_0000

  /** Byte i of the stream; FetchNextCommandByte returns 0 once the host is gone. */
  function At(input: seq<byte>, i: nat): byte {
    if i < |input| then input[i] else 0
  }

  function Taken(input: seq<byte>, from: nat, n: nat): (s: seq<byte>)
    ensures |s| == n
  {
    seq(n, i requires 0 <= i < n => At(input, from + i))
  }

  /** A byte shifted by nine in a 16-bit signed int and then widened to 32 bits. */
  function ShiftedHigh(high: octet): (a: nat)
    ensures a < ADDRESS_SPACE - 510 && a % 512 == 0 && (a == 512 * high <==> high < 0x40)
  {
    var shifted := (512 * high) % 0x1_0000;
    assert shifted == 512 * (if high < 0x80 then high else high - 0x80);
    if shifted < 0x8000 then shifted else shifted + 0xFFFF_0000
  }

  /** The address of the 'A' command: the shifted high byte, or-ed with the low byte shifted by one. */
  function SetAddress(high: byte, low: byte): (a: nat)
    ensures a < ADDRESS_SPACE && a % 2 == 0
  {
    var h, l := ShiftedHigh(high as int), low as int;
    EvenSum(h, l);
    h + 2 * l
  }

  lemma EvenSum(h: nat, l: nat)
    requires h % 512 == 0
    ensures (h + 2 * l) % 2 == 0
  {
    var n := 256 * (h / 512) + l;
    assert h + 2 * l == 2 * n;
  }

  /** The word address the host sent is reached exactly when its high byte is below 0x40. */
  lemma AddressReached(high: byte, low: byte)
    ensures SetAddress(high, low) == 2 * Word(high, low) <==> (high as int) < 0x40
  {
    hide ShiftedHigh;
    assert ShiftedHigh(high as int) == 512 * (high as int) <==> (high as int) < 0x40;
  }

  function Advance(addr: nat, step: nat): (a: nat)
    ensures a < ADDRESS_SPACE
  {
    (addr + step) % ADDRESS_SPACE
  }

  lemma AdvanceEven(addr: nat, words: nat)
    requires addr % 2 == 0
    ensures Advance(addr, 2 * words) % 2 == 0
  {
  }

  /** The whole words in `n` bytes. */
  function WholeWords(n: nat): (w: nat)
    ensures 2 * w <= n <= 2 * w + 1
  {
    n / 2
  }

  // ---------------------------------------------------------------- blocks

  function FlashBytes(f: Flash, addr: nat, n: nat): (s: seq<byte>)
    ensures |s| == n
  {
    seq(n, i requires 0 <= i < n => f.ReadByte(FlashByteAddress(addr, i)))
  }

  /** The address of the i-th byte of a block: words at the advancing address, low byte first. */
  function FlashByteAddress(addr: nat, i: nat): nat {
    Advance(addr, 2 * WholeWords(i)) + i % 2
  }

  /** The EEPROM byte address: the 32-bit address halved and cut to 16 bits. */
  function EepromAddress(addr: nat): nat {
    (addr / 2) % 0x1_0000
  }

  function WriteEeprom(eeprom: seq<byte>, at: nat, b: byte): (e: seq<byte>)
    ensures |e| == |eeprom|
  {
    if at < |eeprom| then eeprom[at := b] else eeprom
  }

  function EepromBytes(eeprom: seq<byte>, addr: nat, n: nat): (s: seq<byte>)
    ensures |s| == n
  {
    seq(n, i requires 0 <= i < n => ReadEeprom(eeprom, EepromAddress(Advance(addr, 2 * i))))
  }

  /** The first `words` words of `data` put into the fill buffer. */
  function FillWords(f: Flash, addr: nat, data: seq<byte>, words: nat): (g: Flash)
    requires f.Valid() && 2 * words <= |data|
    ensures g.Valid() && g.pageSize == f.pageSize && g.memory == f.memory && g.log == f.log
  {
    if words == 0 then f
    else
      var k := 2 * (words - 1);
      FillWords(f, addr, data, words - 1).PageFill(Advance(addr, k), data[k], data[k + 1])
  }

  /** The flash with the page of the start address erased and the fill buffer filled; an odd last byte is dropped. */
  function FilledPage(f: Flash, addr: nat, data: seq<byte>): (g: Flash)
    requires f.Valid()
    ensures g.Valid() && g.pageSize == f.pageSize && g.memory == f.PageErase(addr).memory
  {
    FillWords(f.PageErase(addr), addr, data, WholeWords(|data|))
  }

  /** A 'B' block to flash: that page then written. */
  function WriteFlashBlock(f: Flash, addr: nat, data: seq<byte>): (g: Flash)
    requires f.Valid()
    ensures g.Valid() && g.pageSize == f.pageSize && |g.memory| == |f.memory|
  {
    FilledPage(f, addr, data).PageWrite(addr)
  }

  /** The first `count` bytes of `data` written to EEPROM. */
  function WriteEepromBytes(eeprom: seq<byte>, addr: nat, data: seq<byte>, count: nat): (e: seq<byte>)
    requires count <= |data|
    ensures |e| == |eeprom|
  {
    if count == 0 then eeprom
    else WriteEeprom(WriteEepromBytes(eeprom, addr, data, count - 1), EepromAddress(Advance(addr, 2 * (count - 1))), data[count - 1])
  }

  function WriteEepromBlock(eeprom: seq<byte>, addr: nat, data: seq<byte>): (e: seq<byte>)
    ensures |e| == |eeprom|
  {
    WriteEepromBytes(eeprom, addr, data, |data|)
  }

  /** ReadWriteMemoryBlock: size high byte first, memory type, and for a write the data. */
  function Block(d: Device, input: seq<byte>): (o: Outcome)
    requires d.flash.Valid()
    ensures o.device.flash.Valid() && o.device.flash.pageSize == d.flash.pageSize
  {
    var n := Word(At(input, 1), At(input, 2));
    var kind := At(input, 3);
    if kind != EEPROM && kind != FLASH then Outcome(d, [FAIL], 4)
    else Transfer(d, At(input, 0) == READ_BLOCK, kind, Taken(input, 4, n), n)
  }

  /** The transfer of `n` bytes from or to one of the two memories. */
  function Transfer(d: Device, read: bool, kind: byte, data: seq<byte>, n: nat): (o: Outcome)
    requires d.flash.Valid() && |data| == n
    ensures o.device.flash.Valid() && o.device.flash.pageSize == d.flash.pageSize
  {
    if kind == FLASH then
      var end := Advance(d.addr, 2 * WholeWords(n));
      if read then Outcome(d.(addr := end), FlashBytes(d.flash, d.addr, n), 4)
      else Outcome(d.(addr := end, flash := WriteFlashBlock(d.flash, d.addr, data)), [OK], 4 + n)
    else
      var end := Advance(d.addr, 2 * n);
      if read then Outcome(d.(addr := end), EepromBytes(d.eeprom, d.addr, n), 4)
      else Outcome(d.(addr := end, eeprom := WriteEepromBlock(d.eeprom, d.addr, data)), [OK], 4 + n)
  }

  // ---------------------------------------------------------------- chip erase

  /** The erase loop from address `at` on: its steps are one byte longer than a page. */
  function EraseFrom(f: Flash, at: nat, bootStart: nat): (g: Flash)
    requires f.Valid()
    ensures g.Valid() && g.pageSize == f.pageSize && |g.memory| == |f.memory|
    decreases bootStart - at
  {
    if at < bootStart then EraseFrom(f.PageErase(at).PageWrite(at), at + 1 + f.pageSize, bootStart) else f
  }

  // ---------------------------------------------------------------- commands

  function Execute(b: Board, d: Device, input: seq<byte>): (o: Outcome)
    requires d.flash.Valid() && |b.signature| == 3
    ensures o.device.flash.Valid() && o.device.flash.pageSize == d.flash.pageSize
  {
    var c := At(input, 0);
    if c == 0x4C || c == 0x50 || c == 0x54 || c == 0x45 then        // L, P, T, E
      Outcome(if c == 0x45 then d.(running := false) else d, [OK], if c == 0x54 then 2 else 1)
    else if c == 0x42 || c == 0x67 then Block(d, input)             // B, g
    else if c == 0x41 || c == 0x65 || c == 0x6C || c == 0x43 || c == 0x63 || c == 0x6D || c == 0x44 || c == 0x64 then
      Change(b, d, input)
    else Outcome(d, Report(b, d, c), 1)
  }

  /** How many bytes a command takes: its letter, its parameters, and for a block write the data. */
  function Used(input: seq<byte>): nat {
    var c := At(input, 0);
    if c == WRITE_BLOCK || c == READ_BLOCK then
      4 + if c == WRITE_BLOCK && (At(input, 3) == EEPROM || At(input, 3) == FLASH) then Word(At(input, 1), At(input, 2)) else 0
    else if c == 0x41 then 3
    else if c == 0x54 || c == 0x6C || c == 0x43 || c == 0x63 || c == 0x44 then 2
    else 1
  }

  /** All bytes of the command are there; otherwise the bootloader waits for the rest. */
  predicate Complete(input: seq<byte>) {
    Used(input) <= |input|
  }

  lemma UsedByInput(b: Board, d: Device, input: seq<byte>)
    requires d.flash.Valid() && |b.signature| == 3
    ensures Execute(b, d, input).used == Used(input)
  {
  }

  /** The commands that only answer. */
  function Report(b: Board, d: Device, c: byte): seq<byte>
    requires d.flash.Valid() && |b.signature| == 3
  {
    if c == 0x74 then [0x44, 0x00]                                  // t
    else if c == 0x61 then [0x59]                                   // a
    else if c == 0x70 then [0x53]                                   // p
    else if c == 0x53 then IDENTIFIER                               // S
    else if c == 0x56 then [0x31, 0x30]                             // V
    else if c == 0x73 then [b.signature[2], b.signature[1], b.signature[0]]  // s
    else if c == 0x62 then [0x59, LowByte(d.flash.pageSize / 256), LowByte(d.flash.pageSize)]  // b
    else if c == 0x72 || c == 0x46 || c == 0x4E || c == 0x51 then [b.bits(c, d.locks)]  // r, F, N, Q
    else if c == 0x52 then [d.flash.ReadByte(d.addr + 1), d.flash.ReadByte(d.addr)]  // R
    else if c == 0x1B then []
    else [FAIL]
  }

  /** The commands that change the address, a memory or the lock bits. */
  function Change(b: Board, d: Device, input: seq<byte>): (o: Outcome)
    requires d.flash.Valid()
    ensures o.device.flash.Valid() && o.device.flash.pageSize == d.flash.pageSize
  {
    var c := At(input, 0);
    if c == 0x41 then Outcome(d.(addr := SetAddress(At(input, 1), At(input, 2))), [OK], 3)           // A
    else if c == 0x65 then Outcome(d.(flash := EraseFrom(d.flash, 0, b.bootStart)), [OK], 1)          // e
    else if c == 0x6C then Outcome(d.(locks := d.locks + [At(input, 1)]), [OK], 2)                   // l
    else if c == 0x43 then Outcome(d.(flash := d.flash.PageFill(d.addr, At(input, 1), 0)), [OK], 2)  // C
    else if c == 0x63 then                                                                           // c
      Outcome(d.(flash := d.flash.PageFill(d.addr + 1, At(input, 1), 0), addr := Advance(d.addr, 2)), [OK], 2)
    else if c == 0x6D then Outcome(d.(flash := d.flash.PageWrite(d.addr)), [OK], 1)                  // m
    else if c == 0x44 then                                                                           // D
      Outcome(d.(eeprom := WriteEeprom(d.eeprom, EepromAddress(d.addr), At(input, 1)), addr := Advance(d.addr, 2)), [OK], 2)
    else Outcome(d.(addr := Advance(d.addr, 2)), [ReadEeprom(d.eeprom, EepromAddress(d.addr))], 1)   // d
  }

  // ---------------------------------------------------------------- framing

  /** The packets of one answer: full ones, and a last one that is short, possibly empty. */
  ghost predicate Framed(size: nat, packets: seq<seq<byte>>, response: seq<byte>) {
    && packets != [] && Concat(packets) == response
    && (forall i :: 0 <= i < |packets| - 1 ==> |packets[i]| == size)
    && |packets[|packets| - 1]| < size
  }

  /** A host that reads up to the first short packet: the bytes, and the packets left. */
  function ReadTransfer(size: nat, packets: seq<seq<byte>>): (seq<byte>, seq<seq<byte>>) {
    if packets == [] then ([], [])
    else if |packets[0]| < size then (packets[0], packets[1..])
    else var more := ReadTransfer(size, packets[1..]); (packets[0] + more.0, more.1)
  }

  /** Such a host gets each answer whole and stops at its end, whatever is sent after it. */
  lemma {:induction false} TransferEnds(size: nat, packets: seq<seq<byte>>, response: seq<byte>, later: seq<seq<byte>>)
    requires Framed(size, packets, response)
    ensures ReadTransfer(size, packets + later) == (response, later)
    decreases |packets|
  {
    assert (packets + later)[1..] == packets[1..] + later;
    if |packets| == 1 {
      assert packets == [packets[0]] && packets[1..] == [];
      assert Concat(packets) == packets[0] + [] == packets[0];
      assert (packets + later)[0] == packets[0] && packets[1..] + later == later;
    } else {
      TransferEnds(size, packets[1..], Concat(packets[1..]), later);
    }
  }

  /** A framed answer has one packet more than it fills. */
  lemma {:induction false} FramedCount(size: nat, packets: seq<seq<byte>>, response: seq<byte>)
    requires 0 < size && Framed(size, packets, response)
    ensures |packets| == |response| / size + 1 && |packets[|packets| - 1]| == |response| % size
    decreases |packets|
  {
    if |packets| == 1 {
      assert packets == [packets[0]] && Concat(packets[1..]) == [];
      DivUnique(|response|, size, 0, |response|);
    } else {
      FramedCount(size, packets[1..], Concat(packets[1..]));
      OneMoreFull(|Concat(packets[1..])|, size);
    }
  }

  lemma OneMoreFull(rest: nat, size: nat)
    requires 0 < size
    ensures (size + rest) / size == rest / size + 1 && (size + rest) % size == rest % size
  {
    var q, o := rest / size, rest % size;
    MulStep(q, size);
    DivUnique(size + rest, size, q + 1, o);
  }
}
