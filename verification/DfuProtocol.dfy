/**
 * The control requests of the DFU bootloader (USB DFU 1.1, section 6, with Atmel's command layer) on values: how filler
 * is framed, and what every request does to the registers and the memories and answers.
 */
module DfuProtocol {
  import opened AvrFlash
  import opened Bytes
  import opened Endpoint

  const CONTROL_SIZE := 32
  const FILLER_SIZE := 26
  const SUFFIX_SIZE := 16

  const PROG_START: byte := 0x01
  const DISP_DATA: byte := 0x03
  const WRITE: byte := 0x04
  const READ: byte := 0x05
  const CHANGE_BASE_ADDR: byte := 0x06

  datatype DfuState = DfuIdle | DfuDnloadIdle | DfuUploadIdle | DfuError

  datatype DfuStatus = Ok | ErrWrite | ErrCheckErased

  /** A control request, with the data stage the host sends or the length it asks for. */
  datatype Request =
    | Dnload(packets: seq<seq<byte>>)
    | Upload(wLength: nat)
    | GetStatus(wLength: nat)
    | ClrStatus(wLength: nat)
    | GetState(wLength: nat)
    | Abort(wLength: nat)
  {
    function Length(): nat {
      if Dnload? then |Concat(packets)| else wLength
    }

    /** A data stage comes in packets of at most the endpoint size, without empty ones. */
    ghost predicate Proper() {
      Dnload? ==> NonEmpty(packets) && forall i :: 0 <= i < |packets| ==> |packets[i]| <= CONTROL_SIZE
    }
  }

  function StateCode(s: DfuState): byte {
    match s case DfuIdle => 2 case DfuDnloadIdle => 5 case DfuUploadIdle => 9 case DfuError => 10
  }

  function StatusCode(s: DfuStatus): byte {
    match s case Ok => 0 case ErrWrite => 3 case ErrCheckErased => 5
  }

  /** A 16-bit address on a 64KB page of the flash. */
  function LongAddress(addr: nat, page64: octet): (a: nat)
    ensures addr <= a
  {
    addr + 0x1_0000 * page64
  }

  // ---------------------------------------------------------------- discarding filler

  /** DiscardFillerBytes as a function: an empty bank costs one count and no byte. */
  function Discarded(p: OutPipe, n: nat): OutPipe
    decreases n
  {
    if n == 0 then p
    else if p.bank != [] then Discarded(p.AfterRead(1), n - 1)
    else if p.pending == [] then p.Clear()
    else Discarded(p.Clear().Await(), n - 1)
  }

  /** Discarding within the bank is exact. */
  lemma {:induction false} DiscardInBank(p: OutPipe, n: nat)
    requires n <= |p.bank|
    ensures Discarded(p, n) == p.AfterRead(n)
    decreases n
  {
    if 0 < n {
      DiscardInBank(p.AfterRead(1), n - 1);
      assert p.AfterRead(1).AfterRead(n - 1) == p.AfterRead(n);
    } else {
      assert p.AfterRead(0) == p;
    }
  }

  ghost predicate NonEmpty(packets: seq<seq<byte>>) {
    forall i :: 0 <= i < |packets| ==> packets[i] != []
  }

  /** Never more bytes go than were asked for. */
  lemma {:induction false} DiscardAtMost(p: OutPipe, n: nat)
    ensures |p.Stream()| <= |Discarded(p, n).Stream()| + n
    decreases n
  {
    if 0 < n {
      if p.bank != [] {
        DiscardAtMost(p.AfterRead(1), n - 1);
      } else if p.pending != [] {
        DiscardAtMost(p.Clear().Await(), n - 1);
      }
    }
  }

  /** Filler is framed exactly when it ends inside the current packet or on its edge. */
  lemma DiscardExactIff(p: OutPipe, n: nat)
    requires NonEmpty(p.pending) && n <= |p.Stream()|
    ensures Discarded(p, n).Stream() == p.Stream()[n..] <==> n <= |p.bank|
  {
    if n <= |p.bank| {
      DiscardInBank(p, n);
      assert p.AfterRead(n).Stream() == p.Stream()[n..];
    } else {
      DiscardInBankThen(p, |p.bank|, n);
      var q := p.AfterRead(|p.bank|);
      assert q.bank == [] && q.pending != [];
      DiscardAtMost(q.Clear().Await(), n - |p.bank| - 1);
      assert |q.Clear().Await().Stream()| == |p.Stream()| - |p.bank|;
    }
  }

  lemma {:induction false} DiscardInBankThen(p: OutPipe, k: nat, n: nat)
    requires k <= |p.bank| && k <= n
    ensures Discarded(p, n) == Discarded(p.AfterRead(k), n - k)
    decreases k
  {
    if 0 < k {
      DiscardInBankThen(p.AfterRead(1), k - 1, n - 1);
      assert p.AfterRead(1).AfterRead(k - 1) == p.AfterRead(k);
    } else {
      assert p.AfterRead(0) == p;
    }
  }

  /**
   * The firmware is found exactly when the start address needs no alignment filler: the command and the fixed
   * filler fill the first packet, so any alignment filler starts with a packet change.
   */
  lemma AlignmentFraming(filler: seq<byte>, rest: seq<seq<byte>>, startAddr: nat, align: seq<byte>, firmware: seq<byte>)
    requires |filler| == FILLER_SIZE && NonEmpty(rest) && |align| == startAddr % CONTROL_SIZE
    requires Concat(rest) == align + firmware
    ensures var p := Discarded(Discarded(OutPipe(true, filler, rest), FILLER_SIZE), startAddr % CONTROL_SIZE);
      p.Stream() == firmware <==> startAddr % CONTROL_SIZE == 0
  {
    var p := OutPipe(true, filler, rest);
    DiscardInBank(p, FILLER_SIZE);
    var q := p.AfterRead(FILLER_SIZE);
    assert q.bank == [] && q.Stream() == align + firmware;
    DiscardExactIff(q, |align|);
    assert (align + firmware)[|align|..] == firmware;
  }

  // ---------------------------------------------------------------- registers and commands

  /** The bootloader's globals but for the memories: all its answers may depend on while it is secure. */
  datatype Registers = Registers(isSecure: bool, runBootloader: bool, waitForExit: bool, state: DfuState, status: DfuStatus,
    command: byte, data: seq<byte>, dataSize: nat, response: byte, appStart: nat, flash64KBPage: octet, startAddr: nat, endAddr: nat)

  /** How many parameter bytes a packet carries behind its command. */
  function ParameterCount(first: seq<byte>): nat {
    if |first| == 0 then 0 else if |first| - 1 < 5 then |first| - 1 else 5
  }

  /** The parameters of a command, over those of the command before. */
  function Parameters(first: seq<byte>, before: seq<byte>): (data: seq<byte>)
    requires |before| == 5 && first != []
    ensures |data| == 5
  {
    first[1..1 + ParameterCount(first)] + before[ParameterCount(first)..]
  }

  /** The first packet of a data stage loaded: the command, its parameters, and the size less by both. */
  function Loaded(r: Registers, first: seq<byte>, total: nat): (l: Registers)
    requires |r.data| == 5 && first != [] && |first| <= total
    ensures |l.data| == 5
  {
    r.(command := first[0], data := Parameters(first, r.data), dataSize := total - 1 - ParameterCount(first))
  }

  predicate IsEraseCommand(r: Registers)
    requires |r.data| == 5
  {
    r.command == WRITE && r.data[0] == 0x00 && r.data[1] == 0xFF
  }

  /** The bootloader information and signature tables; an index outside them reads `stray`. */
  datatype Tables = Tables(info: seq<byte>, signature: seq<byte>, stray: byte)

  function ReadCommand(t: Tables, r: Registers): byte
    requires |r.data| == 5
  {
    var i := r.data[1] as int;
    if r.data[0] == 0x00 then (if i < |t.info| then t.info[i] else t.stray)
    else if r.data[0] == 0x01 then (if 0x30 <= i < 0x30 + |t.signature| then t.signature[i - 0x30] else t.stray)
    else r.response
  }

  /** Start and end address from the command's parameters. */
  function WithAddresses(r: Registers): Registers
    requires |r.data| == 5
  {
    r.(startAddr := Word(r.data[1], r.data[2]), endAddr := Word(r.data[3], r.data[4]))
  }

  /** The memory program command: the addresses, and for flash the first page erased. */
  function MemProg(r: Registers, f: Flash): (Registers, Flash)
    requires |r.data| == 5 && f.Valid()
  {
    if r.data[0] != 0x00 && r.data[0] != 0x01 then (r, f)
    else
      var l := WithAddresses(r).(state := DfuDnloadIdle);
      (l, if r.data[0] == 0x00 then f.PageErase(LongAddress(l.startAddr, l.flash64KBPage)) else f)
  }

  /** The first byte of the application that is not blank, or its end. */
  function FirstNotBlank(f: Flash, from: nat, bootStart: nat): (a: nat)
    requires from <= bootStart
    ensures from <= a <= bootStart && (a < bootStart ==> f.ReadByte(a) != BLANK)
    ensures forall b :: from <= b < a ==> f.ReadByte(b) == BLANK
    decreases bootStart - from
  {
    if from == bootStart || f.ReadByte(from) != BLANK then from else FirstNotBlank(f, from + 1, bootStart)
  }

  /** The memory read command: the set-up of an upload, or the blank check. */
  function MemRead(r: Registers, f: Flash, bootStart: nat): Registers
    requires |r.data| == 5
  {
    if r.data[0] == 0x00 || r.data[0] == 0x02 then WithAddresses(r).(state := DfuUploadIdle)
    else if r.data[0] == 0x01 then
      var a := FirstNotBlank(f, 0, bootStart);
      if a == bootStart then r
      else r.(flash64KBPage := a / 0x1_0000 % 256, startAddr := a % 0x1_0000, state := DfuError, status := ErrCheckErased)
    else r
  }

  /** Every page from `at` up to the boot section erased and written. */
  function ErasedFrom(f: Flash, at: nat, bootStart: nat): (g: Flash)
    requires f.Valid()
    ensures g.Valid() && g.pageSize == f.pageSize && |g.memory| == |f.memory|
    decreases bootStart - at
  {
    if bootStart <= at then f else ErasedFrom(f.PageErase(at).PageWrite(at), at + f.pageSize, bootStart)
  }

  /** The write command: application start, or the chip erase that ends secure mode. */
  function WriteCommand(r: Registers, f: Flash, bootStart: nat): (Registers, Flash)
    requires |r.data| == 5 && f.Valid()
  {
    if r.data[0] == 0x03 then
      if r.dataSize == 0 && r.data[1] != 0x00 then
        (r.(waitForExit := true, appStart := Word(r.data[3], r.data[4]), runBootloader := false), f)
      else (r.(waitForExit := true), f)
    else if r.data[0] == 0x00 && r.data[1] == 0xFF then (r.(isSecure := false), ErasedFrom(f, 0, bootStart))
    else (r, f)
  }

  function Dispatched(t: Tables, r: Registers, f: Flash, bootStart: nat): (Registers, Flash)
    requires |r.data| == 5 && f.Valid()
  {
    if r.command == WRITE then WriteCommand(r, f, bootStart)
    else if r.command == READ then (r.(response := ReadCommand(t, r)), f)
    else if r.command == PROG_START then MemProg(r, f)
    else if r.command == DISP_DATA then (MemRead(r, f, bootStart), f)
    else if r.command == CHANGE_BASE_ADDR && r.data[0] == 0x03 && r.data[1] == 0x00 then
      (r.(flash64KBPage := r.data[2] as int), f)
    else (r, f)
  }

  /** What a command does to the registers and the flash. */
  function Commanded(t: Tables, r: Registers, f: Flash, bootStart: nat): (Registers, Flash)
    requires |r.data| == 5 && f.Valid()
  {
    if r.isSecure && !IsEraseCommand(r) && r.command != READ then (r.(state := DfuError, status := ErrWrite), f)
    else Dispatched(t, r, f, bootStart)
  }

  /** A command leaves parameters and size as they are, and the flash a flash; nothing sets the secure flag. */
  ghost predicate Keeps(r: Registers, f: Flash, c: (Registers, Flash)) {
    && c.0.data == r.data && c.0.dataSize == r.dataSize
    && c.1.Valid() && c.1.pageSize == f.pageSize && |c.1.memory| == |f.memory|
    && (c.0.isSecure ==> r.isSecure)
  }

  lemma CommandKeeps(t: Tables, r: Registers, f: Flash, bootStart: nat)
    requires |r.data| == 5 && f.Valid()
    ensures Keeps(r, f, Commanded(t, r, f, bootStart))
  {
    WriteKeeps(r, f, bootStart);
    ProgKeeps(r, f);
    ReadKeeps(r, f, bootStart);
    hide WriteCommand, MemProg, MemRead, ReadCommand;
  }

  lemma WriteKeeps(r: Registers, f: Flash, bootStart: nat)
    requires |r.data| == 5 && f.Valid()
    ensures Keeps(r, f, WriteCommand(r, f, bootStart))
  {
    hide ErasedFrom, Word;
  }

  lemma ProgKeeps(r: Registers, f: Flash)
    requires |r.data| == 5 && f.Valid()
    ensures Keeps(r, f, MemProg(r, f))
  {
    hide Flash.PageErase, Word, LongAddress;
  }

  lemma ReadKeeps(r: Registers, f: Flash, bootStart: nat)
    requires |r.data| == 5 && f.Valid()
    ensures Keeps(r, f, (MemRead(r, f, bootStart), f))
  {
    hide FirstNotBlank, Word;
  }

  // ---------------------------------------------------------------- the data of a download

  /** A byte of the bank; reading past the end of a packet yields nothing of use. */
  function BankByte(p: OutPipe, i: nat): byte {
    if i < |p.bank| then p.bank[i] else 0
  }

  function AfterWord(p: OutPipe): OutPipe {
    p.AfterRead(if 2 <= |p.bank| then 2 else |p.bank|)
  }

  function AfterByte(p: OutPipe): OutPipe {
    p.AfterRead(if p.bank == [] then 0 else 1)
  }

  /** The bank the firmware reads from next, when there is one. */
  function NextBank(p: OutPipe): OutPipe {
    if p.bank == [] && p.pending != [] then p.Clear().Await() else p
  }

  predicate HostGone(p: OutPipe) {
    p.bank == [] && p.pending == []
  }

  /** The flash download between two words: `count` words of the page that starts at `pageStart` are in the fill buffer. */
  datatype WordLoop = WordLoop(f: Flash, p: OutPipe, pageStart: nat, addr: nat, count: nat)

  /** One word, and the page if it is complete. `left` counts the words after it. */
  function OneWord(s: WordLoop, left: nat): (n: WordLoop)
    requires s.f.Valid()
    ensures n.f.Valid() && n.f.pageSize == s.f.pageSize && |n.f.memory| == |s.f.memory|
  {
    var g := s.f.PageFill(s.addr, BankByte(s.p, 0), BankByte(s.p, 1));
    var next := s.addr + 2;
    if s.count + 1 == g.pageSize / 2 || left == 0 then
      if left == 0 then WordLoop(g.PageWrite(s.pageStart), AfterWord(s.p), s.pageStart, next, s.count + 1)
      else WordLoop(g.PageWrite(s.pageStart).PageErase(next), AfterWord(s.p), next, next, 0)
    else WordLoop(g, AfterWord(s.p), s.pageStart, next, s.count + 1)
  }

  /** The words of a flash download; false when the host went away. */
  function WordsWritten(s: WordLoop, left: nat): (n: (WordLoop, bool))
    requires s.f.Valid()
    ensures n.0.f.Valid() && n.0.f.pageSize == s.f.pageSize && |n.0.f.memory| == |s.f.memory|
    decreases left
  {
    if left == 0 then (s, true)
    else if HostGone(s.p) then (s.(p := s.p.Clear()), false)
    else WordsWritten(OneWord(s.(p := NextBank(s.p)), left - 1), left - 1)
  }

  lemma WordsStep(s: WordLoop, left: nat)
    requires s.f.Valid()
    ensures left == 0 ==> WordsWritten(s, left) == (s, true)
    ensures 0 < left && HostGone(s.p) ==> WordsWritten(s, left) == (s.(p := s.p.Clear()), false)
    ensures 0 < left && !HostGone(s.p) ==> WordsWritten(s, left) == WordsWritten(OneWord(s.(p := NextBank(s.p)), left - 1), left - 1)
  {
  }

  datatype ByteLoop = ByteLoop(e: seq<byte>, p: OutPipe, addr: nat)

  /** One byte to EEPROM; an address outside the device is ignored, and addresses have 16 bits. */
  function OneByte(s: ByteLoop): (n: ByteLoop)
    ensures |n.e| == |s.e|
  {
    ByteLoop(if s.addr < |s.e| then s.e[s.addr := BankByte(s.p, 0)] else s.e, AfterByte(s.p), (s.addr + 1) % 0x1_0000)
  }

  /** The bytes of an EEPROM download. */
  function BytesWritten(s: ByteLoop, left: nat): (n: (ByteLoop, bool))
    ensures |n.0.e| == |s.e|
    decreases left
  {
    if left == 0 then (s, true)
    else if HostGone(s.p) then (s.(p := s.p.Clear()), false)
    else BytesWritten(OneByte(s.(p := NextBank(s.p))), left - 1)
  }

  /** The number of bytes from the start to the end address, in 16 bits. */
  function BytesRemaining(r: Registers): nat {
    (r.endAddr - r.startAddr + 1) % 0x1_0000
  }

  /** The bootloader's globals and the two memories. */
  datatype Device = Device(r: Registers, f: Flash, e: seq<byte>)

  /** The stream behind the fixed filler and the alignment filler. */
  function AtData(r: Registers, p: OutPipe): OutPipe {
    Discarded(Discarded(p, FILLER_SIZE), r.startAddr % CONTROL_SIZE)
  }

  /** The flash branch: the words of the range, and the start address moved to its end if the host stayed. */
  function FlashPart(d: Device, q: OutPipe): Device
    requires d.f.Valid()
  {
    var start := LongAddress(d.r.startAddr, d.r.flash64KBPage);
    var n := WordsWritten(WordLoop(d.f, q, start, start, 0), BytesRemaining(d.r) / 2);
    d.(f := n.0.f, r := d.r.(startAddr := if n.1 then d.r.endAddr else d.r.startAddr))
  }

  /** The EEPROM branch: the bytes of the range, the start address counting along. */
  function EepromPart(d: Device, q: OutPipe): Device {
    var n := BytesWritten(ByteLoop(d.e, q, d.r.startAddr), BytesRemaining(d.r));
    d.(e := n.0.e, r := d.r.(startAddr := n.0.addr))
  }

  /** The second half of a DNLOAD request: nothing, the end of the download, or its data. */
  function Received(d: Device, p: OutPipe): Device
    requires |d.r.data| == 5 && d.f.Valid()
  {
    if d.r.state != DfuDnloadIdle then d
    else if d.r.dataSize == 0 then d.(r := d.r.(state := DfuIdle))
    else if d.r.data[0] == 0x00 then FlashPart(d, AtData(d.r, p))
    else EepromPart(d, AtData(d.r, p))
  }

  /** What is left of the packets behind the data of a range, and whether the host stayed. */
  function DataLeft(d: Device, q: OutPipe): (OutPipe, bool)
    requires |d.r.data| == 5 && d.f.Valid()
  {
    if d.r.data[0] == 0x00 then
      var start := LongAddress(d.r.startAddr, d.r.flash64KBPage);
      var n := WordsWritten(WordLoop(d.f, q, start, start, 0), BytesRemaining(d.r) / 2);
      (n.0.p, n.1)
    else
      var n := BytesWritten(ByteLoop(d.e, q, d.r.startAddr), BytesRemaining(d.r));
      (n.0.p, n.1)
  }

  /** What is left of the packets of a DNLOAD request: the file suffix is discarded, and the bank given back. */
  function StageLeft(d: Device, p: OutPipe): OutPipe
    requires |d.r.data| == 5 && d.f.Valid()
  {
    if d.r.state != DfuDnloadIdle || d.r.dataSize == 0 then p.Clear()
    else
      var left := DataLeft(d, AtData(d.r, p));
      if left.1 then Discarded(left.0, SUFFIX_SIZE).Clear() else left.0
  }

  // ---------------------------------------------------------------- a whole request

  /** The command a bootloader that waits for exit processes again, whatever the request. */
  function ExitPending(t: Tables, r: Registers, f: Flash, bootStart: nat): (c: (Registers, Flash))
    requires |r.data| == 5 && f.Valid()
    ensures |c.0.data| == 5 && c.0.dataSize == r.dataSize && c.1.Valid() && c.1.pageSize == f.pageSize && |c.1.memory| == |f.memory|
  {
    CommandKeeps(t, r, f, bootStart);
    var c := Commanded(t, r, f, bootStart);
    if r.waitForExit then (c.0.(waitForExit := false), c.1) else (r, f)
  }

  /** The first half of a DNLOAD request with a data stage: its command. */
  function CommandTaken(t: Tables, r: Registers, f: Flash, first: seq<byte>, bootStart: nat): (c: (Registers, Flash))
    requires |r.data| == 5 && f.Valid() && first != [] && |first| <= r.dataSize
    ensures |c.0.data| == 5 && c.1.Valid() && c.1.pageSize == f.pageSize && |c.1.memory| == |f.memory|
  {
    CommandKeeps(t, Loaded(r, first, r.dataSize), f, bootStart);
    Commanded(t, Loaded(r, first, r.dataSize), f, bootStart)
  }

  function AfterParameters(p: OutPipe): OutPipe
    requires p.bank != []
  {
    p.AfterRead(1 + ParameterCount(p.bank))
  }

  /** What is left of the first packet and the others once the command is read. */
  function BehindCommand(packets: seq<seq<byte>>): OutPipe
    requires packets != [] && packets[0] != []
  {
    AfterParameters(OutPipe(true, packets[0], packets[1..]))
  }

  /** The first half of a DNLOAD request of `d.r.dataSize` bytes: the device once its command is processed, and the packets left. */
  function CommandPart(t: Tables, d: Device, packets: seq<seq<byte>>, bootStart: nat): (c: (Device, OutPipe))
    requires |d.r.data| == 5 && d.f.Valid() && d.r.dataSize == |Concat(packets)| && (Concat(packets) != [] ==> packets != [] && packets[0] != [])
    ensures |c.0.r.data| == 5 && c.0.f.Valid() && c.0.f.pageSize == d.f.pageSize && |c.0.f.memory| == |d.f.memory|
  {
    var x := ExitPending(t, d.r, d.f, bootStart);
    if d.r.dataSize == 0 then (Device(x.0, x.1, d.e), OutPipe(false, [], packets))
    else
      Total(packets);
      var c := CommandTaken(t, x.0, x.1, packets[0], bootStart);
      (Device(c.0, c.1, d.e), BehindCommand(packets))
  }

  /** Both halves. */
  function Dnloaded(t: Tables, d: Device, packets: seq<seq<byte>>, bootStart: nat): Device
    requires |d.r.data| == 5 && d.f.Valid() && d.r.dataSize == |Concat(packets)| && (Concat(packets) != [] ==> packets != [] && packets[0] != [])
  {
    var c := CommandPart(t, d, packets, bootStart);
    Received(c.0, c.1)
  }

  /** The packets such a request leaves in the endpoint. */
  function DnloadLeft(t: Tables, d: Device, packets: seq<seq<byte>>, bootStart: nat): OutPipe
    requires |d.r.data| == 5 && d.f.Valid() && d.r.dataSize == |Concat(packets)| && (Concat(packets) != [] ==> packets != [] && packets[0] != [])
  {
    var c := CommandPart(t, d, packets, bootStart);
    StageLeft(c.0, c.1)
  }

  lemma ReceivedKeepsSize(d: Device, p: OutPipe)
    requires |d.r.data| == 5 && d.f.Valid()
    ensures var n := Received(d, p); n.f.pageSize == d.f.pageSize && |n.f.memory| == |d.f.memory|
  {
    hide WordsWritten, BytesWritten, AtData, BytesRemaining, LongAddress;
  }

  lemma Total(packets: seq<seq<byte>>)
    requires Concat(packets) != []
    ensures packets != [] && |packets[0]| <= |Concat(packets)|
  {
  }

  function FlashBytes(f: Flash, addr: nat, n: nat): (s: seq<byte>)
    ensures |s| == n
  {
    seq(n, i requires 0 <= i < n => f.ReadByte(addr + i))
  }

  function EepromBytes(eeprom: seq<byte>, addr: nat, n: nat): (s: seq<byte>)
    ensures |s| == n
  {
    seq(n, i requires 0 <= i < n => ReadEeprom(eeprom, (addr + i) % 0x1_0000))
  }

  lemma FlashBytesGrow(f: Flash, addr: nat, n: nat, before: seq<byte>)
    ensures before + FlashBytes(f, addr, n + 2) == before + FlashBytes(f, addr, n) + [f.ReadByte(addr + n)] + [f.ReadByte(addr + n + 1)]
  {
    assert FlashBytes(f, addr, n + 2) == FlashBytes(f, addr, n) + [f.ReadByte(addr + n)] + [f.ReadByte(addr + n + 1)];
  }

  lemma EepromBytesGrow(eeprom: seq<byte>, addr: nat, n: nat)
    ensures EepromBytes(eeprom, addr, n + 1) == EepromBytes(eeprom, addr, n) + [ReadEeprom(eeprom, (addr + n) % 0x1_0000)]
    ensures ((addr + n) % 0x1_0000 + 1) % 0x1_0000 == (addr + n + 1) % 0x1_0000
  {
  }

  lemma ClearKeepsStream(p: InPipe)
    ensures p.Clear().Stream() == p.Stream()
  {
    ConcatAppend(p.sent, p.bank);
  }

  lemma ClearSendsAll(p: InPipe)
    ensures Concat(p.Clear().sent) == p.Stream()
  {
    ConcatAppend(p.sent, p.bank);
  }

  lemma WriteExtends(p: InPipe, b: byte)
    requires p.ReadWriteAllowed()
    ensures p.Write(b).Stream() == p.Stream() + [b]
  {
  }

  lemma EmptyStream(p: InPipe)
    requires p.sent == [] && p.bank == []
    ensures p.Stream() == []
  {
  }

  lemma OnePacket(p: InPipe)
    requires p.sent == []
    ensures p.Stream() == p.bank
  {
  }

  lemma SentOne(p: InPipe)
    requires |p.sent| == 1
    ensures Concat(p.sent) == p.sent[0]
  {
    assert p.sent[1..] == [];
  }

  lemma NothingSent()
    ensures Concat([]) == []
  {
  }

  /** The packets of a data stage to the host: all but the last are full, and that is not empty behind others. */
  ghost predicate InPackets(sent: seq<seq<byte>>) {
    && (forall i :: 0 <= i < |sent| ==> |sent[i]| <= CONTROL_SIZE && (i < |sent| - 1 ==> |sent[i]| == CONTROL_SIZE))
    && (1 < |sent| ==> sent[|sent| - 1] != [])
  }

  ghost predicate AllFull(sent: seq<seq<byte>>) {
    forall i :: 0 <= i < |sent| ==> |sent[i]| == CONTROL_SIZE
  }

  /** A data stage being written: a bank is sent when it is full and there is more. */
  ghost predicate Uploading(p: InPipe) {
    AllFull(p.sent) && (p.sent != [] ==> p.bank != [])
  }

  lemma OneMoreFull(p: InPipe)
    requires Uploading(p)
    ensures |p.bank| == CONTROL_SIZE ==> AllFull(p.Clear().sent)
    ensures |p.bank| <= CONTROL_SIZE ==> InPackets(p.Clear().sent)
  {
  }

  /** The registers after an UPLOAD request. */
  function UploadRegisters(r: Registers): Registers
    requires |r.data| == 5
  {
    if r.state != DfuUploadIdle then r
    else if r.data[0] == 0x00 then r.(state := DfuIdle, startAddr := r.endAddr)
    else if r.data[0] == 0x02 then r.(state := DfuIdle, startAddr := (r.startAddr + BytesRemaining(r)) % 0x1_0000)
    else r.(state := DfuIdle)
  }

  /** Its answer: the range asked for, the first byte that is not blank, or the last response. */
  function UploadAnswer(r: Registers, f: Flash, e: seq<byte>): seq<byte>
    requires |r.data| == 5
  {
    if r.state != DfuUploadIdle then
      if r.state == DfuError && r.data[0] == 0x01 then [LowByte(r.startAddr), LowByte(r.startAddr / 256)] else [r.response]
    else if r.data[0] == 0x00 then FlashBytes(f, LongAddress(r.startAddr, r.flash64KBPage), 2 * (BytesRemaining(r) / 2))
    else if r.data[0] == 0x02 then EepromBytes(e, r.startAddr, BytesRemaining(r))
    else []
  }

  /** The requests that only report or reset the state. */
  function StateStep(r: Registers, request: Request): (Registers, seq<byte>)
    requires !request.Dnload? && !request.Upload?
  {
    match request
    case GetStatus(_) => (r, [StatusCode(r.status), 0, 0, 0, StateCode(r.state), 0])
    case ClrStatus(_) => (r.(status := Ok), [])
    case GetState(_) => (r, [StateCode(r.state)])
    case Abort(_) => (r.(state := DfuIdle), [])
  }

  /** What a request does, and the bytes it sends to the host. */
  ghost function Step(t: Tables, before: Device, request: Request, bootStart: nat): (Device, seq<byte>)
    requires |before.r.data| == 5 && before.f.Valid() && request.Proper()
  {
    var d := before.(r := before.r.(dataSize := request.Length()));
    if request.Dnload? then
      ProperFirst(request.packets);
      (Dnloaded(t, d, request.packets, bootStart), [])
    else if request.Upload? then (d.(r := UploadRegisters(d.r)), UploadAnswer(d.r, d.f, d.e))
    else (d.(r := StateStep(d.r, request).0), StateStep(d.r, request).1)
  }

  lemma ProperFirst(packets: seq<seq<byte>>)
    requires Dnload(packets).Proper()
    ensures Dnload(packets).Length() == |Concat(packets)|
    ensures Concat(packets) != [] ==> packets != [] && packets[0] != [] && |packets[0]| <= |Concat(packets)|
  {
  }

  /** The packets a DNLOAD request leaves in the endpoint. */
  ghost function RestOf(t: Tables, before: Device, packets: seq<seq<byte>>, bootStart: nat): OutPipe
    requires |before.r.data| == 5 && before.f.Valid() && Dnload(packets).Proper()
  {
    ProperFirst(packets);
    DnloadLeft(t, before.(r := before.r.(dataSize := |Concat(packets)|)), packets, bootStart)
  }

  /** A request sets the size, and is then dealt with by its kind. */
  lemma StepIs(t: Tables, before: Device, request: Request, bootStart: nat)
    requires |before.r.data| == 5 && before.f.Valid() && request.Proper()
    ensures var d, n := before.(r := before.r.(dataSize := request.Length())), Step(t, before, request, bootStart);
      && (request.Dnload? ==>
        && |Concat(request.packets)| == request.Length()
        && (Concat(request.packets) != [] ==> request.packets != [] && request.packets[0] != [] && |request.packets[0]| <= request.Length())
        && n == (Dnloaded(t, d, request.packets, bootStart), [])
        && RestOf(t, before, request.packets, bootStart) == DnloadLeft(t, d, request.packets, bootStart))
      && (request.Upload? ==> n == (d.(r := UploadRegisters(d.r)), UploadAnswer(d.r, d.f, d.e)))
      && (!request.Dnload? && !request.Upload? ==> n == (d.(r := StateStep(d.r, request).0), StateStep(d.r, request).1))
  {
    if request.Dnload? {
      ProperFirst(request.packets);
    }
    hide Dnloaded, DnloadLeft, UploadRegisters, UploadAnswer, StateStep, Concat;
  }

  // ---------------------------------------------------------------- secure mode, without the flash

  function SecureCommand(t: Tables, r: Registers): Registers
    requires |r.data| == 5
  {
    if IsEraseCommand(r) then r.(isSecure := false)
    else if r.command == READ then r.(response := ReadCommand(t, r))
    else r.(state := DfuError, status := ErrWrite)
  }

  /** A request to a secure bootloader: the new registers and the bytes sent to the host. */
  ghost function SecureStep(t: Tables, before: Registers, request: Request): (Registers, seq<byte>)
    requires |before.data| == 5 && request.Proper()
  {
    var r := before.(dataSize := request.Length());
    if request.Dnload? then
      ProperFirst(request.packets);
      (if r.dataSize == 0 then r else SecureCommand(t, Loaded(r, request.packets[0], r.dataSize)), [])
    else if request.Upload? then
      (r, if r.state == DfuError && r.data[0] == 0x01 then [LowByte(r.startAddr), LowByte(r.startAddr / 256)] else [r.response])
    else StateStep(r, request)
  }

  /** What holds of a bootloader that has been secure since it started. */
  ghost predicate SecureOk(r: Registers) {
    |r.data| == 5 && (r.isSecure ==> r.state in {DfuIdle, DfuError} && !r.waitForExit)
  }

  lemma SecureStepOk(t: Tables, r: Registers, request: Request)
    requires SecureOk(r) && r.isSecure && request.Proper()
    ensures SecureOk(SecureStep(t, r, request).0)
    ensures SecureStep(t, r, request).0.isSecure ||
      (request.Dnload? && Concat(request.packets) != [] && IsEraseCommand(SecureStep(t, r, request).0))
  {
  }
}
