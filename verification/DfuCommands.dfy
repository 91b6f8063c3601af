/** The short commands of the DFU bootloader, as a host sees them: what it sends, and what it is answered afterwards. */
module DfuCommands {
  import opened AvrFlash
  import opened Bytes
  import opened DfuDownloads
  import opened DfuProtocol
  import opened Endpoint

  /** A device that takes a command: no download goes on, and no exit is pending. */
  ghost predicate Ready(d: Device) {
    |d.r.data| == 5 && d.f.Valid() && !d.r.waitForExit && d.r.state != DfuDnloadIdle
  }

  /** A command with all its parameters in one packet, and nothing behind them. */
  predicate IsCommand(cmd: seq<byte>) {
    |cmd| == 6
  }

  ghost function Sent(t: Tables, d: Device, cmd: seq<byte>, bootStart: nat): Device
    requires Ready(d) && IsCommand(cmd)
  {
    OneProper(cmd);
    Step(t, d, Dnload([cmd]), bootStart).0
  }

  lemma OneProper(cmd: seq<byte>)
    requires 0 < |cmd| <= CONTROL_SIZE
    ensures Dnload([cmd]).Proper() && Concat([cmd]) == cmd
  {
    SentWhole([cmd]);
  }

  /** What the host is answered, wherever the device then goes. */
  ghost function Answer(t: Tables, d: Device, request: Request, bootStart: nat): seq<byte>
    requires |d.r.data| == 5 && d.f.Valid() && !request.Dnload?
  {
    Step(t, d, request, bootStart).1
  }

  /** The command loaded, before it is processed. */
  function LoadedAs(r: Registers, cmd: seq<byte>): Registers
    requires IsCommand(cmd)
  {
    r.(command := cmd[0], data := cmd[1..6], dataSize := 0)
  }

  /** A command that starts no download is processed, and that is all. */
  lemma Processed(t: Tables, d: Device, cmd: seq<byte>, bootStart: nat)
    requires Ready(d) && IsCommand(cmd)
    ensures var c := Commanded(t, LoadedAs(d.r, cmd), d.f, bootStart);
      c.0.state != DfuDnloadIdle ==> Sent(t, d, cmd, bootStart) == Device(c.0, c.1, d.e)
  {
    OneProper(cmd);
    LoadedWhole(d.r.(dataSize := 6), cmd, 6);
    hide Commanded, Request.Proper, Concat;
    assert d.r.(dataSize := 6).(command := cmd[0], data := cmd[1..6], dataSize := 0) == LoadedAs(d.r, cmd);
  }

  // ---------------------------------------------------------------- blank check

  /** The address an error answer and the 64KB page stand for. */
  function Reported(answer: seq<byte>, page64: octet): nat
    requires |answer| == 2
  {
    LongAddress(Word(answer[1], answer[0]), page64)
  }

  /** The blank check: an error exactly when the application is not blank, and then the host learns its first byte that is not. */
  lemma BlankChecked(t: Tables, d: Device, cmd: seq<byte>, bootStart: nat, wLength: nat)
    requires Ready(d) && !d.r.isSecure && IsCommand(cmd) && cmd[0] == DISP_DATA && cmd[1] == 0x01
    requires bootStart <= |d.f.memory| && bootStart <= 0x100_0000
    ensures var n := Sent(t, d, cmd, bootStart);
      && n.f == d.f && n.e == d.e && |n.r.data| == 5
      && (BlankRange(d.f.memory, 0, bootStart) ==> n.r.state == d.r.state && n.r.status == d.r.status)
      && (!BlankRange(d.f.memory, 0, bootStart) ==>
        && n.r.state == DfuError && n.r.status == ErrCheckErased
        && Answer(t, n, GetStatus(wLength), bootStart) == [5, 0, 0, 0, 10, 0]
        && var answer := Answer(t, n, Upload(wLength), bootStart);
          && |answer| == 2
          && var a := Reported(answer, n.r.flash64KBPage);
            a < bootStart && d.f.memory[a] != BLANK && BlankRange(d.f.memory, 0, a))
  {
    var a, r := FirstNotBlank(d.f, 0, bootStart), LoadedAs(d.r, cmd);
    var found := r.(flash64KBPage := a / 0x1_0000 % 256, startAddr := a % 0x1_0000, state := DfuError, status := ErrCheckErased);
    assert r.data[0] == 0x01 && Commanded(t, r, d.f, bootStart) == (if a == bootStart then r else found, d.f);
    Processed(t, d, cmd, bootStart);
    FirstIs(d.f, bootStart);
    if a < bootStart {
      FailureTold(t, Device(found, d.f, d.e), a, wLength, bootStart);
    }
    hide *;
  }

  lemma FirstIs(f: Flash, bootStart: nat)
    requires bootStart <= |f.memory|
    ensures var a := FirstNotBlank(f, 0, bootStart);
      && (BlankRange(f.memory, 0, bootStart) <==> a == bootStart)
      && (a < bootStart ==> f.memory[a] != BLANK && BlankRange(f.memory, 0, a))
  {
    var a := FirstNotBlank(f, 0, bootStart);
    assert forall b :: 0 <= b < a ==> f.ReadByte(b) == f.memory[b];
    assert a < bootStart ==> f.ReadByte(a) == f.memory[a];
    hide FirstNotBlank;
  }

  /** What a host is told in the error state of a failed blank check. */
  lemma FailureTold(t: Tables, n: Device, a: nat, wLength: nat, bootStart: nat)
    requires |n.r.data| == 5 && n.f.Valid() && n.r.state == DfuError && n.r.status == ErrCheckErased && n.r.data[0] == 0x01
    requires a < 0x100_0000 && n.r.startAddr == a % 0x1_0000 && n.r.flash64KBPage == a / 0x1_0000 % 256
    ensures Answer(t, n, GetStatus(wLength), bootStart) == [5, 0, 0, 0, 10, 0]
    ensures var answer := Answer(t, n, Upload(wLength), bootStart); |answer| == 2 && Reported(answer, n.r.flash64KBPage) == a
  {
    SplitAddress(a);
    hide Word, LongAddress, LowByte;
  }

  /** An address below 16MB in a 64KB page number and two bytes. */
  lemma SplitAddress(a: nat)
    requires a < 0x100_0000
    ensures LongAddress(Word(LowByte(a % 0x1_0000 / 256), LowByte(a % 0x1_0000)), a / 0x1_0000 % 256) == a
  {
    var w := a % 0x1_0000;
    LowByteValue(w / 256);
    LowByteValue(w);
    LastDigits(w, LowByte(w / 256) as int, LowByte(w) as int);
    FirstDigit(a);
    hide LowByte;
  }

  lemma LastDigits(w: nat, high: int, low: int)
    requires w < 0x1_0000 && high == w / 256 % 256 && low == w % 256
    ensures 256 * high + low == w
  {
  }

  lemma FirstDigit(a: nat)
    requires a < 0x100_0000
    ensures a % 0x1_0000 + 0x1_0000 * (a / 0x1_0000 % 256) == a
  {
  }

  // ---------------------------------------------------------------- application start

  /**
   * The start command and the empty request behind it: with a nonzero kind the bootloader stops for the application at
   * the address sent, with kind zero it goes on until the watchdog; the memories stay.
   */
  lemma ApplicationStarts(t: Tables, d: Device, cmd: seq<byte>, bootStart: nat)
    requires Ready(d) && !d.r.isSecure && IsCommand(cmd) && cmd[0] == WRITE && cmd[1] == 0x03
    ensures var asked := Sent(t, d, cmd, bootStart);
      && asked.r.waitForExit && |asked.r.data| == 5 && asked.f == d.f && asked.e == d.e
      && var n := Step(t, asked, Dnload([]), bootStart).0;
        && !n.r.waitForExit && n.f == d.f && n.e == d.e
        && n.r.runBootloader == (d.r.runBootloader && cmd[2] == 0x00)
        && (cmd[2] != 0x00 ==> n.r.appStart == Word(cmd[4], cmd[5])) && (cmd[2] == 0x00 ==> n.r.appStart == d.r.appStart)
  {
    StartAsked(t, d, cmd, bootStart);
    EmptyAsked(t, Sent(t, d, cmd, bootStart), bootStart);
    hide Sent, Step, Word;
  }

  lemma StartAsked(t: Tables, d: Device, cmd: seq<byte>, bootStart: nat)
    requires Ready(d) && !d.r.isSecure && IsCommand(cmd) && cmd[0] == WRITE && cmd[1] == 0x03
    ensures var asked := Sent(t, d, cmd, bootStart);
      && asked.r.waitForExit && asked.r.state == d.r.state && !asked.r.isSecure && asked.f == d.f && asked.e == d.e
      && asked.r.command == WRITE && asked.r.data == cmd[1..6] && asked.r.runBootloader == (d.r.runBootloader && cmd[2] == 0x00)
      && asked.r.appStart == if cmd[2] == 0x00 then d.r.appStart else Word(cmd[4], cmd[5])
  {
    Processed(t, d, cmd, bootStart);
    var r := LoadedAs(d.r, cmd);
    assert r.data[0] == cmd[1] && r.data[1] == cmd[2] && r.data[3] == cmd[4] && r.data[4] == cmd[5];
    hide Word, ErasedFrom, Sent;
  }

  /** The empty request behind a start command. */
  lemma EmptyAsked(t: Tables, d: Device, bootStart: nat)
    requires |d.r.data| == 5 && d.f.Valid() && d.r.waitForExit && d.r.state != DfuDnloadIdle && !d.r.isSecure
    requires d.r.command == WRITE && d.r.data[0] == 0x03
    ensures var n := Step(t, d, Dnload([]), bootStart).0;
      && !n.r.waitForExit && n.f == d.f && n.e == d.e && n.r.runBootloader == (d.r.runBootloader && d.r.data[1] == 0x00)
      && n.r.appStart == if d.r.data[1] == 0x00 then d.r.appStart else Word(d.r.data[3], d.r.data[4])
  {
    hide Word, ErasedFrom;
  }

  /** The start command, complete: nothing is left of the request's data, and the kind is not zero. */
  predicate Starts(r: Registers)
    requires |r.data| == 5
  {
    !r.isSecure && r.command == 0x04 && r.data[0] == 0x03 && r.data[1] != 0x00 && r.dataSize == 0
  }

  /**
   * A running bootloader stops exactly for a complete start command: one that a request finds pending, or one that it
   * brings itself.
   */
  lemma StopsIff(t: Tables, d: Device, packets: seq<seq<byte>>, bootStart: nat)
    requires |d.r.data| == 5 && d.f.Valid() && Dnload(packets).Proper() && d.r.runBootloader
    ensures var r, stream := d.r.(dataSize := |Concat(packets)|), Concat(packets);
      var pending := ExitPending(t, r, d.f, bootStart).0;
      && (stream != [] ==> packets != [] && packets[0] != [] && |packets[0]| <= |stream|)
      && (Step(t, d, Dnload(packets), bootStart).0.r.runBootloader <==>
        !(d.r.waitForExit && Starts(r)) && !(stream != [] && Starts(Loaded(pending, packets[0], |stream|))))
  {
    ProperFirst(packets);
    var r := d.r.(dataSize := |Concat(packets)|);
    CommandRuns(t, r, d.f, bootStart);
    var x := ExitPending(t, r, d.f, bootStart);
    if r.dataSize == 0 {
      ReceivedRuns(Device(x.0, x.1, d.e), OutPipe(false, [], packets));
    } else {
      CommandRuns(t, Loaded(x.0, packets[0], x.0.dataSize), x.1, bootStart);
      var c := CommandTaken(t, x.0, x.1, packets[0], bootStart);
      ReceivedRuns(Device(c.0, c.1, d.e), BehindCommand(packets));
    }
    hide Commanded, Received, Concat, BehindCommand, Loaded, Starts, Request.Proper;
  }

  /** No other request stops it. */
  lemma OnlyDownloadsStop(t: Tables, d: Device, request: Request, bootStart: nat)
    requires |d.r.data| == 5 && d.f.Valid() && !request.Dnload?
    ensures var n := Step(t, d, request, bootStart).0; n.r.runBootloader == d.r.runBootloader && n.f == d.f && n.e == d.e
  {
    hide BytesRemaining, Concat;
  }

  lemma CommandRuns(t: Tables, r: Registers, f: Flash, bootStart: nat)
    requires |r.data| == 5 && f.Valid()
    ensures Commanded(t, r, f, bootStart).0.runBootloader == (r.runBootloader && !Starts(r))
  {
    hide Word, ErasedFrom, FirstNotBlank, ReadCommand, Flash.PageErase, LongAddress;
  }

  lemma ReceivedRuns(d: Device, p: OutPipe)
    requires |d.r.data| == 5 && d.f.Valid()
    ensures Received(d, p).r.runBootloader == d.r.runBootloader
  {
    hide WordsWritten, BytesWritten, AtData, BytesRemaining, LongAddress;
  }

  // ---------------------------------------------------------------- information

  /** Bootloader information: the byte of the table with the index sent, secure or not. */
  lemma InformationRead(t: Tables, d: Device, cmd: seq<byte>, bootStart: nat, wLength: nat)
    requires Ready(d) && d.r.state != DfuUploadIdle && IsCommand(cmd) && cmd[0] == READ && cmd[1] == 0x00 && cmd[2] as int < |t.info|
    ensures var n := Sent(t, d, cmd, bootStart);
      && n.f == d.f && n.e == d.e && n.r.state == d.r.state && |n.r.data| == 5
      && Answer(t, n, Upload(wLength), bootStart) == [t.info[cmd[2]]]
  {
    Processed(t, d, cmd, bootStart);
    var r := LoadedAs(d.r, cmd);
    assert r.data[0] == 0x00 && r.data[1] == cmd[2];
  }

  /** The signature, in the same way, but not in the error state: there 0x01 asks for the address of a blank check. */
  lemma SignatureReadIff(t: Tables, d: Device, cmd: seq<byte>, bootStart: nat, wLength: nat)
    requires Ready(d) && d.r.state != DfuUploadIdle && IsCommand(cmd) && cmd[0] == READ && cmd[1] == 0x01
    requires 0x30 <= cmd[2] as int < 0x30 + |t.signature|
    ensures var n := Sent(t, d, cmd, bootStart);
      && n.f == d.f && n.e == d.e && n.r.state == d.r.state && |n.r.data| == 5
      && (Answer(t, n, Upload(wLength), bootStart) == [t.signature[cmd[2] as int - 0x30]] <==> d.r.state != DfuError)
  {
    Processed(t, d, cmd, bootStart);
    var r := LoadedAs(d.r, cmd);
    assert r.data[0] == 0x01 && r.data[1] == cmd[2];
  }

  // ---------------------------------------------------------------- base address

  /** A base address command moves the reads behind it to its 64KB page. */
  lemma BaseMoves(t: Tables, d: Device, cmd: seq<byte>, read: seq<byte>, bootStart: nat, wLength: nat)
    requires Ready(d) && !d.r.isSecure && IsCommand(cmd) && cmd[0] == CHANGE_BASE_ADDR && cmd[1] == 0x03 && cmd[2] == 0x00
    requires IsCommand(read) && read[0] == DISP_DATA && read[1] == 0x00 && Word(read[2], read[3]) <= Word(read[4], read[5])
    ensures var base := Sent(t, d, cmd, bootStart);
      && Ready(base) && base.f == d.f && base.e == d.e && !base.r.isSecure
      && var n := Sent(t, base, read, bootStart);
        && |n.r.data| == 5 && n.f == d.f
        && Answer(t, n, Upload(wLength), bootStart) ==
          FlashBytes(d.f, 0x1_0000 * (cmd[3] as int) + Word(read[2], read[3]),
            2 * ((Word(read[4], read[5]) - Word(read[2], read[3]) + 1) % 0x1_0000 / 2))
  {
    Processed(t, d, cmd, bootStart);
    var base := Sent(t, d, cmd, bootStart);
    var r := LoadedAs(d.r, cmd);
    assert r.data[0] == 0x03 && r.data[1] == 0x00 && r.data[2] == cmd[3];
    assert base == Device(r.(flash64KBPage := cmd[3] as int), d.f, d.e);
    hide Sent;
    RangeRead(t, base, read, bootStart, wLength);
  }

  /** Asking for a range of flash, and taking it. */
  lemma RangeRead(t: Tables, d: Device, read: seq<byte>, bootStart: nat, wLength: nat)
    requires Ready(d) && !d.r.isSecure && IsCommand(read) && read[0] == DISP_DATA && read[1] == 0x00
    requires Word(read[2], read[3]) <= Word(read[4], read[5])
    ensures var n := Sent(t, d, read, bootStart);
      && |n.r.data| == 5 && n.f == d.f
      && Answer(t, n, Upload(wLength), bootStart) ==
        FlashBytes(d.f, 0x1_0000 * d.r.flash64KBPage + Word(read[2], read[3]),
          2 * ((Word(read[4], read[5]) - Word(read[2], read[3]) + 1) % 0x1_0000 / 2))
  {
    OneProper(read);
    ReadStarts(t, d, [read], 0x00, bootStart);
    assert FirstAddr(read) == Word(read[2], read[3]) && LastAddr(read) == Word(read[4], read[5]);
    var n := Sent(t, d, read, bootStart);
    assert n == Step(t, d, Dnload([read]), bootStart).0;
    FlashAnswer(t, n, bootStart, wLength);
    assert n.r.startAddr == Word(read[2], read[3]) && n.r.endAddr == Word(read[4], read[5]);
    hide *;
  }

  lemma FlashAnswer(t: Tables, n: Device, bootStart: nat, wLength: nat)
    requires |n.r.data| == 5 && n.f.Valid() && n.r.state == DfuUploadIdle && n.r.data[0] == 0x00
    ensures Answer(t, n, Upload(wLength), bootStart) ==
      FlashBytes(n.f, 0x1_0000 * n.r.flash64KBPage + n.r.startAddr, 2 * ((n.r.endAddr - n.r.startAddr + 1) % 0x1_0000 / 2))
  {
    hide FlashBytes;
    assert LongAddress(n.r.startAddr, n.r.flash64KBPage) == 0x1_0000 * n.r.flash64KBPage + n.r.startAddr;
  }

  // ---------------------------------------------------------------- erase, and what a secure bootloader refuses

  /** The erase command ends secure mode and erases the application. */
  lemma EraseCommanded(t: Tables, d: Device, cmd: seq<byte>, bootStart: nat)
    requires Ready(d) && IsCommand(cmd) && cmd[0] == WRITE && cmd[1] == 0x00 && cmd[2] == 0xFF
    requires bootStart <= |d.f.memory| && bootStart % d.f.pageSize == 0
    ensures var n := Sent(t, d, cmd, bootStart);
      !n.r.isSecure && Erased(d.f, n.f.memory, bootStart) && n.e == d.e && n.r.state == d.r.state
  {
    Processed(t, d, cmd, bootStart);
    ChipErased(d.f, bootStart);
    var r := LoadedAs(d.r, cmd);
    assert r.data[0] == 0x00 && r.data[1] == 0xFF;
    hide ErasedFrom, Erased;
  }

  /** Every command but a read and the erase is an error while secure, and the host is told so. */
  lemma SecureRefuses(t: Tables, d: Device, cmd: seq<byte>, bootStart: nat, wLength: nat)
    requires Ready(d) && d.r.isSecure && IsCommand(cmd) && cmd[0] != READ && !(cmd[0] == WRITE && cmd[1] == 0x00 && cmd[2] == 0xFF)
    ensures var n := Sent(t, d, cmd, bootStart);
      && n.f == d.f && n.e == d.e && n.r.isSecure && n.r.runBootloader == d.r.runBootloader && |n.r.data| == 5
      && Answer(t, n, GetStatus(wLength), bootStart) == [3, 0, 0, 0, 10, 0]
  {
    Processed(t, d, cmd, bootStart);
    var r := LoadedAs(d.r, cmd);
    assert r.data[0] == cmd[1] && r.data[1] == cmd[2];
    hide Dispatched;
  }

  /** Clearing the status and aborting lead from any state to an idle device without an error, with the memories as they were. */
  lemma Recovers(t: Tables, d: Device, bootStart: nat, wLength: nat)
    requires |d.r.data| == 5 && d.f.Valid()
    ensures var n := Step(t, Step(t, d, ClrStatus(wLength), bootStart).0, Abort(wLength), bootStart).0;
      && n.f == d.f && n.e == d.e && |n.r.data| == 5
      && Answer(t, n, GetStatus(wLength), bootStart) == [0, 0, 0, 0, 2, 0] && Answer(t, n, GetState(wLength), bootStart) == [2]
  {
  }

  /** Clearing the status alone leaves the state, the error state too. */
  lemma ErrorStays(t: Tables, d: Device, bootStart: nat, wLength: nat)
    requires |d.r.data| == 5 && d.f.Valid() && d.r.state == DfuError
    ensures var n := Step(t, d, ClrStatus(wLength), bootStart).0;
      |n.r.data| == 5 && n.f == d.f && Answer(t, n, GetStatus(wLength), bootStart) == [0, 0, 0, 0, 10, 0]
  {
  }

  /** What the state requests tell, in the codes of USB DFU 1.1, section 6.1.2; and that they leave everything else. */
  lemma StatusTold(t: Tables, d: Device, bootStart: nat, wLength: nat)
    requires |d.r.data| == 5 && d.f.Valid()
    ensures var told, asked := Answer(t, d, GetStatus(wLength), bootStart), Step(t, d, GetStatus(wLength), bootStart).0;
      && |told| == 6 && told[1] == told[2] == told[3] == told[5] == 0 && Answer(t, d, GetState(wLength), bootStart) == [told[4]]
      && told[0] == (if d.r.status == Ok then 0x00 else if d.r.status == ErrWrite then 0x03 else 0x05)
      && told[4] == (if d.r.state == DfuIdle then 2 else if d.r.state == DfuDnloadIdle then 5 else if d.r.state == DfuUploadIdle then 9 else 10)
      && asked == d.(r := d.r.(dataSize := wLength)) == Step(t, d, GetState(wLength), bootStart).0
    ensures Step(t, d, ClrStatus(wLength), bootStart) == (d.(r := d.r.(dataSize := wLength, status := Ok)), [])
    ensures Step(t, d, Abort(wLength), bootStart) == (d.(r := d.r.(dataSize := wLength, state := DfuIdle)), [])
  {
  }

  // ---------------------------------------------------------------- uploads

  /**
   * Taking a range that was asked for: the bootloader is idle again, the memories stay, at most one byte of the range
   * is left, and the next upload answers one byte.
   */
  lemma Uploaded(t: Tables, d: Device, bootStart: nat, wLength: nat)
    requires |d.r.data| == 5 && d.f.Valid() && d.r.state == DfuUploadIdle && d.r.data[0] in {0x00, 0x02}
    requires d.r.startAddr < 0x1_0000 && d.r.endAddr < 0x1_0000
    ensures var n := Step(t, d, Upload(wLength), bootStart).0;
      && n.r.state == DfuIdle && n.r.status == d.r.status && n.f == d.f && n.e == d.e && |n.r.data| == 5
      && n.r.startAddr == (if d.r.data[0] == 0x00 then d.r.endAddr else (d.r.endAddr + 1) % 0x1_0000)
      && |Answer(t, n, Upload(wLength), bootStart)| == 1
  {
    RangeEnd(d.r);
    hide BytesRemaining, FlashBytes, EepromBytes, LongAddress;
  }

  lemma RangeEnd(r: Registers)
    requires r.startAddr < 0x1_0000 && r.endAddr < 0x1_0000
    ensures (r.startAddr + BytesRemaining(r)) % 0x1_0000 == (r.endAddr + 1) % 0x1_0000
  {
  }

  /** What else can be in an upload: nothing is answered, and the bootloader is idle again. */
  lemma NothingUploaded(t: Tables, d: Device, bootStart: nat, wLength: nat)
    requires |d.r.data| == 5 && d.f.Valid() && d.r.state == DfuUploadIdle && d.r.data[0] !in {0x00, 0x02}
    ensures Step(t, d, Upload(wLength), bootStart) == (d.(r := d.r.(dataSize := wLength, state := DfuIdle)), [])
  {
  }

  // ---------------------------------------------------------------- parameters, and commands that are none

  /** A command with fewer parameters finds those of the command before in the places it does not fill. */
  lemma ParametersKept(r: Registers, first: seq<byte>, total: nat, i: nat)
    requires |r.data| == 5 && first != [] && |first| <= total && i < 5
    ensures Loaded(r, first, total).data[i] == if i + 1 < |first| then first[i + 1] else r.data[i]
    ensures Loaded(r, first, total).dataSize == total - if |first| <= 6 then |first| else 6
  {
  }

  /** The commands a bootloader that is not secure acts on. */
  predicate IsKnown(cmd: seq<byte>)
    requires IsCommand(cmd)
  {
    || (cmd[0] == 0x01 && cmd[1] in {0x00, 0x01})
    || (cmd[0] == 0x03 && cmd[1] in {0x00, 0x01, 0x02})
    || (cmd[0] == 0x04 && (cmd[1] == 0x03 || (cmd[1] == 0x00 && cmd[2] == 0xFF)))
    || (cmd[0] == 0x05 && cmd[1] in {0x00, 0x01})
    || (cmd[0] == 0x06 && cmd[1] == 0x03 && cmd[2] == 0x00)
  }

  /** Any other is loaded and has no effect. */
  lemma Ignored(t: Tables, d: Device, cmd: seq<byte>, bootStart: nat)
    requires Ready(d) && !d.r.isSecure && IsCommand(cmd) && !IsKnown(cmd)
    ensures Sent(t, d, cmd, bootStart) == Device(LoadedAs(d.r, cmd), d.f, d.e)
  {
    var r := LoadedAs(d.r, cmd);
    assert r.data[0] == cmd[1] && r.data[1] == cmd[2];
    Processed(t, d, cmd, bootStart);
    hide Word, ErasedFrom, FirstNotBlank, Flash.PageErase, LongAddress, Sent;
  }
}
