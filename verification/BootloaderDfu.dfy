/** BootloaderDFU: the DFU bootloader's globals, and the handlers that change them. */
module BootloaderDfu {
  import opened AvrFlash
  import opened Bytes
  import opened DfuProtocol
  import opened Endpoint

  /** `n` parameter bytes loaded. */
  ghost predicate Loading(p: OutPipe, q: OutPipe, data: seq<byte>, before: seq<byte>, n: nat) {
    && 1 + n <= |p.bank| && n <= 5 == |before| && q == p.AfterRead(1 + n) && data == p.bank[1..1 + n] + before[n..]
  }

  lemma LoadingStarts(p: OutPipe, before: seq<byte>)
    requires p.bank != [] && |before| == 5
    ensures Loading(p, p.AfterRead(1), before, before, 0)
  {
  }

  lemma LoadingStep(p: OutPipe, q: OutPipe, data: seq<byte>, before: seq<byte>, n: nat)
    requires Loading(p, q, data, before, n) && q.bank != [] && n < 5 == |data|
    ensures Loading(p, q.AfterRead(1), data[n := q.bank[0]], before, n + 1)
  {
  }

  lemma LoadingDone(p: OutPipe, q: OutPipe, data: seq<byte>, before: seq<byte>, n: nat)
    requires Loading(p, q, data, before, n) && (q.bank == [] || n == 5)
    ensures n == ParameterCount(p.bank) && data == Parameters(p.bank, before) && q == AfterParameters(p)
  {
  }

  class Bootloader {
    const bootStart: nat
    const tables: Tables
    var isSecure: bool
    var runBootloader: bool
    var waitForExit: bool
    var state: DfuState
    var status: DfuStatus
    var command: byte
    var data: seq<byte>
    var dataSize: nat
    var response: byte
    var appStart: nat
    var flash64KBPage: octet
    var startAddr: nat
    var endAddr: nat
    var flash: Flash
    var eeprom: seq<byte>
    var usbOut: OutPipe
    var usbIn: InPipe

    constructor (secure: bool, bootStart: nat, tables: Tables, flash: Flash, eeprom: seq<byte>)
      requires flash.Valid() && flash.pageSize < 512 && bootStart <= |flash.memory| && bootStart % flash.pageSize == 0
      ensures Valid() && isSecure == secure && SecureOk(Regs()) && this.flash == flash && this.eeprom == eeprom
      ensures this.bootStart == bootStart && this.tables == tables && state == DfuIdle
    {
      this.bootStart, this.tables := bootStart, tables;
      isSecure, runBootloader, waitForExit, state, status := secure, true, false, DfuIdle, Ok;
      command, data, dataSize, response, appStart, flash64KBPage, startAddr, endAddr := 0, [0, 0, 0, 0, 0], 0, 0, 0, 0, 0, 0;
      this.flash, this.eeprom := flash, eeprom;
      usbOut, usbIn := OutPipe(false, [], []), InPipe(CONTROL_SIZE, [], []);
    }

    /** A page has fewer than 256 words: the download loop counts them in 8 bits. */
    ghost predicate Valid()
      reads this
    {
      && |data| == 5 && startAddr < 0x1_0000 && endAddr < 0x1_0000 && flash.Valid() && flash.pageSize < 512
      && usbIn.size == CONTROL_SIZE && |usbIn.bank| <= CONTROL_SIZE
      && bootStart <= |flash.memory| && bootStart % flash.pageSize == 0
    }

    function Regs(): Registers
      reads this
    {
      Registers(isSecure, runBootloader, waitForExit, state, status, command, data, dataSize, response, appStart, flash64KBPage, startAddr, endAddr)
    }

    function Now(): Device
      reads this
    {
      Device(Regs(), flash, eeprom)
    }

    /** The flash address of a 16-bit address on the current 64KB page. */
    function FlashAddress(addr: nat): nat
      reads this
    {
      LongAddress(addr, flash64KBPage)
    }

    /** DiscardFillerBytes. */
    method DiscardFillerBytes(numberOfBytes: nat)
      modifies this`usbOut
      ensures usbOut == Discarded(old(usbOut), numberOfBytes)
    {
      var left: nat := numberOfBytes;
      while left > 0
        invariant left <= numberOfBytes && Discarded(usbOut, left) == Discarded(old(usbOut), numberOfBytes)
      {
        left := left - 1;
        if usbOut.bank == [] {
          usbOut := usbOut.Clear();
          if usbOut.pending == [] {
            return;
          }
          usbOut := usbOut.Await();
        } else {
          usbOut := usbOut.AfterRead(1);
        }
      }
    }

    /** ProcessReadCommand. */
    method ProcessReadCommand()
      requires Valid()
      modifies this`response
      ensures response == ReadCommand(tables, old(Regs()))
    {
      var index := data[1] as int;
      if data[0] == 0x00 {
        response := if index < |tables.info| then tables.info[index] else tables.stray;
      } else if data[0] == 0x01 {
        response := if 0x30 <= index < 0x30 + |tables.signature| then tables.signature[index - 0x30] else tables.stray;
      }
    }

    /** The chip erase of ProcessWriteCommand: every application page erased and written. */
    method EraseApplication()
      requires Valid()
      modifies this`flash
      ensures Valid() && flash == ErasedFrom(old(flash), 0, bootStart)
    {
      var currFlashAddress: nat := 0;
      hide Flash.PageErase, Flash.PageWrite;
      while currFlashAddress < bootStart
        invariant Valid() && ErasedFrom(flash, currFlashAddress, bootStart) == ErasedFrom(old(flash), 0, bootStart)
        decreases bootStart - currFlashAddress
      {
        flash := flash.PageErase(currFlashAddress);
        flash := flash.PageWrite(currFlashAddress);
        currFlashAddress := currFlashAddress + flash.pageSize;
      }
    }

    /** ProcessWriteCommand: application start, and the chip erase that ends secure mode. */
    method ProcessWriteCommand()
      requires Valid()
      modifies this`waitForExit, this`appStart, this`runBootloader, this`flash, this`isSecure
      ensures Valid() && (Regs(), flash) == WriteCommand(old(Regs()), old(flash), bootStart)
    {
      hide Word, ErasedFrom;
      if data[0] == 0x03 {
        waitForExit := true;
        if dataSize == 0 {
          if data[1] != 0x00 {
            appStart := Word(data[3], data[4]);
            runBootloader := false;
          }
        }
      } else if data[0] == 0x00 && data[1] == 0xFF {
        EraseApplication();
        isSecure := false;
      }
    }

    /** LoadStartEndAddresses. */
    method LoadStartEndAddresses()
      requires Valid()
      modifies this`startAddr, this`endAddr
      ensures Valid() && Regs() == WithAddresses(old(Regs()))
    {
      startAddr := Word(data[1], data[2]);
      endAddr := Word(data[3], data[4]);
    }

    /** ProcessMemProgCommand: loads the addresses and, for flash, erases the first page. */
    method ProcessMemProgCommand()
      requires Valid()
      modifies this`startAddr, this`endAddr, this`flash, this`state
      ensures Valid() && (Regs(), flash) == MemProg(old(Regs()), old(flash))
    {
      hide Flash.PageErase, WithAddresses;
      if data[0] == 0x00 || data[0] == 0x01 {
        LoadStartEndAddresses();
        if data[0] == 0x00 {
          flash := flash.PageErase(FlashAddress(startAddr));
        }
        state := DfuDnloadIdle;
      }
    }

    /** ProcessMemReadCommand: sets up an upload, or looks for the first byte that is not blank. */
    method ProcessMemReadCommand()
      requires Valid()
      modifies this`startAddr, this`endAddr, this`state, this`status, this`flash64KBPage
      ensures Valid() && Regs() == MemRead(old(Regs()), flash, bootStart)
    {
      hide WithAddresses, Flash.ReadByte;
      if data[0] == 0x00 || data[0] == 0x02 {
        LoadStartEndAddresses();
        state := DfuUploadIdle;
      } else if data[0] == 0x01 {
        var currFlashAddress: nat := 0;
        while currFlashAddress < bootStart
          invariant currFlashAddress <= bootStart && Regs() == old(Regs())
          invariant FirstNotBlank(flash, currFlashAddress, bootStart) == FirstNotBlank(flash, 0, bootStart)
        {
          if flash.ReadByte(currFlashAddress) != BLANK {
            flash64KBPage := currFlashAddress / 0x1_0000 % 256;
            startAddr := currFlashAddress % 0x1_0000;
            state := DfuError;
            status := ErrCheckErased;
            return;
          }
          currFlashAddress := currFlashAddress + 1;
        }
      }
    }

    /** ProcessBootloaderCommand: the secure mode check and the dispatch. */
    method ProcessBootloaderCommand()
      requires Valid()
      modifies this`startAddr, this`endAddr, this`flash, this`state, this`status, this`flash64KBPage, this`response
      modifies this`waitForExit, this`appStart, this`runBootloader, this`isSecure
      ensures Valid() && (Regs(), flash) == Commanded(tables, old(Regs()), old(flash), bootStart)
    {
      if isSecure {
        if !((command == WRITE && data[0] == 0x00 && data[1] == 0xFF) || command == READ) {
          state := DfuError;
          status := ErrWrite;
          return;
        }
      }
      hide Dispatched;
      Dispatch();
    }

    /** The switch of ProcessBootloaderCommand. */
    method Dispatch()
      requires Valid()
      modifies this`startAddr, this`endAddr, this`flash, this`state, this`status, this`flash64KBPage, this`response
      modifies this`waitForExit, this`appStart, this`runBootloader, this`isSecure
      ensures Valid() && (Regs(), flash) == Dispatched(tables, old(Regs()), old(flash), bootStart)
    {
      hide MemProg, MemRead, WriteCommand, ReadCommand;
      if command == PROG_START {
        ProcessMemProgCommand();
      } else if command == DISP_DATA {
        ProcessMemReadCommand();
      } else if command == WRITE {
        ProcessWriteCommand();
      } else if command == READ {
        ProcessReadCommand();
      } else if command == CHANGE_BASE_ADDR {
        if data[0] == 0x03 && data[1] == 0x00 {
          flash64KBPage := data[2] as int;
        }
      }
    }

    /** The wait for OUT data when the bank is empty; false if the host goes away. */
    method NextOutPacket() returns (attached: bool)
      modifies this`usbOut
      ensures attached <==> !HostGone(old(usbOut))
      ensures usbOut == if attached then NextBank(old(usbOut)) else old(usbOut).Clear()
    {
      attached := true;
      if usbOut.bank == [] {
        usbOut := usbOut.Clear();
        if usbOut.pending == [] {
          return false;
        }
        usbOut := usbOut.Await();
      }
    }

    /** The flash branch of a download: words into the fill buffer, pages committed when full or at the end. */
    method WriteFlash(wordsRemaining: nat) returns (attached: bool)
      requires Valid()
      modifies this`flash, this`usbOut
      ensures Valid() && attached == old(FlashLoop(wordsRemaining)).1
      ensures flash == old(FlashLoop(wordsRemaining)).0.f && usbOut == old(FlashLoop(wordsRemaining)).0.p
      ensures !attached ==> usbOut == usbOut.Clear()
    {
      var left: nat := wordsRemaining;
      var currFlashAddress: nat := FlashAddress(startAddr);
      var currFlashPageStartAddress: nat := currFlashAddress;
      var wordsInFlashPage: nat := 0;
      ghost var all := FlashLoop(wordsRemaining);
      assert WordsWritten(WordLoop(flash, usbOut, currFlashPageStartAddress, currFlashAddress, wordsInFlashPage), left) == all;
      hide FlashLoop, OneWord, WordsWritten, NextBank, HostGone, FlashAddress, Flash.Valid;
      while left > 0
        invariant Valid()
        invariant WordsWritten(WordLoop(flash, usbOut, currFlashPageStartAddress, currFlashAddress, wordsInFlashPage), left) == all
      {
        WordsStep(WordLoop(flash, usbOut, currFlashPageStartAddress, currFlashAddress, wordsInFlashPage), left);
        attached := NextOutPacket();
        if !attached {
          return false;
        }
        left := left - 1;
        currFlashPageStartAddress, currFlashAddress, wordsInFlashPage :=
          WriteWord(left, currFlashPageStartAddress, currFlashAddress, wordsInFlashPage);
      }
      WordsStep(WordLoop(flash, usbOut, currFlashPageStartAddress, currFlashAddress, wordsInFlashPage), left);
      attached := true;
    }

    /** What the flash branch does from here. */
    function FlashLoop(words: nat): (WordLoop, bool)
      reads this
      requires flash.Valid()
    {
      WordsWritten(WordLoop(flash, usbOut, FlashAddress(startAddr), FlashAddress(startAddr), 0), words)
    }

    /** One word, and the page if it is complete. `left` counts the words after it. */
    method WriteWord(left: nat, pageStart: nat, addr: nat, words: nat) returns (pageStart': nat, addr': nat, words': nat)
      requires Valid()
      modifies this`flash, this`usbOut
      ensures Valid() && WordLoop(flash, usbOut, pageStart', addr', words') == OneWord(old(WordLoop(flash, usbOut, pageStart, addr, words)), left)
    {
      hide AfterWord, BankByte, Flash.PageFill, Flash.PageWrite, Flash.PageErase;
      pageStart' := pageStart;
      flash := flash.PageFill(addr, BankByte(usbOut, 0), BankByte(usbOut, 1));
      usbOut := AfterWord(usbOut);
      words' := words + 1;
      addr' := addr + 2;
      if words' == flash.pageSize / 2 || left == 0 {
        flash := flash.PageWrite(pageStart);
        if left > 0 {
          pageStart' := addr';
          words' := 0;
          flash := flash.PageErase(addr');
        }
      }
    }

    function Cells(): ByteLoop
      reads this
    {
      ByteLoop(eeprom, usbOut, startAddr)
    }

    /** The EEPROM branch of a download: one byte of the stream after another, from the start address on. */
    method WriteEeprom(bytesRemaining: nat) returns (attached: bool)
      requires Valid()
      modifies this`eeprom, this`usbOut, this`startAddr
      ensures Valid() && (Cells(), attached) == BytesWritten(old(Cells()), bytesRemaining)
      ensures !attached ==> usbOut == usbOut.Clear()
    {
      var left: nat := bytesRemaining;
      hide OneByte;
      while left > 0
        invariant Valid() && BytesWritten(Cells(), left) == BytesWritten(old(Cells()), bytesRemaining)
      {
        left := left - 1;
        attached := NextOutPacket();
        if !attached {
          return false;
        }
        WriteByte();
      }
      attached := true;
    }

    method WriteByte()
      requires Valid()
      modifies this`eeprom, this`usbOut, this`startAddr
      ensures Valid() && Cells() == OneByte(old(Cells()))
    {
      if startAddr < |eeprom| {
        eeprom := eeprom[startAddr := BankByte(usbOut, 0)];
      }
      usbOut := AfterByte(usbOut);
      startAddr := (startAddr + 1) % 0x1_0000;
    }

    /** The command bytes of the data stage. */
    method LoadCommand()
      requires Valid() && usbOut.bank != [] && |usbOut.bank| <= dataSize
      modifies this`command, this`data, this`dataSize, this`usbOut
      ensures Valid() && Regs() == Loaded(old(Regs()), old(usbOut.bank), old(dataSize)) && usbOut == AfterParameters(old(usbOut))
    {
      ghost var pipe := usbOut;
      hide Parameters, ParameterCount, AfterParameters;
      command := usbOut.bank[0];
      usbOut := usbOut.AfterRead(1);
      dataSize := dataSize - 1;
      LoadParameters(pipe);
    }

    /** The parameter bytes: at most five, over the ones of the command before. */
    method LoadParameters(ghost pipe: OutPipe)
      requires |data| == 5 && |usbOut.bank| <= dataSize && pipe.bank != [] && usbOut == pipe.AfterRead(1)
      modifies this`data, this`dataSize, this`usbOut
      ensures data == Parameters(pipe.bank, old(data)) && usbOut == AfterParameters(pipe)
      ensures dataSize == old(dataSize) - ParameterCount(pipe.bank)
    {
      var dataByte: nat := 0;
      ghost var before := data;
      LoadingStarts(pipe, before);
      hide Loading;
      while dataByte < 5 && usbOut.bank != []
        invariant dataByte <= 5 && dataSize == old(dataSize) - dataByte && |data| == 5 && |usbOut.bank| <= dataSize
        invariant Loading(pipe, usbOut, data, before, dataByte)
      {
        LoadingStep(pipe, usbOut, data, before, dataByte);
        data := data[dataByte := usbOut.bank[0]];
        usbOut := usbOut.AfterRead(1);
        dataSize := dataSize - 1;
        dataByte := dataByte + 1;
      }
      LoadingDone(pipe, usbOut, data, before, dataByte);
    }

    /** The filler, firmware or EEPROM data, and suffix of a DNLOAD request. */
    method ReceiveDownload() returns (attached: bool)
      requires Valid() && state == DfuDnloadIdle && dataSize != 0
      modifies this`flash, this`usbOut, this`eeprom, this`startAddr
      ensures Valid() && Now() == Received(old(Now()), old(usbOut)) && usbOut.Clear() == StageLeft(old(Now()), old(usbOut))
      ensures attached == DataLeft(old(Now()), AtData(old(Regs()), old(usbOut))).1
      ensures !attached ==> usbOut == usbOut.Clear()
    {
      hide FlashPart, EepromPart, Discarded, Flash.Valid, DataLeft;
      DiscardFillerBytes(FILLER_SIZE);
      DiscardFillerBytes(startAddr % CONTROL_SIZE);
      if data[0] == 0x00 {
        attached := ReceiveFirmware();
      } else {
        attached := ReceiveEepromData();
      }
      if !attached {
        return;
      }
      DiscardFillerBytes(SUFFIX_SIZE);
    }

    method ReceiveFirmware() returns (attached: bool)
      requires Valid() && data[0] == 0x00
      modifies this`flash, this`usbOut, this`startAddr
      ensures Valid() && Now() == FlashPart(old(Now()), old(usbOut)) && (usbOut, attached) == DataLeft(old(Now()), old(usbOut))
      ensures !attached ==> usbOut == usbOut.Clear()
    {
      hide WordsWritten, LongAddress, Flash.Valid;
      var bytesRemaining: nat := (endAddr - startAddr + 1) % 0x1_0000;
      attached := WriteFlash(bytesRemaining / 2);
      if !attached {
        return;
      }
      startAddr := endAddr;
    }

    method ReceiveEepromData() returns (attached: bool)
      requires Valid() && data[0] != 0x00
      modifies this`usbOut, this`eeprom, this`startAddr
      ensures Valid() && Now() == EepromPart(old(Now()), old(usbOut)) && (usbOut, attached) == DataLeft(old(Now()), old(usbOut))
      ensures !attached ==> usbOut == usbOut.Clear()
    {
      assert Cells() == ByteLoop(eeprom, usbOut, startAddr);
      hide BytesWritten, Flash.Valid;
      var bytesRemaining: nat := (endAddr - startAddr + 1) % 0x1_0000;
      attached := WriteEeprom(bytesRemaining);
    }

    /** The second half of the DFU_DNLOAD case: nothing, the end of the download, or its data. */
    method ReceiveData()
      requires Valid()
      modifies this`flash, this`usbOut, this`eeprom, this`startAddr, this`state
      ensures Valid() && Now() == Received(old(Now()), old(usbOut)) && usbOut == StageLeft(old(Now()), old(usbOut))
    {
      if state == DfuDnloadIdle {
        if dataSize == 0 {
          state := DfuIdle;
        } else {
          hide Received;
          var attached := ReceiveDownload();
          if !attached {
            return;
          }
        }
      }
      usbOut := usbOut.Clear();
    }

    /** The first half of the DFU_DNLOAD case: a pending exit command, and the command of this request. */
    method DnloadCommand(packets: seq<seq<byte>>)
      requires Valid() && dataSize == |Concat(packets)| && usbOut == OutPipe(false, [], packets)
      requires Concat(packets) != [] ==> packets != [] && packets[0] != [] && |packets[0]| <= dataSize
      modifies this`command, this`data, this`dataSize, this`usbOut
      modifies this`startAddr, this`endAddr, this`flash, this`state, this`status, this`flash64KBPage, this`response
      modifies this`waitForExit, this`appStart, this`runBootloader, this`isSecure
      ensures Valid() && (Now(), usbOut) == CommandPart(tables, old(Now()), packets, bootStart)
    {
      hide Commanded, Concat, Loaded;
      if waitForExit {
        ProcessBootloaderCommand();
        waitForExit := false;
      }
      if dataSize != 0 {
        usbOut := usbOut.Await();
        LoadCommand();
        ProcessBootloaderCommand();
      }
    }

    /** The DFU_DNLOAD case. */
    method HandleDnload(packets: seq<seq<byte>>)
      requires Valid() && dataSize == |Concat(packets)|
      requires Concat(packets) != [] ==> packets != [] && packets[0] != [] && |packets[0]| <= dataSize
      modifies this`command, this`data, this`dataSize, this`usbOut
      modifies this`startAddr, this`endAddr, this`flash, this`state, this`status, this`flash64KBPage, this`response
      modifies this`waitForExit, this`appStart, this`runBootloader, this`isSecure
      modifies this`eeprom
      ensures Valid() && Now() == Dnloaded(tables, old(Now()), packets, bootStart)
      ensures usbOut == DnloadLeft(tables, old(Now()), packets, bootStart)
      ensures flash.pageSize == old(flash.pageSize) && |flash.memory| == |old(flash.memory)|
    {
      ghost var c := CommandPart(tables, Now(), packets, bootStart);
      ReceivedKeepsSize(c.0, c.1);
      hide CommandPart, Received, StageLeft, Concat, Flash.Valid;
      usbOut := OutPipe(false, [], packets);
      DnloadCommand(packets);
      ReceiveData();
    }

    /** A word into the IN bank, which is sent off first when it is full. */
    method SendWord(low: byte, high: byte)
      requires Valid() && |usbIn.bank| % 2 == 0 && Uploading(usbIn)
      modifies this`usbIn
      ensures Valid() && |usbIn.bank| % 2 == 0 && usbIn.Stream() == old(usbIn.Stream()) + [low] + [high] && Uploading(usbIn)
    {
      if |usbIn.bank| == CONTROL_SIZE {
        ClearKeepsStream(usbIn);
        OneMoreFull(usbIn);
        usbIn := usbIn.Clear();
      }
      WriteExtends(usbIn, low);
      WriteExtends(usbIn.Write(low), high);
      usbIn := usbIn.Write(low).Write(high);
    }

    /** The flash branch of an upload. */
    method SendFlash(wordsRemaining: nat)
      requires Valid() && |usbIn.bank| % 2 == 0 && Uploading(usbIn)
      modifies this`usbIn
      ensures Valid() && Uploading(usbIn)
      ensures usbIn.Stream() == old(usbIn.Stream()) + FlashBytes(flash, FlashAddress(startAddr), 2 * wordsRemaining)
    {
      var left: nat := wordsRemaining;
      var currFlashAddress: nat := FlashAddress(startAddr);
      ghost var before, n: nat := usbIn.Stream(), 0;
      assert before + FlashBytes(flash, currFlashAddress, 0) == before;
      hide InPipe.Stream, Flash.ReadByte, FlashBytes, AllFull;
      while left > 0
        invariant n + 2 * left == 2 * wordsRemaining && currFlashAddress == FlashAddress(startAddr) + n
        invariant Valid() && |usbIn.bank| % 2 == 0 && Uploading(usbIn)
        invariant usbIn.Stream() == before + FlashBytes(flash, FlashAddress(startAddr), n)
      {
        left := left - 1;
        FlashBytesGrow(flash, FlashAddress(startAddr), n, before);
        SendWord(flash.ReadByte(currFlashAddress), flash.ReadByte(currFlashAddress + 1));
        currFlashAddress := currFlashAddress + 2;
        n := n + 2;
      }
    }

    /** The EEPROM branch of an upload. */
    method SendEeprom(bytesRemaining: nat)
      requires Valid() && Uploading(usbIn)
      modifies this`usbIn, this`startAddr
      ensures Valid() && Uploading(usbIn)
      ensures usbIn.Stream() == old(usbIn.Stream()) + EepromBytes(eeprom, old(startAddr), bytesRemaining)
      ensures startAddr == (old(startAddr) + bytesRemaining) % 0x1_0000
    {
      var left: nat := bytesRemaining;
      ghost var before, start := usbIn.Stream(), startAddr;
      assert before + EepromBytes(eeprom, start, 0) == before;
      hide InPipe.Stream, EepromBytes, AllFull;
      while left > 0
        invariant left <= bytesRemaining && startAddr == (start + (bytesRemaining - left)) % 0x1_0000
        invariant usbIn.size == CONTROL_SIZE && |usbIn.bank| <= CONTROL_SIZE && Uploading(usbIn)
        invariant usbIn.Stream() == before + EepromBytes(eeprom, start, bytesRemaining - left)
      {
        left := left - 1;
        if |usbIn.bank| == CONTROL_SIZE {
          ClearKeepsStream(usbIn);
          OneMoreFull(usbIn);
          usbIn := usbIn.Clear();
        }
        WriteExtends(usbIn, ReadEeprom(eeprom, startAddr));
        EepromBytesGrow(eeprom, start, bytesRemaining - left - 1);
        usbIn := usbIn.Write(ReadEeprom(eeprom, startAddr));
        startAddr := (startAddr + 1) % 0x1_0000;
      }
    }

    /** The answer of an upload outside the upload state: the first byte that is not blank, or the last response. */
    method WriteResponse()
      requires Valid() && usbIn == InPipe(CONTROL_SIZE, [], [])
      modifies this`usbIn
      ensures Valid() && usbIn.sent == []
      ensures usbIn.Stream() == if state == DfuError && data[0] == 0x01 then [LowByte(startAddr), LowByte(startAddr / 256)] else [response]
    {
      if state == DfuError && data[0] == 0x01 {
        usbIn := usbIn.Write(LowByte(startAddr)).Write(LowByte(startAddr / 256));
      } else {
        usbIn := usbIn.Write(response);
      }
      OnePacket(usbIn);
    }

    /** The DFU_GETSTATUS case: status, poll timeout, state, string index. */
    method HandleGetStatus()
      requires Valid() && usbIn == InPipe(CONTROL_SIZE, [], [])
      modifies this`usbIn
      ensures Valid() && |usbIn.sent| == 1 && InPackets(usbIn.sent)
      ensures Concat(usbIn.sent) == [StatusCode(status), 0, 0, 0, StateCode(state), 0]
    {
      usbIn := usbIn.Write(StatusCode(status));
      usbIn := usbIn.Write(0).Write(0).Write(0);
      usbIn := usbIn.Write(StateCode(state));
      usbIn := usbIn.Write(0);
      usbIn := usbIn.Clear();
      SentOne(usbIn);
    }

    /** The DFU_GETSTATE case. */
    method HandleGetState()
      requires Valid() && usbIn == InPipe(CONTROL_SIZE, [], [])
      modifies this`usbIn
      ensures Valid() && Concat(usbIn.sent) == [StateCode(state)] && |usbIn.sent| == 1 && InPackets(usbIn.sent)
    {
      usbIn := usbIn.Write(StateCode(state));
      usbIn := usbIn.Clear();
      SentOne(usbIn);
    }

    /** The range asked for, and back to the idle state. */
    method SendRange()
      requires Valid() && usbIn == InPipe(CONTROL_SIZE, [], []) && state == DfuUploadIdle
      modifies this`usbIn, this`state, this`startAddr
      ensures Valid() && Regs() == UploadRegisters(old(Regs())) && usbIn.Stream() == UploadAnswer(old(Regs()), flash, eeprom)
      ensures Uploading(usbIn)
    {
      hide FlashBytes, EepromBytes, LongAddress, Flash.Valid;
      var bytesRemaining: nat := (endAddr - startAddr + 1) % 0x1_0000;
      EmptyStream(usbIn);
      if data[0] == 0x00 {
        SendFlash(bytesRemaining / 2);
        startAddr := endAddr;
      } else if data[0] == 0x02 {
        SendEeprom(bytesRemaining);
      }
      state := DfuIdle;
    }

    /** The DFU_UPLOAD case. */
    method HandleUpload()
      requires Valid() && usbIn == InPipe(CONTROL_SIZE, [], [])
      modifies this`usbIn, this`state, this`startAddr
      ensures Valid() && Regs() == UploadRegisters(old(Regs())) && Concat(usbIn.sent) == UploadAnswer(old(Regs()), flash, eeprom)
      ensures usbIn.sent != [] && InPackets(usbIn.sent)
    {
      hide Concat, FlashBytes, EepromBytes, InPackets, InPipe.Stream, LongAddress, BytesRemaining, Flash.Valid;
      if state != DfuUploadIdle {
        WriteResponse();
      } else {
        SendRange();
      }
      ClearSendsAll(usbIn);
      OneMoreFull(usbIn);
      usbIn := usbIn.Clear();
    }

    /** The requests that only report or reset the state. */
    method HandleStateRequest(request: Request)
      requires Valid() && usbIn == InPipe(CONTROL_SIZE, [], []) && !request.Dnload? && !request.Upload?
      modifies this`usbIn, this`status, this`state
      ensures Valid() && (Regs(), Concat(usbIn.sent)) == StateStep(old(Regs()), request)
      ensures InPackets(usbIn.sent) && (usbIn.sent == [] <==> request.ClrStatus? || request.Abort?)
    {
      NothingSent();
      hide Concat;
      match request {
        case GetStatus(_) =>
          HandleGetStatus();
        case ClrStatus(_) =>
          status := Ok;
        case GetState(_) =>
          HandleGetState();
        case Abort(_) =>
          state := DfuIdle;
      }
    }

    /** The dispatch on the request. */
    method Serve(request: Request)
      requires Valid() && dataSize == request.Length() && usbIn == InPipe(CONTROL_SIZE, [], [])
      requires request.Dnload? ==> |Concat(request.packets)| == request.Length()
      requires request.Dnload? && Concat(request.packets) != [] ==>
        request.packets != [] && request.packets[0] != [] && |request.packets[0]| <= request.Length()
      modifies this
      ensures Valid() && flash.pageSize == old(flash.pageSize) && |flash.memory| == |old(flash.memory)|
      ensures request.Dnload? ==>
        && (Now(), Concat(usbIn.sent)) == (Dnloaded(tables, old(Now()), request.packets, bootStart), [])
        && usbOut == DnloadLeft(tables, old(Now()), request.packets, bootStart)
      ensures request.Upload? ==>
        (Now(), Concat(usbIn.sent)) == (old(Now()).(r := UploadRegisters(old(Regs()))), UploadAnswer(old(Regs()), old(flash), old(eeprom)))
      ensures !request.Dnload? && !request.Upload? ==>
        var s := StateStep(old(Regs()), request); (Now(), Concat(usbIn.sent)) == (old(Now()).(r := s.0), s.1)
      ensures InPackets(usbIn.sent) && (usbIn.sent == [] <==> request.Dnload? || request.ClrStatus? || request.Abort?)
    {
      NothingSent();
      hide Dnloaded, DnloadLeft, UploadRegisters, UploadAnswer, StateStep, Concat, Request.Length, Flash.Valid;
      if request.Dnload? {
        HandleDnload(request.packets);
      } else if request.Upload? {
        HandleUpload();
      } else {
        HandleStateRequest(request);
      }
    }

    /** EVENT_USB_Device_UnhandledControlRequest. */
    method HandleRequest(request: Request) returns (answer: seq<byte>)
      requires Valid() && request.Proper()
      modifies this
      ensures Valid() && flash.pageSize == old(flash.pageSize) && |flash.memory| == |old(flash.memory)|
      ensures (Now(), answer) == Step(tables, old(Now()), request, bootStart)
      ensures Concat(usbIn.sent) == answer && InPackets(usbIn.sent)
      ensures usbIn.sent == [] <==> request.Dnload? || request.ClrStatus? || request.Abort?
      ensures request.Dnload? ==> usbOut == RestOf(tables, old(Now()), request.packets, bootStart)
    {
      StepIs(tables, Now(), request, bootStart);
      hide Step, RestOf, Dnloaded, DnloadLeft, UploadRegisters, UploadAnswer, StateStep, Concat, Request.Proper, Request.Length, Flash.Valid, InPackets;
      dataSize := request.Length();
      usbIn := InPipe(CONTROL_SIZE, [], []);
      assert Now() == old(Now()).(r := old(Regs()).(dataSize := request.Length()));
      Serve(request);
      answer := Concat(usbIn.sent);
    }
  }
}
