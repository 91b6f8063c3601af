/**
 * BootloaderCDC: the command loop of the CDC bootloader over its two bulk endpoints. Each command does to the
 * device what CdcProtocol.Execute says, for any cutting of its bytes into packets, and answers in a framed transfer.
 */
module BootloaderCdc {
  import opened Arith
  import opened AvrFlash
  import opened Bytes
  import opened CdcProtocol
  import opened CdcTheorems
  import opened Endpoint

  const TXRX_EPSIZE := 16

  /** The stream once `n` bytes are taken off it. */
  function Drop(input: seq<byte>, n: nat): seq<byte> {
    if n <= |input| then input[n..] else []
  }

  /** CurrAddress is a 32-bit word address doubled. */
  ghost predicate AddressOk(addr: nat) {
    addr % 2 == 0 && addr < ADDRESS_SPACE
  }

  lemma AdvanceOk(addr: nat)
    requires AddressOk(addr)
    ensures AddressOk(Advance(addr, 2))
  {
  }

  /** An OUT endpoint without a packet has nothing in its bank. */
  ghost predicate PipeOk(p: OutPipe) {
    p.hasPacket || p.bank == []
  }

  /** The answer so far: full packets after those of earlier commands, and the rest in the bank. */
  ghost predicate Answering(p: InPipe, answered: seq<seq<byte>>, response: seq<byte>) {
    && p.size == TXRX_EPSIZE && |p.bank| <= TXRX_EPSIZE && answered <= p.sent
    && (forall i :: |answered| <= i < |p.sent| ==> |p.sent[i]| == TXRX_EPSIZE)
    && Concat(p.sent[|answered|..]) + p.bank == response
  }

  /** A command has had the outcome. */
  ghost predicate Did(o: Outcome, d: Device, before: seq<byte>, response: seq<byte>, taken: nat) {
    d == o.device && response == before + o.response && taken == o.used
  }

  /** A command carried out, its answer sent after the earlier packets, and its bytes taken, with the rest of its last packet. */
  ghost predicate Answered(o: Outcome, d: Device, before: seq<seq<byte>>, sent: seq<seq<byte>>, input: seq<byte>, rest: seq<byte>) {
    && d == o.device && before <= sent && Framed(TXRX_EPSIZE, sent[|before|..], o.response)
    && exists n: nat :: o.used <= n && rest == Drop(input, n)
  }

  class Bootloader {
    const board: Board
    var currAddress: nat
    var runBootloader: bool
    var flash: Flash
    var eeprom: seq<byte>
    var locks: seq<byte>
    var usbOut: OutPipe
    var usbIn: InPipe
    /** The bytes the host sends for this command and how many are taken; what earlier commands and this one answered. */
    ghost var input: seq<byte>
    ghost var taken: nat
    ghost var answered: seq<seq<byte>>
    ghost var response: seq<byte>

    constructor (board: Board, flash: Flash, eeprom: seq<byte>)
      requires |board.signature| == 3 && flash.Valid()
      ensures Valid() && Dev() == Device(0, flash, eeprom, true, []) && usbIn.bank == [] && this.board == board
    {
      this.board := board;
      currAddress, runBootloader, this.flash, this.eeprom, locks := 0, true, flash, eeprom, [];
      usbOut, usbIn := OutPipe(false, [], []), InPipe(TXRX_EPSIZE, [], []);
    }

    ghost predicate Valid()
      reads this
    {
      |board.signature| == 3 && flash.Valid() && PipeOk(usbOut) && usbIn.size == TXRX_EPSIZE && AddressOk(currAddress)
    }

    /** A command is being read and answered. */
    ghost predicate Busy()
      reads this
    {
      && |board.signature| == 3 && flash.Valid() && AddressOk(currAddress)
      && PipeOk(usbOut) && usbOut.Stream() == Drop(input, taken) && Answering(usbIn, answered, response)
    }

    function Dev(): Device
      reads this
    {
      Device(currAddress, flash, eeprom, runBootloader, locks)
    }

    /** FetchNextCommandByte. */
    method FetchNextCommandByte() returns (b: byte)
      requires Busy()
      modifies this`usbOut, this`taken
      ensures Busy() && b == At(input, old(taken)) && taken == old(taken) + 1
    {
      hide Answering, Drop, OutPipe.Stream;
      while !usbOut.ReadWriteAllowed()
        invariant taken == old(taken) && PipeOk(usbOut) && usbOut.Stream() == Drop(input, taken)
        decreases |usbOut.pending|, usbOut.hasPacket
      {
        NotReadable(usbOut);
        usbOut := usbOut.Clear();
        if usbOut.pending == [] {
          NothingLeft(usbOut, input, taken);
          taken := taken + 1;
          return 0;
        }
        usbOut := usbOut.Await();
      }
      b := usbOut.bank[0];
      NextByte(usbOut, input, taken);
      usbOut := usbOut.AfterRead(1);
      taken := taken + 1;
    }

    /** WriteNextResponseByte. */
    method WriteNextResponseByte(b: byte)
      requires Busy()
      modifies this`usbIn, this`response
      ensures Busy() && response == old(response) + [b]
    {
      hide OutPipe.Stream, Drop;
      if !usbIn.ReadWriteAllowed() {
        FullSent(usbIn, answered, response);
        usbIn := usbIn.Clear();
      }
      ByteWritten(usbIn, answered, response, b);
      hide Answering;
      usbIn := usbIn.Write(b);
      response := response + [b];
    }

    /** A block read from flash: the low and the high byte of one word after another. */
    method ReadFlashBlock(blockSize: nat)
      requires Busy()
      modifies this`usbIn, this`response, this`currAddress
      ensures Busy() && response == old(response) + FlashBytes(flash, old(currAddress), blockSize)
      ensures currAddress == Advance(old(currAddress), 2 * WholeWords(blockSize))
    {
      var highByte := false;
      ghost var addr, before := currAddress, response;
      var left: nat := blockSize;
      ReadingStarts(flash, addr, before);
      while left > 0
        invariant left <= blockSize && Busy()
        invariant Reading(flash, addr, blockSize - left, highByte, before, response, currAddress)
      {
        ReadingStep(flash, addr, blockSize - left, highByte, before, response, currAddress);
        hide Reading;
        highByte := ReadFlashByte(highByte);
        left := left - 1;
      }
    }

    /** The byte at the current address, and on to the next word after a high byte. */
    method ReadFlashByte(highByte: bool) returns (highByte': bool)
      requires Busy()
      modifies this`usbIn, this`response, this`currAddress
      ensures Busy() && highByte' == !highByte
      ensures response == old(response) + [flash.ReadByte(old(currAddress) + (if highByte then 1 else 0))]
      ensures currAddress == if highByte then Advance(old(currAddress), 2) else old(currAddress)
    {
      AdvanceOk(currAddress);
      hide Advance;
      WriteNextResponseByte(flash.ReadByte(currAddress + (if highByte then 1 else 0)));
      if highByte {
        currAddress := Advance(currAddress, 2);
      }
      highByte' := !highByte;
    }

    /** A block read from EEPROM. */
    method ReadEepromBlock(blockSize: nat)
      requires Busy()
      modifies this`usbIn, this`response, this`currAddress
      ensures Busy() && response == old(response) + EepromBytes(eeprom, old(currAddress), blockSize)
      ensures currAddress == Advance(old(currAddress), 2 * blockSize)
    {
      ghost var addr, before, i: nat := currAddress, response, 0;
      var left: nat := blockSize;
      EepromBytesStart(eeprom, addr, before);
      hide OutPipe.Stream, Drop, Answering, EepromBytes, ReadEeprom, Advance, EepromAddress;
      while left > 0
        invariant Busy() && i + left == blockSize
        invariant currAddress == Advance(addr, 2 * i) && response == before + EepromBytes(eeprom, addr, i)
      {
        left := left - 1;
        EepromBytesStep(eeprom, addr, i, before);
        WriteNextResponseByte(ReadEeprom(eeprom, EepromAddress(currAddress)));
        AdvanceOk(currAddress);
        currAddress := Advance(currAddress, 2);
        i := i + 1;
      }
    }

    /** A block written to flash: its first page erased, whole words filled in, that page written. */
    method WriteFlashPage(blockSize: nat)
      requires Busy()
      modifies this`usbOut, this`taken, this`flash, this`currAddress
      ensures Busy() && taken == old(taken) + blockSize
      ensures flash == WriteFlashBlock(old(flash), old(currAddress), Taken(input, old(taken), blockSize))
      ensures currAddress == Advance(old(currAddress), 2 * WholeWords(blockSize))
    {
      var pageStartAddress := currAddress;
      flash := flash.PageErase(pageStartAddress);
      FillPage(blockSize);
      flash := flash.PageWrite(pageStartAddress);
    }

    /** The loop of a flash write: two bytes make a word. */
    method FillPage(blockSize: nat)
      requires Busy()
      modifies this`usbOut, this`taken, this`flash, this`currAddress
      ensures Busy() && taken == old(taken) + blockSize
      ensures flash == FillWords(old(flash), old(currAddress), Taken(input, old(taken), blockSize), WholeWords(blockSize))
      ensures currAddress == Advance(old(currAddress), 2 * WholeWords(blockSize))
    {
      ghost var addr, from, erased, w: nat := currAddress, taken, flash, 0;
      ghost var data := Taken(input, from, blockSize);
      var left: nat := blockSize;
      var highByte := false;
      var lowByte: byte := 0;
      FillStarts(flash, addr, data);
      while left > 0
        invariant Busy() && left <= blockSize && taken == from + (blockSize - left)
        invariant Filling(erased, addr, data, w, highByte, lowByte, left, flash, currAddress)
      {
        TakenAt(input, from, blockSize, blockSize - left);
        highByte, lowByte, w := FillByte(highByte, lowByte, left, erased, addr, data, w);
        left := left - 1;
      }
      FillEnds(erased, addr, data, w, highByte, lowByte, flash, currAddress);
    }

    /** One byte of a flash write: kept as the low byte, or the high byte that completes a word. */
    method FillByte(highByte: bool, lowByte: byte, left: nat, ghost erased: Flash, ghost addr: nat, ghost data: seq<byte>, ghost w: nat)
      returns (highByte': bool, lowByte': byte, ghost w': nat)
      requires Busy() && 0 < left <= |data| && At(input, taken) == data[|data| - left]
      requires Filling(erased, addr, data, w, highByte, lowByte, left, flash, currAddress)
      modifies this`usbOut, this`taken, this`flash, this`currAddress
      ensures Busy() && taken == old(taken) + 1
      ensures Filling(erased, addr, data, w', highByte', lowByte', left - 1, flash, currAddress)
    {
      ghost var next := data[|data| - left];
      FillStep(erased, addr, data, w, highByte, lowByte, left, next, flash, currAddress);
      hide Filling;
      var b := FetchNextCommandByte();
      if highByte {
        FillWord(lowByte, b);
        return false, lowByte, w + 1;
      }
      return true, b, w;
    }

    /** A word into the fill buffer, and on to the next. */
    method FillWord(low: byte, high: byte)
      requires Busy()
      modifies this`flash, this`currAddress
      ensures Busy() && flash == old(flash).PageFill(old(currAddress), low, high) && currAddress == Advance(old(currAddress), 2)
    {
      AdvanceOk(currAddress);
      hide Flash.PageFill;
      flash := flash.PageFill(currAddress, low, high);
      currAddress := Advance(currAddress, 2);
    }

    /** A block written to EEPROM. */
    method WriteEepromData(blockSize: nat)
      requires Busy()
      modifies this`usbOut, this`taken, this`eeprom, this`currAddress
      ensures Busy() && taken == old(taken) + blockSize && currAddress == Advance(old(currAddress), 2 * blockSize)
      ensures eeprom == WriteEepromBlock(old(eeprom), old(currAddress), Taken(input, old(taken), blockSize))
    {
      ghost var addr, from, before := currAddress, taken, eeprom;
      ghost var data := Taken(input, from, blockSize);
      var left: nat := blockSize;
      EepromStarts(before, addr, data);
      hide OutPipe.Stream, Drop, Answering, Advance, EepromAddress, WriteEeprom, WriteEepromBytes, At, Taken;
      while left > 0
        invariant Busy() && left <= blockSize && taken == from + (blockSize - left)
        invariant EepromDuring(before, addr, data, blockSize - left, eeprom, currAddress)
      {
        TakenAt(input, from, blockSize, blockSize - left);
        EepromStep(before, addr, data, blockSize - left, eeprom, currAddress);
        hide EepromDuring;
        WriteEepromByte();
        left := left - 1;
      }
    }

    method WriteEepromByte()
      requires Busy()
      modifies this`usbOut, this`taken, this`eeprom, this`currAddress
      ensures Busy() && taken == old(taken) + 1 && currAddress == Advance(old(currAddress), 2)
      ensures eeprom == WriteEeprom(old(eeprom), EepromAddress(old(currAddress)), At(input, old(taken)))
    {
      AdvanceOk(currAddress);
      hide Advance;
      var b := FetchNextCommandByte();
      eeprom := WriteEeprom(eeprom, EepromAddress(currAddress), b);
      currAddress := Advance(currAddress, 2);
    }

    /** ReadWriteMemoryBlock. */
    method ReadWriteMemoryBlock(command: byte)
      requires Busy() && taken == 1 && command == At(input, 0)
      modifies this`usbOut, this`taken, this`usbIn, this`response, this`currAddress, this`flash, this`eeprom
      ensures Busy() && Did(Block(old(Dev()), input), Dev(), old(response), response, taken)
    {
      hide Transfer;
      var high := FetchNextCommandByte();
      var low := FetchNextCommandByte();
      var blockSize: nat := Word(high, low);
      var memoryType := FetchNextCommandByte();
      if memoryType != EEPROM && memoryType != FLASH {
        WriteNextResponseByte(FAIL);
        return;
      }
      TransferBlock(command == READ_BLOCK, memoryType, blockSize);
    }

    /** The memory transfer of ReadWriteMemoryBlock. */
    method TransferBlock(read: bool, memoryType: byte, blockSize: nat)
      requires Busy() && taken == 4
      modifies this`usbOut, this`taken, this`usbIn, this`response, this`currAddress, this`flash, this`eeprom
      ensures Busy() && Did(Transfer(old(Dev()), read, memoryType, Taken(input, 4, blockSize), blockSize), Dev(), old(response), response, taken)
    {
      hide At, OutPipe.Stream, Drop, Answering, Advance, FlashBytes, EepromBytes, WriteFlashBlock, WriteEepromBlock, Taken;
      if memoryType == FLASH {
        if read {
          ReadFlashBlock(blockSize);
        } else {
          WriteFlashPage(blockSize);
        }
      } else {
        if read {
          ReadEepromBlock(blockSize);
        } else {
          WriteEepromData(blockSize);
        }
      }
      if !read {
        WriteNextResponseByte(OK);
      }
    }

    method WriteTwo(one: byte, two: byte)
      requires Busy()
      modifies this`usbIn, this`response
      ensures Busy() && response == old(response) + [one, two]
    {
      WriteNextResponseByte(one);
      WriteNextResponseByte(two);
    }

    method WriteThree(one: byte, two: byte, three: byte)
      requires Busy()
      modifies this`usbIn, this`response
      ensures Busy() && response == old(response) + [one, two, three]
    {
      assert response + [one, two, three] == response + [one, two] + [three];
      hide Answering, Flash.Valid;
      WriteTwo(one, two);
      WriteNextResponseByte(three);
    }

    /** The software identifier, byte by byte. */
    method WriteIdentifier()
      requires Busy()
      modifies this`usbIn, this`response
      ensures Busy() && response == old(response) + IDENTIFIER
    {
      var i: nat := 0;
      assert response + IDENTIFIER[..0] == response;
      while i < 7
        invariant i <= 7 && Busy() && response == old(response) + IDENTIFIER[..i]
      {
        assert IDENTIFIER[..i + 1] == IDENTIFIER[..i] + [IDENTIFIER[i]];
        WriteNextResponseByte(IDENTIFIER[i]);
        i := i + 1;
      }
      assert IDENTIFIER[..7] == IDENTIFIER;
    }

    /** The commands that only answer. */
    method Answer(command: byte)
      requires Busy()
      modifies this`usbIn, this`response
      ensures Busy() && response == old(response) + Report(board, Dev(), command)
    {
      hide OutPipe.Stream, Drop, Answering, Flash.ReadByte, LowByte;
      if command == 0x74 {
        WriteTwo(0x44, 0x00);
      } else if command == 0x61 {
        WriteNextResponseByte(0x59);
      } else if command == 0x70 {
        WriteNextResponseByte(0x53);
      } else if command == 0x53 {
        WriteIdentifier();
      } else if command == 0x56 {
        WriteTwo(0x31, 0x30);
      } else if command == 0x73 {
        WriteThree(board.signature[2], board.signature[1], board.signature[0]);
      } else if command == 0x62 {
        WriteThree(0x59, LowByte(flash.pageSize / 256), LowByte(flash.pageSize));
      } else if command == 0x72 || command == 0x46 || command == 0x4E || command == 0x51 {
        WriteNextResponseByte(board.bits(command, locks));
      } else if command == 0x52 {
        WriteTwo(flash.ReadByte(currAddress + 1), flash.ReadByte(currAddress));
      } else if command != 0x1B {
        WriteNextResponseByte(FAIL);
      }
    }

    /** The erase loop: its own step and the page size are both added to the address. */
    method EraseApplication()
      requires Busy()
      modifies this`flash
      ensures Busy() && flash == EraseFrom(old(flash), 0, board.bootStart)
    {
      var currFlashAddress: nat := 0;
      hide OutPipe.Stream, Drop, Answering, Flash.PageErase, Flash.PageWrite;
      while currFlashAddress < board.bootStart
        invariant Busy() && EraseFrom(flash, currFlashAddress, board.bootStart) == EraseFrom(old(flash), 0, board.bootStart)
        decreases board.bootStart - currFlashAddress
      {
        flash := flash.PageErase(currFlashAddress);
        flash := flash.PageWrite(currFlashAddress);
        currFlashAddress := currFlashAddress + flash.pageSize;
        currFlashAddress := currFlashAddress + 1;
      }
    }

    /** The 'A' command. */
    method ReceiveAddress()
      requires Busy() && taken == 1
      modifies this`usbOut, this`taken, this`currAddress
      ensures Busy() && taken == 3 && currAddress == SetAddress(At(input, 1), At(input, 2))
    {
      var high := FetchNextCommandByte();
      var low := FetchNextCommandByte();
      hide SetAddress;
      currAddress := SetAddress(high, low);
    }

    /** The 'C' and 'c' commands: a byte into the fill buffer, as a whole word. */
    method FillFromByte(second: bool)
      requires Busy() && taken == 1
      modifies this`usbOut, this`taken, this`flash, this`currAddress
      ensures Busy() && taken == 2
      ensures flash == old(flash).PageFill(old(currAddress) + (if second then 1 else 0), At(input, 1), 0)
      ensures currAddress == if second then Advance(old(currAddress), 2) else old(currAddress)
    {
      AdvanceOk(currAddress);
      var b := FetchNextCommandByte();
      flash := flash.PageFill(currAddress + (if second then 1 else 0), b, 0);
      if second {
        currAddress := Advance(currAddress, 2);
      }
    }

    /** The 'd' command. */
    method SendEepromByte()
      requires Busy()
      modifies this`usbIn, this`response, this`currAddress
      ensures Busy() && response == old(response) + [ReadEeprom(eeprom, EepromAddress(old(currAddress)))]
      ensures currAddress == Advance(old(currAddress), 2)
    {
      AdvanceOk(currAddress);
      WriteNextResponseByte(ReadEeprom(eeprom, EepromAddress(currAddress)));
      currAddress := Advance(currAddress, 2);
    }

    /** The commands that change the address, a memory or the lock bits, and the confirmation they send. */
    method ChangeDevice(command: byte)
      requires Busy() && taken == 1 && command == At(input, 0)
      requires command in {0x41, 0x65, 0x6C, 0x43, 0x63, 0x6D, 0x44, 0x64}
      modifies this`usbOut, this`taken, this`usbIn, this`response
      modifies this`currAddress, this`flash, this`eeprom, this`locks
      ensures Busy() && Did(Change(board, old(Dev()), input), Dev(), old(response), response, taken)
    {
      if command == 0x64 {
        SendEepromByte();
        return;
      }
      ChangeAnswers(board, Dev(), input);
      hide Change;
      if command == 0x41 || command == 0x65 || command == 0x6D {
        ChangeFlash(command);
      } else {
        StoreByte(command);
      }
      WriteNextResponseByte(OK);
    }

    /** 'A', 'e' and 'm'. */
    method ChangeFlash(command: byte)
      requires Busy() && taken == 1 && command == At(input, 0) && command in {0x41, 0x65, 0x6D}
      modifies this`usbOut, this`taken, this`currAddress, this`flash
      ensures Busy() && var o := Change(board, old(Dev()), input); Dev() == o.device && taken == o.used
    {
      if command == 0x41 {
        ReceiveAddress();
      } else if command == 0x65 {
        EraseApplication();
      } else {
        hide Flash.PageWrite;
        flash := flash.PageWrite(currAddress);
      }
    }

    /** 'l', 'C', 'c' and 'D': the commands with one byte to store. */
    method StoreByte(command: byte)
      requires Busy() && taken == 1 && command == At(input, 0) && command in {0x6C, 0x43, 0x63, 0x44}
      modifies this`usbOut, this`taken, this`currAddress, this`flash, this`eeprom, this`locks
      ensures Busy() && var o := Change(board, old(Dev()), input); Dev() == o.device && taken == o.used
    {
      if command == 0x6C {
        var b := FetchNextCommandByte();
        locks := locks + [b];
      } else if command == 0x44 {
        WriteEepromByte();
      } else {
        FillFromByte(command == 0x63);
      }
    }

    /** The command dispatch of CDC_Task. */
    method RunCommand()
      requires Busy() && taken == 0
      modifies this`usbOut, this`taken, this`usbIn, this`response
      modifies this`currAddress, this`flash, this`eeprom, this`locks, this`runBootloader
      ensures Busy() && Did(Execute(board, old(Dev()), input), Dev(), old(response), response, taken)
    {
      hide OutPipe.Stream, Drop, Answering, Block, Change, Report, Flash.Valid;
      var command := FetchNextCommandByte();
      if command == 0x4C || command == 0x50 || command == 0x54 || command == 0x45 {
        if command == 0x45 {
          runBootloader := false;
        }
        if command == 0x54 {
          var _ := FetchNextCommandByte();
        }
        WriteNextResponseByte(OK);
      } else if command == 0x42 || command == 0x67 {
        ReadWriteMemoryBlock(command);
      } else if command in {0x41, 0x65, 0x6C, 0x43, 0x63, 0x6D, 0x44, 0x64} {
        ChangeDevice(command);
      } else {
        Answer(command);
      }
    }

    /**
     * CDC_Task: if the host has sent a command, carries it out and sends the answer as a transfer that ends with a
     * short packet. What is left of the command's last packet is thrown away and its bank given back.
     */
    method Task()
      requires Valid() && usbIn.bank == []
      modifies this
      ensures Valid() && usbIn.bank == []
      ensures !old(usbOut.Available()) ==> Dev() == old(Dev()) && usbIn == old(usbIn) && usbOut == old(usbOut)
      ensures old(usbOut.Available()) ==>
        && Answered(Execute(board, old(Dev()), old(usbOut.Stream())), Dev(), old(usbIn.sent), usbIn.sent, old(usbOut.Stream()), usbOut.Stream())
        && !usbOut.hasPacket
    {
      if usbOut.Available() {
        ServeCommand();
      }
    }

    method ServeCommand()
      requires Valid() && usbIn.bank == [] && usbOut.Available()
      modifies this
      ensures Valid() && usbIn.bank == []
      ensures Answered(Execute(board, old(Dev()), old(usbOut.Stream())), Dev(), old(usbIn.sent), usbIn.sent, old(usbOut.Stream()), usbOut.Stream())
      ensures !usbOut.hasPacket
    {
      hide Execute, Drop, OutPipe.Stream, Answering, Framed, Flash.Valid, OutPipe.Await, Answered, Did;
      ghost var o, sent := Execute(board, Dev(), usbOut.Stream()), usbIn.sent;
      AwaitKeeps(usbOut);
      NoAnswerYet(usbIn);
      input, taken, answered, response := usbOut.Stream(), 0, sent, [];
      usbOut := usbOut.Await();
      RunCommand();
      SendAnswer();
      ClearSkips(usbOut, input, taken);
      AnswerDone(o, Dev(), response, taken, sent, usbIn.sent, input, usbOut);
      usbOut := usbOut.Clear();
    }

    /** The end of CDC_Task: the last packet, and an empty one after a full one. */
    method SendAnswer()
      requires Busy()
      modifies this`usbIn
      ensures usbIn.size == TXRX_EPSIZE && usbIn.bank == [] && answered <= usbIn.sent
      ensures Framed(TXRX_EPSIZE, usbIn.sent[|answered|..], response)
    {
      hide Framed, OutPipe.Stream, Drop;
      var isEndpointFull := !usbIn.ReadWriteAllowed();
      if isEndpointFull {
        FullSent(usbIn, answered, response);
      } else {
        LastSent(usbIn, answered, response);
      }
      usbIn := usbIn.Clear();
      if isEndpointFull {
        LastSent(usbIn, answered, response);
        usbIn := usbIn.Clear();
      }
    }
  }

  /** `count` bytes of a block written. */
  ghost predicate EepromDuring(before: seq<byte>, addr: nat, data: seq<byte>, count: nat, eeprom: seq<byte>, at: nat) {
    count <= |data| && at == Advance(addr, 2 * count) && eeprom == WriteEepromBytes(before, addr, data, count)
  }

  /** `words` words of a block filled in, `left` bytes to come, and perhaps a low byte waiting for its high byte. */
  ghost predicate Filling(before: Flash, addr: nat, data: seq<byte>, words: nat, high: bool, low: byte, left: nat, f: Flash, at: nat) {
    && before.Valid() && 2 * words + (if high then 1 else 0) + left == |data| && (high ==> low == data[2 * words])
    && at == Advance(addr, 2 * words) && f == FillWords(before, addr, data, words)
  }

  // ---------------------------------------------------------------- one step of each block loop

  /** `n` bytes of a block read. */
  ghost predicate Reading(f: Flash, addr: nat, n: nat, high: bool, before: seq<byte>, response: seq<byte>, at: nat) {
    high == (n % 2 == 1) && at == Advance(addr, 2 * WholeWords(n)) && response == before + FlashBytes(f, addr, n)
  }

  lemma ReadingStarts(f: Flash, addr: nat, before: seq<byte>)
    requires addr < ADDRESS_SPACE
    ensures Reading(f, addr, 0, false, before, before, addr)
  {
    assert before + FlashBytes(f, addr, 0) == before;
  }

  lemma AdvanceTwice(addr: nat, one: nat, two: nat)
    ensures Advance(Advance(addr, one), two) == Advance(addr, one + two)
  {
    var q, r := (addr + one) / ADDRESS_SPACE, (addr + one) % ADDRESS_SPACE;
    var p, s := (r + two) / ADDRESS_SPACE, (r + two) % ADDRESS_SPACE;
    DivUnique(addr + one + two, ADDRESS_SPACE, q + p, s);
  }

  lemma ReadingStep(f: Flash, addr: nat, n: nat, high: bool, before: seq<byte>, response: seq<byte>, at: nat)
    requires Reading(f, addr, n, high, before, response, at)
    ensures Reading(f, addr, n + 1, !high, before, response + [f.ReadByte(at + (if high then 1 else 0))], if high then Advance(at, 2) else at)
  {
    AdvanceTwice(addr, 2 * WholeWords(n), 2);
    assert FlashBytes(f, addr, n + 1) == FlashBytes(f, addr, n) + [f.ReadByte(FlashByteAddress(addr, n))];
    assert WholeWords(n + 1) == if high then WholeWords(n) + 1 else WholeWords(n);
  }

  lemma EepromBytesStart(eeprom: seq<byte>, addr: nat, before: seq<byte>)
    requires addr < ADDRESS_SPACE
    ensures Advance(addr, 2 * 0) == addr && before + EepromBytes(eeprom, addr, 0) == before
  {
  }

  lemma EepromBytesStep(eeprom: seq<byte>, addr: nat, i: nat, before: seq<byte>)
    ensures before + EepromBytes(eeprom, addr, i) + [ReadEeprom(eeprom, EepromAddress(Advance(addr, 2 * i)))]
      == before + EepromBytes(eeprom, addr, i + 1)
    ensures Advance(addr, 2 * (i + 1)) == Advance(Advance(addr, 2 * i), 2)
  {
    hide EepromAddress, ReadEeprom, Advance;
    AdvanceTwice(addr, 2 * i, 2);
    assert EepromBytes(eeprom, addr, i + 1)
      == EepromBytes(eeprom, addr, i) + [ReadEeprom(eeprom, EepromAddress(Advance(addr, 2 * i)))];
  }

  lemma FillStarts(f: Flash, addr: nat, data: seq<byte>)
    requires f.Valid() && addr < ADDRESS_SPACE
    ensures Filling(f, addr, data, 0, false, 0, |data|, f, addr)
  {
  }

  lemma FillStep(before: Flash, addr: nat, data: seq<byte>, words: nat, high: bool, low: byte, left: nat, next: byte, f: Flash, at: nat)
    requires Filling(before, addr, data, words, high, low, left, f, at) && 0 < left <= |data| && f.Valid() && next == data[|data| - left]
    ensures high ==> Filling(before, addr, data, words + 1, false, low, left - 1, f.PageFill(at, low, next), Advance(at, 2))
    ensures !high ==> Filling(before, addr, data, words, true, next, left - 1, f, at)
  {
    hide Flash.PageFill, Advance;
    AdvanceTwice(addr, 2 * words, 2);
  }

  lemma FillEnds(before: Flash, addr: nat, data: seq<byte>, words: nat, high: bool, low: byte, f: Flash, at: nat)
    requires Filling(before, addr, data, words, high, low, 0, f, at)
    ensures f == FillWords(before, addr, data, WholeWords(|data|)) && at == Advance(addr, 2 * WholeWords(|data|))
  {
    assert WholeWords(|data|) == words;
    hide FillWords, Advance;
  }

  lemma TakenAt(input: seq<byte>, from: nat, n: nat, i: nat)
    requires i < n
    ensures Taken(input, from, n)[i] == At(input, from + i)
  {
  }

  lemma EepromStarts(eeprom: seq<byte>, addr: nat, data: seq<byte>)
    requires addr < ADDRESS_SPACE
    ensures EepromDuring(eeprom, addr, data, 0, eeprom, addr)
  {
  }

  lemma EepromStep(before: seq<byte>, addr: nat, data: seq<byte>, i: nat, eeprom: seq<byte>, at: nat)
    requires EepromDuring(before, addr, data, i, eeprom, at) && i < |data|
    ensures EepromDuring(before, addr, data, i + 1, WriteEeprom(eeprom, EepromAddress(at), data[i]), Advance(at, 2))
  {
    hide EepromAddress, WriteEeprom, Advance;
    AdvanceTwice(addr, 2 * i, 2);
  }

  // ---------------------------------------------------------------- endpoints

  lemma AwaitKeeps(p: OutPipe)
    requires PipeOk(p) && p.Available()
    ensures PipeOk(p.Await()) && p.Await().Stream() == p.Stream() == Drop(p.Stream(), 0)
  {
  }

  lemma NoAnswerYet(p: InPipe)
    requires p.size == TXRX_EPSIZE && p.bank == []
    ensures Answering(p, p.sent, [])
  {
  }

  lemma AnswerDone(o: Outcome, d: Device, response: seq<byte>, taken: nat, before: seq<seq<byte>>, sent: seq<seq<byte>>, input: seq<byte>, p: OutPipe)
    requires Did(o, d, [], response, taken) && before <= sent && Framed(TXRX_EPSIZE, sent[|before|..], response)
    requires p.Clear().Stream() == Drop(input, taken + |p.bank|)
    ensures Answered(o, d, before, sent, input, p.Clear().Stream())
  {
    assert [] + o.response == o.response;
    hide Framed, Drop, OutPipe.Stream;
  }

  /** Clearing the bank takes what is left of its packet off the stream. */
  lemma ClearSkips(p: OutPipe, input: seq<byte>, used: nat)
    requires p.Stream() == Drop(input, used)
    ensures PipeOk(p.Clear()) && p.Clear().Stream() == Drop(input, used + |p.bank|)
  {
    assert p.Clear().Stream() == p.Stream()[|p.bank|..];
  }

  /** Every change but the EEPROM read is confirmed. */
  lemma ChangeAnswers(b: Board, d: Device, input: seq<byte>)
    requires d.flash.Valid() && At(input, 0) in {0x41, 0x65, 0x6C, 0x43, 0x63, 0x6D, 0x44}
    ensures Change(b, d, input).response == [OK]
  {
  }

  lemma NotReadable(p: OutPipe)
    requires PipeOk(p) && !p.ReadWriteAllowed()
    ensures p.bank == [] && p.Clear().Stream() == p.Stream()
    ensures p.pending != [] ==> p.Clear().Await().Stream() == p.Stream()
  {
  }

  lemma NothingLeft(p: OutPipe, input: seq<byte>, taken: nat)
    requires p.bank == [] && p.pending == [] && p.Stream() == Drop(input, taken)
    ensures At(input, taken) == 0 && p.Stream() == Drop(input, taken + 1)
  {
  }

  lemma NextByte(p: OutPipe, input: seq<byte>, taken: nat)
    requires p.bank != [] && p.Stream() == Drop(input, taken)
    ensures p.bank[0] == At(input, taken) && p.AfterRead(1).Stream() == Drop(input, taken + 1)
  {
    assert p.bank[0] == p.Stream()[0];
    assert p.AfterRead(1).Stream() == p.Stream()[1..];
  }

  lemma FullSent(p: InPipe, answered: seq<seq<byte>>, response: seq<byte>)
    requires Answering(p, answered, response) && |p.bank| == TXRX_EPSIZE
    ensures Answering(p.Clear(), answered, response)
  {
    assert p.Clear().sent[|answered|..] == p.sent[|answered|..] + [p.bank];
    ConcatAppend(p.sent[|answered|..], p.bank);
  }

  lemma ByteWritten(p: InPipe, answered: seq<seq<byte>>, response: seq<byte>, b: byte)
    requires Answering(p, answered, response) && p.ReadWriteAllowed()
    ensures Answering(p.Write(b), answered, response + [b])
  {
  }

  /** The last packet of an answer, when the bank is not full. */
  lemma LastSent(p: InPipe, answered: seq<seq<byte>>, response: seq<byte>)
    requires Answering(p, answered, response) && |p.bank| < TXRX_EPSIZE
    ensures answered <= p.Clear().sent && Framed(TXRX_EPSIZE, p.Clear().sent[|answered|..], response)
  {
    assert p.Clear().sent[|answered|..] == p.sent[|answered|..] + [p.bank];
    ConcatAppend(p.sent[|answered|..], p.bank);
  }

  // ---------------------------------------------------------------- whole sessions

  function Streams(commands: seq<seq<seq<byte>>>): (s: seq<seq<byte>>)
    ensures |s| == |commands|
  {
    seq(|commands|, i requires 0 <= i < |commands| => Concat(commands[i]))
  }

  /** What a host that sends these commands one by one is told. */
  ghost predicate Told(b: Board, d: Device, streams: seq<seq<byte>>, answers: seq<seq<byte>>)
    requires d.flash.Valid() && |b.signature| == 3
  {
    |answers| <= |streams| && forall i :: 0 <= i < |answers| ==> answers[i] == Execute(b, After(b, d, streams[..i]), streams[i]).response
  }

  lemma OneMoreCommand(b: Board, d: Device, streams: seq<seq<byte>>, i: nat)
    requires d.flash.Valid() && |b.signature| == 3 && i < |streams|
    ensures After(b, d, streams[..i + 1]) == Execute(b, After(b, d, streams[..i]), streams[i]).device
  {
    assert streams[..i + 1][..i] == streams[..i];
  }

  lemma OneMoreAnswer(size: nat, sent: seq<seq<byte>>, from: nat, response: seq<byte>)
    requires from <= |sent| && Framed(size, sent[from..], response)
    ensures ReadTransfer(size, sent[from..]).0 == response
  {
    assert sent[from..] + [] == sent[from..];
    TransferEnds(size, sent[from..], response, []);
  }

  /** One command from a host and the answer it reads up to the short packet. */
  method Exchange(b: Bootloader, packets: seq<seq<byte>>) returns (answer: seq<byte>)
    requires b.Valid() && b.usbIn.bank == [] && Complete(Concat(packets))
    modifies b
    ensures b.Valid() && b.usbIn.bank == []
    ensures var o := Execute(b.board, old(b.Dev()), Concat(packets)); b.Dev() == o.device && answer == o.response
  {
    NotEmpty(packets);
    hide Execute, Framed, Flash.Valid, OutPipe.Stream, ReadTransfer, Drop;
    var from := |b.usbIn.sent|;
    b.usbOut := OutPipe(false, [], packets);
    StreamOf(packets);
    ghost var response := Execute(b.board, b.Dev(), Concat(packets)).response;
    b.Task();
    OneMoreAnswer(TXRX_EPSIZE, b.usbIn.sent, from, response);
    answer := ReadTransfer(TXRX_EPSIZE, b.usbIn.sent[from..]).0;
  }

  lemma NotEmpty(packets: seq<seq<byte>>)
    requires Complete(Concat(packets))
    ensures packets != []
  {
  }

  lemma MoreTold(b: Board, d: Device, streams: seq<seq<byte>>, answers: seq<seq<byte>>, answer: seq<byte>)
    requires d.flash.Valid() && |b.signature| == 3 && Told(b, d, streams, answers) && |answers| < |streams|
    requires answer == Execute(b, After(b, d, streams[..|answers|]), streams[|answers|]).response
    ensures Told(b, d, streams, answers + [answer])
  {
    hide Execute, After;
  }

  /** The bootloader was running before each of the first `n` commands. */
  ghost predicate RunningBefore(b: Board, d: Device, streams: seq<seq<byte>>, n: nat)
    requires d.flash.Valid() && |b.signature| == 3
  {
    n <= |streams| && forall i :: 0 <= i < n ==> After(b, d, streams[..i]).running
  }

  /**
   * The main loop with a host that sends complete commands, each cut into packets in any way, and reads each answer
   * up to its short packet. The loop ends after the exit command; up to then the host is told what the commands
   * answer on the byte streams, and the device is where they take it.
   */
  method Session(b: Bootloader, commands: seq<seq<seq<byte>>>) returns (answers: seq<seq<byte>>)
    requires b.Valid() && b.usbIn.bank == []
    requires forall i :: 0 <= i < |commands| ==> Complete(Concat(commands[i]))
    modifies b
    ensures b.Valid() && |answers| <= |commands|
    ensures b.Dev() == After(b.board, old(b.Dev()), Streams(commands)[..|answers|])
    ensures Told(b.board, old(b.Dev()), Streams(commands), answers)
    ensures RunningBefore(b.board, old(b.Dev()), Streams(commands), |answers|)
    ensures |answers| == |commands| || !b.runBootloader
  {
    answers := [];
    ghost var d, streams := b.Dev(), Streams(commands);
    var i: nat := 0;
    hide Execute, Told, Complete;
    NothingTold(b.board, d, streams);
    while i < |commands| && b.runBootloader
      invariant i <= |commands| && b.Valid() && b.usbIn.bank == [] && |answers| == i
      invariant b.Dev() == After(b.board, d, streams[..i])
      invariant Told(b.board, d, streams, answers) && RunningBefore(b.board, d, streams, i)
    {
      OneMoreCommand(b.board, d, streams, i);
      StillRunning(b.board, d, streams, i);
      var answer := Exchange(b, commands[i]);
      MoreTold(b.board, d, streams, answers, answer);
      answers := answers + [answer];
      i := i + 1;
    }
  }

  lemma StillRunning(b: Board, d: Device, streams: seq<seq<byte>>, i: nat)
    requires d.flash.Valid() && |b.signature| == 3 && i < |streams| && RunningBefore(b, d, streams, i) && After(b, d, streams[..i]).running
    ensures RunningBefore(b, d, streams, i + 1)
  {
  }

  lemma NothingTold(b: Board, d: Device, streams: seq<seq<byte>>)
    requires d.flash.Valid() && |b.signature| == 3
    ensures Told(b, d, streams, []) && RunningBefore(b, d, streams, 0) && After(b, d, streams[..0]) == d
  {
  }

  lemma StreamOf(packets: seq<seq<byte>>)
    ensures OutPipe(false, [], packets).Stream() == Concat(packets)
  {
  }
}
