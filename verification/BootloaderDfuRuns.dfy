/** Whole runs of the DFU bootloader: secure sessions, and programming followed by reading back. */
module BootloaderDfuRuns {
  import opened AvrFlash
  import opened BootloaderDfu
  import opened Bytes
  import opened DfuDownloads
  import opened DfuProtocol

  ghost predicate AllProper(requests: seq<Request>) {
    forall i :: 0 <= i < |requests| ==> requests[i].Proper()
  }

  /**
   * What a bootloader that starts secure does with a list of requests, up to the one that ends secure mode: a
   * function of the registers and the requests alone, with no memory in it.
   */
  ghost function SecureRun(t: Tables, r: Registers, requests: seq<Request>): (run: (Registers, seq<seq<byte>>))
    requires |r.data| == 5 && AllProper(requests)
    ensures |run.0.data| == 5
  {
    if requests == [] then (r, [])
    else
      var last := |requests| - 1;
      var before := SecureRun(t, r, requests[..last]);
      if !before.0.isSecure then before
      else
        DataStaysFive(t, before.0, requests[last]);
        var step := SecureStep(t, before.0, requests[last]);
        (step.0, before.1 + [step.1])
  }

  lemma DataStaysFive(t: Tables, r: Registers, request: Request)
    requires |r.data| == 5 && request.Proper()
    ensures |SecureStep(t, r, request).0.data| == 5
  {
  }

  /** In every state of a secure run the bootloader is idle or in error, and only an erase ends the run. */
  lemma {:induction false} RunStaysSafe(t: Tables, r: Registers, requests: seq<Request>)
    requires SecureOk(r) && r.isSecure && AllProper(requests)
    ensures var run := SecureRun(t, r, requests);
      && SecureOk(run.0) && (run.0.isSecure ==> run.0.state in {DfuIdle, DfuError} && |run.1| == |requests|)
      && (!run.0.isSecure ==> 0 < |run.1| <= |requests| && requests[|run.1| - 1].Dnload? && IsEraseCommand(run.0))
  {
    if requests != [] {
      var last := |requests| - 1;
      RunStaysSafe(t, r, requests[..last]);
      var before := SecureRun(t, r, requests[..last]);
      if before.0.isSecure {
        SecureStepOk(t, before.0, requests[last]);
        DataStaysFive(t, before.0, requests[last]);
        hide SecureStep;
      }
    }
  }

  lemma RunStep(t: Tables, r: Registers, requests: seq<Request>, i: nat)
    requires |r.data| == 5 && AllProper(requests) && i < |requests| && SecureRun(t, r, requests[..i]).0.isSecure
    ensures var run := SecureRun(t, r, requests[..i]);
      var step := SecureStep(t, run.0, requests[i]);
      SecureRun(t, r, requests[..i + 1]) == (step.0, run.1 + [step.1])
  {
    assert requests[..i + 1][..i] == requests[..i];
  }

  /** A run that has ended stays as it ended. */
  lemma {:induction false} RunEnded(t: Tables, r: Registers, requests: seq<Request>, i: nat)
    requires |r.data| == 5 && AllProper(requests) && i <= |requests| && !SecureRun(t, r, requests[..i]).0.isSecure
    ensures SecureRun(t, r, requests) == SecureRun(t, r, requests[..i])
    decreases |requests|
  {
    if i < |requests| {
      var last := |requests| - 1;
      assert requests[..last][..i] == requests[..i];
      RunEnded(t, r, requests[..last], i);
    } else {
      assert requests[..i] == requests;
    }
  }

  /**
   * A session with a secure bootloader, served until the requests or secure mode end. The registers and every
   * answer are those of SecureRun; the memories are untouched, or the whole application section is blank.
   */
  method ServeSecure(b: Bootloader, requests: seq<Request>) returns (answers: seq<seq<byte>>)
    requires b.Valid() && b.isSecure && SecureOk(b.Regs()) && AllProper(requests)
    modifies b
    ensures b.Valid() && (b.Regs(), answers) == SecureRun(b.tables, old(b.Regs()), requests)
    ensures b.eeprom == old(b.eeprom)
    ensures b.isSecure ==> b.flash == old(b.flash) && b.state in {DfuIdle, DfuError}
    ensures !b.isSecure ==> Erased(old(b.flash), b.flash.memory, b.bootStart)
  {
    answers := [];
    var i: nat := 0;
    ghost var start := b.Regs();
    hide SecureStep, Step, Flash.FillClear, Erased, Request.Proper, SecureRun;
    while i < |requests| && b.isSecure
      invariant i <= |requests| && b.Valid() && SecureOk(b.Regs())
      invariant (b.Regs(), answers) == SecureRun(b.tables, start, requests[..i])
      invariant Protected(old(b.flash), b.flash, old(b.eeprom), b.eeprom, b.isSecure, b.bootStart)
    {
      RunStep(b.tables, start, requests, i);
      SecureRequest(b.tables, b.Now(), requests[i], b.bootStart);
      SecureStepOk(b.tables, b.Regs(), requests[i]);
      var answer := b.HandleRequest(requests[i]);
      answers := answers + [answer];
      i := i + 1;
    }
    assert requests[..|requests|] == requests;
    if !b.isSecure {
      RunEnded(b.tables, start, requests, i);
    }
  }

  /** Two secure bootloaders that differ only in their memories give the host the same answers. */
  method AnswersDoNotShowMemory(a: Bootloader, b: Bootloader, requests: seq<Request>) returns (x: seq<seq<byte>>, y: seq<seq<byte>>)
    requires a != b && a.Valid() && b.Valid() && a.tables == b.tables && a.Regs() == b.Regs()
    requires a.isSecure && SecureOk(a.Regs()) && AllProper(requests)
    modifies a, b
    ensures x == y && a.Regs() == b.Regs()
  {
    x := ServeSecure(a, requests);
    y := ServeSecure(b, requests);
  }

  // ---------------------------------------------------------------- programming and reading back

  /**
   * Firmware written by one DNLOAD request and read back by an UPLOAD over the same addresses is the same, if its range
   * arrives whole, and the flash is as the download asks: see Finished.
   */
  method ProgramAndReadBack(b: Bootloader, packets: seq<seq<byte>>, read: seq<seq<byte>>, wLength: nat) returns (firmware: seq<byte>)
    requires b.Valid() && !b.isSecure && !b.waitForExit && Dnload(packets).Proper() && Dnload(read).Proper()
    requires FirmwareRequest(b.flash, b.flash64KBPage, packets)
    requires ArrivesWhole(b.flash.pageSize, LongAddress(FirstAddr(packets[0]), b.flash64KBPage), |FirmwareOf(packets)|)
    requires ReadRequest(read, 0x00) && FirstAddr(read[0]) == FirstAddr(packets[0]) && LastAddr(read[0]) == LastAddr(packets[0])
    modifies b
    ensures b.Valid() && b.eeprom == old(b.eeprom) && b.state == DfuIdle && firmware == FirmwareOf(packets)
    ensures Finished(RequestedDownload(old(b.flash), old(b.flash64KBPage), packets), b.flash)
  {
    ghost var page64, addr := b.flash64KBPage, LongAddress(FirstAddr(packets[0]), b.flash64KBPage);
    assert read != [] && 6 <= |read[0]|;
    RequestFits(b.flash, page64, packets);
    SurvivesWhole(b.flash, addr, FirmwareOf(packets));
    FirmwareDownloaded(b.tables, b.Now(), packets, b.bootStart);
    hide *;
    var none := b.HandleRequest(Dnload(packets));
    ReadsFirmware(old(b.flash), addr, FirmwareOf(packets), b.flash);
    firmware := ReadRange(b, read, 0x00, wLength);
    ReadsFlash(b.flash, b.eeprom, FirmwareOf(packets), FirstAddr(read[0]), LastAddr(read[0]), page64);
  }

  lemma RequestFits(f: Flash, page64: octet, packets: seq<seq<byte>>)
    requires FirmwareRequest(f, page64, packets)
    ensures f.Valid() && Asked(f, LongAddress(FirstAddr(packets[0]), page64), FirmwareOf(packets)).Fits()
    ensures RequestedDownload(f, page64, packets) == Asked(f, LongAddress(FirstAddr(packets[0]), page64), FirmwareOf(packets))
    ensures |FirmwareOf(packets)| == LastAddr(packets[0]) - FirstAddr(packets[0]) + 1
  {
  }

  lemma ReadsFirmware(f: Flash, addr: nat, firmware: seq<byte>, g: Flash)
    requires f.Valid() && Survives(f, addr, firmware) && Finished(Asked(f, addr, firmware), g)
    ensures FlashBytes(g, addr, |firmware|) == firmware
  {
  }

  /** Bytes written to EEPROM by one DNLOAD request and read back are the same, for any packets; the rest of it, and the flash, stay. */
  method ProgramEepromAndReadBack(b: Bootloader, packets: seq<seq<byte>>, read: seq<seq<byte>>, wLength: nat) returns (bytes: seq<byte>)
    requires b.Valid() && !b.isSecure && !b.waitForExit && Dnload(packets).Proper() && Dnload(read).Proper()
    requires EepromRequest(b.eeprom, packets)
    requires ReadRequest(read, 0x02) && FirstAddr(read[0]) == FirstAddr(packets[0]) && LastAddr(read[0]) == LastAddr(packets[0])
    modifies b
    ensures b.Valid() && b.flash == old(b.flash) && b.state == DfuIdle && bytes == EepromData(old(b.eeprom), packets)
    ensures b.eeprom == EepromAfter(old(b.eeprom), packets)
  {
    ghost var page64 := b.flash64KBPage;
    assert read != [] && 6 <= |read[0]|;
    EepromReads(b.eeprom, packets);
    EepromDownloaded(b.tables, b.Now(), packets, b.bootStart);
    hide EepromRequest, EepromAfter, EepromData, Step, ReadRequest, FirstAddr, LastAddr, EepromBytes;
    var none := b.HandleRequest(Dnload(packets));
    bytes := ReadRange(b, read, 0x02, wLength);
    ReadsEeprom(b.flash, b.eeprom, FirstAddr(read[0]), LastAddr(read[0]), page64);
  }

  /** The end of a download, a read request and the UPLOAD that answers it. */
  method ReadRange(b: Bootloader, read: seq<seq<byte>>, memory: byte, wLength: nat) returns (answer: seq<byte>)
    requires b.Valid() && !b.isSecure && !b.waitForExit && b.state == DfuDnloadIdle && Dnload(read).Proper()
    requires ReadRequest(read, memory) && memory in {0x00, 0x02}
    modifies b
    ensures b.Valid() && b.flash == old(b.flash) && b.eeprom == old(b.eeprom) && b.state == DfuIdle
    ensures answer == RangeAnswer(memory, FirstAddr(read[0]), LastAddr(read[0]), b.flash, b.eeprom, old(b.flash64KBPage))
  {
    DownloadEnds(b.tables, b.Now(), b.bootStart);
    hide ReadRequest, Step, FirstAddr, LastAddr, FlashBytes, EepromBytes, RangeAnswer;
    var none := b.HandleRequest(Dnload([]));
    ReadStarts(b.tables, b.Now(), read, memory, b.bootStart);
    none := b.HandleRequest(Dnload(read));
    Uploaded(b.tables, b.Now(), memory, wLength, b.bootStart);
    answer := b.HandleRequest(Upload(wLength));
  }

  /** What a read of a range answers. */
  function RangeAnswer(memory: byte, first: nat, last: nat, f: Flash, e: seq<byte>, page64: octet): seq<byte> {
    var n := (last - first + 1) % 0x1_0000;
    if memory == 0x00 then FlashBytes(f, LongAddress(first, page64), 2 * (n / 2)) else EepromBytes(e, first, n)
  }

  lemma Uploaded(t: Tables, d: Device, memory: byte, wLength: nat, bootStart: nat)
    requires |d.r.data| == 5 && d.f.Valid() && d.r.state == DfuUploadIdle && d.r.data[0] == memory && memory in {0x00, 0x02}
    ensures var n := Step(t, d, Upload(wLength), bootStart);
      && n.0.f == d.f && n.0.e == d.e && n.0.r.state == DfuIdle
      && n.1 == RangeAnswer(memory, d.r.startAddr, d.r.endAddr, d.f, d.e, d.r.flash64KBPage)
  {
    hide FlashBytes, EepromBytes, LongAddress;
  }

  lemma ReadsFlash(f: Flash, e: seq<byte>, firmware: seq<byte>, first: nat, last: nat, page64: octet)
    requires |firmware| == last - first + 1 < 0x1_0000 && |firmware| % 2 == 0
    requires FlashBytes(f, LongAddress(first, page64), |firmware|) == firmware
    ensures RangeAnswer(0x00, first, last, f, e, page64) == firmware
  {
  }

  /** Reading the range of an EEPROM request gives its bytes. */
  lemma EepromReads(e: seq<byte>, packets: seq<seq<byte>>)
    requires EepromRequest(e, packets)
    ensures var first, last := FirstAddr(packets[0]), LastAddr(packets[0]);
      first <= last < first + 0xFFFF && EepromBytes(EepromAfter(e, packets), first, last - first + 1) == EepromData(e, packets)
  {
    SplicedReads(e, FirstAddr(packets[0]), EepromData(e, packets));
    hide Splice, EepromBytes, Concat, FirstAddr, LastAddr, Word;
  }

  lemma ReadsEeprom(f: Flash, e: seq<byte>, first: nat, last: nat, page64: octet)
    requires first <= last < first + 0xFFFF
    ensures RangeAnswer(0x02, first, last, f, e, page64) == EepromBytes(e, first, last - first + 1)
  {
  }

  lemma SplicedReads(e: seq<byte>, start: nat, data: seq<byte>)
    requires start + |data| <= |e| <= 0x1_0000
    ensures EepromBytes(Splice(e, start, data), start, |data|) == data
  {
    var after := Splice(e, start, data);
    forall i | 0 <= i < |data| ensures EepromBytes(after, start, |data|)[i] == data[i] {
      SplicedAt(e, start, data, start + i);
      assert (start + i) % 0x1_0000 == start + i < |after|;
      assert EepromBytes(after, start, |data|)[i] == ReadEeprom(after, start + i);
    }
  }
}
