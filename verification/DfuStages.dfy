/** The data stages of the DFU bootloader's requests: what a download takes of its packets, and how an upload ends. */
module DfuStages {
  import opened AvrFlash
  import opened Bytes
  import opened DfuDownloads
  import opened DfuProtocol
  import opened Endpoint

  // ---------------------------------------------------------------- downloads

  /** A data stage as a host sends it: all packets but the last are full. */
  ghost predicate FullButLast(p: OutPipe) {
    NonEmpty(p.pending) && forall i :: 0 <= i < |p.pending| - 1 ==> |p.pending[i]| == CONTROL_SIZE
  }

  /** With the suffix next, or one byte more, discarding it takes the rest of the stage unless it ends on a packet's edge. */
  lemma SuffixTakenIff(p: OutPipe)
    requires FullButLast(p) && SUFFIX_SIZE <= |p.Stream()| <= SUFFIX_SIZE + 1
    ensures Discarded(p, SUFFIX_SIZE).Clear() == OutPipe(false, [], []) <==> |p.bank| < SUFFIX_SIZE || p.pending == []
  {
    AtMostOne(p);
    if SUFFIX_SIZE <= |p.bank| {
      DiscardInBank(p, SUFFIX_SIZE);
    } else {
      assert p.pending != [];
      DiscardOver(p);
    }
    hide Discarded;
  }

  /** A suffix in the bank and one more packet. */
  lemma DiscardOver(p: OutPipe)
    requires |p.bank| < SUFFIX_SIZE && |p.pending| == 1 && SUFFIX_SIZE <= |p.bank| + |p.pending[0]|
    ensures Discarded(p, SUFFIX_SIZE).Clear() == OutPipe(false, [], [])
  {
    hide *;
    LastPacket(p, SUFFIX_SIZE - |p.bank| - 1);
    DiscardInBankThen(p, |p.bank|, SUFFIX_SIZE);
    DiscardTurn(p.AfterRead(|p.bank|), SUFFIX_SIZE - |p.bank|);
    DiscardInBank(OutPipe(true, p.pending[0], []), SUFFIX_SIZE - |p.bank| - 1);
  }

  lemma LastPacket(p: OutPipe, n: nat)
    requires |p.pending| == 1 && n <= |p.pending[0]|
    ensures var q := p.AfterRead(|p.bank|); q.bank == [] && q.pending != [] && q.Clear().Await() == OutPipe(true, p.pending[0], [])
    ensures OutPipe(true, p.pending[0], []).AfterRead(n).Clear() == OutPipe(false, [], [])
  {
  }

  lemma DiscardTurn(p: OutPipe, n: nat)
    requires p.bank == [] && p.pending != [] && 0 < n
    ensures Discarded(p, n) == Discarded(p.Clear().Await(), n - 1)
  {
  }

  lemma AtMostOne(p: OutPipe)
    requires FullButLast(p) && |p.Stream()| <= SUFFIX_SIZE + 1
    ensures |p.pending| <= 1 && (p.pending != [] ==> |p.bank| + |p.pending[0]| == |p.Stream()|)
  {
    if p.pending != [] {
      assert Concat(p.pending) == p.pending[0] + Concat(p.pending[1..]);
      assert |p.pending| == 1 ==> Concat(p.pending[1..]) == [];
    }
  }

  /** One word off the stream. */
  lemma WordTaken(p: OutPipe)
    requires WordPackets(p) && 2 <= |p.Stream()|
    ensures !HostGone(p)
    ensures var q := AfterWord(NextBank(p)); WordPackets(q) && q.Stream() == p.Stream()[2..] && (FullButLast(p) ==> FullButLast(q))
  {
    var b := NextBank(p);
    assert b.Stream() == p.Stream() && 2 <= |b.bank| by {
      assert p.bank == [] ==> Concat(p.pending) == p.pending[0] + Concat(p.pending[1..]);
      assert b.pending == [] ==> b.Stream() == b.bank;
    }
    assert b.AfterRead(2).Stream() == b.Stream()[2..];
    hide Concat;
  }

  /** The words of a flash download, off the stream. */
  lemma {:induction false} WordsTaken(s: WordLoop, left: nat)
    requires s.f.Valid() && WordPackets(s.p) && 2 * left <= |s.p.Stream()|
    ensures var n := WordsWritten(s, left);
      n.1 && WordPackets(n.0.p) && n.0.p.Stream() == s.p.Stream()[2 * left..] && (FullButLast(s.p) ==> FullButLast(n.0.p))
    decreases left
  {
    hide *;
    WordsStep(s, left);
    if 0 < left {
      WordTaken(s.p);
      var n := OneWord(s.(p := NextBank(s.p)), left - 1);
      OneWordTakes(s.(p := NextBank(s.p)), left - 1);
      WordsTaken(n, left - 1);
      assert s.p.Stream()[2..][2 * (left - 1)..] == s.p.Stream()[2 * left..];
    }
  }

  lemma OneWordTakes(s: WordLoop, left: nat)
    requires s.f.Valid()
    ensures OneWord(s, left).p == AfterWord(s.p) && OneWord(s, left).f.Valid()
  {
    hide Flash.PageFill, Flash.PageWrite, Flash.PageErase, AfterWord;
  }

  lemma {:induction false} BytesTaken(s: ByteLoop, left: nat)
    requires FullButLast(s.p)
    ensures FullButLast(BytesWritten(s, left).0.p)
    decreases left
  {
    if 0 < left && !HostGone(s.p) {
      BytesTaken(OneByte(s.(p := NextBank(s.p))), left - 1);
    }
  }

  /** The data and the suffix behind it taken: with an even number of bytes the stage is taken whole. */
  lemma StageTaken(d: Device, p: OutPipe, size: nat)
    requires |d.r.data| == 5 && d.f.Valid() && d.r.state == DfuDnloadIdle && 0 < d.r.dataSize
    requires |p.bank| == FILLER_SIZE && FullButLast(p) && d.r.startAddr % CONTROL_SIZE == 0
    requires BytesRemaining(d.r) == size && size % 2 == 0 && |Concat(p.pending)| == size + SUFFIX_SIZE
    requires d.r.startAddr + size <= |d.e| <= 0x1_0000 || d.r.data[0] == 0x00
    ensures StageLeft(d, p) == OutPipe(false, [], [])
  {
    hide *;
    DataBehind(d.r, p);
    var q := AtData(d.r, p);
    if d.r.data[0] == 0x00 {
      FlashTaken(d, q, size);
    } else {
      EepromTaken(d, q, size);
    }
    StageLeftIs(d, p);
    SuffixNext(DataLeft(d, q).0);
  }

  lemma SuffixNext(p: OutPipe)
    requires FullButLast(p) && |p.Stream()| == SUFFIX_SIZE
    ensures Discarded(p, SUFFIX_SIZE).Clear() == OutPipe(false, [], [])
  {
    AtMostOne(p);
    SuffixTakenIff(p);
    hide Discarded, Concat;
  }

  lemma StageLeftIs(d: Device, p: OutPipe)
    requires |d.r.data| == 5 && d.f.Valid() && d.r.state == DfuDnloadIdle && 0 < d.r.dataSize
    ensures var left := DataLeft(d, AtData(d.r, p)); left.1 ==> StageLeft(d, p) == Discarded(left.0, SUFFIX_SIZE).Clear()
  {
    hide AtData, DataLeft, Discarded;
  }

  lemma DataBehind(r: Registers, p: OutPipe)
    requires |p.bank| == FILLER_SIZE && r.startAddr % CONTROL_SIZE == 0
    ensures var q := AtData(r, p); q.bank == [] && q.pending == p.pending && q.Stream() == Concat(p.pending)
    ensures FullButLast(p) ==> FullButLast(AtData(r, p)) && WordPackets(AtData(r, p))
  {
    FillerRead(p);
    EmptyBank(p.AfterRead(FILLER_SIZE));
    hide Discarded, OutPipe.Stream;
  }

  lemma FillerRead(p: OutPipe)
    requires |p.bank| == FILLER_SIZE
    ensures Discarded(p, FILLER_SIZE) == p.AfterRead(FILLER_SIZE) && p.AfterRead(FILLER_SIZE).bank == []
  {
    DiscardInBank(p, FILLER_SIZE);
    hide Discarded;
  }

  lemma FlashTaken(d: Device, q: OutPipe, size: nat)
    requires |d.r.data| == 5 && d.f.Valid() && d.r.data[0] == 0x00 && FullButLast(q) && WordPackets(q)
    requires BytesRemaining(d.r) == size && size % 2 == 0 && |q.Stream()| == size + SUFFIX_SIZE
    ensures var left := DataLeft(d, q); left.1 && FullButLast(left.0) && |left.0.Stream()| == SUFFIX_SIZE
  {
    var start := LongAddress(d.r.startAddr, d.r.flash64KBPage);
    WordsTaken(WordLoop(d.f, q, start, start, 0), size / 2);
    hide WordsWritten, OutPipe.Stream, BytesRemaining, FullButLast, WordPackets;
  }

  lemma EepromTaken(d: Device, q: OutPipe, size: nat)
    requires |d.r.data| == 5 && d.f.Valid() && d.r.data[0] != 0x00 && FullButLast(q)
    requires BytesRemaining(d.r) == size && |q.Stream()| == size + SUFFIX_SIZE
    requires d.r.startAddr + size <= |d.e| <= 0x1_0000
    ensures var left := DataLeft(d, q); left.1 && FullButLast(left.0) && |left.0.Stream()| == SUFFIX_SIZE
  {
    var s := ByteLoop(d.e, q, d.r.startAddr);
    BytesTaken(s, size);
    EepromTakes(s, size);
    hide BytesWritten, OutPipe.Stream, BytesRemaining, FullButLast;
  }

  lemma EepromTakes(s: ByteLoop, n: nat)
    requires FullButLast(s.p) && n < |s.p.Stream()| && s.addr + n <= |s.e| <= 0x1_0000
    ensures BytesWritten(s, n).1 && BytesWritten(s, n).0.p.Stream() == s.p.Stream()[n..]
  {
    if s.addr < 0x1_0000 {
      EepromWritten(s, n);
    }
    hide OutPipe.Stream, Splice;
  }

  /** The whole data stage of a firmware request of an even size is taken out of the endpoint. */
  lemma FirmwareStageTaken(t: Tables, d: Device, packets: seq<seq<byte>>, bootStart: nat)
    requires |d.r.data| == 5 && d.f.Valid() && Dnload(packets).Proper() && !d.r.isSecure && !d.r.waitForExit
    requires FirmwareRequest(d.f, d.r.flash64KBPage, packets) && FullButLast(OutPipe(false, [], packets[1..]))
    requires |FirmwareOf(packets)| % 2 == 0 && |FirmwareOf(packets)| < 0x1_0000
    ensures RestOf(t, d, packets, bootStart) == OutPipe(false, [], [])
  {
    hide *;
    FirmwareCommand(t, d, packets, bootStart);
    SameStage(packets);
    AfterCommand(packets);
    RestIs(t, d, packets, bootStart);
    var c := CommandTaken(t, d.r.(dataSize := |Concat(packets)|), d.f, packets[0], bootStart);
    StageTaken(Device(c.0, c.1, d.e), OutPipe(true, packets[0][6..], packets[1..]), |FirmwareOf(packets)|);
  }

  /** What the command of a firmware request leaves, for the data behind it. */
  lemma FirmwareCommand(t: Tables, d: Device, packets: seq<seq<byte>>, bootStart: nat)
    requires |d.r.data| == 5 && d.f.Valid() && Dnload(packets).Proper() && !d.r.isSecure && !d.r.waitForExit
    requires FirmwareRequest(d.f, d.r.flash64KBPage, packets) && |FirmwareOf(packets)| < 0x1_0000
    ensures packets != [] && |packets[0]| == 6 + FILLER_SIZE && 0 < |Concat(packets)| && |packets[0]| <= |Concat(packets)|
    ensures |Concat(packets[1..])| == |FirmwareOf(packets)| + SUFFIX_SIZE
    ensures var c := CommandTaken(t, d.r.(dataSize := |Concat(packets)|), d.f, packets[0], bootStart);
      && |c.0.data| == 5 && c.0.data[0] == 0x00 && c.1.Valid() && c.0.state == DfuDnloadIdle && 0 < c.0.dataSize
      && c.0.startAddr % CONTROL_SIZE == 0 && BytesRemaining(c.0) == |FirmwareOf(packets)|
  {
    var r, first := d.r.(dataSize := |Concat(packets)|), packets[0];
    var size := |FirmwareOf(packets)|;
    hide *;
    FirmwareSize(d.f, d.r.flash64KBPage, packets);
    StageSize(d.f, d.r.flash64KBPage, packets);
    CommandOf(t, r, d.f, first, bootStart);
    LoadedData(first);
    RangeIs(CommandTaken(t, r, d.f, first, bootStart).0, size);
  }

  lemma RangeIs(r: Registers, size: nat)
    ensures r.endAddr - r.startAddr + 1 == size < 0x1_0000 ==> BytesRemaining(r) == size
  {
  }

  lemma StageSize(f: Flash, page64: octet, packets: seq<seq<byte>>)
    requires FirmwareRequest(f, page64, packets)
    ensures |Concat(packets)| == |packets[0]| + |Concat(packets[1..])| && |Concat(packets[1..])| == |FirmwareOf(packets)| + SUFFIX_SIZE
  {
    hide RequestedDownload, WordPackets, FirstAddr, LastAddr;
  }

  lemma RestIs(t: Tables, d: Device, packets: seq<seq<byte>>, bootStart: nat)
    requires |d.r.data| == 5 && d.f.Valid() && Dnload(packets).Proper() && !d.r.waitForExit && 0 < |Concat(packets)|
    ensures packets != [] && packets[0] != [] && |packets[0]| <= |Concat(packets)|
    ensures var c := CommandTaken(t, d.r.(dataSize := |Concat(packets)|), d.f, packets[0], bootStart);
      RestOf(t, d, packets, bootStart) == StageLeft(Device(c.0, c.1, d.e), BehindCommand(packets))
  {
    ProperFirst(packets);
    hide Concat, CommandTaken, StageLeft, BehindCommand, Request.Proper;
  }

  lemma SameStage(packets: seq<seq<byte>>)
    requires packets != [] && |packets[0]| == 6 + FILLER_SIZE && FullButLast(OutPipe(false, [], packets[1..]))
    ensures var p := OutPipe(true, packets[0][6..], packets[1..]); |p.bank| == FILLER_SIZE && FullButLast(p)
  {
  }

  // ---------------------------------------------------------------- uploads

  /** What a host reads that asks for `want` bytes, and whether its transfer ends: at a packet that is not full, or with the last byte. */
  function Reads(sent: seq<seq<byte>>, want: nat): (seq<byte>, bool) {
    if want == 0 then ([], true)
    else if sent == [] then ([], false)
    else if |sent[0]| < CONTROL_SIZE || want <= |sent[0]| then (sent[0], true)
    else var more := Reads(sent[1..], want - |sent[0]|); (sent[0] + more.0, more.1)
  }

  /**
   * A host that asks for at least the bytes there are gets them all; its transfer ends exactly when it asked for no
   * more, or when they do not fill whole packets: no empty packet follows a full last one.
   */
  lemma {:induction false} UploadEndsIff(sent: seq<seq<byte>>, want: nat)
    requires InPackets(sent) && sent != [] && |Concat(sent)| <= want
    ensures var read := Reads(sent, want);
      && (0 < want ==> read.0 == Concat(sent))
      && (read.1 <==> |Concat(sent)| == want || |Concat(sent)| % CONTROL_SIZE != 0 || Concat(sent) == [])
    decreases |sent|
  {
    assert Concat(sent) == sent[0] + Concat(sent[1..]);
    if |sent| == 1 {
      LastRead(sent, want);
    } else {
      MoreBehind(sent);
      UploadEndsIff(sent[1..], want - CONTROL_SIZE);
      OneMorePacket(|Concat(sent[1..])|);
    }
    hide Concat;
  }

  lemma LastRead(sent: seq<seq<byte>>, want: nat)
    requires |sent| == 1 && |sent[0]| <= CONTROL_SIZE && |sent[0]| <= want
    ensures Concat(sent) == sent[0] && (0 < want ==> Reads(sent, want).0 == sent[0])
    ensures Reads(sent, want).1 <==> |sent[0]| == want || |sent[0]| % CONTROL_SIZE != 0 || sent[0] == []
  {
    assert Concat(sent[1..]) == [];
    assert sent[0] + [] == sent[0];
  }

  lemma MoreBehind(sent: seq<seq<byte>>)
    requires InPackets(sent) && 1 < |sent|
    ensures |sent[0]| == CONTROL_SIZE && InPackets(sent[1..]) && Concat(sent[1..]) != []
  {
    assert sent[1..][|sent| - 2] == sent[|sent| - 1];
    if |sent| == 2 {
      assert Concat(sent[1..]) == sent[1] + Concat(sent[2..]);
    } else {
      assert Concat(sent[1..]) == sent[1] + Concat(sent[1..][1..]) && |sent[1]| == CONTROL_SIZE;
    }
  }

  lemma OneMorePacket(n: nat)
    ensures (CONTROL_SIZE + n) % CONTROL_SIZE == n % CONTROL_SIZE
  {
  }
}
