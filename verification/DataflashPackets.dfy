/** What a write takes from its packets: sixteen bytes at a time, however long the packets are. */
module DataflashPackets {
  import opened Bytes
  import opened Endpoint

  /** What a read gives once the packet has ended. */
  const PAST_END: byte := 0

  /** The byte a read takes from the bank. */
  function NextByte(p: OutPipe): byte {
    if p.bank == [] then PAST_END else p.bank[0]
  }

  function AfterByte(p: OutPipe): OutPipe {
    p.(bank := if p.bank == [] then [] else p.bank[1..])
  }

  /** n bytes read from a bank, and what they leave of it. */
  function Front(bank: seq<byte>, n: nat): (s: seq<byte>)
    ensures |s| == n
  {
    seq(n, i requires 0 <= i < n => if i < |bank| then bank[i] else PAST_END)
  }

  function Behind(bank: seq<byte>, n: nat): seq<byte> {
    if n <= |bank| then bank[n..] else []
  }

  function AfterBytes(p: OutPipe, n: nat): OutPipe {
    p.(bank := Behind(p.bank, n))
  }

  lemma OneMoreByte(p: OutPipe, n: nat)
    ensures Front(p.bank, n + 1) == Front(p.bank, n) + [NextByte(AfterBytes(p, n))]
    ensures AfterByte(AfterBytes(p, n)) == AfterBytes(p, n + 1) && AfterBytes(p, 0) == p
  {
  }

  /** All that is taken from a bank that still holds bytes. */
  function FromBank(bank: seq<byte>): seq<byte>
    decreases |bank|
  {
    if bank == [] then [] else Front(bank, 16) + FromBank(Behind(bank, 16))
  }

  /** All that is taken from a packet waited for in the loop: at least one chunk, as it is not looked at again. */
  function FromPacket(packet: seq<byte>): seq<byte> {
    Front(packet, 16) + FromBank(Behind(packet, 16))
  }

  function FromPackets(packets: seq<seq<byte>>): seq<byte> {
    if packets == [] then [] else FromPacket(packets[0]) + FromPackets(packets[1..])
  }

  /** The bytes the loop can still take. */
  function Intake(p: OutPipe): seq<byte> {
    FromBank(p.bank) + FromPackets(p.pending)
  }

  /** The endpoint after the wait before the loop; a packet that is empty then is passed over. */
  function Awaited(p: OutPipe): OutPipe {
    if p.Available() then p.Await() else p
  }

  /** The stream a write is offered. */
  function Offered(p: OutPipe): seq<byte> {
    Intake(Awaited(p))
  }

  ghost predicate NoPacketNoBytes(p: OutPipe) {
    !p.hasPacket ==> p.bank == []
  }

  /** Packets of whole chunks, none empty: what a host sends for whole blocks. */
  ghost predicate ChunkedPackets(p: OutPipe) {
    && NoPacketNoBytes(p) && |p.bank| % 16 == 0
    && forall i :: 0 <= i < |p.pending| ==> p.pending[i] != [] && |p.pending[i]| % 16 == 0
  }

  /** The next chunk: from the bank if it holds bytes, else from the packet just waited for. */
  lemma IntakeStep(p: OutPipe)
    ensures p.bank != [] ==> Intake(p) == Front(p.bank, 16) + Intake(AfterBytes(p, 16))
    ensures p.bank == [] && p.pending != [] ==>
      var q := p.Clear().Await(); Intake(p) == Front(q.bank, 16) + Intake(AfterBytes(q, 16))
    ensures p.bank == [] && p.pending == [] ==> Intake(p) == []
    ensures p.bank == [] ==> Intake(p.Clear()) == Intake(p)
  {
  }

  /** Of whole chunks nothing is lost and nothing added. */
  lemma {:induction false} BankWhole(bank: seq<byte>)
    requires |bank| % 16 == 0
    ensures FromBank(bank) == bank
    decreases |bank|
  {
    if bank != [] {
      BankWhole(bank[16..]);
      assert Front(bank, 16) == bank[..16];
    }
  }

  lemma {:induction false} PacketsWhole(packets: seq<seq<byte>>)
    requires forall i :: 0 <= i < |packets| ==> packets[i] != [] && |packets[i]| % 16 == 0
    ensures FromPackets(packets) == Concat(packets)
  {
    if packets != [] {
      BankWhole(packets[0]);
      PacketsWhole(packets[1..]);
    }
  }

  /** On whole chunks the stream offered is the stream sent. */
  lemma OfferedWhole(p: OutPipe)
    requires ChunkedPackets(p)
    ensures Offered(p) == p.Stream()
  {
    var q := Awaited(p);
    BankWhole(q.bank);
    PacketsWhole(q.pending);
    assert q.Stream() == p.Stream();
  }

  /** A write after another is offered what the first left, but for one chunk when it passes over an empty packet. */
  lemma OfferedLater(p: OutPipe)
    requires NoPacketNoBytes(p)
    ensures |Intake(p)| <= |Offered(p)| + 16 && (Intake(p) != [] ==> p.Available())
  {
  }
}
