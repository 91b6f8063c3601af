/**
 * USB endpoints as the firmware sees them: an OUT endpoint is the unread part of the packet in its
 * bank and the packets the host has still to send, an IN endpoint is the packet being built in its
 * bank and the packets already handed to the host.
 */
module Endpoint {
  import opened Bytes

  datatype OutPipe = OutPipe(hasPacket: bool, bank: seq<byte>, pending: seq<seq<byte>>) {
    /** The bytes the firmware can still read. */
    function Stream(): seq<byte> {
      bank + Concat(pending)
    }

    /** Endpoint_IsReadWriteAllowed for an OUT endpoint: false without a packet, or with an empty one. */
    predicate ReadWriteAllowed() {
      hasPacket && bank != []
    }

    /** Endpoint_WaitUntilReady succeeds; otherwise the host sends nothing more and the wait times out. */
    predicate Available() {
      hasPacket || pending != []
    }

    function Await(): OutPipe
      requires Available()
    {
      if hasPacket then this else OutPipe(true, pending[0], pending[1..])
    }

    /** Endpoint_ClearOUT: gives the bank back, whatever was left in it. */
    function Clear(): OutPipe {
      OutPipe(false, [], pending)
    }

    function AfterRead(count: nat): OutPipe
      requires count <= |bank|
    {
      this.(bank := bank[count..])
    }
  }

  datatype InPipe = InPipe(size: nat, bank: seq<byte>, sent: seq<seq<byte>>) {
    predicate Valid() {
      0 < size && |bank| <= size && forall p | p in sent :: |p| <= size
    }

    /** Everything written so far, sent or not. */
    function Stream(): seq<byte> {
      Concat(sent) + bank
    }

    /** Endpoint_IsReadWriteAllowed for an IN endpoint: false when the bank is full. */
    predicate ReadWriteAllowed() {
      |bank| < size
    }

    function Write(data: byte): InPipe
      requires ReadWriteAllowed()
    {
      this.(bank := bank + [data])
    }

    /** Endpoint_ClearIN: hands the bank to the host as one packet. */
    function Clear(): InPipe {
      this.(bank := [], sent := sent + [bank])
    }
  }
}
