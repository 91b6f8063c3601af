/**
 * USBtoSerial: the pump loops of main and the USART receive interrupt that shares a ring buffer with them.
 * The interrupt may run between any two atomic steps of the loops.
 */
module UsbToSerial {
  import opened Bytes
  import opened RingBuff

  /** A byte received by the USART, and whether the USB device was configured at that moment. */
  datatype Received = Received(data: byte, configured: bool)

  /** The bytes the interrupt stores: those received while the device is configured. */
  function Stored(rx: seq<Received>): seq<byte> {
    if rx == [] then [] else Stored(rx[..|rx| - 1]) + (if rx[|rx| - 1].configured then [rx[|rx| - 1].data] else [])
  }

  /** The receive buffer after the interrupt: the newest BUFF_LENGTH bytes if it stores the one that arrived. */
  function AfterArrival(held: seq<byte>, x: Received): seq<byte> {
    if x.configured then LastOf(held + [x.data], BUFF_LENGTH) else held
  }

  function Flatten(script: seq<seq<Received>>): seq<Received> {
    if script == [] then [] else script[0] + Flatten(script[1..])
  }

  lemma LogGrows(log: seq<Event>, e: Event)
    ensures Unread(log + [e]) == match e case Arrive(x) => LastOf(Unread(log) + [x], BUFF_LENGTH) case Read => if Unread(log) == [] then [] else Unread(log)[1..]
    ensures Delivered(log + [e]) == Delivered(log) + (if e.Read? && Unread(log) != [] then [Unread(log)[0]] else [])
    ensures Arrivals(log + [e]) == Arrivals(log) + (if e.Arrive? then [e.data] else [])
    ensures NeverReadEmpty(log + [e]) <==> NeverReadEmpty(log) && (e.Read? ==> Unread(log) != [])
  {
    assert (log + [e])[..|log|] == log;
  }

  /** What the USART has received and what is still to come make up what it receives in the run. */
  ghost predicate Scripted(wire: seq<Received>, seen: seq<Received>, coming: seq<seq<Received>>) {
    wire == seen + Flatten(coming)
  }

  /** The log of stores and reads accounts for the receive buffer, and for every byte received. */
  ghost predicate Logged(log: seq<Event>, seen: seq<Received>, contents: seq<byte>) {
    contents == Unread(log) && NeverReadEmpty(log) && Arrivals(log) == Stored(seen)
  }

  /** Nothing but stores has been added. */
  ghost predicate OnlyStores(before: seq<Event>, log: seq<Event>) {
    before <= log && forall i :: |before| <= i < |log| ==> log[i].Arrive?
  }

  /** What is left in the buffer that a loop found empty is the newest of what has arrived since, and nothing else was read. */
  lemma {:induction false} LeftSince(found: seq<Event>, log: seq<Event>)
    requires Unread(found) == [] && OnlyStores(found, log)
    ensures |Arrivals(found)| <= |Arrivals(log)| && |Arrivals(log)| - |Arrivals(found)| == |log| - |found|
    ensures Unread(log) == LastOf(Arrivals(log)[|Arrivals(found)|..], BUFF_LENGTH) && Delivered(log) == Delivered(found)
    decreases |log|
  {
    if |found| < |log| {
      var before, x := log[..|log| - 1], log[|log| - 1].data;
      assert OnlyStores(found, before) && log == before + [Arrive(x)];
      hide *;
      LeftSince(found, before);
      LogGrows(before, Arrive(x));
      OneMoreLeft(Arrivals(before), |Arrivals(found)|, x);
    } else {
      assert found == log && Arrivals(log)[|Arrivals(found)|..] == [];
    }
  }

  lemma OneMoreLeft(arrived: seq<byte>, from: nat, x: byte)
    requires from <= |arrived|
    ensures LastOf(LastOf(arrived[from..], BUFF_LENGTH) + [x], BUFF_LENGTH) == LastOf((arrived + [x])[from..], BUFF_LENGTH)
  {
    assert (arrived + [x])[from..] == arrived[from..] + [x];
    LastOfGrows(arrived[from..], x);
    hide LastOf;
  }

  lemma LastOfGrows(s: seq<byte>, x: byte)
    ensures LastOf(LastOf(s, BUFF_LENGTH) + [x], BUFF_LENGTH) == LastOf(s + [x], BUFF_LENGTH)
  {
  }

  /** A run at whose end nothing is left: every byte stored was delivered in order or overwritten, and none overwritten all delivered. */
  lemma NothingLeft(log: seq<Event>)
    requires Unread(log) == []
    ensures |Lost(log)| == |Arrivals(log)| && Delivered(log) == Kept(Arrivals(log), Lost(log))
    ensures (forall i :: 0 <= i < |Lost(log)| ==> !Lost(log)[i]) ==> Delivered(log) == Arrivals(log)
  {
    Accounting(log);
    assert Arrivals(log)[..|Lost(log)|] == Arrivals(log);
    if forall i :: 0 <= i < |Lost(log)| ==> !Lost(log)[i] {
      NoOverflowNoLoss(log);
    }
    hide Arrivals, Unread, Delivered, Lost, Kept;
  }

  lemma StoresOnly(first: seq<Event>, second: seq<Event>, third: seq<Event>)
    requires OnlyStores(first, second) && OnlyStores(second, third)
    ensures OnlyStores(first, third)
  {
  }

  lemma ReceivedMore(wire: seq<Received>, seen: seq<Received>, coming: seq<seq<Received>>, x: Received, rest: seq<Received>)
    requires Scripted(wire, seen, coming) && coming != [] && coming[0] == [x] + rest
    ensures [coming[0][1..]] + coming[1..] == [rest] + coming[1..] && Scripted(wire, seen + [x], [rest] + coming[1..])
  {
    assert coming == [[x] + rest] + coming[1..] && ([x] + rest)[1..] == rest;
    FlattenHead(seen, x, rest, coming[1..]);
  }

  lemma PointDone(wire: seq<Received>, seen: seq<Received>, coming: seq<seq<Received>>)
    requires Scripted(wire, seen, coming) && coming != [] && coming[0] == []
    ensures Scripted(wire, seen, coming[1..])
  {
  }

  lemma LoggedArrival(log: seq<Event>, seen: seq<Received>, contents: seq<byte>, x: Received)
    requires Logged(log, seen, contents)
    ensures x.configured ==>
      && Logged(log + [Arrive(x.data)], seen + [x], LastOf(contents + [x.data], BUFF_LENGTH))
      && Delivered(log + [Arrive(x.data)]) == Delivered(log)
    ensures !x.configured ==> Logged(log, seen + [x], contents)
  {
    StoredMore(seen, x);
    LogGrows(log, Arrive(x.data));
    assert Delivered(log) + [] == Delivered(log) && Stored(seen) + [] == Stored(seen);
  }

  class Bridge {
    const usbToUsart: RingBuffer
    const usartToUsb: RingBuffer
    var hostQueue: seq<byte>   // received from the host, still in the OUT endpoint
    var toHost: seq<byte>      // handed to the IN endpoint
    var toWire: seq<byte>      // handed to the USART
    var coming: seq<seq<Received>>  // what the interrupt will receive at the coming points of the main loop

    ghost const repr: set<object>
    ghost var fromHost: seq<byte>   // taken out of the OUT endpoint
    ghost var wire: seq<Received>   // all the USART receives in the run
    ghost var seen: seq<Received>   // received so far
    ghost var log: seq<Event>       // stores to and reads from usartToUsb
    ghost var found: seq<Event>     // the log when the second loop last found usartToUsb empty
    ghost var upInHand: seq<byte>   // read from usartToUsb, not yet handed on
    ghost var downInHand: seq<byte> // read from usbToUsart, not yet handed on

    /** Kept by every atomic step and by the interrupt. */
    ghost predicate Valid()
      reads this, repr
    {
      && usbToUsart in repr && usartToUsb in repr && usbToUsart.buffer in repr && usartToUsb.buffer in repr && this !in repr
      && usbToUsart != usartToUsb && usbToUsart.buffer != usartToUsb.buffer
      && usbToUsart.Valid() && usartToUsb.Valid()
      && Scripted(wire, seen, coming) && Logged(log, seen, usartToUsb.contents) && toHost + upInHand == Delivered(log)
      && fromHost == toWire + downInHand + usbToUsart.contents
    }

    constructor (script: seq<seq<Received>>)
      ensures Valid() && fresh(repr) && coming == script && log == [] && seen == [] && fromHost == hostQueue == toHost == toWire == upInHand == downInHand == []
    {
      var down := new RingBuffer();
      var up := new RingBuffer();
      usbToUsart, usartToUsb := down, up;
      repr := {down, up, down.buffer, up.buffer};
      hostQueue, toHost, toWire, coming := [], [], [], script;
      fromHost, seen, wire, log, found, upInHand, downInHand := [], [], Flatten(script), [], [], [], [];
    }

    /** What the buffers hold, for the loop tests. */
    ghost predicate Counted()
      reads this, usbToUsart, usartToUsb
    {
      && this !in repr && usbToUsart in repr && usartToUsb in repr
      && usbToUsart.elements == |usbToUsart.contents| <= BUFF_LENGTH && usartToUsb.elements == |usartToUsb.contents|
    }

    /** The USART1_RX interrupt, for one byte: the next of those that arrive at this point. */
    method Interrupt(rx: Received, ghost rest: seq<Received>)
      requires Valid() && coming != [] && coming[0] == [rx] + rest
      modifies repr, this`log, this`seen, this`coming
      ensures Valid() && coming == [rest] + old(coming)[1..] && seen == old(seen) + [rx]
      ensures usartToUsb.contents == AfterArrival(old(usartToUsb.contents), rx)
      ensures usbToUsart.contents == old(usbToUsart.contents) && |old(usartToUsb.contents)| <= |usartToUsb.contents|
      ensures OnlyStores(old(log), log)
    {
      ReceivedMore(wire, seen, coming, rx, rest);
      StoredMore(seen, rx);
      LoggedArrival(log, seen, usartToUsb.contents, rx);
      hide Scripted, Logged, Delivered, RingBuffer.Valid;
      if rx.configured {
        usartToUsb.StoreElement(rx.data);
        log := log + [Arrive(rx.data)];
      }
      seen := seen + [rx];
      coming := [coming[0][1..]] + coming[1..];
    }

    /** The interrupts that arrive at one point of the main loop. */
    method Interrupts()
      requires Valid()
      modifies repr, this`log, this`seen, this`coming
      ensures Valid() && Counted() && coming == if old(coming) == [] then [] else old(coming)[1..]
      ensures usbToUsart.contents == old(usbToUsart.contents) && |old(usartToUsb.contents)| <= |usartToUsb.contents|
      ensures old(coming) == [] ==> usartToUsb.contents == old(usartToUsb.contents)
      ensures OnlyStores(old(log), log)
    {
      if coming != [] {
        var now, later := coming[0], coming[1..];
        hide Valid;
        for i := 0 to |now|
          invariant Valid() && coming == [now[i..]] + later
          invariant usbToUsart.contents == old(usbToUsart.contents) && |old(usartToUsb.contents)| <= |usartToUsb.contents|
          invariant OnlyStores(old(log), log)
        {
          ghost var before := log;
          Interrupt(now[i], now[i + 1..]);
          StoresOnly(old(log), before, log);
        }
        NextPoint();
      }
      Count();
    }

    method NextPoint()
      requires Valid() && coming != [] && coming[0] == []
      modifies this`coming
      ensures Valid() && coming == old(coming)[1..]
    {
      PointDone(wire, seen, coming);
      hide Scripted, Logged, RingBuffer.Valid;
      coming := coming[1..];
    }

    lemma Count()
      requires Valid()
      ensures Counted()
    {
    }

    /** First loop: from the OUT endpoint into the transmit buffer, while there is room. */
    method ReceiveFromHost()
      requires Valid() && |hostQueue| < 0x100
      modifies this, repr
      ensures Valid() && wire == old(wire)
      ensures toHost == old(toHost) && toWire == old(toWire) && upInHand == old(upInHand) && downInHand == old(downInHand)
      ensures fromHost + hostQueue == old(fromHost + hostQueue)
      ensures usbToUsart.contents + hostQueue == old(usbToUsart.contents + hostQueue)
      ensures hostQueue == [] || |usbToUsart.contents| == BUFF_LENGTH
      ensures |coming| < |old(coming)| || coming == []
    {
      hide Valid, RingBuffer.Valid, Flatten;
      Interrupts();
      var dataBytesRem := |hostQueue|;
      while dataBytesRem != 0
        invariant Valid() && Counted() && wire == old(wire) && dataBytesRem == |hostQueue|
        invariant toHost == old(toHost) && toWire == old(toWire) && upInHand == old(upInHand) && downInHand == old(downInHand)
        invariant fromHost + hostQueue == old(fromHost + hostQueue)
        invariant usbToUsart.contents + hostQueue == old(usbToUsart.contents + hostQueue)
        invariant |coming| < |old(coming)| || coming == []
      {
        Interrupts();
        if BUFF_LENGTH - usbToUsart.elements == 0 {
          break;
        }
        ReceiveByte();
        dataBytesRem := dataBytesRem - 1;
      }
    }

    /** One byte of the first loop; the interrupt does not touch the transmit buffer, so there still is room. */
    method ReceiveByte()
      requires Valid() && hostQueue != [] && |usbToUsart.contents| < BUFF_LENGTH
      modifies repr, this`hostQueue, this`fromHost, this`log, this`seen, this`coming
      ensures Valid() && Counted() && hostQueue == old(hostQueue)[1..] && fromHost == old(fromHost) + [old(hostQueue)[0]]
      ensures usbToUsart.contents == old(usbToUsart.contents) + [old(hostQueue)[0]]
      ensures |coming| <= |old(coming)|
    {
      assert this !in repr;
      hide Valid, Counted;
      Interrupts();
      TakeFromHost();
      Interrupts();
    }

    method TakeFromHost()
      requires Valid() && hostQueue != [] && |usbToUsart.contents| < BUFF_LENGTH
      modifies repr, this`hostQueue, this`fromHost
      ensures Valid() && hostQueue == old(hostQueue)[1..] && fromHost == old(fromHost) + [old(hostQueue)[0]]
      ensures usbToUsart.contents == old(usbToUsart.contents) + [old(hostQueue)[0]]
    {
      usbToUsart.StoreElement(hostQueue[0]);
      fromHost := fromHost + [hostQueue[0]];
      hostQueue := hostQueue[1..];
    }

    /** Second loop: from the receive buffer to the IN endpoint, until the buffer is found empty; it is empty then. */
    method SendToHost()
      requires Valid() && upInHand == []
      modifies this, repr
      ensures Valid() && wire == old(wire)
      ensures hostQueue == old(hostQueue) && fromHost == old(fromHost) && toWire == old(toWire)
      ensures upInHand == [] && downInHand == old(downInHand) && old(toHost) <= toHost
      ensures usartToUsb.contents == [] && found == log && |coming| <= |old(coming)|
    {
      hide Valid, RingBuffer.Valid, Flatten;
      Interrupts();
      while usartToUsb.elements != 0
        invariant Valid() && Counted() && wire == old(wire)
        invariant hostQueue == old(hostQueue) && fromHost == old(fromHost) && toWire == old(toWire)
        invariant upInHand == [] && downInHand == old(downInHand) && old(toHost) <= toHost && |coming| <= |old(coming)|
        decreases |coming|, usartToUsb.elements
      {
        Interrupts();
        var data := ReadUp();
        Interrupts();
        HandUp(data);
        Interrupts();
      }
      NoteFound();
    }

    /** The test that ends the second loop. */
    ghost method NoteFound()
      requires Valid()
      modifies this`found
      ensures Valid() && Counted() && found == log
    {
      found := log;
    }

    /** The read in the second loop: the buffer cannot have become empty since it was tested. */
    method ReadUp() returns (data: byte)
      requires Valid() && usartToUsb.contents != [] && upInHand == []
      modifies repr, this`log, this`upInHand
      ensures Valid() && upInHand == [data] && usartToUsb.contents == old(usartToUsb.contents)[1..]
      ensures usbToUsart.contents == old(usbToUsart.contents)
    {
      LogGrows(log, Read);
      data := usartToUsb.GetElement();
      log := log + [Read];
      upInHand := [data];
    }

    /** CDC_Device_SendByte. */
    method HandUp(data: byte)
      requires Valid() && upInHand == [data]
      modifies this`toHost, this`upInHand
      ensures Valid() && upInHand == [] && toHost == old(toHost) + [data]
    {
      toHost := toHost + [data];
      upInHand := [];
      assert toHost + upInHand == old(toHost + upInHand);
    }

    /** Third loop: from the transmit buffer to the USART, until the buffer is empty. */
    method SendToWire()
      requires Valid() && downInHand == []
      modifies this, repr
      ensures Valid() && wire == old(wire)
      ensures hostQueue == old(hostQueue) && fromHost == old(fromHost) && toHost == old(toHost)
      ensures downInHand == [] && upInHand == old(upInHand) && usbToUsart.contents == []
      ensures found == old(found) && OnlyStores(old(log), log) && |coming| <= |old(coming)|
      ensures old(coming) == [] ==> usartToUsb.contents == old(usartToUsb.contents)
    {
      hide Valid, RingBuffer.Valid, Flatten;
      Interrupts();
      while usbToUsart.elements != 0
        invariant Valid() && Counted() && wire == old(wire)
        invariant hostQueue == old(hostQueue) && fromHost == old(fromHost) && toHost == old(toHost)
        invariant downInHand == [] && upInHand == old(upInHand)
        invariant found == old(found) && OnlyStores(old(log), log) && |coming| <= |old(coming)|
        invariant old(coming) == [] ==> usartToUsb.contents == old(usartToUsb.contents)
        decreases usbToUsart.elements
      {
        SendByteToWire();
      }
    }

    /** One byte of the third loop. */
    method SendByteToWire()
      requires Valid() && usbToUsart.contents != [] && downInHand == []
      modifies repr, this`toWire, this`downInHand, this`log, this`seen, this`coming
      ensures Valid() && Counted() && downInHand == [] && usbToUsart.contents == old(usbToUsart.contents)[1..]
      ensures OnlyStores(old(log), log) && |coming| <= |old(coming)|
      ensures old(coming) == [] ==> usartToUsb.contents == old(usartToUsb.contents)
    {
      assert this !in repr;
      hide Valid, Counted;
      Interrupts();
      ghost var first := log;
      var data := ReadDown();
      Interrupts();
      ghost var second := log;
      HandDown(data);
      Interrupts();
      StoresOnly(old(log), first, second);
      StoresOnly(old(log), second, log);
    }

    method ReadDown() returns (data: byte)
      requires Valid() && usbToUsart.contents != [] && downInHand == []
      modifies repr, this`downInHand
      ensures Valid() && downInHand == [data] && usbToUsart.contents == old(usbToUsart.contents)[1..]
      ensures usartToUsb.contents == old(usartToUsb.contents)
    {
      data := usbToUsart.GetElement();
      downInHand := [data];
    }

    /** Serial_TxByte. */
    method HandDown(data: byte)
      requires Valid() && downInHand == [data]
      modifies this`toWire, this`downInHand
      ensures Valid() && downInHand == [] && toWire == old(toWire) + [data]
    {
      toWire := toWire + [data];
      downInHand := [];
      assert toWire + downInHand == old(toWire + downInHand);
    }

    lemma Meaning()
      requires Valid()
      ensures seen + Flatten(coming) == wire && toHost + upInHand == Delivered(log)
      ensures NeverReadEmpty(log) && Arrivals(log) == Stored(seen) && fromHost == toWire + downInHand + usbToUsart.contents
      ensures upInHand == [] ==> toHost == Delivered(log)
      ensures downInHand == usbToUsart.contents == [] ==> fromHost == toWire
      ensures usartToUsb.contents == Unread(log)
    {
      assert toHost + [] == toHost;
    }

    /** One pass of the main loop over one packet from the host. */
    method Pass(packet: seq<byte>)
      requires Valid() && upInHand == downInHand == usbToUsart.contents == hostQueue == [] && |packet| <= BUFF_LENGTH
      modifies this, repr
      ensures Valid() && wire == old(wire)
      ensures upInHand == downInHand == usbToUsart.contents == hostQueue == []
      ensures toWire == old(toWire) + packet
      ensures Unread(found) == [] && OnlyStores(found, log)
      ensures |coming| < |old(coming)| || coming == []
      ensures old(coming) == [] ==> usartToUsb.contents == []
    {
      Meaning();
      Offer(packet);
      hide Valid, Flatten, Unread, Delivered, NeverReadEmpty, Arrivals, Stored, OnlyStores;
      assert usbToUsart.contents + hostQueue == packet;
      ReceiveFromHost();
      assert hostQueue == [];
      SendToHost();
      Meaning();
      FinishPass();
      Meaning();
    }

    /** The third loop and the device tasks behind it. */
    method FinishPass()
      requires Valid() && downInHand == []
      modifies this, repr
      ensures Valid() && wire == old(wire)
      ensures hostQueue == old(hostQueue) && fromHost == old(fromHost) && toHost == old(toHost)
      ensures downInHand == [] && upInHand == old(upInHand) && usbToUsart.contents == []
      ensures found == old(found) && OnlyStores(old(log), log) && |coming| <= |old(coming)|
      ensures old(coming) == [] ==> usartToUsb.contents == old(usartToUsb.contents)
    {
      hide Valid, OnlyStores;
      SendToWire();
      ghost var before := log;
      Interrupts();
      StoresOnly(old(log), before, log);
    }

    /** The host's packet arrives in the OUT endpoint. */
    method Offer(packet: seq<byte>)
      requires Valid() && hostQueue == []
      modifies this`hostQueue
      ensures Valid() && hostQueue == packet
    {
      hostQueue := packet;
    }

    /**
     * Passes of the main loop, the host offering one packet before each, with the interrupts spread over the
     * atomic steps in any way. From the host to the wire every byte arrives, in order; from the wire to the
     * host what is delivered is given by the log of stores and reads: what is unread after a pass has arrived since
     * its second loop found the buffer empty, and with more passes than points of interrupts nothing is unread.
     */
    method MainLoop(packets: seq<seq<byte>>)
      requires Valid() && upInHand == downInHand == usbToUsart.contents == hostQueue == []
      requires forall i :: 0 <= i < |packets| ==> |packets[i]| <= BUFF_LENGTH
      modifies this, repr
      ensures Valid() && seen + Flatten(coming) == old(seen + Flatten(coming))
      ensures toHost == Delivered(log) && NeverReadEmpty(log) && Arrivals(log) == Stored(seen)
      ensures toWire == old(toWire) + Concat(packets) && hostQueue == []
      ensures packets != [] ==> Unread(found) == [] && OnlyStores(found, log)
      ensures |old(coming)| < |packets| ==> coming == [] && Unread(log) == []
    {
      assert Concat(packets[..0]) == [];
      Meaning();
      hide Flatten, Concat, Unread, Delivered, NeverReadEmpty, Arrivals, Stored, Valid, OnlyStores;
      for pass := 0 to |packets|
        invariant Valid() && wire == old(wire)
        invariant upInHand == downInHand == usbToUsart.contents == hostQueue == []
        invariant toWire == old(toWire) + Concat(packets[..pass])
        invariant 0 < pass ==> Unread(found) == [] && OnlyStores(found, log)
        invariant |coming| + pass <= |old(coming)| || coming == []
        invariant |old(coming)| < pass ==> usartToUsb.contents == []
      {
        OnePacketMore(packets, pass, toWire, old(toWire));
        Pass(packets[pass]);
      }
      assert packets[..|packets|] == packets;
      Meaning();
    }
  }

  lemma OnePacketMore(packets: seq<seq<byte>>, n: nat, sent: seq<byte>, before: seq<byte>)
    requires n < |packets| && sent == before + Concat(packets[..n])
    ensures sent + packets[n] == before + Concat(packets[..n + 1])
  {
    assert packets[..n] + [packets[n]] == packets[..n + 1];
    hide Concat;
    ConcatAppend(packets[..n], packets[n]);
  }

  lemma FlattenHead(seen: seq<Received>, x: Received, rest: seq<Received>, later: seq<seq<Received>>)
    ensures seen + Flatten([[x] + rest] + later) == seen + [x] + Flatten([rest] + later)
  {
    assert ([[x] + rest] + later)[1..] == later && ([rest] + later)[1..] == later;
    assert [x] + rest + Flatten(later) == [x] + (rest + Flatten(later));
  }

  lemma StoredMore(rx: seq<Received>, x: Received)
    ensures Stored(rx + [x]) == Stored(rx) + (if x.configured then [x.data] else [])
  {
    assert (rx + [x])[..|rx|] == rx;
  }
}
