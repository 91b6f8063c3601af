/**
 * DHCPClientApp: the lease state machine, one callback at a time, and what holds over every run of it
 * (RFC 2131 section 4.4.1).
 */
module DhcpClient {
  import opened Bytes
  import opened DhcpOptions

  const MSG_TYPE: octet := 53
  const SUBNET_MASK: octet := 1
  const ROUTER: octet := 3
  const DNS_SERVER: octet := 6
  const REQ_IPADDR: octet := 50
  const SERVER_ID: octet := 54
  const REQ_LIST: octet := 55

  const DISCOVER: octet := 1
  const OFFER: octet := 2
  const REQUEST: octet := 3
  const ACK: octet := 5

  const TRANSACTION_ID := 0x13245466

  type Address = a: seq<octet> | |a| == 4 witness [0, 0, 0, 0]

  const ZERO: Address := [0, 0, 0, 0]

  datatype State = SendDiscover | WaitForOffer | SendRequest | WaitForAck | AddressLeased

  datatype Offer = Offer(allocatedIP: Address, netmask: Address, gatewayIP: Address, serverIP: Address)

  const NO_OFFER := Offer(ZERO, ZERO, ZERO, ZERO)

  /** A packet from the network: the fields the client looks at, and the bytes of its option list. */
  datatype Packet = Packet(transactionId: nat, yourIP: Address, bytes: seq<octet>) {
    /** What the search for an option gives. */
    function Option(tag: octet): Found {
      var p := Walk(bytes, 0, tag);
      if Inside(bytes, p) then FoundAt(bytes, p) else NotFound
    }

    predicate Searchable(tag: octet) {
      Inside(bytes, Walk(bytes, 0, tag))
    }

    /**
     * For a packet that answers the client's transaction: its searches end inside the packet, and what they copy stays
     * inside the variable or the record it is copied to.
     */
    predicate Copyable() {
      transactionId == TRANSACTION_ID ==>
        && Searchable(MSG_TYPE) && Searchable(SUBNET_MASK) && Searchable(ROUTER) && Searchable(SERVER_ID)
        && (Option(MSG_TYPE).Payload? ==> |Option(MSG_TYPE).data| == 1)
        && Fits(Option(SUBNET_MASK), NETMASK_AT) && Fits(Option(ROUTER), GATEWAY_AT) && Fits(Option(SERVER_ID), SERVER_AT)
    }

    predicate IsReply(kind: octet) {
      transactionId == TRANSACTION_ID && Option(MSG_TYPE) == Payload([kind])
    }
  }

  // The places of the addresses in the record of an offer.
  const NETMASK_AT := 4
  const GATEWAY_AT := 8
  const SERVER_AT := 12
  const RECORD_SIZE := 16

  predicate Fits(found: Found, at: nat) {
    found.Payload? ==> at + |found.data| <= RECORD_SIZE
  }

  /** The offer as it lies in memory: four addresses, one behind the other. */
  function Record(o: Offer): (r: seq<octet>)
    ensures |r| == RECORD_SIZE
  {
    o.allocatedIP + o.netmask + o.gatewayIP + o.serverIP
  }

  function FromRecord(r: seq<octet>): Offer
    requires |r| == RECORD_SIZE
  {
    Offer(r[..4], r[4..8], r[8..12], r[12..])
  }

  /** An option copied to its place in the record, with all the bytes it has. */
  function Copied(o: Offer, at: nat, found: Found): Offer
    requires Fits(found, at)
  {
    if found.NotFound? then o
    else FromRecord(Record(o)[..at] + found.data + Record(o)[at + |found.data|..])
  }

  /** A packet to the network. */
  datatype Message = Message(clientIP: Address, yourIP: Address, nextServerIP: Address, options: seq<Opt>, size: nat)

  datatype Event = Arrived(packet: Packet) | Polled(expired: bool)

  datatype Sent = Silent | Sends(message: Message)

  datatype Client = Client(state: State, offer: Offer, host: Address, mask: Address, router: Address, configured: bool)

  /** The address of an offer, and its options copied in the order of the code. */
  function TakeOffer(offer: Offer, p: Packet): Offer
    requires p.Copyable() && p.transactionId == TRANSACTION_ID
  {
    var withIP := offer.(allocatedIP := p.yourIP);
    var withMask := Copied(withIP, NETMASK_AT, p.Option(SUBNET_MASK));
    Copied(Copied(withMask, GATEWAY_AT, p.Option(ROUTER)), SERVER_AT, p.Option(SERVER_ID))
  }

  const DISCOVER_OPTIONS := [Opt(MSG_TYPE, [DISCOVER]), Opt(REQ_LIST, [SUBNET_MASK, ROUTER, DNS_SERVER])]

  function RequestOptions(offer: Offer): seq<Opt> {
    [Opt(MSG_TYPE, [REQUEST]), Opt(REQ_IPADDR, offer.allocatedIP), Opt(SERVER_ID, offer.serverIP)]
  }

  predicate Proper(event: Event) {
    event.Arrived? ==> event.packet.Copyable()
  }

  /** One callback as a function of the client's state. */
  function Step(c: Client, event: Event): (Client, Sent)
    requires Proper(event)
  {
    match c.state
    case SendDiscover =>
      (Client(WaitForOffer, NO_OFFER, ZERO, c.mask, c.router, c.configured),
       Sends(Message(ZERO, ZERO, ZERO, DISCOVER_OPTIONS, HEADER_SIZE + 9)))
    case WaitForOffer =>
      (match event
       case Polled(expired) => c.(state := if expired then SendDiscover else WaitForOffer)
       case Arrived(p) => if p.IsReply(OFFER) then c.(offer := TakeOffer(c.offer, p), state := SendRequest) else c,
       Silent)
    case SendRequest =>
      (c.(state := WaitForAck),
       Sends(Message(c.host, c.offer.allocatedIP, c.offer.serverIP, RequestOptions(c.offer), HEADER_SIZE + 16)))
    case WaitForAck =>
      (match event
       case Polled(expired) => c.(state := if expired then SendDiscover else WaitForAck)
       case Arrived(p) =>
         if p.IsReply(ACK) then Client(AddressLeased, c.offer, c.offer.allocatedIP, c.offer.netmask, c.offer.gatewayIP, true) else c,
       Silent)
    case AddressLeased => (c, Silent)
  }

  class DhcpClientApp {
    var state: State
    var offer: Offer
    var host: Address
    var mask: Address
    var router: Address
    var haveIPConfiguration: bool
    const buffer: array<octet>

    constructor (size: nat)
      requires 32 <= size
      ensures Snapshot() == Client(SendDiscover, offer, host, mask, router, false) && buffer.Length == size
    {
      state, offer, host, mask, router, haveIPConfiguration := SendDiscover, NO_OFFER, ZERO, ZERO, ZERO, false;
      buffer := new octet[size];
    }

    function Snapshot(): Client
      reads this
    {
      Client(state, offer, host, mask, router, haveIPConfiguration)
    }

    /** DHCPClientApp_Callback; an arrived packet's options are in the packet buffer. */
    method Callback(event: Event) returns (sent: Sent)
      requires 32 <= buffer.Length
      requires Proper(event) && (event.Arrived? ==> event.packet.bytes == buffer[..])
      modifies this, buffer
      ensures (Snapshot(), sent) == Step(old(Snapshot()), event)
      ensures sent.Sends? ==> Holds(buffer[..], sent.message.options) && sent.message.size == HEADER_SIZE + |Encode(sent.message.options)| + 1
    {
      sent := Silent;
      match state {
        case SendDiscover =>
          offer := NO_OFFER;
          host := offer.allocatedIP;
          sent := SendDiscoverPacket();
          state := WaitForOffer;
        case WaitForOffer =>
          match event {
            case Polled(expired) =>
              if expired {
                state := SendDiscover;
              }
            case Arrived(p) =>
              var matches := Matches(p, OFFER);
              if matches {
                CopyOffer(p);
                state := SendRequest;
              }
          }
        case SendRequest =>
          sent := SendRequestPacket();
          state := WaitForAck;
        case WaitForAck =>
          match event {
            case Polled(expired) =>
              if expired {
                state := SendDiscover;
              }
            case Arrived(p) =>
              var matches := Matches(p, ACK);
              if matches {
                host := offer.allocatedIP;
                mask := offer.netmask;
                router := offer.gatewayIP;
                haveIPConfiguration := true;
                state := AddressLeased;
              }
          }
        case AddressLeased =>
      }
    }

    /** The transaction and message type test on an arrived packet. */
    method Matches(p: Packet, kind: octet) returns (matches: bool)
      requires p.Copyable() && p.bytes == buffer[..]
      ensures matches == p.IsReply(kind)
    {
      if p.transactionId != TRANSACTION_ID {
        return false;
      }
      hide Walk, FoundAt;
      var messageType := GetOption(buffer, MSG_TYPE);
      return messageType.Payload? && messageType.data == [kind];
    }

    /** The three searches, each copying what it finds. */
    method CopyOffer(p: Packet)
      requires p.Copyable() && p.transactionId == TRANSACTION_ID && p.bytes == buffer[..]
      modifies this`offer
      ensures offer == TakeOffer(old(offer), p)
    {
      hide Walk, FoundAt, Copied;
      offer := offer.(allocatedIP := p.yourIP);
      var found := GetOption(buffer, SUBNET_MASK);
      offer := Copied(offer, NETMASK_AT, found);
      found := GetOption(buffer, ROUTER);
      offer := Copied(offer, GATEWAY_AT, found);
      found := GetOption(buffer, SERVER_ID);
      offer := Copied(offer, SERVER_AT, found);
    }

    method SendDiscoverPacket() returns (sent: Sent)
      requires 32 <= buffer.Length
      modifies buffer
      ensures sent == Sends(Message(host, offer.allocatedIP, offer.serverIP, DISCOVER_OPTIONS, HEADER_SIZE + 9))
      ensures Holds(buffer[..], DISCOVER_OPTIONS) && |Encode(DISCOVER_OPTIONS)| == 8
    {
      var size: nat := FillHeader(buffer, DISCOVER);
      ghost var head := [Opt(MSG_TYPE, [DISCOVER])];
      EncodeSmall(head, Opt(REQ_LIST, [SUBNET_MASK, ROUTER, DNS_SERVER]));
      var added := SetOption(buffer, REQ_LIST, [SUBNET_MASK, ROUTER, DNS_SERVER], head);
      size := size + added;
      assert head + [Opt(REQ_LIST, [SUBNET_MASK, ROUTER, DNS_SERVER])] == DISCOVER_OPTIONS;
      sent := Sends(Message(host, offer.allocatedIP, offer.serverIP, DISCOVER_OPTIONS, size));
    }

    method SendRequestPacket() returns (sent: Sent)
      requires 32 <= buffer.Length
      modifies buffer
      ensures sent == Sends(Message(host, offer.allocatedIP, offer.serverIP, RequestOptions(offer), HEADER_SIZE + 16))
      ensures Holds(buffer[..], RequestOptions(offer)) && |Encode(RequestOptions(offer))| == 15
    {
      var size: nat := FillHeader(buffer, REQUEST);
      ghost var head := [Opt(MSG_TYPE, [REQUEST])];
      EncodeSmall(head, Opt(REQ_IPADDR, offer.allocatedIP));
      var added := SetOption(buffer, REQ_IPADDR, offer.allocatedIP, head);
      size := size + added;
      ghost var two := head + [Opt(REQ_IPADDR, offer.allocatedIP)];
      EncodeSmall(two, Opt(SERVER_ID, offer.serverIP));
      added := SetOption(buffer, SERVER_ID, offer.serverIP, two);
      size := size + added;
      assert two + [Opt(SERVER_ID, offer.serverIP)] == RequestOptions(offer);
      sent := Sends(Message(host, offer.allocatedIP, offer.serverIP, RequestOptions(offer), size));
    }
  }

  lemma EncodeSmall(head: seq<Opt>, o: Opt)
    requires AllWritable(head) && Writable(o)
    ensures AllWritable(head + [o]) && |Encode(head + [o])| == |Encode(head)| + 2 + |o.payload|
    ensures |head| == 1 ==> |Encode(head)| == 2 + |head[0].payload|
  {
    assert (head + [o])[..|head|] == head;
    if |head| == 1 {
      assert head[..0] == [];
    }
  }

  // ---------------------------------------------------------------- runs

  /** The exchanges a run is made of. */
  datatype Milestone = Discovered | Offered(offer: Offer) | Requested(offer: Offer) | Acknowledged

  function Milestones(c: Client, event: Event): seq<Milestone>
    requires Proper(event)
  {
    match c.state
    case SendDiscover => [Discovered]
    case WaitForOffer => if event.Arrived? && event.packet.IsReply(OFFER) then [Offered(TakeOffer(c.offer, event.packet))] else []
    case SendRequest => [Requested(c.offer)]
    case WaitForAck => if event.Arrived? && event.packet.IsReply(ACK) then [Acknowledged] else []
    case AddressLeased => []
  }

  ghost predicate AllProper(events: seq<Event>) {
    forall i :: 0 <= i < |events| ==> Proper(events[i])
  }

  ghost function Run(c: Client, events: seq<Event>): Client
    requires AllProper(events)
  {
    if events == [] then c else Step(Run(c, events[..|events| - 1]), events[|events| - 1]).0
  }

  ghost function History(c: Client, events: seq<Event>): seq<Milestone>
    requires AllProper(events)
  {
    if events == [] then []
    else History(c, events[..|events| - 1]) + Milestones(Run(c, events[..|events| - 1]), events[|events| - 1])
  }

  ghost predicate EndsWith(history: seq<Milestone>, tail: seq<Milestone>) {
    |tail| <= |history| && history[|history| - |tail|..] == tail
  }

  /** The exchange in progress in a state. */
  function Exchange(c: Client): seq<Milestone> {
    match c.state
    case SendDiscover => []
    case WaitForOffer => [Discovered]
    case SendRequest => [Discovered, Offered(c.offer)]
    case WaitForAck => [Discovered, Offered(c.offer), Requested(c.offer)]
    case AddressLeased => [Discovered, Offered(c.offer), Requested(c.offer), Acknowledged]
  }

  /** The run ends with the exchange in progress; the offer is installed by its end, and nothing is before. */
  ghost predicate LeaseInvariant(c: Client, history: seq<Milestone>) {
    && EndsWith(history, Exchange(c))
    && (c.state == WaitForOffer ==> c.offer == NO_OFFER)
    && (c.state != AddressLeased ==> !c.configured && (history != [] ==> c.host == ZERO))
    && (c.state == AddressLeased ==>
      c.host == c.offer.allocatedIP && c.mask == c.offer.netmask && c.router == c.offer.gatewayIP && c.configured)
  }

  lemma Extend(history: seq<Milestone>, tail: seq<Milestone>, m: Milestone, more: seq<Milestone>)
    requires EndsWith(history, tail) && more == tail + [m]
    ensures EndsWith(history + [m], more)
  {
    assert (history + [m])[|history| - |tail|..] == history[|history| - |tail|..] + [m];
  }

  /** A callback either extends the exchange by its milestone, or leaves it, or starts over. */
  lemma ExchangeStep(c: Client, event: Event)
    requires Proper(event)
    ensures var m, next := Milestones(c, event), Exchange(Step(c, event).0);
      if m == [] then next == Exchange(c) || next == [] else m == [m[0]] && next == Exchange(c) + m
  {
    hide Packet.IsReply, TakeOffer, RequestOptions;
  }

  /** What the callback does to the installed addresses. */
  lemma InstalledStep(c: Client, event: Event)
    requires Proper(event)
    ensures var next := Step(c, event).0;
      && (c.state == SendDiscover ==> next.host == ZERO && next.offer == NO_OFFER && next.state == WaitForOffer && next.configured == c.configured)
      && (c.state != SendDiscover && next.state != AddressLeased ==> next.host == c.host && next.configured == c.configured)
      && (next.state == WaitForOffer && c.state != SendDiscover ==> next == c)
      && (next.state == AddressLeased && c.state != AddressLeased ==>
        next.host == next.offer.allocatedIP && next.mask == next.offer.netmask && next.router == next.offer.gatewayIP && next.configured)
      && (c.state == AddressLeased ==> next == c)
      && (Milestones(c, event) == [] ==> c.state != SendDiscover)
  {
    hide Packet.IsReply, TakeOffer, RequestOptions;
  }

  lemma StepKeepsLease(c: Client, history: seq<Milestone>, event: Event)
    requires LeaseInvariant(c, history) && Proper(event)
    ensures LeaseInvariant(Step(c, event).0, history + Milestones(c, event))
  {
    var m, next := Milestones(c, event), Step(c, event).0;
    ExchangeStep(c, event);
    InstalledStep(c, event);
    NoTail(history);
    assert Exchange(c) != [] ==> history != [] && c.state != SendDiscover;
    assert Exchange(c) == [] ==> c.state == SendDiscover;
    hide EndsWith, Exchange, Milestones, Step;
    if m == [] {
      assert history + m == history;
    } else {
      Extend(history, Exchange(c), m[0], Exchange(next));
    }
  }

  lemma NoTail(history: seq<Milestone>)
    ensures EndsWith(history, [])
  {
  }

  /**
   * In every reachable state: an address is leased only after discover, a matching offer, its request and a
   * matching acknowledgement in immediate succession, what is installed is that offer, and once a discover
   * has been sent the host address is zero until then.
   */
  lemma {:induction false} LeaseSafety(c: Client, events: seq<Event>)
    requires c.state == SendDiscover && !c.configured && AllProper(events)
    ensures LeaseInvariant(Run(c, events), History(c, events))
  {
    if events != [] {
      var prefix := events[..|events| - 1];
      LeaseSafety(c, prefix);
      StepKeepsLease(Run(c, prefix), History(c, prefix), events[|events| - 1]);
    }
  }

  /** A lease is never given up or changed. */
  lemma {:induction false} LeaseIsFinal(c: Client, events: seq<Event>, more: seq<Event>)
    requires c.state == SendDiscover && !c.configured && AllProper(events) && AllProper(more) && Run(c, events).state == AddressLeased
    ensures Run(c, events + more) == Run(c, events) && History(c, events + more) == History(c, events)
  {
    if more == [] {
      assert events + more == events;
    } else {
      LeaseIsFinal(c, events, more[..|more| - 1]);
      assert (events + more)[..|events + more| - 1] == events + more[..|more| - 1];
    }
  }

  /** An answering server gets the client leased from any waiting or sending state, in at most five callbacks. */
  lemma ServerAnswers(c: Client, offer: Packet, ack: Packet)
    requires c.state == SendDiscover && offer.Copyable() && ack.Copyable() && offer.IsReply(OFFER) && ack.IsReply(ACK)
    ensures AllProper([Polled(false), Arrived(offer), Polled(false), Arrived(ack)])
    ensures var done, taken := Run(c, [Polled(false), Arrived(offer), Polled(false), Arrived(ack)]), TakeOffer(NO_OFFER, offer);
      && done.state == AddressLeased && done.configured
      && done.host == taken.allocatedIP && done.mask == taken.netmask && done.router == taken.gatewayIP
  {
    var events := [Polled(false), Arrived(offer), Polled(false), Arrived(ack)];
    assert [] + [Polled(false)] == events[..1] && events[..1] + [Arrived(offer)] == events[..2];
    assert events[..2] + [Polled(false)] == events[..3] && events[..3] + [Arrived(ack)] == events;
    RunMore(c, [], Polled(false));
    RunMore(c, events[..1], Arrived(offer));
    RunMore(c, events[..2], Polled(false));
    RunMore(c, events[..3], Arrived(ack));
    hide Run, TakeOffer, Packet.Copyable, Packet.IsReply, AllProper;
  }

  lemma RunMore(c: Client, events: seq<Event>, event: Event)
    requires AllProper(events) && Proper(event)
    ensures AllProper(events + [event]) && Run(c, events + [event]) == Step(Run(c, events), event).0
    ensures Run(c, []) == c
  {
    assert (events + [event])[..|events|] == events;
  }

  // ---------------------------------------------------------------- what a server is sent

  lemma {:induction false} FindByPlace(list: seq<Opt>, k: nat)
    requires k < |list| && forall i :: 0 <= i < k ==> list[i].tag != list[k].tag
    ensures Find(list, list[k].tag) == Payload(list[k].payload)
  {
    if 0 < k {
      assert list[1..][k - 1] == list[k];
      FindByPlace(list[1..], k - 1);
    }
  }

  /** What a server finds in a buffer that holds the options. */
  ghost predicate Finds(buffer: seq<octet>, tag: octet, data: seq<octet>) {
    Inside(buffer, Walk(buffer, 0, tag)) && FoundAt(buffer, Walk(buffer, 0, tag)) == Payload(data)
  }

  lemma ServerFinds(buffer: seq<octet>, list: seq<Opt>, k: nat)
    requires Holds(buffer, list) && k < |list| && list[k].tag != OPTION_END && forall i :: 0 <= i < k ==> list[i].tag != list[k].tag
    ensures Finds(buffer, list[k].tag, list[k].payload)
  {
    FindByPlace(list, k);
    SearchFinds(buffer, list, list[k].tag);
    hide Walk, Inside, FoundAt, Find, Holds;
  }

  /**
   * The request of every run: a server finds in it the address and the server of the offer taken last, under the tags of
   * RFC 2132 sections 9.1 and 9.7; the client's own address is still zero.
   */
  lemma RequestNamesOffer(c: Client, events: seq<Event>, event: Event, buffer: seq<octet>)
    requires c.state == SendDiscover && !c.configured && AllProper(events) && Proper(event) && Run(c, events).state == SendRequest
    requires var sent := Step(Run(c, events), event).1; sent.Sends? ==> Holds(buffer, sent.message.options)
    ensures var offer, sent := Run(c, events).offer, Step(Run(c, events), event).1;
      && EndsWith(History(c, events), [Discovered, Offered(offer)])
      && sent.Sends? && sent.message.clientIP == ZERO
      && sent.message.yourIP == offer.allocatedIP && sent.message.nextServerIP == offer.serverIP
      && Finds(buffer, 53, [3]) && Finds(buffer, 50, offer.allocatedIP) && Finds(buffer, 54, offer.serverIP)
  {
    LeaseSafety(c, events);
    RequestFound(Run(c, events).offer, buffer);
    RequestSent(Run(c, events), event);
    hide Run, Holds, Finds, RequestOptions;
  }

  lemma RequestSent(c: Client, event: Event)
    requires c.state == SendRequest && Proper(event)
    ensures Step(c, event).1 == Sends(Message(c.host, c.offer.allocatedIP, c.offer.serverIP, RequestOptions(c.offer), HEADER_SIZE + 16))
  {
  }

  lemma RequestFound(offer: Offer, buffer: seq<octet>)
    ensures Holds(buffer, RequestOptions(offer)) ==>
      Finds(buffer, 53, [3]) && Finds(buffer, 50, offer.allocatedIP) && Finds(buffer, 54, offer.serverIP)
  {
    if Holds(buffer, RequestOptions(offer)) {
      var list := RequestOptions(offer);
      assert |list| == 3 && list[0] == Opt(53, [3]) && list[1] == Opt(50, offer.allocatedIP) && list[2] == Opt(54, offer.serverIP);
      hide RequestOptions, Finds, Holds;
      ServerFinds(buffer, list, 0);
      ServerFinds(buffer, list, 1);
      ServerFinds(buffer, list, 2);
    }
  }

  /** A discover: no address yet, and the request for the subnet mask, the routers and the name servers. */
  lemma DiscoverAsks(c: Client, event: Event, buffer: seq<octet>)
    requires c.state == SendDiscover && Proper(event)
    requires var sent := Step(c, event).1; sent.Sends? ==> Holds(buffer, sent.message.options)
    ensures var sent := Step(c, event).1;
      && sent.Sends? && sent.message.clientIP == sent.message.yourIP == sent.message.nextServerIP == ZERO
      && Finds(buffer, 53, [1]) && Finds(buffer, 55, [1, 3, 6])
  {
    hide Finds, Holds;
    ServerFinds(buffer, DISCOVER_OPTIONS, 0);
    ServerFinds(buffer, DISCOVER_OPTIONS, 1);
  }

  /**
   * A waiting client is silent, and nothing but the reply it waits for or its timeout changes it; a timeout makes the next
   * callback send the discover of a client that has no offer.
   */
  lemma WaitsOrStartsOver(c: Client, event: Event, next: Event)
    requires c.state in {WaitForOffer, WaitForAck} && Proper(event) && Proper(next)
    ensures Step(c, event).1 == Silent
    ensures Step(c, event).0 != c ==>
      event == Polled(true) || (event.Arrived? && event.packet.IsReply(if c.state == WaitForOffer then OFFER else ACK))
    ensures event == Polled(true) ==>
      && Run(c, [event, next]) == Client(WaitForOffer, NO_OFFER, ZERO, c.mask, c.router, c.configured)
      && Step(Run(c, [event]), next).1.Sends?
  {
    if event == Polled(true) {
      assert [] + [event] == [event] && [event] + [next] == [event, next];
      RunMore(c, [], event);
      RunMore(c, [event], next);
    }
    hide Run, TakeOffer, Packet.IsReply, RequestOptions;
  }

  // ---------------------------------------------------------------- what an offer leaves in the record

  /** An option's payload, or the value already there. */
  function AddressOr(found: Found, current: Address): Address {
    if found.Payload? && |found.data| == 4 then found.data else current
  }

  ghost predicate OneAddress(found: Found) {
    found.Payload? ==> |found.data| == 4
  }

  lemma CopiedAddress(o: Offer, at: nat, found: Found)
    requires at in {NETMASK_AT, GATEWAY_AT, SERVER_AT} && OneAddress(found)
    ensures Fits(found, at) && Copied(o, at, found) ==
      if at == NETMASK_AT then o.(netmask := AddressOr(found, o.netmask))
      else if at == GATEWAY_AT then o.(gatewayIP := AddressOr(found, o.gatewayIP))
      else o.(serverIP := AddressOr(found, o.serverIP))
  {
    if found.Payload? {
      var all, data := Record(o), found.data;
      RecordSlices(o);
      hide Record;
      if at == NETMASK_AT {
        var r := all[..4] + data + all[8..];
        assert r[..4] == all[..4] && r[4..8] == data && r[8..12] == all[8..12] && r[12..] == all[12..];
      } else if at == GATEWAY_AT {
        var r := all[..8] + data + all[12..];
        assert r[..4] == all[..4] && r[4..8] == all[4..8] && r[8..12] == data && r[12..] == all[12..];
      } else {
        var r := all[..12] + data + all[16..];
        assert r[..4] == all[..4] && r[4..8] == all[4..8] && r[8..12] == all[8..12] && r[12..] == data;
      }
    }
  }

  lemma RecordSlices(o: Offer)
    ensures var r := Record(o); r[..4] == o.allocatedIP && r[4..8] == o.netmask && r[8..12] == o.gatewayIP && r[12..] == o.serverIP
  {
  }

  /** With options of one address each, in a well-formed list, the offer is what the list says. */
  lemma PlainOffer(offer: Offer, p: Packet, options: seq<Opt>)
    requires p.Copyable() && p.transactionId == TRANSACTION_ID && Holds(p.bytes, options)
    requires OneAddress(Find(options, SUBNET_MASK)) && OneAddress(Find(options, ROUTER)) && OneAddress(Find(options, SERVER_ID))
    ensures TakeOffer(offer, p) == Offer(p.yourIP, AddressOr(Find(options, SUBNET_MASK), offer.netmask),
      AddressOr(Find(options, ROUTER), offer.gatewayIP), AddressOr(Find(options, SERVER_ID), offer.serverIP))
  {
    SearchFinds(p.bytes, options, SUBNET_MASK);
    SearchFinds(p.bytes, options, ROUTER);
    SearchFinds(p.bytes, options, SERVER_ID);
    var withIP := offer.(allocatedIP := p.yourIP);
    CopiedAddress(withIP, NETMASK_AT, p.Option(SUBNET_MASK));
    var withMask := Copied(withIP, NETMASK_AT, p.Option(SUBNET_MASK));
    CopiedAddress(withMask, GATEWAY_AT, p.Option(ROUTER));
    CopiedAddress(Copied(withMask, GATEWAY_AT, p.Option(ROUTER)), SERVER_AT, p.Option(SERVER_ID));
    hide Copied, Walk, Inside, FoundAt, Find;
  }

  /**
   * A router option may list several routers (RFC 2132, section 3.5). Two of them fill the gateway and the server
   * address, and the server that is then asked is the second router exactly when the offer names no server, or names that.
   */
  lemma TwoRouters(offer: Offer, p: Packet)
    requires p.Copyable() && p.transactionId == TRANSACTION_ID && OneAddress(p.Option(SUBNET_MASK)) && OneAddress(p.Option(SERVER_ID))
    requires p.Option(ROUTER).Payload? && |p.Option(ROUTER).data| == 8
    ensures var routers, taken := p.Option(ROUTER).data, TakeOffer(offer, p);
      && taken.allocatedIP == p.yourIP && taken.netmask == AddressOr(p.Option(SUBNET_MASK), offer.netmask) && taken.gatewayIP == routers[..4]
      && taken.serverIP == AddressOr(p.Option(SERVER_ID), routers[4..])
  {
    var withIP := offer.(allocatedIP := p.yourIP);
    CopiedAddress(withIP, NETMASK_AT, p.Option(SUBNET_MASK));
    var withMask := Copied(withIP, NETMASK_AT, p.Option(SUBNET_MASK));
    TwoCopied(withMask, p.Option(ROUTER));
    CopiedAddress(Copied(withMask, GATEWAY_AT, p.Option(ROUTER)), SERVER_AT, p.Option(SERVER_ID));
    hide Copied, Walk, Inside, FoundAt;
  }

  lemma TwoCopied(o: Offer, found: Found)
    requires found.Payload? && |found.data| == 8
    ensures Copied(o, GATEWAY_AT, found) == o.(gatewayIP := found.data[..4], serverIP := found.data[4..])
  {
  }
}
