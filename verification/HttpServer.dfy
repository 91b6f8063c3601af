/**
 * HTTPServerApp: the file sender of the webserver, one callback per uIP event, and what whole connections
 * deliver under uIP's event contract.
 */
module HttpServer {
  import opened Arith
  import opened Bytes

  datatype State = OpenRequestedFile | SendResponseHeader | SendData | Closing | Closed

  /** A file by its contents, or none if it cannot be opened. */
  datatype File = NoFile | File(data: seq<byte>)

  /** What the request names, and the responses the server would send for it. */
  datatype Site = Site(isGet: bool, file: File, header200: seq<byte>, header404: seq<byte>, mss: nat) {
    predicate Valid() {
      0 < mss < 0x1_0000 && header200 != [] && header404 != [] && (file.File? ==> |file.data| < 0x1_0000_0000)
    }
  }

  /** The flags uIP sets for a callback. */
  datatype Event = Gone | Connected | NewData | Acked | Rexmit | Poll

  /** What the callback asks uIP to do. */
  datatype Output = Output(sent: seq<byte>, close: bool, abort: bool)

  const NOTHING := Output([], false, false)

  datatype Conn = Conn(current: State, next: State, fileOpen: bool, ackedFilePos: nat, sentChunkSize: nat, filePos: nat)

  function Min(a: nat, b: nat): nat {
    if a < b then a else b
  }

  /** The next chunk f_read returns from a position of the file. */
  function Chunk(site: Site, pos: nat): seq<byte> {
    if site.file.NoFile? || pos >= |site.file.data| then []
    else site.file.data[pos..Min(pos + site.mss, |site.file.data|)]
  }

  class Connection {
    const site: Site
    var current: State
    var next: State
    var fileOpen: bool
    var ackedFilePos: nat
    var sentChunkSize: nat
    var filePos: nat

    constructor (site: Site)
      ensures this.site == site && Snapshot() == Conn(Closed, Closed, false, 0, 0, 0)
    {
      this.site := site;
      current, next, fileOpen, ackedFilePos, sentChunkSize, filePos := Closed, Closed, false, 0, 0, 0;
    }

    function Snapshot(): Conn
      reads this
    {
      Conn(current, next, fileOpen, ackedFilePos, sentChunkSize, filePos)
    }

    /** HTTPServerApp_Callback. */
    method Callback(event: Event) returns (output: Output)
      requires site.Valid()
      modifies this
      ensures Snapshot() == Step(site, old(Snapshot()), event).0 && output == Step(site, old(Snapshot()), event).1
    {
      output := NOTHING;
      if event.Gone? {
        current := Closing;
        next := Closing;
      }
      if event.Connected? {
        current := OpenRequestedFile;
        next := OpenRequestedFile;
        fileOpen := false;
        ackedFilePos := 0;
        sentChunkSize := 0;
      }
      if event.Acked? {
        ackedFilePos := ackedFilePos + sentChunkSize;
        current := next;
      }
      if event.Rexmit? {
        filePos := ackedFilePos;
      }
      if !event.Gone? {
        match current {
          case OpenRequestedFile =>
            output := OpenFile(event);
          case SendResponseHeader =>
            output := SendHeader();
          case SendData =>
            output := SendChunk();
          case Closing =>
            fileOpen := false;
            output := Output([], true, false);
            current := Closed;
            next := Closed;
          case Closed =>
        }
      }
    }

    method OpenFile(event: Event) returns (output: Output)
      modifies this
      ensures (Snapshot(), output) == OpenFileStep(site, old(Snapshot()), event)
    {
      output := NOTHING;
      if !event.NewData? {
        return;
      }
      if !site.isGet {
        output := Output([], false, true);
        return;
      }
      fileOpen := site.file.File?;
      filePos := 0;
      current := SendResponseHeader;
      next := SendResponseHeader;
    }

    method SendHeader() returns (output: Output)
      modifies this
      ensures (Snapshot(), output) == SendHeaderStep(site, old(Snapshot()))
    {
      if !fileOpen {
        output := Output(site.header404, false, false);
        next := Closing;
        return;
      }
      output := Output(site.header200, false, false);
      next := SendData;
    }

    method SendChunk() returns (output: Output)
      modifies this
      ensures (Snapshot(), output) == SendChunkStep(site, old(Snapshot()))
    {
      var maxChunkSize := site.mss;
      var appData := Chunk(site, filePos);
      sentChunkSize := |appData|;
      filePos := filePos + |appData|;
      output := Output(appData, false, false);
      if maxChunkSize != sentChunkSize {
        next := Closing;
      }
    }
  }

  function OpenFileStep(site: Site, c: Conn, event: Event): (Conn, Output) {
    if !event.NewData? then (c, NOTHING)
    else if !site.isGet then (c, Output([], false, true))
    else (c.(fileOpen := site.file.File?, filePos := 0, current := SendResponseHeader, next := SendResponseHeader), NOTHING)
  }

  function SendHeaderStep(site: Site, c: Conn): (Conn, Output) {
    if c.fileOpen then (c.(next := SendData), Output(site.header200, false, false))
    else (c.(next := Closing), Output(site.header404, false, false))
  }

  function SendChunkStep(site: Site, c: Conn): (Conn, Output) {
    var chunk := Chunk(site, c.filePos);
    (c.(sentChunkSize := |chunk|, filePos := c.filePos + |chunk|, next := if |chunk| != site.mss then Closing else c.next),
     Output(chunk, false, false))
  }

  /** One callback, as a function of the connection's state. */
  function Step(site: Site, c: Conn, event: Event): (Conn, Output) {
    match event
    case Gone => (c.(current := Closing, next := Closing), NOTHING)
    case Connected => OpenFileStep(site, Conn(OpenRequestedFile, OpenRequestedFile, false, 0, 0, c.filePos), event)
    case Acked => Dispatch(site, c.(ackedFilePos := c.ackedFilePos + c.sentChunkSize, current := c.next), event)
    case Rexmit => Dispatch(site, c.(filePos := c.ackedFilePos), event)
    case _ => Dispatch(site, c, event)
  }

  function Dispatch(site: Site, c: Conn, event: Event): (Conn, Output) {
    match c.current
    case OpenRequestedFile => OpenFileStep(site, c, event)
    case SendResponseHeader => SendHeaderStep(site, c)
    case SendData => SendChunkStep(site, c)
    case Closing => (c.(fileOpen := false, current := Closed, next := Closed), Output([], true, false))
    case Closed => (c, NOTHING)
  }

  // ---------------------------------------------------------------- connections under uIP's contract

  /** A connection with what the peer has acknowledged so far and the segment still outstanding. */
  datatype Session = Session(conn: Conn, delivered: seq<byte>, outstanding: seq<byte>)

  /**
   * uIP's contract: data is acknowledged or sent again only while outstanding, the application is polled only
   * when nothing is, and the request arrives in one piece before anything is sent.
   */
  predicate Allowed(s: Session, event: Event) {
    match event
    case Acked => s.outstanding != []
    case Rexmit => s.outstanding != []
    case Poll => s.outstanding == []
    case NewData => s.conn.current == OpenRequestedFile
    case _ => false
  }

  function Next(site: Site, s: Session, event: Event): Session {
    var (conn, output) := Step(site, s.conn, event);
    Session(conn, if event.Acked? then s.delivered + s.outstanding else s.delivered,
            if event.Acked? || output.sent != [] then output.sent else s.outstanding)
  }

  /** A freshly connected session. */
  function Start(site: Site, before: Conn): Session {
    Session(Step(site, before, Connected).0, [], [])
  }

  function Run(site: Site, s: Session, events: seq<Event>): Session {
    if events == [] then s else Next(site, Run(site, s, events[..|events| - 1]), events[|events| - 1])
  }

  ghost predicate AllowedRun(site: Site, s: Session, events: seq<Event>) {
    events != [] ==>
      AllowedRun(site, s, events[..|events| - 1]) && Allowed(Run(site, s, events[..|events| - 1]), events[|events| - 1])
  }

  /** The whole response to the request. */
  function Response(site: Site): seq<byte> {
    if site.file.File? then site.header200 + site.file.data else site.header404
  }

  /** What every reachable session satisfies. */
  ghost predicate Exact(site: Site, s: Session)
    requires site.Valid()
  {
    var c := s.conn;
    match c.current
    case OpenRequestedFile =>
      c == Conn(OpenRequestedFile, OpenRequestedFile, false, 0, 0, c.filePos) && s.delivered == s.outstanding == []
    case SendResponseHeader =>
      && c.fileOpen == site.file.File? && c.ackedFilePos == c.sentChunkSize == c.filePos == 0 && s.delivered == []
      && (s.outstanding == [] ==> c.next == SendResponseHeader)
      && (s.outstanding != [] ==>
        s.outstanding == (if c.fileOpen then site.header200 else site.header404) && c.next == (if c.fileOpen then SendData else Closing))
    case SendData =>
      && site.file.File? && c.fileOpen && c.ackedFilePos <= |site.file.data|
      && s.delivered == site.header200 + site.file.data[..c.ackedFilePos]
      && s.outstanding == Chunk(site, c.ackedFilePos) && c.sentChunkSize == |s.outstanding|
      && c.filePos == c.ackedFilePos + c.sentChunkSize
      && c.next == (if c.sentChunkSize == site.mss then SendData else Closing)
    case Closing => false
    case Closed =>
      s.delivered == Response(site) && s.outstanding == [] && (site.file.File? ==> |site.file.data| % site.mss != 0)
  }

  lemma StartExact(site: Site, before: Conn)
    requires site.Valid()
    ensures Exact(site, Start(site, before))
  {
  }

  /** Acknowledged chunks are whole multiples of the segment size until the last one. */
  ghost predicate OnChunk(site: Site, s: Session) {
    s.conn.current == SendData ==> 0 < site.mss && s.conn.ackedFilePos % site.mss == 0
  }

  lemma StepExact(site: Site, s: Session, event: Event)
    requires site.Valid() && Exact(site, s) && OnChunk(site, s) && Allowed(s, event)
    ensures Exact(site, Next(site, s, event)) && OnChunk(site, Next(site, s, event))
    ensures event.Rexmit? ==> Step(site, s.conn, event).1.sent == s.outstanding
  {
    if event.Acked? && s.conn.current == SendData {
      ChunkAcked(site, s);
    }
  }

  lemma ChunkAcked(site: Site, s: Session)
    requires site.Valid() && Exact(site, s) && OnChunk(site, s) && s.conn.current == SendData && s.outstanding != []
    ensures Exact(site, Next(site, s, Acked)) && OnChunk(site, Next(site, s, Acked))
  {
    var acked, file, mss := s.conn.ackedFilePos, site.file.data, site.mss;
    var n := |s.outstanding|;
    ModAdd(acked, if n < mss then n else 0, mss);
    assert file[..acked] + file[acked..acked + n] == file[..acked + n];
    assert s.delivered + s.outstanding == site.header200 + file[..acked + n];
    if n == mss {
      assert acked + mss <= |file|;
    } else {
      assert acked + n == |file| && file[..acked + n] == file;
    }
  }

  /**
   * Over every allowed run: what has been acknowledged is a prefix of the response, in the data state it is the
   * header and the file up to ackedFilePos, and a closed connection has delivered the whole response.
   */
  lemma {:induction false} DeliveryExact(site: Site, before: Conn, events: seq<Event>)
    requires site.Valid() && AllowedRun(site, Start(site, before), events)
    ensures Exact(site, Run(site, Start(site, before), events)) && OnChunk(site, Run(site, Start(site, before), events))
    ensures Run(site, Start(site, before), events).delivered <= Response(site)
  {
    RunExact(site, before, events);
    ExactPrefix(site, Run(site, Start(site, before), events));
    hide Exact, OnChunk, AllowedRun, Run, Start;
  }

  lemma {:induction false} RunExact(site: Site, before: Conn, events: seq<Event>)
    requires site.Valid() && AllowedRun(site, Start(site, before), events)
    ensures Exact(site, Run(site, Start(site, before), events)) && OnChunk(site, Run(site, Start(site, before), events))
  {
    if events == [] {
      StartExact(site, before);
    } else {
      var prefix := events[..|events| - 1];
      RunExact(site, before, prefix);
      hide Exact, OnChunk, Start, Next, Allowed;
      StepExact(site, Run(site, Start(site, before), prefix), events[|events| - 1]);
    }
  }

  lemma ExactPrefix(site: Site, s: Session)
    requires site.Valid() && Exact(site, s)
    ensures s.delivered <= Response(site)
  {
  }

  /** Every retransmission repeats the outstanding segment byte for byte. */
  lemma RetransmissionExact(site: Site, before: Conn, events: seq<Event>)
    requires site.Valid() && AllowedRun(site, Start(site, before), events)
    requires Allowed(Run(site, Start(site, before), events), Rexmit)
    ensures var s := Run(site, Start(site, before), events);
      Step(site, s.conn, Rexmit).1.sent == s.outstanding && Next(site, s, Rexmit).delivered == s.delivered
  {
    DeliveryExact(site, before, events);
    StepExact(site, Run(site, Start(site, before), events), Rexmit);
  }

  // ---------------------------------------------------------------- when does the connection close?

  /** A request, a poll, and then acknowledgements. */
  function Exchange(acks: nat): seq<Event> {
    if acks == 0 then [NewData, Poll] else Exchange(acks - 1) + [Acked]
  }

  lemma ExchangeMore(site: Site, s: Session, acks: nat)
    ensures Run(site, s, Exchange(acks + 1)) == Next(site, Run(site, s, Exchange(acks)), Acked)
    ensures AllowedRun(site, s, Exchange(acks + 1)) <==> AllowedRun(site, s, Exchange(acks)) && Allowed(Run(site, s, Exchange(acks)), Acked)
  {
    assert Exchange(acks + 1)[..|Exchange(acks + 1)| - 1] == Exchange(acks);
  }

  lemma ExchangeStart(site: Site, before: Conn)
    requires site.Valid() && site.isGet
    ensures var s := Run(site, Start(site, before), Exchange(0));
      && AllowedRun(site, Start(site, before), Exchange(0))
      && s.conn.current == SendResponseHeader && s.outstanding != []
  {
    var s0 := Start(site, before);
    assert [NewData, Poll][..1] == [NewData] && [NewData][..0] == [];
    assert Run(site, s0, [NewData]) == Next(site, s0, NewData);
    assert Run(site, s0, [NewData, Poll]) == Next(site, Next(site, s0, NewData), Poll);
    assert AllowedRun(site, s0, [NewData]);
  }

  /** Where an acknowledgement leads: from the header to the first chunk, from a full chunk to the next. */
  lemma AckLeads(site: Site, s: Session)
    requires site.Valid() && site.file.File? && Exact(site, s) && OnChunk(site, s) && s.outstanding != []
    ensures s.conn.current == SendResponseHeader ==>
      Next(site, s, Acked).conn.current == SendData && Next(site, s, Acked).conn.ackedFilePos == 0
    ensures s.conn.current == SendData && |s.outstanding| == site.mss ==>
      Next(site, s, Acked).conn.current == SendData && Next(site, s, Acked).conn.ackedFilePos == s.conn.ackedFilePos + site.mss
    ensures s.conn.current == SendData && |s.outstanding| < site.mss ==> Next(site, s, Acked).conn.current == Closed
  {
  }

  lemma OutstandingChunk(site: Site, s: Session)
    requires site.Valid() && site.file.File? && Exact(site, s) && s.conn.current == SendData
    ensures |s.outstanding| == Min(site.mss, |site.file.data| - s.conn.ackedFilePos)
  {
  }

  /** After the header and `chunks` full segments have been acknowledged, the next chunk is outstanding. */
  lemma {:induction false} ExchangeAt(site: Site, before: Conn, chunks: nat)
    requires site.Valid() && site.isGet && site.file.File? && chunks * site.mss <= |site.file.data|
    ensures var s := Run(site, Start(site, before), Exchange(chunks + 1));
      && AllowedRun(site, Start(site, before), Exchange(chunks + 1))
      && s.conn.current == SendData && s.conn.ackedFilePos == chunks * site.mss
  {
    hide Run, Next, Start, Exact, OnChunk, Exchange, AllowedRun;
    var s0 := Start(site, before);
    ExchangeMore(site, s0, chunks);
    var s := Run(site, s0, Exchange(chunks));
    if chunks == 0 {
      ExchangeStart(site, before);
      DeliveryExact(site, before, Exchange(0));
    } else {
      MulStep(chunks, site.mss);
      ExchangeAt(site, before, chunks - 1);
      DeliveryExact(site, before, Exchange(chunks));
      OutstandingChunk(site, s);
    }
    AckLeads(site, s);
  }

  lemma WholeChunks(size: nat, mss: nat)
    requires 0 < mss
    ensures size / mss * mss <= size < size / mss * mss + mss
  {
  }

  /** For a short last segment, the exchange that acknowledges every segment ends closed. */
  lemma ShortTailCloses(site: Site, before: Conn) returns (events: seq<Event>)
    requires site.Valid() && site.isGet && site.file.File? && |site.file.data| % site.mss != 0
    ensures AllowedRun(site, Start(site, before), events) && Run(site, Start(site, before), events).conn.current == Closed
  {
    var chunks := |site.file.data| / site.mss;
    WholeChunks(|site.file.data|, site.mss);
    hide Run, Next, Start, Exact, OnChunk, Exchange, AllowedRun;
    events := Exchange(chunks + 2);
    ExchangeAt(site, before, chunks);
    ExchangeMore(site, Start(site, before), chunks + 1);
    var s := Run(site, Start(site, before), Exchange(chunks + 1));
    DeliveryExact(site, before, Exchange(chunks + 1));
    OutstandingChunk(site, s);
    AckLeads(site, s);
  }

  /**
   * The connection can be closed by the server exactly when the last segment of the file is short: in the
   * exact-multiple case the server ends up sending nothing, so nothing is left to acknowledge.
   */
  lemma ClosesIffShortTail(site: Site, before: Conn)
    requires site.Valid() && site.isGet && site.file.File?
    ensures (exists events ::
      AllowedRun(site, Start(site, before), events) && Run(site, Start(site, before), events).conn.current == Closed)
      <==> |site.file.data| % site.mss != 0
  {
    hide Run, Next, Start, OnChunk, Exchange, AllowedRun;
    forall events | AllowedRun(site, Start(site, before), events) && Run(site, Start(site, before), events).conn.current == Closed
      ensures |site.file.data| % site.mss != 0
    {
      DeliveryExact(site, before, events);
    }
    if |site.file.data| % site.mss != 0 {
      var events := ShortTailCloses(site, before);
    }
  }

  /** And then it is the acknowledgement of the last byte that closes it. */
  lemma LastAckCloses(site: Site, before: Conn, events: seq<Event>)
    requires site.Valid() && site.file.File? && |site.file.data| % site.mss != 0
    requires AllowedRun(site, Start(site, before), events)
    requires var s := Run(site, Start(site, before), events);
      s.outstanding != [] && s.delivered + s.outstanding == Response(site)
    ensures var s := Run(site, Start(site, before), events);
      Step(site, s.conn, Acked).1.close && Next(site, s, Acked).conn.current == Closed
  {
    DeliveryExact(site, before, events);
    hide Run, Start, AllowedRun;
    LastAck(site, Run(site, Start(site, before), events));
  }

  lemma LastAck(site: Site, s: Session)
    requires site.Valid() && site.file.File? && |site.file.data| % site.mss != 0
    requires Exact(site, s) && OnChunk(site, s) && s.outstanding != [] && s.delivered + s.outstanding == Response(site)
    ensures Step(site, s.conn, Acked).1.close && Next(site, s, Acked).conn.current == Closed
  {
    var acked := s.conn.ackedFilePos;
    assert |s.delivered| + |s.outstanding| == |site.header200| + |site.file.data|;
    ModAdd(acked, 0, site.mss);
  }

  // ---------------------------------------------------------------- when nothing is sent

  /** The bytes sent over a run of callbacks, whatever uIP calls back for. */
  function SentOver(site: Site, c: Conn, events: seq<Event>): seq<byte>
    decreases |events|
  {
    if events == [] then [] else Step(site, c, events[0]).1.sent + SentOver(site, Step(site, c, events[0]).0, events[1..])
  }

  /** A connection that is on its way down, or that waits for a request the server does not serve. */
  ghost predicate Silent(site: Site, c: Conn) {
    || (c.current in {Closing, Closed} && c.next in {Closing, Closed})
    || (!site.isGet && c.current == c.next == OpenRequestedFile)
  }

  lemma SilentStep(site: Site, c: Conn, event: Event)
    requires Silent(site, c)
    ensures Silent(site, Step(site, c, event).0) || (event.Connected? && site.isGet)
    ensures Step(site, c, event).1.sent == []
  {
  }

  /** No byte is sent any more until another connection asks for something. */
  lemma {:induction false} NothingSent(site: Site, c: Conn, events: seq<Event>)
    requires Silent(site, c) && (site.isGet ==> Connected !in events)
    ensures SentOver(site, c, events) == []
    decreases |events|
  {
    if events != [] {
      SilentStep(site, c, events[0]);
      NothingSent(site, Step(site, c, events[0]).0, events[1..]);
      hide Silent, Step;
    }
  }

  /** When the connection goes away in any state, what is left is to close it, once, sending nothing. */
  lemma GoneCloses(site: Site, c: Conn, event: Event, later: Event, events: seq<Event>)
    requires Connected !in events && {event, later} <= {NewData, Acked, Rexmit, Poll}
    ensures var gone := Step(site, c, Gone).0;
      && Step(site, c, Gone).1 == NOTHING && SentOver(site, gone, events) == []
      && Step(site, gone, event).1 == Output([], true, false)
      && var closed := Step(site, gone, event).0;
        && closed.current == closed.next == Closed && !closed.fileOpen
        && var after := Step(site, closed, later); after.1 == NOTHING && after.0.current == after.0.next == Closed && !after.0.fileOpen
  {
    NothingSent(site, Step(site, c, Gone).0, events);
    hide SentOver;
  }

  /** Over every allowed run: a request is aborted exactly when it is not a GET, and then not a byte has been or is sent. */
  lemma AbortedIff(site: Site, before: Conn, events: seq<Event>, event: Event, later: seq<Event>)
    requires site.Valid() && AllowedRun(site, Start(site, before), events)
    requires Allowed(Run(site, Start(site, before), events), event)
    ensures var s := Run(site, Start(site, before), events);
      && (Step(site, s.conn, event).1.abort <==> event == NewData && !site.isGet)
      && (!site.isGet ==> s.delivered == s.outstanding == [] && SentOver(site, s.conn, [event] + later) == [])
  {
    DeliveryExact(site, before, events);
    var s := Run(site, Start(site, before), events);
    if !site.isGet {
      NotServed(site, before, events);
      NothingSent(site, s.conn, [event] + later);
    }
    hide Run, Start, AllowedRun, OnChunk, SentOver;
  }

  lemma {:induction false} NotServed(site: Site, before: Conn, events: seq<Event>)
    requires site.Valid() && !site.isGet && AllowedRun(site, Start(site, before), events)
    ensures var s := Run(site, Start(site, before), events);
      s.conn.current == s.conn.next == OpenRequestedFile && s.delivered == s.outstanding == []
  {
    if events != [] {
      NotServed(site, before, events[..|events| - 1]);
    }
  }

  /**
   * Over every allowed run: the server closes exactly at the acknowledgement that completes the response, if its last
   * segment is the header that stands for no file, or a short one.
   */
  lemma ClosesExactly(site: Site, before: Conn, events: seq<Event>, event: Event)
    requires site.Valid() && AllowedRun(site, Start(site, before), events)
    requires Allowed(Run(site, Start(site, before), events), event)
    ensures var s := Run(site, Start(site, before), events);
      Step(site, s.conn, event).1.close <==>
        && event.Acked? && s.delivered + s.outstanding == Response(site)
        && (site.file.File? ==> |site.file.data| % site.mss != 0)
  {
    DeliveryExact(site, before, events);
    hide Run, Start, AllowedRun;
    ClosesNow(site, Run(site, Start(site, before), events), event);
  }

  lemma ClosesNow(site: Site, s: Session, event: Event)
    requires site.Valid() && Exact(site, s) && OnChunk(site, s) && Allowed(s, event)
    ensures Step(site, s.conn, event).1.close <==>
      event.Acked? && s.delivered + s.outstanding == Response(site) && (site.file.File? ==> |site.file.data| % site.mss != 0)
  {
    if event.Acked? && s.conn.current == SendData {
      Completes(site, s);
    }
    hide Chunk, OnChunk;
  }

  /** The outstanding chunk completes the response, with a short last segment, exactly when it is short. */
  lemma Completes(site: Site, s: Session)
    requires site.Valid() && Exact(site, s) && OnChunk(site, s) && s.conn.current == SendData && s.outstanding != []
    ensures s.delivered + s.outstanding == Response(site) && |site.file.data| % site.mss != 0 <==> |s.outstanding| != site.mss
  {
    var acked, n := s.conn.ackedFilePos, |s.outstanding|;
    assert |s.delivered + s.outstanding| == |site.header200| + acked + n && |Response(site)| == |site.header200| + |site.file.data|;
    ModAdd(acked, if n < site.mss then n else 0, site.mss);
    if n < site.mss {
      assert site.file.data[..acked] + site.file.data[acked..] == site.file.data;
      assert s.delivered + s.outstanding == site.header200 + (site.file.data[..acked] + s.outstanding);
    }
  }

  /** A file that cannot be opened: the first poll answers with the 404 header, and its acknowledgement closes. */
  lemma NotFoundAnswered(site: Site, before: Conn)
    requires site.Valid() && site.isGet && site.file.NoFile?
    ensures AllowedRun(site, Start(site, before), Exchange(1))
    ensures var asked, done := Run(site, Start(site, before), Exchange(0)), Run(site, Start(site, before), Exchange(1));
      && asked.outstanding == site.header404 && Step(site, asked.conn, Acked).1.close
      && done.delivered == site.header404 && done.conn.current == Closed
  {
    ExchangeStart(site, before);
    DeliveryExact(site, before, Exchange(0));
    ExchangeMore(site, Start(site, before), 0);
    hide Run, Start, AllowedRun, Exchange, OnChunk;
  }
}
