/**
 * One client connection: the IDLE / WRITING_RESPONSE machine of Server.cpp.
 *
 * The functions say what one read or write event does to the client's entry; the classes of
 * ServerGroup.dfy apply exactly these functions in place.
 */
module Connections {
  import opened Text
  import opened Headers
  import opened Requests
  import opened Sockets
  import opened Streaming
  import Responses

  datatype ConnState = IDLE | WRITING_RESPONSE

  /** A response is either rendered to text or streamed from a file descriptor. */
  datatype Reply = Rendered(text: string) | File(stream: ValidStream)

  datatype Outcome = Respond(reply: Reply) | Throws

  /** RequestHandler::handleRequest, and the Connection header added to what it returns. */
  type Handler = (Parsed, bool) -> Outcome

  datatype Client = Client(
    state: ConnState,
    requestBuffer: string,
    responseBuffer: string,
    lastActivity: int,
    keepAlive: bool,
    reply: Reply,
    bytesWritten: nat)
  {
    /** ClientState::clear */
    function Clear(): Client {
      this.(state := IDLE, requestBuffer := "", responseBuffer := "", bytesWritten := 0)
    }
  }

  /** The ClientState constructor. */
  function NewClient(now: int): Client {
    Client(IDLE, "", "", now, true, Rendered(""), 0)
  }

  const CHUNK_END := "\r\n0\r\n\r\n"

  // ---- reading ----

  /** The completion test of handleClientData; the length arithmetic is on size_t. */
  predicate Complete(buffer: string) {
    var headerEnd := Find(buffer, BLANK_LINE, 0);
    headerEnd >= 0
    && Entries(buffer[..headerEnd]) != []
    && BodyArrived(HeadersOf(buffer[..headerEnd]), headerEnd, buffer)
  }

  predicate BodyArrived(h: HeaderMap, headerEnd: nat, buffer: string) {
    var contentLength, chunked := Get(h, "Content-Length"), Get(h, "Transfer-Encoding") == "chunked";
    || (!chunked && contentLength == "")
    || (contentLength != "" && |buffer| >= (headerEnd + 4 + Atoi(contentLength)) % TWO_64)
    || (chunked && Contains(buffer, CHUNK_END))
  }

  predicate WantsKeepAlive(request: Parsed) {
    Get(request.headers, "Connection") == "keep-alive"
  }

  /** processCompleteRequests; None when the connection is closed. */
  function Process(c: Client, handler: Handler, now: int): Option<Client> {
    var request := ParseRequest(c.requestBuffer);
    if request.None? then Some(c.(responseBuffer := Responses.BadRequestPage()))
    else
      var keepAlive := WantsKeepAlive(request.value);
      match handler(request.value, keepAlive)
      case Throws => None
      case Respond(reply) =>
        Some(c.(keepAlive := keepAlive, requestBuffer := "", reply := reply,
                state := WRITING_RESPONSE, bytesWritten := 0, lastActivity := now))
  }

  /** handleClientData on a client that is in the table. */
  function AfterRecv(c: Client, r: RecvResult, handler: Handler, now: int): Option<Client> {
    if c.state == WRITING_RESPONSE then Some(c)
    else match r
      case Received(bytes) =>
        if bytes == "" then None
        else
          var c1 := c.(requestBuffer := c.requestBuffer + bytes, lastActivity := now);
          if Complete(c1.requestBuffer) then Process(c1, handler, now) else Some(c1)
      case RecvWouldBlock => Some(c)
      case RecvFailed => None
  }

  // ---- writing ----

  /** The buffer that send is offered a part of: rendered once, then kept. */
  function WithResponse(c: Client): Client {
    if c.responseBuffer == "" && c.reply.Rendered? then c.(responseBuffer := c.reply.text) else c
  }

  /** How much of the offered bytes a send takes. */
  function Taken(c: Client, s: SendResult): (n: nat)
    requires c.bytesWritten <= |c.responseBuffer|
    ensures c.bytesWritten + n <= |c.responseBuffer|
  {
    Take(s, |c.responseBuffer| - c.bytesWritten)
  }

  function Finish(c: Client, now: int): Option<Client> {
    if c.keepAlive then Some(c.Clear().(lastActivity := now)) else None
  }

  /**
   * handleClientWrite; s answers the send of the buffer or of a file's head, piece the send of
   * the piece of the file that follows.
   */
  function AfterSend(c: Client, s: SendResult, piece: SendResult, now: int): Option<Client>
    requires c.bytesWritten <= |c.responseBuffer|
  {
    if c.state != WRITING_RESPONSE then Some(c)
    else if c.reply.File? then
      var r := WriteChunk(c.reply.stream, s, piece);
      if r.more then Some(c.(reply := File(r.next), lastActivity := now)) else Finish(c, now)
    else
      var c1 := WithResponse(c);
      var n := Taken(c1, s);
      if s.SendFailed? then None
      else if n > 0 && c1.bytesWritten + n >= |c1.responseBuffer| then Finish(c1, now)
      else Some(c1.(bytesWritten := c1.bytesWritten + n, lastActivity := now))
  }

  // ---- runs ----

  datatype Event =
    | Readable(recv: RecvResult, rnow: int)
    | Writable(send: SendResult, piece: SendResult, wnow: int)

  /** A response that has ended: a buffer that left whole, or a file as far as the sends took it. */
  datatype Ended = Whole(bytes: string) | Streamed(stream: ValidStream, sends: seq<(SendResult, SendResult)>)

  /** The bytes a response put on the wire. */
  function Bytes(e: Ended): string {
    match e
    case Whole(bytes) => bytes
    case Streamed(stream, sends) => Calls(stream, sends).wire
  }

  function Concat(parts: seq<Ended>): string {
    if parts == [] then "" else Concat(parts[..|parts| - 1]) + Bytes(parts[|parts| - 1])
  }

  /**
   * What a run leaves behind: the bytes that left, the responses that ended, the file being
   * streamed (Whole("") when there is none), the requests taken and the number rejected.
   */
  datatype Log = Log(wire: string, ended: seq<Ended>, current: Ended, dispatched: seq<Parsed>, rejected: nat)

  function NoFile(): Ended { Whole("") }

  function EmptyLog(): Log { Log("", [], NoFile(), [], 0) }

  /** A connection is open until its entry is removed; then client is what the entry last held. */
  datatype Conn = Conn(client: Client, open: bool, log: Log)

  predicate ClientInv(c: Client) {
    && (c.state == WRITING_RESPONSE ==> c.requestBuffer == "")
    && (c.state == IDLE || c.reply.File? ==> c.bytesWritten == 0)
    && c.bytesWritten <= |c.responseBuffer|
  }

  predicate Dispatches(c: Client, r: RecvResult) {
    c.state == IDLE && r.Received? && r.bytes != "" && Complete(c.requestBuffer + r.bytes)
  }

  /** The bytes this write event puts on the wire. */
  function Sent(c: Client, s: SendResult, piece: SendResult): string
    requires c.bytesWritten <= |c.responseBuffer|
  {
    if c.state != WRITING_RESPONSE then ""
    else if c.reply.File? then WriteChunk(c.reply.stream, s, piece).wire
    else
      var c1 := WithResponse(c);
      c1.responseBuffer[c1.bytesWritten..c1.bytesWritten + Taken(c1, s)]
  }

  function LogRecv(c: Client, r: RecvResult, handler: Handler, log: Log): Log {
    if !Dispatches(c, r) then log
    else
      var request := ParseRequest(c.requestBuffer + r.bytes);
      if request.None? then log.(rejected := log.rejected + 1)
      else log.(dispatched := log.dispatched + [request.value], current := Begun(handler(request.value, WantsKeepAlive(request.value))))
  }

  function Begun(outcome: Outcome): Ended {
    if outcome.Respond? && outcome.reply.File? then Streamed(outcome.reply.stream, []) else NoFile()
  }

  /** The streamed file, one call of writeNextChunk later. */
  function OneCallMore(e: Ended, s: SendResult, piece: SendResult): Ended {
    if e.Streamed? then e.(sends := e.sends + [(s, piece)]) else e
  }

  /** A response has ended once a write takes the client out of WRITING_RESPONSE by completion. */
  function LogSend(c: Client, s: SendResult, piece: SendResult, log: Log): Log
    requires c.bytesWritten <= |c.responseBuffer|
  {
    var log1 := log.(wire := log.wire + Sent(c, s, piece));
    if c.state != WRITING_RESPONSE then log1
    else if c.reply.File? then
      var e := OneCallMore(log.current, s, piece);
      if WriteChunk(c.reply.stream, s, piece).more then log1.(current := e)
      else log1.(ended := log1.ended + [e], current := NoFile())
    else
      var c1 := WithResponse(c);
      if Taken(c1, s) > 0 && c1.bytesWritten + Taken(c1, s) == |c1.responseBuffer|
      then log1.(ended := log1.ended + [Whole(c1.responseBuffer)])
      else log1
  }

  function Settle(c: Client, next: Option<Client>, ended: Client, log: Log): Conn {
    if next.Some? then Conn(next.value, true, log) else Conn(ended, false, log)
  }

  /** What the entry holds when a write event removes it. */
  function LastOfSend(c: Client, s: SendResult): Client {
    if c.reply.Rendered? && s.SendFailed? then WithResponse(c) else c.Clear()
  }

  function Step(k: Conn, e: Event, handler: Handler): Conn
    requires ClientInv(k.client)
  {
    if !k.open then k
    else match e
      case Readable(r, now) =>
        Settle(k.client, AfterRecv(k.client, r, handler, now), k.client, LogRecv(k.client, r, handler, k.log))
      case Writable(s, piece, now) =>
        Settle(k.client, AfterSend(k.client, s, piece, now), LastOfSend(k.client, s), LogSend(k.client, s, piece, k.log))
  }

  function Start(now: int): Conn {
    Conn(NewClient(now), true, EmptyLog())
  }

  lemma StepKeepsClientInv(k: Conn, e: Event, handler: Handler)
    requires ClientInv(k.client)
    ensures ClientInv(Step(k, e, handler).client)
  {
    hide Complete, ParseRequest;
  }

  /** The connection after a sequence of events. */
  function Run(events: seq<Event>, handler: Handler, now: int): (k: Conn)
    ensures ClientInv(k.client)
  {
    if events == [] then Start(now)
    else
      var k := Run(events[..|events| - 1], handler, now);
      StepKeepsClientInv(k, events[|events| - 1], handler);
      Step(k, events[|events| - 1], handler)
  }

  /** The file on its way is the one the log names, as far as the calls so far took it. */
  predicate FileInFlight(k: Conn) {
    if k.client.state == WRITING_RESPONSE && k.client.reply.File?
    then k.log.current.Streamed?
         && Calls(k.log.current.stream, k.log.current.sends) == Sending(k.client.reply.stream, Bytes(k.log.current), true)
    else k.log.current == NoFile()
  }

  /** What was sent is every ended response, then the part of the current one that was accepted. */
  predicate Conserved(k: Conn) {
    && k.client.bytesWritten <= |k.client.responseBuffer|
    && FileInFlight(k)
    && k.log.wire == Concat(k.log.ended) + Bytes(k.log.current) + k.client.responseBuffer[..k.client.bytesWritten]
  }

  /** A part of a buffer, and the piece after it. */
  lemma NextPiece(base: string, buffer: string, done: nat, n: nat)
    requires done + n <= |buffer|
    ensures base + buffer[..done] + buffer[done..done + n] == base + buffer[..done + n]
    ensures buffer[..0] == "" && buffer[..|buffer|] == buffer
  {
    assert buffer[..done] + buffer[done..done + n] == buffer[..done + n];
  }

  lemma ConcatSnoc(parts: seq<Ended>, last: Ended)
    ensures Concat(parts + [last]) == Concat(parts) + Bytes(last)
  {
    assert (parts + [last])[..|parts|] == parts;
  }

  lemma NothingMore(base: string)
    ensures base + "" == base
  {
  }

  /** Rendering is done once, and what was accepted of a buffer stays. */
  lemma Rendering(c: Client, n: nat, now: int)
    ensures var r := WithResponse(c);
            && r == c.(responseBuffer := r.responseBuffer)
            && WithResponse(r.(bytesWritten := n, lastActivity := now)).responseBuffer == r.responseBuffer
            && (c.bytesWritten <= |c.responseBuffer| ==>
                  c.bytesWritten <= |r.responseBuffer| && c.responseBuffer[..c.bytesWritten] == r.responseBuffer[..c.bytesWritten])
  {
  }

  lemma Refused(c: Client, s: SendResult)
    requires c.bytesWritten <= |c.responseBuffer| && !s.Accepted?
    ensures Taken(c, s) == 0
  {
  }

  lemma SendLogged(c: Client, s: SendResult, piece: SendResult, log: Log)
    requires c.state == WRITING_RESPONSE && c.reply.Rendered? && c.bytesWritten <= |c.responseBuffer|
    ensures var r := WithResponse(c);
            var n, next := Taken(r, s), LogSend(c, s, piece, log);
            && next.wire == log.wire + r.responseBuffer[r.bytesWritten..r.bytesWritten + n] && next.current == log.current
            && next.ended == if n > 0 && r.bytesWritten + n == |r.responseBuffer| then log.ended + [Whole(r.responseBuffer)] else log.ended
  {
    hide WithResponse, Taken;
    Rendering(c, 0, 0);
  }

  /** What the entry holds after a write of a buffer, removed or not. */
  lemma SendLeaves(c: Client, s: SendResult, piece: SendResult, now: int)
    requires c.state == WRITING_RESPONSE && c.reply.Rendered? && c.bytesWritten <= |c.responseBuffer|
    ensures var r, next := WithResponse(c), AfterSend(c, s, piece, now);
            var n, after := Taken(r, s), if next.Some? then next.value else LastOfSend(c, s);
            if n > 0 && r.bytesWritten + n == |r.responseBuffer|
            then after.state == IDLE && after.responseBuffer == "" && after.bytesWritten == 0
            else after.state == WRITING_RESPONSE && after.reply == c.reply && after.responseBuffer == r.responseBuffer
                 && after.bytesWritten == r.bytesWritten + n
  {
    hide WithResponse, Taken;
    Rendering(c, 0, 0);
    if !s.Accepted? { Refused(WithResponse(c), s); }
  }

  lemma WholeBytes(buffer: string)
    ensures Bytes(Whole(buffer)) == buffer && NoFile() == Whole("")
  {
  }

  lemma SendConserves(k: Conn, s: SendResult, piece: SendResult, now: int, handler: Handler)
    requires ClientInv(k.client) && Conserved(k) && k.open
    requires k.client.state == WRITING_RESPONSE && k.client.reply.Rendered?
    ensures Conserved(Step(k, Writable(s, piece, now), handler))
  {
    hide Concat, Complete, ParseRequest, Calls, WithResponse, Taken, LogSend, AfterSend, LastOfSend, Bytes, WriteChunk;
    WholeBytes("");
    WholeBytes(WithResponse(k.client).responseBuffer);
    var c := WithResponse(k.client);
    Rendering(k.client, 0, 0);
    SendLogged(k.client, s, piece, k.log);
    SendLeaves(k.client, s, piece, now);
    WireGrows(Concat(k.log.ended), c.responseBuffer, c.bytesWritten, Taken(c, s));
    ConcatSnoc(k.log.ended, Whole(c.responseBuffer));
  }

  lemma WireGrows(base: string, buffer: string, done: nat, n: nat)
    requires done + n <= |buffer|
    ensures (base + "" + buffer[..done]) + buffer[done..done + n] == base + "" + buffer[..done + n]
    ensures done + n == |buffer| ==> base + "" + buffer[..done + n] == (base + buffer) + "" + ""[..0]
  {
    assert buffer[..done] + buffer[done..done + n] == buffer[..done + n];
  }

  lemma CallsSnoc(e: Ended, s: SendResult, piece: SendResult)
    requires e.Streamed? && Calls(e.stream, e.sends).more
    ensures var before := Calls(e.stream, e.sends);
            var r, after := WriteChunk(before.next, s, piece), OneCallMore(e, s, piece);
            Calls(after.stream, after.sends) == Sending(r.next, before.wire + r.wire, r.more)
  {
    hide WriteChunk;
    var after := e.sends + [(s, piece)];
    assert after[..|after| - 1] == e.sends;
  }

  lemma FileConserves(k: Conn, s: SendResult, piece: SendResult, now: int, handler: Handler)
    requires ClientInv(k.client) && Conserved(k) && k.open
    requires k.client.state == WRITING_RESPONSE && k.client.reply.File?
    ensures Conserved(Step(k, Writable(s, piece, now), handler))
  {
    hide Concat, Complete, ParseRequest, Calls, WriteChunk;
    CallsSnoc(k.log.current, s, piece);
    var e, base := OneCallMore(k.log.current, s, piece), Concat(k.log.ended);
    var r := WriteChunk(k.client.reply.stream, s, piece);
    assert Bytes(e) == Bytes(k.log.current) + r.wire;
    assert (base + Bytes(k.log.current)) + r.wire == base + Bytes(e);
    NothingMore(base + Bytes(k.log.current));
    NothingMore(base + Bytes(e));
    ConcatSnoc(k.log.ended, e);
    var next := Step(k, Writable(s, piece, now), handler);
    assert k.client.responseBuffer[..0] == "" && next.client.responseBuffer[..0] == "";
  }

  lemma StepConserves(k: Conn, e: Event, handler: Handler)
    requires ClientInv(k.client) && Conserved(k)
    ensures Conserved(Step(k, e, handler))
  {
    hide Concat, Complete, ParseRequest, Taken, WithResponse, WriteChunk;
    var c := k.client;
    if k.open && e.Writable? && c.state == WRITING_RESPONSE {
      if c.reply.Rendered? {
        SendConserves(k, e.send, e.piece, e.wnow, handler);
      } else {
        FileConserves(k, e.send, e.piece, e.wnow, handler);
      }
    } else {
      QuietConserves(k, e, handler);
    }
  }

  lemma QuietConserves(k: Conn, e: Event, handler: Handler)
    requires ClientInv(k.client) && Conserved(k)
    requires !k.open || e.Readable? || k.client.state == IDLE
    ensures Conserved(Step(k, e, handler))
  {
    hide Concat, Complete, ParseRequest, Taken, WithResponse, WriteChunk;
    var c, next := k.client, Step(k, e, handler);
    NothingMore(k.log.wire);
    assert next.log.ended == k.log.ended && next.log.wire == k.log.wire;
    assert k.open && c.state == IDLE ==> Bytes(k.log.current) == "" && Bytes(next.log.current) == "";
    if next.client.responseBuffer != c.responseBuffer || next.client.bytesWritten != c.bytesWritten {
      assert c.responseBuffer[..0] == next.client.responseBuffer[..0];
    }
  }

  /**
   * Conservation on the wire, over every run: partial sends, EAGAIN, errors, streamed files and
   * reads in any order.  The wire holds the responses that ended, each as far as it was accepted,
   * and the accepted part of the current one, nothing lost, repeated or reordered.
   */
  lemma {:induction false} WireConservation(events: seq<Event>, handler: Handler, now: int)
    ensures Conserved(Run(events, handler, now))
  {
    hide Conserved;
    if events != [] {
      WireConservation(events[..|events| - 1], handler, now);
      StepConserves(Run(events[..|events| - 1], handler, now), events[|events| - 1], handler);
    } else {
      StartConserves(now);
    }
  }

  lemma StartConserves(now: int)
    ensures Conserved(Start(now))
  {
  }

  /** A client leaves WRITING_RESPONSE for IDLE only when the last byte of its buffer was taken. */
  lemma IdleOnlyAfterWhole(k: Conn, s: SendResult, piece: SendResult, now: int, handler: Handler)
    requires ClientInv(k.client) && Conserved(k) && k.open
    requires k.client.state == WRITING_RESPONSE && k.client.reply.Rendered?
    ensures var next := Step(k, Writable(s, piece, now), handler);
            var buffer := WithResponse(k.client).responseBuffer;
            next.client.state == IDLE <==>
              buffer != "" && next.log.ended == k.log.ended + [Whole(buffer)]
              && next.log.wire == Concat(k.log.ended) + buffer
  {
    hide Concat, Complete, ParseRequest, Calls, WithResponse, Taken, LogSend, AfterSend, LastOfSend;
    var c := WithResponse(k.client);
    Rendering(k.client, 0, 0);
    if Taken(c, s) > 0 && c.bytesWritten + Taken(c, s) == |c.responseBuffer| {
      LastByte(k, s, piece, now, handler);
    } else {
      NotYetLast(k, s, piece, now, handler);
    }
  }

  lemma LastByte(k: Conn, s: SendResult, piece: SendResult, now: int, handler: Handler)
    requires ClientInv(k.client) && Conserved(k) && k.open
    requires k.client.state == WRITING_RESPONSE && k.client.reply.Rendered?
    requires var c := WithResponse(k.client);
             c.bytesWritten <= |c.responseBuffer| && Taken(c, s) > 0 && c.bytesWritten + Taken(c, s) == |c.responseBuffer|
    ensures var next := Step(k, Writable(s, piece, now), handler);
            var buffer := WithResponse(k.client).responseBuffer;
            && next.client.state == IDLE && buffer != "" && next.log.ended == k.log.ended + [Whole(buffer)]
            && next.log.wire == Concat(k.log.ended) + buffer
  {
    hide Concat, Complete, ParseRequest, Calls, WithResponse, Taken, LogSend, AfterSend, LastOfSend, Conserved;
    var buffer := WithResponse(k.client).responseBuffer;
    SendLogged(k.client, s, piece, k.log);
    SendLeaves(k.client, s, piece, now);
    SendConserves(k, s, piece, now, handler);
    ConcatSnoc(k.log.ended, Whole(buffer));
    WireAtRest(Step(k, Writable(s, piece, now), handler));
  }

  /** Between responses the wire is exactly the ended ones. */
  lemma WireAtRest(k: Conn)
    requires Conserved(k) && k.client.state == IDLE && k.client.bytesWritten == 0
    ensures k.log.wire == Concat(k.log.ended)
  {
    hide Concat, Calls;
    assert k.client.responseBuffer[..0] == "";
    NothingMore(Concat(k.log.ended));
  }

  lemma NotYetLast(k: Conn, s: SendResult, piece: SendResult, now: int, handler: Handler)
    requires ClientInv(k.client) && k.open
    requires k.client.state == WRITING_RESPONSE && k.client.reply.Rendered?
    requires var c := WithResponse(k.client);
             c.bytesWritten <= |c.responseBuffer| && !(Taken(c, s) > 0 && c.bytesWritten + Taken(c, s) == |c.responseBuffer|)
    ensures Step(k, Writable(s, piece, now), handler).client.state == WRITING_RESPONSE
    ensures Step(k, Writable(s, piece, now), handler).log.ended == k.log.ended
    ensures forall e :: k.log.ended != k.log.ended + [e]
  {
    hide Complete, ParseRequest, WithResponse, Taken, LogSend, AfterSend, LastOfSend;
    SendLogged(k.client, s, piece, k.log);
    SendLeaves(k.client, s, piece, now);
    forall e ensures k.log.ended != k.log.ended + [e] { OneMoreEnded(k.log.ended, e); }
  }

  lemma OneMoreEnded(ended: seq<Ended>, e: Ended)
    ensures ended + [e] != ended
  {
    assert |ended + [e]| != |ended|;
  }

  /**
   * A client that streams a file leaves WRITING_RESPONSE when writeNextChunk answers false: at the
   * end of the file, but also after a refused send.  With keep-alive it is then IDLE on an open
   * connection, and what it sent is the head and the file exactly when no send fell short.
   */
  lemma FileLeavesExactly(k: Conn, s: SendResult, piece: SendResult, now: int, handler: Handler)
    requires ClientInv(k.client) && Conserved(k) && k.open
    requires k.client.state == WRITING_RESPONSE && k.client.reply.File?
    requires k.log.current.stream.active && k.log.current.stream.head != ""
    ensures var next, e := Step(k, Writable(s, piece, now), handler), OneCallMore(k.log.current, s, piece);
            && (next.client.state == IDLE <==> !WriteChunk(k.client.reply.stream, s, piece).more)
            && (next.client.state == IDLE ==>
                  && next.open == k.client.keepAlive && next.log.ended == k.log.ended + [e]
                  && next.log.wire == Concat(k.log.ended) + Bytes(e)
                  && |Bytes(e)| <= |e.stream.Remaining()|
                  && (Bytes(e) == e.stream.Remaining() <==> Transfer(e.stream, e.sends).finished && Lossless(e.stream, e.sends))
                  && (|Bytes(e)| < |e.stream.Remaining()| <==> !(Transfer(e.stream, e.sends).finished && Lossless(e.stream, e.sends))))
  {
    hide Concat, Complete, ParseRequest, Calls, WriteChunk, Transfer, Lossless;
    CallsSnoc(k.log.current, s, piece);
    FileConserves(k, s, piece, now, handler);
    var next, e := Step(k, Writable(s, piece, now), handler), OneCallMore(k.log.current, s, piece);
    if next.client.state == IDLE {
      ConcatSnoc(k.log.ended, e);
      assert next.client.responseBuffer[..0] == "";
      NothingMore(Concat(next.log.ended));
      EndedExactly(e.stream, e.sends);
    }
  }

  /** A write whose head would block leaves everything but the clock as it is. */
  lemma BlockedHeadWaits(k: Conn, piece: SendResult, now: int, handler: Handler)
    requires ClientInv(k.client) && k.open && k.client.state == WRITING_RESPONSE && k.client.reply.File?
    requires k.client.reply.stream.active && !k.client.reply.stream.headersSent
    ensures var next := Step(k, Writable(SendWouldBlock, piece, now), handler);
            && next.open && next.client == k.client.(lastActivity := now)
            && next.log.wire == k.log.wire && next.log.ended == k.log.ended
  {
    hide WriteChunk, Complete, ParseRequest;
    BlockedHeadStays(k.client.reply.stream, piece);
    NothingMore(k.log.wire);
  }

  // ---- which events end a connection ----

  /** The read completes a request that parses. */
  predicate Dispatching(buffer: string, r: RecvResult) {
    r.Received? && r.bytes != "" && Complete(buffer + r.bytes) && ParseRequest(buffer + r.bytes).Some?
  }

  /** The peer closed, the read failed, or the handler throws on the request that it completes. */
  predicate ReadCloses(c: Client, r: RecvResult, handler: Handler) {
    c.state == IDLE && (
      || r == Received("")
      || r.RecvFailed?
      || (Dispatching(c.requestBuffer, r)
          && var request := ParseRequest(c.requestBuffer + r.bytes).value;
             handler(request, Get(request.headers, "Connection") == "keep-alive").Throws?))
  }

  /** Exactly these reads end a connection, and while a response is written no read does anything. */
  lemma ReadClosesExactly(k: Conn, r: RecvResult, now: int, handler: Handler)
    requires ClientInv(k.client) && k.open
    ensures !Step(k, Readable(r, now), handler).open <==> ReadCloses(k.client, r, handler)
    ensures k.client.state == WRITING_RESPONSE ==> Step(k, Readable(r, now), handler) == k
  {
    hide Complete, ParseRequest, Get, Responses.BadRequestPage;
  }

  /** What a read that does not end the connection leaves. */
  lemma ReadOutcome(k: Conn, r: RecvResult, now: int, handler: Handler)
    requires ClientInv(k.client) && k.open && k.client.state == IDLE && !ReadCloses(k.client, r, handler)
    ensures var next := Step(k, Readable(r, now), handler).client;
            if !r.Received? then next == k.client
            else
              var buffer := k.client.requestBuffer + r.bytes;
              if !Complete(buffer) then next == k.client.(requestBuffer := buffer, lastActivity := now)
              else if ParseRequest(buffer).None? then
                next == k.client.(requestBuffer := buffer, lastActivity := now, responseBuffer := Responses.BadRequestPage())
              else
                var request := ParseRequest(buffer).value;
                var keepAlive := Get(request.headers, "Connection") == "keep-alive";
                && handler(request, keepAlive) == Respond(next.reply)
                && next.state == WRITING_RESPONSE && next.keepAlive == keepAlive && next.requestBuffer == ""
                && next.responseBuffer == k.client.responseBuffer && next.bytesWritten == 0 && next.lastActivity == now
  {
    hide Complete, ParseRequest, Get, Responses.BadRequestPage;
  }

  /** The bytes of a rendered response, of which bytesWritten have left. */
  function Outgoing(c: Client): string
    requires c.reply.Rendered?
  {
    if c.responseBuffer == "" then c.reply.text else c.responseBuffer
  }

  /** The write takes the last byte of the response, or streams no further. */
  predicate WriteEnds(c: Client, s: SendResult, piece: SendResult) {
    c.state == WRITING_RESPONSE &&
    if c.reply.Rendered? then s.Accepted? && s.count > 0 && c.bytesWritten < |Outgoing(c)| <= c.bytesWritten + s.count
    else
      var st := c.reply.stream;
      || !st.active
      || (!st.headersSent && s.SendFailed?)
      || ((st.headersSent || s.Accepted?) && (st.offset == |st.file| || piece.SendFailed?))
  }

  /** A buffer's send fails, or the response ends on a connection that is not kept alive. */
  predicate WriteCloses(c: Client, s: SendResult, piece: SendResult) {
    || (c.state == WRITING_RESPONSE && c.reply.Rendered? && s.SendFailed?)
    || (WriteEnds(c, s, piece) && !c.keepAlive)
  }

  /** Exactly these writes end a connection; of the others, those that end the response make it IDLE. */
  lemma WriteClosesExactly(k: Conn, s: SendResult, piece: SendResult, now: int, handler: Handler)
    requires ClientInv(k.client) && k.open
    ensures var next := Step(k, Writable(s, piece, now), handler);
            && (!next.open <==> WriteCloses(k.client, s, piece))
            && (next.open && k.client.state == WRITING_RESPONSE ==>
                  && (next.client.state == IDLE <==> WriteEnds(k.client, s, piece))
                  && (next.client.state == IDLE ==> next.client.requestBuffer == next.client.responseBuffer == "")
                  && next.client.keepAlive == k.client.keepAlive)
            && (k.client.state == IDLE ==> next.client == k.client)
  {
    hide WriteChunk, Complete, ParseRequest;
    if k.client.state == WRITING_RESPONSE && k.client.reply.File? { EndsExactly(k.client.reply.stream, s, piece); }
  }

  /** The clock of an entry is that of its last received bytes, or of its last write under way. */
  lemma ClockExactly(k: Conn, e: Event, handler: Handler)
    requires ClientInv(k.client) && k.open && Step(k, e, handler).open
    ensures Step(k, e, handler).client.lastActivity ==
            if e.Readable? && k.client.state == IDLE && e.recv.Received? then e.rnow
            else if e.Writable? && k.client.state == WRITING_RESPONSE then e.wnow
            else k.client.lastActivity
  {
    hide WriteChunk, Complete, ParseRequest, Responses.BadRequestPage;
  }

  // ---- responses answer requests ----

  /** The replies the handler gives to a list of requests, in order. */
  function Answers(requests: seq<Parsed>, handler: Handler): seq<Reply> {
    if requests == [] then []
    else
      var last := requests[|requests| - 1];
      Answers(requests[..|requests| - 1], handler) + AnswerTo(last, handler)
  }

  function AnswerTo(request: Parsed, handler: Handler): seq<Reply> {
    var outcome := handler(request, WantsKeepAlive(request));
    if outcome.Respond? then [outcome.reply] else []
  }

  /** The reply that an ended response, or the one under way, gave. */
  function ReplyOf(e: Ended): Reply {
    match e
    case Whole(bytes) => Rendered(bytes)
    case Streamed(stream, _) => File(stream)
  }

  function Replies(es: seq<Ended>): seq<Reply> {
    if es == [] then [] else Replies(es[..|es| - 1]) + [ReplyOf(es[|es| - 1])]
  }

  lemma RepliesSnoc(es: seq<Ended>, e: Ended)
    ensures Replies(es + [e]) == Replies(es) + [ReplyOf(e)]
  {
    assert (es + [e])[..|es|] == es;
  }

  function Pending(k: Conn): seq<Reply> {
    if k.client.state != WRITING_RESPONSE then []
    else if k.client.reply.Rendered? then [k.client.reply]
    else [ReplyOf(k.log.current)]
  }

  /** As long as no request was rejected, buffers hold the current reply and nothing older. */
  predicate InOrder(k: Conn, handler: Handler) {
    k.log.rejected == 0 ==>
      && (k.client.state == IDLE ==> k.client.responseBuffer == "")
      && (k.client.state == WRITING_RESPONSE ==>
            k.client.responseBuffer == "" || k.client.reply == Rendered(k.client.responseBuffer))
      && Replies(k.log.ended) + Pending(k) == Answers(k.log.dispatched, handler)
  }

  /** A read that dispatches nothing. */
  lemma QuietReadInOrder(k: Conn, r: RecvResult, now: int, handler: Handler)
    requires ClientInv(k.client) && InOrder(k, handler) && !(k.open && Dispatches(k.client, r))
    ensures InOrder(Step(k, Readable(r, now), handler), handler)
  {
    hide Complete, Process, Replies, Answers, Calls, Bytes, WithResponse, Responses.BadRequestPage;
  }

  lemma DispatchInOrder(k: Conn, r: RecvResult, now: int, handler: Handler)
    requires ClientInv(k.client) && InOrder(k, handler) && k.open && Dispatches(k.client, r)
    ensures InOrder(Step(k, Readable(r, now), handler), handler)
  {
    hide Complete, ParseRequest, Replies, Calls, Bytes, WithResponse, Responses.BadRequestPage;
    var request := ParseRequest(k.client.requestBuffer + r.bytes);
    if request.Some? {
      var dispatched := k.log.dispatched + [request.value];
      assert dispatched[..|k.log.dispatched|] == k.log.dispatched;
      assert Replies(k.log.ended) + [] == Replies(k.log.ended);
    }
  }

  lemma ReadInOrder(k: Conn, r: RecvResult, now: int, handler: Handler)
    requires ClientInv(k.client) && InOrder(k, handler)
    ensures InOrder(Step(k, Readable(r, now), handler), handler)
  {
    hide InOrder, Step, Dispatches;
    if k.open && Dispatches(k.client, r) {
      DispatchInOrder(k, r, now, handler);
    } else {
      QuietReadInOrder(k, r, now, handler);
    }
  }

  lemma SendInOrder(k: Conn, s: SendResult, piece: SendResult, now: int, handler: Handler)
    requires ClientInv(k.client) && FileInFlight(k) && InOrder(k, handler)
    ensures InOrder(Step(k, Writable(s, piece, now), handler), handler)
  {
    hide Complete, ParseRequest, Replies, Answers, Calls, WriteChunk;
    RepliesSnoc(k.log.ended, Whole(WithResponse(k.client).responseBuffer));
    RepliesSnoc(k.log.ended, OneCallMore(k.log.current, s, piece));
    var next := Step(k, Writable(s, piece, now), handler);
    assert next.log.dispatched == k.log.dispatched;
    assert next.log.rejected == k.log.rejected;
    assert forall a: seq<Reply> :: a + [] == a;
  }

  /**
   * On a connection that never had a request rejected, the responses that ended are the handler's
   * replies to the dispatched requests, one each and in order, buffered or streamed; only the
   * last can still be under way.
   */
  lemma {:induction false} ResponsesAnswerRequests(events: seq<Event>, handler: Handler, now: int)
    ensures InOrder(Run(events, handler, now), handler)
  {
    hide InOrder, Conserved;
    if events != [] {
      var before, e := events[..|events| - 1], events[|events| - 1];
      ResponsesAnswerRequests(before, handler, now);
      WireConservation(before, handler, now);
      FileKnown(Run(before, handler, now));
      match e
      case Readable(r, rnow) => ReadInOrder(Run(before, handler, now), r, rnow, handler);
      case Writable(s, piece, wnow) => SendInOrder(Run(before, handler, now), s, piece, wnow, handler);
    } else {
      StartInOrder(handler, now);
    }
  }

  lemma FileKnown(k: Conn)
    requires Conserved(k)
    ensures FileInFlight(k)
  {
  }

  lemma StartInOrder(handler: Handler, now: int)
    ensures InOrder(Start(now), handler)
  {
    assert Replies([]) + [] == Answers([], handler);
  }
}
