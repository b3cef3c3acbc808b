/** A listening server and its client table (Server.cpp). */
module Servers {
  import opened Text
  import opened Headers
  import opened Requests
  import opened Sockets
  import opened Streaming
  import opened Connections
  import Responses

  const FD_SETSIZE := 1024
  const MAX_CLIENTS := FD_SETSIZE - 10
  const CLIENT_TIMEOUT := 60
  const KEEP_ALIVE_TIMEOUT := 60
  const CHUNK_BUFFER_SIZE := 655360

  type Table = map<int, Client>

  /** What the kernel answers during one round of the event loop. */
  datatype Round = Round(accept: int -> int, recv: int -> RecvResult, send: int -> SendResult, piece: int -> SendResult, now: int)

  predicate Fits(c: Client) {
    |c.requestBuffer| <= STRING_MAX
  }

  /** A read brings at most what the receive buffer and the request string can hold. */
  function Limit(c: Client, r: RecvResult): (limited: RecvResult)
    requires Fits(c)
    ensures limited.Received? ==> |limited.bytes| <= CHUNK_BUFFER_SIZE
                                  && |c.requestBuffer| + |limited.bytes| <= STRING_MAX
  {
    if !r.Received? then r
    else
      var room := if STRING_MAX - |c.requestBuffer| < CHUNK_BUFFER_SIZE then STRING_MAX - |c.requestBuffer| else CHUNK_BUFFER_SIZE;
      if |r.bytes| <= room then r else Received(r.bytes[..room])
  }

  /** What fits is read whole. */
  lemma LimitExactly(c: Client, r: RecvResult)
    requires Fits(c)
    ensures !r.Received? || (|r.bytes| <= 655360 && |c.requestBuffer| + |r.bytes| <= STRING_MAX) ==> Limit(c, r) == r
    ensures r.Received? ==> Limit(c, r).Received? && Limit(c, r).bytes <= r.bytes
  {
  }

  predicate Idle(c: Client, now: int) {
    now - c.lastActivity > CLIENT_TIMEOUT
  }

  predicate Expired(c: Client, now: int) {
    Idle(c, now) || (c.state == WRITING_RESPONSE && now - c.lastActivity > KEEP_ALIVE_TIMEOUT)
  }

  function Members(fds: seq<int>): set<int> { set fd | fd in fds }

  lemma NoMembers(t: Table)
    ensures t - Members([]) == t
  {
  }

  lemma MinusOneMore(t: Table, fds: seq<int>, fd: int)
    ensures t - Members(fds) - {fd} == t - Members(fds + [fd])
  {
    MembersSnoc(fds, fd);
  }

  lemma MembersSnoc(fds: seq<int>, fd: int)
    ensures Members(fds + [fd]) == Members(fds) + {fd}
  {
  }

  function IdleFds(t: Table, now: int): set<int> { set fd | fd in t && Idle(t[fd], now) }

  function ExpiredFds(t: Table, now: int): set<int> { set fd | fd in t && Expired(t[fd], now) }

  function Put(t: Table, fd: int, c: Option<Client>): Table {
    if c.Some? then t[fd := c.value] else t - {fd}
  }

  /** What handleNewConnection does to a table: a full one drops its idle clients instead. */
  function AfterAccept(t: Table, accepted: int, now: int): Table {
    if |t| >= MAX_CLIENTS then t - IdleFds(t, now)
    else if accepted < 0 then t
    else t[accepted := NewClient(now)]
  }

  /** What operator[] finds: a new entry when there is none. */
  function ClientAt(t: Table, fd: int, now: int): Client {
    if fd in t then t[fd] else NewClient(now)
  }

  /** What one round does to one client that has not expired: a read, then a write. */
  function Handled(c: Client, fd: int, readable: set<int>, writable: set<int>, round: Round, handler: Handler): (r: Option<Client>)
    requires ClientInv(c) && Fits(c)
    ensures r.Some? ==> ClientInv(r.value) && Fits(r.value)
  {
    hide Complete, ParseRequest;
    var read := if fd in readable then AfterRecv(c, Limit(c, round.recv(fd)), handler, round.now) else Some(c);
    RecvKeepsInv(c, Limit(c, round.recv(fd)), handler, round.now);
    if read.None? then None
    else if fd in writable then
      SendKeepsInv(read.value, round.send(fd), round.piece(fd), round.now);
      AfterSend(read.value, round.send(fd), round.piece(fd), round.now)
    else read
  }

  /** The events one round of the loop is for a client of the connection machine. */
  function RoundEvents(c: Client, fd: int, readable: set<int>, writable: set<int>, round: Round): seq<Event>
    requires Fits(c)
  {
    (if fd in readable then [Readable(Limit(c, round.recv(fd)), round.now)] else [])
    + (if fd in writable then [Writable(round.send(fd), round.piece(fd), round.now)] else [])
  }

  function Steps(k: Conn, events: seq<Event>, handler: Handler): Conn
    requires ClientInv(k.client)
    decreases |events|
  {
    if events == [] then k
    else
      StepKeepsClientInv(k, events[0], handler);
      Steps(Step(k, events[0], handler), events[1..], handler)
  }

  /** A round of the loop is steps of the connection machine. */
  lemma HandledIsSteps(c: Client, log: Log, fd: int, readable: set<int>, writable: set<int>, round: Round, handler: Handler)
    requires ClientInv(c) && Fits(c)
    ensures var k := Steps(Conn(c, true, log), RoundEvents(c, fd, readable, writable, round), handler);
            var next := Handled(c, fd, readable, writable, round, handler);
            next == if k.open then Some(k.client) else None
  {
    hide Complete, ParseRequest, AfterRecv, AfterSend, LogRecv, LogSend, LastOfSend, WriteChunk;
    var events, k := RoundEvents(c, fd, readable, writable, round), Conn(c, true, log);
    RecvKeepsInv(c, Limit(c, round.recv(fd)), handler, round.now);
    if |events| > 0 {
      StepKeepsClientInv(k, events[0], handler);
      var k1 := Step(k, events[0], handler);
      assert Steps(k, events, handler) == Steps(k1, events[1..], handler);
      if |events| > 1 {
        assert events[1..][0] == events[1] && events[1..][1..] == [];
        assert Steps(k1, events[1..], handler) == Step(k1, events[1], handler);
      }
    }
  }

  lemma {:induction false} StepsExtendRun(events: seq<Event>, more: seq<Event>, handler: Handler, now: int)
    ensures Steps(Run(events, handler, now), more, handler) == Run(events + more, handler, now)
    decreases |more|
  {
    hide Step, ClientInv;
    if more == [] {
      assert events + more == events;
    } else {
      assert (events + [more[0]])[..|events|] == events;
      assert (events + [more[0]]) + more[1..] == events + more;
      StepsExtendRun(events + [more[0]], more[1..], handler, now);
    }
  }

  /** A client that some sequence of events brings about on a connection of its own. */
  ghost predicate Reached(c: Client, handler: Handler) {
    exists events, now :: ReachedBy(events, now, c, handler)
  }

  predicate ReachedBy(events: seq<Event>, now: int, c: Client, handler: Handler) {
    Run(events, handler, now).open && Run(events, handler, now).client == c
  }

  /** What holds of every run of the connection machine holds of such a table's entries. */
  ghost predicate AllReached(t: Table, handler: Handler) {
    forall fd :: fd in t ==> Reached(t[fd], handler)
  }

  lemma NewReached(now: int, handler: Handler)
    ensures Reached(NewClient(now), handler)
  {
    assert ReachedBy([], now, NewClient(now), handler);
  }

  lemma HandledReached(c: Client, fd: int, readable: set<int>, writable: set<int>, round: Round, handler: Handler)
    requires ClientInv(c) && Fits(c) && Reached(c, handler)
    ensures var next := Handled(c, fd, readable, writable, round, handler);
            next.Some? ==> Reached(next.value, handler)
  {
    hide ClientInv, Fits, Handled, Run, Steps, RoundEvents;
    var events, now :| ReachedBy(events, now, c, handler);
    var k, more := Run(events, handler, now), RoundEvents(c, fd, readable, writable, round);
    HandledIsSteps(c, k.log, fd, readable, writable, round, handler);
    StepsExtendRun(events, more, handler, now);
    var next := Handled(c, fd, readable, writable, round, handler);
    assert next.Some? ==> ReachedBy(events + more, now, next.value, handler);
  }

  /** So every round keeps every table entry a state of the connection machine. */
  lemma RoundReached(before: Table, after: Table, knocked: bool, accepted: int, readable: set<int>, writable: set<int>,
                     round: Round, handler: Handler)
    requires RoundServed(before, after, knocked, accepted, readable, writable, round, handler) && AllReached(before, handler)
    ensures AllReached(after, handler)
  {
    hide ClientInv, Fits, Handled, Reached, Expired, Idle;
    NewReached(round.now, handler);
    var table := if knocked then AfterAccept(before, accepted, round.now) else before;
    forall fd | fd in after ensures Reached(after[fd], handler) {
      assert fd in table && Reached(table[fd], handler);
      HandledReached(table[fd], fd, readable, writable, round, handler);
    }
  }

  /** A whole table after a round: expired clients are gone, the others are handled. */
  ghost predicate ServedTable(before: Table, after: Table, readable: set<int>, writable: set<int>, round: Round, handler: Handler)
    requires TableOk(before)
  {
    && (forall fd :: fd in after ==> fd in before)
    && (forall fd :: fd in before ==>
          IsServed(after, fd, if Expired(before[fd], round.now) then None
                              else Handled(before[fd], fd, readable, writable, round, handler)))
  }

  /** A whole round for one server: perhaps an accept, then everything the clients are due. */
  ghost predicate RoundServed(before: Table, after: Table, knocked: bool, accepted: int, readable: set<int>, writable: set<int>,
                              round: Round, handler: Handler)
  {
    var table := if knocked then AfterAccept(before, accepted, round.now) else before;
    TableOk(table) && ServedTable(table, after, readable, writable, round, handler)
  }

  // ---- which entries a round removes, and which it adds ----

  /** A client that select did not report for writing stays unless it was quiet for a minute or its read ends it. */
  lemma ReaderStaysExactly(before: Table, after: Table, fd: int, readable: set<int>, writable: set<int>, round: Round, handler: Handler)
    requires TableOk(before) && ServedTable(before, after, readable, writable, round, handler)
    requires fd in before && fd !in writable
    ensures fd in after <==>
            && round.now - before[fd].lastActivity <= 60
            && !(fd in readable && ReadCloses(before[fd], Limit(before[fd], round.recv(fd)), handler))
  {
    hide ReadCloses, Complete, ParseRequest, AfterRecv, ClientInv, Fits, Limit;
    assert ClientInv(before[fd]) && Fits(before[fd]);
    var c, r := before[fd], Limit(before[fd], round.recv(fd));
    if fd in readable {
      ReadClosesExactly(Conn(c, true, EmptyLog()), r, round.now, handler);
    }
  }

  /** A client with a response under way stays unless it was quiet for a minute or its write ends it. */
  lemma WriterStaysExactly(before: Table, after: Table, fd: int, readable: set<int>, writable: set<int>, round: Round, handler: Handler)
    requires TableOk(before) && ServedTable(before, after, readable, writable, round, handler)
    requires fd in before && before[fd].state == WRITING_RESPONSE
    ensures fd in after <==>
            && round.now - before[fd].lastActivity <= 60
            && !(fd in writable && WriteCloses(before[fd], round.send(fd), round.piece(fd)))
  {
    hide WriteCloses, Complete, ParseRequest, AfterSend, ClientInv, Fits, Limit, WriteChunk;
    assert ClientInv(before[fd]) && Fits(before[fd]);
    var c, k := before[fd], Conn(before[fd], true, EmptyLog());
    WriteClosesExactly(k, round.send(fd), round.piece(fd), round.now, handler);
    ReadClosesExactly(k, Limit(c, round.recv(fd)), round.now, handler);
  }

  /** A peer that closed is gone after the round in which select reports it. */
  lemma ClosedPeerGone(before: Table, after: Table, fd: int, readable: set<int>, writable: set<int>, round: Round, handler: Handler)
    requires TableOk(before) && ServedTable(before, after, readable, writable, round, handler)
    requires fd in before && before[fd].state == IDLE && fd in readable && fd !in writable
    requires round.recv(fd) == Received("") || round.recv(fd).RecvFailed?
    ensures fd !in after
  {
    hide ServedTable, Complete, ParseRequest, ClientInv, Fits;
    assert ClientInv(before[fd]) && Fits(before[fd]);
    ReaderStaysExactly(before, after, fd, readable, writable, round, handler);
  }

  /** An accepted connection is a new, empty, idle client; a full table sheds those quiet for a minute instead. */
  lemma AcceptExactly(t: Table, accepted: int, now: int)
    ensures var after := AfterAccept(t, accepted, now);
            if |t| >= 1014 then
              forall fd :: (fd in after <==> fd in t && now - t[fd].lastActivity <= 60) && (fd in after ==> after[fd] == t[fd])
            else
              && (forall fd :: fd in after <==> fd in t || (fd == accepted && accepted >= 0))
              && (forall fd :: fd in t && fd != accepted ==> after[fd] == t[fd])
              && (accepted >= 0 ==>
                    var c := after[accepted];
                    && c.state == IDLE && c.requestBuffer == c.responseBuffer == "" && c.bytesWritten == 0
                    && c.keepAlive && c.lastActivity == now)
  {
  }

  /** Closing the expired clients and then serving the rest is serving the table. */
  lemma ServedInTwoLoops(before: Table, open: Table, after: Table, readable: set<int>, writable: set<int>, round: Round, handler: Handler)
    requires TableOk(before) && TableOk(open) && open == before - ExpiredFds(before, round.now)
    requires after.Keys <= open.Keys
    requires forall fd :: fd in open ==> IsServed(after, fd, Handled(open[fd], fd, readable, writable, round, handler))
    ensures ServedTable(before, after, readable, writable, round, handler) && after.Keys <= before.Keys
  {
    hide ClientInv, Fits, Handled, IsServed, Expired;
    assert forall fd :: fd in open <==> fd in before && fd !in ExpiredFds(before, round.now);
    forall fd | fd in before
      ensures IsServed(after, fd, if Expired(before[fd], round.now) then None
                                  else Handled(before[fd], fd, readable, writable, round, handler))
    {
      if Expired(before[fd], round.now) {
        NotServed(after, fd);
      } else {
        assert fd in open && open[fd] == before[fd];
      }
    }
  }

  lemma NotServed(t: Table, fd: int)
    requires fd !in t
    ensures IsServed(t, fd, None)
  {
  }

  predicate IsServed(t: Table, fd: int, c: Option<Client>) {
    if c.Some? then fd in t && t[fd] == c.value else fd !in t
  }

  predicate TableOk(t: Table) {
    forall fd :: fd in t ==> fd >= 0 && ClientInv(t[fd]) && Fits(t[fd])
  }

  lemma RecvKeepsInv(c: Client, r: RecvResult, handler: Handler, now: int)
    requires ClientInv(c) && Fits(c) && (r.Received? ==> |c.requestBuffer| + |r.bytes| <= STRING_MAX)
    ensures var next := AfterRecv(c, r, handler, now);
            next.Some? ==> ClientInv(next.value) && Fits(next.value)
  {
    hide Complete, ParseRequest;
  }

  lemma SendKeepsInv(c: Client, s: SendResult, piece: SendResult, now: int)
    requires ClientInv(c) && Fits(c)
    ensures var next := AfterSend(c, s, piece, now);
            next.Some? ==> ClientInv(next.value) && Fits(next.value)
  {
  }

  /** The largest descriptor select has to look at for a server. */
  predicate IsMaxFd(m: int, socket: int, t: Table) {
    && socket <= m && (m == socket || (m in t && m < FD_SETSIZE))
    && forall fd :: fd in t && 0 <= fd < FD_SETSIZE ==> fd <= m
  }

  class Server {
    const handler: Handler
    var serverSocket: int
    var maxFd: int
    var clients: Table

    constructor (handler: Handler)
      ensures this.handler == handler && serverSocket == -1 && maxFd == 0 && clients == map[]
    {
      this.handler := handler;
      serverSocket, maxFd, clients := -1, 0, map[];
    }

    predicate Valid()
      reads this
    {
      && TableOk(clients)
      && 0 <= serverSocket < FD_SETSIZE
      && |clients| <= MAX_CLIENTS
      && IsMaxFd(maxFd, serverSocket, clients)
    }

    /** The descriptors this server has select watch for reading. */
    function Watched(): set<int>
      reads this
    {
      (if serverSocket >= 0 then {serverSocket} else {}) + (set fd | fd in clients && 0 <= fd < FD_SETSIZE)
    }

    /** Those with a response to write. */
    function Writing(): set<int>
      reads this
    {
      set fd | fd in clients && 0 <= fd < FD_SETSIZE && clients[fd].state == WRITING_RESPONSE
    }

    /** Listening on a socket, with no clients yet. */
    predicate Opened(socket: int)
      reads this
    {
      Valid() && clients == map[] && serverSocket == socket
    }

    /** initialize: socket, bind and listen succeeded with this descriptor. */
    method Initialize(socket: int)
      requires 0 <= socket < FD_SETSIZE && clients == map[]
      modifies this
      ensures Opened(socket)
    {
      serverSocket := socket;
      UpdateMaxFileDescriptor();
    }

    method UpdateMaxFileDescriptor()
      modifies `maxFd
      ensures IsMaxFd(maxFd, serverSocket, clients)
    {
      maxFd := serverSocket;
      var rest := clients.Keys;
      while rest != {}
        invariant rest <= clients.Keys
        invariant serverSocket <= maxFd && (maxFd == serverSocket || (maxFd in clients && maxFd < FD_SETSIZE))
        invariant forall fd :: fd in clients && fd !in rest && 0 <= fd < FD_SETSIZE ==> fd <= maxFd
        decreases |rest|
      {
        SomeMember(rest);
        var fd :| fd in rest;
        rest := rest - {fd};
        if 0 <= fd < FD_SETSIZE && fd > maxFd { maxFd := fd; }
      }
    }

    method CloseConnection(fd: int)
      modifies `clients, `maxFd
      ensures clients == if fd < 0 then old(clients) else old(clients) - {fd}
      ensures fd >= 0 ==> IsMaxFd(maxFd, serverSocket, clients)
      ensures fd < 0 ==> maxFd == old(maxFd)
    {
      if fd < 0 { return; }
      if fd in clients {
        clients := clients[fd := clients[fd].Clear()];
        clients := clients - {fd};
      }
      UpdateMaxFileDescriptor();
    }

    /** Accepts one connection, or turns it away when the table is full. */
    method HandleNewConnection(accepted: int, now: int)
      requires Valid()
      modifies `clients, `maxFd
      ensures Valid()
      ensures clients == AfterAccept(old(clients), accepted, now)
    {
      if |clients| >= MAX_CLIENTS {
        CheckIdleConnections(now);
        return;
      }
      if accepted < 0 { return; }
      assert clients[accepted := NewClient(now)].Keys == clients.Keys + {accepted};
      clients := clients[accepted := NewClient(now)];
      UpdateMaxFileDescriptor();
    }

    method CheckIdleConnections(now: int)
      requires Valid()
      modifies `clients, `maxFd
      ensures Valid()
      ensures clients == old(clients) - IdleFds(old(clients), now)
    {
      hide ClientInv, Fits, IsMaxFd;
      var idleConnections: seq<int> := [];
      var rest := clients.Keys;
      while rest != {}
        invariant rest <= clients.Keys
        invariant clients == old(clients) && Valid()
        invariant forall i :: 0 <= i < |idleConnections| ==> idleConnections[i] >= 0
        invariant Members(idleConnections) == IdleFds(clients, now) - rest
        decreases |rest|
      {
        SomeMember(rest);
        var fd :| fd in rest;
        rest := rest - {fd};
        if Idle(clients[fd], now) {
          MembersSnoc(idleConnections, fd);
          idleConnections := idleConnections + [fd];
        }
      }
      assert Members(idleConnections) == IdleFds(clients, now);
      CloseAll(idleConnections);
    }

    method CloseAll(fds: seq<int>)
      requires Valid() && forall i :: 0 <= i < |fds| ==> fds[i] >= 0
      modifies `clients, `maxFd
      ensures Valid()
      ensures clients == old(clients) - Members(fds)
    {
      CloseEach(fds);
      SmallerTable(old(clients), clients);
    }

    method CloseEach(fds: seq<int>)
      requires forall i :: 0 <= i < |fds| ==> fds[i] >= 0
      requires IsMaxFd(maxFd, serverSocket, clients)
      modifies `clients, `maxFd
      ensures clients == old(clients) - Members(fds) && IsMaxFd(maxFd, serverSocket, clients)
    {
      hide ClientInv, Fits, IsMaxFd, Members;
      NoMembers(clients);
      var i := 0;
      assert fds[..0] == [];
      while i < |fds|
        invariant 0 <= i <= |fds|
        invariant IsMaxFd(maxFd, serverSocket, clients)
        invariant clients == old(clients) - Members(fds[..i])
      {
        MinusOneMore(old(clients), fds[..i], fds[i]);
        assert fds[..i + 1] == fds[..i] + [fds[i]];
        CloseConnection(fds[i]);
        i := i + 1;
      }
      assert fds[..i] == fds;
    }

    /** handleClientData: one recv, and what follows when the request is complete. */
    method HandleClientData(fd: int, r: RecvResult, now: int)
      requires r.Received? ==> |r.bytes| <= CHUNK_BUFFER_SIZE
                               && |ClientAt(clients, fd, now).requestBuffer| + |r.bytes| <= STRING_MAX
      modifies `clients, `maxFd
      ensures fd >= 0 ==> clients == Put(old(clients), fd, AfterRecv(ClientAt(old(clients), fd, now), r, handler, now))
      ensures fd >= 0 && old(ClientAt(clients, fd, now)).state == IDLE && (r == Received("") || r.RecvFailed?) ==> fd !in clients
      ensures old(fd in clients && fd >= 0 && IsMaxFd(maxFd, serverSocket, clients)) ==>
                IsMaxFd(maxFd, serverSocket, clients)
    {
      hide Complete, Process, ClientInv;
      if fd !in clients { clients := clients[fd := NewClient(now)]; }
      var client := clients[fd];
      if client.state == WRITING_RESPONSE { return; }
      match r {
        case Received(bytes) =>
          if |bytes| > 0 {
            client := client.(requestBuffer := client.requestBuffer + bytes, lastActivity := now);
            clients := clients[fd := client];
            var complete := RequestComplete(client.requestBuffer);
            if complete { ProcessCompleteRequests(fd, now); }
          } else {
            CloseConnection(fd);
          }
        case RecvWouldBlock =>
        case RecvFailed =>
          CloseConnection(fd);
      }
    }

    /** The tests of handleClientData for the three ways a request can be complete. */
    method RequestComplete(buffer: string) returns (complete: bool)
      ensures complete == Complete(buffer)
    {
      hide Find, Entries, Store, Contains, Atoi;
      var headerEnd := Find(buffer, BLANK_LINE, 0);
      if headerEnd == -1 { return false; }
      var tempRequest := new Request();
      var parsed := tempRequest.ParseHeaders(buffer[..headerEnd]);
      if !parsed { return false; }
      var contentLength := Get(tempRequest.headers, "Content-Length");
      var isChunked := Get(tempRequest.headers, "Transfer-Encoding") == "chunked";
      Found(buffer, CHUNK_END);
      if !isChunked && contentLength == "" { return true; }
      if contentLength != "" {
        var expectedEnd := (headerEnd + 4 + Atoi(contentLength)) % TWO_64;
        if |buffer| >= expectedEnd { return true; }
      }
      if isChunked && Find(buffer, CHUNK_END, 0) != -1 { return true; }
      return false;
    }

    /** processCompleteRequests: parse, hand over, and switch to writing. */
    method ProcessCompleteRequests(fd: int, now: int)
      requires fd in clients && |clients[fd].requestBuffer| <= STRING_MAX
      modifies `clients, `maxFd
      ensures fd >= 0 ==> clients == Put(old(clients), fd, Process(old(clients)[fd], handler, now))
      ensures old(fd >= 0 && IsMaxFd(maxFd, serverSocket, clients)) ==> IsMaxFd(maxFd, serverSocket, clients)
    {
      hide ParseRequest, Responses.BadRequestPage;
      var client := clients[fd];
      var request := new Request();
      var ok := request.Parse(client.requestBuffer);
      if !ok {
        SendBadRequestResponse(fd);
        return;
      }
      var keepAlive := Get(request.headers, "Connection") == "keep-alive";
      client := client.(keepAlive := keepAlive, requestBuffer := "");
      match handler(request.View(), keepAlive) {
        case Throws =>
          CloseConnection(fd);
        case Respond(reply) =>
          client := client.(reply := reply, state := WRITING_RESPONSE, bytesWritten := 0, lastActivity := now);
          clients := clients[fd := client];
      }
    }

    method SendBadRequestResponse(fd: int)
      requires fd in clients
      modifies `clients
      ensures clients == old(clients)[fd := old(clients)[fd].(responseBuffer := Responses.BadRequestPage())]
    {
      clients := clients[fd := clients[fd].(responseBuffer := Responses.BadRequestPage())];
    }

    /** handleClientWrite: one send, or one piece of a streamed file. */
    method HandleClientWrite(fd: int, s: SendResult, piece: SendResult, now: int)
      requires ClientInv(ClientAt(clients, fd, now))
      modifies `clients, `maxFd
      ensures fd >= 0 ==> clients == Put(old(clients), fd, AfterSend(ClientAt(old(clients), fd, now), s, piece, now))
      ensures old(fd in clients && fd >= 0 && IsMaxFd(maxFd, serverSocket, clients)) ==>
                IsMaxFd(maxFd, serverSocket, clients)
    {
      if fd !in clients { clients := clients[fd := NewClient(now)]; }
      var client := clients[fd];
      if client.state != WRITING_RESPONSE { return; }
      if client.reply.File? { WriteFile(fd, s, piece, now); } else { WriteBuffer(fd, s, now); }
    }

    /** The branch for a streamed file. */
    method WriteFile(fd: int, s: SendResult, piece: SendResult, now: int)
      requires fd in clients && clients[fd].state == WRITING_RESPONSE && clients[fd].reply.File? && ClientInv(clients[fd])
      modifies `clients, `maxFd
      ensures fd >= 0 ==> clients == Put(old(clients), fd, AfterSend(old(clients)[fd], s, piece, now))
      ensures old(fd >= 0 && IsMaxFd(maxFd, serverSocket, clients)) ==> IsMaxFd(maxFd, serverSocket, clients)
    {
      hide WriteChunk, Finish;
      var client := clients[fd];
      var r := WriteChunk(client.reply.stream, s, piece);
      if r.more {
        client := client.(reply := File(r.next), lastActivity := now);
        clients := clients[fd := client];
      } else {
        FinishResponse(fd, now);
      }
    }

    /** The branch for a rendered response. */
    method WriteBuffer(fd: int, s: SendResult, now: int)
      requires fd in clients && clients[fd].state == WRITING_RESPONSE && clients[fd].reply.Rendered? && ClientInv(clients[fd])
      modifies `clients, `maxFd
      ensures fd >= 0 ==> forall piece :: clients == Put(old(clients), fd, AfterSend(old(clients)[fd], s, piece, now))
      ensures old(fd >= 0 && IsMaxFd(maxFd, serverSocket, clients)) ==> IsMaxFd(maxFd, serverSocket, clients)
    {
      hide WriteChunk;
      var client := clients[fd];
      if client.responseBuffer == "" {
        client := client.(responseBuffer := client.reply.text);
      }
      clients := clients[fd := client];
      var sent := Take(s, |client.responseBuffer| - client.bytesWritten);
      if s.Accepted? && sent > 0 {
        client := client.(bytesWritten := client.bytesWritten + sent);
        clients := clients[fd := client];
        if client.bytesWritten >= |client.responseBuffer| {
          FinishResponse(fd, now);
          return;
        }
      } else if s.SendFailed? {
        CloseConnection(fd);
        return;
      }
      clients := clients[fd := client.(lastActivity := now)];
    }

    method FinishResponse(fd: int, now: int)
      requires fd in clients
      modifies `clients, `maxFd
      ensures fd >= 0 ==> clients == Put(old(clients), fd, Finish(old(clients)[fd], now))
      ensures old(fd >= 0 && IsMaxFd(maxFd, serverSocket, clients)) ==> IsMaxFd(maxFd, serverSocket, clients)
    {
      var client := clients[fd].Clear();
      clients := clients[fd := client];
      if !client.keepAlive {
        CloseConnection(fd);
      } else {
        clients := clients[fd := client.(lastActivity := now)];
      }
    }

    /** handleExistingConnections: drop expired clients, then serve the others. */
    method HandleExistingConnections(readable: set<int>, writable: set<int>, round: Round)
      requires Valid()
      modifies `clients, `maxFd
      ensures Valid()
      ensures ServedTable(old(clients), clients, readable, writable, round, handler)
      ensures clients.Keys <= old(clients).Keys
    {
      hide ClientInv, Fits, Handled, IsMaxFd, ServedTable, IsServed;
      ghost var before := clients;
      CloseExpired(round.now);
      ghost var open := clients;
      ServeActive(readable, writable, round);
      ServedInTwoLoops(before, open, clients, readable, writable, round, handler);
      UpdateMaxFileDescriptor();
    }

    /** The first loop: who expired, and then their closing. */
    method CloseExpired(now: int)
      requires Valid()
      modifies `clients, `maxFd
      ensures Valid()
      ensures clients == old(clients) - ExpiredFds(old(clients), now)
    {
      hide ClientInv, Fits, IsMaxFd;
      var toClose: seq<int> := [];
      var rest := clients.Keys;
      while rest != {}
        invariant rest <= clients.Keys
        invariant clients == old(clients) && Valid()
        invariant forall i :: 0 <= i < |toClose| ==> toClose[i] >= 0
        invariant Members(toClose) == ExpiredFds(clients, now) - rest
        decreases |rest|
      {
        SomeMember(rest);
        var fd :| fd in rest;
        rest := rest - {fd};
        if Expired(clients[fd], now) {
          MembersSnoc(toClose, fd);
          toClose := toClose + [fd];
        }
      }
      assert Members(toClose) == ExpiredFds(clients, now);
      CloseAll(toClose);
    }

    /** The second loop: every client of the snapshot that is still there is served, in any order. */
    method ServeActive(readable: set<int>, writable: set<int>, round: Round)
      requires Valid()
      modifies `clients, `maxFd
      ensures Valid() && clients.Keys <= old(clients).Keys
      ensures forall fd :: fd in old(clients) ==>
                IsServed(clients, fd, Handled(old(clients)[fd], fd, readable, writable, round, handler))
    {
      hide ClientInv, Fits, Handled, IsMaxFd;
      var activeClients := clients.Keys;
      while activeClients != {}
        invariant activeClients <= clients.Keys <= old(clients).Keys
        invariant Valid()
        invariant forall fd :: fd in activeClients ==> clients[fd] == old(clients)[fd]
        invariant forall fd :: fd in old(clients) && fd !in activeClients ==>
                    IsServed(clients, fd, Handled(old(clients)[fd], fd, readable, writable, round, handler))
        decreases |activeClients|
      {
        SomeMember(activeClients);
        var fd :| fd in activeClients;
        activeClients := activeClients - {fd};
        ghost var before := clients;
        ServeClient(fd, readable, writable, round);
        SmallerTable(before, clients);
      }
    }

    /** The body of the second loop of handleExistingConnections. */
    method ServeClient(fd: int, readable: set<int>, writable: set<int>, round: Round)
      requires Valid() && fd in clients
      modifies `clients, `maxFd
      ensures clients == Put(old(clients), fd, Handled(old(clients)[fd], fd, readable, writable, round, handler))
      ensures clients.Keys <= old(clients).Keys
      ensures TableOk(clients) && IsMaxFd(maxFd, serverSocket, clients)
    {
      hide AfterRecv, AfterSend, WriteChunk;
      RecvKeepsInv(clients[fd], Limit(clients[fd], round.recv(fd)), handler, round.now);
      if fd in readable {
        HandleClientData(fd, Limit(clients[fd], round.recv(fd)), round.now);
      }
      if fd in clients && fd in writable {
        HandleClientWrite(fd, round.send(fd), round.piece(fd), round.now);
      }
    }
  }

  lemma Found(s: string, p: string)
    ensures Contains(s, p) <==> Find(s, p, 0) != -1
  {
  }

  lemma SomeMember(a: set<int>)
    requires a != {}
    ensures exists x :: x in a
  {
    if forall x :: x !in a { assert false; }
  }

  lemma SmallerTable(before: Table, after: Table)
    requires after.Keys <= before.Keys
    ensures |after| <= |before|
  {
    assert |after.Keys| <= |before.Keys| by { SubsetSize(after.Keys, before.Keys); }
  }

  lemma {:induction false} SubsetSize(a: set<int>, b: set<int>)
    requires a <= b
    ensures |a| <= |b|
  {
    if a != {} {
      SomeMember(a);
      var x :| x in a;
      SubsetSize(a - {x}, b - {x});
    }
  }
}
