/** The select loop over all servers (ServerGroup.cpp). */
module ServerGroups {
  import opened Text
  import opened Connections
  import opened Servers

  /** What one call of select, and the round after it, can be. */
  datatype Selected = Interrupted | SelectFailed | TimedOut | Ready(readable: set<int>, writable: set<int>, round: Round)

  /** Every listener, and every client select can handle. */
  ghost function WatchedBy(servers: seq<Server>): set<int>
    reads servers
  {
    if servers == [] then {} else WatchedBy(servers[..|servers| - 1]) + servers[|servers| - 1].Watched()
  }

  /** Every client with a response under way. */
  ghost function WritingBy(servers: seq<Server>): set<int>
    reads servers
  {
    if servers == [] then {} else WritingBy(servers[..|servers| - 1]) + servers[|servers| - 1].Writing()
  }

  lemma ServerBelow(server: Server, bound: int)
    requires server.Valid() && server.maxFd <= bound
    ensures forall fd :: fd in server.Watched() || fd in server.Writing() ==> fd <= bound
  {
    hide TableOk;
  }

  lemma {:induction false} WatchedBelow(servers: seq<Server>, bound: int)
    requires forall i :: 0 <= i < |servers| ==> servers[i].Valid() && servers[i].maxFd <= bound
    ensures forall fd :: fd in WatchedBy(servers) || fd in WritingBy(servers) ==> fd <= bound
  {
    hide TableOk, IsMaxFd;
    if servers != [] {
      var last, front := servers[|servers| - 1], servers[..|servers| - 1];
      ServerBelow(last, bound);
      WatchedBelow(front, bound);
      forall fd | fd in WatchedBy(servers) || fd in WritingBy(servers) ensures fd <= bound {
        assert fd in WatchedBy(front) || fd in WritingBy(front) || fd in last.Watched() || fd in last.Writing();
      }
    }
  }

  lemma {:induction false} WatchedIn(servers: seq<Server>, i: nat)
    requires i < |servers|
    ensures servers[i].Watched() <= WatchedBy(servers)
  {
    if i < |servers| - 1 { WatchedIn(servers[..|servers| - 1], i); }
  }

  lemma {:induction false} AllNatural(servers: seq<Server>)
    requires forall i :: 0 <= i < |servers| ==> servers[i].Valid()
    ensures forall fd :: fd in WatchedBy(servers) ==> fd >= 0
  {
    hide TableOk, IsMaxFd;
    if servers != [] { AllNatural(servers[..|servers| - 1]); }
  }

  /** A listener, or a client that select can handle. */
  ghost predicate Listens(server: Server, fd: int)
    reads server
  {
    (fd == server.serverSocket && fd >= 0) || (fd in server.clients && 0 <= fd < 1024)
  }

  /** A client with a response under way. */
  ghost predicate Writes(server: Server, fd: int)
    reads server
  {
    fd in server.clients && 0 <= fd < 1024 && server.clients[fd].state == WRITING_RESPONSE
  }

  /** The two sets, descriptor by descriptor. */
  lemma {:induction false} WatchedExactly(servers: seq<Server>, fd: int)
    ensures fd in WatchedBy(servers) <==> exists i :: 0 <= i < |servers| && Listens(servers[i], fd)
    ensures fd in WritingBy(servers) <==> exists i :: 0 <= i < |servers| && Writes(servers[i], fd)
  {
    if servers != [] {
      var n := |servers| - 1;
      WatchedExactly(servers[..n], fd);
      assert fd in servers[n].Watched() <==> Listens(servers[n], fd);
      assert fd in servers[n].Writing() <==> Writes(servers[n], fd);
      assert forall i :: 0 <= i < n ==> servers[..n][i] == servers[i];
    }
  }

  lemma NoServers(servers: seq<Server>)
    ensures WatchedBy(servers[..0]) == {} && WritingBy(servers[..0]) == {}
  {
  }

  lemma {:induction false} FreshServers(servers: seq<Server>, sockets: seq<int>)
    requires |sockets| == |servers|
    requires forall j :: 0 <= j < |servers| ==>
               servers[j].clients == map[] && servers[j].serverSocket == sockets[j] >= 0
    ensures WatchedBy(servers) == Members(sockets) && WritingBy(servers) == {}
  {
    if servers != [] {
      var n := |servers| - 1;
      FreshServers(servers[..n], sockets[..n]);
      assert sockets == sockets[..n] + [sockets[n]];
    }
  }

  lemma NobodyYet(sockets: seq<int>)
    ensures Members(sockets[..0]) == {}
  {
  }

  lemma NextServer(servers: seq<Server>, i: nat)
    requires i < |servers|
    ensures WatchedBy(servers[..i + 1]) == WatchedBy(servers[..i]) + servers[i].Watched()
    ensures WritingBy(servers[..i + 1]) == WritingBy(servers[..i]) + servers[i].Writing()
  {
    assert servers[..i + 1][..i] == servers[..i];
  }

  /** The clients among fds that select can watch, and those of them with a response under way. */
  function Selectable(t: Table, fds: set<int>): set<int> {
    set fd | fd in fds && 0 <= fd < FD_SETSIZE
  }

  function WithResponses(t: Table, fds: set<int>): set<int>
    requires fds <= t.Keys
  {
    set fd | fd in fds && 0 <= fd < FD_SETSIZE && t[fd].state == WRITING_RESPONSE
  }

  /** The two sets while the clients outside rest have been added to what was there. */
  predicate Added(t: Table, rest: set<int>, base: set<int>, writing: set<int>, master: set<int>, write: set<int>)
    requires rest <= t.Keys
  {
    && master == base + Selectable(t, t.Keys - rest)
    && write == writing + WithResponses(t, t.Keys - rest)
  }

  lemma NothingAdded(t: Table, base: set<int>, writing: set<int>)
    ensures Added(t, t.Keys, base, writing, base, writing)
  {
  }

  lemma OneAdded(t: Table, rest: set<int>, fd: int, base: set<int>, writing: set<int>, master: set<int>, write: set<int>)
    requires rest <= t.Keys && fd in rest && Added(t, rest, base, writing, master, write)
    ensures !(0 <= fd < FD_SETSIZE) ==> Added(t, rest - {fd}, base, writing, master, write)
    ensures 0 <= fd < FD_SETSIZE && t[fd].state == WRITING_RESPONSE ==>
              Added(t, rest - {fd}, base, writing, master + {fd}, write + {fd})
    ensures 0 <= fd < FD_SETSIZE && t[fd].state != WRITING_RESPONSE ==>
              Added(t, rest - {fd}, base, writing, master + {fd}, write)
  {
  }

  lemma AllAdded(server: Server, base: set<int>, writing: set<int>, master: set<int>, write: set<int>)
    requires Added(server.clients, {}, base + (if server.serverSocket >= 0 then {server.serverSocket} else {}), writing, master, write)
    ensures master == base + server.Watched() && write == writing + server.Writing()
  {
  }

  class ServerGroup {
    var servers: seq<Server>
    var masterSet: set<int>
    var writeSet: set<int>
    var maxFd: int

    constructor (servers: seq<Server>)
      ensures this.servers == servers && masterSet == {} && writeSet == {} && maxFd == 0
    {
      this.servers := servers;
      masterSet, writeSet, maxFd := {}, {}, 0;
    }

    ghost predicate Distinct()
      reads this
    {
      forall i, j :: 0 <= i < j < |servers| ==> servers[i] != servers[j]
    }

    ghost predicate Valid()
      reads this, servers
    {
      Distinct() && forall i :: 0 <= i < |servers| ==> servers[i].Valid()
    }

    /**
     * What select is told to watch: for reading every listener and every client, for writing
     * exactly the clients with a response under way, and as the bound the largest of them all.
     */
    ghost predicate Covered()
      reads this, servers
    {
      && masterSet == WatchedBy(servers)
      && writeSet == WritingBy(servers)
      && (forall fd :: fd in masterSet || fd in writeSet ==> fd <= maxFd)
      && Attained()
    }

    /** No slack in the bound: it is 0 or the bound of some server. */
    ghost predicate Attained()
      reads this, servers
    {
      maxFd == 0 || exists i :: 0 <= i < |servers| && servers[i].maxFd == maxFd
    }

    /** The bound given to select is watched itself: it is exactly the largest descriptor. */
    lemma BoundIsLargest()
      requires Valid() && Covered() && servers != []
      ensures maxFd in masterSet || (maxFd == 0 && forall fd :: fd in masterSet ==> fd == 0)
      ensures forall fd :: fd in masterSet || fd in writeSet ==> fd <= maxFd
    {
      hide TableOk, WatchedBy, WritingBy;
      if maxFd != 0 {
        var i :| 0 <= i < |servers| && servers[i].maxFd == maxFd;
        assert servers[i].Valid();
        WatchedIn(servers, i);
      } else {
        AllNatural(servers);
      }
    }

    /** At a select: reading is watched for exactly the listeners and clients, writing for those with a response. */
    lemma SetsExactly(fd: int)
      requires Covered()
      ensures fd in masterSet <==> exists i :: 0 <= i < |servers| && Listens(servers[i], fd)
      ensures fd in writeSet <==> exists i :: 0 <= i < |servers| && Writes(servers[i], fd)
    {
      hide WatchedBy, WritingBy, Listens, Writes;
      WatchedExactly(servers, fd);
    }

    /** initializeServers, when every socket could be opened. */
    method InitializeServers(sockets: seq<int>)
      requires Distinct() && |sockets| == |servers|
      requires forall i :: 0 <= i < |servers| ==> 0 <= sockets[i] < FD_SETSIZE && servers[i].clients == map[]
      modifies this, servers
      ensures Valid() && Covered() && Reached() && servers == old(servers)
      ensures forall i :: 0 <= i < |servers| ==> servers[i].Opened(sockets[i])
    {
      OpenSockets(sockets);
      UpdateMaxFd();
      FreshServers(servers, sockets);
      WatchedBelow(servers, maxFd);
    }

    /** Every server gets its socket, and select its listener. */
    method OpenSockets(sockets: seq<int>)
      requires Distinct() && |sockets| == |servers|
      requires forall i :: 0 <= i < |servers| ==> 0 <= sockets[i] < FD_SETSIZE && servers[i].clients == map[]
      modifies `masterSet, `writeSet, servers
      ensures masterSet == Members(sockets) && writeSet == {}
      ensures forall j :: 0 <= j < |servers| ==> servers[j].Opened(sockets[j])
    {
      hide IsMaxFd, TableOk, Members, Servers.Server.Valid;
      masterSet, writeSet := {}, {};
      NobodyYet(sockets);
      var i := 0;
      while i < |servers|
        invariant 0 <= i <= |servers|
        invariant forall j :: 0 <= j < i ==> servers[j].Opened(sockets[j])
        invariant forall j :: i <= j < |servers| ==> servers[j].clients == map[]
        invariant masterSet == Members(sockets[..i]) && writeSet == {}
      {
        assert forall j :: 0 <= j < |servers| && j != i ==> servers[j] != servers[i];
        servers[i].Initialize(sockets[i]);
        assert sockets[..i + 1] == sockets[..i] + [sockets[i]];
        MembersSnoc(sockets[..i], sockets[i]);
        masterSet := masterSet + {servers[i].serverSocket};
        i := i + 1;
      }
      assert sockets[..i] == sockets;
    }

    method UpdateMaxFd()
      modifies `maxFd
      ensures forall i :: 0 <= i < |servers| ==> servers[i].maxFd <= maxFd
      ensures Attained()
    {
      maxFd := 0;
      var i := 0;
      while i < |servers|
        invariant 0 <= i <= |servers| && maxFd >= 0
        invariant forall j :: 0 <= j < i ==> servers[j].maxFd <= maxFd
        invariant Attained()
      {
        if servers[i].maxFd > maxFd { maxFd := servers[i].maxFd; }
        i := i + 1;
      }
    }

    /** The loops of handleEvents: accept, serve, then build both sets anew. */
    method HandleEvents(readSet: set<int>, toWrite: set<int>, round: Round)
      requires Valid()
      modifies this, servers
      ensures Valid() && Covered() && servers == old(servers)
      ensures forall i :: 0 <= i < |servers| ==>
                RoundServed(old(servers[i].clients), servers[i].clients, old(servers[i].serverSocket) in readSet,
                            round.accept(i), readSet, toWrite, round, servers[i].handler)
      ensures forall i :: 0 <= i < |servers| ==> AtMostAccepted(old(servers[i].clients), servers[i].clients, round.accept(i))
    {
      hide ServedTable, AfterAccept, TableOk, IsMaxFd, WatchedBy, WritingBy;
      AcceptAll(readSet, round);
      TablesOk();
      ServeAll(readSet, toWrite, round);
      Rebuild();
    }

    lemma TablesOk()
      requires Valid()
      ensures forall i :: 0 <= i < |servers| ==> TableOk(servers[i].clients)
    {
      assert forall i :: 0 <= i < |servers| ==> servers[i].Valid();
    }

    method Rebuild()
      requires Valid()
      modifies `masterSet, `writeSet, `maxFd
      ensures Covered()
    {
      RebuildSets();
      UpdateMaxFd();
      WatchedBelow(servers, maxFd);
    }

    method AcceptAll(readSet: set<int>, round: Round)
      requires Valid()
      modifies servers
      ensures Valid()
      ensures forall i :: 0 <= i < |servers| ==> servers[i].serverSocket == old(servers[i].serverSocket)
      ensures forall i :: 0 <= i < |servers| ==>
                servers[i].clients == if old(servers[i].serverSocket) in readSet
                                      then AfterAccept(old(servers[i].clients), round.accept(i), round.now)
                                      else old(servers[i].clients)
      ensures forall i :: 0 <= i < |servers| ==> AtMostAccepted(old(servers[i].clients), servers[i].clients, round.accept(i))
    {
      hide AfterAccept, TableOk, IsMaxFd, AtMostAccepted;
      var i := 0;
      while i < |servers|
        invariant 0 <= i <= |servers| && Valid()
        invariant forall j :: 0 <= j < |servers| ==> servers[j].serverSocket == old(servers[j].serverSocket)
        invariant forall j :: 0 <= j < i ==>
                    servers[j].clients == if old(servers[j].serverSocket) in readSet
                                          then AfterAccept(old(servers[j].clients), round.accept(j), round.now)
                                          else old(servers[j].clients)
        invariant forall j :: i <= j < |servers| ==> servers[j].clients == old(servers[j].clients)
      {
        if servers[i].serverSocket in readSet {
          servers[i].HandleNewConnection(round.accept(i), round.now);
        }
        i := i + 1;
      }
      forall j | 0 <= j < |servers|
        ensures AtMostAccepted(old(servers[j].clients), servers[j].clients, round.accept(j))
      {
        OneMore(old(servers[j].clients), round.accept(j), round.now);
      }
    }

    method ServeAll(readSet: set<int>, toWrite: set<int>, round: Round)
      requires Valid()
      modifies servers
      ensures Valid()
      ensures forall i :: 0 <= i < |servers| ==>
                TableOk(old(servers[i].clients))
                && ServedTable(old(servers[i].clients), servers[i].clients, readSet, toWrite, round, servers[i].handler)
      ensures forall i :: 0 <= i < |servers| ==> servers[i].clients.Keys <= old(servers[i].clients).Keys
    {
      hide ServedTable, TableOk, IsMaxFd;
      TablesOk();
      var i := 0;
      while i < |servers|
        invariant 0 <= i <= |servers| && Valid()
        invariant forall j :: 0 <= j < i ==>
                    ServedTable(old(servers[j].clients), servers[j].clients, readSet, toWrite, round, servers[j].handler)
        invariant forall j :: 0 <= j < |servers| ==> servers[j].clients.Keys <= old(servers[j].clients).Keys
        invariant forall j :: i <= j < |servers| ==> servers[j].clients == old(servers[j].clients)
      {
        servers[i].HandleExistingConnections(readSet, toWrite, round);
        i := i + 1;
      }
    }

    method RebuildSets()
      requires Valid()
      modifies `masterSet, `writeSet
      ensures masterSet == WatchedBy(servers) && writeSet == WritingBy(servers)
    {
      hide WatchedBy, WritingBy, TableOk, IsMaxFd;
      masterSet, writeSet := {}, {};
      NoServers(servers);
      var i := 0;
      while i < |servers|
        invariant 0 <= i <= |servers|
        invariant masterSet == WatchedBy(servers[..i]) && writeSet == WritingBy(servers[..i])
      {
        AddServer(servers[i]);
        NextServer(servers, i);
        i := i + 1;
      }
      assert servers[..i] == servers;
    }

    /** The inner loop of the rebuild: a server's listener and its clients. */
    method AddServer(server: Server)
      modifies `masterSet, `writeSet
      ensures masterSet == old(masterSet) + server.Watched()
      ensures writeSet == old(writeSet) + server.Writing()
    {
      hide Added;
      if server.serverSocket >= 0 { masterSet := masterSet + {server.serverSocket}; }
      ghost var table, listening := server.clients, masterSet;
      var rest := server.clients.Keys;
      NothingAdded(table, listening, writeSet);
      while rest != {}
        invariant rest <= table.Keys && server.clients == table
        invariant Added(table, rest, listening, old(writeSet), masterSet, writeSet)
        decreases |rest|
      {
        SomeMember(rest);
        var fd :| fd in rest;
        OneAdded(table, rest, fd, listening, old(writeSet), masterSet, writeSet);
        rest := rest - {fd};
        if 0 <= fd < FD_SETSIZE {
          masterSet := masterSet + {fd};
          if server.clients[fd].state == WRITING_RESPONSE { writeSet := writeSet + {fd}; }
        }
      }
      assert listening == old(masterSet) + (if server.serverSocket >= 0 then {server.serverSocket} else {});
      AllAdded(server, old(masterSet), old(writeSet), masterSet, writeSet);
    }

    /** Every entry of every table is a state of the connection machine. */
    ghost predicate Reached()
      reads this, servers
    {
      forall i :: 0 <= i < |servers| ==> AllReached(servers[i].clients, servers[i].handler)
    }

    /** One select and the round it starts; false asks for another try, None means the exception. */
    method HandleSelect(sel: Selected) returns (r: Option<bool>)
      requires Valid() && Covered()
      modifies this, servers
      ensures Valid() && Covered() && servers == old(servers)
      ensures r.None? <==> sel.SelectFailed?
      ensures sel.Ready? ==> forall i :: 0 <= i < |servers| ==>
                RoundServed(old(servers[i].clients), servers[i].clients,
                            old(servers[i].serverSocket) in sel.readable * old(masterSet), sel.round.accept(i),
                            sel.readable * old(masterSet), sel.writable * old(writeSet), sel.round, servers[i].handler)
      ensures !sel.Ready? ==> forall i :: 0 <= i < |servers| ==> servers[i].clients == old(servers[i].clients)
      ensures old(Reached()) ==> Reached()
    {
      hide RoundServed, AllReached, WatchedBy, WritingBy, TableOk, IsMaxFd, AtMostAccepted;
      match sel {
        case Interrupted => r := Some(false);
        case SelectFailed => r := None;
        case TimedOut => r := Some(true);
        case Ready(readable, writable, round) =>
          HandleEvents(readable * masterSet, writable * writeSet, round);
          r := Some(true);
          ghost var were := old(Reached());
          if were {
            forall i | 0 <= i < |servers| ensures AllReached(servers[i].clients, servers[i].handler) {
              RoundReached(old(servers[i].clients), servers[i].clients, old(servers[i].serverSocket) in readable * old(masterSet),
                           round.accept(i), readable * old(masterSet), writable * old(writeSet), round, servers[i].handler);
            }
          }
      }
    }

    /**
     * The loop of start: at every call of select, on every run, the sets are exactly right, no
     * table holds more than MAX_CLIENTS entries, and every entry is a state of the connection
     * machine.
     */
    method Run(selects: seq<Selected>) returns (done: nat)
      requires Valid() && Covered() && Reached()
      modifies this, servers
      ensures Valid() && Covered() && Reached() && servers == old(servers)
      ensures done <= |selects| && (done < |selects| ==> selects[done].SelectFailed?)
    {
      hide RoundServed, AllReached, WatchedBy, WritingBy, TableOk, IsMaxFd;
      done := 0;
      while done < |selects|
        invariant 0 <= done <= |selects|
        invariant Valid() && Covered() && Reached() && servers == old(servers)
      {
        var r := HandleSelect(selects[done]);
        if r.None? { return; }
        done := done + 1;
      }
    }
  }

  lemma OneMore(t: Table, accepted: int, now: int)
    ensures AtMostAccepted(t, AfterAccept(t, accepted, now), accepted) && AtMostAccepted(t, t, accepted)
  {
  }

  /** A table gains at most the accepted descriptor. */
  predicate AtMostAccepted(before: Table, after: Table, accepted: int) {
    forall fd :: fd in after ==> fd in before || fd == accepted
  }
}
