/**
 * Fragmentation independence: where recv cuts the byte stream of one request makes no
 * difference to when it is dispatched and to what is dispatched.
 */
module Fragmentation {
  import opened Text
  import opened Headers
  import opened Requests
  import opened Connections
  import opened Sockets
  import opened Chunked
  import opened Framings
  import opened Streaming
  import Responses

  // ---- any delivery of any bytes ----

  predicate IsPiece(e: Event) { e.Readable? && e.recv.Received? }

  /** The bytes a sequence of events brings in. */
  function Delivered(events: seq<Event>): string {
    if events == [] then ""
    else
      var last := events[|events| - 1];
      Delivered(events[..|events| - 1]) + if IsPiece(last) then last.recv.bytes else ""
  }

  /** Pieces of any size, with EAGAINs and write events in between, and no close. */
  predicate Quiet(events: seq<Event>) {
    forall e :: e in events && e.Readable? ==> e.recv == RecvWouldBlock || (e.recv.Received? && e.recv.bytes != "")
  }

  /** Bytes that the server takes for a request, and parses. */
  predicate Dispatchable(buffer: string) { Complete(buffer) && ParseRequest(buffer).Some? }

  /** No piece so far completed a request that parses. */
  ghost predicate NotDispatched(events: seq<Event>) {
    forall i :: 0 < i <= |events| && IsPiece(events[i - 1]) ==> !Dispatchable(Delivered(events[..i]))
  }

  /** How often a piece made the buffer look complete without parsing. */
  function Rejections(events: seq<Event>): nat {
    if events == [] then 0
    else
      Rejections(events[..|events| - 1])
      + if IsPiece(events[|events| - 1]) && Complete(Delivered(events)) then 1 else 0
  }

  /** What a number of rejections leaves in the response buffer. */
  function Stale(rejected: nat): string {
    if rejected == 0 then "" else Responses.BadRequestPage()
  }

  /** Idle and silent, with everything received in the buffer. */
  predicate Waits(k: Conn, events: seq<Event>) {
    && k.open && k.client.state == IDLE && k.client.requestBuffer == Delivered(events)
    && k.client.responseBuffer == Stale(Rejections(events)) && k.client.bytesWritten == 0
    && k.log == EmptyLog().(rejected := Rejections(events))
  }

  /** Until a piece completes a request that parses, the client waits; rejections stay silent. */
  lemma {:induction false} UntilDispatched(events: seq<Event>, handler: Handler, now: int)
    requires Quiet(events) && NotDispatched(events)
    ensures Waits(Run(events, handler, now), events)
  {
    hide Complete, ParseRequest, Responses.BadRequestPage;
    if events != [] {
      var before, e := events[..|events| - 1], events[|events| - 1];
      assert forall x :: x in before ==> x in events;
      assert e in events;
      assert forall i :: 0 <= i <= |before| ==> before[..i] == events[..i];
      UntilDispatched(before, handler, now);
      assert events[..|events|] == events;
      assert Delivered(before) + "" == Delivered(before);
    }
  }

  /** Then that piece dispatches it; an earlier rejection leaves its page in front of the reply. */
  lemma DispatchedByPiece(events: seq<Event>, handler: Handler, now: int)
    requires Quiet(events) && events != [] && IsPiece(events[|events| - 1])
    requires NotDispatched(events[..|events| - 1]) && Dispatchable(Delivered(events))
    ensures var k, request := Run(events, handler, now), ParseRequest(Delivered(events)).value;
            var outcome, rejected := handler(request, WantsKeepAlive(request)), Rejections(events[..|events| - 1]);
            && k.log == Log("", [], Begun(outcome), [request], rejected)
            && k.open == outcome.Respond?
            && (k.open ==> k.client.state == WRITING_RESPONSE && k.client.reply == outcome.reply
                           && k.client.responseBuffer == Stale(rejected) && k.client.bytesWritten == 0)
  {
    hide Complete, ParseRequest, Responses.BadRequestPage;
    var before, e := events[..|events| - 1], events[|events| - 1];
    assert e in events && forall x :: x in before ==> x in events;
    UntilDispatched(before, handler, now);
  }

  // ---- what is then written ----

  /** Only bytes of page leave, in order, and it ends once. */
  predicate OnlyPage(k: Conn, page: string) {
    && ClientInv(k.client) && k.client.reply.Rendered?
    && (if k.open && k.client.state == WRITING_RESPONSE
        then WithResponse(k.client).responseBuffer == page && k.log.ended == []
             && k.log.wire == page[..k.client.bytesWritten]
        else k.log.wire <= page && (k.log.ended == [] || (k.log.ended == [Whole(page)] && k.log.wire == page)))
  }

  lemma PagePiece(page: string, done: nat, n: nat)
    requires done + n <= |page|
    ensures page[..done] + page[done..done + n] == page[..done + n] && page[..done + n] <= page
    ensures done + n == |page| ==> page[..done + n] == page
  {
  }

  /** One write of a rendered response: the client goes on writing, or the write ended it. */
  lemma RenderedStep(k: Conn, s: SendResult, piece: SendResult, now: int, handler: Handler)
    requires ClientInv(k.client) && k.client.reply.Rendered? && k.open && k.client.state == WRITING_RESPONSE
    ensures WithResponse(k.client).bytesWritten <= |WithResponse(k.client).responseBuffer|
    ensures var c, next := WithResponse(k.client), Step(k, Writable(s, piece, now), handler);
            && next.log == LogSend(k.client, s, piece, k.log) && next.client.reply.Rendered?
            && (next.open && next.client.state == WRITING_RESPONSE ==>
                  && next.client == c.(bytesWritten := c.bytesWritten + Taken(c, s), lastActivity := now)
                  && !(Taken(c, s) > 0 && c.bytesWritten + Taken(c, s) == |c.responseBuffer|))
  {
    hide Complete, ParseRequest, WriteChunk, Taken, LogSend;
    Rendering(k.client, 0, 0);
  }

  lemma PageStepWriting(k: Conn, e: Event, page: string, handler: Handler)
    requires e.Writable? && OnlyPage(k, page) && k.open && k.client.state == WRITING_RESPONSE
    ensures OnlyPage(Step(k, e, handler), page)
  {
    hide Complete, ParseRequest, WriteChunk, Taken, WithResponse, Step, LogSend, ClientInv;
    assert ClientInv(k.client);
    StepKeepsClientInv(k, e, handler);
    RenderedStep(k, e.send, e.piece, e.wnow, handler);
    Rendering(k.client, k.client.bytesWritten + Taken(WithResponse(k.client), e.send), e.wnow);
    PageSent(k, e.send, e.piece, page);
    PagePiece(page, k.client.bytesWritten, Taken(WithResponse(k.client), e.send));
  }

  lemma PageSent(k: Conn, s: SendResult, piece: SendResult, page: string)
    requires OnlyPage(k, page) && k.open && k.client.state == WRITING_RESPONSE
    ensures var c, log := WithResponse(k.client), LogSend(k.client, s, piece, k.log);
            var n := Taken(c, s);
            && c.responseBuffer == page && c.bytesWritten == k.client.bytesWritten
            && log.wire == page[..k.client.bytesWritten + n]
            && log.ended == if n > 0 && k.client.bytesWritten + n == |page| then [Whole(page)] else []
  {
    hide Complete, ParseRequest, WriteChunk, Taken, WithResponse;
    Rendering(k.client, 0, 0);
    PagePiece(page, k.client.bytesWritten, Taken(WithResponse(k.client), s));
  }

  lemma PageStep(k: Conn, e: Event, page: string, handler: Handler)
    requires e.Writable? && OnlyPage(k, page)
    ensures OnlyPage(Step(k, e, handler), page) && Step(k, e, handler).log.dispatched == k.log.dispatched
  {
    hide Complete, ParseRequest, WriteChunk, Taken, WithResponse;
    if k.open && k.client.state == WRITING_RESPONSE {
      PageStepWriting(k, e, page, handler);
    } else {
      StepKeepsClientInv(k, e, handler);
      assert k.log.wire + "" == k.log.wire;
    }
  }

  lemma {:induction false} PageRun(events: seq<Event>, writes: seq<Event>, page: string, handler: Handler, now: int)
    requires forall e :: e in writes ==> e.Writable?
    requires OnlyPage(Run(events, handler, now), page)
    ensures var k := Run(events + writes, handler, now);
            OnlyPage(k, page) && k.log.dispatched == Run(events, handler, now).log.dispatched
    decreases |writes|
  {
    hide OnlyPage, Step;
    if writes == [] {
      assert events + writes == events;
    } else {
      var before, e := writes[..|writes| - 1], writes[|writes| - 1];
      PageRun(events, before, page, handler, now);
      assert (events + writes)[..|events + writes| - 1] == events + before && (events + writes)[|events + writes| - 1] == e;
      assert e in writes;
      PageStep(Run(events + before, handler, now), e, page, handler);
    }
  }

  /**
   * What goes out after the dispatch, whatever the sends take: bytes of the handler's rendered
   * reply if nothing was rejected before, and else bytes of the 400 page and none of the reply.
   */
  lemma ReplyOrStalePage(events: seq<Event>, writes: seq<Event>, handler: Handler, now: int)
    requires Quiet(events) && events != [] && IsPiece(events[|events| - 1])
    requires NotDispatched(events[..|events| - 1]) && Dispatchable(Delivered(events))
    requires forall e :: e in writes ==> e.Writable?
    ensures var request := ParseRequest(Delivered(events)).value;
            var outcome, k := handler(request, WantsKeepAlive(request)), Run(events + writes, handler, now);
            outcome.Respond? && outcome.reply.Rendered? ==>
              var page := if Rejections(events[..|events| - 1]) == 0 then outcome.reply.text else Responses.BadRequestPage();
              && k.log.dispatched == [request] && k.log.wire <= page
              && (k.log.ended == [] || (k.log.ended == [Whole(page)] && k.log.wire == page))
  {
    hide Complete, ParseRequest, Responses.BadRequestPage, NotDispatched, Quiet, Delivered, Rejections, Run;
    DispatchedByPiece(events, handler, now);
    var request := ParseRequest(Delivered(events)).value;
    var outcome := handler(request, WantsKeepAlive(request));
    if outcome.Respond? && outcome.reply.Rendered? {
      var page := if Rejections(events[..|events| - 1]) == 0 then outcome.reply.text else Responses.BadRequestPage();
      assert page[..0] == "";
      PageRun(events, writes, page, handler, now);
      PageBytes(Run(events + writes, handler, now), page);
    }
  }

  lemma PageBytes(k: Conn, page: string)
    requires OnlyPage(k, page)
    ensures k.log.wire <= page && (k.log.ended == [] || (k.log.ended == [Whole(page)] && k.log.wire == page))
  {
  }

  // ---- one request per stream ----

  /** No proper prefix of the stream is taken for a complete request, and the stream is. */
  predicate OneRequest(stream: string) {
    && (forall n: nat :: n < |stream| ==> !Complete(stream[..n]))
    && Dispatchable(stream)
  }

  lemma {:induction false} NothingComplete(events: seq<Event>)
    requires forall i :: 0 < i <= |events| && IsPiece(events[i - 1]) ==> !Complete(Delivered(events[..i]))
    ensures Rejections(events) == 0 && NotDispatched(events)
  {
    hide Complete, ParseRequest;
    if events != [] {
      var before := events[..|events| - 1];
      assert forall i :: 0 <= i <= |before| ==> before[..i] == events[..i];
      NothingComplete(before);
      assert events[..|events|] == events;
    }
  }

  lemma PrefixIncomplete(stream: string, part: string)
    requires part <= stream && |part| < |stream|
    requires forall n: nat :: n < |stream| ==> !Complete(stream[..n])
    ensures !Complete(part)
  {
    assert part == stream[..|part|];
  }

  /** Before the last byte: idle, nothing dispatched, everything received is in the buffer. */
  lemma StaysIdle(stream: string, events: seq<Event>, handler: Handler, now: int)
    requires Quiet(events) && Delivered(events) <= stream && |Delivered(events)| < |stream|
    requires forall n: nat :: n < |stream| ==> !Complete(stream[..n])
    ensures var k := Run(events, handler, now);
            k.open && k.client.state == IDLE && k.client.requestBuffer == Delivered(events)
            && k.client.responseBuffer == "" && k.log == EmptyLog()
  {
    hide Complete, Run, Delivered;
    forall i | 0 < i <= |events| ensures !Complete(Delivered(events[..i])) {
      DeliveredMonotone(events, i);
      PrefixIncomplete(stream, Delivered(events[..i]));
    }
    NothingComplete(events);
    UntilDispatched(events, handler, now);
  }

  /**
   * However the stream is cut, the request is dispatched once, by the piece that holds the
   * last byte, and what is dispatched is what parsing the whole stream gives.
   */
  lemma DispatchedOnce(stream: string, events: seq<Event>, handler: Handler, now: int)
    requires OneRequest(stream) && events != [] && Quiet(events)
    requires Delivered(events) == stream && IsPiece(events[|events| - 1])
    ensures forall n: nat :: n < |events| ==>
              Run(events[..n], handler, now).client.state == IDLE
              && Run(events[..n], handler, now).log.dispatched == []
    ensures Run(events, handler, now).log.dispatched == [ParseRequest(stream).value]
    ensures Run(events, handler, now).log.rejected == 0
    ensures Run(events, handler, now).open ==> Run(events, handler, now).client.state == WRITING_RESPONSE
  {
    hide Complete, ParseRequest, Run, Delivered;
    forall n: nat | n < |events|
      ensures Run(events[..n], handler, now).client.state == IDLE && Run(events[..n], handler, now).log.dispatched == []
      ensures !Complete(Delivered(events[..n]))
    {
      DeliveredPrefix(events, n);
      PrefixIncomplete(stream, Delivered(events[..n]));
      assert forall x :: x in events[..n] ==> x in events;
      StaysIdle(stream, events[..n], handler, now);
    }
    var before := events[..|events| - 1];
    assert forall i :: 0 <= i <= |before| ==> before[..i] == events[..i];
    NothingComplete(before);
    DispatchedByPiece(events, handler, now);
  }

  lemma {:induction false} DeliveredPrefix(events: seq<Event>, n: nat)
    requires n < |events| && Quiet(events)
    requires events[|events| - 1].Readable? && events[|events| - 1].recv.Received?
    ensures Delivered(events[..n]) <= Delivered(events) && |Delivered(events[..n])| < |Delivered(events)|
  {
    assert events[|events| - 1] in events;
    DeliveredMonotone(events[..|events| - 1], n);
    assert events[..|events| - 1][..n] == events[..n];
  }

  lemma {:induction false} DeliveredMonotone(events: seq<Event>, n: nat)
    requires n <= |events|
    ensures Delivered(events[..n]) <= Delivered(events)
    decreases |events|
  {
    if n == |events| {
      assert events[..n] == events;
    } else {
      DeliveredMonotone(events[..|events| - 1], n);
      assert events[..|events| - 1][..n] == events[..n];
    }
  }

  // ---- heads ----

  /** The position where the request line of a head ends. */
  function LineEnd(head: string): int { Find(head, CRLF, 0) }

  function LineOf(head: string): string
    requires LineEnd(head) >= 0
  {
    head[..LineEnd(head)]
  }

  /** The lines of a head after its request line. */
  function Block(head: string): string
    requires LineEnd(head) >= 0
  {
    head[LineEnd(head) + 2..]
  }

  /** What the completion test reads out of the request line: it takes it for a header line. */
  function LineEntries(head: string): seq<Entry>
    requires LineEnd(head) >= 0
  {
    Entries(LineOf(head) + "\r")
  }

  /** The completion test reads the request line too, the parser only the lines after it. */
  lemma DetectorReads(head: string)
    requires LineEnd(head) >= 0
    ensures Entries(head) == LineEntries(head) + Entries(Block(head))
  {
    hide Find, Entries;
    var e := LineEnd(head);
    assert head[e..e + 2] == CRLF;
    assert head == (LineOf(head) + "\r") + "\n" + Block(head);
    EntriesAppend(LineOf(head) + "\r", Block(head));
  }

  /** They read the same headers exactly when the request line has none in it. */
  lemma DetectorAgreesWithParser(head: string)
    requires LineEnd(head) >= 0
    ensures Entries(head) == Entries(Block(head)) <==> LineEntries(head) == []
    ensures Find(LineOf(head), ": ", 0) < 0 ==> LineEntries(head) == []
  {
    hide Find, Entries;
    DetectorReads(head);
    assert [] + Entries(Block(head)) == Entries(Block(head));
    assert |Entries(head)| == |LineEntries(head)| + |Entries(Block(head))|;
    if Find(LineOf(head), ": ", 0) < 0 {
      NoColonBeforeCr(LineOf(head));
      NoColonNoEntries(LineOf(head) + "\r");
    }
  }

  lemma NoColonBeforeCr(line: string)
    requires Find(line, ": ", 0) < 0
    ensures Find(line + "\r", ": ", 0) < 0
  {
    hide Find;
    var s := line + "\r";
    forall i | 0 <= i && i + 2 <= |s| ensures !OccursAt(s, ": ", i) {
      if i + 2 <= |line| {
        assert s == "" + line + "\r";
        OccursShift("", line, "\r", ": ", i);
      } else {
        Mismatch(s, ": ", i, 1);
      }
    }
  }

  /** A header the completion test sees: the block's own, and only without one the request line's. */
  lemma DetectedHeader(head: string, name: string)
    requires LineEnd(head) >= 0
    ensures Get(HeadersOf(head), name) ==
            if name in HeadersOf(Block(head)) then Get(HeadersOf(Block(head)), name)
            else Get(Store(LineEntries(head), map[]), name)
  {
    hide Find, Entries;
    DetectorReads(head);
    StoreAppend(LineEntries(head), Entries(Block(head)), map[]);
    StoreGet(Entries(Block(head)), Store(LineEntries(head), map[]), name);
  }

  predicate FramingName(name: string) { name == "Content-Length" || name == "Transfer-Encoding" }

  /** The block overrides it, or the request line does not give it. */
  predicate NotFromLine(head: string, name: string)
    requires LineEnd(head) >= 0
  {
    name in HeadersOf(Block(head)) || Get(Store(LineEntries(head), map[]), name) == ""
  }

  /** The framing headers are read alike exactly when the request line gives neither that the block lacks. */
  lemma FramingHeadersAlike(head: string)
    requires LineEnd(head) >= 0
    ensures (forall name :: FramingName(name) ==> Get(HeadersOf(head), name) == Get(HeadersOf(Block(head)), name))
            <==> (forall name :: FramingName(name) ==> NotFromLine(head, name))
  {
    hide HeadersOf, Store, Entries, Find;
    forall name ensures Get(HeadersOf(head), name) == Get(HeadersOf(Block(head)), name) <==> NotFromLine(head, name) {
      DetectedHeader(head, name);
    }
  }

  /** Both readers wait for the same bytes. */
  predicate FramedAlike(head: string)
    requires LineEnd(head) >= 0
  {
    FramingOf(HeadersOf(head), head) == FramingOf(HeadersOf(Block(head)), head)
  }

  /** There is a header block, and it has headers. */
  predicate HasHeaders(head: string) { LineEnd(head) >= 0 && Entries(Block(head)) != [] }

  /** What the completion test should say: the block has headers, and their body has arrived. */
  predicate ParsedComplete(head: string, after: string) {
    HasHeaders(head) && BodyArrived(HeadersOf(Block(head)), |head|, head + BLANK_LINE + after)
  }

  /** What it says, for any head. */
  lemma CompleteExactly(head: string, after: string)
    requires EndsAtBlankLine(head)
    ensures Complete(head + BLANK_LINE + after) <==>
            Entries(head) != [] && BodyArrived(HeadersOf(head), |head|, head + BLANK_LINE + after)
  {
    hide Find, Entries, BodyArrived, Store, EndsAtBlankLine;
    HeadFirst(head, after);
  }

  /** The request line leaves completion alone: same framing, or no header anywhere. */
  predicate LineIsHarmless(head: string) {
    if HasHeaders(head) then FramedAlike(head) else Entries(head) == []
  }

  /** Whatever is waited for can come. */
  lemma SomethingArrives(f: Framing) returns (after: string)
    requires Canonical(f)
    ensures Arrives(f, after)
  {
    hide Find, Filler;
    if f.Always? { after := ""; } else if f.length.Some? { after := Filler(f.length.value); } else {
      after := "0\r\n\r\n";
      MarkerInLastChunk();
    }
  }

  /** Without a header in the block the request line alone decides, and only ever says yes wrongly. */
  lemma UnaffectedWithoutHeaders(head: string)
    requires EndsAtBlankLine(head) && !HasHeaders(head)
    ensures (forall after :: Complete(head + BLANK_LINE + after) <==> ParsedComplete(head, after)) <==> Entries(head) == []
  {
    hide Find, Entries, BodyArrived, EndsAtBlankLine, HeadersOf, Complete, FramingOf, HasHeaders, Arrives;
    forall after ensures Complete(head + BLANK_LINE + after) ==> Entries(head) != [] { CompleteExactly(head, after); }
    if Entries(head) != [] {
      FramingCanonical(HeadersOf(head), head);
      var after := SomethingArrives(FramingOf(HeadersOf(head), head));
      CompleteExactly(head, after);
      ArrivesExactly(HeadersOf(head), head, after);
      assert Complete(head + BLANK_LINE + after) && !ParsedComplete(head, after);
    }
  }

  lemma UnaffectedWithHeaders(head: string)
    requires EndsAtBlankLine(head) && HasHeaders(head)
    ensures (forall after :: Complete(head + BLANK_LINE + after) <==> ParsedComplete(head, after)) <==> FramedAlike(head)
  {
    hide Find, Entries, BodyArrived, Store, EndsAtBlankLine, HeadersOf, Complete, FramingOf;
    DetectorReads(head);
    FramingDecides(HeadersOf(head), HeadersOf(Block(head)), head);
    forall after
      ensures (Complete(head + BLANK_LINE + after) <==> ParsedComplete(head, after))
              <==> SameArrival(HeadersOf(head), HeadersOf(Block(head)), head, after)
    {
      CompleteExactly(head, after);
    }
  }

  /**
   * The request line leaves completion alone, whatever follows the head, exactly when it does not
   * change the framing, or, where no header comes after it, has none itself.
   */
  lemma CompletionUnaffected(head: string)
    requires EndsAtBlankLine(head)
    ensures (forall after :: Complete(head + BLANK_LINE + after) <==> ParsedComplete(head, after)) <==> LineIsHarmless(head)
  {
    hide Entries, EndsAtBlankLine, Complete, ParsedComplete, FramedAlike, HasHeaders;
    if HasHeaders(head) { UnaffectedWithHeaders(head); } else { UnaffectedWithoutHeaders(head); }
  }

  /**
   * It does not change the framing when its only names are others than Content-Length and
   * Transfer-Encoding, or the block overrides them.
   */
  lemma OtherNamesHarmless(head: string)
    requires HasHeaders(head) && forall name :: FramingName(name) ==> NotFromLine(head, name)
    ensures LineIsHarmless(head)
  {
    hide Find, Entries, HeadersOf, FramingOf, NotFromLine;
    FramingHeadersAlike(head);
    assert FramingName("Content-Length") && FramingName("Transfer-Encoding");
    FramingFromHeaders(HeadersOf(head), HeadersOf(Block(head)), head);
  }

  /**
   * A head: a well-formed request line, at least one "name: value" after it, no blank line before
   * its end, and a request line that does not change the framing.
   */
  predicate IsHead(head: string) {
    && EndsAtBlankLine(head)
    && LineEnd(head) >= 0
    && SplitRequestLine(LineOf(head)).Some?
    && Entries(Block(head)) != []
    && FramedAlike(head)
  }

  lemma ParsedWhole(head: string, after: string)
    requires EndsAtBlankLine(head) && LineEnd(head) >= 0 && OneRequest(head + BLANK_LINE + after)
    ensures ParseRequest(head + BLANK_LINE + after).Some?
    ensures Carries(ParseRequest(head + BLANK_LINE + after).value, head)
  {
    hide Complete, ParseRequest, Carries, BodyTaken, EndsAtBlankLine;
    ParsedFromHead(head, after);
  }

  lemma HeadParts(head: string)
    requires IsHead(head)
    ensures EndsAtBlankLine(head) && LineEnd(head) >= 0 && SplitRequestLine(LineOf(head)).Some?
    ensures Entries(Block(head)) != [] && FramedAlike(head)
  {
  }

  /** What both readers see of a head followed by anything. */
  lemma HeadSeen(head: string, after: string)
    requires EndsAtBlankLine(head) && LineEnd(head) >= 0
    ensures var raw := head + BLANK_LINE + after;
            && Find(raw, BLANK_LINE, 0) == |head| && raw[..|head|] == head && raw[|head| + 4..] == after
            && Find(raw, CRLF, 0) == LineEnd(head) && raw[..LineEnd(head)] == LineOf(head)
            && HeaderBlock(raw) == Block(head)
  {
    hide Find, Entries, SplitRequestLine, EndsAtBlankLine;
    var raw := head + BLANK_LINE + after;
    HeadFirst(head, after);
    assert raw == head + (BLANK_LINE + after);
    FindStable(head, BLANK_LINE + after, CRLF);
  }

  /** Parsing a head and what follows it, whatever the request line says. */
  lemma ParseHead(head: string, after: string)
    requires EndsAtBlankLine(head) && LineEnd(head) >= 0
    ensures ParseRequest(head + BLANK_LINE + after) ==
            if SplitRequestLine(LineOf(head)).None? || Entries(Block(head)) == [] then None
            else WithBody(SplitRequestLine(LineOf(head)).value, HeadersOf(Block(head)), after)
  {
    hide Find, Entries, SplitRequestLine, WithBody, Store, HeaderBlock, EndsAtBlankLine;
    HeadSeen(head, after);
  }

  /** What is parsed carries the fields of its request line and the headers of its block. */
  ghost predicate Carries(p: Parsed, head: string)
    requires LineEnd(head) >= 0
  {
    && SplitRequestLine(LineOf(head)) == Some(RequestLine(p.verb, p.path, p.query, p.version))
    && HeadersCarried(p, HeadersOf(Block(head)))
  }

  /** Every head that parses, with whatever follows it. */
  lemma ParsedFromHead(head: string, after: string)
    requires EndsAtBlankLine(head) && LineEnd(head) >= 0 && ParseRequest(head + BLANK_LINE + after).Some?
    ensures var p := ParseRequest(head + BLANK_LINE + after).value;
            Carries(p, head) && BodyTaken(p, HeadersOf(Block(head)), after)
  {
    hide Find, Entries, SplitRequestLine, Store, HeaderBlock, EndsAtBlankLine, ParseRequest, HeadersCarried, BodyTaken;
    HeadSeen(head, after);
    ParsedCarries(head + BLANK_LINE + after);
  }

  /**
   * A request line that has a header, and no header after it: it completes the request when its
   * own framing says so, and every piece that does is rejected.
   */
  lemma HeaderlessBlockRejected(head: string, after: string)
    requires EndsAtBlankLine(head) && LineEnd(head) >= 0 && Entries(Block(head)) == []
    ensures Complete(head + BLANK_LINE + after) <==>
            LineEntries(head) != [] && Arrives(FramingOf(HeadersOf(head), head), after)
    ensures ParseRequest(head + BLANK_LINE + after) == None
  {
    hide Find, Entries, BodyArrived, EndsAtBlankLine, HeadersOf, FramingOf, Arrives, Complete, ParseRequest, SplitRequestLine;
    DetectorReads(head);
    assert LineEntries(head) + [] == LineEntries(head);
    CompleteExactly(head, after);
    ArrivesExactly(HeadersOf(head), head, after);
    ParseHead(head, after);
  }

  lemma LoneLineSeen(head: string, after: string)
    requires EndsAtBlankLine(head) && LineEnd(head) < 0
    ensures var raw := head + BLANK_LINE + after;
            Find(raw, CRLF, 0) == Find(raw, BLANK_LINE, 0) == |head| && HeaderBlock(raw) == CRLF + after
  {
    hide Find, EndsAtBlankLine, OccursAt;
    var raw := head + BLANK_LINE + after;
    HeadFirst(head, after);
    assert raw == head + CRLF + (CRLF + after);
    OccursInMiddle(head, CRLF, CRLF + after);
    var r := Find(raw, CRLF, 0);
    if r < |head| {
      assert raw[..|head| + 1] == head + "\r";
      FindInPrefix(raw, CRLF, |head| + 1);
      CrAfterFree(head);
    }
  }

  lemma CrAfterFree(head: string)
    requires Find(head, CRLF, 0) < 0
    ensures Find(head + "\r", CRLF, 0) < 0
  {
    hide Find;
    var s := head + "\r";
    forall i | 0 <= i && i + 2 <= |s| ensures !OccursAt(s, CRLF, i) {
      if i + 2 <= |head| {
        assert s == "" + head + "\r";
        OccursShift("", head, "\r", CRLF, i);
      } else {
        Mismatch(s, CRLF, i, 1);
      }
    }
  }

  /**
   * A request line alone in front of the blank line: the completion test reads it as the header
   * block, and the parser takes the bytes after the blank line for the header block.
   */
  lemma LoneLine(head: string, after: string)
    requires EndsAtBlankLine(head) && LineEnd(head) < 0
    ensures Complete(head + BLANK_LINE + after) <==>
            Entries(head) != [] && Arrives(FramingOf(HeadersOf(head), head), after)
    ensures ParseRequest(head + BLANK_LINE + after) ==
            if SplitRequestLine(head).None? || Entries(after) == [] then None
            else WithBody(SplitRequestLine(head).value, HeadersOf(after), after)
  {
    hide Find, Entries, BodyArrived, EndsAtBlankLine, FramingOf, Arrives, Complete, WithBody, SplitRequestLine, HeaderBlock;
    HeadFirst(head, after);
    CompleteExactly(head, after);
    ArrivesExactly(HeadersOf(head), head, after);
    LoneLineSeen(head, after);
    NothingBeforeLineFeed(after);
  }

  lemma NothingBeforeLineFeed(after: string)
    ensures Entries(CRLF + after) == Entries(after)
  {
    hide Find, Entries;
    EntriesAppend("\r", after);
    NoColonNoEntries("\r");
    assert "\r" + "\n" + after == CRLF + after && [] + Entries(after) == Entries(after);
  }

  /** The completion test on any prefix of a head, a blank line and what follows. */
  lemma CompleteOnPrefix(head: string, after: string, n: nat)
    requires EndsAtBlankLine(head) && n <= |head| + 4 + |after|
    ensures var raw := head + BLANK_LINE + after;
            Complete(raw[..n]) <==>
              n >= |head| + 4 && Entries(head) != [] && Arrives(FramingOf(HeadersOf(head), head), after[..n - |head| - 4])
  {
    hide Find, Entries, BodyArrived, Store, EndsAtBlankLine, Arrives, FramingOf, HeadersOf;
    var raw := head + BLANK_LINE + after;
    if n < |head| + 4 {
      HeadFirst(head, after);
      FindInPrefix(raw, BLANK_LINE, n);
    } else {
      var part := after[..n - |head| - 4];
      assert raw[..n] == head + BLANK_LINE + part;
      CompleteExactly(head, part);
      ArrivesExactly(HeadersOf(head), head, part);
    }
  }

  /** Without a header in any line the request is never dispatched, whatever follows. */
  lemma NoHeadersNeverDispatched(head: string, after: string)
    requires EndsAtBlankLine(head) && Entries(head) == []
    ensures !Complete(head + BLANK_LINE + after)
  {
    hide Find, Entries, EndsAtBlankLine;
    CompleteExactly(head, after);
  }

  /** A request without a body is one request exactly when nothing is waited for. */
  lemma BodylessExactly(head: string)
    requires EndsAtBlankLine(head) && LineEnd(head) >= 0
    ensures OneRequest(head + BLANK_LINE) <==>
            && SplitRequestLine(LineOf(head)).Some? && Entries(Block(head)) != []
            && FramingOf(HeadersOf(head), head) == Always
    ensures OneRequest(head + BLANK_LINE) ==> ParseRequest(head + BLANK_LINE).value.body == ""
  {
    hide Find, IsHead, HeadersOf, Complete, ParseRequest, SplitRequestLine, Entries, EndsAtBlankLine, FramingOf, Dec;
    assert head + BLANK_LINE + "" == head + BLANK_LINE;
    DetectorReads(head);
    ParseHead(head, "");
    FramingCanonical(HeadersOf(head), head);
    NothingArrives(FramingOf(HeadersOf(head), head));
    forall n: nat | n <= |head| + 4
      ensures Complete((head + BLANK_LINE)[..n]) <==>
              n == |head| + 4 && Entries(head) != [] && FramingOf(HeadersOf(head), head) == Always
    {
      CompleteOnPrefix(head, "", n);
    }
    assert (head + BLANK_LINE)[..|head| + 4] == head + BLANK_LINE;
    assert ""[..0] == "";
  }

  lemma NothingArrives(f: Framing)
    requires Canonical(f)
    ensures Arrives(f, "") <==> f == Always
  {
    MarkerTakesFive("");
  }

  // ---- Content-Length ----

  /** A head that declares a body of n bytes, not chunked. */
  predicate Declares(head: string, n: nat)
    requires LineEnd(head) >= 0
  {
    && !IsChunked(HeadersOf(Block(head)))
    && DeclaredLength(HeadersOf(Block(head))) != ""
    && Atoi(DeclaredLength(HeadersOf(Block(head)))) == n
  }

  lemma DeclaredFraming(head: string, n: nat)
    requires IsHead(head) && Declares(head, n) && |head| + 4 + n < TWO_64
    ensures FramingOf(HeadersOf(head), head) == if n == 0 then Always else When(Some(n), false)
  {
    hide Find, Entries, HeadersOf, Get, Atoi, EndsAtBlankLine, SplitRequestLine;
  }

  /** A stream whose framing is met exactly when all of it is there is one request. */
  lemma StreamIsOneRequest(head: string, after: string)
    requires IsHead(head)
    requires forall m: nat :: m <= |after| ==> (Arrives(FramingOf(HeadersOf(head), head), after[..m]) <==> m == |after|)
    requires WithBody(SplitRequestLine(LineOf(head)).value, HeadersOf(Block(head)), after).Some?
    ensures OneRequest(head + BLANK_LINE + after)
    ensures ParseRequest(head + BLANK_LINE + after) ==
            WithBody(SplitRequestLine(LineOf(head)).value, HeadersOf(Block(head)), after)
  {
    hide Find, HeadersOf, Complete, ParseRequest, SplitRequestLine, WithBody, Entries, EndsAtBlankLine, FramingOf, Arrives;
    var raw := head + BLANK_LINE + after;
    DetectorReads(head);
    forall n: nat | n <= |raw| ensures Complete(raw[..n]) <==> n == |raw| {
      CompleteOnPrefix(head, after, n);
    }
    assert raw[..|raw|] == raw;
    ParseHead(head, after);
  }

  /** Content-Length framing: complete exactly with the last byte, and the body is those bytes. */
  lemma ContentLengthStream(head: string, body: string)
    requires IsHead(head) && Declares(head, |body|)
    requires |head| + 4 + |body| < TWO_64
    ensures OneRequest(head + BLANK_LINE + body)
    ensures ParseRequest(head + BLANK_LINE + body).value.body == body
  {
    hide Find, IsHead, HeadersOf, OneRequest, ParseRequest, SplitRequestLine, Atoi, Dec, BodyArrived, FramingOf, Get;
    HeadParts(head);
    DeclaredFraming(head, |body|);
    StreamIsOneRequest(head, body);
  }

  /** Complete with some byte but the last, or not with the last either. */
  lemma NotWithLastByte(head: string, body: string, m: nat)
    requires IsHead(head) && m <= |body|
    requires Arrives(FramingOf(HeadersOf(head), head), body[..m]) <==> m < |body|
    ensures !OneRequest(head + BLANK_LINE + body)
  {
    hide Find, IsHead, HeadersOf, ParseRequest, FramingOf, Complete, Entries, EndsAtBlankLine, Arrives;
    HeadParts(head);
    DetectorReads(head);
    var raw := head + BLANK_LINE + body;
    CompleteOnPrefix(head, body, |head| + 4 + m);
    assert raw[..|raw|] == raw;
  }

  lemma AskedFraming(head: string, n: nat)
    requires IsHead(head) && !IsChunked(HeadersOf(Block(head)))
    requires LengthNeeded(HeadersOf(Block(head)), |head|) == Some(n)
    ensures FramingOf(HeadersOf(head), head) == if n == 0 then Always else When(Some(n), false)
  {
    hide Find, IsHead, HeadersOf, IsChunked, LengthNeeded, Block, LineEnd;
    HeadParts(head);
  }

  /**
   * Whatever its Content-Length is: a request that is not chunked is one request exactly when as
   * many bytes follow the blank line as the length arithmetic asks for.
   */
  lemma ContentLengthExactly(head: string, body: string)
    requires IsHead(head) && !IsChunked(HeadersOf(Block(head))) && DeclaredLength(HeadersOf(Block(head))) != ""
    ensures OneRequest(head + BLANK_LINE + body) <==> LengthNeeded(HeadersOf(Block(head)), |head|) == Some(|body|)
    ensures ParseRequest(head + BLANK_LINE + body).Some? && ParseRequest(head + BLANK_LINE + body).value.body == body
  {
    hide Find, IsHead, HeadersOf, OneRequest, ParseRequest, SplitRequestLine, Atoi, Get, Dec, FramingOf, LineEnd, Block, Entries;
    HeadParts(head);
    ParseHead(head, body);
    var n := LengthNeeded(HeadersOf(Block(head)), |head|).value;
    AskedFraming(head, n);
    if n == |body| {
      StreamIsOneRequest(head, body);
    } else {
      NotWithLastByte(head, body, if n < |body| then n else |body|);
    }
  }

  lemma Wrapped(size: nat, v: int)
    requires -0x8000_0000 <= v < 0x8000_0000 && size <= STRING_MAX
    ensures (size + v) % TWO_64 == if size + v < 0 then TWO_64 + size + v else size + v
  {
    if size + v < 0 { assert (TWO_64 + size + v) % TWO_64 == TWO_64 + size + v; }
  }

  lemma PrintedNeeded(h: HeaderMap, size: nat, n: nat)
    requires DeclaredLength(h) == Dec(n) && size + 4 + n <= STRING_MAX
    ensures LengthNeeded(h, size) == Some(n) <==> n < 0x8000_0000
  {
    hide Atoi, Dec, Get, ToInt32;
    AtoiOfNat(n);
    Wrapped(size + 4, Atoi(Dec(n)));
    if n < 0x8000_0000 { SmallInt(n); }
  }

  /** A body behind its printed length is one request exactly when the length fits an int. */
  lemma PrintedLengthExactly(head: string, body: string)
    requires IsHead(head) && !IsChunked(HeadersOf(Block(head))) && DeclaredLength(HeadersOf(Block(head))) == Dec(|body|)
    requires |head| + 4 + |body| <= STRING_MAX
    ensures OneRequest(head + BLANK_LINE + body) <==> |body| < 0x8000_0000
  {
    hide Find, IsHead, HeadersOf, OneRequest, ParseRequest, Dec, LengthNeeded, DeclaredLength, LineEnd, Block;
    HeadParts(head);
    ContentLengthExactly(head, body);
    PrintedNeeded(HeadersOf(Block(head)), |head|, |body|);
  }

  lemma WithLength(head: string, body: string)
    requires IsHead(head) && Declares(head, |body|) && |head| + 4 + |body| < TWO_64
    requires OneRequest(head + BLANK_LINE + body) && ParseRequest(head + BLANK_LINE + body).value.body == body
    ensures var p := ParseRequest(head + BLANK_LINE + body).value;
            !p.chunked && "Content-Length" in p.headers && p.headers["Content-Length"] == Dec(|body|) && Carries(p, head)
  {
    hide OneRequest, ParseRequest, IsHead, Dec, Atoi, LineEnd, Block, HeadersOf, SplitRequestLine;
    HeadParts(head);
    ParsedWhole(head, body);
  }

  /** Every delivery of a request with Content-Length dispatches it once, on the last byte, with its body. */
  lemma ContentLengthDispatchedOnce(head: string, body: string, events: seq<Event>, handler: Handler, now: int)
    requires IsHead(head) && Declares(head, |body|) && |head| + 4 + |body| < TWO_64
    requires Quiet(events) && events != [] && Delivered(events) == head + BLANK_LINE + body
    requires IsPiece(events[|events| - 1])
    ensures forall n: nat :: n < |events| ==>
              Run(events[..n], handler, now).client.state == IDLE
              && Run(events[..n], handler, now).log.dispatched == []
    ensures |Run(events, handler, now).log.dispatched| == 1
    ensures var p := Run(events, handler, now).log.dispatched[0];
            && p.body == body && !p.chunked && Carries(p, head)
            && "Content-Length" in p.headers && p.headers["Content-Length"] == Dec(|body|)
  {
    hide Run, OneRequest, ParseRequest, IsHead, Declares, Quiet, Delivered, Dec, Carries, EndsAtBlankLine, LineEnd;
    HeadParts(head);
    ContentLengthStream(head, body);
    WithLength(head, body);
    DispatchedOnce(head + BLANK_LINE + body, events, handler, now);
  }

  /** A request without a body: complete exactly with the blank line. */
  lemma BodylessStream(head: string)
    requires IsHead(head)
    requires !IsChunked(HeadersOf(Block(head))) && DeclaredLength(HeadersOf(Block(head))) == ""
    ensures OneRequest(head + BLANK_LINE)
    ensures ParseRequest(head + BLANK_LINE).value.body == ""
  {
    hide Find, IsHead, HeadersOf, OneRequest, ParseRequest, SplitRequestLine, Get, Atoi;
    HeadParts(head);
    BodylessExactly(head);
  }

  // ---- heads that are printed, and one that is not read alike ----

  lemma PrintedParts(line: string, cut: string)
    requires line != "" && Free(line, {'\r', '\n'})
    requires Find(line + CRLF + (cut + CRLF) + CRLF, BLANK_LINE, 0) == |line| + |cut| + 2
    ensures var head := line + CRLF + cut;
            EndsAtBlankLine(head) && LineEnd(head) == |line| && LineOf(head) == line && Block(head) == cut
  {
    hide Find, OccursAt;
    var head := line + CRLF + cut;
    assert head + BLANK_LINE == line + CRLF + (cut + CRLF) + CRLF;
    FirstLineEnds(line, cut);
  }

  lemma FirstLineEnds(line: string, cut: string)
    requires Free(line, {'\r', '\n'})
    ensures Find(line + CRLF + cut, CRLF, 0) == |line|
  {
    hide Find, OccursAt;
    FindAfterFreeText(line, CRLF + cut, CRLF);
    assert line + (CRLF + cut) == line + CRLF + cut;
    OccursInMiddle("", CRLF, cut);
    assert "" + CRLF + cut == CRLF + cut;
  }

  /** A request line without ": " in front of printed headers is a head with those headers. */
  lemma PrintedHead(line: string, es: seq<Entry>)
    requires line != "" && Free(line, {'\r', '\n'}) && SplitRequestLine(line).Some?
    requires es != [] && forall e :: e in es ==> Printable(e)
    ensures |Print(es)| >= 2
    ensures var head := line + CRLF + Print(es)[..|Print(es)| - 2];
            && EndsAtBlankLine(head) && LineEnd(head) == |line| && LineOf(head) == line
            && Entries(Block(head)) == es
            && (Find(line, ": ", 0) < 0 ==> IsHead(head) && Entries(head) == es)
  {
    hide Find, Entries, SplitRequestLine, Printable, Print, OccursAt, EndsAtBlankLine, LineEnd, LineOf, Block, Free, FramingOf;
    Responses.CutPrintRoundTrip(es);
    Responses.PrintEndsLine(es);
    var cut := Print(es)[..|Print(es)| - 2];
    assert Print(es) == cut + CRLF;
    PrintHasNoBlankLine(line, es);
    PrintedParts(line, cut);
    var head := line + CRLF + cut;
    if Find(line, ": ", 0) < 0 {
      DetectorAgreesWithParser(head);
      assert HeadersOf(head) == HeadersOf(Block(head));
    }
  }

  /** "Content-Length: 5 x" is a request line, with method "Content-Length:". */
  function OddLine(): string { "Content-Length: 5 x" }
  function OddHead(): string { OddLine() + CRLF + "Host: a" }

  /**
   * That request line is read as a header: the request has no body, but is not complete before
   * five more bytes have come, which are then dropped.
   */
  lemma OddLineDelays(after: string)
    ensures EndsAtBlankLine(OddHead()) && LineEnd(OddHead()) >= 0 && SplitRequestLine(LineOf(OddHead())).Some?
    ensures Entries(Block(OddHead())) == [("Host", "a")]
    ensures !FramedAlike(OddHead()) && FramingOf(HeadersOf(Block(OddHead())), OddHead()) == Always
    ensures Complete(OddHead() + BLANK_LINE + after) <==> |after| >= 5
    ensures ParseRequest(OddHead() + BLANK_LINE + after).Some?
    ensures ParseRequest(OddHead() + BLANK_LINE + after).value.body == ""
  {
    hide Find, Entries, SplitRequestLine, Print, Printable, FramingOf, BodyArrived, HeadersOf, EndsAtBlankLine, Complete, ParseRequest;
    OddParts();
    OddEntries();
    OddFraming();
    CompleteExactly(OddHead(), after);
    ArrivesExactly(HeadersOf(OddHead()), OddHead(), after);
    ParseHead(OddHead(), after);
    OddBody(after);
  }

  lemma OddSplit()
    ensures SplitRequestLine(OddLine()).Some?
  {
    hide Find, OccursAt, LastSpace;
    FirstBlankAt(OddLine(), 15);
    assert OddLine()[17] == ' ';
  }

  lemma OddFree()
    ensures Free(OddLine(), {'\r', '\n'})
  {
  }

  lemma HostPrints()
    ensures Printable(("Host", "a")) && Print([("Host", "a")]) == "Host: a\r\n"
  {
    hide Find, Printable;
    PlainEntry(("Host", "a"));
    assert [("Host", "a")][1..] == [];
  }

  lemma LengthPrints()
    ensures Printable(("Content-Length", "5 x"))
    ensures Print([("Content-Length", "5 x"), ("Host", "a")]) == OddHead() + CRLF
  {
    hide Find, Printable;
    PlainEntry(("Content-Length", "5 x"));
    var es := [("Content-Length", "5 x"), ("Host", "a")];
    assert es[1..] == [("Host", "a")] && es[1..][1..] == [];
  }

  lemma OddParts()
    ensures EndsAtBlankLine(OddHead()) && LineEnd(OddHead()) >= 0 && SplitRequestLine(LineOf(OddHead())).Some?
    ensures Entries(Block(OddHead())) == [("Host", "a")]
  {
    hide Find, Entries, SplitRequestLine, Print, Printable;
    OddSplit();
    OddFree();
    HostPrints();
    PrintedHead(OddLine(), [("Host", "a")]);
    assert "Host: a\r\n"[..7] == "Host: a";
  }

  lemma OddEntries()
    ensures Entries(OddHead()) == [("Content-Length", "5 x"), ("Host", "a")]
  {
    hide Find, Entries, Print, Printable;
    HostPrints();
    LengthPrints();
    var es := [("Content-Length", "5 x"), ("Host", "a")];
    Responses.CutPrintRoundTrip(es);
    assert (OddHead() + CRLF)[..|OddHead()|] == OddHead();
  }

  lemma TwoHeaders(a: Entry, b: Entry)
    requires a.0 != b.0
    ensures Store([a, b], map[]) == map[a.0 := a.1, b.0 := b.1] && Store([b], map[]) == map[b.0 := b.1]
  {
    var first: HeaderMap := map[a.0 := a.1];
    assert [a, b][1..] == [b] && [b][1..] == [];
    assert Store([b], first) == Store([], first[b.0 := b.1]);
    assert Store([b], map[]) == Store([], map[b.0 := b.1]);
    assert Store([a, b], map[]) == Store([b], first);
  }

  lemma OddMaps()
    requires Entries(OddHead()) == [("Content-Length", "5 x"), ("Host", "a")]
    requires LineEnd(OddHead()) >= 0 && Entries(Block(OddHead())) == [("Host", "a")]
    ensures DeclaredLength(HeadersOf(OddHead())) == "5 x" && !IsChunked(HeadersOf(OddHead()))
    ensures DeclaredLength(HeadersOf(Block(OddHead()))) == "" && !IsChunked(HeadersOf(Block(OddHead())))
  {
    hide Find, Entries, Store, OddHead, LineEnd;
    TwoHeaders(("Content-Length", "5 x"), ("Host", "a"));
  }

  lemma OddFraming()
    requires Entries(OddHead()) == [("Content-Length", "5 x"), ("Host", "a")]
    requires LineEnd(OddHead()) >= 0 && Entries(Block(OddHead())) == [("Host", "a")]
    ensures FramingOf(HeadersOf(Block(OddHead())), OddHead()) == Always
    ensures FramingOf(HeadersOf(OddHead()), OddHead()) == When(Some(5), false)
  {
    hide Find, Entries, HeadersOf, Atoi, IsChunked, DeclaredLength, LineEnd, Block, EndsInZeroLine;
    OddMaps();
    OddLength();
    assert |OddHead()| == 28;
  }

  lemma OddLength()
    ensures Atoi("5 x") == 5
  {
    hide Atoi, Clamp, ToInt32;
    AtoiPlain("5 x");
    assert "5 x"[1..] == " x" && DigitsValue("5 x", 0) == DigitsValue(" x", 5) == 5;
    SmallInt(5);
  }

  lemma OddBody(after: string)
    requires LineEnd(OddHead()) >= 0 && Entries(Block(OddHead())) == [("Host", "a")]
    ensures forall line :: var p := WithBody(line, HeadersOf(Block(OddHead())), after); p.Some? && p.value.body == ""
  {
    hide Find, Entries;
    assert HeadersOf(Block(OddHead())) == map["Host" := "a"] by { assert [("Host", "a")][1..] == []; }
  }

  lemma OneLineHead(line: string)
    requires '\r' !in line
    ensures EndsAtBlankLine(line) && LineEnd(line) < 0
  {
    hide Find, OccursAt;
    FindAfterFreeText(line, BLANK_LINE, BLANK_LINE);
    assert BLANK_LINE == "" + BLANK_LINE + "";
    OccursInMiddle("", BLANK_LINE, "");
    forall i ensures !OccursAt(line, CRLF, i) {
      if 0 <= i && i + 2 <= |line| { assert line[i] in line; Mismatch(line, CRLF, i, 0); } else { NotInside(line, CRLF, i); }
    }
  }

  function LoneHead(): string { "GET /a: HTTP/1.1" }

  /**
   * This line alone is rejected.  With a header behind the blank line in the same piece it is
   * dispatched, and that header is the request's.
   */
  lemma LoneLineExample()
    ensures EndsAtBlankLine(LoneHead()) && LineEnd(LoneHead()) < 0
    ensures Complete(LoneHead() + BLANK_LINE) && ParseRequest(LoneHead() + BLANK_LINE) == None
    ensures Dispatchable(LoneHead() + BLANK_LINE + "Host: a")
    ensures ParseRequest(LoneHead() + BLANK_LINE + "Host: a") == Some(Parsed("GET", "/a:", "", "HTTP/1.1", map["Host" := "a"], "", false))
  {
    hide Find, Entries, SplitRequestLine, Print, Printable, FramingOf, HeadersOf, EndsAtBlankLine, Complete, ParseRequest, LoneHead;
    LoneHeadShape();
    LoneHeadEntries();
    HostEntries();
    assert LoneHead() + BLANK_LINE + "" == LoneHead() + BLANK_LINE;
    NoColonNoEntries("");
    LoneLine(LoneHead(), "");
    LoneLine(LoneHead(), "Host: a");
    LoneHeaders();
  }

  lemma LoneHeadShape()
    ensures EndsAtBlankLine(LoneHead()) && LineEnd(LoneHead()) < 0
    ensures SplitRequestLine(LoneHead()) == Some(RequestLine("GET", "/a:", "", "HTTP/1.1"))
  {
    hide Find, OccursAt, LastSpace, EndsAtBlankLine;
    assert LoneHead() == "GET" + " " + "/a:" + " " + "HTTP/1.1";
    OneLineHead(LoneHead());
    SplitPlainLine("GET", "/a:", "HTTP/1.1");
  }

  lemma LoneHeadEntries()
    ensures Entries(LoneHead()) == [("GET /a", "HTTP/1.1")]
  {
    hide Find, Entries, Printable;
    var e := ("GET /a", "HTTP/1.1");
    PlainEntry(e);
    assert [e][1..] == [];
    Responses.CutPrintRoundTrip([e]);
    assert Print([e]) == LoneHead() + CRLF;
    assert (LoneHead() + CRLF)[..|LoneHead()|] == LoneHead();
  }

  lemma HostEntries()
    ensures Entries("Host: a") == [("Host", "a")]
  {
    hide Find, Entries, Print, Printable;
    HostPrints();
    Responses.CutPrintRoundTrip([("Host", "a")]);
    assert "Host: a\r\n"[..7] == "Host: a";
  }

  lemma LoneHeaders()
    requires Entries(LoneHead()) == [("GET /a", "HTTP/1.1")] && Entries("Host: a") == [("Host", "a")]
    ensures HeadersOf("Host: a") == map["Host" := "a"]
    ensures FramingOf(HeadersOf(LoneHead()), LoneHead()) == Always
  {
    hide Find, Entries, Atoi, EndsInZeroLine, LoneHead;
    assert [("Host", "a")][1..] == [] && [("GET /a", "HTTP/1.1")][1..] == [];
  }
}
