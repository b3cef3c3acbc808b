/**
 * Chunked requests whose data looks like the last chunk: what the server does with every prefix
 * that shows the marker early, and with every delivery of such a stream.
 */
module CutStreams {
  import opened Text
  import opened Headers
  import opened Requests
  import opened Connections
  import opened Sockets
  import opened Chunked
  import opened Framings
  import opened Fragmentation
  import opened ChunkedStreams
  import Responses

  // ---- decoding a prefix of the framing ----

  function FrameOf(c: Chunk): string { c.line + CRLF + c.data + CRLF }

  /** How many chunks the first m bytes of the framing hold whole. */
  function WholeChunks(chunks: seq<Chunk>, m: nat): (k: nat)
    ensures k <= |chunks|
    decreases |chunks|
  {
    if chunks == [] || m < |FrameOf(chunks[0])| then 0
    else 1 + WholeChunks(chunks[1..], m - |FrameOf(chunks[0])|)
  }

  /** The first m bytes end between two chunks, or behind the size line of the last one. */
  predicate EndsBetween(chunks: seq<Chunk>, m: nat)
    decreases |chunks|
  {
    if chunks == [] then m == 0 || m >= 3
    else if m < |FrameOf(chunks[0])| then m == 0
    else EndsBetween(chunks[1..], m - |FrameOf(chunks[0])|)
  }

  lemma FrameSplit(chunks: seq<Chunk>)
    requires chunks != []
    ensures Frame(chunks) == FrameOf(chunks[0]) + Frame(chunks[1..])
    ensures Framed(chunks) == FrameOf(chunks[0]) + Framed(chunks[1..])
  {
  }

  /** In positions: where the framing of the first k chunks ends, or three bytes into the last chunk. */
  lemma {:induction false} EndsBetweenExactly(chunks: seq<Chunk>, m: nat)
    ensures EndsBetween(chunks, m) <==>
            m >= |Frame(chunks)| + 3 || m == |Frame(chunks[..WholeChunks(chunks, m)])|
    ensures |Frame(chunks[..WholeChunks(chunks, m)])| <= m
    ensures WholeChunks(chunks, m) < |chunks| ==> m < |Frame(chunks[..WholeChunks(chunks, m) + 1])|
    decreases |chunks|
  {
    if chunks == [] {
      assert chunks[..0] == [];
    } else {
      var c, rest := chunks[0], chunks[1..];
      FrameSplit(chunks);
      if m < |FrameOf(c)| {
        assert chunks[..0] == [] && chunks[..1] == [c];
        FrameSplit([c]);
        assert [c][1..] == [];
      } else {
        var k := WholeChunks(rest, m - |FrameOf(c)|);
        EndsBetweenExactly(rest, m - |FrameOf(c)|);
        FirstChunks(chunks, k);
        if k < |rest| { FirstChunks(chunks, k + 1); }
      }
    }
  }

  lemma FirstChunks(chunks: seq<Chunk>, k: nat)
    requires chunks != [] && k < |chunks|
    ensures Frame(chunks[..k + 1]) == FrameOf(chunks[0]) + Frame(chunks[1..][..k])
    ensures Data(chunks[..k + 1]) == chunks[0].data + Data(chunks[1..][..k])
  {
    assert chunks[..k + 1][0] == chunks[0] && chunks[..k + 1][1..] == chunks[1..][..k];
  }

  /** Inside a size line there is no line end yet. */
  lemma CutLineFails(c: Chunk, rest: string, m: nat)
    requires ValidChunk(c) && 0 < m < |c.line| + 2
    ensures Unchunk((c.line + CRLF + rest)[..m]) == None
  {
    hide Find, ChunkSize;
    LineEnds(c.line, rest);
    FindInPrefix(c.line + CRLF + rest, CRLF, m);
  }

  /** Inside the data, or the line end after it, the announced size is not there. */
  lemma CutDataFails(c: Chunk, part: string)
    requires ValidChunk(c) && |part| < |c.data| + 2
    ensures Unchunk(c.line + CRLF + part) == None
  {
    hide Find, ChunkSize;
    LineEnds(c.line, part);
    assert (c.line + CRLF + part)[0..|c.line|] == c.line;
  }

  lemma CutChunkFails(c: Chunk, rest: string, m: nat)
    requires ValidChunk(c) && 0 < m < |FrameOf(c)|
    ensures Unchunk((FrameOf(c) + rest)[..m]) == None
  {
    hide Find, ChunkSize, Unchunk, ValidChunk;
    var after := c.data + CRLF + rest;
    assert FrameOf(c) + rest == c.line + CRLF + after;
    if m < |c.line| + 2 {
      CutLineFails(c, after, m);
    } else {
      assert (c.line + CRLF + after)[..m] == c.line + CRLF + after[..m - |c.line| - 2];
      CutDataFails(c, after[..m - |c.line| - 2]);
    }
  }

  lemma CutLastChunk(m: nat)
    requires m <= 5
    ensures Unchunk(LAST_CHUNK[..m]) == if m == 0 || m >= 3 then Some("") else None
  {
    hide Find;
    var last := LAST_CHUNK[..m];
    assert LAST_CHUNK == "0" + CRLF + CRLF;
    LineEnds("0", CRLF);
    FindInPrefix(LAST_CHUNK, CRLF, m);
    if m >= 3 { assert last[0..1] == "0" && "0"[1..] == ""; }
  }

  /** What decoding makes of every prefix: the whole chunks between chunks, failure inside one. */
  lemma {:induction false} CutDecodes(chunks: seq<Chunk>, m: nat)
    requires AllValid(chunks) && m <= |Framed(chunks)|
    ensures Unchunk(Framed(chunks)[..m]) ==
            if EndsBetween(chunks, m) then Some(Data(chunks[..WholeChunks(chunks, m)])) else None
    decreases |chunks|
  {
    hide Find, ChunkSize, Unchunk, ValidChunk, Data;
    if chunks == [] {
      assert chunks[..0] == [] && Framed(chunks) == LAST_CHUNK;
      CutLastChunk(m);
      NothingToDecode();
    } else {
      var c, rest := chunks[0], chunks[1..];
      assert c in chunks && forall x :: x in rest ==> x in chunks;
      FrameSplit(chunks);
      if m == 0 {
        assert Framed(chunks)[..0] == "" && chunks[..0] == [];
        NothingToDecode();
      } else if m < |FrameOf(c)| {
        CutChunkFails(c, Framed(rest), m);
      } else {
        var part := Framed(rest)[..m - |FrameOf(c)|];
        CutBehind(FrameOf(c), Framed(rest), m);
        UnchunkFirst(c, part);
        CutDecodes(rest, m - |FrameOf(c)|);
        FirstChunks(chunks, WholeChunks(rest, m - |FrameOf(c)|));
      }
    }
  }

  lemma CutBehind(a: string, b: string, m: nat)
    requires |a| <= m <= |a| + |b|
    ensures (a + b)[..m] == a + b[..m - |a|]
  {
  }

  lemma NothingToDecode()
    ensures Unchunk("") == Some("") && Data([]) == ""
  {
  }

  // ---- every prefix of a request ----

  /** The first n bytes are taken for a request, and for one that parses. */
  predicate Takes(head: string, chunks: seq<Chunk>, n: nat) {
    LooksComplete(head, chunks, n) && EndsBetween(chunks, n - |head| - 4)
  }

  /** They are taken for a request, and for one that does not parse. */
  predicate Rejects(head: string, chunks: seq<Chunk>, n: nat) {
    LooksComplete(head, chunks, n) && !EndsBetween(chunks, n - |head| - 4)
  }

  function BodyAt(head: string, chunks: seq<Chunk>, n: nat): string {
    if n < |head| + 4 then "" else Data(chunks[..WholeChunks(chunks, n - |head| - 4)])
  }

  /**
   * A prefix that is taken for complete is rejected exactly when it ends inside a size line or a
   * chunk; otherwise it is dispatched, with the data of the chunks that are whole.
   */
  lemma PrefixOutcome(head: string, chunks: seq<Chunk>, n: nat)
    requires IsHead(head) && AnnouncesChunked(head) && AllValid(chunks) && n <= |RawStream(head, chunks)|
    ensures var part := RawStream(head, chunks)[..n];
            && (Complete(part) && ParseRequest(part).None? <==> Rejects(head, chunks, n))
            && (Dispatchable(part) <==> Takes(head, chunks, n))
            && (Takes(head, chunks, n) ==> ParseRequest(part).value.body == BodyAt(head, chunks, n))
  {
    hide Find, IsHead, HeadersOf, Complete, ParseRequest, Entries, ValidChunk, MarkerEnd, Unchunk, SplitRequestLine, Dec,
      EndsBetween, WholeChunks, EndsInZeroLine;
    HeadParts(head);
    ChunkedComplete(head, chunks, n);
    if n >= |head| + 4 {
      var part := Framed(chunks)[..n - |head| - 4];
      assert RawStream(head, chunks)[..n] == head + BLANK_LINE + part;
      ParseHead(head, part);
      CutDecodes(chunks, n - |head| - 4);
    }
  }

  // ---- every delivery ----

  /** The number of bytes after the first i events. */
  function SizeAt(events: seq<Event>, i: nat): nat
    requires i <= |events|
  {
    |Delivered(events[..i])|
  }

  /** No piece so far ended where the bytes are dispatched. */
  ghost predicate NoneTaken(head: string, chunks: seq<Chunk>, events: seq<Event>) {
    forall i :: 0 < i <= |events| && IsPiece(events[i - 1]) ==> !Takes(head, chunks, SizeAt(events, i))
  }

  /** How many pieces ended where the bytes are rejected. */
  function Rejected(head: string, chunks: seq<Chunk>, events: seq<Event>): nat {
    if events == [] then 0
    else
      Rejected(head, chunks, events[..|events| - 1])
      + if IsPiece(events[|events| - 1]) && Rejects(head, chunks, SizeAt(events, |events|)) then 1 else 0
  }

  lemma PartAt(raw: string, events: seq<Event>, i: nat)
    requires i <= |events| && Delivered(events) <= raw
    ensures SizeAt(events, i) <= |raw| && Delivered(events[..i]) == raw[..SizeAt(events, i)]
  {
    hide Delivered;
    DeliveredMonotone(events, i);
  }

  lemma NoneTakenMeans(head: string, chunks: seq<Chunk>, events: seq<Event>)
    requires IsHead(head) && AnnouncesChunked(head) && AllValid(chunks)
    requires Delivered(events) <= RawStream(head, chunks)
    ensures NoneTaken(head, chunks, events) <==> NotDispatched(events)
  {
    hide IsHead, AnnouncesChunked, AllValid, Takes, Dispatchable, Delivered, RawStream, Rejects;
    forall i | 0 < i <= |events|
      ensures Dispatchable(Delivered(events[..i])) <==> Takes(head, chunks, SizeAt(events, i))
    {
      PartAt(RawStream(head, chunks), events, i);
      PrefixOutcome(head, chunks, SizeAt(events, i));
    }
  }

  lemma {:induction false} RejectedMeans(head: string, chunks: seq<Chunk>, events: seq<Event>)
    requires IsHead(head) && AnnouncesChunked(head) && AllValid(chunks)
    requires Delivered(events) <= RawStream(head, chunks) && NotDispatched(events)
    ensures Rejected(head, chunks, events) == Rejections(events)
    decreases |events|
  {
    hide IsHead, AnnouncesChunked, AllValid, Rejects, Takes, Complete, ParseRequest, RawStream;
    if events != [] {
      var before := events[..|events| - 1];
      assert forall i :: 0 <= i <= |before| ==> before[..i] == events[..i];
      assert events[..|events|] == events;
      PartAt(RawStream(head, chunks), events, |before|);
      RejectedMeans(head, chunks, before);
      PartAt(RawStream(head, chunks), events, |events|);
      PrefixOutcome(head, chunks, SizeAt(events, |events|));
    }
  }

  /**
   * Until a piece ends where the bytes are dispatched, the client is idle and nothing is sent:
   * every piece that ends where they are rejected only leaves the 400 page in the buffer.
   */
  lemma RejectionsAreSilent(head: string, chunks: seq<Chunk>, events: seq<Event>, handler: Handler, now: int)
    requires IsHead(head) && AnnouncesChunked(head) && AllValid(chunks)
    requires Quiet(events) && Delivered(events) <= RawStream(head, chunks) && NoneTaken(head, chunks, events)
    ensures var k := Run(events, handler, now);
            && k.open && k.client.state == IDLE && k.client.requestBuffer == Delivered(events)
            && k.client.responseBuffer == Stale(Rejected(head, chunks, events))
            && k.log == EmptyLog().(rejected := Rejected(head, chunks, events))
  {
    hide IsHead, AnnouncesChunked, AllValid, Run, Delivered, NoneTaken, NotDispatched, RawStream, Quiet, Rejected, Rejections;
    NoneTakenMeans(head, chunks, events);
    RejectedMeans(head, chunks, events);
    UntilDispatched(events, handler, now);
  }

  /**
   * The first piece that ends where the bytes are dispatched dispatches the data of the chunks
   * that are whole by then.  If any piece was rejected before, what goes out is the 400 page and
   * not a byte of the handler's reply, whatever the sends take.
   */
  lemma StaleRejection(head: string, chunks: seq<Chunk>, events: seq<Event>, writes: seq<Event>, handler: Handler, now: int)
    requires IsHead(head) && AnnouncesChunked(head) && AllValid(chunks)
    requires Quiet(events) && events != [] && IsPiece(events[|events| - 1])
    requires Delivered(events) <= RawStream(head, chunks)
    requires NoneTaken(head, chunks, events[..|events| - 1]) && Takes(head, chunks, |Delivered(events)|)
    requires forall e :: e in writes ==> e.Writable?
    ensures ParseRequest(Delivered(events)).Some?
    ensures var request := ParseRequest(Delivered(events)).value;
            var rejected := Rejected(head, chunks, events[..|events| - 1]);
            var outcome, k := handler(request, WantsKeepAlive(request)), Run(events, handler, now);
            && request.body == BodyAt(head, chunks, |Delivered(events)|)
            && k.log.dispatched == [request] && k.log.rejected == rejected && k.log.wire == ""
            && (k.open ==> k.client.state == WRITING_RESPONSE)
            && (outcome.Respond? && outcome.reply.Rendered? ==>
                  var page := if rejected == 0 then outcome.reply.text else Responses.BadRequestPage();
                  && Run(events + writes, handler, now).log.dispatched == [request]
                  && Run(events + writes, handler, now).log.wire <= page)
  {
    hide IsHead, AnnouncesChunked, AllValid, Run, NoneTaken, NotDispatched, RawStream, Quiet, Rejected, Rejections, Takes,
      ParseRequest, Complete, Delivered, Responses.BadRequestPage, Begun, BodyAt;
    var before, raw := events[..|events| - 1], RawStream(head, chunks);
    DeliveredMonotone(events, |before|);
    NoneTakenMeans(head, chunks, before);
    RejectedMeans(head, chunks, before);
    PrefixOutcome(head, chunks, |Delivered(events)|);
    assert raw[..|Delivered(events)|] == Delivered(events);
    DispatchedByPiece(events, handler, now);
    ReplyOrStalePage(events, writes, handler, now);
  }

  /** Every delivery of the whole stream comes to such a piece. */
  lemma EveryDeliveryDispatches(head: string, chunks: seq<Chunk>, events: seq<Event>) returns (n: nat)
    requires IsHead(head) && AnnouncesChunked(head) && AllValid(chunks)
    requires events != [] && IsPiece(events[|events| - 1]) && Delivered(events) == RawStream(head, chunks)
    ensures 0 < n <= |events| && IsPiece(events[n - 1])
    ensures NoneTaken(head, chunks, events[..n - 1]) && Takes(head, chunks, SizeAt(events, n))
  {
    hide IsHead, AnnouncesChunked, AllValid, RawStream, Delivered, Takes;
    assert events[..|events|] == events;
    WholeStreamTaken(head, chunks);
    n := 1;
    while !(IsPiece(events[n - 1]) && Takes(head, chunks, SizeAt(events, n)))
      invariant 0 < n <= |events|
      invariant forall i :: 0 < i < n && IsPiece(events[i - 1]) ==> !Takes(head, chunks, SizeAt(events, i))
      decreases |events| - n
    {
      n := n + 1;
    }
    var before := events[..n - 1];
    forall i | 0 < i <= |before| && IsPiece(before[i - 1]) ensures !Takes(head, chunks, SizeAt(before, i)) {
      assert before[..i] == events[..i] && before[i - 1] == events[i - 1];
      assert SizeAt(before, i) == SizeAt(events, i);
    }
  }

  lemma WholeStreamTaken(head: string, chunks: seq<Chunk>)
    requires IsHead(head) && AnnouncesChunked(head) && AllValid(chunks)
    ensures Takes(head, chunks, |RawStream(head, chunks)|)
  {
    hide Find, IsHead, AnnouncesChunked, AllValid, EndsWithItsChunks, FirstComplete, Framed;
    CompleteAtLastByte(head, chunks);
    WholeFraming(chunks);
    EndsBetweenExactly(chunks, |Framed(chunks)|);
  }

  lemma WholeFraming(chunks: seq<Chunk>)
    ensures |Framed(chunks)| == |Frame(chunks)| + 5
  {
  }

  /** A head whose last line is "0", or with a Content-Length of 0, is dispatched with the blank line, without a body. */
  lemma HeadAlone(head: string, chunks: seq<Chunk>)
    requires IsHead(head) && AnnouncesChunked(head) && AllValid(chunks)
    requires EndsInZeroLine(head) || LengthNeeded(HeadersOf(Block(head)), |head|) == Some(0)
    ensures Takes(head, chunks, |head| + 4) && BodyAt(head, chunks, |head| + 4) == ""
  {
    hide IsHead, AnnouncesChunked, AllValid, EndsInZeroLine, MarkerEnd, FirstComplete, LengthNeeded, HeadersOf;
    HeadParts(head);
    ChunkedFirstComplete(head, chunks);
    MarkerEndBounds(chunks);
    if chunks != [] { assert |FrameOf(chunks[0])| >= 4; }
    assert chunks[..0] == [];
  }

  /** The dispatched body is the whole data exactly when the last chunk with data was there. */
  lemma {:induction false} BodyWholeExactly(chunks: seq<Chunk>, m: nat)
    requires AllValid(chunks)
    ensures Data(chunks[..WholeChunks(chunks, m)]) == Data(chunks) <==> m >= |Frame(chunks)|
    ensures |Data(chunks[..WholeChunks(chunks, m)])| <= |Data(chunks)|
    decreases |chunks|
  {
    hide ValidChunk;
    if chunks == [] {
      assert chunks[..0] == chunks;
    } else {
      var c, rest := chunks[0], chunks[1..];
      assert c in chunks && forall x :: x in rest ==> x in chunks;
      FrameSplit(chunks);
      DataNotEmpty(c);
      if m < |FrameOf(c)| {
        assert chunks[..0] == [] && |Data(chunks)| == |c.data| + |Data(rest)|;
      } else {
        BodyWholeExactly(rest, m - |FrameOf(c)|);
        var k := WholeChunks(rest, m - |FrameOf(c)|);
        FirstChunks(chunks, k);
        assert (c.data + Data(rest[..k]))[|c.data|..] == Data(rest[..k]) && (c.data + Data(rest))[|c.data|..] == Data(rest);
      }
    }
  }

  lemma DataNotEmpty(c: Chunk)
    requires ValidChunk(c)
    ensures c.data != ""
  {
  }

  // ---- one such stream ----

  function ExampleHead(): string { "POST / HTTP/1.1" + CRLF + "Transfer-Encoding: chunked" }

  /** Two chunks; the data of the first, behind its size line, reads like the last chunk. */
  function ExampleChunks(): seq<Chunk> { [Chunk("5", "0\r\n\r\n"), Chunk("1", "x")] }

  /**
   * Cut in front of the line end that closes the first chunk, the request is rejected; cut behind
   * it, the request is dispatched with the first chunk alone.
   */
  lemma ExampleCut()
    ensures IsHead(ExampleHead()) && AnnouncesChunked(ExampleHead()) && AllValid(ExampleChunks())
    ensures Rejects(ExampleHead(), ExampleChunks(), |ExampleHead()| + 4 + 8)
    ensures Takes(ExampleHead(), ExampleChunks(), |ExampleHead()| + 4 + 10)
    ensures BodyAt(ExampleHead(), ExampleChunks(), |ExampleHead()| + 4 + 10) == "0\r\n\r\n" != Data(ExampleChunks())
  {
    hide Find, IsHead, AnnouncesChunked, AllValid, MarkerEnd, ExampleHead, FirstComplete;
    ExampleIsHead();
    ExampleValid();
    ExampleMarker();
    var chunks := ExampleChunks();
    ChunkedFirstComplete(ExampleHead(), chunks);
    assert chunks[1..] == [Chunk("1", "x")] && chunks[1..][1..] == [];
    assert |FrameOf(chunks[0])| == 10;
    assert WholeChunks(chunks, 10) == 1 && chunks[..1] == [chunks[0]] && [chunks[0]][1..] == [];
    assert Data(chunks) == "0\r\n\r\n" + ("x" + "");
    assert Data([chunks[0]]) == "0\r\n\r\n" + "";
  }

  lemma ExampleValid()
    ensures AllValid(ExampleChunks())
  {
    hide Find;
    NoCrlfInOne("5");
    NoCrlfInOne("1");
    assert "5"[1..] == "" && "1"[1..] == "";
    assert ChunkSize("5") == 5 && ChunkSize("1") == 1;
  }

  lemma NoCrlfInOne(line: string)
    requires |line| == 1
    ensures Find(line, CRLF, 0) < 0
  {
  }

  lemma ExampleMarker()
    ensures MarkerEnd(ExampleChunks()) <= 8
  {
    hide Find, OccursAt;
    var chunks := ExampleChunks();
    assert chunks[1..] == [Chunk("1", "x")] && chunks[1..][1..] == [];
    var rest := CRLF + Framed(chunks[1..]);
    FrameSplit(chunks);
    assert CRLF + Framed(chunks) == (CRLF + "5") + CHUNK_END + rest;
    OccursInMiddle(CRLF + "5", CHUNK_END, rest);
  }

  lemma ExampleIsHead()
    ensures IsHead(ExampleHead()) && AnnouncesChunked(ExampleHead())
  {
    hide Find, Entries, SplitRequestLine, Print, Printable, IsHead, Block, LineEnd;
    PostLine();
    EncodingPrints();
    var es := [("Transfer-Encoding", "chunked")];
    PrintedHead("POST / HTTP/1.1", es);
    assert ("Transfer-Encoding: chunked" + CRLF)[..|"Transfer-Encoding: chunked"|] == "Transfer-Encoding: chunked";
    HeadParts(ExampleHead());
    assert es[1..] == [];
    assert Store(es, map[]) == Store([], map["Transfer-Encoding" := "chunked"]);
  }

  /** Chunked, with a Content-Length of 0 beside it. */
  function BothHead(): string { ExampleHead() + CRLF + "Content-Length: 0" }

  /** Whatever the chunks are, such a request is dispatched with the blank line, without a body. */
  lemma ExampleLength(chunks: seq<Chunk>)
    requires AllValid(chunks)
    ensures IsHead(BothHead()) && AnnouncesChunked(BothHead())
    ensures Takes(BothHead(), chunks, |BothHead()| + 4) && BodyAt(BothHead(), chunks, |BothHead()| + 4) == ""
    ensures !OneRequest(RawStream(BothHead(), chunks))
  {
    hide Find, IsHead, AnnouncesChunked, AllValid, BothHead, LengthNeeded, HeadersOf, Takes, BodyAt, OneRequest, EndsInZeroLine, Framed;
    BothIsHead();
    HeadAlone(BothHead(), chunks);
    ChunkedStream(BothHead(), chunks);
    WholeFraming(chunks);
  }

  lemma BothIsHead()
    ensures IsHead(BothHead()) && AnnouncesChunked(BothHead())
    ensures LengthNeeded(HeadersOf(Block(BothHead())), |BothHead()|) == Some(0)
  {
    hide Find, Entries, SplitRequestLine, Print, Printable, IsHead, Block, LineEnd, Store, LengthNeeded;
    PostLine();
    BothPrints();
    var es := [("Transfer-Encoding", "chunked"), ("Content-Length", "0")];
    PrintedHead("POST / HTTP/1.1", es);
    var text := "Transfer-Encoding: chunked" + CRLF + "Content-Length: 0";
    assert (text + CRLF)[..|text|] == text;
    assert "POST / HTTP/1.1" + CRLF + text == BothHead();
    HeadParts(BothHead());
    TwoHeaders(es[0], es[1]);
    NothingAsked(HeadersOf(Block(BothHead())), |BothHead()|);
  }

  lemma NothingAsked(h: HeaderMap, size: nat)
    requires DeclaredLength(h) == "0"
    ensures LengthNeeded(h, size) == Some(0)
  {
    hide Atoi, Get;
    AtoiZero();
    assert (size + 4) % TWO_64 <= size + 4;
  }

  lemma AtoiZero()
    ensures Atoi("0") == 0
  {
    hide Atoi, Clamp, ToInt32;
    AtoiPlain("0");
    assert "0"[1..] == "" && DigitsValue("0", 0) == DigitsValue("", 0) == 0;
    SmallInt(0);
  }

  lemma BothPrints()
    ensures Printable(("Transfer-Encoding", "chunked")) && Printable(("Content-Length", "0"))
    ensures Print([("Transfer-Encoding", "chunked"), ("Content-Length", "0")])
            == "Transfer-Encoding: chunked" + CRLF + "Content-Length: 0" + CRLF
  {
    hide Find, Printable;
    EncodingPrints();
    PlainEntry(("Content-Length", "0"));
    var es := [("Transfer-Encoding", "chunked"), ("Content-Length", "0")];
    assert es[1..] == [("Content-Length", "0")] && es[1..][1..] == [];
  }

  lemma EncodingPrints()
    ensures Printable(("Transfer-Encoding", "chunked"))
    ensures Print([("Transfer-Encoding", "chunked")]) == "Transfer-Encoding: chunked" + CRLF
  {
    hide Find, Printable;
    PlainEntry(("Transfer-Encoding", "chunked"));
    assert [("Transfer-Encoding", "chunked")][1..] == [];
  }

  lemma PostLine()
    ensures SplitRequestLine("POST / HTTP/1.1").Some? && Free("POST / HTTP/1.1", {'\r', '\n'})
    ensures Find("POST / HTTP/1.1", ": ", 0) < 0
  {
    hide Find, OccursAt, SplitRequestLine;
    PostSplit();
    var line := "POST / HTTP/1.1";
    forall i ensures !OccursAt(line, ": ", i) {
      if 0 <= i && i + 2 <= |line| { Mismatch(line, ": ", i, 0); } else { NotInside(line, ": ", i); }
    }
  }

  lemma PostSplit()
    ensures SplitRequestLine("POST / HTTP/1.1").Some?
  {
    hide Find, OccursAt, LastSpace;
    var line := "POST / HTTP/1.1";
    FirstBlankAt(line, 4);
    assert line[6] == ' ';
  }
}
