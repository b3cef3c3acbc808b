/**
 * Chunked requests on the wire: when the completion test, which only looks for the bytes
 * CRLF "0" CRLF CRLF, agrees with the decoder, which follows the chunk sizes.
 */
module ChunkedStreams {
  import opened Text
  import opened Headers
  import opened Requests
  import opened Connections
  import opened Sockets
  import opened Chunked
  import opened Framings
  import opened Fragmentation

  ghost predicate OnlyAtEnd(s: string) {
    forall i :: OccursAt(s, CHUNK_END, i) ==> i == |s| - 7
  }

  predicate AllValid(chunks: seq<Chunk>) {
    forall c :: c in chunks ==> ValidChunk(c)
  }

  /** The data of a chunk, between the line ends around it, does not look like the last chunk. */
  predicate Harmless(c: Chunk) {
    !Contains(CRLF + c.data + CRLF, CHUNK_END)
  }

  function Framed(chunks: seq<Chunk>): string {
    Frame(chunks) + LAST_CHUNK
  }

  // ---- where the end marker can be ----

  lemma LineStartsWithHex(c: Chunk)
    requires ValidChunk(c)
    ensures c.line != "" && IsHex(c.line[0])
    ensures c.line[0] == '0' ==> |c.line| > 1 && c.line[1] != '\r'
  {
    if c.line != "" && c.line[0] == '0' {
      var rest := c.line[1..];
      assert ChunkSize(c.line) == ChunkSize(rest, 0);
      if rest != "" { assert rest[0] == c.line[1] && !IsHex('\r'); }
    }
  }

  lemma FramedStartsWithHex(chunks: seq<Chunk>)
    requires AllValid(chunks)
    ensures Framed(chunks) != "" && IsHex(Framed(chunks)[0])
  {
    hide ValidChunk, ChunkSize;
    if chunks != [] {
      assert chunks[0] in chunks;
      LineStartsWithHex(chunks[0]);
      assert Frame(chunks)[0] == chunks[0].line[0];
    }
  }

  /** The marker does not start before the line end that follows a size line. */
  lemma NotInSizeLine(c: Chunk, after: string, i: int)
    requires ValidChunk(c) && i < 2 + |c.line|
    ensures !OccursAt(CRLF + c.line + CRLF + after, CHUNK_END, i)
  {
    hide Find, ValidChunk, ChunkSize;
    LineStartsWithHex(c);
    var s := CRLF + c.line + CRLF + after;
    assert Find(c.line, CRLF, 0) < 0 by { LineHasNoCrlf(c); }
    assert s[2] == c.line[0];
    if 0 <= i && i + 7 <= |s| {
      if i == 0 {
        if c.line[0] != '0' { Mismatch(s, CHUNK_END, 0, 2); } else { Mismatch(s, CHUNK_END, 0, 3); }
      } else if i == 1 {
        Mismatch(s, CHUNK_END, 1, 0);
      } else if i == 1 + |c.line| {
        Mismatch(s, CHUNK_END, i, 1);
      } else {
        assert !OccursAt(c.line, CRLF, i - 2);
        assert s[i] == c.line[i - 2] && s[i + 1] == c.line[i - 1];
        if c.line[i - 2] != '\r' { Mismatch(s, CHUNK_END, i, 0); } else {
          assert c.line[i - 2..i] == [c.line[i - 2], c.line[i - 1]];
          Mismatch(s, CHUNK_END, i, 1);
        }
      }
    }
  }

  lemma LineHasNoCrlf(c: Chunk)
    requires ValidChunk(c)
    ensures Find(c.line, CRLF, 0) < 0
  {
  }

  /** Nor does it straddle the end of a chunk: the next byte there is a hex digit. */
  lemma NotAcross(data: string, next: string, i: int)
    requires next != "" && IsHex(next[0])
    requires i < 2 + |data| && i + 7 > |data| + 4
    ensures !OccursAt(CRLF + data + CRLF + next, CHUNK_END, i)
  {
    var s := CRLF + data + CRLF + next;
    assert s[|data| + 4] == next[0];
    if 0 <= i && i + 7 <= |s| { Mismatch(s, CHUNK_END, i, |data| + 4 - i); }
  }

  /** Where the marker can be in the framing of one chunk and what follows. */
  lemma MarkerPlaces(c: Chunk, next: string, i: int)
    requires ValidChunk(c) && next != "" && IsHex(next[0])
    ensures var s := CRLF + c.line + CRLF + c.data + CRLF + next;
            var a, b := 2 + |c.line|, 4 + |c.line| + |c.data|;
            && (OccursAt(s, CHUNK_END, i) ==> (a <= i && i + 5 <= b) || b <= i)
            && (a <= i && i + 5 <= b ==>
                  (OccursAt(s, CHUNK_END, i) <==> OccursAt(CRLF + c.data + CRLF, CHUNK_END, i - a)))
            && (b <= i ==> (OccursAt(s, CHUNK_END, i) <==> OccursAt(CRLF + next, CHUNK_END, i - b)))
  {
    hide Find, ValidChunk, ChunkSize, OccursAt;
    var a, b := 2 + |c.line|, 4 + |c.line| + |c.data|;
    var s := CRLF + c.line + CRLF + c.data + CRLF + next;
    var front, inner, tail := CRLF + c.line, CRLF + c.data + CRLF, CRLF + next;
    if i < a {
      assert s == front + CRLF + (c.data + CRLF + next);
      NotInSizeLine(c, c.data + CRLF + next, i);
    } else {
      assert s == front + (inner + next) + "" && inner + next == "" + inner + next;
      assert s == (front + CRLF + c.data) + tail + "";
      if i < b {
        OccursInside(front, inner + next, "", CHUNK_END, i - a);
        if i + 5 <= b { OccursInside("", inner, next, CHUNK_END, i - a); } else { NotAcross(c.data, next, i - a); }
      } else {
        OccursInside(front + CRLF + c.data, tail, "", CHUNK_END, i - b);
      }
    }
  }

  lemma OccursInside(a: string, s: string, b: string, p: string, i: nat)
    ensures i + |p| <= |s| ==> (OccursAt(a + s + b, p, |a| + i) <==> OccursAt(s, p, i))
    ensures i + |p| > |s| && b == "" ==> !OccursAt(a + s + b, p, |a| + i) && !OccursAt(s, p, i)
  {
    if i + |p| <= |s| { OccursShift(a, s, b, p, i); }
  }

  /** The marker is only at the end iff no chunk's data shows it: one chunk at a time. */
  lemma OnlyAtEndStep(c: Chunk, next: string)
    requires ValidChunk(c) && |next| >= 5 && IsHex(next[0])
    ensures OnlyAtEnd(CRLF + c.line + CRLF + c.data + CRLF + next)
            <==> Harmless(c) && OnlyAtEnd(CRLF + next)
  {
    hide Find, ValidChunk, ChunkSize, OccursAt;
    var s := CRLF + c.line + CRLF + c.data + CRLF + next;
    var inner, tail := CRLF + c.data + CRLF, CRLF + next;
    var a, b := 2 + |c.line|, 4 + |c.line| + |c.data|;
    if OnlyAtEnd(s) {
      var j := Find(inner, CHUNK_END, 0);
      if j >= 0 { MarkerPlaces(c, next, a + j); }
      forall i | OccursAt(tail, CHUNK_END, i) ensures i == |tail| - 7 {
        BoundedOccurrence(tail, CHUNK_END, i);
        MarkerPlaces(c, next, b + i);
      }
    }
    if Harmless(c) && OnlyAtEnd(tail) {
      forall i | OccursAt(s, CHUNK_END, i) ensures i == |s| - 7 {
        MarkerPlaces(c, next, i);
      }
    }
  }

  lemma BoundedOccurrence(s: string, p: string, i: int)
    requires OccursAt(s, p, i)
    ensures 0 <= i && i + |p| <= |s|
  {
  }

  lemma NoFrames()
    ensures CRLF + Framed([]) == CHUNK_END
  {
  }

  lemma FramedSplit(c: Chunk, more: seq<Chunk>)
    ensures CRLF + Framed([c] + more) == CRLF + c.line + CRLF + c.data + CRLF + Framed(more)
    ensures CRLF + Framed([c] + more) == (CRLF + c.line + CRLF + c.data) + (CRLF + Framed(more)) + ""
  {
    assert ([c] + more)[1..] == more;
  }

  lemma {:induction false} MarkerInFrames(chunks: seq<Chunk>)
    requires AllValid(chunks)
    ensures |Framed(chunks)| >= 5 && OccursAt(CRLF + Framed(chunks), CHUNK_END, |Framed(chunks)| - 5)
    ensures OnlyAtEnd(CRLF + Framed(chunks)) <==> forall c :: c in chunks ==> Harmless(c)
  {
    hide Find, ValidChunk, ChunkSize, OccursAt, OnlyAtEnd, Harmless, Frame;
    if chunks == [] {
      NoFrames();
      MarkerItself();
    } else {
      var c, more := chunks[0], chunks[1..];
      assert chunks == [c] + more;
      MarkerInFrames(more);
      FramedStartsWithHex(more);
      OnlyAtEndStep(c, Framed(more));
      var front := CRLF + c.line + CRLF + c.data;
      FramedSplit(c, more);
      OccursInside(front, CRLF + Framed(more), "", CHUNK_END, |Framed(more)| - 5);
    }
  }

  lemma MarkerItself()
    ensures OnlyAtEnd(CHUNK_END) && OccursAt(CHUNK_END, CHUNK_END, 0)
  {
  }

  // ---- the whole stream ----

  /** How many bytes of the framing show the first marker; the line end before them counts. */
  function MarkerEnd(chunks: seq<Chunk>): int { Find(CRLF + Framed(chunks), CHUNK_END, 0) + 5 }

  lemma MarkerEndBounds(chunks: seq<Chunk>)
    requires AllValid(chunks)
    ensures 5 <= MarkerEnd(chunks) <= |Framed(chunks)|
    ensures MarkerEnd(chunks) == |Framed(chunks)| <==> forall c :: c in chunks ==> Harmless(c)
  {
    hide Find, OccursAt, Harmless, ValidChunk;
    var s := CRLF + Framed(chunks);
    MarkerInFrames(chunks);
    if Find(s, CHUNK_END, 0) == |s| - 7 {
      forall i | OccursAt(s, CHUNK_END, i) ensures i == |s| - 7 { BoundedOccurrence(s, CHUNK_END, i); }
    }
  }

  lemma MarkerWithin(chunks: seq<Chunk>, m: nat)
    requires AllValid(chunks) && m <= |Framed(chunks)|
    ensures Contains(CRLF + Framed(chunks)[..m], CHUNK_END) <==> m >= MarkerEnd(chunks)
  {
    hide Find, ValidChunk;
    MarkerEndBounds(chunks);
    assert (CRLF + Framed(chunks))[..m + 2] == CRLF + Framed(chunks)[..m];
    FindInPrefix(CRLF + Framed(chunks), CHUNK_END, m + 2);
  }

  /** Chunked, with or without a Content-Length. */
  predicate AnnouncesChunked(head: string)
    requires LineEnd(head) >= 0
  {
    IsChunked(HeadersOf(Block(head)))
  }

  /** How many bytes of the framing complete a request that is framed like f. */
  function CompleteAt(f: Framing, chunks: seq<Chunk>): int {
    match f
    case Always => 0
    case When(n, marker) => if n.Some? && (!marker || n.value < MarkerEnd(chunks)) then n.value else MarkerEnd(chunks)
  }

  lemma ArrivesInFrames(f: Framing, chunks: seq<Chunk>, m: nat)
    requires Canonical(f) && AllValid(chunks) && m <= |Framed(chunks)|
    ensures Arrives(f, Framed(chunks)[..m]) <==> m >= CompleteAt(f, chunks)
  {
    hide Contains, MarkerEnd, AllValid, Framed;
    MarkerWithin(chunks, m);
  }

  /** The request is complete on the wire when this many bytes of the framing are there. */
  function FirstComplete(head: string, chunks: seq<Chunk>): int {
    CompleteAt(FramingOf(HeadersOf(head), head), chunks)
  }

  /** Enough of the stream to make the completion test say yes: n bytes in all. */
  predicate LooksComplete(head: string, chunks: seq<Chunk>, n: nat) {
    n >= |head| + 4 && n - |head| - 4 >= FirstComplete(head, chunks)
  }

  function RawStream(head: string, chunks: seq<Chunk>): string { head + BLANK_LINE + Framed(chunks) }

  /** What of the stream is taken for complete. */
  lemma ChunkedComplete(head: string, chunks: seq<Chunk>, n: nat)
    requires IsHead(head) && AllValid(chunks) && n <= |RawStream(head, chunks)|
    ensures Complete(RawStream(head, chunks)[..n]) <==> LooksComplete(head, chunks, n)
  {
    hide Find, IsHead, HeadersOf, Complete, Entries, FramingOf, AllValid, CompleteAt, Arrives;
    HeadParts(head);
    DetectorReads(head);
    FramingCanonical(HeadersOf(head), head);
    CompleteOnPrefix(head, Framed(chunks), n);
    if n >= |head| + 4 { ArrivesInFrames(FramingOf(HeadersOf(head), head), chunks, n - |head| - 4); }
  }

  /**
   * Where a chunked request looks complete: with the blank line behind a last line "0", and else
   * with the marker, or before it with the number of bytes its Content-Length asks for.
   */
  lemma ChunkedFirstComplete(head: string, chunks: seq<Chunk>)
    requires IsHead(head) && AnnouncesChunked(head) && AllValid(chunks)
    ensures var n := LengthNeeded(HeadersOf(Block(head)), |head|);
            FirstComplete(head, chunks) ==
            if EndsInZeroLine(head) then 0
            else if n.Some? && n.value < MarkerEnd(chunks) then n.value
            else MarkerEnd(chunks)
    ensures 0 <= FirstComplete(head, chunks) <= MarkerEnd(chunks)
  {
    hide Find, IsHead, HeadersOf, Get, Atoi, EndsInZeroLine, MarkerEnd, AllValid, LengthNeeded;
    HeadParts(head);
    MarkerEndBounds(chunks);
  }

  /** The marker ends the stream exactly when nothing before looks like it. */
  lemma MarkerEndsStream(head: string, chunks: seq<Chunk>)
    requires EndsAtBlankLine(head) && AllValid(chunks)
    ensures var raw := RawStream(head, chunks);
            && 0 <= Find(raw, CHUNK_END, 0) <= |raw| - 7
            && (Find(raw, CHUNK_END, 0) == |raw| - 7 <==>
                  !EndsInZeroLine(head) && forall c :: c in chunks ==> Harmless(c))
  {
    hide Find, OccursAt, Harmless, ValidChunk, EndsAtBlankLine, EndsInZeroLine;
    var framed := Framed(chunks);
    var raw, r := RawStream(head, chunks), Find(RawStream(head, chunks), CHUNK_END, 0);
    MarkerEndBounds(chunks);
    MarkerSeen(head, framed);
    MarkerNotInHead(head, framed, r);
    if EndsInZeroLine(head) {
      ZeroLineMarks(head, framed);
    } else {
      MarkerBehindHead(head, framed, r);
      MarkerBehindHead(head, framed, |head| + 2 + Find(CRLF + framed, CHUNK_END, 0));
    }
  }

  /** A Content-Length beside the chunks asks for no fewer bytes than their framing has. */
  predicate AsksForAll(head: string, chunks: seq<Chunk>)
    requires LineEnd(head) >= 0
  {
    var n := LengthNeeded(HeadersOf(Block(head)), |head|);
    n.Some? ==> n.value >= |Framed(chunks)|
  }

  /** What the completion test and the decoder must agree on: the request ends with its last byte. */
  predicate EndsWithItsChunks(head: string, chunks: seq<Chunk>)
    requires LineEnd(head) >= 0
  {
    !EndsInZeroLine(head) && AsksForAll(head, chunks) && forall c :: c in chunks ==> Harmless(c)
  }

  lemma CompleteAtLastByte(head: string, chunks: seq<Chunk>)
    requires IsHead(head) && AnnouncesChunked(head) && AllValid(chunks)
    ensures 0 <= FirstComplete(head, chunks) <= |Framed(chunks)|
    ensures FirstComplete(head, chunks) == |Framed(chunks)| <==> EndsWithItsChunks(head, chunks)
  {
    hide Find, IsHead, Harmless, AllValid, HeadersOf, EndsInZeroLine, MarkerEnd, LengthNeeded, AnnouncesChunked, Framed, FirstComplete;
    HeadParts(head);
    ChunkedFirstComplete(head, chunks);
    MarkerEndBounds(chunks);
  }

  /**
   * A canonically framed chunked request is one request, complete with its last byte and not
   * before, exactly when the head does not end in a line "0", a Content-Length beside the chunks
   * does not ask for fewer bytes, and no chunk's data looks like the last chunk.  Parsed whole,
   * its body is the data of the chunks in any case.
   */
  lemma ChunkedStream(head: string, chunks: seq<Chunk>)
    requires IsHead(head) && AnnouncesChunked(head) && AllValid(chunks)
    ensures var raw := RawStream(head, chunks);
            && (OneRequest(raw) <==> EndsWithItsChunks(head, chunks))
            && ParseRequest(raw).Some? && ParseRequest(raw).value.body == Data(chunks)
  {
    hide Find, IsHead, ValidChunk, HeadersOf, ParseRequest, SplitRequestLine, Complete, Chunked.Unchunk, Dec, Entries,
      EndsWithItsChunks, FirstComplete;
    var raw := RawStream(head, chunks);
    HeadParts(head);
    ParseHead(head, Framed(chunks));
    ChunkRoundTrip(chunks, "");
    assert Framed(chunks) + "" == Framed(chunks);
    CompleteAtLastByte(head, chunks);
    forall n: nat | n <= |raw| ensures Complete(raw[..n]) <==> LooksComplete(head, chunks, n) {
      ChunkedComplete(head, chunks, n);
    }
    assert raw[..|raw|] == raw;
    if FirstComplete(head, chunks) < |Framed(chunks)| {
      assert LooksComplete(head, chunks, |head| + 4 + FirstComplete(head, chunks));
    }
  }

  /** The condition on the length, spelled out for all streams a std::string can hold. */
  lemma AsksForAllExactly(head: string, chunks: seq<Chunk>)
    requires LineEnd(head) >= 0 && AnnouncesChunked(head) && |RawStream(head, chunks)| <= STRING_MAX
    ensures var text := DeclaredLength(HeadersOf(Block(head)));
            AsksForAll(head, chunks) <==>
              text == "" || Atoi(text) >= |Framed(chunks)| || |head| + 4 + Atoi(text) < 0
  {
    hide Find, HeadersOf, Atoi, Get, Block, LineEnd, Frame;
    assert |Framed(chunks)| >= 5;
  }

  lemma Decoded(head: string, chunks: seq<Chunk>)
    requires IsHead(head) && AnnouncesChunked(head) && OneRequest(RawStream(head, chunks))
    ensures var p := ParseRequest(RawStream(head, chunks)).value;
            && p.chunked && Carries(p, head) && "Transfer-Encoding" !in p.headers
            && "Content-Length" in p.headers && p.headers["Content-Length"] == Dec(|p.body|)
  {
    hide OneRequest, ParseRequest, IsHead, Dec, LineEnd, Block, HeadersOf, SplitRequestLine, Framed;
    HeadParts(head);
    ParsedWhole(head, Framed(chunks));
  }

  /** Every delivery of such a request dispatches it once, on the last byte, decoded. */
  lemma ChunkedDispatchedOnce(head: string, chunks: seq<Chunk>, events: seq<Event>, handler: Handler, now: int)
    requires IsHead(head) && AnnouncesChunked(head) && AllValid(chunks) && EndsWithItsChunks(head, chunks)
    requires Quiet(events) && events != [] && Delivered(events) == RawStream(head, chunks)
    requires IsPiece(events[|events| - 1])
    ensures forall n: nat :: n < |events| ==>
              Run(events[..n], handler, now).client.state == IDLE
              && Run(events[..n], handler, now).log.dispatched == []
    ensures |Run(events, handler, now).log.dispatched| == 1
    ensures var p := Run(events, handler, now).log.dispatched[0];
            && p.body == Data(chunks) && p.chunked && Carries(p, head)
            && "Content-Length" in p.headers && p.headers["Content-Length"] == Dec(|Data(chunks)|)
            && "Transfer-Encoding" !in p.headers
  {
    hide Find, IsHead, OneRequest, ParseRequest, HeadersOf, Run, Delivered, EndsWithItsChunks, LineEnd, Dec, Carries,
      AnnouncesChunked, AllValid;
    HeadParts(head);
    ChunkedStream(head, chunks);
    Decoded(head, chunks);
    DispatchedOnce(RawStream(head, chunks), events, handler, now);
  }
}
