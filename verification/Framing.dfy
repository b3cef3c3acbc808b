/**
 * How the completion test frames a request: which bytes after the head it waits for, and when two
 * header maps make it wait for the same.
 */
module Framings {
  import opened Text
  import opened Headers
  import opened Connections

  // ---- heads ----

  /** The first blank line after head is the one that ends it. */
  predicate EndsAtBlankLine(head: string) { Find(head + BLANK_LINE, BLANK_LINE, 0) == |head| }

  lemma HeadFirst(head: string, after: string)
    requires EndsAtBlankLine(head)
    ensures var raw := head + BLANK_LINE + after;
            Find(raw, BLANK_LINE, 0) == |head| && raw[..|head|] == head && raw[|head| + 4..] == after
  {
    hide Find;
    FindStable(head + BLANK_LINE, after, BLANK_LINE);
  }

  // ---- the end marker CRLF "0" CRLF CRLF ----

  predicate EndsInZeroLine(head: string) {
    |head| >= 3 && head[|head| - 3..] == "\r\n0"
  }

  lemma MarkerShape(s: string, i: int)
    requires OccursAt(s, CHUNK_END, i)
    ensures 0 <= i && i + 7 <= |s| && s[i] == '\r' && s[i + 1] == '\n' && s[i + 2] == '0'
    ensures s[i..i + 3] == "\r\n0" && OccursAt(s, BLANK_LINE, i + 3)
  {
    var m := s[i..i + 7];
    assert m[0] == s[i] && m[1] == s[i + 1] && m[2] == s[i + 2];
    assert m[3..7] == s[i + 3..i + 7];
    assert CHUNK_END[3..7] == BLANK_LINE;
  }

  /** The marker starts behind the head, or at a last line "0" of it. */
  lemma MarkerNotInHead(head: string, after: string, i: int)
    requires EndsAtBlankLine(head) && OccursAt(head + BLANK_LINE + after, CHUNK_END, i)
    ensures i >= |head| + 2 || (i == |head| - 3 && EndsInZeroLine(head))
  {
    hide Find, OccursAt, EndsAtBlankLine;
    var raw := head + BLANK_LINE + after;
    HeadFirst(head, after);
    MarkerShape(raw, i);
    assert raw[|head|] == '\r' && raw[|head| + 1] == '\n' && raw[|head| + 2] == '\r';
    if i == |head| - 3 { assert raw[i..|head|] == head[i..]; }
  }

  /** Behind the head it is where it is in what follows. */
  lemma MarkerBehindHead(head: string, after: string, i: int)
    requires i >= |head| + 2
    ensures OccursAt(head + BLANK_LINE + after, CHUNK_END, i) <==> OccursAt(CRLF + after, CHUNK_END, i - |head| - 2)
  {
    var raw, j := head + BLANK_LINE + after, i - |head| - 2;
    assert raw == (head + CRLF) + (CRLF + after) + "";
    if j + 7 <= |CRLF + after| { OccursShift(head + CRLF, CRLF + after, "", CHUNK_END, j); }
  }

  lemma ZeroLineMarks(head: string, after: string)
    requires EndsInZeroLine(head)
    ensures OccursAt(head + BLANK_LINE + after, CHUNK_END, |head| - 3)
  {
    assert head == head[..|head| - 3] + "\r\n0";
    assert head + BLANK_LINE + after == head[..|head| - 3] + CHUNK_END + after;
    OccursInMiddle(head[..|head| - 3], CHUNK_END, after);
  }

  /** Whether a request shows the marker at all. */
  lemma MarkerSeen(head: string, after: string)
    requires EndsAtBlankLine(head)
    ensures Contains(head + BLANK_LINE + after, CHUNK_END) <==> EndsInZeroLine(head) || Contains(CRLF + after, CHUNK_END)
  {
    hide Find, OccursAt, EndsAtBlankLine, EndsInZeroLine;
    var raw := head + BLANK_LINE + after;
    var r, j := Find(raw, CHUNK_END, 0), Find(CRLF + after, CHUNK_END, 0);
    if r >= 0 {
      MarkerNotInHead(head, after, r);
      if r >= |head| + 2 { MarkerBehindHead(head, after, r); }
    }
    if j >= 0 { MarkerBehindHead(head, after, |head| + 2 + j); }
    if EndsInZeroLine(head) { ZeroLineMarks(head, after); }
  }

  // ---- what the completion test waits for ----

  /**
   * Always: complete with the blank line.  When: with a number of bytes after it, or, if marker is
   * set, as soon as the marker is seen.
   */
  datatype Framing = Always | When(length: Option<nat>, marker: bool)

  predicate IsChunked(h: HeaderMap) { Get(h, "Transfer-Encoding") == "chunked" }

  function DeclaredLength(h: HeaderMap): string { Get(h, "Content-Length") }

  /** How many bytes the length arithmetic asks for; it wraps around at 2^64. */
  function LengthNeeded(h: HeaderMap, size: nat): Option<nat> {
    if DeclaredLength(h) != "" then
      var end := (size + 4 + Atoi(DeclaredLength(h))) % TWO_64;
      Some(if end <= size + 4 then 0 else end - size - 4)
    else if IsChunked(h) then None
    else Some(0)
  }

  /** The marker takes five bytes, so it decides nothing where at most five are waited for. */
  function FramingOf(h: HeaderMap, head: string): Framing {
    var n := LengthNeeded(h, |head|);
    if n == Some(0) || (IsChunked(h) && EndsInZeroLine(head)) then Always
    else When(n, IsChunked(h) && (n.None? || n.value > 5))
  }

  predicate Arrives(f: Framing, after: string) {
    match f
    case Always => true
    case When(n, marker) => (n.Some? && |after| >= n.value) || (marker && Contains(CRLF + after, CHUNK_END))
  }

  lemma MarkerTakesFive(after: string)
    ensures Contains(CRLF + after, CHUNK_END) ==> |after| >= 5
  {
    hide Find;
  }

  /** The framing is what the completion test waits for, exactly. */
  lemma ArrivesExactly(h: HeaderMap, head: string, after: string)
    requires EndsAtBlankLine(head)
    ensures BodyArrived(h, |head|, head + BLANK_LINE + after) <==> Arrives(FramingOf(h, head), after)
  {
    hide EndsAtBlankLine, Contains, EndsInZeroLine, Atoi, Get;
    MarkerSeen(head, after);
    MarkerTakesFive(after);
  }

  lemma NoMarkerInFiller(n: nat)
    ensures !Contains(CRLF + Filler(n), CHUNK_END)
  {
    hide Find, OccursAt;
    var s := CRLF + Filler(n);
    forall i ensures !OccursAt(s, CHUNK_END, i) {
      if 0 <= i && i + 7 <= |s| { Mismatch(s, CHUNK_END, i, 2); } else { NotInside(s, CHUNK_END, i); }
    }
  }

  lemma MarkerInLastChunk()
    ensures Contains(CRLF + "0\r\n\r\n", CHUNK_END)
  {
    hide Find;
    assert CRLF + "0\r\n\r\n" == "" + CHUNK_END + "";
    OccursInMiddle("", CHUNK_END, "");
  }

  /** Well formed: as FramingOf builds them. */
  predicate Canonical(f: Framing) {
    f.When? ==> f.length != Some(0) && (f.marker ==> f.length.None? || f.length.value > 5) && (f.length.None? ==> f.marker)
  }

  /** Two framings that differ are told apart by some bytes. */
  lemma FramingsDiffer(f: Framing, g: Framing) returns (after: string)
    requires f != g && Canonical(f) && Canonical(g)
    ensures Arrives(f, after) != Arrives(g, after)
  {
    hide Contains;
    if f.Always? || g.Always? {
      after := "";
      MarkerTakesFive(after);
    } else if f.length == g.length {
      after := "0\r\n\r\n";
      MarkerInLastChunk();
    } else {
      var n := if f.length.None? then g.length.value
               else if g.length.None? || f.length.value < g.length.value then f.length.value else g.length.value;
      after := Filler(n);
      NoMarkerInFiller(n);
    }
  }

  lemma FramingCanonical(h: HeaderMap, head: string)
    ensures Canonical(FramingOf(h, head))
  {
    hide EndsInZeroLine, Atoi, Get;
  }

  predicate SameArrival(h: HeaderMap, g: HeaderMap, head: string, after: string) {
    BodyArrived(h, |head|, head + BLANK_LINE + after) <==> BodyArrived(g, |head|, head + BLANK_LINE + after)
  }

  /** Two header maps make the completion test agree on every continuation iff they frame alike. */
  lemma FramingDecides(h: HeaderMap, g: HeaderMap, head: string)
    requires EndsAtBlankLine(head)
    ensures (forall after :: SameArrival(h, g, head, after)) <==> FramingOf(h, head) == FramingOf(g, head)
  {
    hide BodyArrived, FramingOf, Arrives, EndsAtBlankLine;
    FramingCanonical(h, head);
    FramingCanonical(g, head);
    if FramingOf(h, head) != FramingOf(g, head) {
      var after := FramingsDiffer(FramingOf(h, head), FramingOf(g, head));
      ArrivesExactly(h, head, after);
      ArrivesExactly(g, head, after);
      assert !SameArrival(h, g, head, after);
    } else {
      forall after ensures SameArrival(h, g, head, after) {
        ArrivesExactly(h, head, after);
        ArrivesExactly(g, head, after);
      }
    }
  }

  /** Only these two headers matter. */
  lemma FramingFromHeaders(h: HeaderMap, g: HeaderMap, head: string)
    requires Get(h, "Content-Length") == Get(g, "Content-Length")
    requires Get(h, "Transfer-Encoding") == Get(g, "Transfer-Encoding")
    ensures FramingOf(h, head) == FramingOf(g, head)
  {
    hide Get, Atoi, EndsInZeroLine;
  }
}
