/** CGIHandler::parseCGIOutput: the head of a script's output becomes headers, the rest a streamed body. */
module Cgi {
  import opened Text
  import opened Headers
  import opened Sockets
  import opened Responses
  import opened Streaming

  /** Size of the buffer one read of the output fills. */
  const HEADER_BUFFER: nat := 8192

  /** Where the header block of a piece ends, and where what follows it starts: CRLFCRLF, else two line feeds. */
  function BlockEnd(piece: string): Option<(nat, nat)> {
    var crlf := Find(piece, BLANK_LINE, 0);
    if crlf >= 0 then Some((crlf, crlf + 4))
    else
      var lf := Find(piece, "\n\n", 0);
      if lf >= 0 then Some((lf, lf + 2)) else None
  }

  function NextPiece(raw: string, at: nat): (piece: string)
    requires at <= |raw|
    ensures at < |raw| ==> piece != ""
    ensures |piece| <= |raw| - at && piece == raw[at..at + |piece|]
  {
    if |raw| - at < HEADER_BUFFER then raw[at..] else raw[at..at + HEADER_BUFFER]
  }

  /** Status and headers, as the lines of the block are applied one by one. */
  datatype Head = Head(status: int, headers: HeaderMap)

  function FirstDigit(s: string): (n: nat)
    ensures n <= |s| && (n < |s| ==> IsDigit(s[n]))
  {
    if s == "" || IsDigit(s[0]) then 0 else 1 + FirstDigit(s[1..])
  }

  predicate IsStatusLine(line: string) { Find(line, "Status:", 0) == 0 }

  function ApplyLine(h: Head, raw: string): Head {
    var line := if raw != "" && raw[|raw| - 1] == '\r' then raw[..|raw| - 1] else raw;
    if raw == "" then h
    else if IsStatusLine(line) then
      var n := FirstDigit(line);
      if n < |line| && 100 <= Atoi(line[n..]) < 600 then h.(status := Atoi(line[n..])) else h
    else
      var colon := Find(line, ":", 0);
      if colon < 0 then h
      else h.(headers := AddHeaderTo(h.headers, line[..colon], TrimLeft(line[colon + 1..], BLANKS)))
  }

  function ApplyBlock(h: Head, block: string): Head
    decreases |block|
  {
    if block == "" then h
    else
      var k := Find(block, "\n", 0);
      if k < 0 then ApplyLine(h, block) else ApplyBlock(ApplyLine(h, block[..k]), block[k + 1..])
  }

  /** What the response is built from: head, declared length and file position. */
  datatype Output = Output(head: Head, length: int, position: nat)

  function StartHead(): Head { Head(200, map["Server" := "webserv/1.1"]) }

  /**
   * The reads of parseCGIOutput from position at on.  The end of the block is a position in
   * the piece that was read, whatever was read before it.
   */
  function Scan(raw: string, at: nat): Option<Output>
    requires at <= |raw|
    decreases |raw| - at
  {
    if at == |raw| then None
    else
      var piece := NextPiece(raw, at);
      var end := BlockEnd(piece);
      if end.Some? then
        Some(Output(ApplyBlock(StartHead(), piece[..end.value.0]), |raw| - end.value.1, end.value.1))
      else Scan(raw, at + |piece|)
  }

  method ApplyHeaders(response: Response, block: string)
    modifies response`statusCode, response`headers
    ensures Head(response.statusCode, response.headers) == ApplyBlock(old(Head(response.statusCode, response.headers)), block)
  {
    hide Find, ApplyLine;
    ghost var whole := ApplyBlock(Head(response.statusCode, response.headers), block);
    var rest := block;
    while rest != ""
      invariant ApplyBlock(Head(response.statusCode, response.headers), rest) == whole
      decreases |rest|
    {
      var k := Find(rest, "\n", 0);
      var line := if k == -1 then rest else rest[..k];
      rest := if k == -1 then "" else rest[k + 1..];
      ApplyHeaderLine(response, line);
    }
  }

  method ApplyHeaderLine(response: Response, raw: string)
    modifies response`statusCode, response`headers
    ensures Head(response.statusCode, response.headers) == ApplyLine(old(Head(response.statusCode, response.headers)), raw)
  {
    hide Find, Atoi, AddHeaderTo, IsStatusLine, TrimLeft, FirstDigit, OccursAt;
    ghost var h := Head(response.statusCode, response.headers);
    if raw == "" { return; }
    var line := if raw[|raw| - 1] == '\r' then raw[..|raw| - 1] else raw;
    if IsStatusLine(line) {
      var n := FirstDigit(line);
      if n < |line| {
        var status := Atoi(line[n..]);
        if status >= 100 && status < 600 { response.SetStatusCode(status); }
      }
      return;
    }
    var colon := Find(line, ":", 0);
    if colon != -1 {
      var value := SkipLeadingBlanks(line[colon + 1..]);
      response.AddHeader(line[..colon], value);
    }
  }

  method SkipLeadingBlanks(text: string) returns (value: string)
    ensures value == TrimLeft(text, BLANKS)
  {
    value := text;
    while value != "" && (value[0] == ' ' || value[0] == '\t')
      invariant TrimLeft(value, BLANKS) == TrimLeft(text, BLANKS)
      decreases |value|
    {
      value := value[1..];
    }
  }

  /** parseCGIOutput on a temporary file that holds raw. */
  method ParseCgiOutput(raw: string, cookies: seq<string>) returns (found: bool, response: Response)
    ensures fresh(response)
    ensures found == Scan(raw, 0).Some?
    ensures found ==> var o := Scan(raw, 0).value;
              && response.statusCode == o.head.status
              && response.headers == o.head.headers[ContentLength() := DecInt(o.length)]
              && response.file == raw && response.offset == o.position <= |raw|
              && response.isFile && response.isStreaming && !response.isHeadersSent && response.cookies == cookies
  {
    hide BlockEnd, ApplyBlock, DecInt, Scan, NextPiece, StartHead, AddHeaderTo;
    StartsOver();
    response := new Response(200, cookies);
    found := false;
    var at := 0;
    while at < |raw|
      invariant 0 <= at <= |raw| && fresh(response)
      invariant Scan(raw, at) == Scan(raw, 0)
      invariant Head(response.statusCode, response.headers) == StartHead()
      invariant !response.isHeadersSent && response.cookies == cookies
      decreases |raw| - at
    {
      ScanStep(raw, at);
      var piece := NextPiece(raw, at);
      var end := BlockEnd(piece);
      if end.Some? {
        BlockEndInside(piece);
        ApplyHeaders(response, piece[..end.value.0]);
        found := true;
        LengthHeaderName(response.headers, DecInt(|raw| - end.value.1));
        response.AddHeader(ContentLength(), DecInt(|raw| - end.value.1));
        response.SetFileDescriptor(raw, end.value.1);
        return;
      }
      at := at + |piece|;
    }
    NothingToScan(raw);
  }

  lemma StartsOver()
    ensures StartHead() == Head(200, map["Server" := "webserv/1.1"])
  {
  }

  lemma NothingToScan(raw: string)
    ensures Scan(raw, |raw|) == None
  {
  }

  /** One read of the scan. */
  lemma ScanStep(raw: string, at: nat)
    requires at < |raw|
    ensures var piece := NextPiece(raw, at);
            var end := BlockEnd(piece);
            Scan(raw, at) == if end.Some?
                             then Some(Output(ApplyBlock(StartHead(), piece[..end.value.0]), |raw| - end.value.1, end.value.1))
                             else Scan(raw, at + |piece|)
  {
    hide NextPiece, ApplyBlock, StartHead;
  }

  lemma BlockEndInside(piece: string)
    ensures BlockEnd(piece).Some? ==> BlockEnd(piece).value.0 <= BlockEnd(piece).value.1 <= |piece|
  {
  }

  lemma LengthHeaderName(h: HeaderMap, value: string)
    ensures AddHeaderTo(h, ContentLength(), value) == h[ContentLength() := value]
  {
  }

  // ---- what a head denotes ----

  /** Whatever the lines say, the status is one that setStatusCode accepts. */
  lemma {:induction false} StatusStaysValid(h: Head, block: string)
    requires 100 <= h.status < 600
    ensures 100 <= ApplyBlock(h, block).status < 600
    decreases |block|
  {
    hide Find, ApplyLine;
    if block != "" {
      var k := Find(block, "\n", 0);
      if k < 0 {
        LineStatus(h, block);
      } else {
        LineStatus(h, block[..k]);
        StatusStaysValid(ApplyLine(h, block[..k]), block[k + 1..]);
      }
    }
  }

  lemma LineStatus(h: Head, raw: string)
    requires 100 <= h.status < 600
    ensures 100 <= ApplyLine(h, raw).status < 600
  {
    hide Find, Atoi, FirstDigit, IsStatusLine, AddHeaderTo, TrimLeft;
  }

  /** A header line of a script: a name without colon, a value without leading blank. */
  predicate ScriptHeader(e: Entry) {
    && e.0 != "" && e.0 != "Status" && ':' !in e.0 && Free(e.0, {'\r', '\n'})
    && Free(e.1, {'\r', '\n'}) && (e.1 != "" ==> e.1[0] !in BLANKS)
  }

  function HeaderLines(es: seq<Entry>): string {
    if es == [] then "" else "\r\n" + LineText(es[0]) + HeaderLines(es[1..])
  }

  /** The head a script prints: a status line, then its headers (section 6.3 of RFC 3875). */
  function ScriptHead(code: nat, reason: string, es: seq<Entry>): string {
    "Status: " + Dec(code) + " " + reason + HeaderLines(es)
  }

  lemma ApplyCons(h: Head, line: string, rest: string)
    requires '\n' !in line
    ensures ApplyBlock(h, line + "\n" + rest) == ApplyBlock(ApplyLine(h, line), rest)
  {
    hide Find, ApplyLine;
    LineFeedFirst(line, rest);
    var block := line + "\n" + rest;
    assert block[..|line|] == line && block[|line| + 1..] == rest;
  }

  lemma ApplyLast(h: Head, line: string)
    requires '\n' !in line
    ensures ApplyBlock(h, line) == ApplyLine(h, line)
  {
    hide Find;
    FindChar(line, '\n');
  }

  lemma LineWithoutCr(h: Head, text: string)
    requires text != "" && '\r' !in text
    ensures ApplyLine(h, text + "\r") == ApplyLine(h, text)
  {
    hide Find, Atoi, FirstDigit, IsStatusLine, AddHeaderTo, TrimLeft;
    assert (text + "\r")[..|text|] == text && text[|text| - 1] in text;
  }

  lemma {:induction false} FirstDigitAfter(a: string, b: string)
    requires forall i :: 0 <= i < |a| ==> !IsDigit(a[i])
    ensures FirstDigit(a + b) == |a| + FirstDigit(b)
  {
    if a == "" {
      assert a + b == b;
    } else {
      assert (a + b)[1..] == a[1..] + b;
      FirstDigitAfter(a[1..], b);
    }
  }

  lemma StatusNumber(code: nat, reason: string)
    requires code < 0x8000_0000
    ensures var digits := Dec(code) + " " + reason;
            digits != "" && IsDigit(digits[0]) && Atoi(digits) == code
  {
    hide Atoi, Dec, DigitsValue, Clamp, ToInt32;
    var digits := Dec(code) + " " + reason;
    assert digits == Dec(code) + (" " + reason);
    assert digits[0] == Dec(code)[0] && Dec(code)[0] in Dec(code);
    AtoiPlain(digits);
    DecValue(code, " " + reason);
    SmallInt(code);
  }

  lemma StatusPlace(digits: string)
    requires digits != "" && IsDigit(digits[0])
    ensures var line := "Status: " + digits;
            IsStatusLine(line) && FirstDigit(line) == 8 && line[8..] == digits
  {
    hide Find, FirstDigit;
    var line := "Status: " + digits;
    assert line == "" + "Status:" + (" " + digits);
    OccursInMiddle("", "Status:", " " + digits);
    FirstDigitAfter("Status: ", digits);
    DigitFirst(digits);
  }

  lemma StatusLineRead(h: Head, code: nat, reason: string)
    requires 100 <= code < 600 && Free(reason, {'\r', '\n'})
    ensures var line := "Status: " + Dec(code) + " " + reason;
            ApplyLine(h, line) == h.(status := code) && '\n' !in line && '\r' !in line
  {
    hide Find, Atoi, Dec, FirstDigit, IsStatusLine, AddHeaderTo, TrimLeft;
    var digits := Dec(code) + " " + reason;
    var line := "Status: " + digits;
    assert "Status: " + Dec(code) + " " + reason == line;
    StatusNumber(code, reason);
    StatusPlace(digits);
    NoLineEndInDigits(code);
    assert line[|line| - 1] in line;
  }

  /** Of the status lines with a number that fits an int, exactly those from 100 to 599 set the status. */
  lemma StatusLineExactly(h: Head, code: nat, reason: string)
    requires code < 0x8000_0000 && Free(reason, {'\r', '\n'})
    ensures ApplyLine(h, "Status: " + Dec(code) + " " + reason) == if 100 <= code <= 599 then h.(status := code) else h
  {
    hide Find, Atoi, Dec, FirstDigit, IsStatusLine, AddHeaderTo, TrimLeft;
    var digits := Dec(code) + " " + reason;
    var line := "Status: " + digits;
    assert "Status: " + Dec(code) + " " + reason == line;
    StatusNumber(code, reason);
    StatusPlace(digits);
    assert '\r' !in line by { NoLineEndInDigits(code); }
    assert line[|line| - 1] in line;
  }

  /** A line without a colon says nothing. */
  lemma NoColonIgnored(h: Head, line: string)
    requires ':' !in line
    ensures ApplyLine(h, line) == h
  {
    hide Find, OccursAt, Atoi, AddHeaderTo, TrimLeft, FirstDigit;
    var text := if line != "" && line[|line| - 1] == '\r' then line[..|line| - 1] else line;
    assert ':' !in text;
    FindChar(text, ':');
    if OccursAt(text, "Status:", 0) { StatusHasColon(text); }
  }

  lemma StatusHasColon(text: string)
    requires OccursAt(text, "Status:", 0)
    ensures ':' in text
  {
    assert text[0..7][6] == text[6] == ':';
  }

  /** A line with its colon first at k, and no CR at its end. */
  lemma ColonLine(h: Head, line: string, k: nat, value: string)
    requires line != "" && line[|line| - 1] != '\r' && Find(line, ":", 0) == k && !IsStatusLine(line)
    requires TrimLeft(line[k + 1..], BLANKS) == value
    ensures ApplyLine(h, line) == h.(headers := AddHeaderTo(h.headers, line[..k], value))
  {
    hide Find, Atoi, FirstDigit, AddHeaderTo, TrimLeft, IsStatusLine, OccursAt;
  }

  lemma PaddedParts(name: string, pads: string, value: string)
    requires ScriptHeader((name, value)) && value != "" && forall c :: c in pads ==> c in BLANKS
    ensures var line := name + ":" + pads + value;
            && line == name + ":" + (pads + value) && '\r' !in line && line[|line| - 1] != '\r'
            && line[..|name|] == name && line[|name| + 1..] == pads + value
  {
    var line := name + ":" + pads + value;
    assert line == name + ":" + (pads + value);
    assert line[|line| - 1] in line;
    forall c | c in line ensures c != '\r' { assert c in name || c == ':' || c in pads || c in value; }
  }

  /** A header's value starts behind the colon and any blanks; a final CR is not part of it. */
  lemma PaddedHeaderRead(h: Head, name: string, pads: string, value: string)
    requires ScriptHeader((name, value)) && value != "" && forall c :: c in pads ==> c in BLANKS
    ensures ApplyLine(h, name + ":" + pads + value) == h.(headers := AddHeaderTo(h.headers, name, value))
    ensures ApplyLine(h, name + ":" + pads + value + "\r") == h.(headers := AddHeaderTo(h.headers, name, value))
  {
    hide Find, OccursAt, AddHeaderTo, TrimLeft, IsStatusLine, ApplyLine;
    var line := name + ":" + pads + value;
    PaddedParts(name, pads, value);
    ColonPlace(name, pads + value);
    NotStatus(name, pads + value);
    TrimLeftPadded(pads, value, BLANKS);
    ColonLine(h, line, |name|, value);
    LineWithoutCr(h, line);
  }

  lemma DigitFirst(s: string)
    requires s != "" && IsDigit(s[0])
    ensures FirstDigit(s) == 0
  {
  }

  lemma NoLineEndInDigits(code: nat)
    ensures '\n' !in Dec(code) && '\r' !in Dec(code)
  {
  }

  lemma HeaderLineRead(h: Head, e: Entry)
    requires ScriptHeader(e)
    ensures ApplyLine(h, LineText(e)) == h.(headers := AddHeaderTo(h.headers, e.0, e.1))
    ensures '\n' !in LineText(e) && '\r' !in LineText(e)
  {
    hide Find, Atoi, FirstDigit, AddHeaderTo, TrimLeft, LineText;
    var line := LineText(e);
    assert line[|line| - 1] in line;
    HeaderLineParts(e);
    SkipOneBlank(e.1);
  }

  lemma HeaderLineParts(e: Entry)
    requires ScriptHeader(e)
    ensures var line := LineText(e);
            Find(line, ":", 0) == |e.0| && line[|e.0| + 1..] == " " + e.1 && !IsStatusLine(line)
  {
    hide Find, OccursAt, IsStatusLine;
    LineShape(e.0, e.1);
    ColonPlace(e.0, " " + e.1);
    NoStatusLine(e);
  }

  lemma LineShape(name: string, value: string)
    ensures name + ": " + value == name + ":" + (" " + value)
    ensures (name + ": " + value)[|name| + 1..] == " " + value
  {
  }

  lemma ColonPlace(name: string, after: string)
    requires ':' !in name
    ensures Find(name + ":" + after, ":", 0) == |name|
  {
    hide Find, OccursAt;
    FindAfterFreeText(name, ":" + after, ":");
    assert name + (":" + after) == name + ":" + after;
    OccursInMiddle("", ":", after);
    assert "" + ":" + after == ":" + after;
  }

  lemma NoStatusLine(e: Entry)
    requires ScriptHeader(e)
    ensures !IsStatusLine(LineText(e))
  {
    LineShape(e.0, e.1);
    NotStatus(e.0, " " + e.1);
  }

  lemma NotStatus(name: string, after: string)
    requires name != "" && name != "Status" && ':' !in name
    ensures !IsStatusLine(name + ":" + after)
  {
    hide Find;
    StatusName(name, after);
  }

  lemma StatusName(name: string, after: string)
    requires name != "" && name != "Status" && ':' !in name
    ensures !OccursAt(name + ":" + after, "Status:", 0)
  {
    hide OccursAt;
    var line := name + ":" + after;
    if |name| > 6 {
      assert name[6] in name;
      Mismatch(line, "Status:", 0, 6);
    } else if |name| < 6 {
      Mismatch(line, "Status:", 0, |name|);
    } else {
      var j := Difference(name, "Status");
      assert line[j] == name[j] && "Status:"[j] == "Status"[j];
      Mismatch(line, "Status:", 0, j);
    }
  }

  lemma {:induction false} Difference(a: string, b: string) returns (j: nat)
    requires |a| == |b| && a != b
    ensures j < |a| && a[j] != b[j]
    decreases |a|
  {
    j := 0;
    if a[0] == b[0] {
      assert a == [a[0]] + a[1..] && b == [b[0]] + b[1..];
      var i := Difference(a[1..], b[1..]);
      j := i + 1;
    }
  }

  lemma SkipOneBlank(value: string)
    requires value != "" ==> value[0] !in BLANKS
    ensures TrimLeft(" " + value, BLANKS) == value
  {
    assert (" " + value)[1..] == value;
  }

  lemma {:induction false} HeaderLinesRead(h: Head, line: string, es: seq<Entry>)
    requires line != "" && '\n' !in line && '\r' !in line && forall e :: e in es ==> ScriptHeader(e)
    ensures ApplyBlock(h, line + HeaderLines(es)) == ApplyLine(h, line).(headers := AddAll(ApplyLine(h, line).headers, es))
    decreases |es|
  {
    hide Find, ApplyLine, ApplyBlock, AddHeaderTo, LineText;
    if es == [] {
      assert line + "" == line;
      ApplyLast(h, line);
    } else {
      var e, more := es[0], es[1..];
      assert e in es && forall x :: x in more ==> x in es;
      assert line + HeaderLines(es) == (line + "\r") + "\n" + (LineText(e) + HeaderLines(more));
      assert '\n' !in line + "\r";
      ApplyCons(h, line + "\r", LineText(e) + HeaderLines(more));
      LineWithoutCr(h, line);
      HeaderLineRead(ApplyLine(h, line), e);
      HeaderLinesRead(ApplyLine(h, line), LineText(e), more);
    }
  }

  /** A printed script head is read as its status and, in order, its headers. */
  lemma ScriptHeadRoundTrip(h: Head, code: nat, reason: string, es: seq<Entry>)
    requires 100 <= code < 600 && Free(reason, {'\r', '\n'}) && forall e :: e in es ==> ScriptHeader(e)
    ensures ApplyBlock(h, ScriptHead(code, reason, es)) == Head(code, AddAll(h.headers, es))
    ensures (forall e :: e in es ==> e.0 != SetCookie()) ==> AddAll(h.headers, es) == Store(es, h.headers)
  {
    hide Dec, ApplyLine, ApplyBlock, HeaderLines;
    StatusLineRead(h, code, reason);
    HeaderLinesRead(h, "Status: " + Dec(code) + " " + reason, es);
    if forall e :: e in es ==> e.0 != SetCookie() { PlainHeaders(h.headers, es); }
  }

  lemma {:induction false} PlainHeaders(h: HeaderMap, es: seq<Entry>)
    requires forall e :: e in es ==> ScriptHeader(e) && e.0 != SetCookie()
    ensures AddAll(h, es) == Store(es, h)
    decreases |es|
  {
    if es != [] {
      assert es[0] in es && forall x :: x in es[1..] ==> x in es;
      PlainHeaders(h[es[0].0 := es[0].1], es[1..]);
    }
  }

  // ---- what the client gets ----

  /** Output whose first blank line ends within the first read. */
  predicate HeadFits(block: string) {
    Find(block + BLANK_LINE, BLANK_LINE, 0) == |block| && |block| + 4 <= HEADER_BUFFER
  }

  /** Then the declared length is the length of the body, and the file stands at its start. */
  lemma BodyFound(block: string, body: string)
    requires HeadFits(block)
    ensures Scan(block + BLANK_LINE + body, 0) == Some(Output(ApplyBlock(StartHead(), block), |body|, |block| + 4))
  {
    hide Find, ApplyBlock, BlockEnd, NextPiece, StartHead;
    FirstPiece(block, body);
  }

  lemma FirstPiece(block: string, body: string)
    requires HeadFits(block)
    ensures var piece := NextPiece(block + BLANK_LINE + body, 0);
            BlockEnd(piece) == Some((|block|, |block| + 4)) && piece[..|block|] == block
  {
    hide Find, OccursAt;
    var raw := block + BLANK_LINE + body;
    FindStable(block + BLANK_LINE, body, BLANK_LINE);
    var piece := NextPiece(raw, 0);
    assert piece == raw[..|piece|];
    FindInPrefix(raw, BLANK_LINE, |piece|);
  }

  /** A head that says nothing is a 200 from this server. */
  lemma EmptyHead(body: string)
    ensures Scan(BLANK_LINE + body, 0) == Some(Output(Head(200, map["Server" := "webserv/1.1"]), |body|, 4))
  {
    hide Find, OccursAt, ApplyBlock, Scan;
    assert "" + BLANK_LINE == BLANK_LINE && "" + BLANK_LINE + "" == BLANK_LINE;
    OccursInMiddle("", BLANK_LINE, "");
    BodyFound("", body);
    EmptyBlock(StartHead(), "");
    assert ""[..0] == "";
  }

  /** The j-th read of the output. */
  function ReadAt(raw: string, j: nat): string
    requires j * HEADER_BUFFER <= |raw|
  {
    NextPiece(raw, j * HEADER_BUFFER)
  }

  /** The j-th read shows a block end, and from the k-th read on it is the first to do so. */
  ghost predicate EndsFirst(raw: string, k: nat, j: nat) {
    && k <= j && j * HEADER_BUFFER < |raw| && BlockEnd(ReadAt(raw, j)).Some?
    && forall i :: k <= i < j ==> i * HEADER_BUFFER < |raw| && BlockEnd(ReadAt(raw, i)).None?
  }

  function FromRead(raw: string, j: nat): Output
    requires j * HEADER_BUFFER <= |raw| && BlockEnd(ReadAt(raw, j)).Some?
  {
    BlockEndInside(ReadAt(raw, j));
    var piece := ReadAt(raw, j);
    var end := BlockEnd(piece).value;
    Output(ApplyBlock(StartHead(), piece[..end.0]), |raw| - end.1, end.1)
  }

  lemma EndsFirstStep(raw: string, k: nat, j: nat)
    requires k * HEADER_BUFFER < |raw| && BlockEnd(ReadAt(raw, k)).None?
    ensures EndsFirst(raw, k, j) <==> EndsFirst(raw, k + 1, j)
  {
    hide BlockEnd;
    if EndsFirst(raw, k, j) { assert j != k; }
  }

  /**
   * The answer is taken from the first read that shows a block end, with positions in that read
   * for positions in the file; without such a read there is none.
   */
  lemma {:induction false} ScanExactly(raw: string, k: nat)
    requires k * HEADER_BUFFER <= |raw|
    ensures Scan(raw, k * HEADER_BUFFER).Some? <==> exists j :: EndsFirst(raw, k, j)
    ensures forall j :: EndsFirst(raw, k, j) ==> Scan(raw, k * HEADER_BUFFER) == Some(FromRead(raw, j))
    decreases |raw| - k * HEADER_BUFFER
  {
    hide BlockEnd, ApplyBlock, StartHead;
    var at := k * HEADER_BUFFER;
    if at < |raw| {
      var piece := NextPiece(raw, at);
      if BlockEnd(piece).Some? {
        assert EndsFirst(raw, k, k);
      } else if |raw| - at < HEADER_BUFFER {
        assert at + |piece| == |raw|;
      } else {
        ScanExactly(raw, k + 1);
        assert (k + 1) * HEADER_BUFFER == at + |piece|;
        forall j: nat ensures EndsFirst(raw, k, j) <==> EndsFirst(raw, k + 1, j) { EndsFirstStep(raw, k, j); }
        var next := k + 1;
        if j :| EndsFirst(raw, next, j) { assert EndsFirst(raw, k, j); }
      }
    }
  }

  lemma {:induction false} ScanPosition(raw: string, at: nat)
    requires at <= |raw|
    ensures Scan(raw, at).Some? ==> var o := Scan(raw, at).value;
                                    o.position <= HEADER_BUFFER && o.position <= |raw| && o.length == |raw| - o.position
    decreases |raw| - at
  {
    hide BlockEnd, ApplyBlock, StartHead;
    if at < |raw| {
      var piece := NextPiece(raw, at);
      BlockEndInside(piece);
      if BlockEnd(piece).None? { ScanPosition(raw, at + |piece|); }
    }
  }

  /** The answer puts the body where it is, and gives its length. */
  predicate PlacedRight(found: Option<Output>, position: nat, body: string) {
    found.Some? && found.value.position == position && found.value.length == |body|
  }

  /**
   * Behind a head that CRLFCRLF ends, body and declared length are right exactly when it ends
   * within the first read.  What happens to a later head is ScanExactly: it is misplaced, or not
   * found at all.
   */
  lemma HeadFoundExactly(block: string, body: string)
    requires Find(block + BLANK_LINE, BLANK_LINE, 0) == |block|
    ensures PlacedRight(Scan(block + BLANK_LINE + body, 0), |block| + 4, body) <==> |block| + 4 <= HEADER_BUFFER
  {
    hide Find, ApplyBlock, Scan;
    ScanPosition(block + BLANK_LINE + body, 0);
    if |block| + 4 <= HEADER_BUFFER { BodyFound(block, body); }
  }

  /** Behind a head that two line feeds end, there must be no CRLFCRLF in the first read either: it is preferred. */
  lemma LineFeedHeadFoundExactly(block: string, body: string)
    requires Find(block + "\n\n", "\n\n", 0) == |block|
    ensures var raw := block + "\n\n" + body;
            PlacedRight(Scan(raw, 0), |block| + 2, body)
            <==> |block| + 2 <= HEADER_BUFFER && !Contains(NextPiece(raw, 0), BLANK_LINE)
  {
    hide Find, OccursAt, ApplyBlock, Scan, StartHead;
    var raw := block + "\n\n" + body;
    var piece := NextPiece(raw, 0);
    ScanPosition(raw, 0);
    if |block| + 2 <= HEADER_BUFFER {
      FindStable(block + "\n\n", body, "\n\n");
      assert piece == raw[..|piece|];
      FindInPrefix(raw, "\n\n", |piece|);
      ScanStep(raw, 0);
      if Contains(piece, BLANK_LINE) { NotFourBack(block, body, |piece|); }
    }
  }

  lemma NotFourBack(block: string, body: string, n: nat)
    requires |block| + 2 <= n <= |block| + 2 + |body|
    ensures var r := Find((block + "\n\n" + body)[..n], BLANK_LINE, 0);
            r < 0 || r != |block| - 2
  {
    hide Find;
    var piece := (block + "\n\n" + body)[..n];
    if |block| >= 2 && |block| + 2 <= |piece| {
      assert piece[|block|] == '\n';
      Mismatch(piece, BLANK_LINE, |block| - 2, 2);
    }
  }

  /** One such output: its head ends at 6, and the answer puts the body at 11. */
  lemma LineFeedHeadMisplaced()
    ensures var raw := "A: b" + "\n\n" + "x\r\n\r\ny";
            Scan(raw, 0).Some? && Scan(raw, 0).value.position == 11 && Scan(raw, 0).value.length == 1
  {
    hide Find, OccursAt, ApplyBlock, StartHead, Scan;
    var raw := "A: b" + "\n\n" + "x\r\n\r\ny";
    assert raw == "A: b\n\nx" + BLANK_LINE + "y" && NextPiece(raw, 0) == raw;
    FindAfterFreeText("A: b\n\nx", BLANK_LINE + "y", BLANK_LINE);
    OccursInMiddle("", BLANK_LINE, "y");
    assert "" + BLANK_LINE + "y" == BLANK_LINE + "y" && "A: b\n\nx" + (BLANK_LINE + "y") == raw;
    ScanStep(raw, 0);
  }

  lemma NoLineFeedNoEnd(piece: string)
    requires forall i :: 0 <= i < |piece| - 1 ==> piece[i] != '\n'
    ensures BlockEnd(piece).None?
  {
    hide Find, OccursAt;
    forall i ensures !OccursAt(piece, BLANK_LINE, i) && !OccursAt(piece, "\n\n", i) {
      if 0 <= i && i + 4 <= |piece| { Mismatch(piece, BLANK_LINE, i, 1); } else { NotInside(piece, BLANK_LINE, i); }
      if 0 <= i && i + 2 <= |piece| { Mismatch(piece, "\n\n", i, 0); } else { NotInside(piece, "\n\n", i); }
    }
  }

  /** A head of 8190 bytes: its blank line straddles the end of the first read and is never seen. */
  lemma StraddlingHeadLost()
    ensures Scan(Filler(8190) + BLANK_LINE, 0) == None
  {
    hide Find, BlockEnd, ApplyBlock, StartHead;
    var raw := Filler(8190) + BLANK_LINE;
    assert raw[..8192] == Filler(8190) + CRLF && raw[8192..] == CRLF;
    NoLineFeedNoEnd(Filler(8190) + CRLF);
    NoLineFeedNoEnd(CRLF);
    assert NextPiece(raw, 0) == Filler(8190) + CRLF && NextPiece(raw, 8192) == CRLF;
    assert Scan(raw, 0) == Scan(raw, 8192) == Scan(raw, 8194);
  }

  /** A head of 8192 bytes: found by the second read, its headers are lost and the body starts at 4. */
  lemma LateHeadMisplaced(body: string)
    ensures Scan(Filler(8192) + BLANK_LINE + body, 0) == Some(Output(StartHead(), 8192 + |body|, 4))
  {
    hide Find, BlockEnd, StartHead, Filler, NextPiece, Scan, ApplyBlock;
    var raw := Filler(8192) + BLANK_LINE + body;
    LatePieces(Filler(8192), body);
    NoLineFeedNoEnd(Filler(8192));
    var rest := NextPiece(raw, 8192)[4..];
    EndAtOnce(rest);
    ScanStep(raw, 0);
    ScanStep(raw, 8192);
    EmptyBlock(StartHead(), BLANK_LINE + rest);
  }

  lemma EmptyBlock(h: Head, piece: string)
    ensures ApplyBlock(h, piece[..0]) == h
  {
    assert piece[..0] == "";
  }

  lemma LatePieces(head: string, body: string)
    requires |head| == 8192
    ensures var raw := head + BLANK_LINE + body;
            && NextPiece(raw, 0) == head && |NextPiece(raw, 8192)| >= 4
            && NextPiece(raw, 8192) == BLANK_LINE + NextPiece(raw, 8192)[4..]
  {
    var raw := head + BLANK_LINE + body;
    assert raw[..8192] == head && raw[8192..] == BLANK_LINE + body;
    var piece := NextPiece(raw, 8192);
    assert piece == (BLANK_LINE + body)[..|piece|];
    assert piece[..4] == BLANK_LINE;
  }

  lemma EndAtOnce(rest: string)
    ensures BlockEnd(BLANK_LINE + rest) == Some((0, 4))
  {
    hide Find;
    assert BLANK_LINE + rest == "" + BLANK_LINE + rest;
    OccursInMiddle("", BLANK_LINE, rest);
  }

  /** The file of such an answer, ready to be streamed behind its printed head. */
  function OutputStream(o: Output, raw: string, order: seq<string>, cookies: seq<string>): Stream
    requires forall k :: k in order ==> k in o.head.headers || k == ContentLength()
  {
    Stream(OutputHead(o, order, cookies), raw, o.position, false, true)
  }

  function OutputHead(o: Output, order: seq<string>, cookies: seq<string>): string
    requires forall k :: k in order ==> k in o.head.headers || k == ContentLength()
  {
    StreamHead(o.head.status, o.head.headers[ContentLength() := DecInt(o.length)], order, cookies)
  }

  /**
   * Any output in which a block end is found, streamed: the wire carries the printed head and then
   * exactly the bytes from the position found on, as many as are announced, if and only if no
   * send fell short.
   */
  lemma CgiStream(raw: string, cookies: seq<string>, order: seq<string>, sends: seq<(SendResult, SendResult)>)
    requires Scan(raw, 0).Some?
    requires Walks(order, Scan(raw, 0).value.head.headers[ContentLength() := DecInt(Scan(raw, 0).value.length)])
    ensures var o := Scan(raw, 0).value;
            var head, st := OutputHead(o, order, cookies), OutputStream(o, raw, order, cookies);
            && o.position <= |raw| && o.length == |raw[o.position..]|
            && st.Valid() && st.Remaining() == head + raw[o.position..]
            && (Transfer(st, sends).finished ==> (Transfer(st, sends).wire == head + raw[o.position..] <==> Lossless(st, sends)))
  {
    hide Find, Scan, OutputHead, Transfer, Lossless, DecInt;
    ScanPosition(raw, 0);
    var st := OutputStream(Scan(raw, 0).value, raw, order, cookies);
    if Transfer(st, sends).finished { ExactIffLossless(st, sends); }
  }

  /** Behind a head that ends in the first read, those bytes are the script's body. */
  lemma CgiBodyStream(block: string, body: string, cookies: seq<string>, order: seq<string>, sends: seq<(SendResult, SendResult)>)
    requires HeadFits(block)
    requires Walks(order, ApplyBlock(StartHead(), block).headers[ContentLength() := DecInt(|body|)])
    ensures var o := Output(ApplyBlock(StartHead(), block), |body|, |block| + 4);
            var head, st := OutputHead(o, order, cookies), OutputStream(o, block + BLANK_LINE + body, order, cookies);
            && Scan(block + BLANK_LINE + body, 0) == Some(o)
            && (Transfer(st, sends).finished ==> (Transfer(st, sends).wire == head + body <==> Lossless(st, sends)))
  {
    hide Find, ApplyBlock, Scan, OutputHead, OutputStream, Transfer, Lossless, DecInt;
    BodyFound(block, body);
    CgiStream(block + BLANK_LINE + body, cookies, order, sends);
    assert (block + BLANK_LINE + body)[|block| + 4..] == body;
  }
}
