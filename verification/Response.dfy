/** Responses: the printers of Response.cpp, and what reading a printed response gives. */
module Responses {
  import opened Text
  import opened Headers

  /** Text of one line, without a colon. */
  predicate Plain(s: string) {
    forall i :: 0 <= i < |s| ==> s[i] != ':' && s[i] != '\r' && s[i] != '\n'
  }

  function StatusText(code: int): (text: string)
    ensures Plain(text)
  {
    if code < 400 then GoodStatusText(code) else if code < 405 then RefusedStatusText(code)
    else if code < 500 then RejectedStatusText(code) else ServerStatusText(code)
  }

  function GoodStatusText(code: int): (text: string)
    ensures Plain(text)
  {
    match code
    case 200 => "OK"
    case 201 => "Created"
    case 204 => "No Content"
    case 301 => "Moved Permanently"
    case 302 => "Found"
    case 304 => "Not Modified"
    case _ => "Unknown"
  }

  function RefusedStatusText(code: int): (text: string)
    ensures Plain(text)
  {
    match code
    case 400 => "Bad Request"
    case 401 => "Unauthorized"
    case 403 => "Forbidden"
    case 404 => "Not Found"
    case _ => "Unknown"
  }

  function RejectedStatusText(code: int): (text: string)
    ensures Plain(text)
  {
    match code
    case 405 => "Method Not Allowed"
    case 413 => "Payload Too Large"
    case _ => MediaStatusText(code)
  }

  function MediaStatusText(code: int): (text: string)
    ensures Plain(text)
  {
    if code == 415 then "Unsupported Media Type" else "Unknown"
  }

  function ServerStatusText(code: int): (text: string)
    ensures Plain(text)
  {
    match code
    case 500 => "Internal Server Error"
    case 501 => "Not Implemented"
    case _ => BrokenStatusText(code)
  }

  function BrokenStatusText(code: int): (text: string)
    ensures Plain(text)
  {
    match code
    case 502 => "Bad Gateway"
    case 503 => "Service Unavailable"
    case _ => "Unknown"
  }

  function StatusLine(code: int): (line: string)
    ensures line != "" && Plain(line)
  {
    PlainNumber(code);
    "HTTP/1.1 " + DecInt(code) + " " + StatusText(code)
  }

  lemma PlainNumber(n: int)
    ensures Plain(DecInt(n))
  {
    hide Dec;
    forall i | 0 <= i < |DecInt(n)| ensures IsDigit(DecInt(n)[i]) || DecInt(n)[i] == '-' {
      assert DecInt(n)[i] in DecInt(n);
    }
  }

  // Functions rather than constants, so that proofs can keep them folded.
  function ContentLength(): string { "Content-Length" }
  function SetCookie(): string { "Set-Cookie" }

  /** The names of a header map, each once, in the order in which the map is walked. */
  ghost predicate Walks(order: seq<string>, h: HeaderMap) {
    && (forall k :: k in order <==> k in h)
    && (forall i, j :: 0 <= i < j < |order| ==> order[i] != order[j])
  }

  /** The entries of the names that pass a test, in walking order. */
  function Pick(order: seq<string>, h: HeaderMap, cookies: bool): seq<Entry>
    requires forall k :: k in order ==> k in h
  {
    if order == [] then []
    else
      var k := order[0];
      var rest := Pick(order[1..], h, cookies);
      if k != ContentLength() && (k == SetCookie()) == cookies then [(k, h[k])] + rest else rest
  }

  /** Everything toString prints between the status line and the blank line. */
  function HeadEntries(h: HeaderMap, body: string, order: seq<string>): seq<Entry>
    requires forall k :: k in order ==> k in h
  {
    [(ContentLength(), Dec(|body|))] + Pick(order, h, false) + Pick(order, h, true)
  }

  function TextOf(code: int, h: HeaderMap, body: string, order: seq<string>): string
    requires forall k :: k in order ==> k in h
  {
    StatusLine(code) + CRLF + Print(HeadEntries(h, body, order)) + CRLF + body
  }

  /** What getHeadersString prints before a streamed file. */
  function StreamHead(code: int, h: HeaderMap, order: seq<string>, cookies: seq<string>): string
    requires forall k :: k in order ==> k in h
  {
    StatusLine(code) + CRLF + Print(All(order, h)) + Print(CookieEntries(cookies)) + CRLF
  }

  function All(order: seq<string>, h: HeaderMap): seq<Entry>
    requires forall k :: k in order ==> k in h
  {
    if order == [] then [] else [(order[0], h[order[0]])] + All(order[1..], h)
  }

  function CookieEntries(cookies: seq<string>): seq<Entry> {
    if cookies == [] then [] else [(SetCookie(), cookies[0])] + CookieEntries(cookies[1..])
  }

  /** The page sendBadRequestResponse renders. */
  const BAD_REQUEST_BODY := "<html><body><h1>Bad Request</h1></body></html>"

  function BadRequestHeaders(): HeaderMap {
    map["Content-Length" := Dec(|BAD_REQUEST_BODY|), "Content-Type" := "text/html", "Server" := "webserv/1.1"]
  }

  function BadRequestOrder(): seq<string> { ["Content-Length", "Content-Type", "Server"] }

  function BadRequestPage(): (page: string)
    ensures page != ""
  {
    TextOf(400, BadRequestHeaders(), BAD_REQUEST_BODY, BadRequestOrder())
  }

  // ---- printing and parsing ----

  lemma {:induction false} PickNames(order: seq<string>, h: HeaderMap, cookies: bool)
    requires forall k :: k in order ==> k in h
    requires forall i, j :: 0 <= i < j < |order| ==> order[i] != order[j]
    ensures DistinctNames(Pick(order, h, cookies))
    ensures forall k :: k in Names(Pick(order, h, cookies)) <==>
              k in order && k != ContentLength() && (k == SetCookie()) == cookies
    ensures forall e :: e in Pick(order, h, cookies) ==> e.0 in order && e.1 == h[e.0]
  {
    hide ContentLength, SetCookie;
    if order != [] {
      PickNames(order[1..], h, cookies);
      assert order == [order[0]] + order[1..];
      PickStep(order, h, cookies);
    }
  }

  lemma PickStep(order: seq<string>, h: HeaderMap, cookies: bool)
    requires order != [] && forall k :: k in order ==> k in h
    ensures var k, rest := order[0], Pick(order[1..], h, cookies);
            Pick(order, h, cookies) == if k != ContentLength() && (k == SetCookie()) == cookies then [(k, h[k])] + rest else rest
  {
    hide ContentLength, SetCookie;
  }

  lemma {:induction false} NamesAppend(a: seq<Entry>, b: seq<Entry>)
    ensures Names(a + b) == Names(a) + Names(b)
    ensures DistinctNames(a) && DistinctNames(b) && Names(a) !! Names(b) ==> DistinctNames(a + b)
  {
    if a == [] {
      assert a + b == b;
    } else {
      assert (a + b)[1..] == a[1..] + b;
      NamesAppend(a[1..], b);
    }
  }

  /** Every entry is printed from the response: the length of the body, or a header of the map. */
  predicate FromResponse(e: Entry, h: HeaderMap, body: string) {
    e == (ContentLength(), Dec(|body|)) || (e.0 in h && e.1 == h[e.0])
  }

  /** Content-Length is printed first and only there; every other name once. */
  lemma HeadEntriesDistinct(h: HeaderMap, body: string, order: seq<string>)
    requires Walks(order, h)
    ensures var es := HeadEntries(h, body, order);
            && es != [] && DistinctNames(es) && es[0] == (ContentLength(), Dec(|body|)) && ContentLength() !in Names(es[1..])
            && Names(es) == h.Keys + {ContentLength()}
            && forall e :: e in es ==> FromResponse(e, h, body)
  {
    hide Dec, ContentLength, SetCookie, Pick, Names, DistinctNames, FromResponse;
    var plain, cookies := Pick(order, h, false), Pick(order, h, true);
    PickedNames(h, order);
    PickedValues(h, body, order);
    NamesAppend(plain, cookies);
    NamesAppend([(ContentLength(), Dec(|body|))], plain + cookies);
    SplitFirst((ContentLength(), Dec(|body|)), plain, cookies);
  }

  lemma PickedNames(h: HeaderMap, order: seq<string>)
    requires Walks(order, h)
    ensures var plain, cookies := Pick(order, h, false), Pick(order, h, true);
            && DistinctNames(plain) && DistinctNames(cookies) && Names(plain) !! Names(cookies)
            && Names(plain) + Names(cookies) == h.Keys - {ContentLength()}
  {
    hide ContentLength, SetCookie, Pick, Names, DistinctNames;
    PickNames(order, h, false);
    PickNames(order, h, true);
  }

  lemma PickedValues(h: HeaderMap, body: string, order: seq<string>)
    requires Walks(order, h)
    ensures forall e :: e in HeadEntries(h, body, order) ==> FromResponse(e, h, body)
  {
    hide Dec, ContentLength, SetCookie, Pick, Names, DistinctNames;
    PickNames(order, h, false);
    PickNames(order, h, true);
    forall e | e in HeadEntries(h, body, order) ensures FromResponse(e, h, body) {
      assert e == (ContentLength(), Dec(|body|)) || e in Pick(order, h, false) || e in Pick(order, h, true);
    }
  }

  lemma SplitFirst(first: Entry, a: seq<Entry>, b: seq<Entry>)
    ensures ([first] + a + b)[0] == first && ([first] + a + b)[1..] == a + b
    ensures Names([first]) == {first.0} && DistinctNames([first])
    ensures [first] + a + b == [first] + (a + b)
  {
    assert [first][1..] == [];
  }

  /** A printed block without its last CRLF, as the receiver cuts it out, reads back the same. */
  lemma {:induction false} CutPrintRoundTrip(es: seq<Entry>)
    requires es != [] && forall e :: e in es ==> Printable(e)
    ensures |Print(es)| >= 2 && Entries(Print(es)[..|Print(es)| - 2]) == es
  {
    hide Find, TextEntry, LineEntry, Entries, Printable;
    assert es[0] in es;
    LineRoundTrip(es[0]);
    var line, rest := LineText(es[0]), Print(es[1..]);
    PrintFirst(es);
    hide Print, LineText;
    LineWithCr(line);
    if |es| == 1 {
      CutOnly(line);
      LineEndNoCr(es[0]);
      OneLineBlock(line);
      assert es == [es[0]];
    } else {
      CutPrintRoundTrip(es[1..]);
      EntriesCons(line + "\r", rest[..|rest| - 2]);
      CutLast(line, rest);
      assert es == [es[0]] + es[1..];
    }
  }

  lemma PrintFirst(es: seq<Entry>)
    requires es != []
    ensures Print(es) == LineText(es[0]) + CRLF + Print(es[1..]) && (|es| == 1 ==> Print(es[1..]) == "")
  {
  }

  lemma CutOnly(line: string)
    ensures (line + CRLF + "")[..|line + CRLF + ""| - 2] == line
  {
  }

  lemma CutLast(line: string, rest: string)
    requires |rest| >= 2
    ensures (line + CRLF + rest)[..|line + CRLF + rest| - 2] == (line + "\r") + "\n" + rest[..|rest| - 2]
  {
  }

  lemma LineEndNoCr(e: Entry)
    requires Printable(e)
    ensures LineEntry(LineText(e)) == TextEntry(LineText(e))
  {
    hide Find, TextEntry;
    var text := LineText(e);
    assert text[|text| - 1] in text;
  }

  /**
   * What toString prints is read back.  The first blank line ends the head, the body follows
   * it, and the headers are those of the response with Content-Length set to the length of
   * the body, whatever order the header map is walked in.
   */
  lemma ResponseRoundTrip(code: int, h: HeaderMap, body: string, order: seq<string>)
    requires Walks(order, h)
    requires forall k :: k in h ==> Printable((k, h[k]))
    ensures var text, end := TextOf(code, h, body, order), Find(TextOf(code, h, body, order), BLANK_LINE, 0);
            && end >= 0 && text[end + 4..] == body
            && Entries(text[..end]) == HeadEntries(h, body, order)
            && HeadersOf(text[..end]) == h[ContentLength() := Dec(|body|)]
  {
    hide Find, Printable, Entries, HeadEntries, TextOf, Dec, Store, ContentLength, Names, DistinctNames, FromResponse;
    HeadEntriesDistinct(h, body, order);
    HeadReadsBack(code, h, body, order);
    StoreValues(HeadEntries(h, body, order), h, body);
  }

  /** After setBody the header map is read back as it is: the length it announces is the body's. */
  lemma BodyAnnounced(code: int, h: HeaderMap, body: string, order: seq<string>)
    requires ContentLength() in h && h[ContentLength()] == Dec(|body|) && Walks(order, h)
    requires forall k :: k in h ==> Printable((k, h[k]))
    ensures var text, end := TextOf(code, h, body, order), Find(TextOf(code, h, body, order), BLANK_LINE, 0);
            end >= 0 && HeadersOf(text[..end]) == h && Atoi(Get(HeadersOf(text[..end]), ContentLength())) == ToInt32(Clamp(|body|))
            && |text[end + 4..]| == |body|
  {
    hide Find, TextOf, Printable, Walks, Dec, ContentLength, Atoi, Clamp, ToInt32, HeadersOf, DigitsValue;
    ResponseRoundTrip(code, h, body, order);
    AtoiOfNat(|body|);
  }

  // ---- the status line ----

  /** The codes with a reason phrase of their own. */
  function ListedCodes(): set<int> {
    {200, 201, 204, 301, 302, 304, 400, 401, 403, 404, 405, 413, 415, 500, 501, 502, 503}
  }

  lemma GoodPhrases()
    ensures StatusText(200) == "OK" && StatusText(201) == "Created" && StatusText(204) == "No Content"
    ensures StatusText(301) == "Moved Permanently" && StatusText(302) == "Found" && StatusText(304) == "Not Modified"
  {
  }

  lemma RefusalPhrases()
    ensures StatusText(400) == "Bad Request" && StatusText(401) == "Unauthorized" && StatusText(403) == "Forbidden"
    ensures StatusText(404) == "Not Found" && StatusText(405) == "Method Not Allowed"
    ensures StatusText(413) == "Payload Too Large" && StatusText(415) == "Unsupported Media Type"
  {
  }

  lemma FailurePhrases()
    ensures StatusText(500) == "Internal Server Error" && StatusText(501) == "Not Implemented"
    ensures StatusText(502) == "Bad Gateway" && StatusText(503) == "Service Unavailable"
  {
  }

  lemma UnlistedPhrase(code: int)
    requires code !in ListedCodes()
    ensures StatusText(code) == "Unknown"
  {
  }

  /** A phrase's length with its first and last letter, which tell the listed phrases apart. */
  function Tag(s: string): (int, char, char)
    requires s != ""
  {
    (|s|, s[0], s[|s| - 1])
  }

  lemma PhraseTags(code: int)
    requires code in ListedCodes()
    ensures StatusText(code) != ""
    ensures Tag(StatusText(code)) ==
            if code == 200 then (2, 'O', 'K') else if code == 201 then (7, 'C', 'd') else if code == 204 then (10, 'N', 't')
            else if code == 301 then (17, 'M', 'y') else if code == 302 then (5, 'F', 'd') else if code == 304 then (12, 'N', 'd')
            else if code == 400 then (11, 'B', 't') else if code == 401 then (12, 'U', 'd') else if code == 403 then (9, 'F', 'n')
            else if code == 404 then (9, 'N', 'd') else if code == 405 then (18, 'M', 'd') else if code == 413 then (17, 'P', 'e')
            else if code == 415 then (22, 'U', 'e') else if code == 500 then (21, 'I', 'r') else if code == 501 then (15, 'N', 'd')
            else if code == 502 then (11, 'B', 'y') else (19, 'S', 'e')
  {
    hide StatusText;
    GoodPhrases();
    RefusalPhrases();
    FailurePhrases();
  }

  /** No two listed codes share a phrase, and none has that of the others. */
  lemma PhrasesDiffer(a: int, b: int)
    requires a in ListedCodes() && a != b
    ensures StatusText(a) != StatusText(b)
  {
    hide StatusText;
    PhraseTags(a);
    if b in ListedCodes() {
      PhraseTags(b);
    } else {
      UnlistedPhrase(b);
      assert Tag("Unknown") == (7, 'U', 'n');
    }
  }

  /**
   * A text that starts with the status line of code: the version, the code as atoi reads it from
   * between the first two spaces, and the reason phrase up to the first line end.
   */
  predicate StatusFirst(text: string, code: int) {
    var lineEnd, space := Find(text, CRLF, 0), Find(text, " ", 9);
    && 9 < space < lineEnd
    && text[..9] == "HTTP/1.1 "
    && Atoi(text[9..space]) == code
    && text[space + 1..lineEnd] == StatusText(code)
  }

  lemma NoSpaceInNumber(n: int)
    ensures ' ' !in DecInt(n) && DecInt(n) != ""
  {
    hide Dec;
  }

  lemma LineEndFirst(line: string, rest: string)
    requires Free(line, {'\r', '\n'})
    ensures Find(line + CRLF + rest, CRLF, 0) == |line|
  {
    hide Find, OccursAt;
    FindAfterFreeText(line, CRLF + rest, CRLF);
    assert line + CRLF + rest == line + (CRLF + rest) && CRLF + rest == "" + CRLF + rest;
    OccursInMiddle("", CRLF, rest);
  }

  lemma SpaceAfterNumber(front: string, number: string, rest: string)
    requires ' ' !in number
    ensures Find(front + number + " " + rest, " ", |front|) == |front| + |number|
  {
    hide Find, OccursAt;
    var text, tail := front + number + " " + rest, " " + rest;
    FindInSuffix(text, " ", |front|);
    assert text[|front|..] == number + tail && tail == "" + " " + rest;
    FindAfterFreeText(number, tail, " ");
    OccursInMiddle("", " ", rest);
  }

  lemma StatusSlices(front: string, number: string, reason: string, rest: string)
    ensures var text, k := front + number + " " + reason + CRLF + rest, |front| + |number|;
            && text == front + number + " " + (reason + CRLF + rest)
            && text[..|front|] == front && text[|front|..k] == number && text[k + 1..k + 1 + |reason|] == reason
  {
    var text, k := front + number + " " + reason + CRLF + rest, |front| + |number|;
    assert text == front + (number + (" " + reason + CRLF + rest));
    assert text[|front|..] == number + (" " + reason + CRLF + rest);
    assert text[k + 1..] == reason + (CRLF + rest);
  }

  lemma StatusOfLine(code: int, rest: string)
    requires -0x8000_0000 <= code < 0x8000_0000
    ensures StatusFirst(StatusLine(code) + CRLF + rest, code)
  {
    hide Find, OccursAt, StatusText, DecInt, Atoi, Plain;
    var front, number, reason := "HTTP/1.1 ", DecInt(code), StatusText(code);
    PlainFree(StatusLine(code));
    NoSpaceInNumber(code);
    AtoiOfDec(code);
    LineEndFirst(StatusLine(code), rest);
    StatusSlices(front, number, reason, rest);
    SpaceAfterNumber(front, number, reason + CRLF + rest);
  }

  /** Every printed response starts with its status, whatever its headers are. */
  lemma TextStatus(code: int, h: HeaderMap, body: string, order: seq<string>)
    requires -0x8000_0000 <= code < 0x8000_0000 && forall k :: k in order ==> k in h
    ensures StatusFirst(TextOf(code, h, body, order), code)
  {
    hide StatusFirst, StatusLine, HeadEntries, Print;
    var block := Print(HeadEntries(h, body, order));
    StatusOfLine(code, block + CRLF + body);
    assert TextOf(code, h, body, order) == StatusLine(code) + CRLF + (block + CRLF + body);
  }

  /** And so does every head in front of a file. */
  lemma StreamStatus(code: int, h: HeaderMap, order: seq<string>, cookies: seq<string>, file: string)
    requires -0x8000_0000 <= code < 0x8000_0000 && forall k :: k in order ==> k in h
    ensures StatusFirst(StreamHead(code, h, order, cookies) + file, code)
  {
    hide StatusFirst, StatusLine, All, CookieEntries, Print;
    var a, b := Print(All(order, h)), Print(CookieEntries(cookies));
    StatusOfLine(code, a + b + CRLF + file);
    Regroup(StatusLine(code), a, b, file);
  }

  lemma Regroup(line: string, a: string, b: string, file: string)
    ensures (line + CRLF + a + b + CRLF) + file == line + CRLF + (a + b + CRLF + file)
  {
  }

  lemma BadRequestMessage()
    ensures var page, end := BadRequestPage(), Find(BadRequestPage(), BLANK_LINE, 0);
            && StatusLine(400) + CRLF <= page && end >= 0
            && page[end + 4..] == BAD_REQUEST_BODY && HeadersOf(page[..end]) == BadRequestHeaders()
  {
    hide Find, Printable, Dec, HeadersOf, StatusLine, Print, BadRequestHeaders, BadRequestOrder, HeadEntries;
    BadRequestPrints();
    assert BadRequestPage() == TextOf(400, BadRequestHeaders(), BAD_REQUEST_BODY, BadRequestOrder());
    BodyAnnounced(400, BadRequestHeaders(), BAD_REQUEST_BODY, BadRequestOrder());
    ResponseRoundTrip(400, BadRequestHeaders(), BAD_REQUEST_BODY, BadRequestOrder());
  }

  /** The page a rejected request leaves in the buffer is a 400 response with that body. */
  lemma BadRequestReadsBack()
    ensures var page, end := BadRequestPage(), Find(BadRequestPage(), BLANK_LINE, 0);
            && "HTTP/1.1 400 Bad Request\r\n" <= page && end >= 0
            && page[end + 4..] == "<html><body><h1>Bad Request</h1></body></html>"
            && HeadersOf(page[..end]) == map["Content-Length" := "46", "Content-Type" := "text/html", "Server" := "webserv/1.1"]
  {
    hide *;
    BadRequestLiterals();
    BadRequestMessage();
  }

  lemma BadRequestLiterals()
    ensures StatusLine(400) + CRLF == "HTTP/1.1 400 Bad Request\r\n"
    ensures BAD_REQUEST_BODY == "<html><body><h1>Bad Request</h1></body></html>"
    ensures BadRequestHeaders() == map["Content-Length" := "46", "Content-Type" := "text/html", "Server" := "webserv/1.1"]
  {
    assert Dec(400) == "400" && Dec(46) == "46";
    assert |BAD_REQUEST_BODY| == 46;
  }

  lemma BadRequestPrints()
    ensures Walks(BadRequestOrder(), BadRequestHeaders())
    ensures forall k :: k in BadRequestHeaders() ==> Printable((k, BadRequestHeaders()[k]))
    ensures ContentLength() in BadRequestHeaders() && BadRequestHeaders()[ContentLength()] == Dec(|BAD_REQUEST_BODY|)
  {
    hide Find, Contains, Dec, Printable;
    LengthPrintable(|BAD_REQUEST_BODY|);
    PlainEntry(("Content-Type", "text/html"));
    PlainEntry(("Server", "webserv/1.1"));
  }

  lemma HeadReadsBack(code: int, h: HeaderMap, body: string, order: seq<string>)
    requires Walks(order, h)
    requires forall k :: k in h ==> Printable((k, h[k]))
    ensures var text, end := TextOf(code, h, body, order), Find(TextOf(code, h, body, order), BLANK_LINE, 0);
            && end >= 0 && end + 4 <= |text| && text[end + 4..] == body
            && Entries(text[..end]) == HeadEntries(h, body, order)
  {
    hide Find, Printable, Entries, HeadEntries, StatusLine, Print, Dec, Store, ContentLength, Names, DistinctNames,
      Plain, FromResponse, OccursAt;
    HeadEntriesDistinct(h, body, order);
    EntriesPrintable(HeadEntries(h, body, order), h, body);
    MessageRoundTrip(StatusLine(code), HeadEntries(h, body, order), body);
  }

  lemma EntriesPrintable(es: seq<Entry>, h: HeaderMap, body: string)
    requires forall k :: k in h ==> Printable((k, h[k]))
    requires forall e :: e in es ==> FromResponse(e, h, body)
    ensures forall e :: e in es ==> Printable(e)
  {
    hide Dec, ContentLength, Printable;
    LengthPrintable(|body|);
    forall e | e in es ensures Printable(e) {
      assert e == (e.0, e.1);
    }
  }

  lemma PlainFree(lead: string)
    requires Plain(lead)
    ensures Free(lead, {'\r', '\n'}) && Find(lead, ": ", 0) < 0
  {
    hide Find;
    forall c | c in lead ensures c !in {'\r', '\n'} { var i :| 0 <= i < |lead| && lead[i] == c; }
    forall i ensures !OccursAt(lead, ": ", i) {
      if 0 <= i && i + 2 <= |lead| { Mismatch(lead, ": ", i, 0); }
    }
  }

  /** A message without headers. */
  lemma BareMessage(lead: string, body: string)
    requires Plain(lead)
    ensures var text := lead + CRLF + "" + CRLF + body;
            Find(text, BLANK_LINE, 0) == |lead| && text[|lead| + 4..] == body && Entries(text[..|lead|]) == []
  {
    hide Find, OccursAt, Entries, Plain;
    var text := lead + CRLF + "" + CRLF + body;
    PlainFree(lead);
    NoColonNoEntries(lead);
    assert text == lead + (BLANK_LINE + body) && BLANK_LINE + body == "" + BLANK_LINE + body;
    FindAfterFreeText(lead, BLANK_LINE + body, BLANK_LINE);
    OccursInMiddle("", BLANK_LINE, body);
    assert text[..|lead|] == lead;
  }

  /** The head and the body of any printed message. */
  lemma MessageRoundTrip(lead: string, es: seq<Entry>, body: string)
    requires lead != "" && Plain(lead) && forall e :: e in es ==> Printable(e)
    ensures var text, end := lead + CRLF + Print(es) + CRLF + body, |lead| + |Print(es)|;
            Find(text, BLANK_LINE, 0) == end && text[end + 4..] == body && Entries(text[..end]) == es
  {
    hide Find, Printable, Entries, Print, Plain;
    if es == [] {
      NothingPrinted();
      BareMessage(lead, body);
    } else {
      PlainFree(lead);
      PrintHasNoBlankLine(lead, es);
      FindStable(lead + CRLF + Print(es) + CRLF, body, BLANK_LINE);
      CutPrintRoundTrip(es);
      PrintEndsLine(es);
      CutHead(lead, Print(es), body);
      NoColonInLead(lead);
      EntriesSkip(lead + "\r", Print(es)[..|Print(es)| - 2]);
    }
  }

  lemma NothingPrinted()
    ensures Print([]) == ""
  {
  }

  lemma {:induction false} PrintEndsLine(es: seq<Entry>)
    requires es != []
    ensures |Print(es)| >= 2 && Print(es)[|Print(es)| - 2..] == CRLF
  {
    if |es| > 1 { PrintEndsLine(es[1..]); }
  }

  /** Taking a printed message apart at its blank line. */
  lemma CutHead(lead: string, block: string, body: string)
    requires |block| >= 2 && block[|block| - 2..] == CRLF
    ensures var text, end := lead + CRLF + block + CRLF + body, |lead| + |block|;
            && text[end + 4..] == body
            && text[..end] == (lead + "\r") + "\n" + block[..|block| - 2]
  {
  }

  lemma LengthPrintable(n: nat)
    ensures Printable((ContentLength(), Dec(n)))
  {
    hide Dec, Printable;
    PlainDigits(n);
    PlainEntry((ContentLength(), Dec(n)));
  }

  lemma PlainDigits(n: nat)
    ensures Trimmed(Dec(n), BLANKS) && Free(Dec(n), {'\r', '\n'})
  {
    hide Dec;
    var d := Dec(n);
    assert d[0] in d && d[|d| - 1] in d;
  }

  lemma NoColonInLead(lead: string)
    requires Plain(lead)
    ensures Find(lead + "\r", ": ", 0) < 0
  {
    hide Find;
    var s := lead + "\r";
    forall i ensures !OccursAt(s, ": ", i) {
      if 0 <= i && i + 2 <= |s| { assert s[i] == lead[i]; Mismatch(s, ": ", i, 0); }
    }
  }

  lemma StoreValues(es: seq<Entry>, h: HeaderMap, body: string)
    requires DistinctNames(es) && Names(es) == h.Keys + {ContentLength()}
    requires es != [] && es[0] == (ContentLength(), Dec(|body|)) && ContentLength() !in Names(es[1..])
    requires forall e :: e in es ==> FromResponse(e, h, body)
    ensures Store(es, map[]) == h[ContentLength() := Dec(|body|)]
  {
    hide Dec, Store, ContentLength, Names, DistinctNames;
    StoreDistinct(es, map[]);
    assert es[0] in es;
    var stored, wanted := Store(es, map[]), h[ContentLength() := Dec(|body|)];
    forall k | k in wanted ensures stored[k] == wanted[k] {
      if k != ContentLength() { NamedEntry(es, k); }
    }
    SameMap(stored, wanted);
  }

  lemma SameMap(a: HeaderMap, b: HeaderMap)
    requires a.Keys == b.Keys && forall k :: k in b ==> a[k] == b[k]
    ensures a == b
  {
  }

  lemma {:induction false} NamedEntry(es: seq<Entry>, k: string)
    requires k in Names(es)
    ensures exists e :: e in es && e.0 == k
  {
    if es[0].0 == k { assert es[0] in es; } else { NamedEntry(es[1..], k); }
  }
}
