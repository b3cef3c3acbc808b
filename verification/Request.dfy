/** Requests: what Request::parse makes of the bytes a client sent. */
module Requests {
  import opened Text
  import opened Headers
  import Chunked

  datatype Parsed = Parsed(verb: string, path: string, query: string, version: string,
                           headers: HeaderMap, body: string, chunked: bool)

  /** The four fields of a request line: text before the first and after the last space. */
  datatype RequestLine = RequestLine(verb: string, path: string, query: string, version: string)

  function LastSpace(line: string): (r: int)
    ensures -1 <= r < |line|
    ensures r >= 0 ==> line[r] == ' '
    ensures forall i :: r < i < |line| ==> line[i] != ' '
  {
    if line == "" then -1
    else if line[|line| - 1] == ' ' then |line| - 1
    else
      LastSpace(line[..|line| - 1])
  }

  function SplitRequestLine(line: string): Option<RequestLine> {
    var first, last := Find(line, " ", 0), LastSpace(line);
    if first < 0 || last <= first then None
    else
      var target := line[first + 1..last];
      var q := Find(target, "?", 0);
      if q >= 0 then Some(RequestLine(line[..first], target[..q], target[q + 1..], line[last + 1..]))
      else Some(RequestLine(line[..first], target, "", line[last + 1..]))
  }

  /** The bytes parse hands to parseHeaders: from after the request line to the blank line. */
  function HeaderBlock(raw: string): string
    requires Contains(raw, CRLF) && Contains(raw, BLANK_LINE)
  {
    var start := Find(raw, CRLF, 0) + 2;
    Substr(raw, start, Find(raw, BLANK_LINE, 0) - start)
  }

  /** Request::parse on a new object, None where it returns false. */
  function ParseRequest(raw: string): Option<Parsed> {
    var lineEnd, headerEnd := Find(raw, CRLF, 0), Find(raw, BLANK_LINE, 0);
    if lineEnd < 0 || headerEnd < 0 then None
    else
      var line, es := SplitRequestLine(raw[..lineEnd]), Entries(HeaderBlock(raw));
      if line.None? || es == [] then None
      else WithBody(line.value, Store(es, map[]), raw[headerEnd + 4..])
  }

  /** The body a request with these headers takes from the bytes after the blank line. */
  function WithBody(line: RequestLine, h: HeaderMap, after: string): Option<Parsed> {
    if Get(h, "Transfer-Encoding") == "chunked" then
      var body := Chunked.Unchunk(after);
      if body.None? then None
      else Some(Build(line, h["Content-Length" := Dec(|body.value|)] - {"Transfer-Encoding"}, body.value, true))
    else if Get(h, "Content-Length") != "" then
      Some(Build(line, h["Content-Length" := Dec(|after|)], after, false))
    else Some(Build(line, h, "", false))
  }

  function Build(line: RequestLine, h: HeaderMap, body: string, chunked: bool): Parsed {
    Parsed(line.verb, line.path, line.query, line.version, h, body, chunked)
  }

  // ---- what a parsed request is ----

  /** The line has its two spaces. */
  ghost predicate TwoSpaces(line: string) {
    exists i, j :: 0 <= i < j < |line| && line[i] == ' ' && line[j] == ' '
  }

  /** A line splits exactly when it has two spaces. */
  lemma SplitsExactly(line: string)
    ensures SplitRequestLine(line).Some? <==> TwoSpaces(line)
  {
    hide Find;
    FindChar(line, ' ');
    var first, last := Find(line, " ", 0), LastSpace(line);
    if 0 <= first < last { assert line[first] == ' ' && line[last] == ' '; }
    if TwoSpaces(line) {
      var i, j :| 0 <= i < j < |line| && line[i] == ' ' && line[j] == ' ';
      assert OccursAt(line, " ", i) by { assert line[i..i + 1] == " "; }
    }
  }

  lemma LineSlices(verb: string, target: string, version: string)
    ensures var line, last := verb + " " + target + " " + version, |verb| + 1 + |target|;
            line[..|verb|] == verb && line[|verb| + 1..last] == target && line[last + 1..] == version && line[last] == ' '
  {
    var line, last := verb + " " + target + " " + version, |verb| + 1 + |target|;
    assert line == verb + (" " + target + " " + version);
    assert line == (verb + " ") + target + (" " + version);
    assert line == (verb + " " + target + " ") + version;
    assert line[|verb| + 1..last] == target;
  }

  lemma SpacePlaces(verb: string, target: string, version: string)
    requires ' ' !in verb && ' ' !in version
    ensures var line := verb + " " + target + " " + version;
            Find(line, " ", 0) == |verb| && LastSpace(line) == |verb| + 1 + |target|
  {
    hide Find, OccursAt, LastSpace;
    var line, last := verb + " " + target + " " + version, |verb| + 1 + |target|;
    forall i | 0 <= i < |verb| ensures line[i] != ' ' { assert line[i] == verb[i] && verb[i] in verb; }
    forall i | last < i < |line| ensures line[i] != ' ' {
      assert line[i] == version[i - last - 1] && version[i - last - 1] in version;
    }
    FirstBlankAt(line, |verb|);
    LineSlices(verb, target, version);
  }

  /** The target of a line is everything between its first and its last space. */
  lemma SplitPlainLine(verb: string, target: string, version: string)
    requires ' ' !in verb && ' ' !in version && '?' !in target
    ensures SplitRequestLine(verb + " " + target + " " + version) == Some(RequestLine(verb, target, "", version))
  {
    hide Find, OccursAt, LastSpace;
    SpacePlaces(verb, target, version);
    LineSlices(verb, target, version);
    forall i ensures !OccursAt(target, "?", i) {
      if 0 <= i < |target| { assert target[i] in target; Mismatch(target, "?", i, 0); } else { NotInside(target, "?", i); }
    }
  }

  /** And its query starts behind the first question mark. */
  lemma SplitQueryLine(verb: string, path: string, query: string, version: string)
    requires ' ' !in verb && ' ' !in version && '?' !in path
    ensures SplitRequestLine(verb + " " + (path + "?" + query) + " " + version)
            == Some(RequestLine(verb, path, query, version))
  {
    hide Find, OccursAt, LastSpace;
    var target := path + "?" + query;
    SpacePlaces(verb, target, version);
    LineSlices(verb, target, version);
    assert target == path + ("?" + query) && "" + "?" + query == "?" + query;
    FindAfterFreeText(path, "?" + query, "?");
    OccursInMiddle("", "?", query);
    assert target[..|path|] == path && target[|path| + 1..] == query;
  }

  /** Both maps have the header, with the same value, or neither has it. */
  predicate SameHeader(a: HeaderMap, b: HeaderMap, name: string) {
    (name in a <==> name in b) && (name in a ==> a[name] == b[name])
  }

  /**
   * A parsed request keeps every header of its block, but for two: a body that was taken replaces
   * Content-Length by its own length, and one that was decoded removes Transfer-Encoding.
   */
  ghost predicate HeadersCarried(p: Parsed, h: HeaderMap) {
    && (p.chunked <==> Get(h, "Transfer-Encoding") == "chunked")
    && (forall name :: name != "Content-Length" && name != "Transfer-Encoding" ==> SameHeader(p.headers, h, name))
    && (if p.chunked || Get(h, "Content-Length") != ""
        then "Content-Length" in p.headers && p.headers["Content-Length"] == Dec(|p.body|)
        else SameHeader(p.headers, h, "Content-Length"))
    && (if p.chunked then "Transfer-Encoding" !in p.headers else SameHeader(p.headers, h, "Transfer-Encoding"))
  }

  /** The body is the decoded bytes after the blank line, all of them as they are, or none. */
  predicate BodyTaken(p: Parsed, h: HeaderMap, after: string) {
    if Get(h, "Transfer-Encoding") == "chunked" then Chunked.Unchunk(after) == Some(p.body)
    else p.body == if Get(h, "Content-Length") != "" then after else ""
  }

  /** Every request that parses: its line, its headers and its body. */
  lemma ParsedCarries(raw: string)
    requires ParseRequest(raw).Some?
    ensures Contains(raw, CRLF) && Contains(raw, BLANK_LINE)
    ensures var p, h := ParseRequest(raw).value, HeadersOf(HeaderBlock(raw));
            && SplitRequestLine(raw[..Find(raw, CRLF, 0)]) == Some(RequestLine(p.verb, p.path, p.query, p.version))
            && HeadersCarried(p, h) && BodyTaken(p, h, raw[Find(raw, BLANK_LINE, 0) + 4..])
  {
    hide Find, Entries, SplitRequestLine, Store, HeaderBlock, Chunked.Unchunk, Dec;
  }

  class Request {
    var verb: string
    var path: string
    var query: string
    var version: string
    var headers: HeaderMap
    var body: string
    var chunked: bool

    constructor ()
      ensures headers == map[] && body == "" && !chunked
    {
      verb, path, query, version, body := "", "", "", "", "";
      headers := map[];
      chunked := false;
    }

    function View(): Parsed
      reads this
    {
      Parsed(verb, path, query, version, headers, body, chunked)
    }

    method ParseRequestLine(line: string) returns (ok: bool)
      modifies `verb, `path, `query, `version
      ensures ok == SplitRequestLine(line).Some?
      ensures ok ==> RequestLine(verb, path, query, version) == SplitRequestLine(line).value
    {
      hide Find, OccursAt, LastSpace;
      var first, last := Find(line, " ", 0), LastSpace(line);
      if first == -1 || last == -1 || first == last { return false; }
      LastNotBeforeFirst(line);
      verb := line[..first];
      var fullPath := line[first + 1..last];
      var queryPos := Find(fullPath, "?", 0);
      if queryPos != -1 {
        path, query := fullPath[..queryPos], fullPath[queryPos + 1..];
      } else {
        path, query := fullPath, "";
      }
      version := line[last + 1..];
      ok := true;
    }

    /** Reads the block line by line and stores every entry, over the headers already there. */
    method ParseHeaders(section: string) returns (valid: bool)
      modifies `headers
      ensures valid == (Entries(section) != [])
      ensures headers == Store(Entries(section), old(headers))
    {
      hide Find, TextEntry, LineEntry;
      valid := false;
      var rest := section;
      while rest != ""
        invariant Store(Entries(section), old(headers)) == Store(Entries(rest), headers)
        invariant Entries(section) != [] <==> valid || Entries(rest) != []
        decreases |rest|
      {
        var k := Find(rest, "\n", 0);
        var line := if k == -1 then rest else rest[..k];
        ghost var before, stored := rest, headers;
        rest := if k == -1 then "" else rest[k + 1..];
        assert Entries(before) == LineEntry(line) + Entries(rest);
        var es := ReadLine(line);
        StoreAppend(es, Entries(rest), stored);
        if es != [] {
          headers := headers[es[0].0 := es[0].1];
          valid := true;
        }
      }
    }

    /** One pass of the loop body of parseHeaders over a line. */
    static method ReadLine(line: string) returns (es: seq<Entry>)
      ensures es == LineEntry(line) && |es| <= 1
    {
      hide Find;
      if line == "" || line == "\r" { return []; }
      var text := if line[|line| - 1] == '\r' then line[..|line| - 1] else line;
      var colonPos := Find(text, ": ", 0);
      if colonPos == -1 { return []; }
      var key, value := Trim(text[..colonPos], BLANKS), Trim(text[colonPos + 2..], BLANKS);
      es := if key == "" then [] else [(key, value)];
    }

    method Parse(raw: string) returns (ok: bool)
      requires headers == map[] && body == "" && |raw| <= STRING_MAX
      modifies this
      ensures ok == ParseRequest(raw).Some?
      ensures ok ==> View() == ParseRequest(raw).value
      ensures ok ==> Contains(raw, CRLF) && Contains(raw, BLANK_LINE) && HeadersCarried(View(), HeadersOf(HeaderBlock(raw)))
    {
      hide Find, OccursAt, SplitRequestLine, Entries, Store, Substr, Dec, Chunked.Unchunk, HeadersCarried, BodyTaken;
      var firstLineEnd := Find(raw, CRLF, 0);
      if firstLineEnd == -1 { return false; }
      ok := ParseRequestLine(raw[..firstLineEnd]);
      if !ok { return; }
      var headerEnd := Find(raw, BLANK_LINE, 0);
      if headerEnd == -1 { return false; }
      ok := ParseHeaders(Substr(raw, firstLineEnd + 2, headerEnd - (firstLineEnd + 2)));
      if !ok { return; }
      chunked := Get(headers, "Transfer-Encoding") == "chunked";
      var bodyStart := headerEnd + 4;
      if chunked {
        var decoded := Chunked.UnchunkData(raw[bodyStart..]);
        if decoded.None? { return false; }
        body := decoded.value;
        headers := headers["Content-Length" := Dec(|body|)];
        headers := headers - {"Transfer-Encoding"};
      } else if Get(headers, "Content-Length") != "" {
        body := raw[bodyStart..];
        headers := headers["Content-Length" := Dec(|body|)];
      }
      ParsedCarries(raw);
    }
  }

  lemma LastNotBeforeFirst(line: string)
    requires Find(line, " ", 0) >= 0
    ensures LastSpace(line) >= Find(line, " ", 0)
  {
    FindChar(line, ' ');
  }
}
