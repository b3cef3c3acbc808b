/** The configuration language: values, line syntax, and what a list of lines denotes. */
module Configs {
  import opened Text

  datatype LocationConfig = LocationConfig(
    path: string, methods: seq<string>, root: string, index: string, autoindex: bool,
    maxBody: nat, cgiPath: string, redirect: string)

  datatype ServerConfig = ServerConfig(
    host: string, port: int, names: seq<string>, root: string, index: string, timeout: int,
    maxBody: nat, errorPages: map<int, string>, locations: seq<LocationConfig>, cgi: map<string, string>)

  function DefaultServer(): ServerConfig {
    ServerConfig("0.0.0.0", 8080, [], "", "index.html", 60, 1048576,
                 map[404 := "/404.html", 500 := "/500.html"], [], map[])
  }

  /** What parseLocation starts a location with. */
  function DefaultLocation(path: string): LocationConfig {
    LocationConfig(path, ["GET"], "www", "", false, 1048576, "", "")
  }

  datatype ConfigError =
    | CgiBeforeServer(line: nat) | OutsideServer(line: nat) | BadErrorCode(line: nat)
    | BadErrorPage(line: nat) | BadUnit(line: nat)

  // ---- line syntax ----

  predicate IsBlank(c: char) { c == ' ' || c == '\t' }

  /** The position of the first space or tab, or the length. */
  function FirstBlank(s: string): (n: nat)
    ensures n <= |s| && (n < |s| ==> IsBlank(s[n]))
    ensures forall i :: 0 <= i < n ==> !IsBlank(s[i])
  {
    if s == "" || IsBlank(s[0]) then 0 else 1 + FirstBlank(s[1..])
  }

  /** splitDirective */
  function SplitDirective(line: string): (string, string) {
    var n := FirstBlank(line);
    if n < |line| then (Trim(line[..n], SPACES), Trim(line[n + 1..], SPACES)) else (Trim(line, SPACES), "")
  }

  function DropSemicolon(s: string): string {
    if s != "" && s[|s| - 1] == ';' then s[..|s| - 1] else s
  }

  predicate IsSpace(c: char) { c in SPACES }

  /** The whitespace-separated tokens a stream yields. */
  function Words(s: string): seq<string> {
    if s == "" then []
    else if IsSpace(s[0]) then Words(s[1..])
    else
      var n := WordLength(s);
      [s[..n]] + Words(s[n..])
  }

  function WordLength(s: string): (n: nat)
    ensures n <= |s| && (s != "" && !IsSpace(s[0]) ==> n > 0)
    ensures forall i :: 0 <= i < n ==> !IsSpace(s[i])
    ensures n < |s| ==> IsSpace(s[n])
  {
    if s == "" || IsSpace(s[0]) then 0 else 1 + WordLength(s[1..])
  }

  predicate Word(w: string) {
    w != "" && forall i :: 0 <= i < |w| ==> !IsSpace(w[i])
  }

  predicate StartsWith(s: string, p: string) { |p| <= |s| && s[..|p|] == p }

  // ---- sizes ----

  predicate IsAlpha(c: char) { 'a' <= c <= 'z' || 'A' <= c <= 'Z' }

  function ToLower(c: char): char {
    if 'A' <= c <= 'Z' then (c as int + 32) as char else c
  }

  function NumberPart(s: string): (n: nat)
    ensures n <= |s| && forall i :: 0 <= i < n ==> IsDigit(s[i]) || s[i] == '.'
    ensures n < |s| ==> !IsDigit(s[n]) && s[n] != '.'
  {
    if s == "" || !(IsDigit(s[0]) || s[0] == '.') then 0 else 1 + NumberPart(s[1..])
  }

  function UnitPart(s: string): string {
    if s == "" || !IsAlpha(s[0]) then "" else [ToLower(s[0])] + UnitPart(s[1..])
  }

  function UnitFactor(unit: string): Option<nat> {
    if unit == "" then Some(1)
    else if unit == "k" || unit == "kb" then Some(1024)
    else if unit == "m" || unit == "mb" then Some(1024 * 1024)
    else if unit == "g" || unit == "gb" then Some(1024 * 1024 * 1024)
    else None
  }

  function DigitRun(s: string): (n: nat)
    ensures n <= |s|
  {
    if s == "" || !IsDigit(s[0]) then 0 else 1 + DigitRun(s[1..])
  }

  function Times(a: nat, b: nat): nat { a * b }

  function Quotient(a: nat, b: nat): nat
    requires b > 0
  {
    a / b
  }

  /** The decimal number at the start of s times factor, cut to a whole number. */
  function Scaled(s: string, factor: nat): nat {
    var whole := DigitRun(s);
    if whole < |s| && s[whole] == '.' then
      var frac := DigitRun(s[whole + 1..]);
      Quotient(Times(factor, Times(DigitsValue(s, 0), Pow10(frac)) + DigitsValue(s[whole + 1..], 0)), Pow10(frac))
    else Times(factor, DigitsValue(s, 0))
  }

  /** parseSize, with exact arithmetic; None for an unknown unit. */
  function ParseSize(value: string): Option<nat> {
    var n := NumberPart(value);
    var factor := UnitFactor(UnitPart(value[n..]));
    if factor.None? then None else Some(Scaled(value[..n], factor.value))
  }

  // ---- directives ----

  datatype Key =
    | KHost | KPort | KServerName | KRoot | KIndex | KTimeout | KMaxBody | KErrorPage
    | KAutoindex | KMethods | KCgiPass | KReturn | KOther

  function KeyOf(word: string): Key {
    if word == "host" then KHost
    else if word == "port" then KPort
    else if word == "server_name" then KServerName
    else if word == "root" then KRoot
    else if word == "index" then KIndex
    else if word == "client_timeout" then KTimeout
    else if word == "client_max_body_size" then KMaxBody
    else if word == "error_page" then KErrorPage
    else if word == "autoindex" then KAutoindex
    else if word == "allowed_methods" then KMethods
    else if word == "cgi_pass" then KCgiPass
    else if word == "return" then KReturn
    else KOther
  }

  function SizeErrors(size: Option<nat>, pos: nat): seq<ConfigError> {
    if size.None? then [BadUnit(pos + 1)] else []
  }

  function SizeOf(size: Option<nat>): nat {
    if size.None? then 0 else size.value
  }

  datatype Got<T> = Got(value: T, pos: nat, errors: seq<ConfigError>)

  /** parseDirective, on the line at pos. */
  function ServerDirective(line: string, pos: nat, c: ServerConfig, errors: seq<ConfigError>): Got<ServerConfig> {
    var d := SplitDirective(DropSemicolon(line));
    match KeyOf(d.0)
    case KHost => Got(c.(host := d.1), pos, errors)
    case KPort => Got(c.(port := Atoi(d.1)), pos, errors)
    case KServerName => Got(c.(names := c.names + Words(d.1)), pos, errors)
    case KRoot => Got(c.(root := d.1), pos, errors)
    case KIndex => Got(c.(index := d.1), pos, errors)
    case KTimeout => Got(c.(timeout := Atoi(d.1) % 0x1_0000_0000), pos, errors)
    case KMaxBody => Got(c.(maxBody := SizeOf(ParseSize(d.1))), pos, errors + SizeErrors(ParseSize(d.1), pos))
    case KErrorPage =>
      var ws := Words(d.1);
      if |ws| < 2 then Got(c, pos, errors + [BadErrorPage(pos + 1)])
      else if 400 <= Atoi(ws[0]) < 600 then Got(c.(errorPages := c.errorPages[Atoi(ws[0]) := ws[1]]), pos, errors)
      else Got(c, pos, errors + [BadErrorCode(pos + 1)])
    case _ => Got(c, pos, errors)
  }

  predicate KnownMethod(m: string) {
    m == "GET" || m == "POST" || m == "DELETE" || m == "PUT" || m == "HEAD"
  }

  function KnownMethods(words: seq<string>): seq<string> {
    if words == [] then []
    else (if KnownMethod(DropSemicolon(words[0])) then [DropSemicolon(words[0])] else []) + KnownMethods(words[1..])
  }

  /** parseAllowedMethods, after the list was cleared. */
  function AllowedMethods(value: string): seq<string> {
    var ms := KnownMethods(Words(DropSemicolon(value)));
    if ms == [] then ["GET"] else ms
  }

  function Redirect(value: string, current: string): string {
    var ws := Words(value);
    if |ws| > 0 && (ws[0] == "301" || ws[0] == "302") then (if |ws| > 1 then DropSemicolon(ws[1]) else "") else current
  }

  function LocationDirective(line: string, pos: nat, l: LocationConfig, errors: seq<ConfigError>): Got<LocationConfig> {
    var d := SplitDirective(line);
    var value := DropSemicolon(d.1);
    match KeyOf(d.0)
    case KRoot => Got(l.(root := value), pos, errors)
    case KIndex => Got(l.(index := value), pos, errors)
    case KAutoindex => Got(l.(autoindex := value == "on"), pos, errors)
    case KMaxBody => Got(l.(maxBody := SizeOf(ParseSize(value))), pos, errors + SizeErrors(ParseSize(value), pos))
    case KMethods => Got(l.(methods := AllowedMethods(value)), pos, errors)
    case KCgiPass => Got(l.(cgiPath := value), pos, errors)
    case KReturn => Got(l.(redirect := Redirect(value, l.redirect)), pos, errors)
    case _ => Got(l, pos, errors)
  }

  /** An entry of a cgi block: the extension gets its dot, the handler loses its semicolon. */
  function CgiEntry(line: string): (string, string) {
    var d := SplitDirective(line);
    (if d.0 == "" || d.0[0] != '.' then "." + d.0 else d.0, DropSemicolon(d.1))
  }

  // ---- blocks: what the lines from pos on denote ----

  type Lines = seq<string>

  function LineAt(lines: Lines, pos: nat): string {
    if pos < |lines| then lines[pos] else ""
  }

  function SkipBlankLines(lines: Lines, pos: nat): (p: nat)
    ensures pos <= p && (pos <= |lines| ==> p <= |lines|)
    ensures p < |lines| ==> Trim(lines[p], SPACES) != ""
    ensures forall i :: pos <= i < p && i < |lines| ==> Trim(lines[i], SPACES) == ""
    decreases |lines| - pos
  {
    if pos < |lines| && Trim(lines[pos], SPACES) == "" then SkipBlankLines(lines, pos + 1) else pos
  }

  predicate MentionsServer(line: string) { Contains(line, "server") }

  predicate IsLocationLine(line: string) { StartsWith(line, "location") }

  predicate IsCgiLine(line: string) { StartsWith(line, "cgi") && Contains(line, "{") }

  predicate IsClose(line: string) { line == "}" }

  function CgiBody(lines: Lines, pos: nat, cgi: map<string, string>): (r: (map<string, string>, nat))
    ensures r.1 >= pos
    decreases |lines| - pos
  {
    if pos >= |lines| then (cgi, pos)
    else
      var p := SkipBlankLines(lines, pos);
      var line := LineAt(lines, p);
      if Trim(line, SPACES) == "}" then (cgi, p + 1)
      else CgiBody(lines, p + 1, cgi[CgiEntry(line).0 := CgiEntry(line).1])
  }

  /** The line after the next one with an opening brace. */
  function PastBrace(lines: Lines, pos: nat): (p: nat)
    ensures p >= pos && (pos < |lines| ==> p > pos)
    decreases |lines| - pos
  {
    if pos >= |lines| then pos
    else if Contains(lines[pos], "{") then pos + 1
    else PastBrace(lines, pos + 1)
  }

  function LocationBody(lines: Lines, pos: nat, l: LocationConfig, errors: seq<ConfigError>): (r: Got<LocationConfig>)
    ensures r.pos >= pos
    decreases |lines| - pos
  {
    if pos >= |lines| then Got(l, pos, errors)
    else
      var p := SkipBlankLines(lines, pos);
      var line := LineAt(lines, p);
      if IsClose(line) then Got(l, p + 1, errors)
      else
        var g := LocationDirective(line, p, l, errors);
        LocationBody(lines, p + 1, g.value, g.errors)
  }

  /** The path token of a location line; a missing one repeats the first token. */
  function LocationPath(line: string): string {
    var ws := Words(line);
    if |ws| > 1 then ws[1] else if |ws| > 0 then ws[0] else ""
  }

  function LocationBlock(lines: Lines, pos: nat, errors: seq<ConfigError>): (r: Got<LocationConfig>)
    requires pos < |lines|
    ensures r.pos > pos
  {
    LocationBody(lines, PastBrace(lines, pos), DefaultLocation(LocationPath(lines[pos])), errors)
  }

  /** One line, or one nested block, of a server block. */
  function ServerNext(lines: Lines, p: nat, c: ServerConfig, errors: seq<ConfigError>): (r: Got<ServerConfig>)
    requires p < |lines|
    ensures r.pos > p
  {
    if IsLocationLine(lines[p]) then
      var g := LocationBlock(lines, p, errors);
      Got(c.(locations := c.locations + [g.value]), g.pos, g.errors)
    else if IsCgiLine(lines[p]) then
      var g := CgiBody(lines, p + 1, c.cgi);
      Got(c.(cgi := g.0), g.1, errors)
    else
      var g := ServerDirective(lines[p], p, c, errors);
      Got(g.value, p + 1, g.errors)
  }

  function ServerBody(lines: Lines, pos: nat, c: ServerConfig, errors: seq<ConfigError>): (r: Got<ServerConfig>)
    ensures r.pos >= pos
    decreases |lines| - pos
  {
    if pos >= |lines| then Got(c, pos, errors)
    else
      var p := SkipBlankLines(lines, pos);
      if p >= |lines| then Got(c, p, errors)
      else if IsClose(lines[p]) then Got(c, p + 1, errors)
      else
        var g := ServerNext(lines, p, c, errors);
        ServerBody(lines, g.pos, g.value, g.errors)
  }

  predicate IsBlockStart(line: string) {
    Trim(line, SPACES) == "{" || Trim(line, SPACES) == "server {"
  }

  /** parseServer on a line that mentions "server". */
  function ServerBlock(lines: Lines, pos: nat, errors: seq<ConfigError>): (r: Got<ServerConfig>)
    requires pos < |lines|
    ensures r.pos > pos
  {
    var p := SkipBlankLines(lines, pos + 1);
    ServerBody(lines, if p < |lines| && IsBlockStart(lines[p]) then p + 1 else p, DefaultServer(), errors)
  }

  /** A configuration, or the position where parse stops advancing. */
  datatype Parse = Done(servers: seq<ServerConfig>, pos: nat, errors: seq<ConfigError>) | Stuck(pos: nat, errors: seq<ConfigError>)

  predicate IsCgiOpen(line: string) { line == "cgi {" }

  /** The line that makes the loop of parse repeat itself: a cgi block with no server before it. */
  predicate StuckAt(lines: Lines, pos: nat, servers: seq<ServerConfig>)
    requires pos < |lines|
  {
    servers == [] && !MentionsServer(lines[pos]) && IsCgiOpen(lines[pos])
  }

  function TopLevel(lines: Lines, pos: nat, servers: seq<ServerConfig>, errors: seq<ConfigError>): Parse
    decreases |lines| - pos
  {
    var p := SkipBlankLines(lines, pos);
    if p >= |lines| then Done(servers, p, errors)
    else if StuckAt(lines, p, servers) then Stuck(p, errors)
    else
      var s := TopStep(lines, p, servers, errors);
      TopLevel(lines, s.pos, s.value, s.errors)
  }

  /** One pass of the loop of parse over a line that is not blank. */
  function TopStep(lines: Lines, pos: nat, servers: seq<ServerConfig>, errors: seq<ConfigError>): (r: Got<seq<ServerConfig>>)
    requires pos < |lines|
    ensures if StuckAt(lines, pos, servers) then r == Got(servers, pos, errors + [CgiBeforeServer(pos + 1)])
            else r.pos > pos
  {
    var line := lines[pos];
    if MentionsServer(line) then
      var g := ServerBlock(lines, pos, errors);
      Got(servers + [g.value], g.pos, g.errors)
    else if IsCgiOpen(line) then
      if servers != [] then
        var last := servers[|servers| - 1];
        var g := CgiBody(lines, pos + 1, last.cgi);
        Got(servers[..|servers| - 1] + [last.(cgi := g.0)], g.1, errors)
      else Got(servers, pos, errors + [CgiBeforeServer(pos + 1)])
    else if line != "" && line[0] != '#' then Got(servers, pos + 1, errors + [OutsideServer(pos + 1)])
    else Got(servers, pos + 1, errors)
  }

  /** One unfolding of TopLevel. */
  lemma TopLevelStep(lines: Lines, pos: nat, servers: seq<ServerConfig>, errors: seq<ConfigError>)
    ensures var p := SkipBlankLines(lines, pos);
            TopLevel(lines, pos, servers, errors) ==
            if p >= |lines| then Done(servers, p, errors)
            else if StuckAt(lines, p, servers) then Stuck(p, errors)
            else var s := TopStep(lines, p, servers, errors); TopLevel(lines, s.pos, s.value, s.errors)
  {
    hide MentionsServer, SkipBlankLines, ServerBlock, CgiBody, IsCgiOpen;
  }

  // One unfolding of each block, so that the loops can keep the definitions folded.

  lemma CgiBodyStep(lines: Lines, pos: nat, cgi: map<string, string>)
    requires pos < |lines|
    ensures var p := SkipBlankLines(lines, pos);
            var line := LineAt(lines, p);
            CgiBody(lines, pos, cgi) ==
            if Trim(line, SPACES) == "}" then (cgi, p + 1)
            else CgiBody(lines, p + 1, cgi[CgiEntry(line).0 := CgiEntry(line).1])
  {
    hide Trim, CgiEntry, SkipBlankLines;
  }

  lemma CgiBodyEnd(lines: Lines, pos: nat, cgi: map<string, string>)
    requires pos >= |lines|
    ensures CgiBody(lines, pos, cgi) == (cgi, pos)
  {
  }

  lemma LocationBodyStep(lines: Lines, pos: nat, l: LocationConfig, errors: seq<ConfigError>)
    requires pos < |lines|
    ensures var p := SkipBlankLines(lines, pos);
            var line := LineAt(lines, p);
            var g := LocationDirective(line, p, l, errors);
            LocationBody(lines, pos, l, errors) ==
            if IsClose(line) then Got(l, p + 1, errors) else LocationBody(lines, p + 1, g.value, g.errors)
  {
    hide LocationDirective, SkipBlankLines, IsClose;
  }

  lemma LocationBodyEnd(lines: Lines, pos: nat, l: LocationConfig, errors: seq<ConfigError>)
    requires pos >= |lines|
    ensures LocationBody(lines, pos, l, errors) == Got(l, pos, errors)
  {
  }

  lemma ServerBodyStep(lines: Lines, pos: nat, c: ServerConfig, errors: seq<ConfigError>)
    requires pos < |lines|
    ensures var p := SkipBlankLines(lines, pos);
            ServerBody(lines, pos, c, errors) ==
            if p >= |lines| then Got(c, p, errors)
            else if IsClose(lines[p]) then Got(c, p + 1, errors)
            else var g := ServerNext(lines, p, c, errors); ServerBody(lines, g.pos, g.value, g.errors)
  {
    hide ServerNext, SkipBlankLines, IsClose;
  }

  lemma ServerBodyEnd(lines: Lines, pos: nat, c: ServerConfig, errors: seq<ConfigError>)
    requires pos >= |lines|
    ensures ServerBody(lines, pos, c, errors) == Got(c, pos, errors)
  {
  }

  // ---- termination ----

  function Repeat(n: nat, lines: Lines, g: Got<seq<ServerConfig>>): Got<seq<ServerConfig>>
    requires g.pos < |lines| && StuckAt(lines, g.pos, g.value)
  {
    if n == 0 then g else Repeat(n - 1, lines, TopStep(lines, g.pos, g.value, g.errors))
  }

  /** Once stuck, parse never gets on: any number of passes only adds as many errors. */
  lemma {:induction false} StuckForever(n: nat, lines: Lines, g: Got<seq<ServerConfig>>)
    requires g.pos < |lines| && StuckAt(lines, g.pos, g.value)
    ensures Repeat(n, lines, g).pos == g.pos && Repeat(n, lines, g).value == g.value
    ensures |Repeat(n, lines, g).errors| == |g.errors| + n
  {
    if n > 0 { StuckForever(n - 1, lines, TopStep(lines, g.pos, g.value, g.errors)); }
  }

  lemma {:induction false} NeverStuckAfterServer(lines: Lines, pos: nat, servers: seq<ServerConfig>, errors: seq<ConfigError>)
    requires servers != []
    ensures TopLevel(lines, pos, servers, errors).Done?
    decreases |lines| - pos
  {
    hide MentionsServer, SkipBlankLines, ServerBlock, CgiBody, IsCgiOpen, TopLevel;
    TopLevelStep(lines, pos, servers, errors);
    var p := SkipBlankLines(lines, pos);
    if p < |lines| {
      var s := TopStep(lines, p, servers, errors);
      NeverStuckAfterServer(lines, s.pos, s.value, s.errors);
    }
  }

  /** Of the lines that are "cgi {" or mention "server", the first is "cgi {". */
  predicate CgiFirst(lines: Lines, pos: nat)
    decreases |lines| - pos
  {
    pos < |lines| && !MentionsServer(lines[pos]) && (IsCgiOpen(lines[pos]) || CgiFirst(lines, pos + 1))
  }

  /** parse terminates exactly when no "cgi {" line comes before the first mention of "server". */
  lemma {:induction false} StuckExactly(lines: Lines, pos: nat, errors: seq<ConfigError>)
    ensures TopLevel(lines, pos, [], errors).Stuck? <==> CgiFirst(lines, pos)
    decreases |lines| - pos
  {
    hide MentionsServer, SkipBlankLines, TopStep, IsCgiOpen, TopLevel;
    TopLevelStep(lines, pos, [], errors);
    CgiFirstPastBlank(lines, pos);
    var p := SkipBlankLines(lines, pos);
    if p < |lines| && !StuckAt(lines, p, []) {
      FirstStep(lines, p, errors);
      var s := TopStep(lines, p, [], errors);
      if MentionsServer(lines[p]) {
        NeverStuckAfterServer(lines, s.pos, s.value, s.errors);
      } else {
        StuckExactly(lines, p + 1, s.errors);
      }
    }
  }

  lemma FirstStep(lines: Lines, p: nat, errors: seq<ConfigError>)
    requires p < |lines| && !StuckAt(lines, p, [])
    ensures var s := TopStep(lines, p, [], errors);
            if MentionsServer(lines[p]) then s.value != [] else s.value == [] && s.pos == p + 1
  {
    hide MentionsServer, ServerBlock, CgiBody, IsCgiOpen;
  }

  lemma {:induction false} CgiFirstPastBlank(lines: Lines, pos: nat)
    ensures CgiFirst(lines, pos) == CgiFirst(lines, SkipBlankLines(lines, pos))
    decreases |lines| - pos
  {
    hide MentionsServer, IsCgiOpen, Trim;
    if pos < |lines| && Trim(lines[pos], SPACES) == "" {
      BlankLineIsNeither(lines[pos]);
      CgiFirstPastBlank(lines, pos + 1);
    }
  }

  lemma BlankLineIsNeither(line: string)
    requires Trim(line, SPACES) == ""
    ensures !IsCgiOpen(line) && !MentionsServer(line)
  {
    hide Find, Trim;
    AllSpaces(line);
    if line != "" { assert line[0] in line; }
    forall i | 0 <= i && i + 6 <= |line| ensures !OccursAt(line, "server", i) {
      assert line[i] in line;
      Mismatch(line, "server", i, 0);
    }
  }

  lemma {:induction false} AllSpaces(s: string)
    requires Trim(s, SPACES) == ""
    ensures forall c :: c in s ==> c in SPACES
  {
    RightSpaces(TrimLeft(s, SPACES));
    LeftSpaces(s);
  }

  lemma {:induction false} RightSpaces(s: string)
    requires TrimRight(s, SPACES) == ""
    ensures forall c :: c in s ==> c in SPACES
  {
    if s != "" {
      RightSpaces(s[..|s| - 1]);
      assert s == s[..|s| - 1] + [s[|s| - 1]];
    }
  }

  lemma {:induction false} LeftSpaces(s: string)
    requires forall c :: c in TrimLeft(s, SPACES) ==> c in SPACES
    ensures forall c :: c in s ==> c in SPACES
  {
    if s != "" && s[0] in SPACES {
      LeftSpaces(s[1..]);
      assert s == [s[0]] + s[1..];
    }
  }
}
