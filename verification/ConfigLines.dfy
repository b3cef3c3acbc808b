/**
 * What the configuration parser makes of lines that no printed configuration has: other values
 * and unknown directives, braces on lines of their own, comments, and blocks outside of a server.
 */
module ConfigLines {
  import opened Text
  import opened Configs
  import opened ConfigParsers
  import opened ConfigRoundTrips

  // ---- words and directives with any space between them ----

  /** Space in front of the words is skipped, whatever it is made of. */
  lemma {:induction false} WordsSkip(pads: string, rest: string)
    requires forall c :: c in pads ==> c in SPACES
    ensures Words(pads + rest) == Words(rest)
  {
    hide WordLength;
    if pads == "" {
      assert pads + rest == rest;
    } else {
      assert (pads + rest)[1..] == pads[1..] + rest && (pads + rest)[0] == pads[0];
      WordsSkip(pads[1..], rest);
    }
  }

  /** And a word ends at any of them. */
  lemma WordThenSpace(w: string, pads: string, rest: string)
    requires Word(w) && pads != "" && forall c :: c in pads ==> c in SPACES
    ensures Words(w + pads + rest) == [w] + Words(rest)
  {
    hide WordLength, Words;
    var s, tail := w + pads + rest, pads + rest;
    assert s == w + tail && tail[0] == pads[0];
    WordLengthOf(w, tail);
    FirstWord(s);
    assert s[..|w|] == w && s[|w|..] == tail && s[0] == w[0];
    WordsSkip(pads, rest);
  }

  lemma FirstWord(s: string)
    requires s != "" && !IsSpace(s[0])
    ensures Words(s) == [s[..WordLength(s)]] + Words(s[WordLength(s)..])
  {
    hide WordLength;
  }

  lemma {:induction false} FirstBlankAfter(w: string, rest: string)
    requires (forall i :: 0 <= i < |w| ==> !IsBlank(w[i])) && (rest == "" || IsBlank(rest[0]))
    ensures FirstBlank(w + rest) == |w|
  {
    if w == "" {
      assert w + rest == rest;
    } else {
      assert (w + rest)[1..] == w[1..] + rest;
      FirstBlankAfter(w[1..], rest);
    }
  }

  /** A directive is its first word, and everything behind it without the space around. */
  lemma DirectiveSplit(w: string, blank: char, pads: string, value: string, tail: string)
    requires Word(w) && IsBlank(blank) && Trimmed(value, SPACES)
    requires forall c :: c in pads || c in tail ==> c in SPACES
    ensures SplitDirective(w + [blank] + (pads + value + tail)) == (w, value)
    ensures SplitDirective(w) == (w, "")
  {
    hide FirstBlank, Trim;
    var rest := pads + value + tail;
    var line := w + [blank] + rest;
    forall i | 0 <= i < |w| ensures !IsBlank(w[i]) { assert !IsSpace(w[i]); }
    assert line == w + ([blank] + rest) && w + "" == w;
    FirstBlankAfter(w, [blank] + rest);
    FirstBlankAfter(w, "");
    assert line[..|w|] == w && line[|w| + 1..] == rest;
    WordTrimmed(w);
    TrimPadded(pads, value, tail, SPACES);
  }

  /**
   * A server directive loses its semicolon before the space around its value, a location
   * directive after it: there, space in front of the semicolon stays on the value.
   */
  lemma SpaceBeforeSemicolon(w: string, pads: string, value: string, tail: string)
    requires Word(w) && Trimmed(value, SPACES) && value != "" && forall c :: c in pads || c in tail ==> c in SPACES
    ensures SplitDirective(DropSemicolon(w + " " + (pads + value + tail) + ";")) == (w, value)
    ensures var d := SplitDirective(w + " " + (pads + value + tail) + ";");
            d.0 == w && DropSemicolon(d.1) == value + tail
  {
    hide SplitDirective, Trimmed, Word;
    var line := w + " " + (pads + value + tail);
    assert (line + ";")[..|line|] == line;
    DirectiveSplit(w, ' ', pads, value, tail);
    var ended := value + tail + ";";
    assert line + ";" == w + " " + (pads + ended + "");
    EndedTrimmed(value, tail);
    DirectiveSplit(w, ' ', pads, ended, "");
    assert ended[..|ended| - 1] == value + tail;
  }

  lemma EndedTrimmed(value: string, tail: string)
    requires Trimmed(value, SPACES) && value != ""
    ensures Trimmed(value + tail + ";", SPACES)
  {
    assert (value + tail + ";")[0] == value[0];
  }

  /** The path of a location is the second word of its line, or the first when there is no second. */
  lemma PathExactly(ws: seq<string>)
    requires AllWords(ws)
    ensures LocationPath(Join(ws)) == if |ws| > 1 then ws[1] else if |ws| == 1 then ws[0] else ""
  {
    hide Words, Join;
    WordsOfJoin(ws);
  }

  // ---- values ----

  /** What a server makes of a value of error_page. */
  lemma ErrorPageValue(line: string, value: string, pos: nat, c: ServerConfig, errors: seq<ConfigError>)
    requires SplitDirective(DropSemicolon(line)) == ("error_page", value)
    ensures var ws := Words(value);
            ServerDirective(line, pos, c, errors) ==
            if |ws| < 2 then Got(c, pos, errors + [BadErrorPage(pos + 1)])
            else if 400 <= Atoi(ws[0]) < 600 then Got(c.(errorPages := c.errorPages[Atoi(ws[0]) := ws[1]]), pos, errors)
            else Got(c, pos, errors + [BadErrorCode(pos + 1)])
  {
    hide Words, SplitDirective, DropSemicolon, Atoi, NameOf, KeyOf, ParseSize;
    NameFacts(KErrorPage);
    ErrorPageName();
  }

  /** Any list of words as the value of error_page: the second word for the first, if that is 400 to 599. */
  lemma ErrorPageExactly(ws: seq<string>, pos: nat, c: ServerConfig, errors: seq<ConfigError>)
    requires AllWords(ws)
    ensures ServerDirective(Line("error_page", Join(ws)), pos, c, errors) ==
            if |ws| < 2 then Got(c, pos, errors + [BadErrorPage(pos + 1)])
            else if 400 <= Atoi(ws[0]) < 600 then Got(c.(errorPages := c.errorPages[Atoi(ws[0]) := ws[1]]), pos, errors)
            else Got(c, pos, errors + [BadErrorCode(pos + 1)])
  {
    hide *;
    NameFacts(KErrorPage);
    ErrorPageName();
    WordsOfJoin(ws);
    JoinTrimmed(ws);
    JoinIsValue(Join(ws));
    ServerLine("error_page", Join(ws));
    ErrorPageValue(Line("error_page", Join(ws)), Join(ws), pos, c, errors);
  }

  lemma JoinIsValue(v: string)
    ensures Value(v) <==> Trimmed(v, SPACES)
  {
  }

  lemma ErrorPageName()
    ensures NameOf(KErrorPage) == "error_page"
  {
  }

  /** So several codes in front of one page give the first code the second for a page. */
  lemma SeveralCodes(pos: nat, c: ServerConfig, errors: seq<ConfigError>)
    ensures ServerDirective(Line("error_page", Join(["500", "502", "503", "504", "/errors/50x.html"])), pos, c, errors)
            == Got(c.(errorPages := c.errorPages[500 := "502"]), pos, errors)
  {
    hide Join, ServerDirective, Line, Atoi, Word;
    var ws := ["500", "502", "503", "504", "/errors/50x.html"];
    CodesAreWords();
    assert Dec(500) == "500";
    AtoiOfDec(500);
    ErrorPageExactly(ws, pos, c, errors);
  }

  lemma CodesAreWords()
    ensures Word("500") && Word("502") && Word("503") && Word("504") && Word("/errors/50x.html")
  {
  }

  /** A redirect takes the second word behind 301 or 302, and changes nothing behind any other code. */
  lemma RedirectExactly(ws: seq<string>, current: string)
    requires AllWords(ws)
    ensures Redirect(Join(ws), current) ==
            if ws != [] && ws[0] in {"301", "302"} then (if |ws| > 1 then DropSemicolon(ws[1]) else "") else current
  {
    hide Join, Words, DropSemicolon;
    WordsOfJoin(ws);
  }

  /** autoindex is on for "on" and off for every other value. */
  lemma AutoindexExactly(v: string, pos: nat, l: LocationConfig, errors: seq<ConfigError>)
    requires Trimmed(v, SPACES)
    ensures LocationDirective(Line("autoindex", v), pos, l, errors) == Got(l.(autoindex := v == "on"), pos, errors)
  {
    hide SplitDirective, DropSemicolon, Line, Word, NameOf, KeyOf;
    NameFacts(KAutoindex);
    AutoindexName();
    LocationLine("autoindex", v);
  }

  lemma AutoindexName()
    ensures NameOf(KAutoindex) == "autoindex"
  {
  }

  /** A size with an unknown unit is 0, and an error with the number of the line. */
  lemma BadSize(n: nat, unit: string, pos: nat, c: ServerConfig, errors: seq<ConfigError>)
    requires (forall i :: 0 <= i < |unit| ==> IsAlpha(unit[i])) && BytesPer(unit).None?
    ensures ServerDirective(Line("client_max_body_size", Dec(n) + unit), pos, c, errors)
            == Got(c.(maxBody := 0), pos, errors + [BadUnit(pos + 1)])
  {
    hide SplitDirective, DropSemicolon, Line, Word, NameOf, KeyOf, ParseSize, Dec, BytesPer, IsAlpha;
    NameFacts(KMaxBody);
    MaxBodyName();
    SizeWithUnit(n, unit);
    SizeIsValue(n, unit);
    ServerLine("client_max_body_size", Dec(n) + unit);
  }

  lemma MaxBodyName()
    ensures NameOf(KMaxBody) == "client_max_body_size"
  {
  }

  lemma SizeIsValue(n: nat, unit: string)
    requires forall i :: 0 <= i < |unit| ==> IsAlpha(unit[i])
    ensures Trimmed(Dec(n) + unit, SPACES)
  {
    hide Dec;
    var d := Dec(n);
    assert d[0] in d && d[|d| - 1] in d;
    assert (d + unit)[0] == d[0];
    if unit != "" { assert (d + unit)[|d + unit| - 1] == unit[|unit| - 1]; }
  }

  /** Decimal places count as far as a whole number of bytes goes: the exact product, rounded down. */
  lemma FractionRoundsDown(n: nat, places: string, unit: string)
    requires (forall i :: 0 <= i < |places| ==> IsDigit(places[i])) && forall i :: 0 <= i < |unit| ==> IsAlpha(unit[i])
    ensures var size, p := ParseSize(Dec(n) + "." + places + unit), Pow10(|places|);
            && (size.None? <==> BytesPer(unit).None?)
            && (size.Some? ==>
                  var exact := BytesPer(unit).value * (n * p + DigitsValue(places, 0));
                  size.value * p <= exact < (size.value + 1) * p)
  {
    hide ParseSize, Dec, UnitFactor, BytesPer, DigitsValue, Pow10, LowerCase, Scaled, IsAlpha, IsDigit;
    UnitsSpelled(unit);
    FractionParts(n, places, unit);
    if BytesPer(unit).Some? {
      FractionScaled(n, places, BytesPer(unit).value);
      RoundedDown(BytesPer(unit).value * (n * Pow10(|places|) + DigitsValue(places, 0)), Pow10(|places|));
    }
  }

  lemma RoundedDown(a: nat, b: nat)
    requires b > 0
    ensures Quotient(a, b) * b <= a < (Quotient(a, b) + 1) * b
  {
  }

  lemma {:induction false} NumberRuns(a: string, b: string)
    requires forall c :: c in a ==> IsDigit(c) || c == '.'
    ensures NumberPart(a + b) == |a| + NumberPart(b)
  {
    if a == "" {
      assert a + b == b;
    } else {
      assert (a + b)[1..] == a[1..] + b;
      NumberRuns(a[1..], b);
    }
  }

  lemma FractionParts(n: nat, places: string, unit: string)
    requires (forall i :: 0 <= i < |places| ==> IsDigit(places[i])) && forall i :: 0 <= i < |unit| ==> IsAlpha(unit[i])
    ensures ParseSize(Dec(n) + "." + places + unit) ==
            var factor := UnitFactor(LowerCase(unit));
            if factor.None? then None else Some(Scaled(Dec(n) + "." + places, factor.value))
  {
    hide Dec, NumberPart, UnitPart, UnitFactor, Scaled, LowerCase;
    var number := Dec(n) + "." + places;
    NumberRuns(number, unit);
    NoNumberInUnit(unit);
    UnitOfLetters(unit);
    var value := Dec(n) + "." + places + unit;
    assert value == number + unit && value[..|number|] == number && value[|number|..] == unit;
  }

  lemma NoNumberInUnit(unit: string)
    requires forall i :: 0 <= i < |unit| ==> IsAlpha(unit[i])
    ensures NumberPart(unit) == 0
  {
  }

  lemma {:induction false} DigitRunOf(digits: string, rest: string)
    requires (forall c :: c in digits ==> IsDigit(c)) && (rest == "" || !IsDigit(rest[0]))
    ensures DigitRun(digits + rest) == |digits|
  {
    if digits == "" {
      assert digits + rest == rest;
    } else {
      assert (digits + rest)[1..] == digits[1..] + rest;
      DigitRunOf(digits[1..], rest);
    }
  }

  lemma DotPlaces(whole: string, places: string)
    requires (forall c :: c in whole ==> IsDigit(c)) && forall c :: c in places ==> IsDigit(c)
    ensures var s := whole + "." + places;
            DigitRun(s) == |whole| < |s| && s[|whole|] == '.' && s[|whole| + 1..] == places && DigitRun(places) == |places|
  {
    hide DigitRun;
    var s := whole + "." + places;
    assert s == whole + ("." + places) && places + "" == places;
    DigitRunOf(whole, "." + places);
    DigitRunOf(places, "");
  }

  lemma FractionScaled(n: nat, places: string, factor: nat)
    requires forall i :: 0 <= i < |places| ==> IsDigit(places[i])
    ensures Scaled(Dec(n) + "." + places, factor)
            == Quotient(factor * (n * Pow10(|places|) + DigitsValue(places, 0)), Pow10(|places|))
  {
    hide Dec, DigitsValue, DigitRun, Pow10, Quotient, Times, IsDigit;
    DotIsNoDigit();
    DotPlaces(Dec(n), places);
    DecValue(n, "." + places);
    assert Dec(n) + "." + places == Dec(n) + ("." + places);
    Product(n, Pow10(|places|));
    Product(factor, n * Pow10(|places|) + DigitsValue(places, 0));
  }

  lemma DotIsNoDigit()
    ensures !IsDigit('.')
  {
  }

  lemma Product(a: nat, b: nat)
    ensures Times(a, b) == a * b
  {
  }

  /** An extension without a dot gets one. */
  lemma EntryGetsDot(ext: string, handler: string)
    requires Word(ext) && Trimmed(handler, SPACES)
    ensures CgiEntry(Line(ext, handler)) == (if ext[0] == '.' then ext else "." + ext, handler)
  {
    hide SplitDirective, DropSemicolon, Line, Trimmed;
    LocationLine(ext, handler);
  }

  /** A directive that a server block does not know changes nothing, and is no error. */
  lemma UnknownServerDirective(w: string, v: string, pos: nat, c: ServerConfig, errors: seq<ConfigError>)
    requires Word(w) && Trimmed(v, SPACES)
    requires w !in {"host", "port", "server_name", "root", "index", "client_timeout", "client_max_body_size", "error_page"}
    ensures ServerDirective(Line(w, v), pos, c, errors) == Got(c, pos, errors)
  {
    hide SplitDirective, DropSemicolon, Line, Word, Trimmed, ParseSize, Words, Atoi;
    ServerLine(w, v);
  }

  /** Nor does one that a location block does not know. */
  lemma UnknownLocationDirective(w: string, v: string, pos: nat, l: LocationConfig, errors: seq<ConfigError>)
    requires Word(w) && Trimmed(v, SPACES)
    requires w !in {"root", "index", "autoindex", "client_max_body_size", "allowed_methods", "cgi_pass", "return"}
    ensures LocationDirective(Line(w, v), pos, l, errors) == Got(l, pos, errors)
  {
    hide SplitDirective, DropSemicolon, Line, Word, Trimmed, ParseSize, Words, AllowedMethods, Redirect;
    LocationLine(w, v);
  }

  /** A timeout is stored in an unsigned int: a negative one wraps around. */
  lemma TimeoutExactly(t: int, pos: nat, c: ServerConfig, errors: seq<ConfigError>)
    requires -0x8000_0000 <= t < 0x8000_0000
    ensures ServerDirective(Line("client_timeout", DecInt(t)), pos, c, errors)
            == Got(c.(timeout := if t < 0 then 0x1_0000_0000 + t else t), pos, errors)
  {
    hide SplitDirective, DropSemicolon, Line, Word, Trimmed, NameOf, KeyOf, DecInt, Atoi;
    NameFacts(KTimeout);
    TimeoutName();
    IntValue(t);
    WordTrimmed(DecInt(t));
    AtoiOfDec(t);
    ServerLine("client_timeout", DecInt(t));
  }

  lemma TimeoutName()
    ensures NameOf(KTimeout) == "client_timeout"
  {
  }

  // ---- comments ----

  /** What follows a number sign is not read, nor is the space in front of it. */
  lemma CommentDropped(line: string, before: string, after: string, comment: string)
    requires '#' !in line && Trimmed(line, SPACES)
    requires forall c :: c in before || c in after ==> c in SPACES
    ensures CleanLine(before + line + after + "#" + comment) == line
    ensures CleanLine(before + line + after) == line
  {
    hide Find, OccursAt, Trim;
    var text := before + line + after;
    assert '#' !in text;
    FindAfterFreeText(text, "#" + comment, "#");
    assert "#" + comment == "" + "#" + comment && text + "#" + comment == text + ("#" + comment);
    OccursInMiddle("", "#", comment);
    assert (text + "#" + comment)[..|text|] == text;
    FindChar(text, '#');
    TrimPadded(before, line, after, SPACES);
  }

  /** Lines are cleaned one by one, and those with nothing left are dropped. */
  lemma {:induction false} CleanAppend(a: Lines, b: Lines)
    ensures CleanLines(a + b) == CleanLines(a) + CleanLines(b)
    decreases |b|
  {
    hide CleanLine;
    if b == [] {
      assert a + b == a && CleanLines(a) + [] == CleanLines(a);
    } else {
      var n := |b| - 1;
      assert (a + b)[..|a + b| - 1] == a + b[..n] && (a + b)[|a + b| - 1] == b[n];
      CleanAppend(a, b[..n]);
    }
  }

  /** Lines of comment or space between other lines make no difference. */
  lemma CommentLinesDropped(a: Lines, before: string, comment: string, b: Lines)
    requires forall c :: c in before ==> c in SPACES
    ensures CleanLines(a + [before + "#" + comment] + b) == CleanLines(a + b) == CleanLines(a + [before] + b)
  {
    hide CleanLine, CleanLines;
    CommentDropped("", before, "", comment);
    assert before + "" + "" == before;
    NothingLeft(before + "#" + comment);
    NothingLeft(before);
    CleanAppend(a + [before + "#" + comment], b);
    CleanAppend(a + [before], b);
    CleanAppend(a, [before + "#" + comment]);
    CleanAppend(a, [before]);
    CleanAppend(a, b);
    assert CleanLines(a) + [] == CleanLines(a);
  }

  lemma NothingLeft(line: string)
    requires CleanLine(line) == ""
    ensures CleanLines([line]) == []
  {
    hide CleanLine;
    assert [line][..0] == [];
  }

  // ---- layout ----

  /** A server block whose brace is on the next line, whatever the line that mentions it says. */
  lemma BraceBelowServer(lines: Lines, pos: nat, start: string, items: seq<Item>, before: seq<ServerConfig>, errors: seq<ConfigError>)
    requires GoodItems(items) && pos < |lines| && Contains(lines[pos], "server") && start in {"{", "server {"}
    requires At(lines, pos + 1, [start] + (ItemsLines(items) + [Close()]))
    ensures TopStep(lines, pos, before, errors)
            == Got(before + [EvalItems(DefaultServer(), items)], pos + 2 + |ItemsLines(items)| + 1, errors)
  {
    hide At, SkipBlankLines, Contains, IsCgiOpen, ServerBody, ItemsLines, Close, Trim, GoodItems, DefaultServer, EvalItems, CgiBody,
      IsBlockStart;
    AtFirst(lines, pos + 1, start, ItemsLines(items) + [Close()]);
    StartShape(start);
    NotSkipped(lines, pos + 1);
    ServerBodyRead(lines, pos + 2, items, DefaultServer(), errors);
  }

  lemma StartShape(start: string)
    requires start in {"{", "server {"}
    ensures Trim(start, SPACES) == start != "" && IsBlockStart(start)
  {
    hide Trim;
    assert Trimmed(start, SPACES);
  }

  /** A location block whose brace is on the next line. */
  lemma BraceBelowLocation(lines: Lines, pos: nat, path: string, items: seq<LocItem>, c: ServerConfig, errors: seq<ConfigError>)
    requires Word(path) && '{' !in path && forall j :: 0 <= j < |items| ==> GoodLocItem(items[j])
    requires At(lines, pos, ["location " + path, "{"] + (LocLines(items) + [Close()]))
    ensures pos < |lines| && ServerNext(lines, pos, c, errors) == Got(EvalItem(c, Location(path, items)), pos + |items| + 3, errors)
  {
    hide At, IsCgiLine, CgiBody, LocLines, Close, GoodLocItem, EvalLocItems, ServerDirective, LocationBody, DefaultLocation,
      LocationPath, Word, Contains, PastBrace, IsLocationLine, LocationHead, EvalLocItem;
    var head, tail := "location " + path, LocLines(items) + [Close()];
    assert [head, "{"] + tail == [head] + (["{"] + tail);
    AtFirst(lines, pos, head, ["{"] + tail);
    AtFirst(lines, pos + 1, "{", tail);
    BareLocation(path);
    LocBodyRead(lines, pos + 2, items, DefaultLocation(path), errors);
    BraceOnNext(lines, pos);
  }

  lemma BraceOnNext(lines: Lines, pos: nat)
    requires pos + 1 < |lines| && !Contains(lines[pos], "{") && Contains(lines[pos + 1], "{")
    ensures PastBrace(lines, pos) == pos + 2
  {
    hide Contains;
    assert PastBrace(lines, pos + 1) == pos + 2;
  }

  lemma BareLocation(path: string)
    requires Word(path) && '{' !in path
    ensures var head := "location " + path;
            IsLocationLine(head) && LocationPath(head) == path && !Contains(head, "{") && Contains("{", "{")
  {
    hide Find, OccursAt, Words, Word;
    var head := "location " + path;
    LocationIsWord();
    WordsCons("location", path);
    WordsCons(path, "");
    assert head == "location" + " " + path && head[..8] == "location";
    assert '{' !in head;
    forall i ensures !OccursAt(head, "{", i) {
      if 0 <= i < |head| { assert head[i] in head; Mismatch(head, "{", i, 0); } else { NotInside(head, "{", i); }
    }
    OccursInMiddle("", "{", "");
    assert "" + "{" + "" == "{";
  }

  /** Any line that starts with cgi and has a brace opens a cgi block. */
  lemma CgiLineExactly(lines: Lines, pos: nat, rest: string, entries: seq<(string, string)>, c: ServerConfig, errors: seq<ConfigError>)
    requires '{' in rest && forall j :: 0 <= j < |entries| ==> GoodEntry(entries[j])
    requires At(lines, pos, ["cgi" + rest] + (EntryLines(entries) + [Close()]))
    ensures pos < |lines| && ServerNext(lines, pos, c, errors) == Got(EvalItem(c, Cgi(entries)), pos + |entries| + 2, errors)
  {
    hide At, CgiBody, EntryLines, Close, GoodEntry, EvalEntries, ServerDirective, LocationBlock, IsCgiLine, IsLocationLine;
    AtFirst(lines, pos, "cgi" + rest, EntryLines(entries) + [Close()]);
    CgiLineRead(rest);
    CgiNext(lines, pos, entries, c, errors);
  }

  lemma CgiLineRead(rest: string)
    requires '{' in rest
    ensures IsCgiLine("cgi" + rest) && !IsLocationLine("cgi" + rest)
  {
    hide Find;
    var line := "cgi" + rest;
    var i :| 0 <= i < |rest| && rest[i] == '{';
    assert line[..3] == "cgi";
    assert OccursAt(line, "{", 3 + i) by { assert line[3 + i..4 + i] == "{"; }
    if |line| >= 8 { assert line[..8][0] == 'c'; }
  }

  /** Blocks without a directive are the defaults. */
  lemma EmptyBlocks()
    ensures TopLevel(["server {", "location /a {", "}", "}"], 0, [], []) ==
            Done([ServerConfig("0.0.0.0", 8080, [], "", "index.html", 60, 1048576,
                               map[404 := "/404.html", 500 := "/500.html"],
                               [LocationConfig("/a", ["GET"], "www", "", false, 1048576, "", "")], map[])], 4, [])
  {
    hide TopLevel, LocLines;
    var items := [Location("/a", [])];
    assert Word("/a") && GoodItems(items);
    PrintParseRoundTrip([items]);
    EmptyPrinted(items);
    EmptyMeans(items);
  }

  lemma EmptyPrinted(items: seq<Item>)
    requires items == [Location("/a", [])]
    ensures ServersLines([items]) == ["server {", "location /a {", "}", "}"]
  {
    var i: Item := Location("/a", []);
    assert LocationHead("/a") == "location /a {" && LocLines([]) == [];
    assert ItemLines(i) == ["location /a {", "}"];
    OneItem(i);
    OneServer(items);
    assert ["server {"] + (["location /a {", "}"] + ["}"]) == ["server {", "location /a {", "}", "}"];
  }

  lemma OneItem(i: Item)
    ensures ItemsLines([i]) == ItemLines(i) && EvalItems(DefaultServer(), [i]) == EvalItem(DefaultServer(), i)
  {
    hide ItemLines, EvalItem, DefaultServer;
    assert [i][1..] == [] && ItemLines(i) + [] == ItemLines(i);
  }

  lemma OneServer(items: seq<Item>)
    ensures ServersLines([items]) == [ServerHead()] + (ItemsLines(items) + [Close()])
    ensures EvalServers([items]) == [EvalItems(DefaultServer(), items)]
  {
    hide ItemsLines, EvalItems, DefaultServer;
    assert [items][1..] == [];
  }

  lemma EmptyMeans(items: seq<Item>)
    requires items == [Location("/a", [])]
    ensures EvalServers([items]) ==
            [ServerConfig("0.0.0.0", 8080, [], "", "index.html", 60, 1048576, map[404 := "/404.html", 500 := "/500.html"],
                          [LocationConfig("/a", ["GET"], "www", "", false, 1048576, "", "")], map[])]
  {
    var i: Item := Location("/a", []);
    var l := DefaultLocation("/a");
    assert items == [i];
    OneItem(i);
    OneServer(items);
    assert EvalLocItems(l, []) == l && DefaultServer().locations + [l] == [l];
    assert EvalItem(DefaultServer(), i) == DefaultServer().(locations := [l]);
  }

  // ---- outside of a server ----

  /** A cgi block behind a server belongs to the last server. */
  lemma CgiBehindServer(lines: Lines, pos: nat, entries: seq<(string, string)>, front: seq<ServerConfig>, last: ServerConfig,
                        errors: seq<ConfigError>)
    requires forall j :: 0 <= j < |entries| ==> GoodEntry(entries[j])
    requires At(lines, pos, ["cgi {"] + (EntryLines(entries) + [Close()]))
    ensures TopLevel(lines, pos, front + [last], errors)
            == TopLevel(lines, pos + |entries| + 2, front + [last.(cgi := EvalEntries(last.cgi, entries))], errors)
  {
    hide At, SkipBlankLines, MentionsServer, ServerBlock, CgiBody, EntryLines, Close, EvalEntries, GoodEntry, Trim, TopLevel;
    AtFirst(lines, pos, "cgi {", EntryLines(entries) + [Close()]);
    CgiLineShape();
    NotSkipped(lines, pos);
    CgiBodyRead(lines, pos + 1, entries, last.cgi);
    TopLevelStep(lines, pos, front + [last], errors);
    assert (front + [last])[..|front|] == front;
  }

  lemma CgiLineShape()
    ensures Trim("cgi {", SPACES) != "" && !MentionsServer("cgi {")
  {
    hide Find, Trim;
    assert Trimmed("cgi {", SPACES);
  }

  /** Any other line there is an error with its number, unless it starts with a number sign. */
  lemma StrayLine(lines: Lines, pos: nat, servers: seq<ServerConfig>, errors: seq<ConfigError>)
    requires pos < |lines| && Trim(lines[pos], SPACES) != "" && !Contains(lines[pos], "server") && lines[pos] != "cgi {"
    ensures TopLevel(lines, pos, servers, errors)
            == TopLevel(lines, pos + 1, servers, errors + if lines[pos][0] == '#' then [] else [OutsideServer(pos + 1)])
  {
    hide SkipBlankLines, ServerBlock, CgiBody, Trim, TopLevel, Contains;
    NotSkipped(lines, pos);
    TopLevelStep(lines, pos, servers, errors);
    assert errors + [] == errors;
    assert MentionsServer(lines[pos]) == Contains(lines[pos], "server");
  }
}
