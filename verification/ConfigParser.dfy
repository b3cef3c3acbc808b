/** The line-cursor parser of ConfigParser.cpp, proved against what the lines denote. */
module ConfigParsers {
  import opened Text
  import opened Configs

  /** One file line without its comment and surrounding space. */
  function CleanLine(line: string): string {
    var hash := Find(line, "#", 0);
    Trim(if hash >= 0 then line[..hash] else line, SPACES)
  }

  function CleanLines(file: seq<string>): seq<string> {
    if file == [] then []
    else
      var rest := CleanLines(file[..|file| - 1]);
      var line := CleanLine(file[|file| - 1]);
      if line != "" then rest + [line] else rest
  }

  class ConfigParser {
    var lines: seq<string>
    var currentLine: nat
    var errors: seq<ConfigError>

    constructor ()
      ensures lines == [] && currentLine == 0 && errors == []
    {
      lines, currentLine, errors := [], 0, [];
    }

    method ReadConfigFile(file: seq<string>)
      modifies `lines
      ensures lines == CleanLines(file)
    {
      lines := [];
      var i := 0;
      while i < |file|
        invariant 0 <= i <= |file|
        invariant lines == CleanLines(file[..i])
      {
        assert file[..i + 1][..i] == file[..i];
        var line := CleanLine(file[i]);
        if line != "" { lines := lines + [line]; }
        i := i + 1;
      }
      assert file[..i] == file;
    }

    method SkipWhitespace()
      modifies `currentLine
      ensures currentLine == SkipBlankLines(lines, old(currentLine))
    {
      hide Trim;
      while currentLine < |lines| && Trim(lines[currentLine], SPACES) == ""
        invariant SkipBlankLines(lines, currentLine) == SkipBlankLines(lines, old(currentLine))
        decreases |lines| - currentLine
      {
        currentLine := currentLine + 1;
      }
    }

    /** parseCGI, from the line that opens the block. */
    method ParseCGI(handlers: map<string, string>) returns (cgi: map<string, string>)
      modifies `currentLine
      ensures (cgi, currentLine) == CgiBody(lines, old(currentLine) + 1, handlers)
    {
      hide Trim, CgiEntry, SkipBlankLines, CgiBody;
      currentLine := currentLine + 1;
      cgi := handlers;
      while currentLine < |lines|
        invariant CgiBody(lines, currentLine, cgi) == CgiBody(lines, old(currentLine) + 1, handlers)
        decreases |lines| - currentLine
      {
        CgiBodyStep(lines, currentLine, cgi);
        SkipWhitespace();
        var line := LineAt(lines, currentLine);
        if Trim(line, SPACES) == "}" {
          currentLine := currentLine + 1;
          return;
        }
        var entry := CgiEntry(line);
        cgi := cgi[entry.0 := entry.1];
        currentLine := currentLine + 1;
      }
      CgiBodyEnd(lines, currentLine, cgi);
    }

    method ParseLocation() returns (location: LocationConfig)
      requires currentLine < |lines|
      modifies `currentLine, `errors
      ensures Got(location, currentLine, errors) == LocationBlock(lines, old(currentLine), old(errors))
    {
      hide LocationPath, LocationBody, PastBrace, DefaultLocation;
      var path := LocationPath(lines[currentLine]);
      SkipToBrace();
      location := ParseLocationBody(DefaultLocation(path));
    }

    /** The second loop of parseLocation. */
    method ParseLocationBody(start: LocationConfig) returns (location: LocationConfig)
      modifies `currentLine, `errors
      ensures Got(location, currentLine, errors) == LocationBody(lines, old(currentLine), start, old(errors))
    {
      hide LocationBody;
      location := start;
      while currentLine < |lines|
        invariant LocationBody(lines, currentLine, location, errors) == LocationBody(lines, old(currentLine), start, old(errors))
        decreases |lines| - currentLine
      {
        var closed;
        location, closed := ParseLocationLine(location);
        if closed { return; }
      }
      LocationBodyEnd(lines, currentLine, location, errors);
    }

    /** One pass of that loop. */
    method ParseLocationLine(location: LocationConfig) returns (l: LocationConfig, closed: bool)
      requires currentLine < |lines|
      modifies `currentLine, `errors
      ensures currentLine > old(currentLine)
      ensures LocationBody(lines, old(currentLine), location, old(errors))
              == if closed then Got(l, currentLine, errors) else LocationBody(lines, currentLine, l, errors)
    {
      hide SkipBlankLines, LocationDirective, LocationBody, IsClose, LineAt;
      LocationBodyStep(lines, currentLine, location, errors);
      SkipWhitespace();
      var line := LineAt(lines, currentLine);
      l, closed := location, IsClose(line);
      if !closed { l := ParseLocationDirective(line, location); }
      currentLine := currentLine + 1;
    }

    /** The first loop of parseLocation. */
    method SkipToBrace()
      modifies `currentLine
      ensures currentLine == PastBrace(lines, old(currentLine))
    {
      hide Contains;
      while currentLine < |lines|
        invariant PastBrace(lines, currentLine) == PastBrace(lines, old(currentLine))
        decreases |lines| - currentLine
      {
        if Contains(lines[currentLine], "{") {
          currentLine := currentLine + 1;
          return;
        }
        currentLine := currentLine + 1;
      }
    }

    method ParseLocationDirective(line: string, location: LocationConfig) returns (l: LocationConfig)
      modifies `errors
      ensures Got(l, currentLine, errors) == LocationDirective(line, currentLine, location, old(errors))
    {
      hide KeyOf, SplitDirective, ParseSize, AllowedMethods, Redirect, DropSemicolon;
      var directive := SplitDirective(line);
      var value := DropSemicolon(directive.1);
      l := location;
      match KeyOf(directive.0) {
        case KRoot => l := l.(root := value);
        case KIndex => l := l.(index := value);
        case KAutoindex => l := l.(autoindex := value == "on");
        case KMaxBody =>
          var size := ReadSize(value);
          l := l.(maxBody := size);
        case KMethods => l := l.(methods := AllowedMethods(value));
        case KCgiPass => l := l.(cgiPath := value);
        case KReturn => l := l.(redirect := Redirect(value, l.redirect));
        case _ =>
      }
      assert forall es: seq<ConfigError> :: es + [] == es;
    }

    /** parseSize: the two scanning loops, then the unit; an unknown unit is an error and size 0. */
    method ReadSize(value: string) returns (size: nat)
      modifies `errors
      ensures size == SizeOf(ParseSize(value))
      ensures errors == old(errors) + SizeErrors(ParseSize(value), currentLine)
    {
      hide Scaled, NumberPart, UnitPart;
      var number, unit, i := "", "", 0;
      assert value[0..] == value;
      while i < |value| && (IsDigit(value[i]) || value[i] == '.')
        invariant 0 <= i <= |value| && number == value[..i]
        invariant NumberPart(value) == i + NumberPart(value[i..])
        modifies {}
      {
        NumberStep(value, i);
        number := number + [value[i]];
        i := i + 1;
      }
      NumberStop(value, i);
      ghost var start := i;
      while i < |value| && IsAlpha(value[i])
        invariant start <= i <= |value|
        invariant UnitPart(value[start..]) == unit + UnitPart(value[i..])
        modifies {}
      {
        UnitStep(value, i, unit);
        unit := unit + [ToLower(value[i])];
        i := i + 1;
      }
      UnitStop(value, i, unit);
      assert forall es: seq<ConfigError> :: es + [] == es;
      if unit == "k" || unit == "kb" {
        size := Scaled(number, 1024);
      } else if unit == "m" || unit == "mb" {
        size := Scaled(number, 1024 * 1024);
      } else if unit == "g" || unit == "gb" {
        size := Scaled(number, 1024 * 1024 * 1024);
      } else if unit != "" {
        errors := errors + [BadUnit(currentLine + 1)];
        size := 0;
      } else {
        size := Scaled(number, 1);
      }
    }

    method ParseDirective(line: string, server: ServerConfig) returns (c: ServerConfig)
      modifies `errors
      ensures Got(c, currentLine, errors) == ServerDirective(line, currentLine, server, old(errors))
    {
      hide KeyOf, SplitDirective, ParseSize, DropSemicolon, Words, Atoi;
      var directive := SplitDirective(DropSemicolon(line));
      c := server;
      match KeyOf(directive.0) {
        case KHost => c := c.(host := directive.1);
        case KPort => c := c.(port := Atoi(directive.1));
        case KServerName => c := c.(names := c.names + Words(directive.1));
        case KRoot => c := c.(root := directive.1);
        case KIndex => c := c.(index := directive.1);
        case KTimeout => c := c.(timeout := Atoi(directive.1) % 0x1_0000_0000);
        case KMaxBody =>
          var size := ReadSize(directive.1);
          c := c.(maxBody := size);
        case KErrorPage =>
          var words := Words(directive.1);
          if |words| < 2 {
            errors := errors + [BadErrorPage(currentLine + 1)];
          } else {
            var code := Atoi(words[0]);
            if code >= 400 && code < 600 {
              c := c.(errorPages := c.errorPages[code := words[1]]);
            } else {
              errors := errors + [BadErrorCode(currentLine + 1)];
            }
          }
        case _ =>
      }
    }

    method ParseServer() returns (server: ServerConfig)
      requires currentLine < |lines| && MentionsServer(lines[currentLine])
      modifies `currentLine, `errors
      ensures Got(server, currentLine, errors) == ServerBlock(lines, old(currentLine), old(errors))
    {
      hide SkipBlankLines, ServerDirective, LocationBlock, CgiBody, IsBlockStart, MentionsServer, IsLocationLine, IsCgiLine, ServerBody,
        DefaultServer, IsClose, ServerNext;
      server := DefaultServer();
      currentLine := currentLine + 1;
      SkipWhitespace();
      if currentLine < |lines| && IsBlockStart(lines[currentLine]) { currentLine := currentLine + 1; }
      while currentLine < |lines|
        invariant ServerBody(lines, currentLine, server, errors) == ServerBlock(lines, old(currentLine), old(errors))
        decreases |lines| - currentLine
      {
        ServerBodyStep(lines, currentLine, server, errors);
        SkipWhitespace();
        if currentLine >= |lines| { break; }
        var line := lines[currentLine];
        if IsClose(line) {
          currentLine := currentLine + 1;
          return;
        }
        server := ParseServerLine(server);
      }
      ServerBodyEnd(lines, currentLine, server, errors);
    }

    /** One line, or one nested block, of a server block. */
    method ParseServerLine(server: ServerConfig) returns (c: ServerConfig)
      requires currentLine < |lines|
      modifies `currentLine, `errors
      ensures Got(c, currentLine, errors) == ServerNext(lines, old(currentLine), server, old(errors))
    {
      hide ServerDirective, LocationBlock, CgiBody, MentionsServer, IsLocationLine, IsCgiLine;
      var line := lines[currentLine];
      if IsLocationLine(line) {
        var location := ParseLocation();
        c := server.(locations := server.locations + [location]);
      } else if IsCgiLine(line) {
        var cgi := ParseCGI(server.cgi);
        c := server.(cgi := cgi);
      } else {
        c := ParseDirective(line, server);
        currentLine := currentLine + 1;
      }
    }

    /**
     * parse.  The branch that meets a cgi block before any server adds an error and does not
     * advance, so the loop of the program goes round for ever (StuckForever); here it ends
     * with terminates false.
     */
    method Parse(file: seq<string>) returns (configs: seq<ServerConfig>, terminates: bool)
      modifies this
      ensures lines == CleanLines(file)
      ensures (if terminates then Done(configs, currentLine, errors) else Stuck(currentLine, errors))
              == TopLevel(lines, 0, [], [])
    {
      hide SkipBlankLines, ServerBlock, CgiBody, MentionsServer, IsCgiOpen, TopLevel, CleanLines;
      ReadConfigFile(file);
      errors, currentLine, configs := [], 0, [];
      ghost var text := lines;
      while currentLine < |lines|
        invariant lines == text == CleanLines(file)
        invariant TopLevel(text, currentLine, configs, errors) == TopLevel(text, 0, [], [])
        decreases |lines| - currentLine
      {
        TopLevelStep(text, currentLine, configs, errors);
        SkipWhitespace();
        if currentLine >= |lines| { break; }
        var line := lines[currentLine];
        if MentionsServer(line) {
          var config := ParseServer();
          configs := configs + [config];
        } else if IsCgiOpen(line) {
          if configs == [] { return configs, false; }
          var last := configs[|configs| - 1];
          var cgi := ParseCGI(last.cgi);
          configs := configs[..|configs| - 1] + [last.(cgi := cgi)];
        } else if line != "" && line[0] != '#' {
          errors := errors + [OutsideServer(currentLine + 1)];
          currentLine := currentLine + 1;
        } else {
          currentLine := currentLine + 1;
        }
      }
      terminates := true;
      TopLevelStep(text, currentLine, configs, errors);
      AtEnd(text, currentLine);
    }
  }

  lemma NumberStep(s: string, i: nat)
    requires i < |s| && (IsDigit(s[i]) || s[i] == '.')
    ensures NumberPart(s[i..]) == 1 + NumberPart(s[i + 1..]) && s[..i + 1] == s[..i] + [s[i]]
  {
    assert s[i..][1..] == s[i + 1..];
  }

  lemma NumberStop(s: string, i: nat)
    requires i <= |s| && (i < |s| ==> !IsDigit(s[i]) && s[i] != '.')
    ensures NumberPart(s[i..]) == 0
  {
  }

  lemma UnitStep(s: string, i: nat, unit: string)
    requires i < |s| && IsAlpha(s[i])
    ensures unit + UnitPart(s[i..]) == (unit + [ToLower(s[i])]) + UnitPart(s[i + 1..])
  {
    assert s[i..][1..] == s[i + 1..];
  }

  lemma UnitStop(s: string, i: nat, unit: string)
    requires i <= |s| && (i < |s| ==> !IsAlpha(s[i]))
    ensures unit + UnitPart(s[i..]) == unit
  {
  }

  lemma AtEnd(lines: Lines, pos: nat)
    requires pos >= |lines|
    ensures SkipBlankLines(lines, pos) == pos
  {
  }
}
