/**
 * Printing a configuration one directive per line, and parsing it back.
 *
 * A server is a list of directives in any order, repeats included; what it means is said by
 * EvalItems, without reference to text.
 */
module ConfigRoundTrips {
  import opened Text
  import opened Configs
  import opened ConfigParsers

  datatype LocItem =
    | LRoot(v: string) | LIndex(v: string) | LAutoindex(on: bool) | LMaxBody(n: nat)
    | LMethods(ms: seq<string>) | LCgiPass(v: string) | LReturn(temporary: bool, target: string)

  datatype Item =
    | Host(v: string) | Port(p: int) | Names(ws: seq<string>) | Root(v: string) | Index(v: string)
    | Timeout(t: int) | MaxBody(n: nat) | ErrorPage(code: int, page: string)
    | Cgi(entries: seq<(string, string)>) | Location(path: string, items: seq<LocItem>)

  // ---- meaning ----

  function EvalLocItem(l: LocationConfig, i: LocItem): LocationConfig {
    match i
    case LRoot(v) => l.(root := v)
    case LIndex(v) => l.(index := v)
    case LAutoindex(on) => l.(autoindex := on)
    case LMaxBody(n) => l.(maxBody := n)
    case LMethods(ms) => l.(methods := if ms == [] then ["GET"] else ms)
    case LCgiPass(v) => l.(cgiPath := v)
    case LReturn(_, target) => l.(redirect := target)
  }

  function EvalLocItems(l: LocationConfig, items: seq<LocItem>): LocationConfig
    decreases |items|
  {
    if items == [] then l else EvalLocItems(EvalLocItem(l, items[0]), items[1..])
  }

  function EvalEntries(cgi: map<string, string>, entries: seq<(string, string)>): map<string, string>
    decreases |entries|
  {
    if entries == [] then cgi else EvalEntries(cgi[entries[0].0 := entries[0].1], entries[1..])
  }

  function EvalItem(c: ServerConfig, i: Item): ServerConfig {
    match i
    case Host(v) => c.(host := v)
    case Port(p) => c.(port := p)
    case Names(ws) => c.(names := c.names + ws)
    case Root(v) => c.(root := v)
    case Index(v) => c.(index := v)
    case Timeout(t) => c.(timeout := t)
    case MaxBody(n) => c.(maxBody := n)
    case ErrorPage(code, page) => c.(errorPages := c.errorPages[code := page])
    case Cgi(entries) => c.(cgi := EvalEntries(c.cgi, entries))
    case Location(path, items) => c.(locations := c.locations + [EvalLocItems(DefaultLocation(path), items)])
  }

  function EvalItems(c: ServerConfig, items: seq<Item>): ServerConfig
    decreases |items|
  {
    if items == [] then c else EvalItems(EvalItem(c, items[0]), items[1..])
  }

  function EvalServers(servers: seq<seq<Item>>): seq<ServerConfig> {
    if servers == [] then [] else [EvalItems(DefaultServer(), servers[0])] + EvalServers(servers[1..])
  }

  // ---- text ----

  function NameOf(k: Key): string {
    match k
    case KHost => "host"
    case KPort => "port"
    case KServerName => "server_name"
    case KRoot => "root"
    case KIndex => "index"
    case KTimeout => "client_timeout"
    case KMaxBody => "client_max_body_size"
    case KErrorPage => "error_page"
    case KAutoindex => "autoindex"
    case KMethods => "allowed_methods"
    case KCgiPass => "cgi_pass"
    case KReturn => "return"
    case KOther => "#"
  }

  function Line(word: string, value: string): (line: string)
    ensures line == word + " " + value + ";"
  {
    word + " " + value + ";"
  }

  function Join(ws: seq<string>): string {
    if ws == [] then "" else if |ws| == 1 then ws[0] else ws[0] + " " + Join(ws[1..])
  }

  function LocKey(i: LocItem): Key {
    match i
    case LRoot(_) => KRoot
    case LIndex(_) => KIndex
    case LAutoindex(_) => KAutoindex
    case LMaxBody(_) => KMaxBody
    case LMethods(_) => KMethods
    case LCgiPass(_) => KCgiPass
    case LReturn(_, _) => KReturn
  }

  function LocValue(i: LocItem): string {
    match i
    case LRoot(v) => v
    case LIndex(v) => v
    case LAutoindex(on) => if on then "on" else "off"
    case LMaxBody(n) => Dec(n)
    case LMethods(ms) => Join(ms)
    case LCgiPass(v) => v
    case LReturn(temporary, target) => Join([if temporary then "302" else "301", target])
  }

  function LocLines(items: seq<LocItem>): Lines {
    if items == [] then [] else [Line(NameOf(LocKey(items[0])), LocValue(items[0]))] + LocLines(items[1..])
  }

  function EntryLines(entries: seq<(string, string)>): Lines {
    if entries == [] then [] else [Line(entries[0].0, entries[0].1)] + EntryLines(entries[1..])
  }

  function ItemKey(i: Item): Key {
    match i
    case Host(_) => KHost
    case Port(_) => KPort
    case Names(_) => KServerName
    case Root(_) => KRoot
    case Index(_) => KIndex
    case Timeout(_) => KTimeout
    case MaxBody(_) => KMaxBody
    case ErrorPage(_, _) => KErrorPage
    case _ => KOther
  }

  function ItemValue(i: Item): string {
    match i
    case Host(v) => v
    case Port(p) => DecInt(p)
    case Names(ws) => Join(ws)
    case Root(v) => v
    case Index(v) => v
    case Timeout(t) => DecInt(t)
    case MaxBody(n) => Dec(n)
    case ErrorPage(code, page) => Join([DecInt(code), page])
    case _ => ""
  }

  function LocationHead(path: string): string { "location " + path + " {" }

  function CgiHead(): string { "cgi {" }

  function ServerHead(): string { "server {" }

  function Close(): string { "}" }

  function ItemLines(i: Item): Lines {
    match i
    case Cgi(entries) => [CgiHead()] + EntryLines(entries) + [Close()]
    case Location(path, items) => [LocationHead(path)] + LocLines(items) + [Close()]
    case _ => [Line(NameOf(ItemKey(i)), ItemValue(i))]
  }

  function ItemsLines(items: seq<Item>): Lines {
    if items == [] then [] else ItemLines(items[0]) + ItemsLines(items[1..])
  }

  function ServersLines(servers: seq<seq<Item>>): Lines {
    if servers == [] then []
    else [ServerHead()] + (ItemsLines(servers[0]) + [Close()]) + ServersLines(servers[1..])
  }

  // ---- what can be printed ----

  predicate Value(v: string) { Trimmed(v, SPACES) }

  predicate AllWords(ws: seq<string>) { forall i :: 0 <= i < |ws| ==> Word(ws[i]) }

  predicate GoodLocItem(i: LocItem) {
    match i
    case LRoot(v) => Value(v)
    case LIndex(v) => Value(v)
    case LAutoindex(_) => true
    case LMaxBody(n) => n < 0x20_0000_0000_0000
    case LMethods(ms) => forall j :: 0 <= j < |ms| ==> ms[j] in {"GET", "POST", "DELETE", "PUT", "HEAD"}
    case LCgiPass(v) => Value(v)
    case LReturn(_, target) => Word(target) && target[|target| - 1] != ';'
  }

  predicate GoodEntry(e: (string, string)) {
    Word(e.0) && e.0[0] == '.' && Value(e.1)
  }

  predicate GoodItem(i: Item) {
    match i
    case Host(v) => Value(v)
    case Port(p) => -0x8000_0000 <= p < 0x8000_0000
    case Names(ws) => AllWords(ws)
    case Root(v) => Value(v)
    case Index(v) => Value(v)
    case Timeout(t) => 0 <= t < 0x8000_0000
    case MaxBody(n) => n < 0x20_0000_0000_0000
    case ErrorPage(code, page) => 400 <= code < 600 && Word(page)
    case Cgi(entries) => forall j :: 0 <= j < |entries| ==> GoodEntry(entries[j])
    case Location(path, items) => Word(path) && forall j :: 0 <= j < |items| ==> GoodLocItem(items[j])
  }

  predicate GoodItems(items: seq<Item>) { forall j :: 0 <= j < |items| ==> GoodItem(items[j]) }

  // ---- words ----

  lemma {:induction false} WordLengthOf(w: string, rest: string)
    requires forall i :: 0 <= i < |w| ==> !IsSpace(w[i])
    requires rest == "" || IsSpace(rest[0])
    ensures WordLength(w + rest) == |w|
  {
    hide IsSpace;
    if w == "" {
      assert w + rest == rest;
    } else {
      assert (w + rest)[1..] == w[1..] + rest;
      WordLengthOf(w[1..], rest);
    }
  }

  lemma WordsCons(w: string, rest: string)
    requires Word(w)
    ensures Words(w) == [w] && Words(w + " " + rest) == [w] + Words(rest)
  {
    hide WordLength, IsSpace;
    SpaceIsSpace();
    WordLengthOf(w, "");
    assert w + "" == w && w[|w|..] == "";
    WordLengthOf(w, " " + rest);
    var s := w + " " + rest;
    assert s == w + (" " + rest);
    assert s[..|w|] == w && s[|w|..] == " " + rest && (" " + rest)[1..] == rest;
    assert s[0] == w[0];
  }

  lemma SpaceIsSpace()
    ensures IsSpace(' ')
  {
  }

  lemma {:induction false} WordsOfJoin(ws: seq<string>)
    requires AllWords(ws)
    ensures Words(Join(ws)) == ws
  {
    hide Words, Word;
    if ws == [] {
      NoWords();
    } else {
      WordsCons(ws[0], Join(ws[1..]));
      WordsOfJoin(ws[1..]);
      assert |ws| == 1 ==> ws == [ws[0]];
    }
  }

  lemma NoWords()
    ensures Words("") == []
  {
  }

  lemma {:induction false} JoinTrimmed(ws: seq<string>)
    requires AllWords(ws)
    ensures Value(Join(ws))
  {
    if |ws| > 1 {
      JoinTrimmed(ws[1..]);
      assert Join(ws[1..]) != "" by { JoinNotEmpty(ws[1..]); }
      assert Word(ws[0]) && !IsSpace(ws[0][0]);
    } else if |ws| == 1 {
      assert Word(ws[0]) && !IsSpace(ws[0][0]) && !IsSpace(ws[0][|ws[0]| - 1]);
    }
  }

  lemma JoinNotEmpty(ws: seq<string>)
    requires AllWords(ws) && ws != []
    ensures Join(ws) != ""
  {
    assert Word(ws[0]);
  }

  // ---- one directive line ----

  lemma {:induction false} FirstBlankOf(w: string, rest: string)
    requires Word(w) || w == ""
    ensures FirstBlank(w + " " + rest) == |w|
  {
    hide Words;
    if w != "" {
      assert !IsSpace(w[0]) && !IsBlank(w[0]);
      assert (w + " " + rest)[1..] == w[1..] + " " + rest;
      FirstBlankOf(w[1..], rest);
    } else {
      assert (w + " " + rest)[0] == ' ';
    }
  }

  lemma WordTrimmed(w: string)
    requires Word(w)
    ensures Trimmed(w, SPACES)
  {
    assert !IsSpace(w[0]) && !IsSpace(w[|w| - 1]);
  }

  /** A server directive: the semicolon goes first. */
  lemma ServerLine(w: string, v: string)
    requires Word(w) && Value(v)
    ensures SplitDirective(DropSemicolon(Line(w, v))) == (w, v)
  {
    hide FirstBlank, Trim, Word;
    var line := w + " " + v;
    assert Line(w, v)[..|Line(w, v)| - 1] == line;
    FirstBlankOf(w, v);
    assert line[..|w|] == w && line[|w| + 1..] == v;
    WordTrimmed(w);
  }

  /** A location or cgi directive: the semicolon stays on the value. */
  lemma LocationLine(w: string, v: string)
    requires Word(w) && Value(v)
    ensures SplitDirective(Line(w, v)).0 == w && DropSemicolon(SplitDirective(Line(w, v)).1) == v
  {
    hide FirstBlank, Trim, Word;
    var line, value := Line(w, v), v + ";";
    assert line == w + " " + value;
    FirstBlankOf(w, value);
    assert line[..|w|] == w && line[|w| + 1..] == value;
    WordTrimmed(w);
    ValueWithSemicolon(v);
  }

  lemma ValueWithSemicolon(v: string)
    requires Value(v)
    ensures Value(v + ";") && DropSemicolon(v + ";") == v
  {
    assert (v + ";")[..|v + ";"| - 1] == v;
  }

  /** Directive lines are neither blank nor the end of a block nor the start of one. */
  lemma LineShape(w: string, v: string)
    requires Word(w)
    ensures var line := Line(w, v);
            && Trim(line, SPACES) == line != "" && !IsClose(line) && !IsBlockStart(line)
            && line[0] == w[0] && |line| >= 3
  {
    hide Trim;
    var line := Line(w, v);
    assert !IsSpace(w[0]);
    assert line[0] == w[0] && line[|line| - 1] == ';';
    assert Trimmed(line, SPACES);
  }

  /** Directive names: single words, recognised, not mistaken for the start of a block. */
  lemma NameFacts(k: Key)
    requires k != KOther
    ensures KeyOf(NameOf(k)) == k && Word(NameOf(k)) && |NameOf(k)| >= 2
    ensures NameOf(k)[0] != 'l' && (k != KCgiPass ==> NameOf(k)[0] != 'c' || NameOf(k)[1] != 'g')
  {
    NameIsWord(k);
    NameRecognised(k);
  }

  lemma NameRecognised(k: Key)
    requires k != KOther
    ensures KeyOf(NameOf(k)) == k
  {
    match k {
      case KHost => case KPort => case KServerName => case KRoot => case KIndex => case KTimeout =>
      case KMaxBody => case KErrorPage => case KAutoindex => case KMethods => case KCgiPass => case KReturn =>
    }
  }

  /** A directive name is a word, and no "location"; only cgi_pass looks like "cgi". */
  predicate GoodName(k: Key, name: string) {
    Word(name) && |name| >= 2 && name[0] != 'l' && (k != KCgiPass ==> name[0] != 'c' || name[1] != 'g')
  }

  lemma ShortNameIsWord(k: Key)
    requires k.KHost? || k.KPort? || k.KRoot? || k.KIndex? || k.KReturn?
    ensures GoodName(k, NameOf(k))
  {
  }

  lemma LongNameIsWord(k: Key)
    requires k.KServerName? || k.KTimeout? || k.KErrorPage?
    ensures GoodName(k, NameOf(k))
  {
  }

  lemma LongestNameIsWord(k: Key)
    requires k.KMaxBody? || k.KAutoindex? || k.KMethods? || k.KCgiPass?
    ensures GoodName(k, NameOf(k))
  {
  }

  lemma NameIsWord(k: Key)
    requires k != KOther
    ensures GoodName(k, NameOf(k))
  {
    hide NameOf, GoodName;
    match k
    case KHost | KPort | KRoot | KIndex | KReturn => ShortNameIsWord(k);
    case KServerName | KTimeout | KErrorPage => LongNameIsWord(k);
    case _ => LongestNameIsWord(k);
  }

  // ---- values ----

  lemma {:induction false} DigitsOnly(s: string)
    requires forall i :: 0 <= i < |s| ==> IsDigit(s[i])
    ensures NumberPart(s) == |s| && DigitRun(s) == |s|
  {
    if s != "" { DigitsOnly(s[1..]); }
  }

  /** A whole number without a unit is read as itself. */
  lemma SizeOfDec(n: nat)
    ensures ParseSize(Dec(n)) == Some(n) && Value(Dec(n))
  {
    hide Dec, DigitsValue, UnitFactor;
    var d := Dec(n);
    forall i | 0 <= i < |d| ensures IsDigit(d[i]) && d[i] !in SPACES { assert d[i] in d; }
    DigitsOnly(d);
    DecValue(n, "");
    assert d + "" == d && d[..|d|] == d && d[|d|..] == "";
    NoUnit();
    assert Times(1, n) == n;
  }

  function LowerCase(s: string): string {
    if s == "" then "" else [ToLower(s[0])] + LowerCase(s[1..])
  }

  lemma {:induction false} UnitOfLetters(unit: string)
    requires forall i :: 0 <= i < |unit| ==> IsAlpha(unit[i])
    ensures UnitPart(unit) == LowerCase(unit)
  {
    if unit != "" { UnitOfLetters(unit[1..]); }
  }

  lemma {:induction false} NumberBeforeUnit(digits: string, unit: string)
    requires forall i :: 0 <= i < |digits| ==> IsDigit(digits[i])
    requires unit != "" ==> IsAlpha(unit[0])
    ensures NumberPart(digits + unit) == |digits|
  {
    if digits == "" {
      assert digits + unit == unit;
    } else {
      assert (digits + unit)[1..] == digits[1..] + unit;
      NumberBeforeUnit(digits[1..], unit);
    }
  }

  lemma SizeInUnits(n: nat, unit: string)
    requires forall i :: 0 <= i < |unit| ==> IsAlpha(unit[i])
    ensures ParseSize(Dec(n) + unit) ==
            var factor := UnitFactor(LowerCase(unit)); if factor.None? then None else Some(n * factor.value)
  {
    hide Dec, DigitsValue, UnitFactor, NumberPart, UnitPart, LowerCase, DigitRun;
    var d := Dec(n);
    forall i | 0 <= i < |d| ensures IsDigit(d[i]) { assert d[i] in d; }
    NumberBeforeUnit(d, unit);
    UnitOfLetters(unit);
    DigitsOnly(d);
    DecValue(n, "");
    assert d + "" == d && (d + unit)[..|d|] == d && (d + unit)[|d|..] == unit;
    if UnitFactor(LowerCase(unit)).Some? { Commute(UnitFactor(LowerCase(unit)).value, n); }
  }

  /** How many bytes a unit stands for, as it may be written. */
  function BytesPer(unit: string): Option<nat> {
    if unit == "" then Some(1)
    else if unit in {"k", "K", "kb", "kB", "Kb", "KB"} then Some(1024)
    else if unit in {"m", "M", "mb", "mB", "Mb", "MB"} then Some(1048576)
    else if unit in {"g", "G", "gb", "gB", "Gb", "GB"} then Some(1073741824)
    else None
  }

  lemma ShortLowerCase(unit: string)
    ensures |LowerCase(unit)| == |unit|
    ensures |unit| == 1 ==> LowerCase(unit) == [ToLower(unit[0])]
    ensures |unit| == 2 ==> LowerCase(unit) == [ToLower(unit[0]), ToLower(unit[1])]
  {
    if |unit| == 1 { assert unit[1..] == ""; }
    if |unit| == 2 { assert unit[1..][1..] == "" && unit[1..][0] == unit[1]; }
    LowerLength(unit);
  }

  lemma {:induction false} LowerLength(unit: string)
    ensures |LowerCase(unit)| == |unit|
  {
    if unit != "" { LowerLength(unit[1..]); }
  }

  lemma UnitsSpelled(unit: string)
    requires forall i :: 0 <= i < |unit| ==> IsAlpha(unit[i])
    ensures UnitFactor(LowerCase(unit)) == BytesPer(unit)
  {
    hide LowerCase, UnitFactor, BytesPer, ToLower;
    ShortLowerCase(unit);
    if |unit| == 1 {
      LettersOfOne(unit, LowerCase(unit));
    } else if |unit| == 2 {
      LettersOfTwo(unit, LowerCase(unit));
    } else {
      NoUnitOfLength(unit, LowerCase(unit));
    }
  }

  lemma NoUnitOfLength(unit: string, low: string)
    requires |unit| == |low| && (|unit| == 0 || |unit| > 2)
    ensures UnitFactor(low) == BytesPer(unit)
  {
    if |unit| > 2 {
      assert |"k"| == |"K"| == |"m"| == |"M"| == |"g"| == |"G"| == 1;
      assert |"kb"| == |"kB"| == |"Kb"| == |"KB"| == |"mb"| == |"mB"| == |"Mb"| == |"MB"| == 2;
    }
  }

  /** A text of one or two characters is known by them. */
  lemma ByLetters(s: string, t: string)
    requires |s| == |t| && 0 < |t| <= 2
    ensures s == t <==> s[0] == t[0] && s[|t| - 1] == t[|t| - 1]
  {
  }

  lemma LettersOfOne(unit: string, low: string)
    requires |unit| == 1 && low == [ToLower(unit[0])] && IsAlpha(unit[0])
    ensures UnitFactor(low) == BytesPer(unit)
  {
    ByLetters(low, "k");
    ByLetters(low, "m");
    ByLetters(low, "g");
    ByLetters(unit, "k");
    ByLetters(unit, "K");
    ByLetters(unit, "m");
    ByLetters(unit, "M");
    ByLetters(unit, "g");
    ByLetters(unit, "G");
  }

  lemma LettersOfTwo(unit: string, low: string)
    requires |unit| == 2 && low == [ToLower(unit[0]), ToLower(unit[1])] && IsAlpha(unit[0]) && IsAlpha(unit[1])
    ensures UnitFactor(low) == BytesPer(unit)
  {
    ByLetters(low, "kb");
    ByLetters(low, "mb");
    ByLetters(low, "gb");
    KiloLetters(unit);
    MegaLetters(unit);
    GigaLetters(unit);
  }

  lemma KiloLetters(unit: string)
    requires |unit| == 2
    ensures unit in {"k", "K", "kb", "kB", "Kb", "KB"} <==> unit[0] in {'k', 'K'} && unit[1] in {'b', 'B'}
  {
    ByLetters(unit, "kb");
    ByLetters(unit, "kB");
    ByLetters(unit, "Kb");
    ByLetters(unit, "KB");
  }

  lemma MegaLetters(unit: string)
    requires |unit| == 2
    ensures unit in {"m", "M", "mb", "mB", "Mb", "MB"} <==> unit[0] in {'m', 'M'} && unit[1] in {'b', 'B'}
  {
    ByLetters(unit, "mb");
    ByLetters(unit, "mB");
    ByLetters(unit, "Mb");
    ByLetters(unit, "MB");
  }

  lemma GigaLetters(unit: string)
    requires |unit| == 2
    ensures unit in {"g", "G", "gb", "gB", "Gb", "GB"} <==> unit[0] in {'g', 'G'} && unit[1] in {'b', 'B'}
  {
    ByLetters(unit, "gb");
    ByLetters(unit, "gB");
    ByLetters(unit, "Gb");
    ByLetters(unit, "GB");
  }

  /** A whole number with a unit, in either case, is that many units; other units are an error. */
  lemma SizeWithUnit(n: nat, unit: string)
    requires forall i :: 0 <= i < |unit| ==> IsAlpha(unit[i])
    ensures ParseSize(Dec(n) + unit) == if BytesPer(unit).None? then None else Some(n * BytesPer(unit).value)
  {
    hide ParseSize, Dec, UnitFactor, LowerCase, BytesPer;
    SizeInUnits(n, unit);
    UnitsSpelled(unit);
  }

  lemma Commute(factor: nat, n: nat)
    ensures Times(factor, n) == n * factor
  {
  }

  lemma NoUnit()
    ensures UnitFactor(UnitPart("")) == Some(1)
  {
  }

  lemma IntValue(n: int)
    ensures Word(DecInt(n))
  {
    hide Dec;
    var d := DecInt(n);
    forall i | 0 <= i < |d| ensures !IsSpace(d[i]) { assert d[i] in d; }
  }

  /** The words of a list that are among keep, in order. */
  function Only(ws: seq<string>, keep: set<string>): seq<string> {
    if ws == [] then [] else (if ws[0] in keep then [ws[0]] else []) + Only(ws[1..], keep)
  }

  /** Words that do not end in a semicolon. */
  predicate BareWords(ws: seq<string>) {
    forall j :: 0 <= j < |ws| ==> Word(ws[j]) && ws[j][|ws[j]| - 1] != ';'
  }

  lemma BareKnown(w: string)
    requires Word(w) && w[|w| - 1] != ';'
    ensures DropSemicolon(w) == w && (KnownMethod(w) <==> w in {"GET", "POST", "DELETE", "PUT", "HEAD"})
  {
  }

  lemma {:induction false} KnownAreOnly(ws: seq<string>)
    requires BareWords(ws)
    ensures KnownMethods(ws) == Only(ws, {"GET", "POST", "DELETE", "PUT", "HEAD"})
  {
    hide KnownMethod, DropSemicolon, Word;
    if ws != [] {
      BareKnown(ws[0]);
      KnownAreOnly(ws[1..]);
    }
  }

  lemma {:induction false} JoinEnds(ws: seq<string>)
    requires BareWords(ws)
    ensures DropSemicolon(Join(ws)) == Join(ws) && AllWords(ws)
  {
    hide Word;
    if |ws| > 1 {
      JoinEnds(ws[1..]);
      JoinNotEmpty(ws[1..]);
    }
  }

  /** Of any list of words, exactly the five methods are kept, in order; without one it is GET. */
  lemma MethodsExactly(ws: seq<string>)
    requires BareWords(ws)
    ensures AllowedMethods(Join(ws)) ==
            var kept := Only(ws, {"GET", "POST", "DELETE", "PUT", "HEAD"}); if kept == [] then ["GET"] else kept
  {
    hide KnownMethods, Words, Join, Only, BareWords, AllWords, DropSemicolon;
    JoinEnds(ws);
    WordsOfJoin(ws);
    KnownAreOnly(ws);
  }

  lemma {:induction false} AllKept(ms: seq<string>, keep: set<string>)
    requires forall j :: 0 <= j < |ms| ==> ms[j] in keep
    ensures Only(ms, keep) == ms
  {
    if ms != [] {
      AllKept(ms[1..], keep);
      assert ms == [ms[0]] + ms[1..];
    }
  }

  lemma MethodIsBare(m: string)
    requires m in {"GET", "POST", "DELETE", "PUT", "HEAD"}
    ensures Word(m) && m[|m| - 1] != ';'
  {
  }

  lemma MethodsRead(ms: seq<string>)
    requires forall j :: 0 <= j < |ms| ==> ms[j] in {"GET", "POST", "DELETE", "PUT", "HEAD"}
    ensures AllowedMethods(Join(ms)) == (if ms == [] then ["GET"] else ms) && Value(Join(ms))
  {
    hide AllowedMethods, Join, Only, Word;
    forall j | 0 <= j < |ms| ensures Word(ms[j]) && ms[j][|ms[j]| - 1] != ';' { MethodIsBare(ms[j]); }
    MethodsExactly(ms);
    AllKept(ms, {"GET", "POST", "DELETE", "PUT", "HEAD"});
    JoinTrimmed(ms);
  }

  function Code(temporary: bool): string { if temporary then "302" else "301" }

  lemma RedirectRead(temporary: bool, target: string, current: string)
    requires Word(target) && target[|target| - 1] != ';'
    ensures Redirect(Join([Code(temporary), target]), current) == target && Value(Join([Code(temporary), target]))
  {
    hide Words, Join, Word;
    var ws := [Code(temporary), target];
    CodeIsWord(temporary);
    assert AllWords(ws);
    WordsOfJoin(ws);
    JoinTrimmed(ws);
  }

  lemma CodeIsWord(temporary: bool)
    ensures Word(Code(temporary))
  {
  }

  lemma OnOff(on: bool)
    ensures Value(if on then "on" else "off") && ((if on then "on" else "off") == "on" <==> on)
  {
  }

  // ---- directives mean what they print ----

  lemma LocDirectiveRead(i: LocItem, pos: nat, l: LocationConfig, errors: seq<ConfigError>)
    requires GoodLocItem(i)
    ensures LocationDirective(Line(NameOf(LocKey(i)), LocValue(i)), pos, l, errors) == Got(EvalLocItem(l, i), pos, errors)
  {
    hide NameOf, KeyOf, Dec, ParseSize, AllowedMethods, Redirect, Join, SplitDirective, DropSemicolon, Word, Trimmed;
    NameFacts(LocKey(i));
    match i {
      case LAutoindex(on) => OnOff(on);
      case LMaxBody(n) => SizeOfDec(n);
      case LMethods(ms) => MethodsRead(ms);
      case LReturn(temporary, target) => RedirectRead(temporary, target, l.redirect);
      case _ =>
    }
    LocationLine(NameOf(LocKey(i)), LocValue(i));
    assert errors + [] == errors;
  }

  lemma ErrorPageRead(code: int, page: string)
    requires 400 <= code < 600 && Word(page)
    ensures Words(Join([DecInt(code), page])) == [DecInt(code), page] && Value(Join([DecInt(code), page]))
    ensures Atoi(DecInt(code)) == code
  {
    hide DecInt, Atoi, Word, Words, Join;
    IntValue(code);
    var ws := [DecInt(code), page];
    assert AllWords(ws);
    WordsOfJoin(ws);
    JoinTrimmed(ws);
    AtoiOfDec(code);
  }

  lemma DirectiveRead(i: Item, pos: nat, c: ServerConfig, errors: seq<ConfigError>)
    requires GoodItem(i) && !i.Cgi? && !i.Location?
    ensures ServerDirective(Line(NameOf(ItemKey(i)), ItemValue(i)), pos, c, errors) == Got(EvalItem(c, i), pos, errors)
  {
    hide NameOf, KeyOf, Dec, DecInt, Atoi, ParseSize, Join, Words, SplitDirective, DropSemicolon, Word, Trimmed;
    NameFacts(ItemKey(i));
    match i {
      case Port(p) =>
        IntValue(p);
        WordTrimmed(DecInt(p));
        AtoiOfDec(p);
      case Timeout(t) =>
        IntValue(t);
        WordTrimmed(DecInt(t));
        AtoiOfDec(t);
      case Names(ws) =>
        WordsOfJoin(ws);
        JoinTrimmed(ws);
      case MaxBody(n) => SizeOfDec(n);
      case ErrorPage(code, page) => ErrorPageRead(code, page);
      case _ =>
    }
    ServerLine(NameOf(ItemKey(i)), ItemValue(i));
    assert errors + [] == errors;
  }

  // ---- blocks ----

  /** The block stands in the lines at pos. */
  predicate At(lines: Lines, pos: nat, block: Lines) {
    pos + |block| <= |lines| && lines[pos..pos + |block|] == block
  }

  lemma AtSplit(lines: Lines, pos: nat, a: Lines, b: Lines)
    requires At(lines, pos, a + b)
    ensures At(lines, pos, a) && At(lines, pos + |a|, b)
  {
    assert lines[pos..pos + |a|] == (a + b)[..|a|] == a;
    assert lines[pos + |a|..pos + |a| + |b|] == (a + b)[|a|..] == b;
  }

  lemma AtFirst(lines: Lines, pos: nat, line: string, rest: Lines)
    requires At(lines, pos, [line] + rest)
    ensures pos < |lines| && lines[pos] == line && At(lines, pos + 1, rest)
  {
    AtSplit(lines, pos, [line], rest);
    assert lines[pos..pos + 1][0] == line;
  }

  lemma NotSkipped(lines: Lines, pos: nat)
    requires pos < |lines| && Trim(lines[pos], SPACES) != ""
    ensures SkipBlankLines(lines, pos) == pos
  {
    hide Trim;
  }

  lemma CloseShape()
    ensures Trim(Close(), SPACES) == "}" && IsClose(Close()) && Close() != ""
  {
    assert Trimmed(Close(), SPACES);
  }

  lemma {:induction false} LocBodyRead(lines: Lines, pos: nat, items: seq<LocItem>, l: LocationConfig, errors: seq<ConfigError>)
    requires forall j :: 0 <= j < |items| ==> GoodLocItem(items[j])
    requires At(lines, pos, LocLines(items) + [Close()])
    ensures LocationBody(lines, pos, l, errors) == Got(EvalLocItems(l, items), pos + |items| + 1, errors)
    decreases |items|
  {
    hide At, NameOf, LocKey, LocValue, GoodLocItem, Trim, IsClose, LocationDirective, EvalLocItem, Close, Line, Word,
      SkipBlankLines;
    if items == [] {
      assert LocLines(items) + [Close()] == [Close()] + [];
      AtFirst(lines, pos, Close(), []);
      CloseShape();
      NotSkipped(lines, pos);
    } else {
      var i := items[0];
      var line := Line(NameOf(LocKey(i)), LocValue(i));
      assert LocLines(items) + [Close()] == [line] + (LocLines(items[1..]) + [Close()]);
      AtFirst(lines, pos, line, LocLines(items[1..]) + [Close()]);
      LocKeyKnown(i);
      NameFacts(LocKey(i));
      LineShape(NameOf(LocKey(i)), LocValue(i));
      NotSkipped(lines, pos);
      LocDirectiveRead(i, pos, l, errors);
      LocBodyRead(lines, pos + 1, items[1..], EvalLocItem(l, i), errors);
    }
  }

  lemma LocKeyKnown(i: LocItem)
    ensures LocKey(i) != KOther
  {
  }

  lemma EntryRead(e: (string, string))
    requires GoodEntry(e)
    ensures CgiEntry(Line(e.0, e.1)) == e
  {
    hide SplitDirective, DropSemicolon, Word, Trimmed;
    LocationLine(e.0, e.1);
    assert e.0 != "" by { WordNotEmpty(e.0); }
  }

  lemma WordNotEmpty(w: string)
    requires Word(w)
    ensures w != ""
  {
  }

  lemma {:induction false} CgiBodyRead(lines: Lines, pos: nat, entries: seq<(string, string)>, cgi: map<string, string>)
    requires forall j :: 0 <= j < |entries| ==> GoodEntry(entries[j])
    requires At(lines, pos, EntryLines(entries) + [Close()])
    ensures CgiBody(lines, pos, cgi) == (EvalEntries(cgi, entries), pos + |entries| + 1)
    decreases |entries|
  {
    hide At, Trim, IsClose, CgiEntry, Close, Line, Word, SkipBlankLines;
    if entries == [] {
      assert EntryLines(entries) + [Close()] == [Close()] + [];
      AtFirst(lines, pos, Close(), []);
      CloseShape();
      NotSkipped(lines, pos);
    } else {
      var e := entries[0];
      assert GoodEntry(e);
      assert EntryLines(entries) + [Close()] == [Line(e.0, e.1)] + (EntryLines(entries[1..]) + [Close()]);
      AtFirst(lines, pos, Line(e.0, e.1), EntryLines(entries[1..]) + [Close()]);
      LineShape(e.0, e.1);
      NotSkipped(lines, pos);
      EntryRead(e);
      CgiBodyRead(lines, pos + 1, entries[1..], cgi[e.0 := e.1]);
    }
  }

  // ---- block heads ----

  lemma LocationHeadRead(path: string)
    requires Word(path)
    ensures var line := LocationHead(path);
            && Trim(line, SPACES) == line != "" && !IsClose(line) && IsLocationLine(line)
            && Contains(line, "{") && LocationPath(line) == path && !IsBlockStart(line)
  {
    hide Find, Trim, Words, Word;
    var line := LocationHead(path);
    var n := |line|;
    assert line[..8] == "location" && line[n - 1] == '{' && line[n - 2] == ' ';
    assert Trimmed(line, SPACES);
    assert line == "location " + path + " " + "{" + "";
    OccursInMiddle("location " + path + " ", "{", "");
    LocationIsWord();
    WordsCons("location", path + " " + "{");
    WordsCons(path, "{");
    assert line == "location" + " " + (path + " " + "{");
    assert line[0] == 'l';
  }

  lemma LocationIsWord()
    ensures Word("location")
  {
  }

  lemma CgiHeadRead()
    ensures var line := CgiHead();
            && Trim(line, SPACES) == line != "" && !IsClose(line) && !IsLocationLine(line) && IsCgiLine(line)
            && !IsBlockStart(line)
  {
    hide Find, Trim;
    assert Trimmed(CgiHead(), SPACES);
    assert OccursAt(CgiHead(), "{", 4);
  }

  lemma ServerHeadRead()
    ensures Trim(ServerHead(), SPACES) != "" && MentionsServer(ServerHead())
  {
    hide Find, Trim;
    assert Trimmed(ServerHead(), SPACES);
    assert OccursAt(ServerHead(), "server", 0);
  }

  // ---- whole servers ----

  /** One item of a server block: the cursor moves past its lines, and the server gets its meaning. */
  lemma ItemRead(lines: Lines, pos: nat, i: Item, rest: Lines, c: ServerConfig, errors: seq<ConfigError>)
    requires GoodItem(i) && At(lines, pos, ItemLines(i) + rest)
    ensures pos < |lines| && SkipBlankLines(lines, pos) == pos && !IsClose(lines[pos]) && !IsBlockStart(lines[pos])
    ensures ServerBody(lines, pos, c, errors) == ServerBody(lines, pos + |ItemLines(i)|, EvalItem(c, i), errors)
    ensures At(lines, pos + |ItemLines(i)|, rest)
  {
    hide At, SkipBlankLines, IsClose, IsBlockStart, IsLocationLine, IsCgiLine, ServerDirective, LocationBody, CgiBody,
      Line, NameOf, LocLines, EntryLines, Close, LocationHead, CgiHead, Word, Trim, DefaultLocation, ServerBody;
    AtSplit(lines, pos, ItemLines(i), rest);
    match i {
      case Location(path, items) =>
        LocationItemRead(lines, pos, path, items, c, errors);
      case Cgi(entries) =>
        CgiItemRead(lines, pos, entries, c, errors);
      case _ =>
        LineItemRead(lines, pos, i, c, errors);
    }
  }

  lemma LineItemRead(lines: Lines, pos: nat, i: Item, c: ServerConfig, errors: seq<ConfigError>)
    requires GoodItem(i) && !i.Cgi? && !i.Location? && At(lines, pos, ItemLines(i))
    ensures pos < |lines| && SkipBlankLines(lines, pos) == pos && !IsClose(lines[pos]) && !IsBlockStart(lines[pos])
    ensures ServerBody(lines, pos, c, errors) == ServerBody(lines, pos + 1, EvalItem(c, i), errors)
    ensures |ItemLines(i)| == 1
  {
    hide At, SkipBlankLines, IsClose, IsBlockStart, IsLocationLine, IsCgiLine, ServerDirective, Line, NameOf, Word, Trim,
      GoodItem, ItemValue, ServerBody, DefaultServer;
    var line := Line(NameOf(ItemKey(i)), ItemValue(i));
    assert ItemLines(i) == [line] + [];
    AtFirst(lines, pos, line, []);
    NameFacts(ItemKey(i));
    assert !ItemKey(i).KCgiPass?;
    LineShape(NameOf(ItemKey(i)), ItemValue(i));
    NotSkipped(lines, pos);
    ServerBodyStep(lines, pos, c, errors);
    PlainLine(NameOf(ItemKey(i)), ItemValue(i));
    DirectiveRead(i, pos, c, errors);
  }

  lemma PlainLine(w: string, v: string)
    requires |w| >= 2 && w[0] != 'l' && (w[0] != 'c' || w[1] != 'g')
    ensures !IsLocationLine(Line(w, v)) && !IsCgiLine(Line(w, v))
  {
    hide Find;
    var line := Line(w, v);
    assert line[0] == w[0] && line[1] == w[1];
    if |line| >= 8 { assert line[..8][0] == line[0]; }
    if |line| >= 3 { assert line[..3][0] == line[0] && line[..3][1] == line[1]; }
  }

  lemma LocationNext(lines: Lines, pos: nat, path: string, items: seq<LocItem>, c: ServerConfig, errors: seq<ConfigError>)
    requires forall j :: 0 <= j < |items| ==> GoodLocItem(items[j])
    requires pos < |lines| && IsLocationLine(lines[pos]) && Contains(lines[pos], "{") && LocationPath(lines[pos]) == path
    requires At(lines, pos + 1, LocLines(items) + [Close()])
    ensures ServerNext(lines, pos, c, errors) == Got(EvalItem(c, Location(path, items)), pos + |items| + 2, errors)
  {
    hide At, IsLocationLine, IsCgiLine, CgiBody, LocLines, Close, GoodLocItem, EvalLocItems, ServerDirective, LocationBody,
      DefaultLocation, LocationPath, Contains;
    LocBodyRead(lines, pos + 1, items, DefaultLocation(path), errors);
    assert PastBrace(lines, pos) == pos + 1;
  }

  lemma LocationItemRead(lines: Lines, pos: nat, path: string, items: seq<LocItem>, c: ServerConfig, errors: seq<ConfigError>)
    requires Word(path) && forall j :: 0 <= j < |items| ==> GoodLocItem(items[j])
    requires At(lines, pos, [LocationHead(path)] + LocLines(items) + [Close()])
    ensures pos < |lines| && SkipBlankLines(lines, pos) == pos && !IsClose(lines[pos]) && !IsBlockStart(lines[pos])
    ensures ServerBody(lines, pos, c, errors)
            == ServerBody(lines, pos + |items| + 2, EvalItem(c, Location(path, items)), errors)
    ensures |LocLines(items)| == |items|
  {
    hide At, SkipBlankLines, IsClose, IsBlockStart, IsLocationLine, LocLines, Close, LocationHead, Word, Trim,
      LocationPath, Contains, GoodLocItem, ServerBody, ServerNext, EvalItem;
    var head, tail := LocationHead(path), LocLines(items) + [Close()];
    assert [head] + LocLines(items) + [Close()] == [head] + tail;
    AtFirst(lines, pos, head, tail);
    LocationHeadRead(path);
    NotSkipped(lines, pos);
    ServerBodyStep(lines, pos, c, errors);
    LocationNext(lines, pos, path, items, c, errors);
    LocLinesCount(items);
  }

  lemma {:induction false} LocLinesCount(items: seq<LocItem>)
    ensures |LocLines(items)| == |items|
  {
    if items != [] { LocLinesCount(items[1..]); }
  }

  lemma {:induction false} EntryLinesCount(entries: seq<(string, string)>)
    ensures |EntryLines(entries)| == |entries|
  {
    if entries != [] { EntryLinesCount(entries[1..]); }
  }

  lemma CgiNext(lines: Lines, pos: nat, entries: seq<(string, string)>, c: ServerConfig, errors: seq<ConfigError>)
    requires forall j :: 0 <= j < |entries| ==> GoodEntry(entries[j])
    requires pos < |lines| && IsCgiLine(lines[pos]) && !IsLocationLine(lines[pos])
    requires At(lines, pos + 1, EntryLines(entries) + [Close()])
    ensures ServerNext(lines, pos, c, errors) == Got(EvalItem(c, Cgi(entries)), pos + |entries| + 2, errors)
  {
    hide At, IsLocationLine, IsCgiLine, CgiBody, EntryLines, Close, GoodEntry, EvalEntries, ServerDirective, LocationBlock;
    CgiBodyRead(lines, pos + 1, entries, c.cgi);
  }

  lemma CgiItemRead(lines: Lines, pos: nat, entries: seq<(string, string)>, c: ServerConfig, errors: seq<ConfigError>)
    requires forall j :: 0 <= j < |entries| ==> GoodEntry(entries[j])
    requires At(lines, pos, [CgiHead()] + EntryLines(entries) + [Close()])
    ensures pos < |lines| && SkipBlankLines(lines, pos) == pos && !IsClose(lines[pos]) && !IsBlockStart(lines[pos])
    ensures ServerBody(lines, pos, c, errors)
            == ServerBody(lines, pos + |entries| + 2, EvalItem(c, Cgi(entries)), errors)
    ensures |EntryLines(entries)| == |entries|
  {
    hide At, SkipBlankLines, IsClose, IsBlockStart, IsLocationLine, IsCgiLine, EntryLines, Close, CgiHead, Trim,
      GoodEntry, ServerBody, ServerNext, EvalItem;
    var tail := EntryLines(entries) + [Close()];
    assert [CgiHead()] + EntryLines(entries) + [Close()] == [CgiHead()] + tail;
    AtFirst(lines, pos, CgiHead(), tail);
    CgiHeadRead();
    NotSkipped(lines, pos);
    ServerBodyStep(lines, pos, c, errors);
    CgiNext(lines, pos, entries, c, errors);
    EntryLinesCount(entries);
  }

  lemma {:induction false} ServerBodyRead(lines: Lines, pos: nat, items: seq<Item>, c: ServerConfig, errors: seq<ConfigError>)
    requires GoodItems(items) && At(lines, pos, ItemsLines(items) + [Close()])
    ensures ServerBody(lines, pos, c, errors) == Got(EvalItems(c, items), pos + |ItemsLines(items)| + 1, errors)
    ensures pos < |lines| && SkipBlankLines(lines, pos) == pos && !IsBlockStart(lines[pos])
    decreases |items|
  {
    hide At, SkipBlankLines, IsClose, IsBlockStart, IsLocationLine, IsCgiLine, ServerDirective, LocationBlock, CgiBody,
      ItemLines, Close, Trim, GoodItem, EvalItem, ServerBody, ServerNext;
    if items == [] {
      assert ItemsLines(items) + [Close()] == [Close()] + [];
      AtFirst(lines, pos, Close(), []);
      CloseShape();
      CloseIsNoStart();
      NotSkipped(lines, pos);
      ServerBodyStep(lines, pos, c, errors);
    } else {
      var i, rest := items[0], ItemsLines(items[1..]) + [Close()];
      assert ItemsLines(items) + [Close()] == ItemLines(i) + rest;
      ItemRead(lines, pos, i, rest, c, errors);
      ServerBodyRead(lines, pos + |ItemLines(i)|, items[1..], EvalItem(c, i), errors);
    }
  }

  lemma CloseIsNoStart()
    ensures !IsBlockStart(Close())
  {
    CloseShape();
  }

  /** One pass of parse over a printed server. */
  lemma ServerLineStep(lines: Lines, pos: nat, items: seq<Item>, before: seq<ServerConfig>, errors: seq<ConfigError>)
    requires GoodItems(items) && pos < |lines| && lines[pos] == ServerHead()
    requires At(lines, pos + 1, ItemsLines(items) + [Close()])
    ensures SkipBlankLines(lines, pos) == pos && !StuckAt(lines, pos, before)
    ensures TopStep(lines, pos, before, errors)
            == Got(before + [EvalItems(DefaultServer(), items)], pos + 1 + |ItemsLines(items)| + 1, errors)
  {
    hide At, SkipBlankLines, MentionsServer, IsCgiOpen, ServerBody, ItemsLines, Close, ServerHead, Trim, GoodItems,
      DefaultServer, EvalItems, IsBlockStart, CgiBody;
    ServerHeadRead();
    NotSkipped(lines, pos);
    ServerBodyRead(lines, pos + 1, items, DefaultServer(), errors);
  }

  /** One unfolding of the printed servers and of their meaning. */
  lemma ServersFirst(servers: seq<seq<Item>>, before: seq<ServerConfig>)
    ensures servers == [] ==> ServersLines(servers) == [] && before + EvalServers(servers) == before
    ensures servers != [] ==>
              && ServersLines(servers) == [ServerHead()] + ((ItemsLines(servers[0]) + [Close()]) + ServersLines(servers[1..]))
              && before + EvalServers(servers)
                 == before + [EvalItems(DefaultServer(), servers[0])] + EvalServers(servers[1..])
  {
    hide ItemsLines, ServerHead, Close, EvalItems, DefaultServer;
    if servers == [] {
      assert before + [] == before;
    } else {
      var body, rest := ItemsLines(servers[0]) + [Close()], ServersLines(servers[1..]);
      assert [ServerHead()] + body + rest == [ServerHead()] + (body + rest);
    }
  }

  /** A printed list of servers is read back, whatever was read before it. */
  lemma {:induction false} ServersRead(lines: Lines, pos: nat, servers: seq<seq<Item>>, before: seq<ServerConfig>,
                                       errors: seq<ConfigError>)
    requires forall j :: 0 <= j < |servers| ==> GoodItems(servers[j])
    requires At(lines, pos, ServersLines(servers)) && pos + |ServersLines(servers)| == |lines|
    ensures TopLevel(lines, pos, before, errors) == Done(before + EvalServers(servers), |lines|, errors)
    decreases |servers|
  {
    hide At, SkipBlankLines, MentionsServer, IsCgiOpen, ServerBody, ItemsLines, Close, ServerHead, Trim, GoodItems,
      DefaultServer, EvalItems, IsBlockStart, TopLevel, CgiBody, StuckAt, TopStep, ServersLines, EvalServers;
    TopLevelStep(lines, pos, before, errors);
    ServersFirst(servers, before);
    if servers == [] {
      AtEnd(lines, pos);
    } else {
      var items, rest := servers[0], ServersLines(servers[1..]);
      var body := ItemsLines(items) + [Close()];
      AtFirst(lines, pos, ServerHead(), body + rest);
      AtSplit(lines, pos + 1, body, rest);
      ServerLineStep(lines, pos, items, before, errors);
      var server := EvalItems(DefaultServer(), items);
      ServersRead(lines, pos + 1 + |body|, servers[1..], before + [server], errors);
    }
  }

  /** Parsing what was printed gives exactly the meaning of the directives, no error, nothing left over. */
  lemma PrintParseRoundTrip(servers: seq<seq<Item>>)
    requires forall j :: 0 <= j < |servers| ==> GoodItems(servers[j])
    ensures TopLevel(ServersLines(servers), 0, [], []) == Done(EvalServers(servers), |ServersLines(servers)|, [])
  {
    hide TopLevel, ServersLines, EvalServers;
    var lines := ServersLines(servers);
    assert lines[0..0 + |lines|] == lines;
    ServersRead(lines, 0, servers, [], []);
    assert [] + EvalServers(servers) == EvalServers(servers);
  }

  // ---- configurations as values ----

  function LocItemsOf(l: LocationConfig): seq<LocItem> {
    [LRoot(l.root)] + ([LIndex(l.index)] + ([LAutoindex(l.autoindex)] + ([LMaxBody(l.maxBody)]
    + ([LMethods(l.methods)] + ([LCgiPass(l.cgiPath)] + if l.redirect == "" then [] else [LReturn(false, l.redirect)])))))
  }

  function PageItems(codes: seq<int>, pages: map<int, string>): seq<Item>
    requires forall j :: 0 <= j < |codes| ==> codes[j] in pages
  {
    if codes == [] then [] else [ErrorPage(codes[0], pages[codes[0]])] + PageItems(codes[1..], pages)
  }

  function EntriesOf(exts: seq<string>, cgi: map<string, string>): seq<(string, string)>
    requires forall j :: 0 <= j < |exts| ==> exts[j] in cgi
  {
    if exts == [] then [] else [(exts[0], cgi[exts[0]])] + EntriesOf(exts[1..], cgi)
  }

  function LocationItems(ls: seq<LocationConfig>): seq<Item> {
    if ls == [] then [] else [Location(ls[0].path, LocItemsOf(ls[0]))] + LocationItems(ls[1..])
  }

  /** The directives of a configuration, its two maps walked in any order. */
  function ItemsOf(c: ServerConfig, codes: seq<int>, exts: seq<string>): seq<Item>
    requires forall j :: 0 <= j < |codes| ==> codes[j] in c.errorPages
    requires forall j :: 0 <= j < |exts| ==> exts[j] in c.cgi
  {
    [Host(c.host)] + ([Port(c.port)] + ([Names(c.names)] + ([Root(c.root)] + ([Index(c.index)] + ([Timeout(c.timeout)]
    + ([MaxBody(c.maxBody)]
    + (PageItems(codes, c.errorPages) + ([Cgi(EntriesOf(exts, c.cgi))] + LocationItems(c.locations)))))))))
  }

  lemma {:induction false} EvalAppend(c: ServerConfig, a: seq<Item>, b: seq<Item>)
    ensures EvalItems(c, a + b) == EvalItems(EvalItems(c, a), b)
    decreases |a|
  {
    hide EvalItem;
    if a == [] {
      assert a + b == b;
    } else {
      assert (a + b)[1..] == a[1..] + b;
      EvalAppend(EvalItem(c, a[0]), a[1..], b);
    }
  }

  function WithPages(m: map<int, string>, codes: seq<int>, pages: map<int, string>): map<int, string>
    requires forall j :: 0 <= j < |codes| ==> codes[j] in pages
    decreases |codes|
  {
    if codes == [] then m else WithPages(m[codes[0] := pages[codes[0]]], codes[1..], pages)
  }

  lemma {:induction false} WithAllPages(m: map<int, string>, codes: seq<int>, pages: map<int, string>)
    requires forall j :: 0 <= j < |codes| ==> codes[j] in pages
    ensures WithPages(m, codes, pages).Keys == m.Keys + (set k | k in codes)
    ensures forall k :: k in codes ==> WithPages(m, codes, pages)[k] == pages[k]
    ensures forall k :: k in m && k !in codes ==> WithPages(m, codes, pages)[k] == m[k]
    decreases |codes|
  {
    if codes != [] {
      WithAllPages(m[codes[0] := pages[codes[0]]], codes[1..], pages);
      assert codes == [codes[0]] + codes[1..];
    }
  }

  lemma {:induction false} EvalPages(c: ServerConfig, codes: seq<int>, pages: map<int, string>)
    requires forall j :: 0 <= j < |codes| ==> codes[j] in pages
    ensures EvalItems(c, PageItems(codes, pages)) == c.(errorPages := WithPages(c.errorPages, codes, pages))
    decreases |codes|
  {
    if codes != [] {
      EvalPages(EvalItem(c, ErrorPage(codes[0], pages[codes[0]])), codes[1..], pages);
      EvalCons(c, ErrorPage(codes[0], pages[codes[0]]), PageItems(codes[1..], pages));
    }
  }

  lemma EvalCons(c: ServerConfig, i: Item, rest: seq<Item>)
    ensures EvalItems(c, [i] + rest) == EvalItems(EvalItem(c, i), rest)
  {
    hide EvalItem;
    assert ([i] + rest)[1..] == rest;
  }

  lemma EvalLocCons(l: LocationConfig, i: LocItem, rest: seq<LocItem>)
    ensures EvalLocItems(l, [i] + rest) == EvalLocItems(EvalLocItem(l, i), rest)
  {
    hide EvalLocItem;
    assert ([i] + rest)[1..] == rest;
  }

  lemma {:induction false} EvalEntriesOf(exts: seq<string>, cgi: map<string, string>, done: map<string, string>)
    requires forall j :: 0 <= j < |exts| ==> exts[j] in cgi
    ensures EvalEntries(done, EntriesOf(exts, cgi)).Keys == done.Keys + (set e | e in exts)
    ensures forall e :: e in exts ==> EvalEntries(done, EntriesOf(exts, cgi))[e] == cgi[e]
    ensures forall e :: e in done && e !in exts ==> EvalEntries(done, EntriesOf(exts, cgi))[e] == done[e]
    decreases |exts|
  {
    if exts != [] {
      EvalEntriesOf(exts[1..], cgi, done[exts[0] := cgi[exts[0]]]);
      assert exts == [exts[0]] + exts[1..];
      assert EntriesOf(exts, cgi)[1..] == EntriesOf(exts[1..], cgi);
    }
  }

  lemma EvalLocItemsOf(l: LocationConfig)
    requires l.methods != []
    ensures EvalLocItems(DefaultLocation(l.path), LocItemsOf(l)) == l
  {
    hide EvalLocItems;
    var r5: seq<LocItem> := if l.redirect == "" then [] else [LReturn(false, l.redirect)];
    var r4 := [LCgiPass(l.cgiPath)] + r5;
    var r3 := [LMethods(l.methods)] + r4;
    var r2 := [LMaxBody(l.maxBody)] + r3;
    var r1 := [LAutoindex(l.autoindex)] + r2;
    var r0 := [LIndex(l.index)] + r1;
    var d0 := DefaultLocation(l.path);
    var d1 := d0.(root := l.root);
    var d2 := d1.(index := l.index);
    var d3 := d2.(autoindex := l.autoindex);
    var d4 := d3.(maxBody := l.maxBody);
    var d5 := d4.(methods := l.methods);
    EvalLocCons(d0, LRoot(l.root), r0);
    EvalLocCons(d1, LIndex(l.index), r1);
    EvalLocCons(d2, LAutoindex(l.autoindex), r2);
    EvalLocCons(d3, LMaxBody(l.maxBody), r3);
    EvalLocCons(d4, LMethods(l.methods), r4);
    EvalLocCons(d5, LCgiPass(l.cgiPath), r5);
    EvalReturn(d5.(cgiPath := l.cgiPath), l.redirect);
  }

  lemma EvalReturn(d: LocationConfig, target: string)
    requires d.redirect == ""
    ensures EvalLocItems(d, if target == "" then [] else [LReturn(false, target)]) == d.(redirect := target)
  {
    if target != "" {
      EvalLocCons(d, LReturn(false, target), []);
      assert [LReturn(false, target)] + [] == [LReturn(false, target)];
    }
  }

  lemma {:induction false} EvalLocations(c: ServerConfig, ls: seq<LocationConfig>)
    requires forall j :: 0 <= j < |ls| ==> ls[j].methods != []
    ensures EvalItems(c, LocationItems(ls)) == c.(locations := c.locations + ls)
    decreases |ls|
  {
    hide EvalLocItems, LocItemsOf, DefaultLocation;
    if ls == [] {
      assert c.locations + [] == c.locations;
    } else {
      EvalLocItemsOf(ls[0]);
      var c1 := c.(locations := c.locations + [ls[0]]);
      EvalLocations(c1, ls[1..]);
      EvalCons(c, Location(ls[0].path, LocItemsOf(ls[0])), LocationItems(ls[1..]));
      assert c1.locations + ls[1..] == c.locations + ls;
    }
  }

  lemma EvalFront(c0: ServerConfig, c: ServerConfig, rest: seq<Item>)
    requires c0.names == []
    ensures EvalItems(c0, [Host(c.host)] + ([Port(c.port)] + ([Names(c.names)] + ([Root(c.root)] + ([Index(c.index)]
                          + ([Timeout(c.timeout)] + ([MaxBody(c.maxBody)] + rest)))))))
            == EvalItems(c0.(host := c.host, port := c.port, names := c.names, root := c.root, index := c.index,
                             timeout := c.timeout, maxBody := c.maxBody), rest)
  {
    hide EvalItems;
    assert [] + c.names == c.names;
    var r6 := [MaxBody(c.maxBody)] + rest;
    var r5 := [Timeout(c.timeout)] + r6;
    var r4 := [Index(c.index)] + r5;
    var r3 := [Root(c.root)] + r4;
    var r2 := [Names(c.names)] + r3;
    var r1 := [Port(c.port)] + r2;
    var c1 := c0.(host := c.host);
    var c2 := c1.(port := c.port);
    var c3 := c2.(names := c.names);
    var c4 := c3.(root := c.root);
    var c5 := c4.(index := c.index);
    var c6 := c5.(timeout := c.timeout);
    EvalCons(c0, Host(c.host), r1);
    EvalCons(c1, Port(c.port), r2);
    EvalCons(c2, Names(c.names), r3);
    EvalCons(c3, Root(c.root), r4);
    EvalCons(c4, Index(c.index), r5);
    EvalCons(c5, Timeout(c.timeout), r6);
    EvalCons(c6, MaxBody(c.maxBody), rest);
  }

  /** The two lists walk the two maps of a configuration. */
  ghost predicate WalksMaps(c: ServerConfig, codes: seq<int>, exts: seq<string>) {
    && (forall j :: 0 <= j < |codes| ==> codes[j] in c.errorPages) && (forall k :: k in c.errorPages ==> k in codes)
    && (forall j :: 0 <= j < |exts| ==> exts[j] in c.cgi) && (forall e :: e in c.cgi ==> e in exts)
  }

  /** Every configuration keeps the default keys of the error page map, and a method per location. */
  predicate Reachable(c: ServerConfig) {
    404 in c.errorPages && 500 in c.errorPages && forall j :: 0 <= j < |c.locations| ==> c.locations[j].methods != []
  }

  /** A configuration's directives mean that configuration. */
  lemma EvalItemsOf(c: ServerConfig, codes: seq<int>, exts: seq<string>)
    requires WalksMaps(c, codes, exts) && Reachable(c)
    ensures EvalItems(DefaultServer(), ItemsOf(c, codes, exts)) == c
  {
    hide EvalItems, DefaultLocation;
    var pages, cgi, locs := PageItems(codes, c.errorPages), Cgi(EntriesOf(exts, c.cgi)), LocationItems(c.locations);
    var c0 := DefaultServer();
    var c1 := c0.(host := c.host, port := c.port, names := c.names, root := c.root, index := c.index,
                  timeout := c.timeout, maxBody := c.maxBody);
    var c2 := c1.(errorPages := c.errorPages);
    var c3 := c2.(cgi := c.cgi);
    EvalFront(c0, c, pages + ([cgi] + locs));
    EvalAppend(c1, pages, [cgi] + locs);
    EvalPages(c1, codes, c.errorPages);
    PagesAre(c, codes, exts);
    EvalCons(c2, cgi, locs);
    EntriesAre(c, codes, exts);
    EvalLocations(c3, c.locations);
    assert [] + c.locations == c.locations;
  }

  lemma PagesAre(c: ServerConfig, codes: seq<int>, exts: seq<string>)
    requires WalksMaps(c, codes, exts) && Reachable(c)
    ensures WithPages(DefaultServer().errorPages, codes, c.errorPages) == c.errorPages
  {
    hide WithPages;
    var d := DefaultServer().errorPages;
    WithAllPages(d, codes, c.errorPages);
    var w := WithPages(d, codes, c.errorPages);
    assert d.Keys == {404, 500};
    forall k ensures k in w <==> k in c.errorPages {
      if k in codes { var j :| 0 <= j < |codes| && codes[j] == k; }
    }
    assert forall k :: k in c.errorPages ==> w[k] == c.errorPages[k];
  }

  lemma EntriesAre(c: ServerConfig, codes: seq<int>, exts: seq<string>)
    requires WalksMaps(c, codes, exts)
    ensures EvalEntries(map[], EntriesOf(exts, c.cgi)) == c.cgi
  {
    hide EvalEntries, EntriesOf;
    EvalEntriesOf(exts, c.cgi, map[]);
  }

  ghost function AllItems(cs: seq<ServerConfig>, codes: seq<seq<int>>, exts: seq<seq<string>>): (r: seq<seq<Item>>)
    requires |cs| == |codes| == |exts| && forall j :: 0 <= j < |cs| ==> WalksMaps(cs[j], codes[j], exts[j])
    ensures |r| == |cs|
  {
    if cs == [] then [] else
      assert WalksMaps(cs[0], codes[0], exts[0]);
      [ItemsOf(cs[0], codes[0], exts[0])] + AllItems(cs[1..], codes[1..], exts[1..])
  }

  lemma {:induction false} EvalAllItems(cs: seq<ServerConfig>, codes: seq<seq<int>>, exts: seq<seq<string>>)
    requires |cs| == |codes| == |exts|
    requires forall j :: 0 <= j < |cs| ==> WalksMaps(cs[j], codes[j], exts[j]) && Reachable(cs[j])
    ensures EvalServers(AllItems(cs, codes, exts)) == cs
  {
    hide WalksMaps, Reachable, EvalItems, DefaultServer, ItemsOf;
    if cs != [] {
      EvalItemsOf(cs[0], codes[0], exts[0]);
      EvalAllItems(cs[1..], codes[1..], exts[1..]);
    }
  }

  // ---- from the file on ----

  /** A line that readConfigFile leaves alone. */
  predicate Neat(line: string) { line != "" && Trimmed(line, SPACES) }

  predicate AllNeat(lines: Lines) { forall j :: 0 <= j < |lines| ==> Neat(lines[j]) }

  lemma {:induction false} NeatKept(lines: Lines)
    requires AllNeat(lines) && forall j :: 0 <= j < |lines| ==> '#' !in lines[j]
    ensures CleanLines(lines) == lines
  {
    hide Find, Trim, Neat;
    if lines != [] {
      var n := |lines| - 1;
      NeatKept(lines[..n]);
      NeatLineKept(lines[n]);
      assert lines == lines[..n] + [lines[n]];
    }
  }

  lemma NeatLineKept(line: string)
    requires Neat(line) && '#' !in line
    ensures CleanLine(line) == line != ""
  {
    hide Find;
    FindChar(line, '#');
  }

  lemma {:induction false} LocLinesNeat(items: seq<LocItem>)
    ensures AllNeat(LocLines(items))
  {
    hide Line, NameOf, LocKey, LocValue, Neat;
    if items != [] {
      LocKeyKnown(items[0]);
      NameFacts(LocKey(items[0]));
      LineNeat(NameOf(LocKey(items[0])), LocValue(items[0]));
      LocLinesNeat(items[1..]);
    }
  }

  lemma LineNeat(w: string, v: string)
    requires Word(w)
    ensures Neat(Line(w, v))
  {
    hide Trim;
    assert !IsSpace(w[0]) && Line(w, v)[0] == w[0];
  }

  lemma {:induction false} EntryLinesNeat(entries: seq<(string, string)>)
    requires forall j :: 0 <= j < |entries| ==> GoodEntry(entries[j])
    ensures AllNeat(EntryLines(entries))
  {
    hide Line, Word, Neat;
    if entries != [] {
      assert GoodEntry(entries[0]);
      LineNeat(entries[0].0, entries[0].1);
      EntryLinesNeat(entries[1..]);
    }
  }

  lemma HeadsNeat()
    ensures Neat(CgiHead()) && Neat(ServerHead()) && Neat(Close())
  {
  }

  lemma ItemLinesNeat(i: Item)
    requires GoodItem(i)
    ensures AllNeat(ItemLines(i))
  {
    hide Line, NameOf, LocLines, EntryLines, Close, LocationHead, CgiHead, Neat, Word, Trim, GoodEntry, GoodLocItem, ItemValue;
    HeadsNeat();
    match i {
      case Location(path, items) =>
        LocationHeadNeat(path);
        LocLinesNeat(items);
      case Cgi(entries) =>
        EntryLinesNeat(entries);
      case _ =>
        NameFacts(ItemKey(i));
        LineNeat(NameOf(ItemKey(i)), ItemValue(i));
    }
  }

  lemma LocationHeadNeat(path: string)
    ensures Neat(LocationHead(path))
  {
    var line := LocationHead(path);
    assert line[0] == 'l' && line[|line| - 1] == '{';
  }

  lemma {:induction false} ItemsLinesNeat(items: seq<Item>)
    requires GoodItems(items)
    ensures AllNeat(ItemsLines(items))
  {
    hide ItemLines, GoodItem, Neat;
    if items != [] {
      ItemLinesNeat(items[0]);
      ItemsLinesNeat(items[1..]);
    }
  }

  lemma {:induction false} ServersLinesNeat(servers: seq<seq<Item>>)
    requires forall j :: 0 <= j < |servers| ==> GoodItems(servers[j])
    ensures AllNeat(ServersLines(servers))
  {
    hide ItemsLines, GoodItems, Neat, Close, ServerHead;
    HeadsNeat();
    if servers != [] {
      ItemsLinesNeat(servers[0]);
      ServersLinesNeat(servers[1..]);
    }
  }

  /**
   * Print and parse: a list of configurations, printed with its two maps walked in any order,
   * read from the file and parsed, is the same list, with no error and the cursor at the end.
   */
  lemma ConfigurationRoundTrip(cs: seq<ServerConfig>, codes: seq<seq<int>>, exts: seq<seq<string>>)
    requires |cs| == |codes| == |exts|
    requires forall j :: 0 <= j < |cs| ==> WalksMaps(cs[j], codes[j], exts[j]) && Reachable(cs[j])
    requires forall j :: 0 <= j < |cs| ==> GoodItems(AllItems(cs, codes, exts)[j])
    requires forall j :: 0 <= j < |ServersLines(AllItems(cs, codes, exts))| ==>
               '#' !in ServersLines(AllItems(cs, codes, exts))[j]
    ensures var file := ServersLines(AllItems(cs, codes, exts));
            TopLevel(CleanLines(file), 0, [], []) == Done(cs, |file|, [])
  {
    hide TopLevel, ServersLines, EvalServers, GoodItems, WalksMaps, Reachable, CleanLines, AllItems;
    var servers := AllItems(cs, codes, exts);
    ServersLinesNeat(servers);
    NeatKept(ServersLines(servers));
    PrintParseRoundTrip(servers);
    EvalAllItems(cs, codes, exts);
  }
}
