/** FileHandler.cpp: percent decoding, multipart bodies, and storing an upload. */
module Uploads {
  import opened Text
  import opened Chunked

  // ---- percent decoding ----

  /**
   * What "stream >> hex >> int" reads from two characters: leading space is skipped, a sign
   * is taken, one hex digit is enough, and "0x" alone is no number.
   */
  function HexPair(a: char, b: char): Option<int> {
    if a in SPACES then if IsHex(b) then Some(HexOf(b)) else None
    else if a == '+' then if IsHex(b) then Some(HexOf(b)) else None
    else if a == '-' then if IsHex(b) then Some(0 - HexOf(b)) else None
    else if !IsHex(a) then None
    else if IsHex(b) then Some(16 * HexOf(a) + HexOf(b))
    else if a == '0' && (b == 'x' || b == 'X') then None
    else Some(HexOf(a))
  }

  /** static_cast<char> */
  function ToByte(v: int): char {
    (v % 256) as char
  }

  function Decode(s: string): (r: string)
    ensures |r| <= |s|
  {
    if s == "" then ""
    else if s[0] == '%' && |s| > 2 && HexPair(s[1], s[2]).Some? then [ToByte(HexPair(s[1], s[2]).value)] + Decode(s[3..])
    else [if s[0] == '+' then ' ' else s[0]] + Decode(s[1..])
  }

  method UrlDecode(encoded: string) returns (decoded: string)
    ensures decoded == Decode(encoded)
  {
    hide HexPair, Decode;
    decoded := "";
    var i := 0;
    assert encoded[0..] == encoded;
    DecodeNothing();
    while i < |encoded|
      invariant 0 <= i <= |encoded|
      invariant decoded + Decode(encoded[i..]) == Decode(encoded)
      decreases |encoded| - i
    {
      DecodeAt(encoded, i, decoded);
      if encoded[i] == '%' && i + 2 < |encoded| {
        var value := HexPair(encoded[i + 1], encoded[i + 2]);
        if value.Some? {
          decoded := decoded + [ToByte(value.value)];
          i := i + 2;
        } else {
          decoded := decoded + [encoded[i]];
        }
      } else if encoded[i] == '+' {
        decoded := decoded + [' '];
      } else {
        decoded := decoded + [encoded[i]];
      }
      i := i + 1;
    }
  }

  lemma DecodeNothing()
    ensures Decode("") == ""
  {
  }

  /** One step of decoding, in positions of the whole string. */
  lemma DecodeAt(s: string, i: nat, done: string)
    requires i < |s|
    ensures done + Decode(s[i..]) ==
            if s[i] == '%' && i + 2 < |s| && HexPair(s[i + 1], s[i + 2]).Some?
            then (done + [ToByte(HexPair(s[i + 1], s[i + 2]).value)]) + Decode(s[i + 3..])
            else (done + [if s[i] == '+' then ' ' else s[i]]) + Decode(s[i + 1..])
  {
    hide HexPair;
    var rest := s[i..];
    assert rest[0] == s[i] && rest[1..] == s[i + 1..];
    if i + 2 < |s| { assert rest[1] == s[i + 1] && rest[2] == s[i + 2] && rest[3..] == s[i + 3..]; }
  }

  /** Section 2.3 of RFC 3986. */
  predicate Unreserved(c: char) {
    'a' <= c <= 'z' || 'A' <= c <= 'Z' || '0' <= c <= '9' || c == '-' || c == '.' || c == '_' || c == '~'
  }

  /** e spells s: unreserved bytes as they are, blanks as +, and any byte as %XX, hex in either case. */
  predicate Encodes(e: string, s: string) {
    if s == "" then e == ""
    else
      || (e != "" && Unreserved(s[0]) && e[0] == s[0] && Encodes(e[1..], s[1..]))
      || (e != "" && s[0] == ' ' && e[0] == '+' && Encodes(e[1..], s[1..]))
      || (|e| >= 3 && e[0] == '%' && IsHex(e[1]) && IsHex(e[2])
          && 16 * HexOf(e[1]) + HexOf(e[2]) == s[0] as int && Encodes(e[3..], s[1..]))
  }

  /** Percent decoding undoes every percent encoding. */
  lemma {:induction false} DecodeEncoded(e: string, s: string)
    requires Encodes(e, s)
    ensures Decode(e) == s
  {
    if s != "" {
      if e[0] == '%' && |e| >= 3 && IsHex(e[1]) && IsHex(e[2]) && Encodes(e[3..], s[1..])
         && 16 * HexOf(e[1]) + HexOf(e[2]) == s[0] as int {
        DecodeEncoded(e[3..], s[1..]);
        HexDigitsRead(e[1], e[2]);
        ByteBack(s[0]);
      } else {
        DecodeEncoded(e[1..], s[1..]);
      }
    }
  }

  lemma HexDigitsRead(a: char, b: char)
    requires IsHex(a) && IsHex(b)
    ensures HexPair(a, b) == Some(16 * HexOf(a) + HexOf(b))
  {
  }

  lemma ByteBack(c: char)
    requires c as int < 256
    ensures ToByte(c as int) == c
  {
  }

  function HexDigit(d: nat, upper: bool): (c: char)
    requires d < 16
    ensures IsHex(c) && HexOf(c) == d
  {
    if d < 10 then (d + '0' as int) as char
    else if upper then (d - 10 + 'A' as int) as char
    else (d - 10 + 'a' as int) as char
  }

  /** The canonical encoder of byte strings. */
  function Encode(s: string, upper: bool): string
    requires forall i :: 0 <= i < |s| ==> s[i] as int < 256
  {
    if s == "" then ""
    else (if Unreserved(s[0]) then [s[0]]
          else ['%', HexDigit(s[0] as int / 16, upper), HexDigit(s[0] as int % 16, upper)])
         + Encode(s[1..], upper)
  }

  /** Every byte string survives encoding and decoding, in either letter case. */
  lemma {:induction false} PercentRoundTrip(s: string, upper: bool)
    requires forall i :: 0 <= i < |s| ==> s[i] as int < 256
    ensures Decode(Encode(s, upper)) == s
  {
    EncodeEncodes(s, upper);
    DecodeEncoded(Encode(s, upper), s);
  }

  lemma {:induction false} EncodeEncodes(s: string, upper: bool)
    requires forall i :: 0 <= i < |s| ==> s[i] as int < 256
    ensures Encodes(Encode(s, upper), s)
  {
    if s != "" {
      EncodeEncodes(s[1..], upper);
      var e, rest := Encode(s, upper), Encode(s[1..], upper);
      if Unreserved(s[0]) {
        assert e[1..] == rest;
      } else {
        assert e[0] == '%' && e[3..] == rest;
      }
    }
  }

  /** Decoding changes nothing where there is neither '%' nor '+'. */
  lemma {:induction false} DecodePlain(s: string)
    requires '%' !in s && '+' !in s
    ensures Decode(s) == s
  {
    if s != "" {
      assert s[0] in s;
      DecodePlain(s[1..]);
    }
  }

  /** A percent sign that two characters of a number do not follow stands for itself. */
  lemma PercentKept(rest: string)
    requires |rest| < 2 || !(IsHex(rest[0]) || rest[0] in SPACES || rest[0] == '+' || rest[0] == '-')
    ensures Decode("%" + rest) == "%" + Decode(rest)
  {
    var s := "%" + rest;
    assert s[1..] == rest;
    if |rest| >= 2 { assert s[1] == rest[0]; }
  }

  // ---- file names ----

  predicate SafeChar(c: char) {
    'a' <= c <= 'z' || 'A' <= c <= 'Z' || '0' <= c <= '9' || c == '-' || c == '_' || c == '.' || c == ' '
  }

  function SafeOnly(s: string): (r: string)
    ensures forall c :: c in r ==> SafeChar(c) && c in s
  {
    if s == "" then "" else (if SafeChar(s[0]) then [s[0]] else []) + SafeOnly(s[1..])
  }

  lemma NothingSafe()
    ensures SafeOnly("") == ""
  {
  }

  /** One step of sanitizing, in positions of the whole name. */
  lemma SafeAt(s: string, i: nat, done: string)
    requires i < |s|
    ensures SafeChar(s[i]) ==> done + SafeOnly(s[i..]) == (done + [s[i]]) + SafeOnly(s[i + 1..])
    ensures !SafeChar(s[i]) ==> SafeOnly(s[i..]) == SafeOnly(s[i + 1..])
  {
    var rest := s[i..];
    assert rest[0] == s[i] && rest[1..] == s[i + 1..];
    var more := SafeOnly(s[i + 1..]);
    if SafeChar(s[i]) {
      assert SafeOnly(rest) == [s[i]] + more;
      assert done + ([s[i]] + more) == (done + [s[i]]) + more;
    } else {
      assert SafeOnly(rest) == "" + more;
      assert "" + more == more;
    }
  }

  method SanitizeFilename(filename: string) returns (safe: string)
    ensures safe == SafeOnly(filename)
  {
    hide SafeOnly;
    safe := "";
    var i := 0;
    assert filename[0..] == filename;
    NothingSafe();
    while i < |filename|
      invariant 0 <= i <= |filename|
      invariant safe + SafeOnly(filename[i..]) == SafeOnly(filename)
    {
      SafeAt(filename, i, safe);
      if SafeChar(filename[i]) { safe := safe + [filename[i]]; }
      i := i + 1;
    }
    assert filename[i..] == "" && safe + "" == safe;
  }

  /** A name is kept as it is exactly when every character is safe. */
  lemma {:induction false} SafeOnlyKeeps(s: string)
    ensures SafeOnly(s) == s <==> forall c :: c in s ==> SafeChar(c)
    ensures |SafeOnly(s)| <= |s|
  {
    if s != "" {
      SafeOnlyKeeps(s[1..]);
      assert s == [s[0]] + s[1..];
      if SafeChar(s[0]) {
        assert SafeOnly(s)[1..] == SafeOnly(s[1..]);
      }
    }
  }

  /** Letters, digits, and "-", "_", "." and space, by their ASCII codes. */
  predicate SafeCode(n: int) {
    97 <= n <= 122 || 65 <= n <= 90 || 48 <= n <= 57 || n in {45, 95, 46, 32}
  }

  /** Each character on its own is kept or dropped by its code. */
  lemma SafeOne(c: char)
    ensures SafeOnly([c]) == if SafeCode(c as int) then [c] else ""
  {
    assert [c][1..] == "";
  }

  /** And a name is made safe piece by piece. */
  lemma {:induction false} SafeAppend(a: string, b: string)
    ensures SafeOnly(a + b) == SafeOnly(a) + SafeOnly(b)
  {
    if a == "" {
      assert a + b == b;
    } else {
      assert (a + b)[1..] == a[1..] + b;
      SafeAppend(a[1..], b);
    }
  }

  /** So a safe name has no path separator in it, nor a control character. */
  lemma NoSeparatorKept(s: string)
    ensures '/' !in SafeOnly(s) && '\\' !in SafeOnly(s) && forall c :: c in SafeOnly(s) ==> 32 <= c as int < 127
  {
    hide SafeOnly;
  }

  // ---- multipart bodies ----

  datatype FileData = FileData(filename: string, content: string)

  function Quote(): string { "\"" }
  function FilenameKey(): string { "filename=\"" }
  function Disposition(): string { "Content-Disposition:" }

  /** extractBoundary: the delimiter, or "" when the header names none. */
  function ExtractBoundary(contentType: string): string {
    var p := Find(contentType, "boundary=", 0);
    if p >= 0 then "--" + contentType[p + 9..] else ""
  }

  /** The delimiter of a part body is found in the header that announced it. */
  lemma BoundaryExtracted(before: string, boundary: string)
    requires Find(before + "boundary=", "boundary=", 0) == |before|
    ensures ExtractBoundary(before + "boundary=" + boundary) == "--" + boundary
  {
    hide Find;
    FindStable(before + "boundary=", boundary, "boundary=");
    assert (before + "boundary=" + boundary)[|before| + 9..] == boundary;
  }

  /** parseMultipartData; positions that were not found go on as the wrapped numbers they are. */
  function ParseMultipart(body: string, boundary: string): Option<FileData> {
    var partStart := Find(body, boundary, 0);
    var headerStart := Find(body, Disposition(), partStart);
    var filenamePos := Find(body, FilenameKey(), headerStart);
    if partStart < 0 || headerStart < 0 || filenamePos < 0 then None
    else
      var filenameEnd := Find(body, Quote(), filenamePos + 10);
      var filename := SafeOnly(Substr(body, filenamePos + 10, filenameEnd - (filenamePos + 10)));
      var contentStart := Find(body, BLANK_LINE, filenameEnd) + 4;
      var contentEnd := Find(body, boundary, contentStart) - 2;
      Some(FileData(filename, Substr(body, contentStart, contentEnd - contentStart)))
  }

  lemma NoBoundary(contentType: string)
    requires !Contains(contentType, "boundary=")
    ensures ExtractBoundary(contentType) == ""
  {
  }

  /** The delimiter, then the disposition, then the key, each at or behind the one before. */
  ghost predicate PartShown(body: string, d: string) {
    exists i, j, k :: i <= j <= k && OccursAt(body, d, i) && OccursAt(body, "Content-Disposition:", j) && OccursAt(body, "filename=\"", k)
  }

  /** A part is found exactly in the bodies that show one. */
  lemma PartFoundExactly(body: string, d: string)
    ensures ParseMultipart(body, d).Some? <==> PartShown(body, d)
  {
    hide Find, OccursAt, SafeOnly, Substr, Disposition, FilenameKey;
    KeyLiterals();
    var i := Find(body, d, 0);
    var j := Find(body, Disposition(), i);
    var k := Find(body, FilenameKey(), j);
    if PartShown(body, d) {
      var a, b, c :| a <= b <= c && OccursAt(body, d, a) && OccursAt(body, "Content-Disposition:", b) && OccursAt(body, "filename=\"", c);
      OccursNatural(body, d, a);
    }
  }

  lemma OccursNatural(s: string, p: string, i: int)
    requires OccursAt(s, p, i)
    ensures i >= 0
  {
  }

  lemma KeyLiterals()
    ensures Disposition() == "Content-Disposition:" && FilenameKey() == "filename=\""
  {
  }

  /** Everything up to the file name: delimiter line, and the start of the disposition line. */
  function PartStart(delimiter: string, name: string): string {
    PartFront(delimiter) + name + Quote() + "; "
  }

  /** A body with one file part (section 4 of RFC 7578), and anything after the closing delimiter. */
  function PartBody(delimiter: string, name: string, filename: string, more: string, content: string, tail: string): string {
    PartStart(delimiter, name) + FilenameKey() + filename + Quote() + more + BLANK_LINE + content + CRLF + delimiter + tail
  }

  /** A field name whose closing quote makes it look like the file name parameter. */
  predicate EndsInKey(name: string) {
    |name| >= 9 && name[|name| - 9..] == "filename="
  }

  predicate GoodName(name: string) {
    '"' !in name && !EndsInKey(name)
  }

  /** Where the disposition is found: inside the delimiter, if it is there, or on the next line. */
  function DispositionAt(d: string): nat {
    if Find(d, Disposition(), 0) >= 0 then Find(d, Disposition(), 0) else |d| + 2
  }

  /** Inside the delimiter, no file name parameter follows a disposition. */
  predicate NoKeyAfterDisposition(d: string) {
    DispositionAt(d) >= |d| || Find(d, FilenameKey(), DispositionAt(d)) < 0
  }

  predicate GoodDelimiter(d: string) {
    d != "" && Free(d, {'\r', '\n'}) && NoKeyAfterDisposition(d)
  }

  lemma KeyShape()
    ensures |FilenameKey()| == 10 && FilenameKey()[9] == '"' && FilenameKey()[3] == 'e'
    ensures forall i :: 0 <= i < 9 ==> FilenameKey()[i] != '"' && FilenameKey()[i] != '\r' && FilenameKey()[i] != '\n'
    ensures FilenameKey()[..9] == "filename="
  {
  }

  /** The text up to the quote that opens the field name. */
  function PartFront(d: string): string {
    d + CRLF + Disposition() + " form-data; name=" + Quote()
  }

  lemma NotInFront(d: string, rest: string, i: int)
    requires 0 <= i < |PartFront(d)| && !OccursAt(d, FilenameKey(), i)
    ensures !OccursAt(PartFront(d) + rest, FilenameKey(), i)
  {
    hide Find, OccursAt, FilenameKey, PartFront;
    KeyShape();
    FrontShape(d);
    var front, key := PartFront(d), FilenameKey();
    var s, e, q := front + rest, i + 9, |front| - 1;
    if e < |d| {
      assert front == d + front[|d|..] && s == "" + d + (front[|d|..] + rest);
      OccursShift("", d, front[|d|..] + rest, key, i);
    } else if i <= |d| {
      Mismatch(s, key, i, |d| - i);
    } else if e < q {
      Mismatch(s, key, i, 9);
    } else if e == q {
      Mismatch(s, key, i, 3);
    } else {
      if q < |s| { Mismatch(s, key, i, q - i); }
    }
  }

  lemma NotInName(front: string, name: string, rest: string, i: int)
    requires GoodName(name) && |front| <= i <= |front| + |name|
    requires front != "" && front[|front| - 1] == '"'
    ensures !OccursAt(front + name + Quote() + rest, FilenameKey(), i)
  {
    hide OccursAt, FilenameKey, GoodName, Quote, Find;
    var s, q := front + name + Quote() + rest, |front| + |name|;
    NameInside(front, name, rest);
    if i + 9 < q {
      KeyNinth(s, i);
    } else if i + 9 == q {
      NameEnd(front, name, rest);
      NotTheKey(s, i);
    } else {
      KeyBefore(s, i, q);
    }
  }

  lemma KeyNinth(s: string, i: nat)
    requires i + 9 < |s| && s[i + 9] != '"'
    ensures !OccursAt(s, FilenameKey(), i)
  {
    KeyShape();
    Mismatch(s, FilenameKey(), i, 9);
  }

  lemma KeyBefore(s: string, i: nat, q: nat)
    requires i <= q < i + 9 && q < |s| && s[q] == '"'
    ensures !OccursAt(s, FilenameKey(), i)
  {
    KeyShape();
    Mismatch(s, FilenameKey(), i, q - i);
  }

  lemma NameInside(front: string, name: string, rest: string)
    requires GoodName(name)
    ensures var s := front + name + Quote() + rest;
            && |s| > |front| + |name| && s[|front| + |name|] == '"'
            && forall j :: |front| <= j < |front| + |name| ==> s[j] != '"'
  {
    var s := front + name + Quote() + rest;
    forall j | |front| <= j < |front| + |name| ensures s[j] != '"' { assert s[j] == name[j - |front|]; }
  }

  lemma NameEnd(front: string, name: string, rest: string)
    requires GoodName(name) && |name| >= 9
    ensures var s, q := front + name + Quote() + rest, |front| + |name|;
            s[q - 9..q] == name[|name| - 9..] != "filename="
  {
  }

  /** The file name parameter is not found before its place. */
  lemma FilenameNotBefore(d: string, name: string, rest: string, i: int)
    requires GoodName(name) && 0 <= i < |PartStart(d, name)| && !OccursAt(d, FilenameKey(), i)
    ensures !OccursAt(PartStart(d, name) + FilenameKey() + rest, FilenameKey(), i)
  {
    hide Find, OccursAt, FilenameKey, PartFront, GoodName, Quote;
    FrontShape(d);
    OneQuote();
    var front, start, key := PartFront(d), PartStart(d, name), FilenameKey();
    StartOfFront(d, name);
    var s := start + key + rest;
    if i < |front| {
      assert s == front + (name + Quote() + "; " + key + rest);
      NotInFront(d, name + Quote() + "; " + key + rest, i);
    } else if i <= |front| + |name| {
      assert s == front + name + Quote() + ("; " + key + rest);
      NotInName(front, name, "; " + key + rest, i);
    } else {
      AfterName(start, key, rest, i);
    }
  }

  lemma StartOfFront(d: string, name: string)
    ensures PartStart(d, name) == PartFront(d) + name + Quote() + "; "
  {
  }

  lemma NotTheKey(s: string, i: int)
    requires 0 <= i && i + 9 <= |s| && s[i..i + 9] != "filename="
    ensures !OccursAt(s, FilenameKey(), i)
  {
    hide FilenameKey;
    KeyShape();
    if i + 10 <= |s| { assert s[i..i + 9] == s[i..i + 10][..9]; }
  }

  lemma FrontShape(d: string)
    ensures var front := PartFront(d);
            |front| > |d| + 9 && front[..|d|] == d && front[|d|] == '\r'
            && front[|front| - 1] == '"' && front[|front| - 7] == ' '
            && forall i :: |d| <= i < |front| - 1 ==> front[i] != '"'
  {
    var lit := CRLF + Disposition() + " form-data; name=";
    assert PartFront(d) == d + lit + Quote();
    assert forall i :: 0 <= i < |lit| ==> lit[i] != '"';
    assert lit[|lit| - 6] == ' ';
  }

  /** Past the name only "; " and the key itself are left, and neither starts a key early. */
  lemma AfterName(start: string, key: string, rest: string, i: int)
    requires key == FilenameKey() && |start| >= 2 && start[|start| - 2..] == "; " && |start| - 2 <= i < |start|
    ensures !OccursAt(start + key + rest, key, i)
  {
    hide FilenameKey;
    KeyShape();
    var s := start + key + rest;
    assert s[i] == start[|start| - 2..][i - (|start| - 2)];
    FirstLetter();
    Mismatch(s, key, i, 0);
  }

  lemma FirstLetter()
    ensures FilenameKey() != "" && FilenameKey()[0] == 'f'
  {
  }

  /** The delimiter after the content is the first one. */
  lemma DelimiterAfterContent(content: string, d: string, tail: string)
    requires d != "" && Free(d, {'\r', '\n'}) && !Contains(content, d)
    ensures Find(content + CRLF + d + tail, d, 0) == |content| + 2
  {
    hide Find;
    var s := content + CRLF + d + tail;
    OccursInMiddle(content + CRLF, d, tail);
    forall i | 0 <= i < |content| + 2 ensures !OccursAt(s, d, i) {
      if i + |d| <= |content| {
        assert s == "" + content + (CRLF + d + tail);
        OccursShift("", content, CRLF + d + tail, d, i);
      } else {
        var j := if i <= |content| then |content| - i else 0;
        assert d[j] in d;
        Mismatch(s, d, i, j);
      }
    }
  }

  /** Searching on from the end of a known prefix. */
  lemma FindOn(a: string, b: string, p: string)
    ensures Find(a + b, p, |a|) == if Find(b, p, 0) < 0 then -1 else |a| + Find(b, p, 0)
  {
    hide Find;
    FindInSuffix(a + b, p, |a|);
    assert (a + b)[|a|..] == b;
  }

  lemma QuoteAfterName(filename: string, rest: string)
    requires '"' !in filename
    ensures Find(filename + Quote() + rest, Quote(), 0) == |filename|
  {
    hide Find;
    assert filename + Quote() + rest == filename + (Quote() + rest);
    FindAfterFreeText(filename, Quote() + rest, Quote());
    assert OccursAt(Quote() + rest, Quote(), 0);
  }

  lemma BlankAfterHeaders(more: string, rest: string)
    requires Find(more + BLANK_LINE, BLANK_LINE, 0) == |more|
    ensures Find(Quote() + more + BLANK_LINE + rest, BLANK_LINE, 0) == 1 + |more|
  {
    hide Find;
    FindStable(more + BLANK_LINE, rest, BLANK_LINE);
    assert Quote() + more + BLANK_LINE + rest == Quote() + (more + BLANK_LINE + rest);
    FindAfterFreeText(Quote(), more + BLANK_LINE + rest, BLANK_LINE);
  }

  /** The positions parseMultipartData finds in a part body. */
  lemma PartPositions(d: string, name: string, filename: string, more: string, content: string, tail: string)
    requires GoodDelimiter(d) && GoodName(name) && '"' !in filename
    requires Find(more + BLANK_LINE, BLANK_LINE, 0) == |more| && !Contains(content, d)
    ensures var body, p := PartBody(d, name, filename, more, content, tail), |PartStart(d, name)|;
            var fe := p + 10 + |filename|;
            var cs := fe + 1 + |more| + 4;
            && Find(body, d, 0) == 0 && Find(body, Disposition(), 0) == DispositionAt(d)
            && Find(body, FilenameKey(), DispositionAt(d)) == p
            && Find(body, Quote(), p + 10) == fe && Find(body, BLANK_LINE, fe) == cs - 4
            && Find(body, d, cs) == cs + |content| + 2
            && body[p + 10..fe] == filename && body[cs..cs + |content|] == content
  {
    hide Find, OccursAt, GoodDelimiter, GoodName, FilenameKey, Disposition, PartStart, Quote, DispositionAt;
    KeyShape();
    var start, key, q, p := PartStart(d, name), FilenameKey(), Quote(), |PartStart(d, name)|;
    var r4 := content + CRLF + d + tail;
    var body := PartBody(d, name, filename, more, content, tail);
    LastFour(start + key + filename + q + more + BLANK_LINE, content, d, tail);
    Shapes(start, key, filename, q, more, r4);
    OneQuote();
    DelimiterFacts(d);
    StartPositions(d, name, key + (filename + q + (more + BLANK_LINE + r4)));
    KeyPosition(d, name, filename + q + (more + BLANK_LINE + r4));
    QuoteAfterName(filename, more + BLANK_LINE + r4);
    FindOn(start + key, filename + q + (more + BLANK_LINE + r4), q);
    BlankAfterHeaders(more, r4);
    FindOn(start + key + filename, q + more + BLANK_LINE + r4, BLANK_LINE);
    DelimiterAfterContent(content, d, tail);
    FindOn(start + key + filename + q + more + BLANK_LINE, r4, d);
  }

  lemma LastFour(x: string, content: string, d: string, tail: string)
    ensures x + content + CRLF + d + tail == x + (content + CRLF + d + tail)
    ensures (x + content + CRLF + d + tail)[|x|..|x| + |content|] == content
  {
  }

  lemma Shapes(start: string, key: string, f: string, q: string, m: string, r: string)
    ensures var body := start + key + f + q + m + BLANK_LINE + r;
            && body == start + (key + (f + q + (m + BLANK_LINE + r)))
            && body == start + key + (f + q + (m + BLANK_LINE + r))
            && body == (start + key + f) + (q + m + BLANK_LINE + r)
            && body[|start| + |key|..|start| + |key| + |f|] == f
  {
  }

  lemma KeyPosition(d: string, name: string, rest: string)
    requires GoodDelimiter(d) && GoodName(name)
    ensures Find(PartStart(d, name) + FilenameKey() + rest, FilenameKey(), DispositionAt(d)) == |PartStart(d, name)|
  {
    hide Find, OccursAt, GoodName, FilenameKey, Disposition, Quote;
    var start, key := PartStart(d, name), FilenameKey();
    OccursInMiddle(start, key, rest);
    forall i | DispositionAt(d) <= i < |start| ensures !OccursAt(start + key + rest, key, i) {
      NoKeyThere(d, i);
      FilenameNotBefore(d, name, rest, i);
    }
    FrontShape(d);
    DispositionBound(d);
  }

  lemma NoKeyThere(d: string, i: int)
    requires GoodDelimiter(d) && DispositionAt(d) <= i
    ensures !OccursAt(d, FilenameKey(), i)
  {
    hide Find, FilenameKey, Disposition;
    KeyShape();
  }

  lemma DispositionBound(d: string)
    ensures DispositionAt(d) <= |d| + 2
  {
    hide Find, Disposition;
  }

  lemma OneQuote()
    ensures |Quote()| == 1
  {
  }

  lemma DelimiterFacts(d: string)
    requires GoodDelimiter(d)
    ensures d != "" && Free(d, {'\r', '\n'})
  {
  }

  lemma StartSplit(d: string, disposition: string, q: string, name: string, rest: string)
    ensures var body := d + CRLF + disposition + " form-data; name=" + q + name + q + "; " + rest;
            var after := " form-data; name=" + q + name + q + "; " + rest;
            body == "" + d + (CRLF + disposition + after) && body == (d + CRLF) + disposition + after
  {
  }

  /** The disposition is not found before its place, unless the delimiter has it. */
  lemma DispositionPlace(d: string, after: string)
    requires Free(d, {'\r', '\n'})
    ensures Find(d + CRLF + Disposition() + after, Disposition(), 0) == DispositionAt(d)
  {
    hide Find, OccursAt, Disposition;
    DispositionShape();
    var s, p := d + CRLF + Disposition() + after, Disposition();
    OccursInMiddle(d + CRLF, p, after);
    if Find(d, p, 0) >= 0 {
      assert s == d + (CRLF + p + after);
      FindStable(d, CRLF + p + after, p);
    } else {
      forall i | 0 <= i < |d| + 2 ensures !OccursAt(s, p, i) {
        if i + |p| <= |d| {
          assert s == "" + d + (CRLF + p + after);
          OccursShift("", d, CRLF + p + after, p, i);
        } else {
          Mismatch(s, p, i, if i <= |d| then |d| - i else 0);
        }
      }
    }
  }

  lemma DispositionShape()
    ensures Disposition() != "" && forall i :: 0 <= i < |Disposition()| ==> Disposition()[i] != '\r' && Disposition()[i] != '\n'
  {
  }

  lemma StartPositions(d: string, name: string, rest: string)
    requires d != "" && Free(d, {'\r', '\n'})
    ensures var body := PartStart(d, name) + rest;
            Find(body, d, 0) == 0 && Find(body, Disposition(), 0) == DispositionAt(d) <= |d| + 2 <= |PartStart(d, name)|
  {
    hide Find, Disposition, Quote, OccursAt, DispositionAt;
    var body, after := PartStart(d, name) + rest, " form-data; name=" + Quote() + name + Quote() + "; " + rest;
    StartSplit(d, Disposition(), Quote(), name, rest);
    OccursInMiddle("", d, CRLF + Disposition() + after);
    DispositionPlace(d, after);
    DispositionBound(d);
  }

  lemma SubstrBetween(s: string, from: nat, to: nat)
    requires from <= to <= |s|
    ensures Substr(s, from, to - from) == s[from..to]
  {
  }

  lemma ParsedFrom(body: string, d: string, p: nat, fe: nat, cs: nat, ce: nat)
    requires Find(body, d, 0) >= 0 && Find(body, Disposition(), Find(body, d, 0)) >= 0
    requires Find(body, FilenameKey(), Find(body, Disposition(), Find(body, d, 0))) == p
    requires p + 10 <= fe <= |body| && cs <= ce <= |body|
    requires Find(body, Quote(), p + 10) == fe && Find(body, BLANK_LINE, fe) == cs - 4 && Find(body, d, cs) == ce + 2
    ensures ParseMultipart(body, d) == Some(FileData(SafeOnly(body[p + 10..fe]), body[cs..ce]))
  {
    hide Find, OccursAt, FilenameKey, Disposition, Quote, SafeOnly, Substr;
    SubstrBetween(body, p + 10, fe);
    SubstrBetween(body, cs, ce);
  }

  /** Parsing a canonical part body gives back the content, and the file name made safe. */
  lemma MultipartRoundTrip(d: string, name: string, filename: string, more: string, content: string, tail: string)
    requires GoodDelimiter(d) && GoodName(name) && '"' !in filename
    requires Find(more + BLANK_LINE, BLANK_LINE, 0) == |more| && !Contains(content, d)
    ensures ParseMultipart(PartBody(d, name, filename, more, content, tail), d)
            == Some(FileData(SafeOnly(filename), content))
  {
    hide Find, OccursAt, Contains, GoodDelimiter, GoodName, FilenameKey, Disposition, PartStart, Quote, PartBody, SafeOnly, ParseMultipart;
    PartPositions(d, name, filename, more, content, tail);
    var body, p := PartBody(d, name, filename, more, content, tail), |PartStart(d, name)|;
    var cs := p + 10 + |filename| + 1 + |more| + 4;
    ParsedFrom(body, d, p, p + 10 + |filename|, cs, cs + |content|);
  }

  // ---- exactly which parts are read back ----

  /** The part is read back, if it is one that can be written. */
  predicate ReadBack(d: string, name: string, filename: string, more: string, content: string, tail: string) {
    '"' !in filename && Find(more + BLANK_LINE, BLANK_LINE, 0) == |more| && !Contains(content, d) ==>
      ParseMultipart(PartBody(d, name, filename, more, content, tail), d) == Some(FileData(SafeOnly(filename), content))
  }

  /** The part up to the quote that opens the file name. */
  function Opening(d: string, name: string): string { PartStart(d, name) + FilenameKey() }

  /** The key is found before its place: in the delimiter, or in the field name. */
  predicate KeyEarly(d: string, name: string) {
    Find(Opening(d, name), FilenameKey(), DispositionAt(d)) < |PartStart(d, name)|
  }

  lemma OpeningHasKey(d: string, name: string)
    ensures DispositionAt(d) <= Find(Opening(d, name), FilenameKey(), DispositionAt(d)) <= |PartStart(d, name)|
    ensures |Opening(d, name)| == |PartStart(d, name)| + 10 && Opening(d, name)[|Opening(d, name)| - 1] == '"'
    ensures |d| + 2 <= |PartStart(d, name)|
  {
    hide Find, FilenameKey, DispositionAt, PartFront;
    KeyShape();
    FrontShape(d);
    StartOfFront(d, name);
    DispositionBound(d);
    assert PartStart(d, name) + FilenameKey() + "" == Opening(d, name);
    OccursInMiddle(PartStart(d, name), FilenameKey(), "");
  }

  /** That is so exactly when the delimiter holds a key behind a disposition, or the name ends in one. */
  lemma KeyEarlyExactly(d: string, name: string)
    requires d != "" && Free(d, {'\r', '\n'}) && '"' !in name
    ensures KeyEarly(d, name) <==> !NoKeyAfterDisposition(d) || EndsInKey(name)
  {
    hide Find, OccursAt, FilenameKey, Disposition, Quote, DispositionAt, NoKeyAfterDisposition, EndsInKey, PartStart;
    OpeningHasKey(d, name);
    if !NoKeyAfterDisposition(d) {
      KeyInDelimiter(d, name);
    } else if EndsInKey(name) {
      KeyInName(d, name);
    } else {
      assert PartStart(d, name) + FilenameKey() + "" == Opening(d, name);
      KeyPosition(d, name, "");
    }
  }

  lemma KeyInDelimiter(d: string, name: string)
    requires !NoKeyAfterDisposition(d)
    ensures Find(Opening(d, name), FilenameKey(), DispositionAt(d)) < |d|
  {
    hide Find, FilenameKey, DispositionAt;
    KeyShape();
    var more := CRLF + Disposition() + " form-data; name=" + Quote() + name + Quote() + "; " + FilenameKey();
    assert Opening(d, name) == d + more;
    FindStableFrom(d, more, FilenameKey(), DispositionAt(d));
  }

  /** The quote that closes such a name completes the key. */
  lemma KeyInName(d: string, name: string)
    requires EndsInKey(name)
    ensures Find(Opening(d, name), FilenameKey(), DispositionAt(d)) <= |PartFront(d)| + |name| - 9
    ensures |PartFront(d)| + |name| - 9 < |PartStart(d, name)| - 2
  {
    hide Find, OccursAt, DispositionAt, PartFront;
    FrontShape(d);
    DispositionBound(d);
    var front, cut := PartFront(d), name[..|name| - 9];
    StartOfFront(d, name);
    assert name == cut + "filename=" && "filename=" + Quote() == FilenameKey();
    assert Opening(d, name) == (front + cut) + FilenameKey() + ("; " + FilenameKey());
    OccursInMiddle(front + cut, FilenameKey(), "; " + FilenameKey());
  }

  /** The file name that is then read: the text behind the early key, which is not the part's file name. */
  function NameRead(d: string, name: string): string {
    var x := Opening(d, name);
    var key := Find(x, FilenameKey(), DispositionAt(d));
    var quote := Find(x, Quote(), key + 10);
    if 0 <= key && key + 10 <= quote then SafeOnly(x[key + 10..quote]) else ""
  }

  lemma FindStableFrom(s: string, t: string, p: string, from: nat)
    requires from <= |s| && Find(s, p, from) >= 0
    ensures Find(s + t, p, from) == Find(s, p, from)
  {
    hide Find;
    FindInSuffix(s, p, from);
    FindInSuffix(s + t, p, from);
    assert (s + t)[from..] == s[from..] + t;
    FindStable(s[from..], t, p);
  }

  lemma ClosingQuote(x: string, from: nat)
    requires from < |x| && x[|x| - 1] == '"'
    ensures from <= Find(x, Quote(), from) < |x|
  {
    hide Find;
    assert x == x[..|x| - 1] + Quote() + "";
    OccursInMiddle(x[..|x| - 1], Quote(), "");
  }

  /** Whatever follows the opening. */
  lemma NameFromOpening(d: string, name: string, rest: string)
    requires d != "" && Free(d, {'\r', '\n'}) && KeyEarly(d, name)
    ensures var p := ParseMultipart(Opening(d, name) + rest, d);
            p.Some? && p.value.filename == NameRead(d, name)
  {
    hide Find, OccursAt, FilenameKey, Disposition, Quote, SafeOnly, Substr, DispositionAt, PartStart;
    var x, body := Opening(d, name), Opening(d, name) + rest;
    OpeningHasKey(d, name);
    assert body == PartStart(d, name) + (FilenameKey() + rest);
    StartPositions(d, name, FilenameKey() + rest);
    FindStableFrom(x, rest, FilenameKey(), DispositionAt(d));
    var key := Find(x, FilenameKey(), DispositionAt(d));
    ClosingQuote(x, key + 10);
    var quote := Find(x, Quote(), key + 10);
    FindStableFrom(x, rest, Quote(), key + 10);
    SubstrBetween(body, key + 10, quote);
    assert body[key + 10..quote] == x[key + 10..quote];
  }

  /** The written part of an otherwise empty file called filename. */
  lemma EmptyFileRead(d: string, name: string, filename: string)
    requires d != "" && Free(d, {'\r', '\n'}) && KeyEarly(d, name)
    requires '"' !in filename && ReadBack(d, name, filename, "", "", "")
    ensures NameRead(d, name) == SafeOnly(filename)
  {
    hide Find, OccursAt, FilenameKey, Quote, SafeOnly, PartStart, KeyEarly, NameRead, ParseMultipart;
    var rest := filename + Quote() + "" + BLANK_LINE + "" + CRLF + d + "";
    OpeningRest(PartStart(d, name), FilenameKey(), filename, Quote(), d);
    assert PartBody(d, name, filename, "", "", "") == Opening(d, name) + rest;
    NameFromOpening(d, name, rest);
    EmptyFits(d);
  }

  lemma OpeningRest(start: string, key: string, f: string, q: string, d: string)
    ensures start + key + f + q + "" + BLANK_LINE + "" + CRLF + d + ""
            == (start + key) + (f + q + "" + BLANK_LINE + "" + CRLF + d + "")
  {
  }

  lemma EmptyFits(d: string)
    requires d != ""
    ensures Find("" + BLANK_LINE, BLANK_LINE, 0) == |""| && !Contains("", d)
  {
    assert "" + BLANK_LINE == BLANK_LINE;
  }

  /**
   * For a boundary without line ends and a field name without quotes, every part is read back
   * exactly when the delimiter does not hold a disposition with a file name parameter behind it,
   * and the name does not end in "filename=".
   */
  lemma MultipartExactly(d: string, name: string)
    requires d != "" && Free(d, {'\r', '\n'}) && '"' !in name
    ensures (forall filename, more, content, tail :: ReadBack(d, name, filename, more, content, tail))
            <==> NoKeyAfterDisposition(d) && !EndsInKey(name)
  {
    hide Find, Contains, NoKeyAfterDisposition, EndsInKey, ParseMultipart, PartBody, SafeOnly, ReadBack, KeyEarly, NameRead;
    KeyEarlyExactly(d, name);
    if NoKeyAfterDisposition(d) && !EndsInKey(name) {
      forall filename, more, content, tail ensures ReadBack(d, name, filename, more, content, tail) {
        GoodReadBack(d, name, filename, more, content, tail);
      }
    } else if ReadBack(d, name, "a", "", "", "") {
      EmptyFileRead(d, name, "a");
      SafeLetter('a');
      SafeLetter('b');
      if ReadBack(d, name, "b", "", "", "") { EmptyFileRead(d, name, "b"); }
    }
  }

  lemma GoodReadBack(d: string, name: string, filename: string, more: string, content: string, tail: string)
    requires GoodDelimiter(d) && GoodName(name)
    ensures ReadBack(d, name, filename, more, content, tail)
  {
    hide Find, Contains, GoodDelimiter, GoodName, ParseMultipart, PartBody, SafeOnly;
    if '"' !in filename && Find(more + BLANK_LINE, BLANK_LINE, 0) == |more| && !Contains(content, d) {
      MultipartRoundTrip(d, name, filename, more, content, tail);
    }
  }

  lemma SafeLetter(c: char)
    requires 'a' <= c <= 'z'
    ensures SafeOnly([c]) == [c]
  {
    assert [c][1..] == "";
  }

  /** A delimiter that breaks it. */
  lemma BreakingDelimiter()
    ensures var d := "--" + Disposition() + FilenameKey() + "x";
            Free(d, {'\r', '\n'}) && !NoKeyAfterDisposition(d)
  {
    hide Find, OccursAt;
    var d := "--" + Disposition() + FilenameKey() + "x";
    assert d == "--" + Disposition() + (FilenameKey() + "x");
    OccursInMiddle("--", Disposition(), FilenameKey() + "x");
    assert d == ("--" + Disposition()) + FilenameKey() + "x";
    OccursInMiddle("--" + Disposition(), FilenameKey(), "x");
  }

  /**
   * A name that breaks it, under every boundary that is not broken itself: the file name that is
   * read is " filename", whatever the part's file name and content are.
   */
  lemma BreakingName(d: string, rest: string)
    requires GoodDelimiter(d)
    ensures EndsInKey("filename=") && '"' !in "filename="
    ensures var p := ParseMultipart(Opening(d, "filename=") + rest, d);
            p.Some? && p.value.filename == " filename"
  {
    hide Find, OccursAt, FilenameKey, Disposition, Quote, SafeOnly, PartFront, GoodDelimiter, KeyEarly, ParseMultipart;
    DelimiterFacts(d);
    KeyEarlyExactly(d, "filename=");
    NameFromOpening(d, "filename=", rest);
    KeyExactlyInName(d, "filename=");
    BehindTheKey(d);
    SafeRest();
  }

  /** The early key in a name is at its end. */
  lemma KeyExactlyInName(d: string, name: string)
    requires GoodDelimiter(d) && '"' !in name && EndsInKey(name)
    ensures Find(Opening(d, name), FilenameKey(), DispositionAt(d)) == |PartFront(d)| + |name| - 9
  {
    hide Find, OccursAt, FilenameKey, Quote, PartFront, DispositionAt;
    KeyInName(d, name);
    OpeningHasKey(d, name);
    StartOfFront(d, name);
    OneQuote();
    var x, front := Opening(d, name), PartFront(d);
    var k := Find(x, FilenameKey(), DispositionAt(d));
    assert x == front + (name + Quote() + "; " + FilenameKey());
    if k < |front| {
      NoKeyThere(d, k);
      NotInFront(d, name + Quote() + "; " + FilenameKey(), k);
    } else if k < |front| + |name| - 9 {
      assert x[k + 9] == name[k + 9 - |front|];
      KeyNinth(x, k);
    }
  }

  lemma BehindTheKey(d: string)
    requires Find(Opening(d, "filename="), FilenameKey(), DispositionAt(d)) == |PartFront(d)|
    ensures NameRead(d, "filename=") == SafeOnly("; filename=")
  {
    hide Find, OccursAt, DispositionAt, PartFront, SafeOnly;
    var x, front := Opening(d, "filename="), PartFront(d);
    StartOfFront(d, "filename=");
    assert x == (front + "filename=" + Quote()) + ("; filename=" + Quote());
    FindOn(front + "filename=" + Quote(), "; filename=" + Quote(), Quote());
    FindAfterFreeText("; filename=", Quote(), Quote());
    OccursInMiddle("", Quote(), "");
    assert "" + Quote() + "" == Quote();
    assert x[|front| + 10..|front| + 21] == "; filename=";
  }

  lemma SafeRest()
    ensures SafeOnly("; filename=") == " filename"
  {
    hide SafeOnly;
    var t := " filename" + "=";
    UnsafeFirst(';', t);
    assert [';'] + t == "; filename=";
    UnsafeLast(" filename", '=');
  }

  lemma UnsafeFirst(c: char, s: string)
    requires !SafeChar(c)
    ensures SafeOnly([c] + s) == SafeOnly(s)
  {
    assert ([c] + s)[1..] == s && [] + SafeOnly(s) == SafeOnly(s);
  }

  lemma {:induction false} UnsafeLast(s: string, c: char)
    requires (forall x :: x in s ==> SafeChar(x)) && !SafeChar(c)
    ensures SafeOnly(s + [c]) == s
  {
    if s == "" {
      UnsafeFirst(c, "");
      assert s + [c] == [c] + "";
    } else {
      UnsafeLast(s[1..], c);
      assert (s + [c])[1..] == s[1..] + [c] && (s + [c])[0] == s[0];
    }
  }

  // ---- storing ----

  const CHUNK_SIZE: nat := 65536

  /** Stored, given up after a write error, or still writing when the answers end. */
  datatype Saving = Saved | WriteError | Unfinished

  /** What the writes have stored: each takes no more than it is offered, and may take nothing. */
  function StoredBy(size: nat, writes: seq<int>): (n: nat)
    requires forall w :: w in writes ==> w >= 0
    ensures n <= size
  {
    if writes == [] then 0
    else
      var front, w := writes[..|writes| - 1], writes[|writes| - 1];
      assert w in writes && forall x :: x in front ==> x in writes;
      var before := StoredBy(size, front);
      var chunk := if size - before < CHUNK_SIZE then size - before else CHUNK_SIZE;
      before + if w < chunk then w else chunk
  }

  /** saveUploadedFile on an opened file; writes are the answers of write, negative for an error. */
  method SaveUploadedFile(content: string, writes: seq<int>) returns (saving: Saving, stored: string, used: nat)
    ensures used <= |writes| && forall w :: w in writes[..used] ==> w >= 0
    ensures stored == content[..StoredBy(|content|, writes[..used])]
    ensures saving.Saved? <==> stored == content
    ensures saving.WriteError? ==> used < |writes| && writes[used] < 0
    ensures saving.Unfinished? ==> used == |writes|
  {
    var remaining, offset := |content|, 0;
    stored, used := "", 0;
    while remaining > 0
      invariant 0 <= offset && 0 <= remaining && offset + remaining == |content|
      invariant used <= |writes| && forall w :: w in writes[..used] ==> w >= 0
      invariant offset == StoredBy(|content|, writes[..used]) && stored == content[..offset]
      decreases |writes| - used
    {
      if used == |writes| { return Unfinished, stored, used; }
      var chunk := if remaining < CHUNK_SIZE then remaining else CHUNK_SIZE;
      var written := if writes[used] < chunk then writes[used] else chunk;
      if written < 0 { return WriteError, stored, used; }
      assert writes[..used + 1] == writes[..used] + [writes[used]];
      assert writes[..used + 1][..used] == writes[..used];
      assert content[..offset] + content[offset..offset + written] == content[..offset + written];
      stored := stored + content[offset..offset + written];
      offset, remaining, used := offset + written, remaining - written, used + 1;
    }
    assert content[..offset] == content;
    saving := Saved;
  }

  /** When every write makes progress, enough of them store everything. */
  lemma {:induction false} ProgressStores(size: nat, writes: seq<int>)
    requires forall w :: w in writes ==> w >= 1
    ensures StoredBy(size, writes) >= if |writes| < size then |writes| else size
    decreases |writes|
  {
    if writes != [] {
      var front := writes[..|writes| - 1];
      assert forall w :: w in front ==> w in writes;
      assert writes[|writes| - 1] in writes;
      ProgressStores(size, front);
    }
  }
}
