/** The chunked transfer coding: Request::unchunkData and the framing it undoes. */
module Chunked {
  import opened Text

  // ---- chunk sizes ----

  predicate IsHex(c: char) { '0' <= c <= '9' || 'a' <= c <= 'f' || 'A' <= c <= 'F' }

  function HexOf(c: char): (d: nat)
    requires IsHex(c)
    ensures d < 16
  {
    if '0' <= c <= '9' then c as int - '0' as int
    else if 'a' <= c <= 'f' then c as int - 'a' as int + 10
    else c as int - 'A' as int + 10
  }

  /** The size a size line announces: its leading hex digits, in 64-bit arithmetic. */
  function ChunkSize(line: string, acc: nat := 0): (size: nat)
    requires acc < TWO_64
    ensures size < TWO_64
    ensures line == "" ==> size == acc
  {
    if line != "" && IsHex(line[0]) then ChunkSize(line[1..], acc * 16 % TWO_64 + HexOf(line[0])) else acc
  }

  /** Hexadecimal notation in either case, with any number of leading zeros. */
  predicate Hex(digits: string) { forall c :: c in digits ==> IsHex(c) }

  function HexValue(digits: string): nat
    requires Hex(digits)
  {
    if digits == "" then 0 else 16 * HexValue(digits[..|digits| - 1]) + HexOf(digits[|digits| - 1])
  }

  /** Shifting in a digit commutes with cutting to 64 bits. */
  lemma ShiftDigit(v: nat, d: nat)
    requires d < 16
    ensures (v % TWO_64) * 16 % TWO_64 + d == (16 * v + d) % TWO_64
  {
    var r := v % TWO_64;
    var k, u := r * 16 / TWO_64, r * 16 % TWO_64;
    assert u % 16 == 0;
    assert 16 * v + d == (16 * (v / TWO_64) + k) * TWO_64 + (u + d);
    UniqueRemainder(16 * v + d, 16 * (v / TWO_64) + k, u + d);
  }

  lemma UniqueRemainder(n: nat, q: int, r: nat)
    requires n == q * TWO_64 + r && r < TWO_64
    ensures n % TWO_64 == r
  {
  }

  lemma HexSnoc(digits: string, c: char)
    requires Hex(digits) && IsHex(c)
    ensures Hex(digits + [c]) && HexValue(digits + [c]) == 16 * HexValue(digits) + HexOf(c)
  {
    assert (digits + [c])[..|digits|] == digits;
  }

  lemma {:induction false} ChunkSizeOfHex(done: string, digits: string, ext: string)
    requires Hex(done + digits)
    requires ext == "" || !IsHex(ext[0])
    ensures Hex(done) && ChunkSize(digits + ext, HexValue(done) % TWO_64) == HexValue(done + digits) % TWO_64
    decreases |digits|
  {
    hide HexValue, HexOf, IsHex;
    assert forall c :: c in done ==> c in done + digits;
    if digits == "" {
      assert digits + ext == ext && done + digits == done;
    } else {
      var c := digits[0];
      assert c in done + digits;
      assert done + digits == (done + [c]) + digits[1..];
      assert (digits + ext)[1..] == digits[1..] + ext;
      ChunkSizeOfHex(done + [c], digits[1..], ext);
      HexSnoc(done, c);
      ShiftDigit(HexValue(done), HexOf(c));
    }
  }

  lemma NoDigits()
    ensures Hex("") && HexValue("") == 0 && !IsHex(';')
  {
  }

  /** A size line denotes its hexadecimal value whatever the letter case and the chunk extension. */
  lemma SizeLineRoundTrip(digits: string, ext: string)
    requires Hex(digits) && HexValue(digits) < TWO_64
    requires ext == "" || ext[0] == ';'
    ensures ChunkSize(digits + ext) == HexValue(digits)
  {
    hide ChunkSize, HexOf, IsHex, Hex, HexValue;
    NoDigits();
    assert "" + digits == digits;
    ChunkSizeOfHex("", digits, ext);
  }

  // ---- decoding ----

  function Prepend(a: string, b: Option<string>): Option<string> {
    if b.None? then None else Some(a + b.value)
  }

  /** The data of the chunked body that starts at pos, or None where the code throws. */
  function Unchunk(s: string, pos: nat := 0): Option<string>
    requires pos <= |s|
    decreases |s| - pos
  {
    if pos == |s| then Some("")
    else
      var e := Find(s, CRLF, pos);
      if e < 0 then None
      else
        var size := ChunkSize(s[pos..e]);
        if size == 0 then Some("")
        else if e + 2 + size + 2 > |s| then None
        else Prepend(s[e + 2..e + 2 + size], Unchunk(s, e + 2 + size + 2))
  }

  /** One step of decoding: the end, a bad size line, the last chunk, a cut chunk, or a whole one. */
  lemma UnchunkStep(s: string, pos: nat)
    requires pos <= |s|
    ensures pos == |s| ==> Unchunk(s, pos) == Some("")
    ensures pos < |s| && Find(s, CRLF, pos) < 0 ==> Unchunk(s, pos) == None
    ensures pos < |s| && Find(s, CRLF, pos) >= 0 ==>
              var e := Find(s, CRLF, pos);
              var size := ChunkSize(s[pos..e]);
              Unchunk(s, pos) == if size == 0 then Some("") else if e + 2 + size + 2 > |s| then None
                                 else Prepend(s[e + 2..e + 2 + size], Unchunk(s, e + 2 + size + 2))
  {
    hide Find, ChunkSize, OccursAt, Prepend;
  }

  /**
   * unchunkData.  Sizes are size_t: the bound check wraps around at 2^64, and what it then
   * lets through is caught by append, which throws for more than max_size() characters.
   */
  method UnchunkData(chunked: string) returns (r: Option<string>)
    requires |chunked| <= STRING_MAX
    ensures r == Unchunk(chunked)
  {
    hide Find, ChunkSize, OccursAt, Unchunk, Prepend;
    var result := "";
    var pos, len := 0, |chunked|;
    PrependEnds("", Unchunk(chunked));
    while pos < len
      invariant 0 <= pos <= len && |result| <= pos
      invariant Unchunk(chunked) == Prepend(result, Unchunk(chunked, pos))
    {
      UnchunkStep(chunked, pos);
      PrependEnds(result, None);
      var endOfSize := Find(chunked, CRLF, pos);
      if endOfSize == -1 { return None; }
      var chunkSize := ReadSize(chunked[pos..endOfSize]);
      if chunkSize == 0 { break; }
      var dataStart := endOfSize + 2;
      if (dataStart + chunkSize + 2) % TWO_64 > len { return None; }
      if chunkSize > STRING_MAX - |result| { return None; }
      PrependTwice(result, chunked[dataStart..dataStart + chunkSize], Unchunk(chunked, dataStart + chunkSize + 2));
      result := result + chunked[dataStart..dataStart + chunkSize];
      pos := dataStart + chunkSize + 2;
    }
    r := Some(result);
    UnchunkStep(chunked, pos);
    PrependEnds(result, None);
  }

  lemma PrependEnds(a: string, b: Option<string>)
    ensures Prepend(a, None) == None && Prepend(a, Some("")) == Some(a)
    ensures a == "" ==> Prepend(a, b) == b
  {
    assert a + "" == a;
    if b.Some? { assert "" + b.value == b.value; }
  }

  lemma PrependTwice(a: string, b: string, c: Option<string>)
    ensures Prepend(a, Prepend(b, c)) == Prepend(a + b, c)
  {
    if c.Some? { assert a + (b + c.value) == (a + b) + c.value; }
  }

  lemma ShiftBound(size: nat, d: nat)
    requires size < TWO_64 && d < 16
    ensures size * 16 % TWO_64 + d < TWO_64
  {
    ShiftDigit(size, d);
    assert size % TWO_64 == size;
  }

  lemma SizeStep(line: string, i: nat, size: nat)
    requires i < |line| && size < TWO_64
    ensures IsHex(line[i]) ==> size * 16 % TWO_64 + HexOf(line[i]) < TWO_64
    ensures ChunkSize(line[i..], size) ==
            if IsHex(line[i]) then ChunkSize(line[i + 1..], size * 16 % TWO_64 + HexOf(line[i])) else size
  {
    hide HexOf, IsHex;
    var rest := line[i..];
    assert rest[0] == line[i] && rest[1..] == line[i + 1..];
    if IsHex(line[i]) { ShiftBound(size, HexOf(line[i])); }
  }

  lemma SizeOfNothing(line: string, size: nat)
    requires size < TWO_64
    ensures ChunkSize(line[|line|..], size) == size && line[0..] == line
  {
  }

  method ReadSize(line: string) returns (size: nat)
    ensures size == ChunkSize(line)
  {
    hide ChunkSize, HexOf, IsHex;
    size := 0;
    var i := 0;
    SizeOfNothing(line, 0);
    while i < |line|
      invariant 0 <= i <= |line| && size < TWO_64
      invariant ChunkSize(line[i..], size) == ChunkSize(line)
    {
      SizeStep(line, i, size);
      if !IsHex(line[i]) { return; }
      size := size * 16 % TWO_64 + HexOf(line[i]);
      i := i + 1;
    }
    SizeOfNothing(line, size);
  }

  /** Hexadecimal text with the given sixteen digits. */
  function HexText(n: nat, digits: string): string
    requires |digits| == 16
  {
    if n < 16 then [digits[n]] else HexText(n / 16, digits) + [digits[n % 16]]
  }

  /** These are the digits, and their values. */
  lemma DigitValues(k: nat)
    requires k < 16
    ensures IsHex("0123456789abcdef"[k]) && HexOf("0123456789abcdef"[k]) == k
    ensures IsHex("0123456789ABCDEF"[k]) && HexOf("0123456789ABCDEF"[k]) == k
  {
  }

  /** Sixteen digits with the values of their places, none of them a carriage return. */
  predicate DigitsInOrder(digits: string) {
    |digits| == 16 && forall k :: 0 <= k < 16 ==> IsHex(digits[k]) && HexOf(digits[k]) == k && digits[k] != '\r'
  }

  lemma BothCases()
    ensures DigitsInOrder("0123456789abcdef") && DigitsInOrder("0123456789ABCDEF")
  {
    hide IsHex, HexOf;
    forall k: nat | k < 16
      ensures var c, d := "0123456789abcdef"[k], "0123456789ABCDEF"[k];
              IsHex(c) && HexOf(c) == k && c != '\r' && IsHex(d) && HexOf(d) == k && d != '\r'
    {
      DigitValues(k);
      NotCr("0123456789abcdef"[k]);
      NotCr("0123456789ABCDEF"[k]);
    }
  }

  lemma {:induction false} HexTextValue(n: nat, digits: string)
    requires DigitsInOrder(digits)
    ensures Hex(HexText(n, digits)) && HexValue(HexText(n, digits)) == n && '\r' !in HexText(n, digits)
  {
    hide IsHex, HexOf, Hex, HexValue;
    NoDigits();
    if n < 16 {
      assert "" + [digits[n]] == [digits[n]];
      HexSnoc("", digits[n]);
    } else {
      HexTextValue(n / 16, digits);
      HexSnoc(HexText(n / 16, digits), digits[n % 16]);
    }
  }

  lemma NotCr(c: char)
    requires IsHex(c)
    ensures c != '\r' && c != ';'
  {
  }

  /** A size printed in hexadecimal, in either case and with any extension, is read back. */
  lemma PrintedSizeRead(n: nat, digits: string, ext: string)
    requires digits in {"0123456789abcdef", "0123456789ABCDEF"} && n < TWO_64 && (ext == "" || ext[0] == ';')
    ensures ChunkSize(HexText(n, digits) + ext) == n
  {
    hide ChunkSize, HexText, HexValue, Hex, DigitsInOrder;
    BothCases();
    HexTextValue(n, digits);
    SizeLineRoundTrip(HexText(n, digits), ext);
  }

  // ---- arbitrary input ----

  /** The slices that decoding from pos copies: pairs of start and end position. */
  function Slices(s: string, pos: nat): seq<(nat, nat)>
    requires pos <= |s| && Unchunk(s, pos).Some?
    decreases |s| - pos
  {
    if pos == |s| then []
    else
      var e := Find(s, CRLF, pos);
      var size := ChunkSize(s[pos..e]);
      if size == 0 then []
      else [(e + 2, e + 2 + size)] + Slices(s, e + 2 + size + 2)
  }

  /** Non-empty and in order, with at least three bytes before and two bytes after each. */
  predicate Apart(slices: seq<(nat, nat)>, lo: nat, hi: nat) {
    slices == [] || (
      && lo + 3 <= slices[0].0 < slices[0].1 && slices[0].1 + 2 <= hi
      && Apart(slices[1..], slices[0].1 + 2, hi))
  }

  function Gather(s: string, slices: seq<(nat, nat)>, lo: nat): string
    requires Apart(slices, lo, |s|)
  {
    if slices == [] then "" else s[slices[0].0..slices[0].1] + Gather(s, slices[1..], slices[0].1 + 2)
  }

  lemma {:induction false} SlicesApart(s: string, pos: nat)
    requires pos <= |s| && Unchunk(s, pos).Some?
    ensures Apart(Slices(s, pos), pos, |s|)
    decreases |s| - pos
  {
    hide Find, OccursAt, ChunkSize;
    if pos < |s| {
      var e := Find(s, CRLF, pos);
      var size := ChunkSize(s[pos..e]);
      if size > 0 {
        SlicesApart(s, e + 2 + size + 2);
      }
    }
  }

  lemma SlicesStep(s: string, pos: nat)
    requires pos <= |s| && Unchunk(s, pos).Some?
    ensures pos == |s| ==> Slices(s, pos) == []
    ensures pos < |s| ==>
              var e := Find(s, CRLF, pos);
              && e >= 0
              && var size := ChunkSize(s[pos..e]);
                 if size == 0 then Slices(s, pos) == []
                 else
                   && e + 2 + size + 2 <= |s| && Unchunk(s, e + 2 + size + 2).Some?
                   && Slices(s, pos) == [(e + 2, e + 2 + size)] + Slices(s, e + 2 + size + 2)
  {
    hide Find, OccursAt, ChunkSize;
  }

  lemma GatherStep(s: string, first: (nat, nat), more: seq<(nat, nat)>, lo: nat)
    requires Apart([first] + more, lo, |s|)
    ensures Apart(more, first.1 + 2, |s|) && Gather(s, [first] + more, lo) == s[first.0..first.1] + Gather(s, more, first.1 + 2)
  {
    assert ([first] + more)[1..] == more;
  }

  /** On every input, decoding fails or copies disjoint slices at increasing positions. */
  lemma {:induction false} DecodedIsSlices(s: string, pos: nat)
    requires pos <= |s| && Unchunk(s, pos).Some?
    ensures Apart(Slices(s, pos), pos, |s|)
    ensures Unchunk(s, pos).value == Gather(s, Slices(s, pos), pos)
    ensures |Unchunk(s, pos).value| + 5 * |Slices(s, pos)| <= |s| - pos
    decreases |s| - pos
  {
    hide Find, OccursAt, ChunkSize, Unchunk, Slices, Apart;
    SlicesApart(s, pos);
    UnchunkStep(s, pos);
    SlicesStep(s, pos);
    if pos < |s| {
      var e := Find(s, CRLF, pos);
      var size := ChunkSize(s[pos..e]);
      if size > 0 {
        var next := e + 2 + size + 2;
        DecodedIsSlices(s, next);
        GatherStep(s, (e + 2, e + 2 + size), Slices(s, next), pos);
      }
    }
  }

  // ---- canonical framing ----

  /** One chunk: any CRLF-free size line that announces the length of the data. */
  datatype Chunk = Chunk(line: string, data: string)

  predicate ValidChunk(c: Chunk) {
    Find(c.line, CRLF, 0) < 0 && ChunkSize(c.line) == |c.data| > 0
  }

  const LAST_CHUNK := "0\r\n\r\n"

  function Frame(chunks: seq<Chunk>): string {
    if chunks == [] then "" else chunks[0].line + CRLF + chunks[0].data + CRLF + Frame(chunks[1..])
  }

  function Data(chunks: seq<Chunk>): string {
    if chunks == [] then "" else chunks[0].data + Data(chunks[1..])
  }

  /** A size line ends at the first CRLF, even when it ends in CR itself. */
  lemma LineEnds(line: string, rest: string)
    requires Find(line, CRLF, 0) < 0
    ensures Find(line + CRLF + rest, CRLF, 0) == |line|
  {
    hide Find;
    var s := line + CRLF + rest;
    OccursInMiddle(line, CRLF, rest);
    forall i | 0 <= i < |line| ensures !OccursAt(s, CRLF, i) {
      if i + 2 <= |line| {
        assert s == "" + line + (CRLF + rest);
        OccursShift("", line, CRLF + rest, CRLF, i);
      } else {
        Mismatch(s, CRLF, i, 1);
      }
    }
  }

  /** Decoding does not look behind the position it starts from. */
  lemma {:induction false} UnchunkShift(a: string, s: string, pos: nat)
    requires pos <= |s|
    ensures Unchunk(a + s, |a| + pos) == Unchunk(s, pos)
    decreases |s| - pos
  {
    hide Find, ChunkSize, OccursAt, Unchunk, Prepend;
    UnchunkStep(s, pos);
    UnchunkStep(a + s, |a| + pos);
    if pos < |s| {
      FindShift(a, s, CRLF, pos);
      var e := Find(s, CRLF, pos);
      if e >= 0 {
        assert (a + s)[|a| + pos..|a| + e] == s[pos..e];
        var size := ChunkSize(s[pos..e]);
        if size > 0 && e + 2 + size + 2 <= |s| {
          assert (a + s)[|a| + e + 2..|a| + e + 2 + size] == s[e + 2..e + 2 + size];
          UnchunkShift(a, s, e + 2 + size + 2);
        }
      }
    }
  }

  lemma FindShift(a: string, s: string, p: string, pos: nat)
    requires pos <= |s|
    ensures Find(a + s, p, |a| + pos) == if Find(s, p, pos) < 0 then -1 else |a| + Find(s, p, pos)
  {
    hide Find, OccursAt;
    FindInSuffix(s, p, pos);
    FindInSuffix(a + s, p, |a| + pos);
    assert (a + s)[|a| + pos..] == s[pos..];
  }

  /** Decoding takes the framing of one chunk off the front. */
  lemma UnchunkFirst(c: Chunk, rest: string)
    requires ValidChunk(c)
    ensures Unchunk(c.line + CRLF + c.data + CRLF + rest) == Prepend(c.data, Unchunk(rest))
  {
    hide Find, ChunkSize, OccursAt;
    var front := c.line + CRLF + c.data + CRLF;
    var s := front + rest;
    assert s == c.line + CRLF + (c.data + CRLF + rest);
    LineEnds(c.line, c.data + CRLF + rest);
    var e, size := |c.line|, |c.data|;
    assert s[0..e] == c.line;
    assert s[e + 2..e + 2 + size] == c.data;
    UnchunkShift(front, rest, 0);
  }

  lemma {:induction false} UnchunkFrame(chunks: seq<Chunk>, rest: string)
    requires forall c :: c in chunks ==> ValidChunk(c)
    ensures Unchunk(Frame(chunks) + rest) == Prepend(Data(chunks), Unchunk(rest))
  {
    if chunks == [] {
      assert "" + rest == rest;
      PrependTwice("", "", Unchunk(rest));
      if Unchunk(rest).Some? { assert "" + Unchunk(rest).value == Unchunk(rest).value; }
    } else {
      var c, more := chunks[0], chunks[1..];
      assert c in chunks;
      assert Frame(chunks) + rest == c.line + CRLF + c.data + CRLF + (Frame(more) + rest);
      UnchunkFirst(c, Frame(more) + rest);
      UnchunkFrame(more, rest);
      PrependTwice(c.data, Data(more), Unchunk(rest));
    }
  }

  lemma LastChunkEnds(rest: string)
    ensures Unchunk(LAST_CHUNK + rest) == Some("")
  {
    var last := LAST_CHUNK + rest;
    assert last == "0" + CRLF + (CRLF + rest);
    LineEnds("0", CRLF + rest);
    assert last[0..1] == "0" && "0"[1..] == "";
  }

  /** Decoding undoes framing, for every list of chunks and whatever follows the last one. */
  lemma ChunkRoundTrip(chunks: seq<Chunk>, rest: string)
    requires forall c :: c in chunks ==> ValidChunk(c)
    ensures Unchunk(Frame(chunks) + LAST_CHUNK + rest) == Some(Data(chunks))
  {
    hide Find, ChunkSize, OccursAt;
    assert Frame(chunks) + LAST_CHUNK + rest == Frame(chunks) + (LAST_CHUNK + rest);
    UnchunkFrame(chunks, LAST_CHUNK + rest);
    LastChunkEnds(rest);
    assert Data(chunks) + "" == Data(chunks);
  }

  /** Chunks spelled in either letter case, with any extensions, decode like any others with the same data. */
  lemma SpellingIrrelevant(digits: seq<string>, exts: seq<string>, chunks: seq<Chunk>, others: seq<Chunk>)
    requires |digits| == |exts| == |chunks| == |others|
    requires forall i :: 0 <= i < |chunks| ==>
               && chunks[i].line == digits[i] + exts[i] && Find(chunks[i].line, CRLF, 0) < 0
               && Hex(digits[i]) && HexValue(digits[i]) == |chunks[i].data| > 0 && |chunks[i].data| < TWO_64
               && (exts[i] == "" || exts[i][0] == ';')
    requires forall i :: 0 <= i < |others| ==> ValidChunk(others[i]) && others[i].data == chunks[i].data
    ensures Unchunk(Frame(chunks) + LAST_CHUNK) == Unchunk(Frame(others) + LAST_CHUNK) == Some(Data(others))
  {
    forall c | c in chunks ensures ValidChunk(c) {
      var i :| 0 <= i < |chunks| && chunks[i] == c;
      SizeLineRoundTrip(digits[i], exts[i]);
    }
    ChunkRoundTrip(chunks, "");
    ChunkRoundTrip(others, "");
    assert Frame(chunks) + LAST_CHUNK + "" == Frame(chunks) + LAST_CHUNK;
    assert Frame(others) + LAST_CHUNK + "" == Frame(others) + LAST_CHUNK;
    SameData(chunks, others);
  }

  lemma {:induction false} SameData(a: seq<Chunk>, b: seq<Chunk>)
    requires |a| == |b| && forall i :: 0 <= i < |a| ==> a[i].data == b[i].data
    ensures Data(a) == Data(b)
  {
    if a != [] { SameData(a[1..], b[1..]); }
  }
}
