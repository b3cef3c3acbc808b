/** Header blocks: what Request::parseHeaders reads out of a byte string. */
module Headers {
  import opened Text

  type HeaderMap = map<string, string>
  type Entry = (string, string)

  /** std::map lookup with "" for a missing name, as Request::getHeader does. */
  function Get(h: HeaderMap, name: string): string {
    if name in h then h[name] else ""
  }

  /** The entry one line contributes: none, or one name and value. */
  function LineEntry(line: string): seq<Entry> {
    if line == "" || line == "\r" then []
    else if line[|line| - 1] == '\r' then TextEntry(line[..|line| - 1])
    else TextEntry(line)
  }

  function TextEntry(text: string): seq<Entry> {
    var colon := Find(text, ": ", 0);
    if colon < 0 then []
    else
      var key := Trim(text[..colon], BLANKS);
      if key == "" then [] else [(key, Trim(text[colon + 2..], BLANKS))]
  }

  /** The entries of a block, in order, one line at a time as getline yields them. */
  function Entries(block: string): seq<Entry> {
    if block == "" then []
    else
      var k := Find(block, "\n", 0);
      if k < 0 then LineEntry(block) else LineEntry(block[..k]) + Entries(block[k + 1..])
  }

  /** A later entry replaces an earlier one of the same name. */
  function Store(es: seq<Entry>, h: HeaderMap): HeaderMap {
    if es == [] then h else Store(es[1..], h[es[0].0 := es[0].1])
  }

  /** What a client announces with these headers. */
  function HeadersOf(block: string): HeaderMap {
    Store(Entries(block), map[])
  }

  // ---- lines and entries ----

  lemma LineFeedFirst(a: string, b: string)
    requires '\n' !in a
    ensures Find(a + "\n" + b, "\n", 0) == |a|
  {
    hide Find;
    assert a + "\n" + b == a + ("\n" + b);
    FindAfterFreeText(a, "\n" + b, "\n");
    OccursInMiddle("", "\n", b);
    assert "" + "\n" + b == "\n" + b;
  }

  /** A block that starts with a whole line is that line's entry and the entries of the rest. */
  lemma EntriesCons(line: string, rest: string)
    requires '\n' !in line
    ensures Entries(line + "\n" + rest) == LineEntry(line) + Entries(rest)
  {
    hide Find;
    LineFeedFirst(line, rest);
    var block := line + "\n" + rest;
    assert block[..|line|] == line && block[|line| + 1..] == rest;
  }

  lemma NotFoundInPart(s: string, p: string, lo: nat, hi: nat)
    requires lo <= hi <= |s| && Find(s, p, 0) < 0
    ensures Find(s[lo..hi], p, 0) < 0
  {
    hide Find;
    var r := Find(s[lo..hi], p, 0);
    if r >= 0 {
      assert s == s[..lo] + s[lo..hi] + s[hi..];
      OccursShift(s[..lo], s[lo..hi], s[hi..], p, r);
    }
  }

  lemma NoColonNoEntry(line: string)
    requires Find(line, ": ", 0) < 0
    ensures LineEntry(line) == []
  {
    hide Find;
    if line != "" { NotFoundInPart(line, ": ", 0, |line| - 1); }
  }

  lemma CutAtLineFeed(text: string, rest: string, k: nat)
    requires k < |text| && text[k] == '\n'
    ensures text + "\n" + rest == text[..k] + "\n" + (text[k + 1..] + "\n" + rest)
  {
    assert text == text[..k] + [text[k]] + text[k + 1..];
  }

  /** A block read line by line: the entries of its two parts, cut at any line feed. */
  lemma {:induction false} EntriesAppend(a: string, b: string)
    ensures Entries(a + "\n" + b) == Entries(a) + Entries(b)
    decreases |a|
  {
    hide Find, LineEntry;
    var k := Find(a, "\n", 0);
    FindChar(a, '\n');
    if k < 0 {
      EntriesCons(a, b);
      OneLineBlock(a);
    } else {
      var line, more := a[..k], a[k + 1..];
      EntriesAppend(more, b);
      EntriesCons(line, more + "\n" + b);
      CutAtLineFeed(a, b, k);
      assert LineEntry(line) + (Entries(more) + Entries(b)) == (LineEntry(line) + Entries(more)) + Entries(b);
    }
  }

  lemma OneLineBlock(line: string)
    requires '\n' !in line
    ensures Entries(line) == LineEntry(line)
  {
    hide Find;
    FindChar(line, '\n');
  }

  /** Without ": " there is no entry, however many lines there are. */
  lemma {:induction false} NoColonNoEntries(s: string)
    requires Find(s, ": ", 0) < 0
    ensures Entries(s) == []
    decreases |s|
  {
    hide Find, LineEntry;
    if s != "" {
      var k := Find(s, "\n", 0);
      if k < 0 {
        NoColonNoEntry(s);
      } else {
        NotFoundInPart(s, ": ", 0, k);
        NotFoundInPart(s, ": ", k + 1, |s|);
        assert s[k + 1..|s|] == s[k + 1..];
        NoColonNoEntry(s[..k]);
        NoColonNoEntries(s[k + 1..]);
      }
    }
  }

  /** Text without ": " in front of a line feed contributes nothing, however many lines it is. */
  lemma EntriesSkip(text: string, rest: string)
    requires Find(text, ": ", 0) < 0
    ensures Entries(text + "\n" + rest) == Entries(rest)
  {
    hide Find, Entries;
    EntriesAppend(text, rest);
    NoColonNoEntries(text);
    assert [] + Entries(rest) == Entries(rest);
  }

  // ---- printing ----

  /** Names and values that survive being printed as "name: value". */
  predicate Printable(e: Entry) {
    && e.0 != "" && Trimmed(e.0, BLANKS) && Free(e.0, {'\r', '\n'}) && !Contains(e.0, ": ")
    && Trimmed(e.1, BLANKS) && Free(e.1, {'\r', '\n'})
  }

  lemma NoColonText(s: string)
    requires forall i :: 0 <= i < |s| ==> s[i] != ':'
    ensures !Contains(s, ": ")
  {
    hide Find;
    forall i ensures !OccursAt(s, ": ", i) {
      if 0 <= i && i + 2 <= |s| { Mismatch(s, ": ", i, 0); }
    }
  }

  /** Entries without any colon in the name. */
  lemma PlainEntry(e: Entry)
    requires e.0 != "" && Trimmed(e.0, BLANKS) && forall i :: 0 <= i < |e.0| ==> e.0[i] != ':' && e.0[i] != '\r' && e.0[i] != '\n'
    requires Trimmed(e.1, BLANKS) && forall i :: 0 <= i < |e.1| ==> e.1[i] != '\r' && e.1[i] != '\n'
    ensures Printable(e)
  {
    hide Contains;
    NoColonText(e.0);
    FreeText(e.0);
    FreeText(e.1);
  }

  lemma FreeText(s: string)
    requires forall i :: 0 <= i < |s| ==> s[i] != '\r' && s[i] != '\n'
    ensures Free(s, {'\r', '\n'})
  {
  }

  function Print(es: seq<Entry>): string {
    if es == [] then "" else LineText(es[0]) + CRLF + Print(es[1..])
  }

  /** The colon that ends the name is the first ": " of the line. */
  lemma ColonAfterName(name: string, value: string)
    requires Find(name, ": ", 0) < 0
    ensures Find(name + ": " + value, ": ", 0) == |name|
  {
    hide Find;
    var line := name + ": " + value;
    OccursInMiddle(name, ": ", value);
    forall i | 0 <= i < |name| ensures !OccursAt(line, ": ", i) {
      if i + 2 <= |name| {
        assert line == "" + name + (": " + value);
        OccursShift("", name, ": " + value, ": ", i);
      } else {
        Mismatch(line, ": ", i, 1);
      }
    }
  }

  /** The line of an entry, without its CRLF. */
  function LineText(e: Entry): (text: string)
    ensures |text| == |e.0| + 2 + |e.1|
    ensures text[..|e.0|] == e.0 && text[|e.0| + 2..] == e.1
    ensures forall c :: c in text ==> c in e.0 || c in ": " || c in e.1
  {
    e.0 + ": " + e.1
  }

  /** One printed line is read back as the entry it was printed from. */
  lemma LineRoundTrip(e: Entry)
    requires Printable(e)
    ensures TextEntry(LineText(e)) == [e] && '\n' !in LineText(e)
  {
    hide Find, OccursAt, Trim, TrimLeft, TrimRight;
    ColonAfterName(e.0, e.1);
  }

  /** Blanks around a name and around its value are not part of them; without a name there is no entry. */
  lemma PaddedEntry(name: string, value: string, pads: (string, string, string, string))
    requires ':' !in name && Trimmed(name, BLANKS) && Trimmed(value, BLANKS)
    requires forall c :: c in pads.0 || c in pads.1 || c in pads.2 || c in pads.3 ==> c in BLANKS
    ensures TextEntry((pads.0 + name + pads.1) + ": " + (pads.2 + value + pads.3)) == if name == "" then [] else [(name, value)]
  {
    hide Find, OccursAt, Trim, Trimmed;
    var left, right := pads.0 + name + pads.1, pads.2 + value + pads.3;
    forall i | 0 <= i < |left| ensures left[i] != ':' { assert left[i] in left; }
    NoColonText(left);
    ColonAfterName(left, right);
    var text := left + ": " + right;
    assert text[..|left|] == left && text[|left| + 2..] == right;
    TrimPadded(pads.0, name, pads.1, BLANKS);
    TrimPadded(pads.2, value, pads.3, BLANKS);
  }

  lemma LineWithCr(text: string)
    requires text != ""
    ensures LineEntry(text + "\r") == TextEntry(text)
    ensures '\n' !in text ==> '\n' !in text + "\r"
  {
    hide Find;
    assert (text + "\r")[..|text + "\r"| - 1] == text;
  }

  lemma NoEntriesInNothing()
    ensures Entries("") == []
  {
  }

  /** Printing a list of entries and reading the block gives back the list, in order. */
  lemma {:induction false} PrintRoundTrip(es: seq<Entry>)
    requires forall e :: e in es ==> Printable(e)
    ensures Entries(Print(es)) == es
  {
    hide Find, TextEntry, LineEntry, Entries, Printable;
    if es == [] {
      NoEntriesInNothing();
    } else {
      assert es[0] in es;
      var line := LineText(es[0]) + "\r";
      assert Print(es) == line + "\n" + Print(es[1..]);
      LineRoundTrip(es[0]);
      LineWithCr(LineText(es[0]));
      EntriesCons(line, Print(es[1..]));
      PrintRoundTrip(es[1..]);
    }
  }

  function Names(es: seq<Entry>): set<string> {
    if es == [] then {} else {es[0].0} + Names(es[1..])
  }

  predicate DistinctNames(es: seq<Entry>) {
    es == [] || (es[0].0 !in Names(es[1..]) && DistinctNames(es[1..]))
  }

  lemma {:induction false} StoreAppend(a: seq<Entry>, b: seq<Entry>, h: HeaderMap)
    ensures Store(a + b, h) == Store(b, Store(a, h))
  {
    if a == [] {
      assert a + b == b;
    } else {
      assert (a + b)[1..] == a[1..] + b;
      StoreAppend(a[1..], b, h[a[0].0 := a[0].1]);
    }
  }

  /** Entries with different names all end up in the map, over whatever it held before. */
  lemma {:induction false} StoreDistinct(es: seq<Entry>, h: HeaderMap)
    requires DistinctNames(es)
    ensures Store(es, h).Keys == h.Keys + Names(es)
    ensures forall e :: e in es ==> e.0 in Names(es) && Store(es, h)[e.0] == e.1
    ensures forall k :: k in h && k !in Names(es) ==> Store(es, h)[k] == h[k]
  {
    if es != [] {
      StoreDistinct(es[1..], h[es[0].0 := es[0].1]);
      assert es == [es[0]] + es[1..];
    }
  }

  /** A later entry of a name decides; without one the map keeps what it held. */
  lemma {:induction false} StoreGet(es: seq<Entry>, h: HeaderMap, name: string)
    ensures name in Store(es, map[]) <==> name in Names(es)
    ensures Get(Store(es, h), name) == if name in Names(es) then Get(Store(es, map[]), name) else Get(h, name)
  {
    if es != [] {
      var one := map[es[0].0 := es[0].1];
      StoreGet(es[1..], h[es[0].0 := es[0].1], name);
      StoreGet(es[1..], one, name);
      StoreIn(es[1..], one, name);
      assert map[][es[0].0 := es[0].1] == one;
    }
  }

  lemma {:induction false} StoreIn(es: seq<Entry>, h: HeaderMap, name: string)
    ensures name in Store(es, h) <==> name in h || name in Names(es)
  {
    if es != [] { StoreIn(es[1..], h[es[0].0 := es[0].1], name); }
  }

  lemma BlankLineNotYet(tail: string)
    requires tail != "" && tail[0] != '\r'
    ensures Find(CRLF + tail, BLANK_LINE, 0) ==
            if Find(tail, BLANK_LINE, 0) >= 0 then 2 + Find(tail, BLANK_LINE, 0) else -1
  {
    hide Find;
    var s := CRLF + tail;
    assert s[2..] == tail;
    FindInSuffix(s, BLANK_LINE, 2);
    Mismatch(s, BLANK_LINE, 0, 2);
    Mismatch(s, BLANK_LINE, 1, 0);
    assert Find(s, BLANK_LINE, 2) == Find(s, BLANK_LINE, 0);
  }

  /** No blank line appears inside a printed block. */
  lemma {:induction false} PrintHasNoBlankLine(lead: string, es: seq<Entry>)
    requires Free(lead, {'\r', '\n'}) && lead != ""
    requires forall e :: e in es ==> Printable(e)
    decreases |es|
    ensures Find(lead + CRLF + Print(es) + CRLF, BLANK_LINE, 0) == |lead| + |Print(es)|
  {
    hide Find, Trimmed;
    var rest := Print(es) + CRLF;
    assert lead + CRLF + Print(es) + CRLF == lead + (CRLF + rest);
    FindAfterFreeText(lead, CRLF + rest, BLANK_LINE);
    if es == [] {
      assert rest == CRLF;
      assert CRLF + CRLF == BLANK_LINE;
      assert OccursAt(CRLF + rest, BLANK_LINE, 0);
    } else {
      assert es[0] in es;
      var line := LineText(es[0]);
      assert line[0] == line[..|es[0].0|][0] == es[0].0[0];
      assert rest == line + CRLF + Print(es[1..]) + CRLF;
      PrintHasNoBlankLine(line, es[1..]);
      BlankLineNotYet(rest);
    }
  }
}
