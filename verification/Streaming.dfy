/** Response objects: headers, body, and the streaming of a file behind printed headers. */
module Streaming {
  import opened Text
  import opened Headers
  import opened Sockets
  import opened Responses

  /** RESPONSE_SIZE: how much of the file one call reads. */
  const READ_SIZE: nat := 8192

  /** A file being streamed: the kernel's file position and what was printed in front. */
  datatype Stream = Stream(head: string, file: string, offset: nat, headersSent: bool, active: bool)
  {
    predicate Valid() { offset <= |file| }

    function NextRead(): (n: nat)
      requires Valid()
      ensures offset + n <= |file|
    {
      if |file| - offset < READ_SIZE then |file| - offset else READ_SIZE
    }

    /** The bytes the client has still to get. */
    function Remaining(): string
      requires Valid()
    {
      (if headersSent then "" else head) + file[offset..]
    }
  }

  type ValidStream = st: Stream | st.Valid() witness Stream("", "", 0, false, false)

  datatype Sending = Sending(next: Stream, wire: string, more: bool)

  /** The header part of a call: what it sends, or None when the call ends with it. */
  predicate HeadBlocked(st: Stream, hs: SendResult) {
    !st.headersSent && !hs.Accepted?
  }

  function HeadSent(st: Stream, hs: SendResult): string {
    if st.headersSent then "" else st.head[..Take(hs, |st.head|)]
  }

  /** writeNextChunk: hs and cs are the answers to its two sends. */
  function WriteChunk(st: Stream, hs: SendResult, cs: SendResult): (r: Sending)
    requires st.Valid()
    ensures r.next.Valid()
  {
    if !st.active then Sending(st, "", false)
    else if HeadBlocked(st, hs) then Sending(st, "", hs.SendWouldBlock?)
    else
      var n := st.NextRead();
      var after := st.(headersSent := true, offset := st.offset + n, active := n > 0);
      Sending(after, HeadSent(st, hs) + st.file[st.offset..st.offset + Take(cs, n)], n > 0 && !cs.SendFailed?)
  }

  datatype Transferred = Transferred(wire: string, finished: bool)

  /** Calls as the event loop makes them: until one answers false. */
  function Transfer(st: Stream, sends: seq<(SendResult, SendResult)>): Transferred
    requires st.Valid()
    decreases |sends|
  {
    if sends == [] then Transferred("", false)
    else
      var r := WriteChunk(st, sends[0].0, sends[0].1);
      if !r.more then Transferred(r.wire, st.active && !r.next.active)
      else
        var rest := Transfer(r.next, sends[1..]);
        Transferred(r.wire + rest.wire, rest.finished)
  }

  /** Every send that was not refused took all it was offered, and no file piece was refused. */
  predicate Lossless(st: Stream, sends: seq<(SendResult, SendResult)>)
    requires st.Valid()
    decreases |sends|
  {
    if sends == [] || !st.active then true
    else
      var hs, cs, r := sends[0].0, sends[0].1, WriteChunk(st, sends[0].0, sends[0].1);
      && (HeadBlocked(st, hs) || (Take(cs, st.NextRead()) == st.NextRead() && |HeadSent(st, hs)| == |WholeHead(st)|))
      && (r.more ==> Lossless(r.next, sends[1..]))
  }

  function WholeHead(st: Stream): string {
    if st.headersSent then "" else st.head
  }

  /** One call, in terms of what was to be sent: some of the head h, some of the piece f. */
  lemma WriteChunkParts(st: Stream, hs: SendResult, cs: SendResult, h: string, f: string, rest: string)
    requires st.Valid() && st.active && !HeadBlocked(st, hs)
    requires h == WholeHead(st) && f == st.file[st.offset..st.offset + st.NextRead()]
    requires rest == st.file[st.offset + st.NextRead()..]
    ensures var r, a, b := WriteChunk(st, hs, cs), |HeadSent(st, hs)|, Take(cs, st.NextRead());
            && a <= |h| && b <= |f| && r.wire == h[..a] + f[..b]
            && r.next.Remaining() == rest && st.Remaining() == h + (f + rest)
  {
    hide Take, HeadSent, WholeHead, WriteChunk;
    var n, b := st.NextRead(), Take(cs, st.NextRead());
    HeadPrefix(st, hs);
    CallMade(st, hs, cs);
    SplitRest(st.file, st.offset, n);
    SliceOfSlice(st.file, st.offset, n, b);
    WholeRemaining(st);
  }

  lemma HeadPrefix(st: Stream, hs: SendResult)
    ensures |HeadSent(st, hs)| <= |WholeHead(st)| && HeadSent(st, hs) == WholeHead(st)[..|HeadSent(st, hs)|]
  {
    hide Take;
  }

  lemma CallMade(st: Stream, hs: SendResult, cs: SendResult)
    requires st.Valid() && st.active && !HeadBlocked(st, hs)
    ensures var r, n := WriteChunk(st, hs, cs), st.NextRead();
            && r.wire == HeadSent(st, hs) + st.file[st.offset..st.offset + Take(cs, n)]
            && r.next.Remaining() == st.file[st.offset + n..]
  {
    hide Take, HeadSent;
    assert "" + st.file[st.offset + st.NextRead()..] == st.file[st.offset + st.NextRead()..];
  }

  lemma SliceOfSlice(s: string, from: nat, n: nat, k: nat)
    requires k <= n && from + n <= |s|
    ensures s[from..from + k] == s[from..from + n][..k]
  {
  }

  lemma WholeRemaining(st: Stream)
    requires st.Valid()
    ensures st.Remaining() == WholeHead(st) + st.file[st.offset..]
  {
  }

  /** One call: the wire gets what leaves Remaining, or less. */
  lemma WriteChunkShrinks(st: Stream, hs: SendResult, cs: SendResult)
    requires st.Valid() && st.active && !HeadBlocked(st, hs)
    ensures var r, n := WriteChunk(st, hs, cs), st.NextRead();
            && |r.wire| + |r.next.Remaining()| <= |st.Remaining()|
            && (|r.wire| + |r.next.Remaining()| == |st.Remaining()| <==>
                  Take(cs, n) == n && |HeadSent(st, hs)| == |WholeHead(st)|)
            && (Take(cs, n) == n && |HeadSent(st, hs)| == |WholeHead(st)| ==>
                  r.wire + r.next.Remaining() == st.Remaining())
  {
    hide Take, WriteChunk, HeadSent;
    var n := st.NextRead();
    var h, f, rest := WholeHead(st), st.file[st.offset..st.offset + n], st.file[st.offset + n..];
    WriteChunkParts(st, hs, cs, h, f, rest);
    Pieces(h, f, rest, |HeadSent(st, hs)|, Take(cs, n));
  }

  lemma SplitRest(s: string, from: nat, n: nat)
    requires from + n <= |s|
    ensures s[from..] == s[from..from + n] + s[from + n..]
    ensures s[..|s|] == s
  {
  }

  lemma Pieces(h: string, f: string, rest: string, a: nat, b: nat)
    requires a <= |h| && b <= |f|
    ensures |h[..a] + f[..b]| + |rest| <= |h + (f + rest)|
    ensures |h[..a] + f[..b]| + |rest| == |h + (f + rest)| <==> a == |h| && b == |f|
    ensures a == |h| && b == |f| ==> h[..a] + f[..b] + rest == h + (f + rest)
    ensures h + (f + rest) == h + f + rest
  {
  }

  /**
   * A transfer that reaches the end of the file delivers exactly the headers and the file
   * from its position on if and only if no send fell short: a partial send, or a refused
   * piece of the file, is never made good.
   */
  lemma {:induction false} ExactIffLossless(st: Stream, sends: seq<(SendResult, SendResult)>)
    requires st.Valid() && Transfer(st, sends).finished
    ensures |Transfer(st, sends).wire| <= |st.Remaining()|
    ensures Transfer(st, sends).wire == st.Remaining() <==> Lossless(st, sends)
    ensures |Transfer(st, sends).wire| == |st.Remaining()| <==> Lossless(st, sends)
    decreases |sends|
  {
    var hs, cs := sends[0].0, sends[0].1;
    var r := WriteChunk(st, hs, cs);
    if HeadBlocked(st, hs) {
      ExactIffLossless(r.next, sends[1..]);
      assert Transfer(st, sends).wire == Transfer(r.next, sends[1..]).wire;
    } else {
      WriteChunkShrinks(st, hs, cs);
      if r.more {
        ExactIffLossless(r.next, sends[1..]);
      } else {
        assert r.next.Remaining() == "";
        assert r.wire + "" == r.wire;
      }
    }
  }

  /** If every send takes all it is offered, the transfer ends after one call past the last piece. */
  lemma {:induction false} TakenTransferFinishes(st: Stream, sends: seq<(SendResult, SendResult)>)
    requires st.Valid() && st.active
    requires |sends| * READ_SIZE >= |st.file| - st.offset + READ_SIZE
    requires forall s :: s in sends ==> s.0.Accepted? && s.0.count >= |st.head| && s.1.Accepted? && s.1.count >= READ_SIZE
    ensures Transfer(st, sends).finished && Lossless(st, sends)
    decreases |sends|
  {
    assert |sends| > 0;
    assert sends[0] in sends;
    var r := WriteChunk(st, sends[0].0, sends[0].1);
    if r.more {
      assert forall s :: s in sends[1..] ==> s in sends;
      TakenTransferFinishes(r.next, sends[1..]);
    }
  }

  /**
   * A call is the last one exactly when there is nothing to stream, the head or the piece is
   * refused, or the file has no byte left; a send that would block is no reason to end.
   */
  lemma EndsExactly(st: Stream, hs: SendResult, cs: SendResult)
    requires st.Valid()
    ensures !WriteChunk(st, hs, cs).more <==>
            || !st.active
            || (!st.headersSent && hs.SendFailed?)
            || ((st.headersSent || hs.Accepted?) && (st.offset == |st.file| || cs.SendFailed?))
  {
    hide Take;
  }

  /** A call whose head would block sends nothing, and the next call finds the same stream. */
  lemma BlockedHeadStays(st: Stream, cs: SendResult)
    requires st.Valid() && st.active && !st.headersSent
    ensures WriteChunk(st, SendWouldBlock, cs) == Sending(st, "", true)
  {
  }

  /** So it makes no difference to the transfer. */
  lemma BlockedHeadRepeats(st: Stream, cs: SendResult, sends: seq<(SendResult, SendResult)>)
    requires st.Valid() && st.active && !st.headersSent
    ensures Transfer(st, [(SendWouldBlock, cs)] + sends) == Transfer(st, sends)
    ensures Lossless(st, [(SendWouldBlock, cs)] + sends) <==> Lossless(st, sends)
  {
    hide WriteChunk;
    BlockedHeadStays(st, cs);
    assert ([(SendWouldBlock, cs)] + sends)[1..] == sends;
    assert "" + Transfer(st, sends).wire == Transfer(st, sends).wire;
  }

  /** Any number of blocked heads, and then sends that take everything. */
  lemma {:induction false} BlockedTransferFinishes(st: Stream, blocked: seq<(SendResult, SendResult)>, sends: seq<(SendResult, SendResult)>)
    requires st.Valid() && st.active && !st.headersSent
    requires forall s :: s in blocked ==> s.0.SendWouldBlock?
    requires |sends| * READ_SIZE >= |st.file| - st.offset + READ_SIZE
    requires forall s :: s in sends ==> s.0.Accepted? && s.0.count >= |st.head| && s.1.Accepted? && s.1.count >= READ_SIZE
    ensures Transfer(st, blocked + sends).finished && Lossless(st, blocked + sends)
    ensures Transfer(st, blocked + sends).wire == st.head + st.file[st.offset..]
    decreases |blocked|
  {
    hide WriteChunk, Transfer, Lossless;
    if blocked == [] {
      assert blocked + sends == sends;
      TakenTransferFinishes(st, sends);
      ExactIffLossless(st, sends);
    } else {
      var more := blocked[1..];
      assert blocked[0] in blocked && forall s :: s in more ==> s in blocked;
      BlockedTransferFinishes(st, more, sends);
      BlockedHeadRepeats(st, blocked[0].1, more + sends);
      assert blocked[0] == (SendWouldBlock, blocked[0].1);
      assert [blocked[0]] + (more + sends) == blocked + sends;
    }
  }

  /** The calls so far: the stream they leave, what they sent, and whether another one follows. */
  function Calls(st: ValidStream, sends: seq<(SendResult, SendResult)>): (r: Sending)
    ensures r.next.Valid()
  {
    if sends == [] then Sending(st, "", true)
    else
      var last, before := sends[|sends| - 1], Calls(st, sends[..|sends| - 1]);
      if !before.more then before
      else
        var r := WriteChunk(before.next, last.0, last.1);
        Sending(r.next, before.wire + r.wire, r.more)
  }

  lemma {:induction false} CallsCons(st: ValidStream, first: (SendResult, SendResult), rest: seq<(SendResult, SendResult)>)
    ensures var r, all := WriteChunk(st, first.0, first.1), Calls(st, [first] + rest);
            if !r.more then all == r
            else all == Sending(Calls(r.next, rest).next, r.wire + Calls(r.next, rest).wire, Calls(r.next, rest).more)
    decreases |rest|
  {
    hide WriteChunk;
    var sends, r := [first] + rest, WriteChunk(st, first.0, first.1);
    if rest == [] {
      assert sends == [first] && sends[..0] == [];
      assert "" + r.wire == r.wire && r.wire + "" == r.wire;
    } else {
      var front := rest[..|rest| - 1];
      CallsCons(st, first, front);
      assert sends[..|sends| - 1] == [first] + front && sends[|sends| - 1] == rest[|rest| - 1];
      if r.more && Calls(r.next, front).more {
        var next := WriteChunk(Calls(r.next, front).next, rest[|rest| - 1].0, rest[|rest| - 1].1);
        assert (r.wire + Calls(r.next, front).wire) + next.wire == r.wire + (Calls(r.next, front).wire + next.wire);
      }
    }
  }

  /** Counted from either end, the calls transfer the same. */
  lemma {:induction false} CallsAreTransfer(st: ValidStream, sends: seq<(SendResult, SendResult)>)
    ensures Transfer(st, sends)
            == Transferred(Calls(st, sends).wire, !Calls(st, sends).more && st.active && !Calls(st, sends).next.active)
    decreases |sends|
  {
    if sends != [] {
      var r := WriteChunk(st, sends[0].0, sends[0].1);
      CallsCons(st, sends[0], sends[1..]);
      assert sends == [sends[0]] + sends[1..];
      CallsAreTransfer(r.next, sends[1..]);
    }
  }

  /** A transfer given up before the end of the file has sent less than it should. */
  lemma {:induction false} GivenUpShort(st: ValidStream, sends: seq<(SendResult, SendResult)>)
    requires st.active && (st.headersSent || st.head != "")
    requires !Calls(st, sends).more && !Transfer(st, sends).finished
    ensures |Transfer(st, sends).wire| < |st.Remaining()|
    decreases |sends|
  {
    var hs, cs := sends[0].0, sends[0].1;
    var r := WriteChunk(st, hs, cs);
    CallsCons(st, sends[0], sends[1..]);
    assert sends == [sends[0]] + sends[1..];
    if HeadBlocked(st, hs) {
      if r.more { GivenUpShort(r.next, sends[1..]); }
    } else {
      WriteChunkShrinks(st, hs, cs);
      if r.more { GivenUpShort(r.next, sends[1..]); }
    }
  }

  /** When the calls have ended, exactly a lossless transfer to the end of the file was complete. */
  lemma EndedExactly(st: ValidStream, sends: seq<(SendResult, SendResult)>)
    requires st.active && (st.headersSent || st.head != "") && !Calls(st, sends).more
    ensures |Calls(st, sends).wire| <= |st.Remaining()|
    ensures Calls(st, sends).wire == st.Remaining() <==> Transfer(st, sends).finished && Lossless(st, sends)
    ensures |Calls(st, sends).wire| == |st.Remaining()| <==> Transfer(st, sends).finished && Lossless(st, sends)
  {
    hide Calls, Transfer, Lossless;
    CallsAreTransfer(st, sends);
    if Transfer(st, sends).finished { ExactIffLossless(st, sends); } else { GivenUpShort(st, sends); }
  }

  // ---- the class ----

  /** Response::addHeader: Set-Cookie gets a key of its own. */
  function AddHeaderTo(h: HeaderMap, name: string, value: string): HeaderMap {
    if name == "" || !Free(name, {'\r', '\n'}) then h
    else if name == SetCookie() then h[CookieKey(|h|) := value]
    else h[name := value]
  }

  /** The name a cookie header is stored, and printed, under. */
  function CookieKey(n: nat): string { "Set-Cookie_" + Dec(n) }

  /** Headers added one after the other. */
  function AddAll(h: HeaderMap, es: seq<Entry>): HeaderMap
    decreases |es|
  {
    if es == [] then h else AddAll(AddHeaderTo(h, es[0].0, es[0].1), es[1..])
  }

  /** A header with a name is stored as it is; one whose name is empty or holds a line end is not. */
  lemma AddedHeader(h: HeaderMap, name: string, value: string)
    requires name != "Set-Cookie"
    ensures AddHeaderTo(h, name, value) == if name == "" || '\r' in name || '\n' in name then h else h[name := value]
  {
  }

  /** Names that can be printed on a line of their own. */
  predicate CleanNames(h: HeaderMap) {
    forall k :: k in h ==> k != "" && '\r' !in k && '\n' !in k
  }

  /** Whatever is added, no name is ever empty or holds a line end. */
  lemma {:induction false} NamesStayClean(h: HeaderMap, es: seq<Entry>)
    requires CleanNames(h)
    ensures CleanNames(AddAll(h, es))
    decreases |es|
  {
    hide CookieKey;
    if es != [] {
      CookieKeysDiffer(|h|, |h|);
      assert CookieKey(|h|) != "" by { KeyNotEmpty(|h|); }
      assert CleanNames(AddHeaderTo(h, es[0].0, es[0].1));
      NamesStayClean(AddHeaderTo(h, es[0].0, es[0].1), es[1..]);
    }
  }

  lemma KeyNotEmpty(n: nat)
    ensures CookieKey(n) != ""
  {
  }

  lemma CookieKeysDiffer(m: nat, n: nat)
    ensures CookieKey(m) == CookieKey(n) ==> m == n
    ensures CookieKey(n) != SetCookie() && Free(CookieKey(n), {'\r', '\n'})
  {
    hide Dec, DigitsValue;
    DecValue(m, "");
    DecValue(n, "");
    assert CookieKey(m)[11..] == Dec(m) == Dec(m) + "" && CookieKey(n)[11..] == Dec(n) == Dec(n) + "";
    assert |CookieKey(n)| > 11 && |SetCookie()| == 10;
    forall c | c in CookieKey(n) ensures c != '\r' && c != '\n' {
      if c in "Set-Cookie_" { } else { assert c in Dec(n); }
    }
  }

  /** No cookie key is ahead of the size of the map. */
  ghost predicate CookiesNumbered(h: HeaderMap) {
    forall n: nat :: CookieKey(n) in h ==> n < |h|
  }

  /** A cookie header takes an entry of its own exactly when its key is not yet there; else it overwrites that entry. */
  lemma CookieKeptExactly(h: HeaderMap, value: string)
    ensures var after := AddHeaderTo(h, SetCookie(), value);
            && after == h[CookieKey(|h|) := value]
            && (CookieKey(|h|) !in h <==> |after| == |h| + 1)
            && (CookiesNumbered(h) ==> CookieKey(|h|) !in h && CookiesNumbered(after))
  {
    hide CookieKey;
    var after := AddHeaderTo(h, SetCookie(), value);
    assert Free(SetCookie(), {'\r', '\n'}) && SetCookie() != "";
    GrownBy(h, CookieKey(|h|), value);
    forall n: nat | CookiesNumbered(h) && CookieKey(n) in after ensures n < |after| { CookieKeysDiffer(n, |h|); }
  }

  lemma GrownBy(h: HeaderMap, key: string, value: string)
    ensures |h[key := value]| == if key in h then |h| else |h| + 1
  {
    assert h[key := value].Keys == h.Keys + {key};
    assert |h.Keys| == |h| && |h[key := value].Keys| == |h[key := value]|;
  }

  /** Other headers keep the numbering, unless they are named like a cookie key themselves. */
  lemma HeaderKeepsNumbering(h: HeaderMap, name: string, value: string)
    requires CookiesNumbered(h) && name != SetCookie() && forall n :: name != CookieKey(n)
    ensures CookiesNumbered(AddHeaderTo(h, name, value))
  {
    hide CookieKey;
    GrownBy(h, name, value);
  }

  /** Headers that are not named like a cookie key: however many are added, no cookie is lost. */
  lemma {:induction false} CookiesNeverLost(h: HeaderMap, es: seq<Entry>)
    requires CookiesNumbered(h) && forall e, n :: e in es ==> e.0 != CookieKey(n)
    ensures CookiesNumbered(AddAll(h, es)) && CookieKey(|AddAll(h, es)|) !in AddAll(h, es)
    decreases |es|
  {
    hide CookieKey, AddHeaderTo;
    if es != [] {
      assert es[0] in es && forall e :: e in es[1..] ==> e in es;
      if es[0].0 == SetCookie() {
        CookieKeptExactly(h, es[0].1);
      } else {
        HeaderKeepsNumbering(h, es[0].0, es[0].1);
      }
      CookiesNeverLost(AddHeaderTo(h, es[0].0, es[0].1), es[1..]);
    }
  }

  /** One that is: the cookie added next overwrites it. */
  lemma CookieLost(first: string, second: string)
    ensures var h: HeaderMap := map["Server" := "webserv/1.1", "Set-Cookie_2" := first];
            AddHeaderTo(h, SetCookie(), second) == h["Set-Cookie_2" := second]
  {
    var h: HeaderMap := map["Server" := "webserv/1.1", "Set-Cookie_2" := first];
    hide CookieKey;
    CookieKeptExactly(h, second);
    assert "Server" != "Set-Cookie_2" && h.Keys == {"Server", "Set-Cookie_2"};
    assert |h| == 2;
    SecondKey();
  }

  lemma SecondKey()
    ensures CookieKey(2) == "Set-Cookie_2"
  {
  }

  /** addHeader never stores Set-Cookie itself, so the pass of toString that looks for it prints nothing. */
  lemma {:induction false} SecondPassEmpty(h: HeaderMap, es: seq<Entry>, order: seq<string>)
    requires SetCookie() !in h && forall k :: k in order ==> k in AddAll(h, es)
    ensures SetCookie() !in AddAll(h, es) && Pick(order, AddAll(h, es), true) == []
    decreases |es|
  {
    hide SetCookie, CookieKey;
    if es == [] {
      NothingPicked(order, h);
    } else {
      CookieKeysDiffer(|h|, |h|);
      SecondPassEmpty(AddHeaderTo(h, es[0].0, es[0].1), es[1..], order);
    }
  }

  lemma {:induction false} NothingPicked(order: seq<string>, h: HeaderMap)
    requires SetCookie() !in h && forall k :: k in order ==> k in h
    ensures Pick(order, h, true) == []
    decreases |order|
  {
    hide SetCookie;
    if order != [] {
      assert order[0] in order && forall k :: k in order[1..] ==> k in order;
      NothingPicked(order[1..], h);
    }
  }

  class Response {
    var statusCode: int
    var headers: HeaderMap
    var body: string
    var cookies: seq<string>
    var file: string
    var offset: nat
    var isFile: bool
    var isStreaming: bool
    var isHeadersSent: bool

    constructor (code: int, cookies: seq<string>)
      ensures statusCode == code && headers == map["Server" := "webserv/1.1"] && body == ""
      ensures this.cookies == cookies && !isFile && !isStreaming && !isHeadersSent && offset == 0 && file == ""
    {
      statusCode, body, file, offset := code, "", "", 0;
      this.cookies := cookies;
      headers := map["Server" := "webserv/1.1"];
      isFile, isStreaming, isHeadersSent := false, false, false;
    }

    method AddHeader(name: string, value: string)
      modifies `headers
      ensures headers == AddHeaderTo(old(headers), name, value)
    {
      if name == "" || !Free(name, {'\r', '\n'}) { return; }
      if name == SetCookie() {
        var key := CookieKey(|headers|);
        headers := headers[key := value];
      } else {
        headers := headers[name := value];
      }
    }

    method SetStatusCode(code: int)
      modifies `statusCode
      ensures statusCode == if 100 <= code < 600 then code else old(statusCode)
    {
      if code >= 100 && code < 600 { statusCode := code; }
    }

    method SetBody(text: string)
      modifies `body, `headers
      ensures body == text && headers == old(headers)[ContentLength() := Dec(|text|)]
    {
      body := text;
      headers := headers[ContentLength() := Dec(|text|)];
    }

    /** The descriptor of a file whose position is at. */
    method SetFileDescriptor(contents: string, at: nat)
      requires at <= |contents|
      modifies `file, `offset, `isFile, `isStreaming
      ensures file == contents && offset == at && isFile && isStreaming
    {
      file, offset, isFile, isStreaming := contents, at, true, true;
    }

    ghost function View(order: seq<string>): Stream
      requires forall k :: k in order ==> k in headers
      reads this
    {
      Stream(StreamHead(statusCode, headers, order, cookies), file, offset, isHeadersSent, isStreaming && isFile)
    }

    /** toString: two passes over the header map, the second for cookies. */
    method ToString(order: seq<string>) returns (text: string)
      requires Walks(order, headers)
      ensures text == TextOf(statusCode, headers, body, order)
      ensures 100 <= statusCode < 600 ==> StatusFirst(text, statusCode)
    {
      hide StatusLine, Dec, ContentLength, SetCookie, LineText, Pick, Print, StatusFirst;
      text := StatusLine(statusCode) + CRLF;
      text := text + (LineText((ContentLength(), Dec(|body|))) + CRLF);
      var plain := PrintPass(order, false);
      var setCookies := PrintPass(order, true);
      text := text + plain + setCookies + CRLF + body;
      PrintThree((ContentLength(), Dec(|body|)), Pick(order, headers, false), Pick(order, headers, true));
      Associate(StatusLine(statusCode) + CRLF, LineText((ContentLength(), Dec(|body|))) + CRLF, plain, setCookies,
                CRLF, body);
      if 100 <= statusCode < 600 { TextStatus(statusCode, headers, body, order); }
    }

    method PrintPass(order: seq<string>, cookies: bool) returns (text: string)
      requires Walks(order, headers)
      ensures text == Print(Pick(order, headers, cookies))
    {
      hide LineText, ContentLength, SetCookie, Print, Pick;
      text := "";
      assert order[0..] == order;
      Grow("", "", Print(Pick(order, headers, cookies)));
      var i := 0;
      while i < |order|
        invariant 0 <= i <= |order|
        invariant forall k :: k in order[i..] ==> k in headers
        invariant text + Print(Pick(order[i..], headers, cookies)) == Print(Pick(order, headers, cookies))
      {
        var k := order[i];
        assert k in order && order[i..][0] == k && order[i..][1..] == order[i + 1..];
        PickStep(order[i..], headers, cookies);
        if k != ContentLength() && (k == SetCookie()) == cookies {
          PickFirst(order[i..], headers, cookies);
          Grow(text, LineText((k, headers[k])) + CRLF, Print(Pick(order[i + 1..], headers, cookies)));
          text := text + (LineText((k, headers[k])) + CRLF);
        }
        i := i + 1;
      }
      NoneToPrint(headers, cookies);
      assert order[i..] == [];
      Grow(text, "", "");
    }

    method WriteNextChunk(order: seq<string>, hs: SendResult, cs: SendResult) returns (wire: string, more: bool)
      requires Walks(order, headers) && offset <= |file|
      modifies `offset, `isFile, `isStreaming, `isHeadersSent
      ensures offset <= |file|
      ensures WriteChunk(old(View(order)), hs, cs) == Sending(View(order), wire, more)
    {
      hide StreamHead, Take, StatusFirst;
      wire := "";
      if !isStreaming || !isFile { return wire, false; }
      if !isHeadersSent {
        var head := PrintStreamHead(order);
        if hs.SendWouldBlock? { return wire, true; }
        if hs.SendFailed? { return wire, false; }
        wire := head[..Take(hs, |head|)];
        isHeadersSent := true;
      }
      var piece;
      piece, more := SendPiece(cs);
      wire := wire + piece;
    }

    /** The rest of writeNextChunk: one read of the file, and one send of what was read. */
    method SendPiece(cs: SendResult) returns (piece: string, more: bool)
      requires offset <= |file| && isFile && isStreaming
      modifies `offset, `isFile, `isStreaming
      ensures var n := if |file| - old(offset) < READ_SIZE then |file| - old(offset) else READ_SIZE;
              && offset == old(offset) + n <= |file| && piece == file[old(offset)..old(offset) + Take(cs, n)]
              && isFile == isStreaming == (n > 0) && more == (n > 0 && !cs.SendFailed?)
    {
      piece := "";
      var bytesRead := if |file| - offset < READ_SIZE then |file| - offset else READ_SIZE;
      if bytesRead > 0 {
        piece := file[offset..offset + Take(cs, bytesRead)];
        offset := offset + bytesRead;
        more := !cs.SendFailed?;
      } else {
        isFile, isStreaming := false, false;
        more := false;
      }
    }

    method PrintStreamHead(order: seq<string>) returns (text: string)
      requires Walks(order, headers)
      ensures text == StreamHead(statusCode, headers, order, cookies)
      ensures 100 <= statusCode < 600 ==> StatusFirst(text, statusCode)
    {
      hide StatusLine, StatusFirst, Print, All, CookieEntries;
      text := StatusLine(statusCode) + CRLF;
      var lines := PrintAll(order);
      var setCookies := PrintCookies();
      text := text + lines + setCookies + CRLF;
      if 100 <= statusCode < 600 {
        StreamStatus(statusCode, headers, order, cookies, "");
        Grow(text, "", "");
      }
    }

    /** The first loop of getHeadersString. */
    method PrintAll(order: seq<string>) returns (text: string)
      requires Walks(order, headers)
      ensures text == Print(All(order, headers))
    {
      hide LineText;
      text := "";
      assert order[0..] == order;
      Grow("", "", Print(All(order, headers)));
      var i := 0;
      while i < |order|
        invariant 0 <= i <= |order|
        invariant forall k :: k in order[i..] ==> k in headers
        invariant text + Print(All(order[i..], headers)) == Print(All(order, headers))
      {
        var k := order[i];
        assert k in order && order[i..][0] == k && order[i..][1..] == order[i + 1..];
        assert All(order[i..], headers)[1..] == All(order[i + 1..], headers);
        Grow(text, LineText((k, headers[k])) + CRLF, Print(All(order[i + 1..], headers)));
        text := text + (LineText((k, headers[k])) + CRLF);
        i := i + 1;
      }
      Grow(text, "", "");
    }

    /** The second loop of getHeadersString. */
    method PrintCookies() returns (text: string)
      ensures text == Print(CookieEntries(cookies))
    {
      hide LineText, SetCookie;
      text := "";
      assert cookies[0..] == cookies;
      Grow("", "", Print(CookieEntries(cookies)));
      var j := 0;
      while j < |cookies|
        invariant 0 <= j <= |cookies|
        invariant text + Print(CookieEntries(cookies[j..])) == Print(CookieEntries(cookies))
      {
        assert cookies[j..][0] == cookies[j] && cookies[j..][1..] == cookies[j + 1..];
        assert CookieEntries(cookies[j..])[1..] == CookieEntries(cookies[j + 1..]);
        Grow(text, LineText((SetCookie(), cookies[j])) + CRLF, Print(CookieEntries(cookies[j + 1..])));
        text := text + (LineText((SetCookie(), cookies[j])) + CRLF);
        j := j + 1;
      }
      Grow(text, "", "");
    }
  }

  lemma {:induction false} PrintAppend(a: seq<Entry>, b: seq<Entry>)
    ensures Print(a + b) == Print(a) + Print(b)
  {
    if a == [] {
      assert a + b == b;
    } else {
      assert (a + b)[1..] == a[1..] + b;
      PrintAppend(a[1..], b);
    }
  }

  lemma PrintThree(e: Entry, a: seq<Entry>, b: seq<Entry>)
    ensures Print([e] + a + b) == (LineText(e) + CRLF) + Print(a) + Print(b)
  {
    PrintAppend([e] + a, b);
    PrintAppend([e], a);
    assert [e][1..] == [];
  }

  lemma NoneToPrint(h: HeaderMap, cookies: bool)
    ensures Print(Pick([], h, cookies)) == ""
  {
  }

  lemma PickFirst(order: seq<string>, h: HeaderMap, cookies: bool)
    requires order != [] && forall k :: k in order ==> k in h
    requires order[0] != ContentLength() && (order[0] == SetCookie()) == cookies
    ensures Print(Pick(order, h, cookies))
            == (LineText((order[0], h[order[0]])) + CRLF) + Print(Pick(order[1..], h, cookies))
  {
    hide LineText, ContentLength, SetCookie;
    var e, rest := (order[0], h[order[0]]), Pick(order[1..], h, cookies);
    assert ([e] + rest)[1..] == rest;
  }

  lemma Associate(a: string, b: string, c: string, d: string, e: string, f: string)
    ensures a + b + c + d + e + f == a + (b + c + d) + e + f
  {
  }

  lemma Grow(text: string, line: string, rest: string)
    ensures (text + line) + rest == text + (line + rest)
    ensures text + "" == text
  {
  }

  // ---- reading a streamed head ----

  lemma {:induction false} AllEntries(order: seq<string>, h: HeaderMap)
    requires forall k :: k in order ==> k in h
    requires forall i, j :: 0 <= i < j < |order| ==> order[i] != order[j]
    ensures DistinctNames(All(order, h)) && |All(order, h)| == |order|
    ensures forall k :: k in Names(All(order, h)) <==> k in order
    ensures forall e :: e in All(order, h) ==> e.0 in h && e.1 == h[e.0]
  {
    if order != [] {
      AllEntries(order[1..], h);
      assert order == [order[0]] + order[1..];
      assert forall k :: k in order <==> k == order[0] || k in order[1..];
    }
  }

  /** Storing what was walked gives the map. */
  lemma AllStored(order: seq<string>, h: HeaderMap)
    requires Walks(order, h)
    ensures Store(All(order, h), map[]) == h
  {
    hide Store, Names, DistinctNames, All;
    AllEntries(order, h);
    var es := All(order, h);
    StoreDistinct(es, map[]);
    forall k | k in h ensures Store(es, map[])[k] == h[k] { NamedEntry(es, k); }
    SameMap(Store(es, map[]), h);
  }

  /** Each cookie replaces the one before it, so that the last one stays. */
  lemma {:induction false} CookiesStored(cookies: seq<string>, h: HeaderMap)
    ensures Store(CookieEntries(cookies), h) == if cookies == [] then h else h[SetCookie() := cookies[|cookies| - 1]]
    decreases |cookies|
  {
    hide SetCookie;
    if cookies == [] {
    } else {
      var first := h[SetCookie() := cookies[0]];
      FirstCookie(cookies, h);
      CookiesStored(cookies[1..], first);
      if |cookies| > 1 { OverPut(h, SetCookie(), cookies[0], cookies[|cookies| - 1]); }
    }
  }

  lemma FirstCookie(cookies: seq<string>, h: HeaderMap)
    requires cookies != []
    ensures Store(CookieEntries(cookies), h) == Store(CookieEntries(cookies[1..]), h[SetCookie() := cookies[0]])
  {
    hide SetCookie;
    var es := CookieEntries(cookies);
    assert es[0] == (SetCookie(), cookies[0]) && es[1..] == CookieEntries(cookies[1..]);
  }

  lemma OverPut(h: HeaderMap, k: string, a: string, b: string)
    ensures h[k := a][k := b] == h[k := b]
  {
  }

  /** The entries of a streamed head, in the order in which they are printed. */
  function StreamEntries(h: HeaderMap, order: seq<string>, cookies: seq<string>): seq<Entry>
    requires forall k :: k in order ==> k in h
  {
    All(order, h) + CookieEntries(cookies)
  }

  predicate PrintableCookies(cookies: seq<string>) {
    forall i :: 0 <= i < |cookies| ==> Printable((SetCookie(), cookies[i]))
  }

  lemma {:induction false} CookiesPrintable(cookies: seq<string>)
    requires PrintableCookies(cookies)
    ensures |CookieEntries(cookies)| == |cookies| && forall e :: e in CookieEntries(cookies) ==> Printable(e)
  {
    hide Printable, SetCookie;
    if cookies != [] {
      var rest := cookies[1..];
      assert forall i :: 0 <= i < |rest| ==> rest[i] == cookies[i + 1];
      CookiesPrintable(rest);
    }
  }

  lemma StreamEntriesPrintable(h: HeaderMap, order: seq<string>, cookies: seq<string>)
    requires Walks(order, h) && (forall k :: k in h ==> Printable((k, h[k]))) && PrintableCookies(cookies)
    ensures |StreamEntries(h, order, cookies)| == |order| + |cookies|
    ensures forall e :: e in StreamEntries(h, order, cookies) ==> Printable(e)
  {
    hide Printable, CookieEntries, All, Names, DistinctNames, PrintableCookies;
    AllEntries(order, h);
    CookiesPrintable(cookies);
    forall e | e in StreamEntries(h, order, cookies) ensures Printable(e) { assert e == (e.0, e.1); }
  }

  lemma StreamHeadText(code: int, h: HeaderMap, order: seq<string>, cookies: seq<string>, body: string)
    requires forall k :: k in order ==> k in h
    ensures StreamHead(code, h, order, cookies) + body
            == StatusLine(code) + CRLF + Print(StreamEntries(h, order, cookies)) + CRLF + body
  {
    hide StatusLine, Print, All, CookieEntries;
    PrintAppend(All(order, h), CookieEntries(cookies));
    Joined(StatusLine(code) + CRLF, Print(All(order, h)), Print(CookieEntries(cookies)), body);
  }

  lemma Joined(a: string, b: string, c: string, body: string)
    ensures (a + b + c + CRLF) + body == a + (b + c) + CRLF + body
  {
  }

  /**
   * What getHeadersString prints in front of a file is read back: its first blank line is its
   * end, and it gives every header of the map, and then every cookie, in order.
   */
  lemma StreamHeadRoundTrip(code: int, h: HeaderMap, order: seq<string>, cookies: seq<string>, body: string)
    requires Walks(order, h) && (forall k :: k in h ==> Printable((k, h[k]))) && PrintableCookies(cookies)
    ensures var head := StreamHead(code, h, order, cookies);
            var end := |head| - 4;
            && end >= 0 && Find(head + body, BLANK_LINE, 0) == end && (head + body)[end + 4..] == body
            && Entries((head + body)[..end]) == StreamEntries(h, order, cookies)
            && HeadersOf((head + body)[..end]) == if cookies == [] then h else h[SetCookie() := cookies[|cookies| - 1]]
  {
    hide Find, OccursAt, Printable, Entries, Print, StatusLine, Store, All, CookieEntries, PrintableCookies, SetCookie;
    var es := StreamEntries(h, order, cookies);
    StreamEntriesPrintable(h, order, cookies);
    StreamHeadText(code, h, order, cookies, body);
    StreamHeadText(code, h, order, cookies, "");
    MessageRoundTrip(StatusLine(code), es, body);
    StoreAppend(All(order, h), CookieEntries(cookies), map[]);
    AllStored(order, h);
    CookiesStored(cookies, h);
  }
}
