/** Request framing on a socket: ReadRequestHead and the Content-Length loop of HandleConnection
    (src/server/http_server.cpp). */
module Framing {
  import opened Text
  import opened Decimal
  import opened Http

  /** Limit of the head, size of one read, largest body. */
  const HEAD_LIMIT: nat := 65536
  const BLOCK: nat := 4096
  const BODY_LIMIT: nat := 1048576

  // ----- the end of the head

  predicate EndsAt(s: string, k: nat) {
    k + 3 < |s| && s[k] == '\r' && s[k + 1] == '\n' && s[k + 2] == '\r' && s[k + 3] == '\n'
  }

  /** Position of the first empty line. */
  function HeadEnd(s: string): (r: Option<nat>)
    ensures r.Some? ==> EndsAt(s, r.value)
    ensures forall k | 0 <= k < if r.Some? then r.value else |s| :: !EndsAt(s, k)
  {
    if |s| < 4 then None
    else if EndsAt(s, 0) then Some(0)
    else
      assert forall k | 0 < k < |s| :: EndsAt(s, k) == EndsAt(s[1..], k - 1);
      var r := HeadEnd(s[1..]);
      if r.None? then None else Some(r.value + 1)
  }

  lemma HeadEndIs(s: string, n: nat)
    requires n <= |s| && (n < |s| ==> EndsAt(s, n)) && forall k | 0 <= k < n :: !EndsAt(s, k)
    ensures HeadEnd(s) == if n < |s| then Some(n) else None
  {
    hide HeadEnd;
    var r := HeadEnd(s);
    if r.Some? {
      assert EndsAt(s, r.value);
    }
  }

  /** A prefix shows the end exactly when it holds all four characters of it. */
  lemma HeadEndOfPrefix(s: string, n: nat)
    requires n <= |s|
    ensures HeadEnd(s[..n]) == if HeadEnd(s).Some? && HeadEnd(s).value + 4 <= n then HeadEnd(s) else None
  {
    hide HeadEnd;
    var r := HeadEnd(s);
    assert forall k | 0 <= k < n :: EndsAt(s[..n], k) == (EndsAt(s, k) && k + 4 <= n);
    HeadEndIs(s[..n], if r.Some? && r.value + 4 <= n then r.value else n);
  }

  method FindHeadEnd(s: string) returns (i: nat)
    ensures HeadEnd(s) == if i < |s| then Some(i) else None
    ensures i <= |s|
  {
    i := 0;
    while i < |s| && !EndsAt(s, i)
      invariant i <= |s|
      invariant forall k | 0 <= k < i :: !EndsAt(s, k)
    {
      i := i + 1;
    }
    HeadEndIs(s, i);
  }

  // ----- reads

  /** What the peer sends, in the pieces the network delivers; after the last one a read gives nothing. */
  function Stream(chunks: seq<string>): string {
    if chunks == [] then "" else chunks[0] + Stream(chunks[1..])
  }

  predicate Arriving(chunks: seq<string>) {
    forall i | 0 <= i < |chunks| :: chunks[i] != ""
  }

  /** One read of at most `max` bytes: the data, and the pieces still to come. */
  function Received(chunks: seq<string>, max: nat): string {
    if chunks == [] then "" else if |chunks[0]| <= max then chunks[0] else chunks[0][..max]
  }

  function Pending(chunks: seq<string>, max: nat): seq<string> {
    if chunks == [] then [] else if |chunks[0]| <= max then chunks[1..] else [chunks[0][max..]] + chunks[1..]
  }

  lemma ReadSplits(chunks: seq<string>, max: nat)
    requires Arriving(chunks) && max > 0
    ensures Arriving(Pending(chunks, max)) && Received(chunks, max) + Stream(Pending(chunks, max)) == Stream(chunks)
    ensures |Received(chunks, max)| <= max
    ensures Received(chunks, max) == "" <==> chunks == []
    ensures Stream(chunks) == "" <==> chunks == []
    ensures chunks != [] ==> |Stream(Pending(chunks, max))| < |Stream(chunks)|
  {
    if chunks != [] && |chunks[0]| > max {
      var rest := Stream(chunks[1..]);
      assert ([chunks[0][max..]] + chunks[1..])[1..] == chunks[1..];
      assert chunks[0] == chunks[0][..max] + chunks[0][max..];
      assert chunks[0][..max] + (chunks[0][max..] + rest) == chunks[0] + rest;
    }
  }

  class Socket {
    var chunks: seq<string>

    constructor (chunks: seq<string>)
      requires Arriving(chunks)
      ensures this.chunks == chunks
    {
      this.chunks := chunks;
    }

    method Read(max: nat) returns (data: string)
      requires Arriving(chunks) && max > 0
      modifies this
      ensures Arriving(chunks) && data == Received(old(chunks), max) && chunks == Pending(old(chunks), max)
    {
      ReadSplits(chunks, max);
      data := "";
      if chunks != [] {
        data := chunks[0];
        chunks := chunks[1..];
        if |data| > max {
          chunks := [data[max..]] + chunks;
          data := data[..max];
        }
      }
    }
  }

  // ----- the head

  /** What the reading loop makes of the pieces: head, bytes read past it, and pieces not read. */
  function ReadHead(buffer: string, chunks: seq<string>): Option<(string, string, seq<string>)>
    requires Arriving(chunks)
    decreases |Stream(chunks)|
  {
    ReadSplits(chunks, BLOCK);
    if chunks == [] then None
    else
      var more, rest := buffer + Received(chunks, BLOCK), Pending(chunks, BLOCK);
      match HeadEnd(more)
      case Some(p) => if p > HEAD_LIMIT then None else Some((more[..p + 4], more[p + 4..], rest))
      case None => if |more| > HEAD_LIMIT then None else ReadHead(more, rest)
  }

  method ReadRequestHead(socket: Socket) returns (ok: bool, head: string, body: string)
    requires Arriving(socket.chunks)
    modifies socket
    ensures Arriving(socket.chunks)
    ensures match ReadHead("", old(socket.chunks))
            case None => !ok
            case Some((h, b, rest)) => ok && head == h && body == b && socket.chunks == rest
  {
    hide HeadEnd, Received, Pending, Stream;
    var buffer := "";
    ok, head, body := false, "", "";
    while true
      invariant Arriving(socket.chunks)
      invariant ReadHead("", old(socket.chunks)) == ReadHead(buffer, socket.chunks)
      decreases |Stream(socket.chunks)|
    {
      ReadSplits(socket.chunks, BLOCK);
      var data := socket.Read(BLOCK);
      if data == "" {
        return;
      }
      buffer := buffer + data;
      var pos := FindHeadEnd(buffer);
      if pos < |buffer| {
        if pos > HEAD_LIMIT {
          return;
        }
        return true, buffer[..pos + 4], buffer[pos + 4..];
      }
      if |buffer| > HEAD_LIMIT {
        return;
      }
    }
  }

  /** The pieces do not matter: a head that ends at or before offset 65533 is found, one that ends after 65536 is
      refused, and so is a stream without an end of head. */
  lemma {:induction false} HeadFound(buffer: string, chunks: seq<string>)
    requires Arriving(chunks) && HeadEnd(buffer).None? && |buffer| <= HEAD_LIMIT
    ensures var s, r := buffer + Stream(chunks), ReadHead(buffer, chunks);
            match HeadEnd(s)
            case None => r.None?
            case Some(p) =>
              && (p > HEAD_LIMIT ==> r.None?)
              && (p <= HEAD_LIMIT - 3 ==> r.Some?)
              && (r.Some? ==> r.value.0 == s[..p + 4] && Arriving(r.value.2) && r.value.1 + Stream(r.value.2) == s[p + 4..])
    decreases |Stream(chunks)|
  {
    hide HeadEnd, Received, Pending, Stream;
    var s := buffer + Stream(chunks);
    ReadSplits(chunks, BLOCK);
    if chunks == [] {
      assert s == buffer;
    } else {
      var more, rest := buffer + Received(chunks, BLOCK), Pending(chunks, BLOCK);
      assert s == more + Stream(rest) && s[..|more|] == more;
      HeadEndOfPrefix(s, |more|);
      if HeadEnd(more).None? {
        if |more| <= HEAD_LIMIT {
          HeadFound(more, rest);
        }
      } else {
        var p := HeadEnd(more).value;
        assert more[..p + 4] == s[..p + 4] && more[p + 4..] + Stream(rest) == s[p + 4..];
      }
    }
  }

  /** Head and bytes after it, as the connection sees them. */
  function HeadOf(chunks: seq<string>): Option<(string, string)>
    requires Arriving(chunks)
  {
    match ReadHead("", chunks)
    case None => None
    case Some((head, body, rest)) => Some((head, body + Stream(rest)))
  }

  ghost predicate Independent(s: string) {
    forall a, b | Arriving(a) && Arriving(b) && Stream(a) == s && Stream(b) == s :: HeadOf(a) == HeadOf(b)
  }

  /** `n` full blocks of `s`. */
  function Blocks(s: string, n: nat): (r: seq<string>)
    requires n * BLOCK <= |s|
    ensures Arriving(r)
  {
    if n == 0 then [] else [s[..BLOCK]] + Blocks(s[BLOCK..], n - 1)
  }

  lemma {:induction false} ReadBlocks(buffer: string, s: string, n: nat, tail: seq<string>)
    requires n * BLOCK <= |s| && |buffer| + n * BLOCK <= HEAD_LIMIT && Arriving(tail)
    requires HeadEnd(buffer + s[..n * BLOCK]).None?
    ensures Arriving(Blocks(s, n) + tail) && Stream(Blocks(s, n) + tail) == s[..n * BLOCK] + Stream(tail)
    ensures ReadHead(buffer, Blocks(s, n) + tail) == ReadHead(buffer + s[..n * BLOCK], tail)
    decreases n
  {
    hide HeadEnd, ReadHead, Stream;
    var chunks := Blocks(s, n) + tail;
    if n == 0 {
      assert chunks == tail && buffer + s[..0] == buffer && s[..0] + Stream(tail) == Stream(tail);
    } else {
      var rest := Blocks(s[BLOCK..], n - 1) + tail;
      var more := buffer + s[..BLOCK];
      assert chunks == [s[..BLOCK]] + rest;
      assert more + s[BLOCK..][..(n - 1) * BLOCK] == buffer + s[..n * BLOCK];
      assert (buffer + s[..n * BLOCK])[..|more|] == more;
      HeadEndOfPrefix(buffer + s[..n * BLOCK], |more|);
      ReadBlocks(more, s[BLOCK..], n - 1, tail);
      StreamOfTwo(s[..BLOCK], rest);
      ReadMore(buffer, s[..BLOCK], rest);
      assert s[..BLOCK] + (s[BLOCK..][..(n - 1) * BLOCK] + Stream(tail)) == s[..n * BLOCK] + Stream(tail);
    }
  }

  lemma EarlyReads(s: string, p: nat) returns (chunks: seq<string>)
    requires HeadEnd(s) == Some(p) && HEAD_LIMIT - 3 < p <= HEAD_LIMIT
    ensures Arriving(chunks) && Stream(chunks) == s && HeadOf(chunks).None?
  {
    hide HeadEnd, ReadHead, Stream, Blocks;
    var cut, byte, rest := s[..HEAD_LIMIT], s[HEAD_LIMIT..HEAD_LIMIT + 1], s[HEAD_LIMIT + 1..];
    HeadEndOfPrefix(s, HEAD_LIMIT);
    HeadEndOfPrefix(s, HEAD_LIMIT + 1);
    assert "" + cut == cut && cut + byte == s[..HEAD_LIMIT + 1];
    ReadBlocks("", s, 16, [byte] + [rest]);
    StreamOfTwo(byte, [rest]);
    StreamOfTwo(rest, []);
    assert [rest] + [] == [rest];
    assert cut + (byte + (rest + "")) == s;
    ReadMore(cut, byte, [rest]);
    chunks := Blocks(s, 16) + ([byte] + [rest]);
  }

  lemma LateReads(s: string, p: nat) returns (chunks: seq<string>)
    requires HeadEnd(s) == Some(p) && HEAD_LIMIT - 3 < p <= HEAD_LIMIT
    ensures Arriving(chunks) && Stream(chunks) == s && HeadOf(chunks).Some?
  {
    hide HeadEnd, ReadHead, Stream, Blocks;
    var cut, more := s[..HEAD_LIMIT], s[HEAD_LIMIT..p + 4];
    var rest := if p + 4 == |s| then [] else [s[p + 4..]];
    HeadEndOfPrefix(s, HEAD_LIMIT);
    HeadEndOfPrefix(s, p + 4);
    assert "" + cut == cut && cut + more == s[..p + 4];
    ReadBlocks("", s, 16, [more] + rest);
    StreamOfTwo(more, rest);
    StreamOfRest(s, p);
    assert cut + (more + s[p + 4..]) == s;
    ReadMore(cut, more, rest);
    chunks := Blocks(s, 16) + ([more] + rest);
  }

  /** When the end of the head starts at offset 65534, 65535 or 65536, sixteen full reads and one byte lose the
      request that sixteen full reads and one longer read would have found. */
  lemma OneByteTooEarly(s: string, p: nat)
    requires HeadEnd(s) == Some(p) && HEAD_LIMIT - 3 < p <= HEAD_LIMIT
    ensures !Independent(s)
  {
    hide HeadEnd, HeadOf, Stream;
    var early := EarlyReads(s, p);
    var late := LateReads(s, p);
    assert HeadOf(early) != HeadOf(late);
  }

  lemma StreamOfTwo(chunk: string, rest: seq<string>)
    ensures Stream([chunk] + rest) == chunk + Stream(rest) && Stream([]) == ""
  {
    assert ([chunk] + rest)[1..] == rest;
  }

  lemma StreamOfRest(s: string, p: nat)
    requires p + 4 <= |s|
    ensures Stream(if p + 4 == |s| then [] else [s[p + 4..]]) == s[p + 4..]
  {
    if p + 4 < |s| {
      StreamOfTwo(s[p + 4..], []);
      assert [s[p + 4..]] + [] == [s[p + 4..]] && s[p + 4..] + "" == s[p + 4..];
    }
  }

  lemma ReadMore(buffer: string, chunk: string, rest: seq<string>)
    requires 0 < |chunk| <= BLOCK && Arriving(rest) && Arriving([chunk] + rest)
    ensures ReadHead(buffer, [chunk] + rest) ==
            match HeadEnd(buffer + chunk)
            case Some(p) => if p > HEAD_LIMIT then None else Some(((buffer + chunk)[..p + 4], (buffer + chunk)[p + 4..], rest))
            case None => if |buffer + chunk| > HEAD_LIMIT then None else ReadHead(buffer + chunk, rest)
  {
    hide HeadEnd;
    assert ([chunk] + rest)[1..] == rest;
  }

  /** Independence from fragmentation: every way of cutting the stream gives the same head and the same bytes after
      it, if and only if the end of the head does not start at offset 65534, 65535 or 65536. */
  lemma FragmentationExact(s: string)
    ensures Independent(s) <==> !(HeadEnd(s).Some? && HEAD_LIMIT - 3 < HeadEnd(s).value <= HEAD_LIMIT)
  {
    hide HeadEnd, ReadHead, Stream;
    if HeadEnd(s).Some? && HEAD_LIMIT - 3 < HeadEnd(s).value <= HEAD_LIMIT {
      OneByteTooEarly(s, HeadEnd(s).value);
    } else {
      HeadEndIs("", 0);
      assert "" + s == s;
      forall a, b | Arriving(a) && Arriving(b) && Stream(a) == s && Stream(b) == s ensures HeadOf(a) == HeadOf(b) {
        HeadFound("", a);
        HeadFound("", b);
      }
    }
  }

  // ----- the length

  datatype Declared = Length(n: nat) | Malformed | TooLarge

  /** What a Content-Length value declares: a run of digits above the limit is too large whatever follows it. */
  function DeclaredLength(raw: string): Declared {
    var run := raw[..Span(IsDigit, raw)];
    if ValueOf(run) > BODY_LIMIT then TooLarge
    else if |run| < |raw| then Malformed
    else Length(ValueOf(run))
  }

  lemma {:induction false} ValueGrows(s: string, k: nat)
    requires AllDigits(s) && k <= |s|
    ensures ValueOf(s[..k]) <= ValueOf(s)
  {
    if k < |s| {
      ValueGrows(s[..|s| - 1], k);
      assert s[..|s| - 1][..k] == s[..k];
    } else {
      assert s[..k] == s;
    }
  }

  /** The digit loop. It stops at the first character that is no digit and after the first digit that takes the
      length over the limit, so the length stays far below the range of size_t. */
  method ReadLength(raw: string) returns (length: nat, valid: bool)
    ensures length <= 10 * BODY_LIMIT + 9
    ensures length > BODY_LIMIT <==> DeclaredLength(raw) == TooLarge
    ensures length <= BODY_LIMIT ==> DeclaredLength(raw) == if valid then Length(length) else Malformed
  {
    length, valid := 0, true;
    var i := 0;
    var n := Span(IsDigit, raw);
    assert raw[..0] == "";
    while i < |raw|
      invariant i <= n && length == ValueOf(raw[..i]) && length <= 10 * BODY_LIMIT + 9
    {
      assert raw[..n][..i] == raw[..i];
      ValueGrows(raw[..n], i);
      if raw[i] < '0' || raw[i] > '9' || length > BODY_LIMIT {
        valid := false;
        break;
      }
      assert raw[..i + 1][..i] == raw[..i];
      length := length * 10 + (raw[i] as int - '0' as int);
      i := i + 1;
    }
    if valid {
      assert raw[..n] == raw[..i];
    }
  }

  /** Every number is read exactly up to the limit and refused as too large above it. */
  lemma LengthExact(n: nat)
    ensures DeclaredLength(Show(n)) == if n <= BODY_LIMIT then Length(n) else TooLarge
  {
    var d := Digits(n);
    SpanIs(IsDigit, d, |d|);
    assert d[..|d|] == d;
    ValueOfDigits(n);
  }

  // ----- the body

  /** The body loop: read until the declared length is there, then drop what was read beyond it. */
  function ReadBody(body: string, length: nat, chunks: seq<string>): Option<string>
    requires Arriving(chunks)
    decreases |Stream(chunks)|
  {
    if |body| >= length then Some(body[..length])
    else
      var max := if BLOCK < length - |body| then BLOCK else length - |body|;
      ReadSplits(chunks, max);
      if chunks == [] then None else ReadBody(body + Received(chunks, max), length, Pending(chunks, max))
  }

  lemma {:induction false} BodyExact(body: string, length: nat, chunks: seq<string>)
    requires Arriving(chunks)
    ensures var s := body + Stream(chunks);
            ReadBody(body, length, chunks) == if |s| >= length then Some(s[..length]) else None
    decreases |Stream(chunks)|
  {
    hide Received, Pending, Stream;
    var s := body + Stream(chunks);
    if |body| >= length {
      assert body[..length] == s[..length];
    } else {
      var max := if BLOCK < length - |body| then BLOCK else length - |body|;
      ReadSplits(chunks, max);
      if chunks != [] {
        var more := body + Received(chunks, max);
        BodyExact(more, length, Pending(chunks, max));
        assert more + Stream(Pending(chunks, max)) == s;
      }
    }
  }

  // ----- the connection

  /** Statuses 400, 400 and 413, or the request and body given to the handler. */
  datatype Outcome = BadHeader | BadFraming | PayloadTooLarge | Handled(request: HttpRequest, body: string)

  const TRANSFER_ENCODING: string := "transfer-encoding"

  function HeaderValue(request: HttpRequest, name: string): string {
    if name in request.headers then request.headers[name] else ""
  }

  /** No Transfer-Encoding, and a Content-Length that is not empty. */
  predicate FramingAllowed(request: HttpRequest) {
    TRANSFER_ENCODING !in request.headers && (LENGTH in request.headers ==> request.headers[LENGTH] != "")
  }

  function Deliver(request: HttpRequest, body: string, chunks: seq<string>): Outcome
    requires Arriving(chunks)
  {
    match DeclaredLength(HeaderValue(request, LENGTH))
    case TooLarge => PayloadTooLarge
    case Malformed => BadFraming
    case Length(n) =>
      if !FramingAllowed(request) then BadFraming
      else
        match ReadBody(body, n, chunks)
        case None => BadFraming
        case Some(b) => Handled(request, b)
  }

  function Connection(chunks: seq<string>): Outcome
    requires Arriving(chunks)
  {
    match ReadHead("", chunks)
    case None => BadHeader
    case Some((head, body, rest)) =>
      HeadLeavesArriving("", chunks);
      match ParseRequest(head)
      case None => BadHeader
      case Some(request) => Deliver(request, body, rest)
  }

  lemma {:induction false} HeadLeavesArriving(buffer: string, chunks: seq<string>)
    requires Arriving(chunks)
    ensures ReadHead(buffer, chunks).Some? ==> Arriving(ReadHead(buffer, chunks).value.2)
    decreases |Stream(chunks)|
  {
    hide HeadEnd, Received, Pending, Stream;
    if chunks != [] {
      ReadSplits(chunks, BLOCK);
      HeadLeavesArriving(buffer + Received(chunks, BLOCK), Pending(chunks, BLOCK));
    }
  }

  method HandleConnection(socket: Socket) returns (outcome: Outcome)
    requires Arriving(socket.chunks)
    modifies socket
    ensures outcome == Connection(old(socket.chunks))
  {
    hide ReadHead, ParseRequest, DeclaredLength;
    HeadLeavesArriving("", socket.chunks);
    var ok, head, body := ReadRequestHead(socket);
    if !ok {
      return BadHeader;
    }
    var request := ParseHttpRequest(head);
    if request.None? {
      return BadHeader;
    }
    var valid := TRANSFER_ENCODING !in request.value.headers;
    var raw := HeaderValue(request.value, LENGTH);
    if LENGTH in request.value.headers && raw == "" {
      valid := false;
    }
    var length, digits := ReadLength(raw);
    if length > BODY_LIMIT {
      return PayloadTooLarge;
    }
    valid := valid && digits;
    ghost var start, rest := body, socket.chunks;
    while valid && |body| < length
      invariant Arriving(socket.chunks)
      invariant valid ==> ReadBody(start, length, rest) == ReadBody(body, length, socket.chunks)
      invariant !valid ==> DeclaredLength(raw) == Malformed || !FramingAllowed(request.value) || ReadBody(start, length, rest) == None
      decreases |Stream(socket.chunks)|, valid
    {
      var max := if BLOCK < length - |body| then BLOCK else length - |body|;
      ReadSplits(socket.chunks, max);
      var data := socket.Read(max);
      if data == "" {
        valid := false;
        break;
      }
      body := body + data;
    }
    if !valid {
      return BadFraming;
    }
    return Handled(request.value, body[..length]);
  }

  /** The same verdict read off the whole stream: head up to the empty line, body exactly the Content-Length bytes
      after it (section 6.2 of RFC 9112). */
  function Framed(s: string): Outcome {
    match HeadEnd(s)
    case None => BadHeader
    case Some(p) =>
      if p > HEAD_LIMIT then BadHeader
      else
        match ParseRequest(s[..p + 4])
        case None => BadHeader
        case Some(request) =>
          match DeclaredLength(HeaderValue(request, LENGTH))
          case TooLarge => PayloadTooLarge
          case Malformed => BadFraming
          case Length(n) =>
            if !FramingAllowed(request) || |s| < p + 4 + n then BadFraming
            else Handled(request, s[p + 4..p + 4 + n])
  }

  /** However the stream is cut into reads, the connection is framed as the stream is, unless the end of the head
      starts at offset 65534, 65535 or 65536. */
  lemma ConnectionExact(chunks: seq<string>)
    requires Arriving(chunks)
    requires var p := HeadEnd(Stream(chunks)); p.None? || p.value <= HEAD_LIMIT - 3 || p.value > HEAD_LIMIT
    ensures Connection(chunks) == Framed(Stream(chunks))
  {
    hide HeadEnd, ReadHead, Stream, ReadBody, ParseRequest, DeclaredLength;
    var s := Stream(chunks);
    HeadEndIs("", 0);
    assert "" + s == s;
    HeadFound("", chunks);
    var r := ReadHead("", chunks);
    if r.Some? {
      var p := HeadEnd(s).value;
      var (head, body, rest) := r.value;
      var request := ParseRequest(head);
      if request.Some? && DeclaredLength(HeaderValue(request.value, LENGTH)).Length? {
        var n := DeclaredLength(HeaderValue(request.value, LENGTH)).n;
        BodyExact(body, n, rest);
        assert |s| >= p + 4 + n ==> s[p + 4..][..n] == s[p + 4..p + 4 + n];
      }
    }
  }

  // ----- which requests reach the handler

  lemma DeclaredExact(raw: string, n: nat)
    ensures DeclaredLength(raw) == Length(n) <==> AllDigits(raw) && ValueOf(raw) == n && n <= 0x10_0000
  {
    if AllDigits(raw) {
      SpanIs(IsDigit, raw, |raw|);
      assert raw[..|raw|] == raw;
    }
  }

  /** The length a head declares: none without Content-Length, no Transfer-Encoding beside it, digits, at most 1 MiB. */
  predicate Declares(request: HttpRequest, n: nat) {
    && "transfer-encoding" !in request.headers
    && if "content-length" in request.headers then
         var raw := request.headers["content-length"];
         raw != "" && AllDigits(raw) && ValueOf(raw) == n && n <= 0x10_0000
       else n == 0
  }

  /** The handler is given a request and a body if and only if the head before the empty line is that request and the
      bytes after it, as many as it declares, are that body. */
  lemma HandledExact(s: string, request: HttpRequest, body: string)
    ensures Framed(s) == Handled(request, body) <==>
            && HeadEnd(s).Some? && HeadEnd(s).value <= 0x1_0000
            && ParseRequest(s[..HeadEnd(s).value + 4]) == Some(request)
            && Declares(request, |body|) && body <= s[HeadEnd(s).value + 4..]
  {
    hide HeadEnd, ParseRequest, DeclaredLength;
    DeclaredExact(HeaderValue(request, LENGTH), |body|);
    assert ValueOf("") == 0;
    if HeadEnd(s).Some? {
      var rest := s[HeadEnd(s).value + 4..];
      var declared := DeclaredLength(HeaderValue(request, LENGTH));
      if declared.Length? {
        DeclaredExact(HeaderValue(request, LENGTH), declared.n);
        var p := HeadEnd(s).value + 4;
        assert p + declared.n <= |s| ==> s[p..p + declared.n] == rest[..declared.n];
      }
      assert body <= rest ==> body == rest[..|body|];
    }
  }
}
