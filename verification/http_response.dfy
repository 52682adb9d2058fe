// The HTTP/1.1 response parser of components/esp-ml307/src/http_client.cc (ProcessReceivedData and
// its helpers) on byte strings, with the C library calls it leans on spelled out.
module HttpResponse {
  import opened Bytes
  import opened Common

  const CR: byte := 13
  const LF: byte := 10
  const CRLF: seq<byte> := [13, 10]
  const ULONG_MAX: nat := 0xFFFF_FFFF
  const SEMICOLON: byte := 59
  const COLON: byte := 58

  // ---------------------------------------------------------------------------------------
  // Strings.

  /** The least offset of c in s, or |s|. */
  function IndexOf(s: seq<byte>, c: byte): (i: nat)
    ensures i <= |s| && c !in s[..i] && (i < |s| ==> s[i] == c)
  {
    if s == [] || s[0] == c then 0
    else
      var i := IndexOf(s[1..], c);
      assert s[..i + 1] == [s[0]] + s[1..][..i];
      i + 1
  }

  predicate Blank(c: byte) {
    c == 32 || c == 9
  }

  predicate IsSpace(c: byte) {
    c == 32 || 9 <= c <= 13
  }

  function TrimLeft(s: seq<byte>): seq<byte> {
    if s != [] && Blank(s[0]) then TrimLeft(s[1..]) else s
  }

  function SkipSpace(s: seq<byte>): (r: seq<byte>)
    ensures |r| <= |s|
  {
    if s != [] && IsSpace(s[0]) then SkipSpace(s[1..]) else s
  }

  /** Drops trailing blanks, and trailing line ends too when `eol` is set. */
  function TrimRight(s: seq<byte>, eol: bool): seq<byte> {
    if s != [] && (Blank(s[|s| - 1]) || (eol && s[|s| - 1] in CRLF)) then TrimRight(s[..|s| - 1], eol) else s
  }

  function Lower(s: seq<byte>): seq<byte> {
    seq(|s|, i requires 0 <= i < |s| => if 65 <= s[i] <= 90 then s[i] + 32 else s[i])
  }

  predicate Contains(s: seq<byte>, pat: seq<byte>)
    decreases |s|
  {
    |pat| <= |s| && (s[..|pat|] == pat || Contains(s[1..], pat))
  }

  // ---------------------------------------------------------------------------------------
  // strtoul and strtol, whole string or nothing, on the ESP32's 32-bit long.

  /** The value of a digit in bases up to 16, or 16. */
  function Digit(c: byte): nat {
    if 48 <= c <= 57 then c - 48
    else if 97 <= c <= 102 then c - 87
    else if 65 <= c <= 70 then c - 55
    else 16
  }

  function DigitsValue(s: seq<byte>, base: nat): Option<nat> {
    if s == [] then Some(0)
    else
      var d := Digit(s[|s| - 1]);
      var high := DigitsValue(s[..|s| - 1], base);
      if d >= base || high.None? then None else Some(high.value * base + d)
  }

  /** A c_str() ends at the first zero byte. */
  function CString(s: seq<byte>): seq<byte> {
    s[..IndexOf(s, 0)]
  }

  function Unprefixed(s: seq<byte>, base: nat): seq<byte> {
    if base == 16 && |s| > 2 && s[0] == 48 && s[1] in {88, 120} && Digit(s[2]) < 16 then s[2..] else s
  }

  /** strtoul(s, &end, base) followed by `end != s && *end == 0`. */
  function Strtoul(s: seq<byte>, base: nat): Option<nat> {
    var t := SkipSpace(CString(s));
    var negative := t != [] && t[0] == 45;
    var u := Unprefixed(if negative || (t != [] && t[0] == 43) then t[1..] else t, base);
    if u == [] then None
    else match DigitsValue(u, base)
      case None => None
      case Some(v) =>
        if v > ULONG_MAX then Some(ULONG_MAX)
        else if negative && v > 0 then Some(ULONG_MAX + 1 - v)
        else Some(v)
  }

  /** strtol in base 10 with the same checks; its limits lie far outside the range the caller accepts. */
  function Strtol(s: seq<byte>): Option<int> {
    var t := SkipSpace(CString(s));
    var negative := t != [] && t[0] == 45;
    var u := if negative || (t != [] && t[0] == 43) then t[1..] else t;
    if u == [] then None
    else match DigitsValue(u, 10)
      case None => None
      case Some(v) =>
        var n: int := if negative then 0 - v else v;
        Some(n)
  }

  // ---------------------------------------------------------------------------------------
  // The parser.

  datatype Phase = StatusLine | Headers | Body | ChunkSize | ChunkData | ChunkTrailer | Complete

  /** The fields that the status line and the headers set. */
  datatype Head = Head(status: int, headers: map<seq<byte>, seq<byte>>, received: bool, keepAlive: bool,
                       chunked: bool, contentLength: nat)

  /** HttpClient's parsing fields; `body` is everything handed to AddBodyData so far. */
  datatype Parser = Parser(phase: Phase, rx: seq<byte>, head: Head, total: nat, chunkSize: nat,
                           chunkReceived: nat, eof: bool, error: bool, body: seq<byte>)

  /** What every call finds and leaves. */
  predicate Sound(p: Parser) {
    (p.phase == StatusLine || p.phase == Headers || p.phase == Body ==> !p.head.chunked)
    && (p.phase == ChunkData ==> p.chunkReceived < p.chunkSize)
  }

  // The header names and values the parser looks for.
  const CONNECTION: seq<byte> := [99, 111, 110, 110, 101, 99, 116, 105, 111, 110]
  const KEEP_ALIVE: seq<byte> := [107, 101, 101, 112, 45, 97, 108, 105, 118, 101]
  const CLOSE: seq<byte> := [99, 108, 111, 115, 101]
  const TRANSFER_ENCODING: seq<byte> :=
    [116, 114, 97, 110, 115, 102, 101, 114, 45, 101, 110, 99, 111, 100, 105, 110, 103]
  const CHUNKED: seq<byte> := [99, 104, 117, 110, 107, 101, 100]
  const CONTENT_LENGTH: seq<byte> := [99, 111, 110, 116, 101, 110, 116, 45, 108, 101, 110, 103, 116, 104]

  /** The end of the word that s starts with. */
  function WordEnd(s: seq<byte>): (n: nat)
    ensures n <= |s|
  {
    if s == [] || IsSpace(s[0]) then 0 else 1 + WordEnd(s[1..])
  }

  function ParseStatusLine(line: seq<byte>): Option<int> {
    var version := SkipSpace(line);
    var rest := SkipSpace(version[WordEnd(version)..]);
    if version == [] || rest == [] then None
    else match Strtol(rest[..WordEnd(rest)])
      case None => None
      case Some(v) => if 100 <= v <= 999 then Some(v) else None
  }

  function ParseHeaderLine(line: seq<byte>): Option<(seq<byte>, seq<byte>)> {
    var colon := IndexOf(line, COLON);
    if colon == |line| then None
    else Some((Lower(TrimRight(TrimLeft(line[..colon]), false)), TrimRight(TrimLeft(line[colon + 1..]), true)))
  }

  function ParseChunkSize(line: seq<byte>): nat {
    match Strtoul(TrimRight(line[..IndexOf(line, SEMICOLON)], true), 16)
    case None => 0
    case Some(v) => v
  }

  /** What the blank line behind the headers settles. */
  function HeadersEnd(h: Head): (r: Head)
    ensures r.chunked ==> h.chunked || TRANSFER_ENCODING in h.headers
  {
    var alive :=
      if CONNECTION !in h.headers then h.keepAlive
      else
        var value := Lower(h.headers[CONNECTION]);
        if Contains(value, KEEP_ALIVE) then true else if Contains(value, CLOSE) then false else h.keepAlive;
    if TRANSFER_ENCODING in h.headers && Contains(h.headers[TRANSFER_ENCODING], CHUNKED) then
      h.(keepAlive := alive, chunked := true, received := true)
    else
      var length :=
        if CONTENT_LENGTH !in h.headers then h.contentLength
        else match Strtoul(h.headers[CONTENT_LENGTH], 10) case None => 0 case Some(v) => v;
      h.(keepAlive := alive, contentLength := length, received := true)
  }

  predicate LinePhase(phase: Phase) {
    phase == StatusLine || phase == Headers || phase == ChunkSize || phase == ChunkTrailer
  }

  /** One pass of ProcessReceivedData's loop: it goes on, or the function returns. */
  datatype Pass = Stop(p: Parser) | Next(p: Parser)

  /** What one complete line does; a line that cannot be parsed raises the error event. */
  function OnLine(p: Parser, line: seq<byte>): (r: Pass)
    requires LinePhase(p.phase) && Sound(p)
    ensures r.p.rx == p.rx && Sound(r.p)
  {
    match p.phase
    case StatusLine =>
      var status := ParseStatusLine(line);
      if status.None? then Stop(p.(error := true))
      else Next(p.(head := p.head.(status := status.value), phase := Headers))
    case Headers =>
      if line == [] then
        var head := HeadersEnd(p.head);
        Next(p.(head := head, phase := if head.chunked then ChunkSize else Body))
      else
        var header := ParseHeaderLine(line);
        if header.None? then Stop(p.(error := true))
        else Next(p.(head := p.head.(headers := p.head.headers[header.value.0 := header.value.1])))
    case ChunkSize =>
      var size := ParseChunkSize(line);
      Next(p.(chunkSize := size, chunkReceived := 0, phase := if size == 0 then ChunkTrailer else ChunkData))
    case _ =>
      Next(if line == [] then p.(phase := Complete, eof := true) else p)
  }

  /** GetNextLine's result: the line without its CR. */
  function Stripped(line: seq<byte>): seq<byte> {
    if line != [] && line[|line| - 1] == CR then line[..|line| - 1] else line
  }

  /** The CHUNK_DATA case: as much of the chunk as has arrived, and the CRLF behind it if it is there too. */
  function TakeData(p: Parser): (r: Parser)
    requires p.phase == ChunkData && p.chunkReceived < p.chunkSize && p.rx != []
    ensures Sound(r) && |r.rx| < |p.rx| && r.head == p.head && r.error == p.error
  {
    var n := Min(|p.rx|, p.chunkSize - p.chunkReceived);
    var rest := p.rx[n..];
    var q := p.(body := p.body + p.rx[..n], total := p.total + n, chunkReceived := p.chunkReceived + n);
    if p.chunkReceived + n == p.chunkSize then
      q.(phase := ChunkSize, rx := if |rest| >= 2 && rest[..2] == CRLF then rest[2..] else rest)
    else q.(rx := rest)
  }

  function OnePass(p: Parser): (r: Pass)
    requires Sound(p) && p.rx != [] && p.phase != Complete
    ensures Sound(r.p) && (r.Next? ==> |r.p.rx| < |p.rx|)
  {
    if p.phase == Body then Next(p.(body := p.body + p.rx, total := p.total + |p.rx|, rx := []))
    else if p.phase == ChunkData then Next(TakeData(p))
    else
      var i := IndexOf(p.rx, LF);
      if i == |p.rx| then Stop(p) else OnLine(p.(rx := p.rx[i + 1..]), Stripped(p.rx[..i]))
  }

  /** The check behind the loop. */
  function CountedEnd(p: Parser): Parser {
    if p.phase == Body && !p.head.chunked && p.head.contentLength > 0 && p.total >= p.head.contentLength then
      p.(phase := Complete, eof := true)
    else p
  }

  /** ProcessReceivedData */
  function Process(p: Parser): (r: Parser)
    requires Sound(p)
    ensures Sound(r)
    decreases |p.rx|
  {
    if p.rx == [] || p.phase == Complete then CountedEnd(p)
    else match OnePass(p)
      case Stop(q) => q
      case Next(q) => Process(q)
  }

  /** OnTcpData, once the segment has been admitted. */
  function Feed(p: Parser, data: seq<byte>): (r: Parser)
    requires Sound(p)
    ensures Sound(r)
  {
    Process(p.(rx := p.rx + data))
  }

  function FeedAll(p: Parser, pieces: seq<seq<byte>>): (r: Parser)
    requires Sound(p)
    ensures Sound(r)
    decreases |pieces|
  {
    if pieces == [] then p else FeedAll(Feed(p, pieces[0]), pieces[1..])
  }

  /** ResetRequestState */
  function Fresh(keepAlive: bool): Parser {
    Parser(StatusLine, [], Head(-1, map[], false, keepAlive, false, 0), 0, 0, 0, false, false, [])
  }

  // ---------------------------------------------------------------------------------------
  // The writer of chunks.

  function HexDigit(d: nat): byte
    requires d < 16
  {
    if d < 10 then 48 + d else 87 + d
  }

  /** `std::hex << n` */
  function Hex(n: nat): (s: seq<byte>)
    ensures s != []
  {
    if n < 16 then [HexDigit(n)] else Hex(n / 16) + [HexDigit(n % 16)]
  }

  /** What Write sends in chunked mode; an empty buffer ends the body. */
  function WriteChunk(data: seq<byte>): seq<byte> {
    if data == [] then [48] + CRLF + CRLF else Hex(|data|) + CRLF + data + CRLF
  }

  /** All writes, and the empty one that ends them. */
  function ChunkStream(writes: seq<seq<byte>>): seq<byte> {
    if writes == [] then WriteChunk([]) else WriteChunk(writes[0]) + ChunkStream(writes[1..])
  }

  lemma {:induction false} HexValue(n: nat)
    ensures DigitsValue(Hex(n), 16) == Some(n)
    ensures forall c | c in Hex(n) :: Digit(c) < 16
    ensures n > 0 ==> Hex(n)[0] != 48
  {
    var s := Hex(n);
    if n < 16 {
      assert s[..0] == [];
    } else {
      HexValue(n / 16);
      assert s[..|s| - 1] == Hex(n / 16);
    }
  }

  lemma {:induction false} TrimNothing(s: seq<byte>)
    requires s != [] && Digit(s[|s| - 1]) < 16
    ensures TrimRight(s, true) == s
  {
  }

  lemma {:induction false} AbsentMeansEnd(s: seq<byte>, c: byte)
    requires c !in s
    ensures IndexOf(s, c) == |s|
  {
  }

  /** A chunk's size line is read back as the size that was written. */
  lemma {:induction false} ChunkSizeRoundTrip(n: nat)
    requires 0 < n <= ULONG_MAX
    ensures ParseChunkSize(Hex(n)) == n
  {
    var s := Hex(n);
    HexValue(n);
    AbsentMeansEnd(s, SEMICOLON);
    AbsentMeansEnd(s, 0);
    assert s[..|s|] == s;
    TrimNothing(s);
    assert s[0] in s;
    assert SkipSpace(s) == s;
  }
}
