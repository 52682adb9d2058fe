// A whole chunked response: status line, headers that select chunked coding, and the chunks, cut into
// segments anywhere (sections 4 and 5 of RFC 9112 for the head).
module HttpHead {
  import opened Bytes
  import opened Common
  import opened HttpResponse
  import opened HttpWords
  import opened HttpSegments
  import opened HttpChunks

  // ---------------------------------------------------------------------------------------
  // The error event is raised by the parser exactly when the machine meets a line it refuses.

  lemma {:induction false} FoldErrorStays(m: Machine, s: seq<byte>)
    requires Sound(m.p) && m.p.error && m.behind == Nothing
    ensures Fold(m, s).p.error && Fold(m, s).behind == Nothing
    decreases |s|
  {
    if s != [] {
      assert OnByte(m, s[0]) == Machine(m.p.(rx := m.p.rx + [s[0]]), Nothing);
      FoldErrorStays(OnByte(m, s[0]), s[1..]);
    }
  }

  lemma {:induction false} ReadErrorStays(m: Machine, sym: seq<Symbol>)
    requires Sound(m.p) && m.p.error && m.behind == Nothing
    ensures Read(m, sym).p.error
    decreases |sym|
  {
    if sym != [] {
      hide PlainByte, CountedEnd;
      ErrorStep(m, sym[0]);
      ReadErrorStays(OnSymbol(m, sym[0]), sym[1..]);
    }
  }

  lemma ErrorStep(m: Machine, y: Symbol)
    requires Sound(m.p) && m.p.error && m.behind == Nothing
    ensures OnSymbol(m, y).p.error && OnSymbol(m, y).behind == Nothing
  {
    hide OnLine, Stripped;
  }

  lemma {:induction false} CleanProcess(p: Parser, s: seq<byte>)
    requires Steady(Machine(p, Nothing)) && !Fold(Machine(p, Nothing), s).p.error
    ensures !Process(p.(rx := p.rx + s)).error
    decreases |s|
  {
    hide Process, Fold, OnLine, Stripped, IndexOf;
    if InChunks(p.phase) {
      ChunksStayClean(p.(rx := p.rx + s));
    } else if p.phase == Body {
      BodyStaysClean(p.(rx := p.rx + s));
    } else {
      LinePass(p, s);
      FoldToLine(p, s);
      var i := IndexOf(s, LF);
      if i < |s| {
        var line := Stripped(p.rx + s[..i]);
        LineApart(p, line, []);
        var q := OnLine(p.(rx := []), line);
        if q.p.error {
          FoldErrorStays(Machine(q.p, Nothing), s[i + 1..]);
        }
        assert q.p.rx + s[i + 1..] == s[i + 1..];
        LineSteady(p, line);
        CleanProcess(q.p, s[i + 1..]);
      }
    }
  }

  /** The error event is raised exactly if the machine refuses a line. */
  lemma ErrorExactly(p: Parser, s: seq<byte>)
    requires Steady(Machine(p, Nothing))
    ensures Process(p.(rx := p.rx + s)).error <==> Fold(Machine(p, Nothing), s).p.error
  {
    hide Process, Fold, OnCut;
    if !Process(p.(rx := p.rx + s)).error {
      ProcessIsFold(p, s);
    }
    if !Fold(Machine(p, Nothing), s).p.error {
      CleanProcess(p, s);
    }
  }

  lemma LineSteady(p: Parser, line: seq<byte>)
    requires Sound(p) && LinePhase(p.phase) && !OnLine(p.(rx := []), line).p.error
    ensures Steady(Machine(OnLine(p.(rx := []), line).p, Nothing))
  {
    hide ParseStatusLine, ParseHeaderLine, ParseChunkSize, HeadersEnd;
  }

  lemma BodyStaysClean(p: Parser)
    requires Sound(p) && p.phase == Body && !p.error
    ensures !Process(p).error
  {
    if p.rx != [] {
      ProcessOnce(p);
    }
  }

  /**
   * Feeding in two pieces is feeding at once wherever the machine does not notice the cut, if it
   * refuses no line of the whole.
   */
  lemma UnnoticedCut(p: Parser, a: seq<byte>, b: seq<byte>)
    requires Steady(Machine(p, Nothing)) && !Fold(Machine(p, Nothing), a + b).p.error
    requires var m := Fold(Machine(p, Nothing), a); OnCut(m) == m
    ensures Feed(Feed(p, a), b) == Feed(p, a + b)
  {
    hide Process, Fold, OnCut, Sound;
    var m := Fold(Machine(p, Nothing), a);
    CutEndsQuiet(m);
    FoldAppend(Machine(p, Nothing), a, b);
    if m.p.error {
      FoldErrorStays(m, b);
    }
    CleanProcess(p, a + b);
    CleanProcess(p, a);
    ProcessIsFold(p, a);
    CleanProcess(Feed(p, a), b);
    CutInvisible(p, a, b);
  }

  /** Two feeds and one are runs of the machine, if it refuses nothing. */
  lemma FeedsAreFolds(p: Parser, a: seq<byte>, b: seq<byte>)
    requires Steady(Machine(p, Nothing)) && !Fold(Machine(p, Nothing), a + b).p.error
    requires var m := Fold(Machine(p, Nothing), a); !m.p.error && !Fold(OnCut(m), b).p.error
    ensures var m := Fold(Machine(p, Nothing), a);
      && Feed(p, a + b) == OnCut(Fold(m, b)).p
      && Feed(Feed(p, a), b) == OnCut(Fold(OnCut(m), b)).p
  {
    hide Process, Fold, OnCut, Sound;
    var m := Fold(Machine(p, Nothing), a);
    CutEndsQuiet(m);
    FoldAppend(Machine(p, Nothing), a, b);
    CleanProcess(p, a + b);
    ProcessIsFold(p, a + b);
    CleanProcess(p, a);
    ProcessIsFold(p, a);
    CleanProcess(Feed(p, a), b);
    ProcessIsFold(Feed(p, a), b);
  }

  /** What was in front of a CRLF was chunk data. */
  predicate BehindData(m: Machine) {
    (m.behind != Nothing ==> m.p.phase == ChunkSize && m.p.rx == []) && (m.p.phase == ChunkData ==> m.p.rx == [])
  }

  lemma BehindDataStep(m: Machine, b: byte)
    requires Sound(m.p) && BehindData(m) && !m.p.error
    ensures var n := OnByte(m, b); if n.p.error then n.behind == Nothing else BehindData(n)
  {
    hide ParseStatusLine, ParseHeaderLine, ParseChunkSize, HeadersEnd, Stripped;
  }

  lemma {:induction false} SteadyBehind(m: Machine, a: seq<byte>)
    requires Sound(m.p) && BehindData(m) && !m.p.error && !Fold(m, a).p.error
    ensures BehindData(Fold(m, a))
    decreases |a|
  {
    hide OnByte, Sound, BehindData;
    if a != [] {
      BehindDataStep(m, a[0]);
      if OnByte(m, a[0]).p.error {
        FoldErrorStays(OnByte(m, a[0]), a[1..]);
      }
      SteadyBehind(OnByte(m, a[0]), a[1..]);
    }
  }

  /** Some bytes by which a cut shows that the machine does notice. */
  function Telling(m: Machine): seq<byte> {
    match m.behind
    case Nothing => [0]
    case WantCr => CRLF
    case WantLf => [LF]
  }

  lemma CutTells(m: Machine)
    requires Sound(m.p) && BehindData(m) && !m.p.error && OnCut(m) != m
    ensures var b := Telling(m);
      && !Fold(m, b).p.error && !Fold(OnCut(m), b).p.error
      && OnCut(Fold(m, b)).p != OnCut(Fold(OnCut(m), b)).p
  {
    hide Stripped, ParseChunkSize;
    match m.behind
    case Nothing =>
      FoldOne(m, 0);
      FoldOne(OnCut(m), 0);
    case WantCr =>
      FoldOne(Machine(m.p, WantLf), LF);
      FoldTwo(m, CR, LF);
      FoldTwo(OnCut(m), CR, LF);
      assert [] + [CR] == [CR];
    case WantLf =>
      FoldOne(m, LF);
      FoldOne(OnCut(m), LF);
      assert [] + [CR] == [CR];
  }

  lemma FoldOne(m: Machine, b: byte)
    requires Sound(m.p)
    ensures Fold(m, [b]) == OnByte(m, b)
  {
    hide OnByte;
    assert [b][1..] == [];
    FoldEmpty(OnByte(m, b));
  }

  lemma FoldTwo(m: Machine, a: byte, b: byte)
    requires Sound(m.p)
    ensures Fold(m, [a, b]) == OnByte(OnByte(m, a), b)
  {
    hide OnByte;
    assert [a, b][1..] == [b];
    FoldOne(OnByte(m, a), b);
  }

  /** A segment may end behind a, whatever follows that is not refused, exactly if the machine does not notice. */
  lemma CutInvisibleExactly(p: Parser, a: seq<byte>)
    requires Steady(Machine(p, Nothing)) && !Fold(Machine(p, Nothing), a).p.error
    ensures var m := Fold(Machine(p, Nothing), a);
      (forall b | !Fold(m, b).p.error && !Fold(OnCut(m), b).p.error :: Feed(Feed(p, a), b) == Feed(p, a + b))
        <==> OnCut(m) == m
  {
    hide Process, Fold, OnCut, Feed;
    var m := Fold(Machine(p, Nothing), a);
    forall b | !Fold(m, b).p.error && !Fold(OnCut(m), b).p.error
      ensures Feed(p, a + b) == OnCut(Fold(m, b)).p && Feed(Feed(p, a), b) == OnCut(Fold(OnCut(m), b)).p
    {
      FoldAppend(Machine(p, Nothing), a, b);
      FeedsAreFolds(p, a, b);
    }
    if OnCut(m) != m {
      assert BehindData(m) by { StartsBehind(p); SteadyBehind(Machine(p, Nothing), a); }
      CutTells(m);
    }
  }

  lemma StartsBehind(p: Parser)
    requires Steady(Machine(p, Nothing))
    ensures BehindData(Machine(p, Nothing))
  {
  }

  lemma {:induction false} CleanFeeds(p: Parser, pieces: seq<seq<byte>>)
    requires Steady(Machine(p, Nothing)) && !Read(Machine(p, Nothing), Symbols(pieces)).p.error
    ensures Clean(p, pieces)
    decreases |pieces|
  {
    hide Process, Fold, OnByte, OnCut, Read;
    if pieces != [] {
      var m := Fold(Machine(p, Nothing), pieces[0]);
      var rest := [Cut] + Symbols(pieces[1..]);
      assert Symbols(pieces) == Spelled(pieces[0]) + rest;
      assert rest[1..] == Symbols(pieces[1..]);
      ReadSpelled(Machine(p, Nothing), pieces[0], rest);
      ReadCut(m, rest);
      if m.p.error {
        CutKeepsError(m);
        CutEndsQuiet(m);
        ReadErrorStays(OnCut(m), Symbols(pieces[1..]));
      }
      CleanProcess(p, pieces[0]);
      ProcessIsFold(p, pieces[0]);
      CutEndsQuiet(m);
      CleanFeeds(Feed(p, pieces[0]), pieces[1..]);
    }
  }

  lemma ReadCut(m: Machine, sym: seq<Symbol>)
    requires Sound(m.p) && sym != [] && sym[0].Cut?
    ensures Read(m, sym) == Read(OnCut(m), sym[1..])
  {
  }

  // ---------------------------------------------------------------------------------------
  // Text in which no cut matters.

  predicate Quiet(m: Machine, s: seq<byte>)
    requires Sound(m.p)
    decreases |s|
  {
    OnCut(m) == m && (s == [] || Quiet(OnByte(m, s[0]), s[1..]))
  }

  lemma {:induction false} QuietAppend(m: Machine, a: seq<byte>, b: seq<byte>)
    requires Sound(m.p) && Quiet(m, a) && Quiet(Fold(m, a), b)
    ensures Quiet(m, a + b)
    decreases |a|
  {
    hide OnByte, OnCut, Sound;
    if a == [] {
      assert a + b == b;
    } else {
      assert (a + b)[1..] == a[1..] + b && (a + b)[0] == a[0];
      QuietAppend(OnByte(m, a[0]), a[1..], b);
    }
  }

  /** The symbols behind the n-th byte. */
  function Dropped(sym: seq<Symbol>, n: nat): seq<Symbol> {
    if n == 0 || sym == [] then sym else Dropped(sym[1..], if sym[0].Cut? then n else n - 1)
  }

  lemma {:induction false} ReadQuiet(m: Machine, sym: seq<Symbol>, s: seq<byte>, t: seq<byte>)
    requires Sound(m.p) && Quiet(m, s) && Text(sym) == s + t
    ensures Read(m, sym) == Read(Fold(m, s), Dropped(sym, |s|)) && Text(Dropped(sym, |s|)) == t
    decreases |sym|
  {
    hide OnByte, OnCut, Sound;
    if s == [] {
      assert s + t == t;
    } else if sym != [] && sym[0].Cut? {
      assert Text(sym) == Text(sym[1..]);
      ReadQuiet(m, sym[1..], s, t);
    } else if sym != [] {
      assert Text(sym) == [sym[0].b] + Text(sym[1..]);
      assert sym[0].b == (s + t)[0] == s[0];
      assert Text(sym[1..]) == Text(sym)[1..] == s[1..] + t;
      ReadQuiet(OnByte(m, s[0]), sym[1..], s[1..], t);
    }
  }

  lemma {:induction false} CutAtDropped(sym: seq<Symbol>, n: nat, k: nat)
    ensures n > 0 || k > 0 ==> (CutAt(Dropped(sym, n), k) <==> CutAt(sym, n + k))
    decreases |sym|
  {
    if n > 0 && sym != [] {
      CutAtDropped(sym[1..], if sym[0].Cut? then n else n - 1, k);
      if n == 1 && sym[0].B? && k == 0 {
        assert Dropped(sym[1..], 0) == sym[1..];
      }
    }
  }

  lemma {:induction false} SplitsDropped(sym: seq<Symbol>, n: nat, d: nat, writes: seq<seq<byte>>)
    requires d > 0
    ensures Splits(Dropped(sym, n), d, writes) <==> Splits(sym, n + d, writes)
    decreases |writes|
  {
    hide SizeLine, CutAt, Dropped;
    if writes != [] {
      CutAtDropped(sym, n, d);
      CutAtDropped(sym, n, d + 1);
      SplitsDropped(sym, n, d + 2 + |SizeLine(|writes[0]|)| + |writes[0]|, writes[1..]);
    }
  }

  // ---------------------------------------------------------------------------------------
  // Lines.

  lemma {:induction false} LineQuiet(p: Parser, line: seq<byte>)
    requires Sound(p) && !p.error && LinePhase(p.phase) && LF !in line
    ensures Quiet(Machine(p, Nothing), line)
    decreases |line|
  {
    if line != [] {
      LineQuiet(p.(rx := p.rx + [line[0]]), line[1..]);
    }
  }

  /** A complete line behind which a segment may end. */
  lemma WholeLine(p: Parser, line: seq<byte>)
    requires Sound(p) && !p.error && LinePhase(p.phase) && p.rx == [] && LF !in line
    requires CountedEnd(OnLine(p, line).p) == OnLine(p, line).p && (line == [] || line[|line| - 1] != CR)
    ensures Quiet(Machine(p, Nothing), line + CRLF)
    ensures Fold(Machine(p, Nothing), line + CRLF) == Machine(OnLine(p, line).p, Nothing)
  {
    hide OnLine, Fold, Quiet, OnCut, Stripped;
    var text := line + [CR];
    LineQuiet(p, text);
    FoldLine(p, text);
    StrippedCr(line);
    assert [] + text == text;
    var m := Machine(p.(rx := text), Nothing);
    LineEnds(m, p, line);
    QuietAppend(Machine(p, Nothing), text, [LF]);
    FoldAppend(Machine(p, Nothing), text, [LF]);
  }

  lemma StrippedCr(line: seq<byte>)
    ensures Stripped(line + [CR]) == line && line + [CR] + [LF] == line + CRLF
  {
    assert (line + [CR])[..|line|] == line;
  }

  lemma LineEnds(m: Machine, p: Parser, line: seq<byte>)
    requires Sound(p) && !p.error && LinePhase(p.phase) && p.rx == []
    requires m == Machine(p.(rx := line + [CR]), Nothing) && Stripped(line + [CR]) == line
    requires CountedEnd(OnLine(p, line).p) == OnLine(p, line).p
    ensures Fold(m, [LF]) == Machine(OnLine(p, line).p, Nothing) && Quiet(m, [LF])
  {
    hide OnLine, Stripped;
    assert p.(rx := []) == p;
    assert OnByte(m, LF) == Machine(OnLine(p, line).p, Nothing);
    FoldEmpty(OnByte(m, LF));
    assert [LF][1..] == [];
    assert Fold(m, [LF]) == Fold(OnByte(m, LF), []);
    assert OnCut(m) == m;
    assert Quiet(OnByte(m, LF), []);
  }

  // ---------------------------------------------------------------------------------------
  // The head of a response.

  datatype Header = Header(name: seq<byte>, value: seq<byte>)

  const SPACE: byte := 32

  /** A name that ends at its colon, and a value, both without blanks or line ends around them; either may be empty. */
  predicate Proper(h: Header) {
    && LF !in h.name && COLON !in h.name
    && (h.name != [] ==> !Blank(h.name[0]) && !Blank(h.name[|h.name| - 1]))
    && LF !in h.value
    && (h.value != [] ==>
          !Blank(h.value[0]) && !Blank(h.value[|h.value| - 1]) && h.value[|h.value| - 1] !in CRLF)
  }

  function HeaderLine(h: Header): seq<byte> {
    h.name + [COLON, SPACE] + h.value
  }

  function HeaderText(headers: seq<Header>): seq<byte> {
    if headers == [] then CRLF else HeaderLine(headers[0]) + CRLF + HeaderText(headers[1..])
  }

  /** The header map: lower-case names, later headers in front of earlier ones. */
  function Stored(headers: seq<Header>, before: map<seq<byte>, seq<byte>>): map<seq<byte>, seq<byte>> {
    if headers == [] then before
    else Stored(headers[1..], before[Lower(headers[0].name) := headers[0].value])
  }

  /** The value of the last header of that name, written in any case. */
  function LastNamed(headers: seq<Header>, name: string): Option<seq<byte>> {
    if headers == [] then None
    else
      var later := LastNamed(headers[1..], name);
      if later.Some? then later
      else if SameWord(headers[0].name, Ascii(name)) then Some(headers[0].value)
      else None
  }

  lemma {:induction false} StoredIs(headers: seq<Header>, before: map<seq<byte>, seq<byte>>, name: string)
    requires Small(Ascii(name))
    ensures var last := LastNamed(headers, name);
      Value(Stored(headers, before), name) == if last.Some? then last else Value(before, name)
    decreases |headers|
  {
    hide Lower, SameWord, Small;
    if headers != [] {
      LowerIs(headers[0].name, Ascii(name));
      StoredIs(headers[1..], before[Lower(headers[0].name) := headers[0].value], name);
    }
  }

  /** What the map keeps of the headers that the parser looks for. */
  lemma StoredValues(headers: seq<Header>)
    ensures var m := Stored(headers, map[]);
      && Value(m, "connection") == LastNamed(headers, "connection")
      && Value(m, "transfer-encoding") == LastNamed(headers, "transfer-encoding")
      && Value(m, "content-length") == LastNamed(headers, "content-length")
  {
    hide Stored, LastNamed;
    StoredIs(headers, map[], "connection");
    StoredIs(headers, map[], "transfer-encoding");
    StoredIs(headers, map[], "content-length");
  }

  // "HTTP/1.1", then the code, then the reason.
  const VERSION: seq<byte> := [72, 84, 84, 80, 47, 49, 46, 49]

  function Decimal(n: nat): (s: seq<byte>)
    ensures s != []
  {
    if n < 10 then [48 + n] else Decimal(n / 10) + [48 + n % 10]
  }

  function StatusText(code: nat, reason: seq<byte>): seq<byte> {
    VERSION + [SPACE] + Decimal(code) + [SPACE] + reason
  }

  lemma {:induction false} DecimalValue(n: nat)
    ensures DigitsValue(Decimal(n), 10) == Some(n)
    ensures forall c | c in Decimal(n) :: 48 <= c <= 57
    decreases n
  {
    var s := Decimal(n);
    if n < 10 {
      assert s[..0] == [];
    } else {
      DecimalValue(n / 10);
      assert s[..|s| - 1] == Decimal(n / 10);
    }
  }

  lemma {:induction false} WordEndAt(w: seq<byte>, rest: seq<byte>)
    requires (forall c | c in w :: !IsSpace(c)) && (rest == [] || IsSpace(rest[0]))
    ensures WordEnd(w + rest) == |w|
    decreases |w|
  {
    var s := w + rest;
    if w == [] {
      assert s == rest;
    } else {
      assert w[0] in w && s[0] == w[0] && s[1..] == w[1..] + rest;
      WordEndAt(w[1..], rest);
    }
  }

  /** A decimal code is read back. */
  lemma CodeValue(code: nat)
    ensures Strtol(Decimal(code)) == Some(code)
  {
    hide Decimal;
    var s := Decimal(code);
    DecimalValue(code);
    AbsentMeansEnd(s, 0);
    assert s[..|s|] == s && s[0] in s;
    assert SkipSpace(s) == s;
  }

  /** Where the two words of a status line are. */
  lemma StatusWords(version: seq<byte>, code: nat, reason: seq<byte>)
    requires version != [] && forall c | c in version :: !IsSpace(c)
    ensures var line := version + [SPACE] + Decimal(code) + [SPACE] + reason;
      && SkipSpace(line) == line && line != [] && WordEnd(line) == |version|
      && line[|version|..] == [SPACE] + (Decimal(code) + ([SPACE] + reason))
  {
    hide WordEnd, Decimal;
    var line := version + [SPACE] + Decimal(code) + [SPACE] + reason;
    var rest := [SPACE] + (Decimal(code) + ([SPACE] + reason));
    assert line == version + rest;
    assert line[0] == version[0] && version[0] in version;
    WordEndAt(version, rest);
  }

  lemma CodeWord(code: nat, reason: seq<byte>)
    ensures var rest := Decimal(code) + ([SPACE] + reason);
      && SkipSpace([SPACE] + rest) == rest && rest != []
      && WordEnd(rest) == |Decimal(code)| && rest[..|Decimal(code)|] == Decimal(code)
  {
    hide WordEnd, Decimal;
    var digits := Decimal(code);
    DecimalValue(code);
    assert digits[0] in digits;
    SkipOne(digits + ([SPACE] + reason));
    WordEndAt(digits, [SPACE] + reason);
  }

  /** A status line: a word, a decimal code, and whatever follows; a code outside 100 to 999 is refused. */
  lemma StatusExactly(version: seq<byte>, code: nat, reason: seq<byte>)
    requires version != [] && forall c | c in version :: !IsSpace(c)
    ensures ParseStatusLine(version + [SPACE] + Decimal(code) + [SPACE] + reason)
      == if 100 <= code <= 999 then Some(code) else None
  {
    hide Strtol, WordEnd, Decimal, SkipSpace;
    StatusWords(version, code, reason);
    CodeWord(code, reason);
    CodeValue(code);
  }

  lemma StatusRead(code: nat, reason: seq<byte>)
    requires 100 <= code <= 999
    ensures ParseStatusLine(StatusText(code, reason)) == Some(code)
    ensures VERSION == Ascii("HTTP/1.1") && [SPACE] == Ascii(" ")
  {
    hide Decimal, ParseStatusLine;
    StatusExactly(VERSION, code, reason);
  }

  /** A status line of one word is refused. */
  lemma StatusMissing(version: seq<byte>)
    requires forall c | c in version :: !IsSpace(c)
    ensures ParseStatusLine(version) == None
  {
    hide WordEnd;
    WordEndAt(version, []);
    assert version + [] == version;
    if version != [] {
      assert version[0] in version;
    }
    assert SkipSpace(version) == version && version[|version|..] == [];
  }

  lemma SkipOne(s: seq<byte>)
    requires s != [] && !IsSpace(s[0])
    ensures SkipSpace([SPACE] + s) == s
  {
    assert ([SPACE] + s)[1..] == s;
  }

  lemma {:induction false} IndexBehind(w: seq<byte>, c: byte, rest: seq<byte>)
    requires c !in w
    ensures IndexOf(w + [c] + rest, c) == |w|
    decreases |w|
  {
    var s := w + [c] + rest;
    if w != [] {
      assert s[0] == w[0] && s[1..] == w[1..] + [c] + rest;
      IndexBehind(w[1..], c, rest);
    }
  }

  /** A proper header line is read back. */
  lemma HeaderRead(h: Header)
    requires Proper(h)
    ensures ParseHeaderLine(HeaderLine(h)) == Some((Lower(h.name), h.value))
  {
    hide Lower, IndexOf;
    var line := HeaderLine(h);
    IndexBehind(h.name, COLON, [SPACE] + h.value);
    assert line == h.name + [COLON] + ([SPACE] + h.value);
    assert line[..|h.name|] == h.name && line[|h.name| + 1..] == [SPACE] + h.value;
    assert ([SPACE] + h.value)[1..] == h.value;
    assert TrimLeft([SPACE] + h.value) == h.value;
    assert TrimRight(h.value, true) == h.value && TrimLeft(h.name) == TrimRight(h.name, false) == h.name;
  }

  predicate Blanks(s: seq<byte>) {
    forall c | c in s :: Blank(c)
  }

  /** Blanks, and line ends. */
  predicate Trimmable(s: seq<byte>) {
    forall c | c in s :: Blank(c) || c in CRLF
  }

  lemma {:induction false} LeftTrimmed(b: seq<byte>, s: seq<byte>)
    requires Blanks(b) && (s == [] || !Blank(s[0]))
    ensures TrimLeft(b + s) == s
  {
    if b == [] {
      assert b + s == s;
    } else {
      assert b[0] in b && (b + s)[1..] == b[1..] + s;
      LeftTrimmed(b[1..], s);
    }
  }

  lemma {:induction false} RightTrimmed(s: seq<byte>, e: seq<byte>, eol: bool)
    requires if eol then Trimmable(e) else Blanks(e)
    requires s == [] || (!Blank(s[|s| - 1]) && (eol ==> s[|s| - 1] !in CRLF))
    ensures TrimRight(s + e, eol) == s
    decreases |e|
  {
    if e == [] {
      assert s + e == s;
    } else {
      var last := e[|e| - 1];
      assert last in e && (s + e)[..|s + e| - 1] == s + e[..|e| - 1];
      RightTrimmed(s, e[..|e| - 1], eol);
    }
  }

  /** Blanks around the name and the value do not matter; a line without a colon is refused. */
  lemma HeaderTrimmed(h: Header, a: seq<byte>, b: seq<byte>, c: seq<byte>, d: seq<byte>)
    requires Proper(h) && Blanks(a) && Blanks(b) && Blanks(c) && Trimmable(d)
    ensures ParseHeaderLine(a + h.name + b + [COLON] + c + h.value + d) == Some((Lower(h.name), h.value))
  {
    hide Lower, IndexOf, TrimLeft, TrimRight;
    var key, value := a + h.name + b, c + h.value + d;
    var line := a + h.name + b + [COLON] + c + h.value + d;
    assert line == key + [COLON] + value;
    forall x | x in key ensures x != COLON {
      assert x in a || x in h.name || x in b;
    }
    IndexBehind(key, COLON, value);
    assert line[..|key|] == key && line[|key| + 1..] == value;
    Around(a, h.name, b, false);
    Around(c, h.value, d, true);
  }

  lemma Around(a: seq<byte>, s: seq<byte>, e: seq<byte>, eol: bool)
    requires Blanks(a) && if eol then Trimmable(e) else Blanks(e)
    requires s != [] ==> !Blank(s[0]) && !Blank(s[|s| - 1]) && (eol ==> s[|s| - 1] !in CRLF)
    ensures TrimRight(TrimLeft(a + s + e), eol) == s
  {
    hide TrimLeft, TrimRight;
    assert a + s + e == a + (s + e);
    if s == [] {
      assert s + e == e;
      AllTrimmed(a, e, eol);
    } else {
      LeftTrimmed(a, s + e);
      RightTrimmed(s, e, eol);
    }
  }

  lemma {:induction false} AllTrimmed(a: seq<byte>, e: seq<byte>, eol: bool)
    requires Blanks(a) && if eol then Trimmable(e) else Blanks(e)
    ensures TrimRight(TrimLeft(a + e), eol) == []
    decreases |a| + |e|
  {
    hide TrimRight;
    var x := a + e;
    if x == [] || !Blank(x[0]) {
      assert Trimmable(x) && (!eol ==> Blanks(x)) by { EndsBoth(a, e, eol); }
      RightTrimmed([], x, eol);
      assert [] + x == x;
    } else if a != [] {
      assert x[1..] == a[1..] + e;
      AllTrimmed(a[1..], e, eol);
    } else {
      assert x[1..] == [] + e[1..];
      AllTrimmed([], e[1..], eol);
    }
  }

  lemma EndsBoth(a: seq<byte>, e: seq<byte>, eol: bool)
    requires Blanks(a) && if eol then Trimmable(e) else Blanks(e)
    ensures Trimmable(a + e) && (!eol ==> Blanks(a + e))
  {
  }

  lemma HeaderRefused(line: seq<byte>)
    ensures ParseHeaderLine(line) == None <==> COLON !in line
  {
    if COLON !in line {
      AbsentMeansEnd(line, COLON);
    }
  }

  /**
   * A chunk size in hexadecimal digits of either case, with blanks behind it and an extension behind a
   * semicolon, is read back; a size that is too large counts as the largest one.
   */
  lemma ChunkSizeRead(n: nat, digits: seq<byte>, blanks: seq<byte>, extension: seq<byte>)
    requires n > 0 && SameWord(digits, Hex(n)) && Blanks(blanks)
    requires extension == [] || extension[0] == SEMICOLON
    ensures ParseChunkSize(digits + blanks + extension) == if n <= 0xFFFF_FFFF then n else 0xFFFF_FFFF
  {
    hide TrimRight, IndexOf, DigitsValue, Hex;
    HexValue(n);
    DigitsAnyCase(digits, Hex(n));
    var size := digits + blanks;
    var line := size + extension;
    forall c | c in size ensures c != SEMICOLON {
      assert c in digits || c in blanks;
    }
    if extension == [] {
      AbsentMeansEnd(line, SEMICOLON);
      assert line == size;
    } else {
      assert line == size + [SEMICOLON] + extension[1..];
      IndexBehind(size, SEMICOLON, extension[1..]);
    }
    assert line[..|size|] == size;
    assert digits[|digits| - 1] in digits && digits[0] in digits;
    RightTrimmed(digits, blanks, true);
    AbsentMeansEnd(digits, 0);
    assert digits[..|digits|] == digits;
    assert SkipSpace(digits) == digits;
    assert SameLetter(digits[0], Hex(n)[0]) && Hex(n)[0] in Hex(n);
  }

  /** The prefix "0x", in either case, makes no difference. */
  lemma ChunkSizePrefixed(n: nat, x: char)
    requires n > 0 && (x == 'x' || x == 'X')
    ensures ParseChunkSize(Ascii("0") + [x as int] + Hex(n)) == if n <= 0xFFFF_FFFF then n else 0xFFFF_FFFF
  {
    hide TrimRight, IndexOf, DigitsValue, Hex;
    var digits := Hex(n);
    var line: seq<byte> := [48, x as int] + digits;
    assert Ascii("0") + [x as int] + digits == line;
    HexValue(n);
    forall c | c in line ensures c != SEMICOLON && c != 0 {
      assert c in digits || c == 48 || c == x as int;
    }
    assert digits[|digits| - 1] in digits && digits[0] in digits;
    AbsentMeansEnd(line, SEMICOLON);
    AbsentMeansEnd(line, 0);
    assert line[..|line|] == line && line[2..] == digits;
    RightTrimmed(line, [], true);
    assert line + [] == line;
    assert SkipSpace(line) == line;
  }

  lemma {:induction false} DigitsAnyCase(s: seq<byte>, t: seq<byte>)
    requires SameWord(s, t) && forall c | c in t :: Digit(c) < 16
    ensures DigitsValue(s, 16) == DigitsValue(t, 16) && forall c | c in s :: Digit(c) < 16
    decreases |s|
  {
    forall c | c in s ensures Digit(c) < 16 {
      var k :| 0 <= k < |s| && s[k] == c;
      assert SameLetter(s[k], t[k]) && t[k] in t;
    }
    if s != [] {
      DigitsAnyCase(s[..|s| - 1], t[..|t| - 1]);
      assert SameLetter(s[|s| - 1], t[|t| - 1]) && t[|t| - 1] in t;
    }
  }

  lemma HeaderLineEnds(h: Header)
    requires Proper(h)
    ensures LF !in HeaderLine(h) && HeaderLine(h) != [] && HeaderLine(h)[|HeaderLine(h)| - 1] != CR
  {
  }

  /** The parser behind a header section. */
  function BehindHeaders(p: Parser, headers: seq<Header>): Parser {
    var head := HeadersEnd(p.head.(headers := Stored(headers, p.head.headers)));
    p.(head := head, phase := if head.chunked then ChunkSize else Body)
  }

  /** Reading the headers and the empty line behind them. */
  lemma {:induction false} HeadersRead(p: Parser, headers: seq<Header>)
    requires Sound(p) && !p.error && p.phase == Headers && p.rx == []
    requires forall h | h in headers :: Proper(h)
    requires var q := BehindHeaders(p, headers);
      q.head.chunked || q.head.contentLength == 0 || q.total < q.head.contentLength
    ensures Quiet(Machine(p, Nothing), HeaderText(headers))
    ensures Fold(Machine(p, Nothing), HeaderText(headers)) == Machine(BehindHeaders(p, headers), Nothing)
    decreases |headers|
  {
    hide Fold, Quiet, HeadersEnd, HeaderLine, Proper, ParseHeaderLine, Lower;
    if headers == [] {
      assert p.head.(headers := p.head.headers) == p.head;
      WholeLine(p, []);
      assert [] + CRLF == CRLF;
    } else {
      var h := headers[0];
      assert h in headers;
      HeaderLineEnds(h);
      HeaderRead(h);
      WholeLine(p, HeaderLine(h));
      var q := p.(head := p.head.(headers := p.head.headers[Lower(h.name) := h.value]));
      HeadersRead(q, headers[1..]);
      QuietAppend(Machine(p, Nothing), HeaderLine(h) + CRLF, HeaderText(headers[1..]));
      FoldAppend(Machine(p, Nothing), HeaderLine(h) + CRLF, HeaderText(headers[1..]));
    }
  }

  function HeadText(code: nat, reason: seq<byte>, headers: seq<Header>): seq<byte> {
    StatusText(code, reason) + CRLF + HeaderText(headers)
  }

  /** The last Transfer-Encoding header has "chunked" in it. */
  ghost predicate SelectsChunked(headers: seq<Header>) {
    Has(LastNamed(headers, "transfer-encoding"), Ascii("chunked"))
  }

  lemma StatusLineEnds(code: nat, reason: seq<byte>)
    requires LF !in reason && (reason == [] || reason[|reason| - 1] != CR)
    ensures LF !in StatusText(code, reason)
    ensures StatusText(code, reason)[|StatusText(code, reason)| - 1] != CR
  {
    hide Decimal;
    DecimalValue(code);
    var s := VERSION + [SPACE] + Decimal(code) + [SPACE];
    assert StatusText(code, reason) == s + reason;
    assert LF !in VERSION;
  }

  /** The headers select no chunks, and announce a body of n bytes; or none, which counts as 0. */
  ghost predicate SelectsCounted(headers: seq<Header>, n: nat) {
    && !SelectsChunked(headers)
    && (var length := LastNamed(headers, "content-length"); if length.Some? then length == Some(Decimal(n)) else n == 0)
  }

  /** Whether the connection is kept, by the last Connection header. */
  ghost predicate Keeps(headers: seq<Header>, before: bool) {
    Alive(LastNamed(headers, "connection"), before)
  }

  /** What the blank line makes of these headers. */
  lemma HeadSettled(h: Head, headers: seq<Header>, n: nat)
    requires h.headers == Stored(headers, map[]) && !h.chunked && h.contentLength == 0
    requires SelectsChunked(headers) || (SelectsCounted(headers, n) && n <= ULONG_MAX)
    ensures var r := HeadersEnd(h);
      && r.received && r.status == h.status && r.headers == h.headers
      && (r.keepAlive <==> Keeps(headers, h.keepAlive))
      && (r.chunked <==> SelectsChunked(headers)) && (!r.chunked ==> r.contentLength == n)
  {
    hide Stored, LastNamed, Has, Alive;
    HeadersEndMeans(h);
    StoredValues(headers);
    if !SelectsChunked(headers) {
      CountSettled(h, n);
    }
  }

  lemma CountSettled(h: Head, n: nat)
    requires !HeadersEnd(h).chunked && h.contentLength == 0 && n <= ULONG_MAX
    requires var length := Value(h.headers, "content-length");
      if length.Some? then length == Some(Decimal(n)) else n == 0
    ensures HeadersEnd(h).contentLength == n
  {
    hide Strtoul, Contains, Decimal, Lower;
    WordsSpelled();
    CountValue(n);
  }

  /** strtoul on a decimal number, with or without a sign: too large is the largest, negative wraps around. */
  lemma CountRead(n: nat)
    ensures Strtoul(Decimal(n), 10) == Some(if n <= 0xFFFF_FFFF then n else 0xFFFF_FFFF)
    ensures Strtoul(Ascii("+") + Decimal(n), 10) == Strtoul(Decimal(n), 10)
    ensures Strtoul(Ascii("-") + Decimal(n), 10) ==
      Some(if n == 0 then 0 else if n <= 0xFFFF_FFFF then 0x1_0000_0000 - n else 0xFFFF_FFFF)
  {
    hide Decimal;
    var s := Decimal(n);
    DecimalValue(n);
    assert s[0] in s;
    NoZero([], s);
    NoZero(Ascii("+"), s);
    NoZero(Ascii("-"), s);
    assert [] + s == s;
    assert (Ascii("+") + s)[1..] == s && (Ascii("-") + s)[1..] == s;
  }

  lemma {:induction false} DigitsRefuse(s: seq<byte>, base: nat, k: nat)
    requires k < |s| && Digit(s[k]) >= base
    ensures DigitsValue(s, base) == None
    decreases |s|
  {
    if k < |s| - 1 {
      DigitsRefuse(s[..|s| - 1], base, k);
    }
  }

  /** Anything else behind the number makes it none, which counts as 0. */
  lemma CountRefused(n: nat, c: byte, rest: seq<byte>)
    requires c != 0 && Digit(c) >= 10
    ensures Strtoul(Decimal(n) + [c] + rest, 10) == None
  {
    hide Decimal, DigitsValue;
    var s := Decimal(n);
    DecimalValue(n);
    var t := s + [c] + rest;
    var u := t[..IndexOf(t, 0)];
    assert forall k | 0 <= k < |s| :: t[k] == s[k] && s[k] in s;
    assert t[|s|] == c && s[0] in s;
    assert IndexOf(t, 0) > |s|;
    assert u[0] == s[0] && u[|s|] == c;
    assert SkipSpace(u) == u;
    DigitsRefuse(u, 10, |s|);
  }

  /** So the body that a head without chunks announces, by the text of its Content-Length. */
  lemma LengthSettled(h: Head, n: nat, c: byte, rest: seq<byte>)
    requires !HeadersEnd(h).chunked && c != 0 && Digit(c) >= 10
    ensures var length, value := HeadersEnd(h).contentLength, Value(h.headers, "content-length");
      && (value == None ==> length == h.contentLength)
      && (value == Some(Decimal(n)) ==> length == if n <= 0xFFFF_FFFF then n else 0xFFFF_FFFF)
      && (value == Some(Decimal(n) + [c] + rest) ==> length == 0) && (value == Some([]) ==> length == 0)
  {
    hide Strtoul, Contains, Decimal, Lower;
    WordsSpelled();
    CountRead(n);
    CountRefused(n, c, rest);
    assert Strtoul([], 10) == None by { NoDigits(); }
  }

  lemma NoDigits()
    ensures Strtoul([], 10) == None
  {
    assert IndexOf([], 0) == 0;
  }

  lemma NoZero(sign: seq<byte>, s: seq<byte>)
    requires (forall c | c in s :: 48 <= c <= 57) && s != [] && sign in [[], Ascii("+"), Ascii("-")]
    ensures CString(sign + s) == sign + s && SkipSpace(sign + s) == sign + s
    ensures sign + s != [] && (sign + s)[0] == if sign == [] then s[0] else sign[0]
    ensures Ascii("+") == [43] && Ascii("-") == [45]
  {
    var t := sign + s;
    assert Ascii("+") == [43] && Ascii("-") == [45];
    assert 0 !in t;
    AbsentMeansEnd(t, 0);
    assert t[..|t|] == t;
    assert s[0] in s;
    assert !IsSpace(t[0]);
  }

  lemma CountValue(n: nat)
    requires n <= ULONG_MAX
    ensures Strtoul(Decimal(n), 10) == Some(n)
  {
    hide Strtoul, Decimal;
    CountRead(n);
  }

  /** Reading a head, in front of chunks or of a body of n bytes. */
  lemma HeadRead(p: Parser, code: nat, reason: seq<byte>, headers: seq<Header>, n: nat)
    requires Sound(p) && !p.error && p.phase == StatusLine && p.rx == [] && p.head.headers == map[] && p.total == 0
    requires 100 <= code <= 999 && LF !in reason && (reason == [] || reason[|reason| - 1] != CR)
    requires forall h | h in headers :: Proper(h)
    requires SelectsChunked(headers) || (SelectsCounted(headers, n) && n <= ULONG_MAX)
    requires p.head.contentLength == 0
    ensures var text := HeadText(code, reason, headers);
      var m := Fold(Machine(p, Nothing), text);
      && Quiet(Machine(p, Nothing), text)
      && m.behind == Nothing && m.p.rx == [] && !m.p.error && m.p.body == p.body && m.p.total == 0 && m.p.eof == p.eof
      && m.p.head.status == code && m.p.head.headers == Stored(headers, map[])
      && m.p.head.received && (m.p.head.keepAlive <==> Keeps(headers, p.head.keepAlive))
      && (if SelectsChunked(headers) then m.p.phase == ChunkSize && m.p.head.chunked
          else m.p.phase == Body && !m.p.head.chunked && m.p.head.contentLength == n)
  {
    hide Fold, Quiet, HeaderText, StatusText, Proper, HeadersEnd, ParseStatusLine, Keeps, SelectsChunked,
      SelectsCounted, Stored;
    StatusLineEnds(code, reason);
    StatusRead(code, reason);
    HeadSettled(p.head.(status := code, headers := Stored(headers, map[])), headers, n);
    var line := StatusText(code, reason);
    WholeLine(p, line);
    var q := p.(head := p.head.(status := code), phase := Headers);
    HeadersRead(q, headers);
    QuietAppend(Machine(p, Nothing), line + CRLF, HeaderText(headers));
    FoldAppend(Machine(p, Nothing), line + CRLF, HeaderText(headers));
  }

  lemma {:induction false} ChunksKeepHead(m: Machine, sym: seq<Symbol>)
    requires Sound(m.p) && InChunks(m.p.phase) && !m.p.error
    ensures Read(m, sym).p.head == m.p.head && !Read(m, sym).p.error
    decreases |sym|
  {
    hide OnSymbol;
    if sym != [] {
      ChunkSymbol(m, sym[0]);
      ChunksKeepHead(OnSymbol(m, sym[0]), sym[1..]);
    }
  }

  lemma ChunkSymbol(m: Machine, y: Symbol)
    requires Sound(m.p) && InChunks(m.p.phase) && !m.p.error
    ensures var n := OnSymbol(m, y); n.p.head == m.p.head && InChunks(n.p.phase) && !n.p.error
  {
    hide ParseChunkSize, Stripped;
  }

  /**
   * A whole response, from the first byte, in any segments: the status and the headers are what was
   * sent, the parser reaches COMPLETE, and the body is what was written exactly if no segment ends in
   * front of or inside the CRLF of a chunk that is not the last.
   */
  lemma {:induction false} ChunkedResponse(keepAlive: bool, code: nat, reason: seq<byte>, headers: seq<Header>,
                                           writes: seq<seq<byte>>, pieces: seq<seq<byte>>)
    requires 100 <= code <= 999 && LF !in reason && (reason == [] || reason[|reason| - 1] != CR)
    requires (forall h | h in headers :: Proper(h)) && SelectsChunked(headers) && Writes(writes)
    requires Flatten(pieces) == HeadText(code, reason, headers) + ChunkStream(writes)
    ensures var q := FeedAll(Fresh(keepAlive), pieces);
      && q.phase == Complete && q.eof && !q.error
      && q.head.status == code && q.head.headers == Stored(headers, map[])
      && q.head.received && (q.head.keepAlive <==> Keeps(headers, keepAlive)) && !CutShort(q)
      && (q.body == Flatten(writes) <==> !SplitsCrlf(pieces, |HeadText(code, reason, headers)|, writes))
      && (q.body == Flatten(writes) ==> q.rx == [])
  {
    hide Fold, Quiet, Read, HeadText, Proper, SelectsChunked, ChunkStream, Splits, SizeLine, Text, Symbols,
      Dropped, Feed, FeedAll, Clean, Flatten, Writes;
    var p := Fresh(keepAlive);
    var m := Machine(p, Nothing);
    var head := HeadText(code, reason, headers);
    var sym := Symbols(pieces);
    HeadRead(p, code, reason, headers, 0);
    SymbolsText(pieces);
    ReadQuiet(m, sym, head, ChunkStream(writes));
    var n := Fold(m, head);
    FromLineStart(n, Dropped(sym, |head|), writes);
    ChunksKeepHead(n, Dropped(sym, |head|));
    CleanFeeds(p, pieces);
    FeedAllIsRead(p, pieces);
    assert [] + Flatten(writes) == Flatten(writes);
    if writes != [] {
      SizeLineSome(|writes[0]|);
      SplitsDropped(sym, |head|, |SizeLine(|writes[0]|)| + |writes[0]|, writes[1..]);
      SplitsIsSplitsCrlf(pieces, |head|, writes);
    }
  }

  lemma SizeLineSome(n: nat)
    ensures |SizeLine(n)| > 0
  {
  }

  // ---------------------------------------------------------------------------------------
  // Counted bodies.

  /** Every byte is followed by the end of a segment some time. */
  predicate EndsCut(sym: seq<Symbol>) {
    sym == [] || sym[|sym| - 1].Cut?
  }

  lemma {:induction false} SymbolsEndCut(pieces: seq<seq<byte>>)
    ensures EndsCut(Symbols(pieces))
    decreases |pieces|
  {
    if pieces != [] {
      SymbolsEndCut(pieces[1..]);
    }
  }

  lemma {:induction false} DroppedEndsCut(sym: seq<Symbol>, n: nat)
    requires EndsCut(sym)
    ensures EndsCut(Dropped(sym, n))
    decreases |sym|
  {
    if n > 0 && sym != [] {
      DroppedEndsCut(sym[1..], if sym[0].Cut? then n else n - 1);
    }
  }

  lemma BodySymbol(m: Machine, y: Symbol)
    requires Sound(m.p) && m.p.phase == Body && m.behind == Nothing && !m.p.error
    ensures OnSymbol(m, y) == Machine(
      if y.B? then m.p.(body := m.p.body + [y.b], total := m.p.total + 1)
      else if 0 < m.p.head.contentLength <= m.p.total then m.p.(phase := Complete, eof := true)
      else m.p, Nothing)
  {
    hide OnLine, Stripped;
  }

  /** The outcome of a body: all its bytes are kept, and its end is noticed if `whole`. */
  predicate Gets(q: Parser, p: Parser, data: seq<byte>, whole: bool) {
    && q.body == p.body + data && q.total == p.total + |data| && q.head == p.head && !q.error
    && q.phase == (if whole then Complete else Body) && q.eof == (p.eof || whole)
  }

  /** Reading a body, or a part of it: its end is where the announced length is reached, if that is not 0. */
  lemma {:induction false} FromCounted(m: Machine, sym: seq<Symbol>)
    requires Sound(m.p) && m.p.phase == Body && m.behind == Nothing && !m.p.error && EndsCut(sym)
    requires var n := m.p.head.contentLength;
      n == 0 || (m.p.total + |Text(sym)| <= n && (sym == [] ==> m.p.total < n))
    ensures Gets(Read(m, sym).p, m.p, Text(sym), 0 < m.p.head.contentLength == m.p.total + |Text(sym)|)
    decreases |sym|
  {
    hide OnSymbol, Read, EndsCut, Text;
    if sym == [] {
      NothingRead(m);
      assert m.p.body + [] == m.p.body;
    } else {
      BodySymbol(m, sym[0]);
      ReadFirst(m, sym);
      EndsCutTail(sym);
      TextFirst(sym);
      TextSome(sym[1..]);
      var n := OnSymbol(m, sym[0]);
      if sym[0].B? {
        FromCounted(n, sym[1..]);
        assert m.p.body + [sym[0].b] + Text(sym[1..]) == m.p.body + ([sym[0].b] + Text(sym[1..]));
      } else if 0 < m.p.head.contentLength <= m.p.total {
        assert m.p.body + [] == m.p.body;
        FromComplete(n, sym[1..]);
        CompleteKeepsHead(n, sym[1..]);
      } else {
        FromCounted(n, sym[1..]);
      }
    }
  }

  lemma NothingRead(m: Machine)
    requires Sound(m.p)
    ensures Read(m, []) == m && Text([]) == []
  {
  }

  lemma ReadFirst(m: Machine, sym: seq<Symbol>)
    requires Sound(m.p) && sym != []
    ensures Read(m, sym) == Read(OnSymbol(m, sym[0]), sym[1..])
  {
    hide OnSymbol;
  }

  lemma EndsCutTail(sym: seq<Symbol>)
    requires sym != [] && EndsCut(sym)
    ensures EndsCut(sym[1..]) && (sym[0].B? ==> sym[1..] != [])
  {
  }

  lemma TextFirst(sym: seq<Symbol>)
    requires sym != []
    ensures Text(sym) == if sym[0].B? then [sym[0].b] + Text(sym[1..]) else Text(sym[1..])
  {
  }

  lemma {:induction false} CompleteKeepsHead(m: Machine, sym: seq<Symbol>)
    requires Sound(m.p) && m.p.phase == Complete && m.behind == Nothing && !m.p.error
    ensures Read(m, sym).p.head == m.p.head && Read(m, sym).p.total == m.p.total && !Read(m, sym).p.error
    decreases |sym|
  {
    if sym != [] {
      CompleteKeepsHead(OnSymbol(m, sym[0]), sym[1..]);
    }
  }

  /**
   * A response with a counted body, or as much of it as has come, in any segments: the status and the
   * headers are what was sent and no byte of the body is lost. COMPLETE is reached exactly if the
   * announced length has come and is not 0; an empty body is never complete.
   */
  lemma {:induction false} CountedResponse(keepAlive: bool, code: nat, reason: seq<byte>, headers: seq<Header>,
                                           n: nat, data: seq<byte>, pieces: seq<seq<byte>>)
    requires 100 <= code <= 999 && LF !in reason && (reason == [] || reason[|reason| - 1] != CR)
    requires (forall h | h in headers :: Proper(h)) && !SelectsChunked(headers)
    requires SelectsCounted(headers, n) && n <= ULONG_MAX && (n == 0 || |data| <= n)
    requires Flatten(pieces) == HeadText(code, reason, headers) + data
    ensures var q := FeedAll(Fresh(keepAlive), pieces);
      && q.body == data && !q.error
      && q.head.status == code && q.head.headers == Stored(headers, map[]) && q.head.contentLength == n
      && q.head.received && (q.head.keepAlive <==> Keeps(headers, keepAlive))
      && (CutShort(q) <==> |data| < n)
      && (q.phase == Complete <==> 0 < n == |data|) && (q.eof <==> 0 < n == |data|)
  {
    hide Fold, Quiet, Read, HeadText, Proper, SelectsChunked, SelectsCounted, Text, Symbols, Dropped, Feed, FeedAll,
      Clean, Flatten, EndsCut;
    var p := Fresh(keepAlive);
    var m := Machine(p, Nothing);
    var head := HeadText(code, reason, headers);
    var sym := Symbols(pieces);
    HeadRead(p, code, reason, headers, n);
    SymbolsText(pieces);
    ReadQuiet(m, sym, head, data);
    SymbolsEndCut(pieces);
    DroppedEndsCut(sym, |head|);
    TextSome(Dropped(sym, |head|));
    FromCounted(Fold(m, head), Dropped(sym, |head|));
    CleanFeeds(p, pieces);
    FeedAllIsRead(p, pieces);
    assert [] + data == data;
  }

  lemma TextSome(sym: seq<Symbol>)
    ensures Text(sym) != [] ==> sym != []
  {
  }

  // ---------------------------------------------------------------------------------------
  // Responses that break off.

  /** A line that is not complete yet changes nothing. */
  lemma UnfinishedLine(p: Parser, line: seq<byte>, rest: seq<byte>, k: nat)
    requires Sound(p) && !p.error && LinePhase(p.phase) && LF !in line && k < |line + CRLF|
    ensures Fold(Machine(p, Nothing), (line + CRLF + rest)[..k]).p.phase == p.phase
  {
    hide Fold;
    var s := (line + CRLF + rest)[..k];
    assert s == (line + [CR])[..k];
    FoldLine(p, s);
  }

  lemma {:induction false} UnfinishedHeaders(p: Parser, headers: seq<Header>, k: nat)
    requires Sound(p) && !p.error && p.phase == Headers && p.rx == []
    requires (forall h | h in headers :: Proper(h)) && k < |HeaderText(headers)|
    ensures Fold(Machine(p, Nothing), HeaderText(headers)[..k]).p.phase == Headers
    decreases |headers|
  {
    hide Fold, Quiet, HeadersEnd, HeaderLine, Proper, ParseHeaderLine, Lower;
    if headers == [] {
      assert HeaderText(headers) == [] + CRLF + [];
      UnfinishedLine(p, [], [], k);
    } else {
      var h := headers[0];
      assert h in headers;
      HeaderLineEnds(h);
      var line := HeaderLine(h) + CRLF;
      if k < |line| {
        UnfinishedLine(p, HeaderLine(h), HeaderText(headers[1..]), k);
      } else {
        HeaderRead(h);
        WholeLine(p, HeaderLine(h));
        var q := p.(head := p.head.(headers := p.head.headers[Lower(h.name) := h.value]));
        UnfinishedHeaders(q, headers[1..], k - |line|);
        assert HeaderText(headers)[..k] == line + HeaderText(headers[1..])[..k - |line|];
        FoldAppend(Machine(p, Nothing), line, HeaderText(headers[1..])[..k - |line|]);
      }
    }
  }

  lemma UnfinishedHead(p: Parser, code: nat, reason: seq<byte>, headers: seq<Header>, k: nat)
    requires Sound(p) && !p.error && p.phase == StatusLine && p.rx == []
    requires 100 <= code <= 999 && LF !in reason && (reason == [] || reason[|reason| - 1] != CR)
    requires (forall h | h in headers :: Proper(h)) && k < |HeadText(code, reason, headers)|
    ensures !BehindHead(Fold(Machine(p, Nothing), HeadText(code, reason, headers)[..k]).p.phase)
  {
    hide Fold, Quiet, HeaderText, StatusText, Proper, ParseStatusLine;
    StatusLineEnds(code, reason);
    StatusRead(code, reason);
    var line := StatusText(code, reason);
    if k < |line + CRLF| {
      UnfinishedLine(p, line, HeaderText(headers), k);
    } else {
      WholeLine(p, line);
      var q := p.(head := p.head.(status := code), phase := Headers);
      var i := k - |line + CRLF|;
      UnfinishedHeaders(q, headers, i);
      assert HeadText(code, reason, headers)[..k] == line + CRLF + HeaderText(headers)[..i];
      FoldAppend(Machine(p, Nothing), line + CRLF, HeaderText(headers)[..i]);
    }
  }

  lemma {:induction false} QuietPart(m: Machine, a: seq<byte>, b: seq<byte>)
    requires Sound(m.p) && Quiet(m, a + b)
    ensures Quiet(m, a) && OnCut(Fold(m, a)) == Fold(m, a)
    decreases |a|
  {
    hide OnByte, OnCut, Sound;
    if a != [] {
      assert (a + b)[1..] == a[1..] + b && (a + b)[0] == a[0];
      QuietPart(OnByte(m, a[0]), a[1..], b);
    }
  }

  lemma {:induction false} ReadCuts(m: Machine, sym: seq<Symbol>)
    requires Sound(m.p) && OnCut(m) == m && Text(sym) == []
    ensures Read(m, sym) == m
    decreases |sym|
  {
    hide OnCut, OnByte;
    if sym != [] {
      ReadCuts(m, sym[1..]);
    }
  }

  /**
   * As long as the blank line has not come, the headers do not count as received, and a connection
   * that is lost then is no error.
   */
  lemma {:induction false} HeadCutShort(keepAlive: bool, code: nat, reason: seq<byte>, headers: seq<Header>, n: nat,
                                        k: nat, pieces: seq<seq<byte>>)
    requires 100 <= code <= 999 && LF !in reason && (reason == [] || reason[|reason| - 1] != CR)
    requires forall h | h in headers :: Proper(h)
    requires SelectsChunked(headers) || (SelectsCounted(headers, n) && n <= ULONG_MAX)
    requires k < |HeadText(code, reason, headers)| && Flatten(pieces) == HeadText(code, reason, headers)[..k]
    ensures var q := FeedAll(Fresh(keepAlive), pieces); !q.error && !q.head.received && !CutShort(q)
  {
    hide Fold, Quiet, Read, HeadText, Proper, SelectsChunked, SelectsCounted, Text, Symbols, Dropped, FeedAll, Clean,
      Flatten, OnCut;
    var p := Fresh(keepAlive);
    var m := Machine(p, Nothing);
    var head := HeadText(code, reason, headers);
    var sym := Symbols(pieces);
    HeadRead(p, code, reason, headers, n);
    UnfinishedHead(p, code, reason, headers, k);
    assert head[..k] + head[k..] == head;
    QuietPart(m, head[..k], head[k..]);
    FoldAppend(m, head[..k], head[k..]);
    if Fold(m, head[..k]).p.error {
      QuietEnds(Fold(m, head[..k]));
      FoldErrorStays(Fold(m, head[..k]), head[k..]);
    }
    SymbolsText(pieces);
    assert head[..k] + [] == head[..k];
    ReadQuiet(m, sym, head[..k], []);
    ReadCuts(Fold(m, head[..k]), Dropped(sym, k));
    CleanFeeds(p, pieces);
    FeedAllIsRead(p, pieces);
    ReceivedExactly(keepAlive, pieces);
  }

  lemma QuietEnds(m: Machine)
    requires OnCut(m) == m
    ensures m.behind == Nothing
  {
  }

  lemma {:induction false} ReadAppend(m: Machine, a: seq<Symbol>, b: seq<Symbol>)
    requires Sound(m.p)
    ensures Read(m, a + b) == Read(Read(m, a), b)
    decreases |a|
  {
    hide OnSymbol, Sound;
    if a == [] {
      assert a + b == b;
    } else {
      assert (a + b)[1..] == a[1..] + b && (a + b)[0] == a[0];
      ReadAppend(OnSymbol(m, a[0]), a[1..], b);
    }
  }

  /** Only a size line may have a CRLF in front of it. */
  predicate BehindSize(m: Machine) {
    m.behind != Nothing ==> m.p.phase == ChunkSize
  }

  lemma BehindSizeStep(m: Machine, y: Symbol)
    requires Sound(m.p) && BehindSize(m)
    ensures BehindSize(OnSymbol(m, y))
  {
    hide OnLine, Stripped;
  }

  lemma {:induction false} ReadBehindSize(m: Machine, sym: seq<Symbol>)
    requires Sound(m.p) && BehindSize(m)
    ensures BehindSize(Read(m, sym))
    decreases |sym|
  {
    hide OnSymbol, BehindSize;
    if sym != [] {
      BehindSizeStep(m, sym[0]);
      ReadBehindSize(OnSymbol(m, sym[0]), sym[1..]);
    }
  }

  lemma {:induction false} SymbolsLast(before: seq<seq<byte>>, last: seq<byte>)
    ensures Symbols(before + [last]) == Symbols(before) + Spelled(last) + [Cut]
  {
    if before == [] {
      assert before + [last] == [last] && [last][1..] == [];
      assert Symbols([last]) == Spelled(last) + [Cut] + [];
    } else {
      assert (before + [last])[1..] == before[1..] + [last];
      SymbolsLast(before[1..], last);
    }
  }

  /** Reading head and body up to here, which is all the parser has. */
  lemma {:induction false} ChunkedSoFar(keepAlive: bool, code: nat, reason: seq<byte>, headers: seq<Header>,
                                        part: seq<byte>, pieces: seq<seq<byte>>)
    requires 100 <= code <= 999 && LF !in reason && (reason == [] || reason[|reason| - 1] != CR)
    requires (forall h | h in headers :: Proper(h)) && SelectsChunked(headers)
    requires Flatten(pieces) == HeadText(code, reason, headers) + part
    ensures var q := FeedAll(Fresh(keepAlive), pieces);
      && !q.error && q.head.received && q.head.chunked
      && Read(Machine(Fresh(keepAlive), Nothing), Symbols(pieces)) == Machine(q, Nothing)
  {
    hide Fold, Quiet, Read, HeadText, Proper, SelectsChunked, Text, Symbols, Dropped, Feed, FeedAll, Clean, Flatten;
    var p := Fresh(keepAlive);
    var m := Machine(p, Nothing);
    var head := HeadText(code, reason, headers);
    var sym := Symbols(pieces);
    HeadRead(p, code, reason, headers, 0);
    SymbolsText(pieces);
    ReadQuiet(m, sym, head, part);
    ChunksKeepHead(Fold(m, head), Dropped(sym, |head|));
    CleanFeeds(p, pieces);
    FeedAllIsRead(p, pieces);
  }

  lemma CompleteBefore(m: Machine, rest: seq<byte>)
    requires Sound(m.p) && BehindSize(m) && m.p.head.chunked && OnCut(m).p.phase == Complete
    ensures OnCut(Fold(m, rest)).p.rx == m.p.rx + rest
  {
    FoldComplete(m.p, rest);
  }

  /**
   * A chunked response of which the last bytes are missing, unless an earlier segment ended in front of
   * or inside the CRLF of a chunk that is not the last: losing the connection is an error.
   */
  lemma {:induction false} ChunkedCutShort(keepAlive: bool, code: nat, reason: seq<byte>, headers: seq<Header>,
      writes: seq<seq<byte>>, part: seq<byte>, before: seq<seq<byte>>, last: seq<byte>, rest: seq<byte>)
    requires 100 <= code <= 999 && LF !in reason && (reason == [] || reason[|reason| - 1] != CR)
    requires (forall h | h in headers :: Proper(h)) && SelectsChunked(headers) && Writes(writes)
    requires Flatten(before + [last]) == HeadText(code, reason, headers) + part
    requires part + rest == ChunkStream(writes) && rest != []
    requires !SplitsCrlf(before + [last + rest], |HeadText(code, reason, headers)|, writes)
    ensures CutShort(FeedAll(Fresh(keepAlive), before + [last]))
  {
    hide Fold, Read, HeadText, Proper, SelectsChunked, ChunkStream, Symbols, FeedAll, Flatten, SplitsCrlf, OnCut,
      Writes;
    var m := Machine(Fresh(keepAlive), Nothing);
    var head := HeadText(code, reason, headers);
    var whole := before + [last + rest];
    FlattenLast(before, last, rest);
    assert head + part + rest == head + (part + rest);
    ChunkedSoFar(keepAlive, code, reason, headers, part, before + [last]);
    ChunkedSoFar(keepAlive, code, reason, headers, part + rest, whole);
    ChunkedResponse(keepAlive, code, reason, headers, writes, whole);
    var sym := Symbols(before) + Spelled(last);
    SymbolsLast(before, last);
    SymbolsLast(before, last + rest);
    assert Symbols(whole) == sym + (Spelled(rest) + [Cut]);
    ReadAppend(m, sym, [Cut]);
    ReadAppend(m, sym, Spelled(rest) + [Cut]);
    var n := Read(m, sym);
    ReadSpelled(n, rest, [Cut]);
    ReadCut(n, [Cut]);
    ReadCut(Fold(n, rest), [Cut]);
    assert [Cut][1..] == [];
    NothingRead(OnCut(n));
    NothingRead(OnCut(Fold(n, rest)));
    ReadBehindSize(m, sym);
    CutKeepsHead(n);
    if OnCut(n).p.phase == Complete {
      CompleteBefore(n, rest);
    }
  }

  lemma CutKeepsHead(m: Machine)
    ensures OnCut(m).p.head == m.p.head
  {
  }

  lemma {:induction false} FlattenLast(before: seq<seq<byte>>, last: seq<byte>, rest: seq<byte>)
    ensures Flatten(before + [last + rest]) == Flatten(before + [last]) + rest
  {
    FlattenAppend(before, [last]);
    FlattenAppend(before, [last + rest]);
    assert [last][1..] == [] && [last + rest][1..] == [];
    assert Flatten([last]) == last + [] == last;
    assert Flatten([last + rest]) == last + rest + [] == last + rest;
    assert Flatten(before) + (last + rest) == Flatten(before) + last + rest;
  }
}
