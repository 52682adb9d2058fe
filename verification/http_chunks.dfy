// Chunked bodies written by Write and read back by the parser over arbitrary TCP segments
// (section 7.1 of RFC 9112), with the exact condition under which nothing is lost.
module HttpChunks {
  import opened Bytes
  import opened Common
  import opened HttpResponse
  import opened HttpSegments

  // ---------------------------------------------------------------------------------------
  // Segmentation in general.

  /** Feeding in two pieces is feeding at once wherever the machine does not notice the cut. */
  lemma {:induction false} CutInvisible(p: Parser, a: seq<byte>, b: seq<byte>)
    requires Steady(Machine(p, Nothing)) && !Feed(p, a).error
    requires !Feed(Feed(p, a), b).error && !Feed(p, a + b).error
    requires var m := Fold(Machine(p, Nothing), a); OnCut(m) == m
    ensures Feed(Feed(p, a), b) == Feed(p, a + b)
  {
    hide Process, Fold, OnCut;
    ProcessIsFold(p, a);
    ProcessIsFold(p, a + b);
    FoldAppend(Machine(p, Nothing), a, b);
    CutEndsQuiet(Fold(Machine(p, Nothing), a));
    ProcessIsFold(Feed(p, a), b);
  }

  lemma CutEndsQuiet(m: Machine)
    ensures OnCut(m).behind == Nothing
  {
  }

  /** A byte, or the end of a segment. */
  datatype Symbol = B(b: byte) | Cut

  function Symbols(pieces: seq<seq<byte>>): seq<Symbol> {
    if pieces == [] then [] else Spelled(pieces[0]) + [Cut] + Symbols(pieces[1..])
  }

  function Spelled(s: seq<byte>): (r: seq<Symbol>)
    ensures |r| == |s| && forall i | 0 <= i < |s| :: r[i] == B(s[i])
  {
    seq(|s|, i requires 0 <= i < |s| => B(s[i]))
  }

  function Text(sym: seq<Symbol>): seq<byte> {
    if sym == [] then [] else (if sym[0].B? then [sym[0].b] else []) + Text(sym[1..])
  }

  function OnSymbol(m: Machine, y: Symbol): (r: Machine)
    requires Sound(m.p)
    ensures Sound(r.p)
  {
    match y case B(b) => OnByte(m, b) case Cut => OnCut(m)
  }

  function Read(m: Machine, sym: seq<Symbol>): (r: Machine)
    requires Sound(m.p)
    ensures Sound(r.p)
    decreases |sym|
  {
    if sym == [] then m else Read(OnSymbol(m, sym[0]), sym[1..])
  }

  lemma {:induction false} ReadSpelled(m: Machine, s: seq<byte>, rest: seq<Symbol>)
    requires Sound(m.p)
    ensures Read(m, Spelled(s) + rest) == Read(Fold(m, s), rest)
    decreases |s|
  {
    hide OnByte, OnCut, Sound;
    var t := Spelled(s) + rest;
    if s == [] {
      assert t == rest;
    } else {
      assert t[0] == B(s[0]) && t[1..] == Spelled(s[1..]) + rest;
      ReadSpelled(OnByte(m, s[0]), s[1..], rest);
    }
  }

  lemma {:induction false} TextSpelled(s: seq<byte>, rest: seq<Symbol>)
    ensures Text(Spelled(s) + rest) == s + Text(rest)
    decreases |s|
  {
    var t := Spelled(s) + rest;
    if s == [] {
      assert t == rest;
    } else {
      assert t[0] == B(s[0]) && t[1..] == Spelled(s[1..]) + rest;
      TextSpelled(s[1..], rest);
      assert s == [s[0]] + s[1..];
    }
  }

  /** No feed of the run raises the error event. */
  predicate Clean(p: Parser, pieces: seq<seq<byte>>)
    requires Sound(p)
    decreases |pieces|
  {
    pieces == [] || (!Feed(p, pieces[0]).error && Clean(Feed(p, pieces[0]), pieces[1..]))
  }

  /** Feeding segments is reading their bytes and cuts. */
  lemma {:induction false} FeedAllIsRead(p: Parser, pieces: seq<seq<byte>>)
    requires Steady(Machine(p, Nothing)) && Clean(p, pieces)
    ensures Read(Machine(p, Nothing), Symbols(pieces)) == Machine(FeedAll(p, pieces), Nothing)
    decreases |pieces|
  {
    hide Process, Fold, OnByte, OnCut;
    if pieces != [] {
      var rest := [Cut] + Symbols(pieces[1..]);
      assert Symbols(pieces) == Spelled(pieces[0]) + rest;
      assert rest[1..] == Symbols(pieces[1..]);
      ReadSpelled(Machine(p, Nothing), pieces[0], rest);
      ProcessIsFold(p, pieces[0]);
      CutEndsQuiet(Fold(Machine(p, Nothing), pieces[0]));
      FeedAllIsRead(Feed(p, pieces[0]), pieces[1..]);
    }
  }

  lemma {:induction false} SymbolsText(pieces: seq<seq<byte>>)
    ensures Text(Symbols(pieces)) == Flatten(pieces)
    decreases |pieces|
  {
    if pieces != [] {
      var rest := [Cut] + Symbols(pieces[1..]);
      assert Symbols(pieces) == Spelled(pieces[0]) + rest;
      assert rest[1..] == Symbols(pieces[1..]);
      TextSpelled(pieces[0], rest);
      assert Text(rest) == [] + Text(Symbols(pieces[1..]));
      SymbolsText(pieces[1..]);
    }
  }

  // ---------------------------------------------------------------------------------------
  // In the chunk phases no line can be refused.

  predicate InChunks(phase: Phase) {
    phase == ChunkSize || phase == ChunkData || phase == ChunkTrailer || phase == Complete
  }

  lemma {:induction false} ChunksStayClean(p: Parser)
    requires Sound(p) && InChunks(p.phase) && !p.error
    ensures InChunks(Process(p).phase) && !Process(p).error
    decreases |p.rx|
  {
    if p.rx != [] && p.phase != Complete {
      ChunkPass(p);
      match OnePass(p)
      case Stop(q) =>
      case Next(q) => ChunksStayClean(q);
    }
  }

  lemma ChunkPass(p: Parser)
    requires Sound(p) && InChunks(p.phase) && !p.error && p.rx != [] && p.phase != Complete
    ensures InChunks(OnePass(p).p.phase) && !OnePass(p).p.error
  {
    hide ParseChunkSize, Stripped, IndexOf;
  }

  lemma {:induction false} ChunksAreClean(p: Parser, pieces: seq<seq<byte>>)
    requires Sound(p) && InChunks(p.phase) && !p.error
    ensures Clean(p, pieces)
    decreases |pieces|
  {
    hide Process;
    if pieces != [] {
      ChunksStayClean(p.(rx := p.rx + pieces[0]));
      ChunksAreClean(Feed(p, pieces[0]), pieces[1..]);
    }
  }

  // ---------------------------------------------------------------------------------------
  // Where the cuts are.

  /** A segment ends right behind the first n bytes. */
  predicate CutAt(sym: seq<Symbol>, n: int) {
    sym != [] && match sym[0]
      case Cut => n == 0 || CutAt(sym[1..], n)
      case B(_) => n > 0 && CutAt(sym[1..], n - 1)
  }

  function SizeLine(n: nat): seq<byte> {
    (if n == 0 then [48] else Hex(n)) + CRLF
  }

  /**
   * With d bytes left until the end of a chunk's data: a cut in front of or inside the CRLF behind
   * it, if another chunk follows, or such a cut later on.
   */
  predicate Splits(sym: seq<Symbol>, d: int, writes: seq<seq<byte>>)
    decreases |writes|
  {
    writes != [] && (CutAt(sym, d) || CutAt(sym, d + 1)
                     || Splits(sym, d + 2 + |SizeLine(|writes[0]|)| + |writes[0]|, writes[1..]))
  }

  lemma {:induction false} SplitsAfterByte(sym: seq<Symbol>, d: int, writes: seq<seq<byte>>)
    requires sym != [] && sym[0].B? && d >= 0
    ensures Splits(sym, d, writes) == Splits(sym[1..], d - 1, writes)
    decreases |writes|
  {
    CutAtNegative(sym[1..]);
    if writes != [] {
      SplitsAfterByte(sym, d + 2 + |SizeLine(|writes[0]|)| + |writes[0]|, writes[1..]);
    }
  }

  lemma SplitsHere(sym: seq<Symbol>, d: int, writes: seq<seq<byte>>)
    requires sym != [] && sym[0].Cut? && (d == 0 || d == -1)
    ensures Splits(sym, d, writes) <==> writes != []
  {
  }

  lemma {:induction false} CutAtNegative(sym: seq<Symbol>)
    ensures !CutAt(sym, -1)
  {
    if sym != [] && sym[0].Cut? {
      CutAtNegative(sym[1..]);
    }
  }

  lemma {:induction false} SplitsAfterCut(sym: seq<Symbol>, d: int, writes: seq<seq<byte>>)
    requires sym != [] && sym[0].Cut? && d > 0
    ensures Splits(sym, d, writes) == Splits(sym[1..], d, writes)
    decreases |writes|
  {
    if writes != [] {
      SplitsAfterCut(sym, d + 2 + |SizeLine(|writes[0]|)| + |writes[0]|, writes[1..]);
    }
  }

  // ---------------------------------------------------------------------------------------
  // The run of the machine over a chunk stream.

  predicate Writes(writes: seq<seq<byte>>) {
    forall w | w in writes :: 0 < |w| <= ULONG_MAX
  }

  /** The outcome: the body is complete, and what `expected` says exactly if `whole`; nothing is left over then. */
  predicate Ends(m: Machine, before: seq<byte>, expected: seq<byte>, whole: bool) {
    && m.p.phase == Complete && m.p.eof && (m.p.body == before + expected <==> whole)
    && (whole ==> m.p.rx == [])
  }

  lemma {:induction false} FromComplete(m: Machine, sym: seq<Symbol>)
    requires Sound(m.p) && m.p.phase == Complete && m.behind == Nothing
    ensures Read(m, sym).p.phase == Complete && Read(m, sym).p.eof == m.p.eof && Read(m, sym).p.body == m.p.body
    ensures Text(sym) == [] ==> Read(m, sym).p.rx == m.p.rx
    decreases |sym|
  {
    if sym != [] {
      FromComplete(OnSymbol(m, sym[0]), sym[1..]);
    }
  }

  /** The text ends with an empty line: it is one, or one follows a line end. */
  predicate EndsBlank(x: seq<byte>) {
    x == CRLF || (|x| >= 3 && x[|x| - 3..] == [LF, CR, LF])
  }

  lemma TrailerByte(m: Machine, b: byte)
    requires Sound(m.p) && m.p.phase == ChunkTrailer && m.behind == Nothing && !m.p.error
    ensures OnByte(m, b) ==
      if b != LF then Machine(m.p.(rx := m.p.rx + [b]), Nothing)
      else if Stripped(m.p.rx) == [] then Machine(m.p.(rx := [], phase := Complete, eof := true), Nothing)
      else Machine(m.p.(rx := []), Nothing)
  {
    hide Stripped;
  }

  /** Trailer lines are skipped up to the first empty one. */
  lemma {:induction false} FromTrailer(m: Machine, sym: seq<Symbol>)
    requires Sound(m.p) && m.p.phase == ChunkTrailer && m.behind == Nothing && !m.p.error
    requires LF !in m.p.rx && EndsBlank(m.p.rx + Text(sym))
    ensures Read(m, sym).p.phase == Complete && Read(m, sym).p.eof && Read(m, sym).p.body == m.p.body
    ensures m.p.rx + Text(sym) == CRLF || m.p.rx + Text(sym) == [48] + CRLF + CRLF ==> Read(m, sym).p.rx == []
    decreases |sym|
  {
    hide OnByte, Stripped;
    var x := m.p.rx + Text(sym);
    assert x[|x| - 1] == LF;
    if sym != [] && sym[0] == Cut {
      assert Text(sym) == Text(sym[1..]);
      FromTrailer(m, sym[1..]);
    } else if sym != [] {
      var b := sym[0].b;
      assert x == m.p.rx + [b] + Text(sym[1..]);
      TrailerByte(m, b);
      var n := OnByte(m, b);
      if b != LF {
        FromTrailer(n, sym[1..]);
      } else if Stripped(m.p.rx) == [] {
        FromComplete(n, sym[1..]);
        BlankLast(m.p.rx, Text(sym[1..]));
      } else {
        BlankBehind(m.p.rx, Text(sym[1..]));
        BlankLast(m.p.rx, Text(sym[1..]));
        assert [] + Text(sym[1..]) == Text(sym[1..]);
        FromTrailer(n, sym[1..]);
      }
    }
  }

  /** In the two texts that end a stream the only blank line is the last one. */
  lemma BlankLast(line: seq<byte>, rest: seq<byte>)
    requires LF !in line
    ensures line + [LF] + rest == CRLF ==> Stripped(line) == [] && rest == []
    ensures line + [LF] + rest == [48] + CRLF + CRLF ==> Stripped(line) != [] && rest == CRLF
  {
    var x := line + [LF] + rest;
    assert x[|line|] == LF && forall k | 0 <= k < |line| :: x[k] == line[k] && line[k] in line;
    if x == CRLF {
      assert |line| == 1 && x[1..] == [LF];
      assert line == [CR];
    }
    if x == [48] + CRLF + CRLF {
      assert x[2] == LF && |line| == 2;
      assert line == [48, CR] && rest == x[3..] == CRLF;
    }
  }

  lemma BlankBehind(line: seq<byte>, rest: seq<byte>)
    requires LF !in line && Stripped(line) != [] && EndsBlank(line + [LF] + rest)
    ensures EndsBlank(rest)
  {
    var x := line + [LF] + rest;
    assert x[|line|] == LF && forall k | 0 <= k < |line| :: x[k] == line[k];
    assert forall k | 0 <= k < |rest| :: rest[k] == x[|line| + 1 + k];
    if x != CRLF {
      var t := x[|x| - 3..];
      assert x[|x| - 3] == t[0] && x[|x| - 2] == t[1] && x[|x| - 1] == t[2];
      if |rest| >= 3 {
        assert rest[|rest| - 3..] == t;
      } else if |rest| == 2 {
        assert rest == CRLF;
      }
    }
  }

  lemma {:induction false} StreamEndsBlank(writes: seq<seq<byte>>)
    ensures EndsBlank(ChunkStream(writes)) && |ChunkStream(writes)| >= 5
  {
    var x := ChunkStream(writes);
    if writes == [] {
      assert x == [48, CR, LF, CR, LF];
    } else {
      var rest := ChunkStream(writes[1..]);
      StreamEndsBlank(writes[1..]);
      assert x == WriteChunk(writes[0]) + rest;
      assert x[|x| - 3..] == rest[|rest| - 3..];
      assert rest != CRLF;
    }
  }

  lemma ParseNoSize()
    ensures ParseChunkSize([]) == 0 && ParseChunkSize([48]) == 0
  {
    assert [48][..0] == [];
    assert DigitsValue([48], 16) == Some(0);
    assert IndexOf([48], SEMICOLON) == 1 && IndexOf([48], 0) == 1;
    assert [48][..1] == [48];
  }

  /** A size line has one line end, at its end, and reads back as the size. */
  lemma SizeLineShape(n: nat)
    requires n <= ULONG_MAX
    ensures var line := SizeLine(n);
      && |line| >= 3 && line[|line| - 1] == LF && LF !in line[..|line| - 1]
      && Stripped(line[..|line| - 1]) == (if n == 0 then [48] else Hex(n))
      && ParseChunkSize(Stripped(line[..|line| - 1])) == n
  {
    hide ParseChunkSize, Stripped, Hex, DigitsValue;
    var digits := if n == 0 then [48] else Hex(n);
    ParseNoSize();
    if n > 0 {
      ChunkSizeRoundTrip(n);
      HexValue(n);
    }
    DigitsLine(digits);
  }

  lemma DigitsLine(digits: seq<byte>)
    requires digits != [] && forall c | c in digits :: Digit(c) < 16
    ensures var line := digits + CRLF;
      && line[|line| - 1] == LF && LF !in line[..|line| - 1]
      && Stripped(line[..|line| - 1]) == digits
  {
    var line := digits + CRLF;
    assert line[..|line| - 1] == digits + [CR];
    assert (digits + [CR])[..|digits|] == digits;
    assert Digit(LF) == 16;
  }

  lemma LostByte(m: Machine)
    requires Sound(m.p) && m.p.phase == ChunkSize && m.behind == Nothing && !m.p.error
    ensures OnCut(m) == m
    ensures m.p.rx == [] ==> OnByte(m, CR) == Machine(m.p.(rx := [CR]), Nothing)
    ensures m.p.rx == [CR] ==>
      OnByte(m, LF) == Machine(m.p.(rx := [], chunkSize := 0, chunkReceived := 0, phase := ChunkTrailer), Nothing)
  {
    SizeByte(m, CR);
    SizeByte(m, LF);
    ParseNoSize();
    assert [] + [CR] == [CR] && Stripped([CR]) == [];
  }

  /** A cut fell into the CRLF: the rest of it reads as a size of zero, and the body is over. */
  lemma {:induction false} FromLost(m: Machine, sym: seq<Symbol>, writes: seq<seq<byte>>)
    requires Sound(m.p) && m.p.phase == ChunkSize && m.behind == Nothing && !m.p.error
    requires Writes(writes) && (m.p.rx == [] || m.p.rx == [CR])
    requires m.p.rx + Text(sym) == CRLF + ChunkStream(writes)
    ensures Ends(Read(m, sym), m.p.body, Flatten(writes), writes == [])
    decreases |sym|
  {
    hide OnByte, OnCut, ChunkStream, Writes, Flatten, EndsBlank;
    LostByte(m);
    if sym != [] && sym[0] == Cut {
      assert Text(sym) == Text(sym[1..]);
      FromLost(m, sym[1..], writes);
    } else if sym != [] {
      var b := sym[0].b;
      assert m.p.rx + Text(sym) == m.p.rx + [b] + Text(sym[1..]);
      if m.p.rx == [] {
        assert b == (m.p.rx + Text(sym))[0] == CR;
        FromLost(Machine(m.p.(rx := [CR]), Nothing), sym[1..], writes);
      } else {
        assert b == (m.p.rx + Text(sym))[1] == LF;
        assert Text(sym[1..]) == (m.p.rx + Text(sym))[2..] == ChunkStream(writes);
        StreamEndsBlank(writes);
        assert [] + Text(sym[1..]) == Text(sym[1..]);
        FromTrailer(OnByte(m, LF), sym[1..]);
        NothingWritten(writes);
        assert m.p.body + Flatten(writes) == m.p.body <==> Flatten(writes) == [];
      }
    }
  }

  lemma NothingWritten(writes: seq<seq<byte>>)
    requires Writes(writes)
    ensures Flatten(writes) == [] <==> writes == []
    ensures writes == [] ==> ChunkStream(writes) == [48] + CRLF + CRLF
  {
    if writes != [] {
      assert writes[0] in writes;
    }
  }

  function FirstSize(writes: seq<seq<byte>>): nat {
    if writes == [] then 0 else |writes[0]|
  }

  /** The stream is a size line and what belongs to it. */
  lemma StreamBegins(writes: seq<seq<byte>>)
    requires Writes(writes)
    ensures FirstSize(writes) <= ULONG_MAX && (writes != [] ==> FirstSize(writes) > 0)
    ensures ChunkStream(writes) == SizeLine(FirstSize(writes)) +
      (if writes == [] then CRLF else writes[0] + CRLF + ChunkStream(writes[1..]))
  {
    if writes == [] {
      assert ChunkStream(writes) == SizeLine(0) + CRLF;
    } else {
      hide SizeLine, Hex;
      assert writes[0] in writes;
      ChunkBegins(writes[0]);
      Regroup(SizeLine(|writes[0]|), writes[0], ChunkStream(writes[1..]));
    }
  }

  lemma ChunkBegins(data: seq<byte>)
    requires data != []
    ensures WriteChunk(data) == SizeLine(|data|) + data + CRLF
  {
    hide Hex;
  }

  lemma Regroup(line: seq<byte>, data: seq<byte>, rest: seq<byte>)
    ensures line + data + CRLF + rest == line + (data + CRLF + rest)
  {
    assert line + data + CRLF + rest == line + (data + CRLF + rest);
  }

  lemma SizeByte(m: Machine, b: byte)
    requires Sound(m.p) && m.p.phase == ChunkSize && m.behind == Nothing && !m.p.error
    ensures OnByte(m, b) ==
      if b != LF then Machine(m.p.(rx := m.p.rx + [b]), Nothing)
      else
        var n := ParseChunkSize(Stripped(m.p.rx));
        Machine(m.p.(rx := [], chunkSize := n, chunkReceived := 0,
                     phase := if n == 0 then ChunkTrailer else ChunkData), Nothing)
  {
    hide Stripped, ParseChunkSize;
  }

  /** Reading from inside a size line. */
  lemma {:induction false} FromSize(m: Machine, sym: seq<Symbol>, writes: seq<seq<byte>>)
    requires Sound(m.p) && m.p.phase == ChunkSize && m.behind == Nothing && !m.p.error && Writes(writes)
    requires |m.p.rx| < |SizeLine(FirstSize(writes))|
    requires m.p.rx == SizeLine(FirstSize(writes))[..|m.p.rx|]
    requires m.p.rx + Text(sym) == ChunkStream(writes)
    ensures Ends(Read(m, sym), m.p.body, Flatten(writes),
      writes == [] || !Splits(sym, |SizeLine(|writes[0]|)| - |m.p.rx| + |writes[0]|, writes[1..]))
    decreases |sym|, 0
  {
    hide OnByte, ParseChunkSize, Stripped, SizeLine, ChunkStream, Splits, Ends;
    StreamBegins(writes);
    var line := SizeLine(FirstSize(writes));
    SizeLineShape(FirstSize(writes));
    var done := |m.p.rx|;
    if sym != [] && sym[0] == Cut {
      assert Text(sym) == Text(sym[1..]);
      FromSize(m, sym[1..], writes);
      if writes != [] {
        SplitsAfterCut(sym, |line| - done + |writes[0]|, writes[1..]);
      }
    } else if sym != [] {
      var b := sym[0].b;
      assert m.p.rx + Text(sym) == m.p.rx + [b] + Text(sym[1..]);
      assert b == ChunkStream(writes)[done] == line[done];
      SizeByte(m, b);
      var n := OnByte(m, b);
      if writes != [] {
        SplitsAfterByte(sym, |line| - done + |writes[0]|, writes[1..]);
      }
      if done + 1 < |line| {
        assert b == line[..|line| - 1][done];
        assert n.p.rx == line[..done + 1];
        FromSize(n, sym[1..], writes);
      } else {
        assert m.p.rx == line[..|line| - 1];
        assert m.p.rx + [b] == line;
        AfterSizeLine(n, sym[1..], writes);
      }
    }
  }

  /** Behind a size line: the data, or the empty line that ends it all. */
  lemma {:induction false} AfterSizeLine(n: Machine, sym: seq<Symbol>, writes: seq<seq<byte>>)
    requires Sound(n.p) && n.behind == Nothing && !n.p.error && Writes(writes) && n.p.rx == []
    requires n.p.chunkSize == FirstSize(writes) && n.p.chunkReceived == 0
    requires n.p.phase == if FirstSize(writes) == 0 then ChunkTrailer else ChunkData
    requires SizeLine(FirstSize(writes)) + Text(sym) == ChunkStream(writes)
    ensures Ends(Read(n, sym), n.p.body, Flatten(writes),
      writes == [] || !Splits(sym, |writes[0]|, writes[1..]))
    decreases |sym|, 2
  {
    hide SizeLine, ChunkStream, Splits, OnSymbol;
    StreamBegins(writes);
    var line := SizeLine(FirstSize(writes));
    assert Text(sym) == ChunkStream(writes)[|line|..];
    if writes == [] {
      assert [] + Text(sym) == CRLF;
      FromTrailer(n, sym);
      assert n.p.body + [] == n.p.body;
    } else {
      assert Text(sym) == writes[0] + CRLF + ChunkStream(writes[1..]);
      FromData(n, sym, writes[0], writes[1..]);
    }
  }

  lemma DataByte(m: Machine, b: byte)
    requires Sound(m.p) && m.p.phase == ChunkData && m.behind == Nothing && !m.p.error
    ensures var q := m.p.(body := m.p.body + [b], total := m.p.total + 1, chunkReceived := m.p.chunkReceived + 1);
      OnByte(m, b) ==
        if m.p.chunkSize - m.p.chunkReceived == 1 then Machine(q.(phase := ChunkSize), WantCr) else Machine(q, Nothing)
  {
  }

  /** Reading with `tail` left of the current chunk. */
  lemma {:induction false} FromData(m: Machine, sym: seq<Symbol>, tail: seq<byte>, writes: seq<seq<byte>>)
    requires Sound(m.p) && m.p.phase == ChunkData && m.behind == Nothing && !m.p.error && Writes(writes)
    requires m.p.rx == [] && tail != [] && m.p.chunkSize - m.p.chunkReceived == |tail|
    requires Text(sym) == tail + CRLF + ChunkStream(writes)
    ensures Ends(Read(m, sym), m.p.body, tail + Flatten(writes), !Splits(sym, |tail|, writes))
    decreases |sym|, 1
  {
    hide OnByte, ChunkStream, Splits;
    if sym != [] && sym[0] == Cut {
      assert Text(sym) == Text(sym[1..]);
      FromData(m, sym[1..], tail, writes);
      SplitsAfterCut(sym, |tail|, writes);
    } else if sym != [] {
      var b := sym[0].b;
      assert Text(sym) == [b] + Text(sym[1..]);
      assert b == Text(sym)[0] == tail[0];
      assert Text(sym[1..]) == Text(sym)[1..] == tail[1..] + CRLF + ChunkStream(writes);
      DataByte(m, b);
      var n := OnByte(m, b);
      SplitsAfterByte(sym, |tail|, writes);
      assert m.p.body + (tail + Flatten(writes)) == n.p.body + (tail[1..] + Flatten(writes));
      if |tail| == 1 {
        assert tail[1..] + CRLF + ChunkStream(writes) == CRLF + ChunkStream(writes);
        assert tail[1..] + Flatten(writes) == Flatten(writes);
        FromCr(n, sym[1..], writes);
      } else {
        FromData(n, sym[1..], tail[1..], writes);
      }
    }
  }

  lemma CrlfByte(m: Machine)
    requires Sound(m.p) && m.p.phase == ChunkSize && m.p.rx == []
    ensures m.behind == WantCr ==> OnByte(m, CR) == Machine(m.p, WantLf) && OnCut(m) == Machine(m.p, Nothing)
    ensures m.behind == WantLf ==>
      OnByte(m, LF) == Machine(m.p, Nothing) && OnCut(m) == Machine(m.p.(rx := [CR]), Nothing)
  {
    assert [] + [CR] == [CR];
  }

  /** Reading behind a chunk's data. */
  lemma FromCr(m: Machine, sym: seq<Symbol>, writes: seq<seq<byte>>)
    requires Sound(m.p) && m.p.phase == ChunkSize && m.p.rx == [] && !m.p.error && Writes(writes)
    requires m.behind == WantCr && Text(sym) == CRLF + ChunkStream(writes)
    ensures Ends(Read(m, sym), m.p.body, Flatten(writes), !Splits(sym, 0, writes))
    decreases |sym|, 0
  {
    hide OnByte, OnCut, ChunkStream, Ends, Splits, CutAt, Writes, Flatten;
    CrlfByte(m);
    if sym != [] && sym[0] == Cut {
      assert [] + Text(sym[1..]) == Text(sym[1..]) == Text(sym);
      SplitsHere(sym, 0, writes);
      FromLost(OnCut(m), sym[1..], writes);
    } else if sym != [] {
      assert Text(sym) == [sym[0].b] + Text(sym[1..]);
      assert sym[0].b == Text(sym)[0] == CR;
      assert Text(sym[1..]) == Text(sym)[1..] == [LF] + ChunkStream(writes);
      SplitsAfterByte(sym, 0, writes);
      FromLf(OnByte(m, CR), sym[1..], writes);
    }
  }

  /** Reading between a chunk's CR and its LF. */
  lemma FromLf(m: Machine, sym: seq<Symbol>, writes: seq<seq<byte>>)
    requires Sound(m.p) && m.p.phase == ChunkSize && m.p.rx == [] && !m.p.error && Writes(writes)
    requires m.behind == WantLf && Text(sym) == [LF] + ChunkStream(writes)
    ensures Ends(Read(m, sym), m.p.body, Flatten(writes), !Splits(sym, -1, writes))
    decreases |sym|, 0
  {
    hide OnByte, OnCut, ChunkStream, Ends, Splits, CutAt, Writes, Flatten;
    CrlfByte(m);
    if sym != [] && sym[0] == Cut {
      assert Text(sym) == Text(sym[1..]);
      assert [CR] + ([LF] + ChunkStream(writes)) == CRLF + ChunkStream(writes);
      SplitsHere(sym, -1, writes);
      FromLost(OnCut(m), sym[1..], writes);
    } else if sym != [] {
      assert Text(sym) == [sym[0].b] + Text(sym[1..]);
      assert sym[0].b == Text(sym)[0] == LF;
      assert Text(sym[1..]) == Text(sym)[1..] == ChunkStream(writes);
      AfterCrlf(m, sym, writes);
    }
  }

  lemma {:induction false} AfterCrlf(m: Machine, sym: seq<Symbol>, writes: seq<seq<byte>>)
    requires Sound(m.p) && m.p.phase == ChunkSize && m.p.rx == [] && !m.p.error && Writes(writes)
    requires sym != [] && sym[0].B? && Text(sym[1..]) == ChunkStream(writes)
    ensures Ends(Read(Machine(m.p, Nothing), sym[1..]), m.p.body, Flatten(writes), !Splits(sym, -1, writes))
    decreases |sym[1..]|, 2
  {
    hide Splits, CutAt, Read, OnByte, OnCut, ChunkStream, Ends, SizeLine, Text, Flatten;
    FromLineStart(Machine(m.p, Nothing), sym[1..], writes);
    SplitsInCrlf(sym, writes);
  }

  lemma SplitsInCrlf(sym: seq<Symbol>, writes: seq<seq<byte>>)
    requires sym != [] && sym[0].B?
    ensures Splits(sym, -1, writes)
      <==> writes != [] && Splits(sym[1..], |SizeLine(|writes[0]|)| + |writes[0]|, writes[1..])
  {
    hide SizeLine;
    CutAtNegative(sym);
    if writes != [] {
      SplitsAfterByte(sym, 1 + |SizeLine(|writes[0]|)| + |writes[0]|, writes[1..]);
    }
  }

  /** Reading from the start of a size line. */
  lemma {:induction false} FromLineStart(m: Machine, sym: seq<Symbol>, writes: seq<seq<byte>>)
    requires Sound(m.p) && m.p.phase == ChunkSize && m.behind == Nothing && !m.p.error && Writes(writes)
    requires m.p.rx == [] && Text(sym) == ChunkStream(writes)
    ensures Ends(Read(m, sym), m.p.body, Flatten(writes),
      writes == [] || !Splits(sym, |SizeLine(|writes[0]|)| + |writes[0]|, writes[1..]))
    decreases |sym|, 1
  {
    hide Splits, CutAt, Read, ChunkStream, Ends, SizeLine, Text, Flatten, Stripped, ParseChunkSize, Hex;
    SizeLineShape(FirstSize(writes)) by { StreamBegins(writes); }
    assert [] + Text(sym) == Text(sym);
    assert [] == SizeLine(FirstSize(writes))[..0];
    FromSize(m, sym, writes);
  }

  // ---------------------------------------------------------------------------------------
  // The result.

  /** Some piece but perhaps an empty one ends behind the first n bytes. */
  predicate Boundary(pieces: seq<seq<byte>>, n: int) {
    pieces != [] && (|pieces[0]| == n || Boundary(pieces[1..], n - |pieces[0]|))
  }

  /**
   * A piece ends between a chunk's data and the end of its CRLF, and another chunk follows. `at` is
   * the offset of the size line of writes[0].
   */
  predicate SplitsCrlf(pieces: seq<seq<byte>>, at: nat, writes: seq<seq<byte>>)
    decreases |writes|
  {
    |writes| > 1 &&
    var end := at + |SizeLine(|writes[0]|)| + |writes[0]|;
    Boundary(pieces, end) || Boundary(pieces, end + 1) || SplitsCrlf(pieces, end + 2, writes[1..])
  }

  lemma {:induction false} CutAtSpelled(s: seq<byte>, rest: seq<Symbol>, n: int)
    ensures CutAt(Spelled(s) + rest, n) <==> n >= |s| && CutAt(rest, n - |s|)
    decreases |s|
  {
    var t := Spelled(s) + rest;
    if s == [] {
      assert t == rest;
      CutNotNegative(rest, n);
    } else {
      assert t[0] == B(s[0]) && t[1..] == Spelled(s[1..]) + rest;
      CutAtSpelled(s[1..], rest, n - 1);
    }
  }

  lemma {:induction false} CutNotNegative(sym: seq<Symbol>, n: int)
    ensures CutAt(sym, n) ==> n >= 0
  {
    if sym != [] {
      CutNotNegative(sym[1..], if sym[0].Cut? then n else n - 1);
    }
  }

  lemma {:induction false} CutIsBoundary(pieces: seq<seq<byte>>, n: int)
    ensures CutAt(Symbols(pieces), n) <==> Boundary(pieces, n)
    decreases |pieces|
  {
    if pieces != [] {
      var rest := [Cut] + Symbols(pieces[1..]);
      assert Symbols(pieces) == Spelled(pieces[0]) + rest;
      assert rest[1..] == Symbols(pieces[1..]);
      CutAtSpelled(pieces[0], rest, n);
      CutIsBoundary(pieces[1..], n - |pieces[0]|);
      BoundaryNotNegative(pieces[1..], n - |pieces[0]|);
    }
  }

  lemma {:induction false} BoundaryNotNegative(pieces: seq<seq<byte>>, n: int)
    ensures Boundary(pieces, n) ==> n >= 0
  {
    if pieces != [] {
      BoundaryNotNegative(pieces[1..], n - |pieces[0]|);
    }
  }

  lemma {:induction false} SplitsIsSplitsCrlf(pieces: seq<seq<byte>>, at: nat, writes: seq<seq<byte>>)
    requires writes != []
    ensures Splits(Symbols(pieces), at + |SizeLine(|writes[0]|)| + |writes[0]|, writes[1..])
      <==> SplitsCrlf(pieces, at, writes)
    decreases |writes|
  {
    hide SizeLine;
    var end := at + |SizeLine(|writes[0]|)| + |writes[0]|;
    CutIsBoundary(pieces, end);
    CutIsBoundary(pieces, end + 1);
    if |writes| > 1 {
      SplitsIsSplitsCrlf(pieces, end + 2, writes[1..]);
    }
  }

  /**
   * Round trip. Whatever is written in chunks and however the stream is cut into segments, the
   * parser reaches COMPLETE; the body is what was written exactly if no cut falls in front of or
   * inside the CRLF behind a chunk that is not the last.
   */
  lemma {:induction false} ChunkedRoundTrip(p: Parser, writes: seq<seq<byte>>, pieces: seq<seq<byte>>)
    requires Sound(p) && p.phase == ChunkSize && p.rx == [] && !p.error && Writes(writes)
    requires Flatten(pieces) == ChunkStream(writes)
    ensures var q := FeedAll(p, pieces);
      && q.phase == Complete && q.eof && !q.error
      && (q.body == p.body + Flatten(writes) <==> !SplitsCrlf(pieces, 0, writes))
  {
    hide SizeLine, ChunkStream, Feed, FeedAll, Splits, Read, Text, Symbols, CutAt, Flatten, Clean;
    ChunksAreClean(p, pieces);
    FeedAllIsRead(p, pieces);
    SymbolsText(pieces);
    FeedAllClean(p, pieces);
    FromLineStart(Machine(p, Nothing), Symbols(pieces), writes);
    if writes != [] {
      SplitsIsSplitsCrlf(pieces, 0, writes);
    }
  }

  lemma {:induction false} FeedAllClean(p: Parser, pieces: seq<seq<byte>>)
    requires Sound(p) && !p.error && Clean(p, pieces)
    ensures !FeedAll(p, pieces).error
    decreases |pieces|
  {
    hide Process;
    if pieces != [] {
      FeedAllClean(Feed(p, pieces[0]), pieces[1..]);
    }
  }
}
