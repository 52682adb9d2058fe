// What the cuts between TCP segments can do to a response, and exactly which of them do harm.
//
// The parser is compared with a machine that reads one byte at a time and is told where a segment
// ends. The only places where it must be told are the CRLF behind a chunk's data, which the parser
// skips only if it has arrived together with the data, and the end of a counted body.
module HttpSegments {
  import opened Bytes
  import opened Common
  import opened HttpResponse

  /** How much of the CRLF behind chunk data has been seen; the parser keeps no such state. */
  datatype Behind = Nothing | WantCr | WantLf

  /** The machine: the parser's fields, with rx holding the unfinished line. */
  datatype Machine = Machine(p: Parser, behind: Behind)

  predicate Steady(m: Machine) {
    && Sound(m.p) && !m.p.error
    && (m.behind != Nothing ==> m.p.phase == ChunkSize && m.p.rx == [])
    && (LinePhase(m.p.phase) ==> LF !in m.p.rx)
    && (m.p.phase == Body || m.p.phase == ChunkData ==> m.p.rx == [])
  }

  function PlainByte(p: Parser, b: byte): Machine
    requires Sound(p)
  {
    if p.error || p.phase == Complete then Machine(p.(rx := p.rx + [b]), Nothing)
    else if p.phase == Body then Machine(p.(body := p.body + [b], total := p.total + 1), Nothing)
    else if p.phase == ChunkData then
      var q := p.(body := p.body + [b], total := p.total + 1, chunkReceived := p.chunkReceived + 1);
      if q.chunkReceived == q.chunkSize then Machine(q.(phase := ChunkSize), WantCr) else Machine(q, Nothing)
    else if b == LF then Machine(OnLine(p.(rx := []), Stripped(p.rx)).p, Nothing)
    else Machine(p.(rx := p.rx + [b]), Nothing)
  }

  function OnByte(m: Machine, b: byte): (r: Machine)
    requires Sound(m.p)
    ensures Sound(r.p)
  {
    match m.behind
    case Nothing => PlainByte(m.p, b)
    case WantCr => if b == CR then Machine(m.p, WantLf) else PlainByte(m.p, b)
    case WantLf => if b == LF then Machine(m.p, Nothing) else PlainByte(m.p.(rx := m.p.rx + [CR]), b)
  }

  /** The end of a segment: an unfinished CRLF is no longer skipped, and a counted body may be complete. */
  function OnCut(m: Machine): (r: Machine)
    ensures Sound(m.p) ==> Sound(r.p)
  {
    match m.behind
    case Nothing => Machine(CountedEnd(m.p), Nothing)
    case WantCr => Machine(m.p, Nothing)
    case WantLf => Machine(m.p.(rx := m.p.rx + [CR]), Nothing)
  }

  function Fold(m: Machine, s: seq<byte>): (r: Machine)
    requires Sound(m.p)
    ensures Sound(r.p)
    decreases |s|
  {
    if s == [] then m else Fold(OnByte(m, s[0]), s[1..])
  }

  lemma {:induction false} FoldAppend(m: Machine, a: seq<byte>, b: seq<byte>)
    requires Sound(m.p)
    ensures Fold(m, a + b) == Fold(Fold(m, a), b)
    decreases |a|
  {
    hide OnByte, Sound;
    if a == [] {
      assert a + b == b;
    } else {
      assert (a + b)[1..] == a[1..] + b && (a + b)[0] == a[0];
      FoldAppend(OnByte(m, a[0]), a[1..], b);
    }
  }

  // ---------------------------------------------------------------------------------------
  // The parser is the machine.

  /** Bytes of an unfinished line are only collected. */
  lemma {:induction false} FoldLine(p: Parser, s: seq<byte>)
    requires Sound(p) && !p.error && LinePhase(p.phase) && LF !in s
    ensures Fold(Machine(p, Nothing), s) == Machine(p.(rx := p.rx + s), Nothing)
    decreases |s|
  {
    if s == [] {
      assert p.rx + [] == p.rx;
    } else {
      FoldLine(p.(rx := p.rx + [s[0]]), s[1..]);
      assert p.rx + [s[0]] + s[1..] == p.rx + s;
    }
  }

  /** Body bytes are only appended. */
  lemma {:induction false} FoldBody(p: Parser, s: seq<byte>)
    requires Sound(p) && !p.error && p.phase == Body
    ensures Fold(Machine(p, Nothing), s) == Machine(p.(body := p.body + s, total := p.total + |s|), Nothing)
    decreases |s|
  {
    if s == [] {
      assert p.body + [] == p.body;
    } else {
      FoldBody(p.(body := p.body + [s[0]], total := p.total + 1), s[1..]);
      assert p.body + [s[0]] + s[1..] == p.body + s;
    }
  }

  /** Chunk data up to and including its last byte. */
  lemma {:induction false} FoldData(p: Parser, s: seq<byte>)
    requires Sound(p) && !p.error && p.phase == ChunkData && |s| <= p.chunkSize - p.chunkReceived
    ensures var q := p.(body := p.body + s, total := p.total + |s|, chunkReceived := p.chunkReceived + |s|);
      Fold(Machine(p, Nothing), s)
        == (if q.chunkReceived == q.chunkSize then Machine(q.(phase := ChunkSize), WantCr) else Machine(q, Nothing))
    decreases |s|
  {
    if s == [] {
      assert p.body + [] == p.body;
    } else {
      var q := p.(body := p.body + [s[0]], total := p.total + 1, chunkReceived := p.chunkReceived + 1);
      assert p.body + [s[0]] + s[1..] == p.body + s;
      if q.chunkReceived == q.chunkSize {
        assert s[1..] == [] && s == [s[0]];
      } else {
        FoldData(q, s[1..]);
      }
    }
  }

  /** Without the CRLF in front of it, the machine goes on as the parser does. */
  lemma {:induction false} FoldBehind(p: Parser, s: seq<byte>)
    requires Sound(p) && !p.error && p.phase == ChunkSize && p.rx == []
    ensures |s| >= 2 && s[..2] == CRLF ==> Fold(Machine(p, WantCr), s) == Fold(Machine(p, Nothing), s[2..])
    ensures !(|s| >= 2 && s[..2] == CRLF) ==>
      OnCut(Fold(Machine(p, WantCr), s)) == OnCut(Fold(Machine(p, Nothing), s))
  {
    if s != [] && s[0] == CR {
      var t := s[1..];
      assert OnByte(Machine(p, WantCr), CR) == Machine(p, WantLf);
      assert OnByte(Machine(p, Nothing), CR) == Machine(p.(rx := [CR]), Nothing);
      if t != [] && t[0] == LF {
        assert t[1..] == s[2..];
      } else if t != [] {
        assert OnByte(Machine(p, WantLf), t[0]) == OnByte(Machine(p.(rx := [CR]), Nothing), t[0]);
      }
    }
  }

  /** Process on the unfinished line and new bytes is the machine run over the new bytes. */
  lemma {:induction false} ProcessIsFold(p: Parser, s: seq<byte>)
    requires Steady(Machine(p, Nothing))
    requires !Process(p.(rx := p.rx + s)).error
    ensures Process(p.(rx := p.rx + s)) == OnCut(Fold(Machine(p, Nothing), s)).p
    ensures !Fold(Machine(p, Nothing), s).p.error && Steady(OnCut(Fold(Machine(p, Nothing), s)))
    decreases |s|, 1
  {
    if p.phase == Complete {
      FoldComplete(p, s);
    } else if p.phase == Body {
      FoldBody(p, s);
      assert p.rx + s == s;
    } else if p.phase == ChunkData {
      ProcessData(p, s);
    } else {
      ProcessLine(p, s);
    }
  }

  lemma {:induction false} FoldComplete(p: Parser, s: seq<byte>)
    requires Sound(p) && p.phase == Complete
    ensures Fold(Machine(p, Nothing), s) == Machine(p.(rx := p.rx + s), Nothing)
    decreases |s|
  {
    if s == [] {
      assert p.rx + [] == p.rx;
    } else {
      FoldComplete(p.(rx := p.rx + [s[0]]), s[1..]);
      assert p.rx + [s[0]] + s[1..] == p.rx + s;
    }
  }

  /** The parser after taking n more bytes of chunk data. */
  function Taken(p: Parser, data: seq<byte>): Parser {
    p.(body := p.body + data, total := p.total + |data|, chunkReceived := p.chunkReceived + |data|)
  }

  function PastCrlf(s: seq<byte>): seq<byte> {
    if |s| >= 2 && s[..2] == CRLF then s[2..] else s
  }

  lemma ProcessOnce(p: Parser)
    requires Sound(p) && p.rx != [] && p.phase != Complete
    ensures Process(p) == match OnePass(p) case Stop(q) => q case Next(q) => Process(q)
  {
    hide OnePass;
  }

  lemma DataPass(p: Parser, s: seq<byte>)
    requires Sound(p) && p.phase == ChunkData && s != []
    ensures var n := Min(|s|, p.chunkSize - p.chunkReceived);
      Process(p.(rx := s)) ==
        if p.chunkReceived + n == p.chunkSize then
          Process(Taken(p, s[..n]).(phase := ChunkSize, rx := PastCrlf(s[n..])))
        else Process(Taken(p, s).(rx := []))
  {
    hide Process;
    var n := Min(|s|, p.chunkSize - p.chunkReceived);
    ProcessOnce(p.(rx := s));
    assert OnePass(p.(rx := s)) == Next(TakeData(p.(rx := s)));
    if p.chunkReceived + n != p.chunkSize {
      assert n == |s| && s[..n] == s && s[n..] == [];
    }
  }

  lemma ProcessIdle(p: Parser)
    requires Sound(p) && p.rx == [] && p.phase != Body
    ensures Process(p) == p && OnCut(Machine(p, Nothing)) == Machine(p, Nothing)
  {
  }

  lemma {:induction false} ProcessData(p: Parser, s: seq<byte>)
    requires Steady(Machine(p, Nothing)) && p.phase == ChunkData
    requires !Process(p.(rx := p.rx + s)).error
    ensures Process(p.(rx := p.rx + s)) == OnCut(Fold(Machine(p, Nothing), s)).p
    ensures !Fold(Machine(p, Nothing), s).p.error && Steady(OnCut(Fold(Machine(p, Nothing), s)))
    decreases |s|, 0
  {
    hide Process, Fold, OnCut, OnByte, PastCrlf;
    assert p.rx + s == s;
    if s == [] {
      ProcessIdle(p);
      FoldData(p, s);
      assert Taken(p, s) == p.(body := p.body + []) == p;
    } else {
      DataPass(p, s);
      var n := Min(|s|, p.chunkSize - p.chunkReceived);
      assert s == s[..n] + s[n..];
      FoldData(p, s[..n]);
      FoldAppend(Machine(p, Nothing), s[..n], s[n..]);
      if p.chunkReceived + n == p.chunkSize {
        var r := Taken(p, s[..n]).(phase := ChunkSize);
        ProcessBehind(r, s[n..]);
      } else {
        assert s[..n] == s && s[n..] == [];
        FoldEmpty(Fold(Machine(p, Nothing), s));
        assert Taken(p, s).(rx := []) == Taken(p, s);
        ProcessIdle(Taken(p, s));
      }
    }
  }

  lemma FoldEmpty(m: Machine)
    requires Sound(m.p)
    ensures Fold(m, []) == m
  {
  }

  lemma {:induction false} ProcessBehind(r: Parser, s: seq<byte>)
    requires Steady(Machine(r, Nothing)) && r.phase == ChunkSize && r.rx == []
    requires !Process(r.(rx := PastCrlf(s))).error
    ensures Process(r.(rx := PastCrlf(s))) == OnCut(Fold(Machine(r, WantCr), s)).p
    ensures !Fold(Machine(r, WantCr), s).p.error && Steady(OnCut(Fold(Machine(r, WantCr), s)))
    decreases |s|, 2
  {
    hide Process, Fold;
    var t := PastCrlf(s);
    assert r.rx + t == t;
    FoldBehind(r, s);
    ProcessIsFold(r, t);
    CutKeepsError(Fold(Machine(r, WantCr), s));
    CutKeepsError(Fold(Machine(r, Nothing), s));
  }

  lemma CutKeepsError(m: Machine)
    ensures OnCut(m).p.error == m.p.error
  {
  }

  lemma LineOnePass(p: Parser, x: seq<byte>)
    requires Sound(p) && LinePhase(p.phase) && x != []
    ensures var i := IndexOf(x, LF);
      OnePass(p.(rx := x)) ==
        if i == |x| then Stop(p.(rx := x)) else OnLine(p.(rx := x[i + 1..]), Stripped(x[..i]))
  {
    hide OnLine, Stripped;
    assert p.(rx := x).(rx := x[IndexOf(x, LF)..]) == p.(rx := x[IndexOf(x, LF)..]);
  }

  lemma LineWaits(p: Parser, x: seq<byte>)
    requires Sound(p) && LinePhase(p.phase) && LF !in x
    ensures Process(p.(rx := x)) == p.(rx := x)
  {
    hide OnLine, OnePass, Stripped, Process;
    AbsentMeansEnd(x, LF);
    if x == [] {
      ProcessIdle(p.(rx := x));
    } else {
      ProcessOnce(p.(rx := x));
      LineOnePass(p, x);
    }
  }

  lemma LineDone(p: Parser, line: seq<byte>, rest: seq<byte>)
    requires Sound(p) && LinePhase(p.phase) && LF !in line
    ensures var q := OnLine(p.(rx := []), Stripped(line));
      Process(p.(rx := line + [LF] + rest)) ==
        if q.Stop? then q.p.(rx := rest) else Process(q.p.(rx := rest))
  {
    hide OnLine, OnePass, Stripped, Process, IndexOf;
    var x := line + [LF] + rest;
    assert x == line + ([LF] + rest);
    IndexAfter(line, [LF] + rest);
    IndexOfFirst([LF] + rest);
    assert x[..|line|] == line && x[|line| + 1..] == rest;
    ProcessOnce(p.(rx := x));
    LineOnePass(p, x);
    LineApart(p, Stripped(line), rest);
  }

  lemma IndexOfFirst(s: seq<byte>)
    requires s != [] && s[0] == LF
    ensures IndexOf(s, LF) == 0
  {
  }

  lemma LinePass(p: Parser, s: seq<byte>)
    requires Steady(Machine(p, Nothing)) && LinePhase(p.phase)
    ensures var i := IndexOf(s, LF);
      if i == |s| then Process(p.(rx := p.rx + s)) == p.(rx := p.rx + s)
      else
        var q := OnLine(p.(rx := []), Stripped(p.rx + s[..i]));
        Process(p.(rx := p.rx + s)) ==
          if q.Stop? then q.p.(rx := s[i + 1..]) else Process(q.p.(rx := s[i + 1..]))
  {
    hide OnLine, Stripped, Process, IndexOf, Sound;
    var i := IndexOf(s, LF);
    if i == |s| {
      assert s[..i] == s;
      LineWaits(p, p.rx + s);
    } else {
      assert p.rx + s == (p.rx + s[..i]) + [LF] + s[i + 1..];
      LineDone(p, p.rx + s[..i], s[i + 1..]);
    }
  }

  lemma {:induction false} FoldToLine(p: Parser, s: seq<byte>)
    requires Steady(Machine(p, Nothing)) && LinePhase(p.phase)
    ensures var i := IndexOf(s, LF);
      Fold(Machine(p, Nothing), s) ==
        if i == |s| then Machine(p.(rx := p.rx + s), Nothing)
        else Fold(Machine(OnLine(p.(rx := []), Stripped(p.rx + s[..i])).p, Nothing), s[i + 1..])
  {
    hide OnLine, Stripped;
    var i := IndexOf(s, LF);
    FoldLine(p, s[..i]);
    if i == |s| {
      assert s[..i] == s;
    } else {
      var t := [LF] + s[i + 1..];
      assert s == s[..i] + t && t[1..] == s[i + 1..];
      FoldAppend(Machine(p, Nothing), s[..i], t);
      var q := p.(rx := p.rx + s[..i]);
      assert q.(rx := []) == p.(rx := []);
      assert OnByte(Machine(q, Nothing), LF)
          == Machine(OnLine(p.(rx := []), Stripped(p.rx + s[..i])).p, Nothing);
    }
  }

  lemma {:induction false} ProcessLine(p: Parser, s: seq<byte>)
    requires Steady(Machine(p, Nothing)) && LinePhase(p.phase)
    requires !Process(p.(rx := p.rx + s)).error
    ensures Process(p.(rx := p.rx + s)) == OnCut(Fold(Machine(p, Nothing), s)).p
    ensures !Fold(Machine(p, Nothing), s).p.error && Steady(OnCut(Fold(Machine(p, Nothing), s)))
    decreases |s|, 0
  {
    hide Process, Fold, OnLine;
    var i := IndexOf(s, LF);
    LinePass(p, s);
    FoldToLine(p, s);
    if i < |s| {
      var line := Stripped(p.rx + s[..i]);
      LineApart(p, line, []);
      var q := OnLine(p.(rx := []), line).p;
      assert q.rx + s[i + 1..] == s[i + 1..];
      ProcessIsFold(q, s[i + 1..]);
    }
  }

  /** A line's effect has nothing to do with the bytes behind it. */
  lemma LineApart(p: Parser, line: seq<byte>, rest: seq<byte>)
    requires Sound(p) && LinePhase(p.phase)
    ensures OnLine(p.(rx := rest), line).p == OnLine(p.(rx := []), line).p.(rx := rest)
    ensures OnLine(p.(rx := rest), line).Stop? <==> OnLine(p.(rx := []), line).Stop?
    ensures OnLine(p.(rx := rest), line).Stop? && !p.error ==> OnLine(p.(rx := rest), line).p.error
    ensures OnLine(p.(rx := rest), line).Next? ==> OnLine(p.(rx := rest), line).p.error == p.error
  {
    hide ParseStatusLine, ParseHeaderLine, ParseChunkSize, HeadersEnd;
  }

  lemma {:induction false} IndexAfter(a: seq<byte>, s: seq<byte>)
    requires LF !in a
    ensures IndexOf(a + s, LF) == |a| + IndexOf(s, LF)
  {
    if a == [] {
      assert a + s == s;
    } else {
      assert (a + s)[1..] == a[1..] + s && (a + s)[0] == a[0];
      IndexAfter(a[1..], s);
    }
  }
}
