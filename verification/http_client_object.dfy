// HttpClient of components/esp-ml307/src/http_client.cc as an object: the receiving and the sending
// methods and Read, each proved to do what the functions on values say.
module HttpClientObject {
  import opened Bytes
  import opened Common
  import opened HttpResponse
  import opened HttpWords
  import opened HttpSegments
  import opened BodyQueue

  /** What Read returns: a count, an error code, or that it has to wait for cv_. */
  datatype ReadResult = Count(n: nat) | Failed | MustWait

  class Client {
    var phase: Phase
    var rx: seq<byte>
    /** status_code_, response_headers_, headers_received_, server_keep_alive_, response_chunked_, content_length_ */
    var head: Head
    var totalBodyReceived: nat
    var chunkSize: nat
    var chunkReceived: nat
    var eof: bool
    var errorBit: bool
    var connected: bool
    var connectionError: bool
    var requestChunked: bool
    var chunks: seq<Chunk>
    var sent: seq<byte>
    /** Everything handed to AddBodyData since the request began. */
    ghost var body: seq<byte>

    ghost function State(): Parser
      reads this
    {
      Parser(phase, rx, head, totalBodyReceived, chunkSize, chunkReceived, eof, errorBit, body)
    }

    ghost predicate Valid()
      reads this
    {
      Sound(State()) && Live(chunks)
    }

    /** The parsing fields are p's, and the queue holds what it held in front of the body data of p since `was`. */
    ghost predicate Became(p: Parser, was: Parser, queue: seq<Chunk>)
      reads this
    {
      && State() == p && Live(chunks) && was.body <= p.body
      && Unread(chunks) == Unread(queue) + p.body[|was.body|..]
    }

    /** The line l at the front of was.rx has been dealt with. */
    ghost predicate Handled(was: Parser, l: seq<byte>, accepted: bool)
      requires LinePhase(was.phase) && Sound(was)
      reads this
    {
      && was.rx == l + [LF] + rx
      && State() == OnLine(was.(rx := rx), Stripped(l)).p
      && accepted == OnLine(was.(rx := rx), Stripped(l)).Next?
    }

    constructor ()
      ensures Valid() && State() == Fresh(false) && chunks == [] && sent == [] && !connected
    {
      phase, rx, head := StatusLine, [], Fresh(false).head;
      totalBodyReceived, chunkSize, chunkReceived, eof, errorBit := 0, 0, 0, false, false;
      connected, connectionError, requestChunked := false, false, false;
      chunks, sent, body := [], [], [];
    }

    method ResetRequestState()
      modifies this
      ensures Valid() && State() == Fresh(old(head.keepAlive)) && chunks == []
      ensures !connectionError && !requestChunked && sent == old(sent) && connected == old(connected)
    {
      hide Unread;
      head := Fresh(head.keepAlive).head;
      chunks := [];
      requestChunked := false;
      connectionError := false;
      ResetParser();
    }

    method ResetParser()
      modifies this`phase, this`rx, this`totalBodyReceived, this`chunkSize, this`chunkReceived, this`eof,
        this`errorBit, this`body
      ensures State() == Parser(StatusLine, [], head, 0, 0, 0, false, false, [])
    {
      totalBodyReceived := 0;
      eof := false;
      phase := StatusLine;
      chunkSize := 0;
      chunkReceived := 0;
      rx := [];
      errorBit := false;
      body := [];
    }

    method AddBodyData(data: seq<byte>)
      requires Live(chunks)
      modifies this`chunks, this`body
      ensures Live(chunks) && Unread(chunks) == old(Unread(chunks)) + data && body == old(body) + data
    {
      if data != [] {
        AppendChunk(chunks, data);
        chunks := chunks + [Chunk(data, 0)];
      }
      body := body + data;
    }

    method HasCompleteLine(buffer: seq<byte>) returns (found: bool)
      ensures found <==> LF in buffer
    {
      var i := 0;
      while i < |buffer| && buffer[i] != LF
        invariant i <= |buffer| && LF !in buffer[..i]
      {
        i := i + 1;
      }
      assert buffer[..|buffer|] == buffer;
      found := i < |buffer|;
    }

    /** The line in front of the first line end, and the buffer behind it. */
    method GetNextLine(buffer: seq<byte>) returns (line: seq<byte>, rest: seq<byte>)
      ensures LF !in buffer ==> line == [] && rest == buffer
      ensures LF in buffer ==>
        exists l: seq<byte> :: LF !in l && line == Stripped(l) && l + [LF] + rest == buffer
    {
      var i := 0;
      while i < |buffer| && buffer[i] != LF
        invariant i <= |buffer| && LF !in buffer[..i]
      {
        i := i + 1;
      }
      if i == |buffer| {
        assert buffer[..i] == buffer;
        return [], buffer;
      }
      line, rest := buffer[..i], buffer[i + 1..];
      ghost var l := line;
      assert l + [LF] + rest == buffer;
      if line != [] && line[|line| - 1] == CR {
        line := line[..|line| - 1];
      }
    }

    method OnStatusLine(line: seq<byte>) returns (accepted: bool)
      requires Sound(State()) && phase == StatusLine
      modifies this`phase, this`head, this`errorBit
      ensures var pass := OnLine(old(State()), line); State() == pass.p && accepted == pass.Next?
    {
      hide ParseStatusLine;
      var status := ParseStatusLine(line);
      accepted := status.Some?;
      if accepted {
        head := head.(status := status.value);
        phase := Headers;
      } else {
        errorBit := true;
      }
    }

    method OnHeaderLine(line: seq<byte>) returns (accepted: bool)
      requires Sound(State()) && phase == Headers
      modifies this`phase, this`head, this`errorBit
      ensures var pass := OnLine(old(State()), line); State() == pass.p && accepted == pass.Next?
    {
      hide ParseHeaderLine, HeadersEnd;
      accepted := true;
      if line == [] {
        head := HeadersEnd(head);
        phase := if head.chunked then ChunkSize else Body;
      } else {
        var header := ParseHeaderLine(line);
        if header.Some? {
          head := head.(headers := head.headers[header.value.0 := header.value.1]);
        } else {
          errorBit := true;
          accepted := false;
        }
      }
    }

    method OnSizeLine(line: seq<byte>)
      requires Sound(State()) && phase == ChunkSize
      modifies this`phase, this`chunkSize, this`chunkReceived
      ensures var pass := OnLine(old(State()), line); State() == pass.p && pass.Next?
    {
      hide ParseChunkSize;
      chunkSize := ParseChunkSize(line);
      chunkReceived := 0;
      phase := if chunkSize == 0 then ChunkTrailer else ChunkData;
    }

    method OnTrailerLine(line: seq<byte>)
      requires Sound(State()) && phase == ChunkTrailer
      modifies this`phase, this`eof
      ensures var pass := OnLine(old(State()), line); State() == pass.p && pass.Next?
    {
      if line == [] {
        phase := Complete;
        eof := true;
      }
    }

    /** A line phase with a complete line in rx: false if the line is refused. */
    method OnCompleteLine() returns (accepted: bool)
      requires Valid() && LinePhase(phase) && LF in rx
      modifies this`rx, this`phase, this`head, this`chunkSize, this`chunkReceived, this`eof, this`errorBit
      ensures exists l: seq<byte> :: LF !in l && Handled(old(State()), l, accepted)
    {
      hide OnLine, Stripped;
      ghost var was := State();
      var line, rest := GetNextLine(rx);
      rx := rest;
      ghost var l: seq<byte> :| LF !in l && line == Stripped(l) && l + [LF] + rx == was.rx;
      assert State() == was.(rx := rx);
      accepted := true;
      match phase {
        case StatusLine => accepted := OnStatusLine(line);
        case Headers => accepted := OnHeaderLine(line);
        case ChunkSize => OnSizeLine(line);
        case ChunkTrailer => OnTrailerLine(line);
      }
      assert LF !in l && Handled(was, l, accepted);
    }

    /** Skips the CRLF behind a chunk if it is there. */
    method SkipCrlf()
      modifies this`rx
      ensures rx == PastCrlf(old(rx))
    {
      if |rx| >= 2 && rx[..2] == CRLF {
        rx := rx[2..];
      }
    }

    /** As much of the chunk as has arrived. */
    method TakeAvailable()
      requires Valid() && phase == ChunkData && rx != []
      modifies this`rx, this`totalBodyReceived, this`chunkReceived, this`chunks, this`body
      ensures var p := old(State());
        var n := Min(|p.rx|, p.chunkSize - p.chunkReceived);
        Became(Taken(p, p.rx[..n]).(rx := p.rx[n..]), p, old(chunks))
    {
      hide Live, Unread;
      ghost var was := body;
      var available := Min(|rx|, chunkSize - chunkReceived);
      AddBodyData(rx[..available]);
      assert body[|was|..] == rx[..available];
      totalBodyReceived := totalBodyReceived + available;
      rx := rx[available..];
      chunkReceived := chunkReceived + available;
    }

    /** The CHUNK_DATA case. */
    method OnChunkData()
      requires Valid() && phase == ChunkData && rx != []
      modifies this
      ensures Became(TakeData(old(State())), old(State()), old(chunks))
      ensures sent == old(sent) && connected == old(connected)
    {
      hide Live, Unread, TakeData, PastCrlf;
      ghost var p := State();
      TakeAvailable();
      if chunkReceived == chunkSize {
        SkipCrlf();
        phase := ChunkSize;
      }
      DataTaken(p);
    }

    method ParseRegularBody()
      requires Valid() && phase == Body && rx != []
      modifies this
      ensures var p := old(State());
        Became(p.(body := p.body + p.rx, total := p.total + |p.rx|, rx := []), p, old(chunks))
      ensures sent == old(sent) && connected == old(connected)
    {
      AddBodyData(rx);
      totalBodyReceived := totalBodyReceived + |rx|;
      rx := [];
    }

    /** The switch in the loop of ProcessReceivedData: false if the function is to return. */
    method Switch() returns (more: bool)
      requires Valid() && rx != [] && phase != Complete
      modifies this
      ensures Valid() && Became(OnePass(old(State())).p, old(State()), old(chunks))
      ensures more == OnePass(old(State())).Next?
      ensures sent == old(sent) && connected == old(connected)
    {
      hide OnePass, OnLine, Stripped, TakeData, Live, Unread;
      ghost var p, queue := State(), chunks;
      more := true;
      if phase == Body {
        DataOnePass(p);
        ParseRegularBody();
      } else if phase == ChunkData {
        DataOnePass(p);
        OnChunkData();
      } else {
        var complete := HasCompleteLine(rx);
        if complete {
          more := OnCompleteLine();
          ghost var l: seq<byte> :| LF !in l && Handled(p, l, more);
          FirstLine(p, l, rx);
          LineAddsNothing(p.(rx := rx), Stripped(l));
        } else {
          AbsentMeansEnd(rx, LF);
          LineOnePass(p, p.rx);
          more := false;
        }
        BecameNothing(queue);
      }
    }

    method ProcessReceivedData()
      requires Valid()
      modifies this
      ensures Valid() && Became(Process(old(State())), old(State()), old(chunks))
      ensures sent == old(sent) && connected == old(connected)
    {
      hide OnePass, Process, Live, Unread;
      ghost var start, queue := State(), chunks;
      BecameNothing(queue);
      while rx != [] && phase != Complete
        invariant Valid() && Process(State()) == Process(start)
        invariant Became(State(), start, queue)
        invariant sent == old(sent) && connected == old(connected)
        decreases |rx|
      {
        ghost var p, before := State(), chunks;
        ProcessOnce(p);
        var more := Switch();
        BecameInTurn(p, start, before, queue);
        if !more {
          return;
        }
      }
      ghost var last := State();
      ProcessStops(last);
      if phase == Body && !head.chunked && head.contentLength > 0 && totalBodyReceived >= head.contentLength {
        phase, eof := Complete, true;
      }
    }

    /** OnTcpData behind its wait; `data` has been admitted. */
    method OnTcpData(data: seq<byte>)
      requires Valid()
      modifies this
      ensures Valid() && Became(Feed(old(State()), data), old(State()), old(chunks))
      ensures sent == old(sent) && connected == old(connected)
    {
      hide Process, Live, Unread;
      rx := rx + data;
      ghost var grown := State();
      ProcessReceivedData();
    }

    method IsDataComplete() returns (complete: bool)
      ensures complete <==>
        if head.chunked then phase == Complete else head.contentLength == 0 || totalBodyReceived >= head.contentLength
    {
      if head.chunked {
        return phase == Complete;
      }
      if head.contentLength > 0 {
        return totalBodyReceived >= head.contentLength;
      }
      return true;
    }

    method OnTcpDisconnected()
      modifies this`connected, this`head, this`connectionError, this`eof
      ensures !connected && head == old(head).(keepAlive := false)
      ensures connectionError == (old(connectionError) || old(CutShort(State())))
      ensures eof == (old(eof) || !old(CutShort(State())))
    {
      connected := false;
      head := head.(keepAlive := false);
      var complete := IsDataComplete();
      if head.received && !complete {
        connectionError := true;
      } else {
        eof := true;
      }
    }

    /** DataChunk.read on the oldest chunk. */
    method ReadFront(buffer: array<byte>) returns (n: nat)
      requires chunks != [] && Live(chunks)
      modifies this`chunks, buffer
      ensures n == Min(buffer.Length, Available(old(chunks[0])))
      ensures buffer[..n] == old(chunks[0].data[chunks[0].offset..chunks[0].offset + n])
      ensures buffer[n..] == old(buffer[n..])
      ensures chunks == old([Chunk(chunks[0].data, chunks[0].offset + n)] + chunks[1..])
    {
      var front := chunks[0];
      n := Min(buffer.Length, Available(front));
      forall i | 0 <= i < n {
        buffer[i] := front.data[front.offset + i];
      }
      chunks := [Chunk(front.data, front.offset + n)] + chunks[1..];
    }

    /** The loop that both halves of Read hold. */
    method TakeQueued(buffer: array<byte>) returns (n: nat)
      requires Live(chunks)
      modifies this`chunks, buffer
      ensures n <= buffer.Length && Live(chunks)
      ensures (buffer[..n], chunks) == TakenFrom(old(chunks), buffer.Length)
      ensures buffer[n..] == old(buffer[n..])
    {
      hide Unread, Total;
      TakenServes(chunks, buffer.Length);
      n := 0;
      while chunks != []
        invariant Live(chunks) && n == 0 && buffer[..] == old(buffer[..])
        invariant TakenFrom(chunks, buffer.Length) == TakenFrom(old(chunks), buffer.Length)
        decreases |chunks|
      {
        ghost var queue := chunks;
        n := ReadFront(buffer);
        ghost var c := queue[0];
        assert n == Available(c) ==> c.data[c.offset..c.offset + n] == c.data[c.offset..];
        if n > 0 {
          if chunks[0].offset >= |chunks[0].data| {
            chunks := chunks[1..];
            assert chunks == queue[1..];
          }
          return;
        }
        chunks := chunks[1..];
        assert chunks == queue[1..];
      }
    }

    /** Read up to its wait. */
    method Read(buffer: array<byte>) returns (r: ReadResult)
      requires Live(chunks)
      modifies this`chunks, buffer
      ensures Live(chunks)
      ensures old(connectionError) ==> r == Failed && chunks == old(chunks) && buffer[..] == old(buffer[..])
      ensures !connectionError && r.Count? && r.n > 0 ==>
        && r.n <= buffer.Length
        && buffer[..r.n] + Unread(chunks) == Unread(old(chunks))
        && buffer[r.n..] == old(buffer[r.n..])
      ensures !connectionError && old(chunks) != [] && buffer.Length > 0 ==>
        r.Count? && r.n == Min(buffer.Length, Available(old(chunks[0]))) && r.n > 0
      ensures !connectionError && (old(chunks) == [] || buffer.Length == 0) ==>
        && chunks == []
        && r == if (old(chunks) == [] && eof) || !connected then Count(0) else MustWait
    {
      if connectionError {
        return Failed;
      }
      if eof && chunks == [] {
        return Count(0);
      }
      TakenServes(chunks, buffer.Length);
      var n := TakeQueued(buffer);
      if n > 0 {
        return Count(n);
      }
      return if connected then MustWait else Count(0);
    }

    /** Read behind its wait, which has ended in time or not. */
    method ReadAfterWait(buffer: array<byte>, received: bool) returns (r: ReadResult)
      requires Live(chunks)
      modifies this`chunks, buffer
      ensures Live(chunks)
      ensures !received || connectionError ==> r == Failed && chunks == old(chunks) && buffer[..] == old(buffer[..])
      ensures received && !connectionError ==>
        && r.Count? && r.n <= buffer.Length
        && (r.n == 0 <==> old(chunks) == [] || buffer.Length == 0) && buffer[r.n..] == old(buffer[r.n..])
        && (old(chunks) != [] ==> r.n == Min(buffer.Length, Available(old(chunks[0]))))
        && (buffer[..r.n] + Unread(chunks) == Unread(old(chunks)) <==> old(chunks) == [] || buffer.Length > 0)
    {
      if !received || connectionError {
        return Failed;
      }
      TakenServes(chunks, buffer.Length);
      var n := TakeQueued(buffer);
      return Count(n);
    }

    /** Write, once the connection takes what it is given. */
    method Write(buffer: array<byte>) returns (n: int)
      modifies this`sent
      ensures !connected ==> n == -1 && sent == old(sent)
      ensures connected ==>
        && sent == old(sent) + (if requestChunked then WriteChunk(buffer[..]) else buffer[..])
        && n == |sent| - |old(sent)|
    {
      if !connected {
        return -1;
      }
      if requestChunked {
        if buffer.Length == 0 {
          sent := sent + [48] + CRLF + CRLF;
          return 5;
        }
        var chunk := Hex(buffer.Length) + CRLF + buffer[..] + CRLF;
        sent := sent + chunk;
        return |chunk|;
      }
      if buffer.Length == 0 {
        return 0;
      }
      sent := sent + buffer[..];
      return buffer.Length;
    }

    /** What became of p, which became of start. */
    lemma BecameInTurn(p: Parser, start: Parser, before: seq<Chunk>, queue: seq<Chunk>)
      requires Became(State(), p, before) && start.body <= p.body
      requires Unread(before) == Unread(queue) + p.body[|start.body|..]
      ensures Became(State(), start, queue)
    {
      hide Unread;
      assert p.body[|start.body|..] + body[|p.body|..] == body[|start.body|..];
    }

    lemma BecameNothing(queue: seq<Chunk>)
      requires Live(queue) && chunks == queue
      ensures Became(State(), State(), queue)
    {
      assert body[|body|..] == [];
      assert Unread(queue) + [] == Unread(queue);
    }
  }

  lemma ProcessStops(p: Parser)
    requires Sound(p) && (p.rx == [] || p.phase == Complete)
    ensures Process(p) == CountedEnd(p)
  {
  }

  lemma DataTaken(p: Parser)
    requires Sound(p) && p.phase == ChunkData && p.rx != []
    ensures var n := Min(|p.rx|, p.chunkSize - p.chunkReceived);
      var q := Taken(p, p.rx[..n]);
      TakeData(p) ==
        if q.chunkReceived == p.chunkSize then q.(phase := ChunkSize, rx := PastCrlf(p.rx[n..]))
        else q.(rx := p.rx[n..])
  {
  }

  lemma LineAddsNothing(p: Parser, line: seq<byte>)
    requires LinePhase(p.phase) && Sound(p)
    ensures OnLine(p, line).p.body == p.body
  {
    hide ParseStatusLine, ParseHeaderLine, ParseChunkSize, HeadersEnd;
  }

  lemma DataOnePass(p: Parser)
    requires Sound(p) && p.rx != [] && (p.phase == Body || p.phase == ChunkData)
    ensures OnePass(p) == Next(
      if p.phase == Body then p.(body := p.body + p.rx, total := p.total + |p.rx|, rx := []) else TakeData(p))
  {
  }

  lemma FirstLine(p: Parser, l: seq<byte>, rest: seq<byte>)
    requires Sound(p) && LinePhase(p.phase) && LF !in l && p.rx == l + [LF] + rest
    ensures OnePass(p) == OnLine(p.(rx := rest), Stripped(l))
  {
    hide OnLine, Stripped, IndexOf;
    assert p.rx == l + ([LF] + rest);
    IndexAfter(l, [LF] + rest);
    IndexOfFirst([LF] + rest);
    assert p.rx[..|l|] == l && p.rx[|l| + 1..] == rest;
    LineOnePass(p, p.rx);
    assert p.(rx := p.rx) == p;
  }
}
