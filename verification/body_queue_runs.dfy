// Every interleaving of the TCP receiver (OnTcpData), the reader (Read) and Close in
// components/esp-ml307/src/http_client.cc over the body queue.
//
// The receiver tests its condition and falls asleep under read_mutex_, so no Read comes between the
// two; Close clears connected_ and notifies without that lock.
module BodyQueueRuns {
  import opened Bytes
  import opened HttpResponse
  import opened HttpSegments
  import opened HttpChunks
  import opened HttpHead
  import opened BodyQueue

  /** Where OnTcpData is: in front of the wait, between test and sleep, asleep, or adding body data. */
  datatype Receiver =
    | Free
    | Testing(data: seq<byte>)
    | Falling(data: seq<byte>)
    | Asleep(data: seq<byte>)
    | Adding(pieces: seq<seq<byte>>)

  datatype Closer = Connected | Closing | Closed

  /**
   * `segments` are the ones admitted so far, `delivered` what Read has returned. `wasted`: a Read
   * without room has met a queue with data. `raced`: Close has notified between test and sleep.
   */
  datatype State = State(chunks: seq<Chunk>, receiver: Receiver, closer: Closer, parser: Parser,
                         segments: seq<seq<byte>>, delivered: seq<byte>, wasted: bool, raced: bool)

  datatype Label =
    | Arrive(data: seq<byte>)
    | Test(pieces: seq<seq<byte>>)
    | Sleep
    | Wake
    | Add
    | Finish
    | Read(size: nat)
    | ClearConnected
    | Notify

  predicate Admissible(s: State, data: seq<byte>) {
    |data| + Total(s.chunks) < MAX_BODY_CHUNKS_SIZE || s.closer != Connected
  }

  /** The pieces in which the parser hands over the body data that a segment holds. */
  predicate PiecesOf(pieces: seq<seq<byte>>, p: Parser, data: seq<byte>)
    requires Sound(p)
  {
    && (forall i | 0 <= i < |pieces| :: pieces[i] != [])
    && Feed(p, data).body == p.body + Flatten(pieces)
  }

  predicate Enabled(s: State, l: Label) {
    match l
    case Arrive(_) => s.receiver.Free?
    case Test(pieces) =>
      s.receiver.Testing? && Sound(s.parser)
      && (Admissible(s, s.receiver.data) ==> PiecesOf(pieces, s.parser, s.receiver.data))
    case Sleep => s.receiver.Falling?
    case Wake => s.receiver.Asleep?
    case Add => s.receiver.Adding? && s.receiver.pieces != []
    case Finish => s.receiver.Adding? && s.receiver.pieces == []
    case Read(_) => !s.receiver.Falling?
    case ClearConnected => s.closer == Connected
    case Notify => s.closer == Closing
  }

  function Woken(r: Receiver): Receiver {
    if r.Asleep? then Testing(r.data) else r
  }

  function Apply(s: State, l: Label): State
    requires Enabled(s, l)
  {
    match l
    case Arrive(data) => s.(receiver := Testing(data))
    case Test(pieces) =>
      var data := s.receiver.data;
      if Admissible(s, data) then
        s.(receiver := Adding(pieces), parser := Feed(s.parser, data), segments := s.segments + [data])
      else s.(receiver := Falling(data))
    case Sleep => s.(receiver := Asleep(s.receiver.data))
    case Wake => s.(receiver := Woken(s.receiver))
    case Add =>
      s.(chunks := s.chunks + [Chunk(s.receiver.pieces[0], 0)], receiver := Adding(s.receiver.pieces[1..]))
    case Finish => s.(receiver := Free)
    case Read(size) =>
      var (r, rest) := TakenFrom(s.chunks, size);
      s.(chunks := rest, delivered := s.delivered + r, receiver := if r != [] then Woken(s.receiver) else s.receiver,
         wasted := s.wasted || (size == 0 && s.chunks != []))
    case ClearConnected => s.(closer := Closing)
    case Notify =>
      s.(closer := Closed, receiver := Woken(s.receiver), raced := s.raced || s.receiver.Falling?)
  }

  predicate CanRun(s: State, run: seq<Label>)
    decreases |run|
  {
    run == [] || (Enabled(s, run[0]) && CanRun(Apply(s, run[0]), run[1..]))
  }

  function Run(s: State, run: seq<Label>): State
    requires CanRun(s, run)
    decreases |run|
  {
    if run == [] then s else Run(Apply(s, run[0]), run[1..])
  }

  function Start(p: Parser): State {
    State([], Free, Connected, p, [], [], false, false)
  }

  /** Body data that the receiver has parsed but not queued yet. */
  function Pending(s: State): seq<byte> {
    if s.receiver.Adding? then Flatten(s.receiver.pieces) else []
  }

  // ---------------------------------------------------------------------------------------
  // The invariant.

  predicate ParserFits(s: State, p0: Parser) {
    && Sound(p0) && Sound(s.parser)
    && s.parser == FeedAll(p0, s.segments)
    && (s.parser.error || Steady(Machine(s.parser, Nothing)))
  }

  predicate QueueFits(s: State) {
    && Live(s.chunks)
    && (s.receiver.Adding? ==> forall i | 0 <= i < |s.receiver.pieces| :: s.receiver.pieces[i] != [])
  }

  /** Nothing is lost, or something is lost for good. */
  predicate Conserved(s: State) {
    if s.wasted then |s.delivered| + |Unread(s.chunks)| + |Pending(s)| < |s.parser.body|
    else s.delivered + Unread(s.chunks) + Pending(s) == s.parser.body
  }

  predicate Bounded(s: State) {
    s.closer == Connected && !s.parser.error ==> Total(s.chunks) + |Pending(s)| < MAX_BODY_CHUNKS_SIZE
  }

  /** A sleeping receiver has reason to sleep, or a named event has robbed it of its wake-up. */
  predicate SleepsRightly(s: State) {
    && (s.receiver.Falling? || s.receiver.Asleep? ==>
          (s.closer == Closed ==> s.raced)
          && (|s.receiver.data| + Total(s.chunks) >= MAX_BODY_CHUNKS_SIZE || s.wasted))
  }

  predicate Inv(s: State, p0: Parser) {
    ParserFits(s, p0) && QueueFits(s) && Conserved(s) && Bounded(s) && SleepsRightly(s)
  }

  // ---------------------------------------------------------------------------------------
  // What a segment can add to the body.

  lemma {:induction false} ProcessOnlyAppends(p: Parser)
    requires Sound(p)
    ensures p.body <= Process(p).body && (p.error ==> Process(p).error)
    decreases |p.rx|
  {
    if p.rx != [] && p.phase != Complete {
      PassOnlyAppends(p);
      match OnePass(p)
      case Stop(q) =>
      case Next(q) => ProcessOnlyAppends(q);
    }
  }

  lemma PassOnlyAppends(p: Parser)
    requires Sound(p) && p.rx != [] && p.phase != Complete
    ensures p.body <= OnePass(p).p.body && (p.error ==> OnePass(p).p.error)
  {
    hide ParseStatusLine, ParseHeaderLine, ParseChunkSize, HeadersEnd, Stripped, IndexOf;
  }

  lemma ByteAddsOne(m: Machine, b: byte)
    requires Sound(m.p)
    ensures |OnByte(m, b).p.body| <= |m.p.body| + 1
  {
    hide ParseStatusLine, ParseHeaderLine, ParseChunkSize, HeadersEnd, Stripped;
  }

  lemma {:induction false} FoldAddsLess(m: Machine, s: seq<byte>)
    requires Sound(m.p)
    ensures |Fold(m, s).p.body| <= |m.p.body| + |s|
    decreases |s|
  {
    hide OnByte, Sound;
    if s != [] {
      ByteAddsOne(m, s[0]);
      FoldAddsLess(OnByte(m, s[0]), s[1..]);
    }
  }

  /** A segment adds at most its own size to the body: what is left over in rx never counts again. */
  lemma SegmentAddsLess(p: Parser, data: seq<byte>)
    requires Steady(Machine(p, Nothing)) && !Feed(p, data).error
    ensures |Feed(p, data).body| <= |p.body| + |data|
    ensures Steady(Machine(Feed(p, data), Nothing))
  {
    hide Process, Fold, OnByte;
    ProcessIsFold(p, data);
    FoldAddsLess(Machine(p, Nothing), data);
    var m := Fold(Machine(p, Nothing), data);
    assert OnCut(m).p.body == m.p.body && OnCut(m).behind == Nothing;
  }

  lemma {:induction false} FeedAllSnoc(p: Parser, pieces: seq<seq<byte>>, last: seq<byte>)
    requires Sound(p)
    ensures FeedAll(p, pieces + [last]) == Feed(FeedAll(p, pieces), last)
    decreases |pieces|
  {
    hide Feed;
    var all := pieces + [last];
    if pieces == [] {
      assert all[1..] == [];
    } else {
      assert all[1..] == pieces[1..] + [last] && all[0] == pieces[0];
      FeedAllSnoc(Feed(p, pieces[0]), pieces[1..], last);
    }
  }

  // ---------------------------------------------------------------------------------------
  // Every step keeps it.

  lemma AdmitKeepsInv(s: State, l: Label, p0: Parser)
    requires Inv(s, p0) && l.Test? && Enabled(s, l) && Admissible(s, s.receiver.data)
    ensures Inv(Apply(s, l), p0)
  {
    hide Sound, Steady, Feed, FeedAll;
    var data := s.receiver.data;
    FeedAllSnoc(p0, s.segments, data);
    FeedOnlyAppends(s.parser, data);
    if !Feed(s.parser, data).error {
      SegmentAddsLess(s.parser, data);
    }
  }

  lemma FeedOnlyAppends(p: Parser, data: seq<byte>)
    requires Sound(p)
    ensures p.body <= Feed(p, data).body && (p.error ==> Feed(p, data).error)
  {
    hide Process;
    ProcessOnlyAppends(p.(rx := p.rx + data));
  }

  lemma ReadKeepsInv(s: State, l: Label, p0: Parser)
    requires Inv(s, p0) && l.Read? && Enabled(s, l)
    ensures Inv(Apply(s, l), p0)
  {
    hide FeedAll, Steady, Sound, TakenFrom, Unread, Total, Flatten;
    TakenServes(s.chunks, l.size);
    var (r, rest) := TakenFrom(s.chunks, l.size);
    var t := Apply(s, l);
    if l.size > 0 || s.chunks == [] {
      assert t.delivered + Unread(t.chunks) == s.delivered + (r + Unread(rest));
    } else {
      UnreadNonempty(s.chunks);
      assert Unread([]) == [] by { UnreadNonempty([]); }
    }
    if r == [] && l.size > 0 {
      assert s.chunks == [] && rest == [];
    }
  }

  lemma AddKeepsInv(s: State, l: Label, p0: Parser)
    requires Inv(s, p0) && l.Add? && Enabled(s, l)
    ensures Inv(Apply(s, l), p0)
  {
    hide FeedAll, Steady, Sound, TakenFrom, Unread, Total;
    var x := s.receiver.pieces[0];
    AppendChunk(s.chunks, x);
    var t := Apply(s, l);
    assert Pending(s) == x + Pending(t);
    assert s.delivered + Unread(s.chunks) + Pending(s) == s.delivered + (Unread(s.chunks) + x) + Pending(t);
    assert t.delivered + Unread(t.chunks) + Pending(t) == s.delivered + (Unread(s.chunks) + x) + Pending(t);
  }

  lemma FlattenNothing()
    ensures Flatten([]) == []
  {
  }

  lemma MoveKeepsInv(s: State, l: Label, p0: Parser)
    requires Inv(s, p0) && Enabled(s, l)
    requires !l.Read? && !l.Add? && !(l.Test? && Admissible(s, s.receiver.data))
    ensures Inv(Apply(s, l), p0)
  {
    hide TakenFrom, Unread, Total, Flatten, FeedAll, Steady, Sound, Feed;
    assert Flatten([]) == [] by { FlattenNothing(); }
  }

  lemma StepKeepsInv(s: State, l: Label, p0: Parser)
    requires Inv(s, p0) && Enabled(s, l)
    ensures Inv(Apply(s, l), p0)
  {
    hide Inv, Apply;
    if l.Read? {
      ReadKeepsInv(s, l, p0);
    } else if l.Add? {
      AddKeepsInv(s, l, p0);
    } else if l.Test? && Admissible(s, s.receiver.data) {
      AdmitKeepsInv(s, l, p0);
    } else {
      MoveKeepsInv(s, l, p0);
    }
  }

  lemma {:induction false} RunKeepsInv(s: State, run: seq<Label>, p0: Parser)
    requires Inv(s, p0) && CanRun(s, run)
    ensures Inv(Run(s, run), p0)
    decreases |run|
  {
    hide Inv, Apply, Enabled;
    if run != [] {
      StepKeepsInv(s, run[0], p0);
      RunKeepsInv(Apply(s, run[0]), run[1..], p0);
    }
  }

  lemma StartInv(p: Parser)
    requires Steady(Machine(p, Nothing)) && p.body == []
    ensures Inv(Start(p), p)
  {
  }

  // ---------------------------------------------------------------------------------------
  // Whole runs.

  /** Some Read without room comes while there is data in the queue. */
  predicate LosesData(s: State, run: seq<Label>)
    requires CanRun(s, run)
    decreases |run|
  {
    run != [] && ((run[0] == Read(0) && s.chunks != []) || LosesData(Apply(s, run[0]), run[1..]))
  }

  lemma {:induction false} WastedMeansLost(s: State, run: seq<Label>)
    requires CanRun(s, run)
    ensures Run(s, run).wasted <==> s.wasted || LosesData(s, run)
    decreases |run|
  {
    if run != [] {
      WastedMeansLost(Apply(s, run[0]), run[1..]);
    }
  }

  lemma ConservedMeans(s: State)
    requires Conserved(s)
    ensures s.delivered + Unread(s.chunks) + Pending(s) == s.parser.body <==> !s.wasted
  {
    hide Unread, Pending;
  }

  /**
   * In every run, what Read has returned, then what is queued, then what the receiver has parsed but
   * not queued is all the body data received, exactly if no Read without room has met data; and while
   * connected without a parse error the queue stays below its limit.
   */
  lemma {:induction false} EveryRun(p: Parser, run: seq<Label>)
    requires Steady(Machine(p, Nothing)) && p.body == [] && CanRun(Start(p), run)
    ensures var s := Run(Start(p), run);
      && s.parser == FeedAll(p, s.segments)
      && (s.delivered + Unread(s.chunks) + Pending(s) == s.parser.body <==> !LosesData(Start(p), run))
      && (s.closer == Connected && !s.parser.error ==> Total(s.chunks) < 8192)
  {
    hide Steady, Sound, Run, LosesData, Unread, Total, Pending, FeedAll, Conserved;
    StartInv(p);
    RunKeepsInv(Start(p), run, p);
    WastedMeansLost(Start(p), run);
    ConservedMeans(Run(Start(p), run));
  }

  /**
   * From the server's buffers to the reader's, through any segmentation and any interleaving: once a
   * chunked response has been received and the queue is read out, the reader has what was written,
   * exactly if no segment ends in front of or inside the CRLF of a chunk that is not the last.
   */
  lemma {:induction false} EndToEnd(keepAlive: bool, code: nat, reason: seq<byte>, headers: seq<Header>,
                                    writes: seq<seq<byte>>, run: seq<Label>)
    requires 100 <= code <= 999 && LF !in reason && (reason == [] || reason[|reason| - 1] != CR)
    requires (forall h | h in headers :: Proper(h)) && SelectsChunked(headers) && Writes(writes)
    requires CanRun(Start(Fresh(keepAlive)), run) && !LosesData(Start(Fresh(keepAlive)), run)
    requires var s := Run(Start(Fresh(keepAlive)), run);
      && s.receiver.Free? && s.chunks == []
      && Flatten(s.segments) == HeadText(code, reason, headers) + ChunkStream(writes)
    ensures var s := Run(Start(Fresh(keepAlive)), run);
      && s.parser.eof
      && (s.delivered == Flatten(writes) <==> !SplitsCrlf(s.segments, |HeadText(code, reason, headers)|, writes))
  {
    hide Run, LosesData, Total, FeedAll, Flatten, ChunkStream, SplitsCrlf, HeadText, Proper, SelectsChunked;
    var p := Fresh(keepAlive);
    EveryRun(p, run);
    var s := Run(Start(p), run);
    ChunkedResponse(keepAlive, code, reason, headers, writes, s.segments);
    assert s.delivered + [] + [] == s.delivered;
  }

  predicate Waits(r: Receiver, data: seq<byte>) {
    r == Testing(data) || r == Falling(data) || r == Asleep(data)
  }

  /** A segment as large as the limit is not admitted before the connection is closed. */
  lemma {:induction false} OversizeWaits(s: State, run: seq<Label>, data: seq<byte>)
    requires Waits(s.receiver, data) && |data| >= 8192 && CanRun(s, run)
    ensures Run(s, run).closer == Connected ==> Waits(Run(s, run).receiver, data)
    decreases |run|
  {
    if run != [] {
      var t := Apply(s, run[0]);
      if t.closer == Connected {
        OversizeWaits(t, run[1..], data);
      } else {
        StaysClosed(t, run[1..]);
      }
    }
  }

  lemma {:induction false} StaysClosed(s: State, run: seq<Label>)
    requires s.closer != Connected && CanRun(s, run)
    ensures Run(s, run).closer != Connected
    decreases |run|
  {
    if run != [] {
      StaysClosed(Apply(s, run[0]), run[1..]);
    }
  }

  /** The steps of a reader with a buffer of `size` bytes, and of the receiver's wait. */
  predicate Serving(run: seq<Label>, size: nat) {
    forall i | 0 <= i < |run| :: run[i] == Read(size) || run[i].Test? || run[i].Sleep?
  }

  function Measure(s: State): nat {
    3 * |Unread(s.chunks)| + (if s.receiver.Testing? then 2 else if s.receiver.Falling? then 1 else 0)
  }

  lemma PiecesExist(p: Parser, data: seq<byte>) returns (pieces: seq<seq<byte>>)
    requires Sound(p)
    ensures PiecesOf(pieces, p, data)
  {
    hide Feed;
    FeedOnlyAppends(p, data);
    var more := Feed(p, data).body[|p.body|..];
    pieces := if more == [] then [] else [more];
    assert Feed(p, data).body == p.body + more;
    assert more + [] == more;
    assert p.body + Flatten(pieces) == p.body + more by {
      if more != [] {
        assert pieces[0] == more && pieces[1..] == [];
      }
    }
  }

  lemma RunFirst(s: State, l: Label, run: seq<Label>)
    requires Enabled(s, l) && CanRun(Apply(s, l), run)
    ensures CanRun(s, [l] + run) && Run(s, [l] + run) == Run(Apply(s, l), run)
  {
    hide Enabled, Apply;
    var all := [l] + run;
    assert all[0] == l && all[1..] == run;
  }

  lemma NextServing(s: State, p0: Parser, data: seq<byte>, size: nat) returns (l: Label)
    requires Inv(s, p0) && Waits(s.receiver, data) && |data| < 8192 && size > 0
    requires s.closer == Connected && !s.wasted
    ensures Enabled(s, l) && (l == Read(size) || l.Test? || l.Sleep?)
    ensures var t := Apply(s, l);
      if t.receiver.Adding? then Admissible(s, data)
      else Waits(t.receiver, data) && t.closer == Connected && !t.wasted && Measure(t) < Measure(s)
  {
    hide Sound, Steady, Feed, FeedAll, TakenFrom, Unread, Flatten, PiecesOf;
    if s.receiver.Testing? {
      var pieces := PiecesExist(s.parser, data);
      l := Test(pieces);
    } else if s.receiver.Falling? {
      l := Sleep;
    } else {
      l := Read(size);
      assert s.chunks != [];
      TakenServes(s.chunks, size);
      var (r, rest) := TakenFrom(s.chunks, size);
      assert |Unread(s.chunks)| == |r| + |Unread(rest)|;
    }
  }

  /** Eventual service: a segment below the limit is admitted by reading at most what is queued. */
  lemma {:induction false} AdmittedInTheEnd(s: State, p0: Parser, data: seq<byte>, size: nat)
      returns (run: seq<Label>)
    requires Inv(s, p0) && Waits(s.receiver, data) && |data| < 8192 && size > 0
    requires s.closer == Connected && !s.wasted
    ensures CanRun(s, run) && Serving(run, size) && |run| <= Measure(s) + 1
    ensures Run(s, run).receiver.Adding?
    decreases Measure(s)
  {
    hide Inv, Enabled, Apply, Measure, Waits, Admissible;
    var l := NextServing(s, p0, data, size);
    var t := Apply(s, l);
    var rest: seq<Label> := [];
    if !t.receiver.Adding? {
      StepKeepsInv(s, l, p0);
      rest := AdmittedInTheEnd(t, p0, data, size);
    }
    RunFirst(s, l, rest);
    run := [l] + rest;
  }

  /**
   * No wake-up is lost: a receiver that sleeps though it could be admitted is about to be notified
   * by Close, or a Read without room has met data, or Close has notified between test and sleep.
   */
  lemma {:induction false} NoLostWakeUp(p: Parser, run: seq<Label>, data: seq<byte>)
    requires Steady(Machine(p, Nothing)) && p.body == [] && CanRun(Start(p), run)
    requires var s := Run(Start(p), run); s.receiver == Asleep(data) && Admissible(s, data)
    ensures var s := Run(Start(p), run); s.closer == Closing || s.raced || LosesData(Start(p), run)
  {
    hide Steady, Sound, Run, LosesData, Unread, Total, Pending, FeedAll, Conserved;
    StartInv(p);
    RunKeepsInv(Start(p), run, p);
    WastedMeansLost(Start(p), run);
  }

  /** Both ways of losing it are real. The first: Close between test and sleep. */
  lemma CloseStrands(p: Parser, data: seq<byte>)
    requires Sound(p) && |data| >= 8192
    ensures var run := [Arrive(data), Test([]), ClearConnected, Notify, Sleep];
      && CanRun(Start(p), run)
      && var s := Run(Start(p), run);
         s.receiver == Asleep(data) && Admissible(s, data) && s.closer == Closed && s.chunks == []
  {
    hide Sound, Feed, Flatten, PiecesOf, TakenFrom;
    var s1 := Apply(Start(p), Arrive(data));
    assert !Admissible(s1, data);
    var s2 := Apply(s1, Test([]));
    var s3 := Apply(s2, ClearConnected);
    var s4 := Apply(s3, Notify);
    var s5 := Apply(s4, Sleep);
    assert CanRun(s5, []) && Run(s5, []) == s5;
    RunFirst(s4, Sleep, []);
    RunFirst(s3, Notify, [Sleep] + []);
    RunFirst(s2, ClearConnected, [Notify] + ([Sleep] + []));
    RunFirst(s1, Test([]), [ClearConnected] + ([Notify] + ([Sleep] + [])));
    RunFirst(Start(p), Arrive(data), [Test([])] + ([ClearConnected] + ([Notify] + ([Sleep] + []))));
    assert [Arrive(data), Test([]), ClearConnected, Notify, Sleep]
        == [Arrive(data)] + ([Test([])] + ([ClearConnected] + ([Notify] + ([Sleep] + []))));
  }

  /** The second: a reader without room empties the queue and tells nobody. */
  lemma ReadWithoutRoomStrands(s: State, data: seq<byte>)
    requires s.receiver == Asleep(data) && s.chunks != [] && |data| < 8192
    ensures var t := Apply(s, Read(0));
      t.receiver == Asleep(data) && Admissible(t, data) && t.chunks == []
  {
    TakenNothing(s.chunks);
  }

  /** After either nothing but a spurious wake-up or a later Close wakes it. */
  lemma {:induction false} StrandedForGood(s: State, run: seq<Label>, data: seq<byte>)
    requires s.receiver == Asleep(data) && s.chunks == [] && CanRun(s, run)
    requires forall i | 0 <= i < |run| :: run[i] != Wake && run[i] != Notify
    ensures Run(s, run).receiver == Asleep(data)
    decreases |run|
  {
    if run != [] {
      StrandedForGood(Apply(s, run[0]), run[1..], data);
    }
  }

  /**
   * What a test decides, in every state: the segment is admitted exactly if it and the whole chunks in the
   * queue stay below 8192 bytes, or connected_ has been cleared.
   */
  lemma TestAdmits(s: State, pieces: seq<seq<byte>>)
    requires Enabled(s, Test(pieces))
    ensures var data, t := s.receiver.data, Apply(s, Test(pieces));
      && (t.receiver.Adding? <==> |data| + |Flatten(DataOf(s.chunks))| < 8192 || s.closer != Connected)
      && (if t.receiver.Adding? then t.segments == s.segments + [data] else t == s.(receiver := Falling(data)))
  {
    hide Total, Flatten, DataOf;
    WholeChunksCount(s.chunks);
  }

  /** Once Close has cleared connected_, a receiver that is awake never falls asleep again, in any run. */
  lemma {:induction false} ClosedNeverSleeps(s: State, run: seq<Label>)
    requires CanRun(s, run) && s.closer != Connected && !s.receiver.Falling? && !s.receiver.Asleep?
    ensures var t := Run(s, run); t.closer != Connected && !t.receiver.Falling? && !t.receiver.Asleep?
    decreases |run|
  {
    hide TakenFrom, Feed, Sound, PiecesOf, Total;
    if run != [] {
      ClosedNeverSleeps(Apply(s, run[0]), run[1..]);
    }
  }
}
