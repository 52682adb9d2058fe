// When the receiver of body data is woken, over all runs and over all fair schedules.
module BodyQueueWakeUps {
  import opened Bytes
  import opened Common
  import opened HttpResponse
  import opened HttpSegments
  import opened HttpHead
  import opened BodyQueue
  import opened BodyQueueRuns

  // ---------------------------------------------------------------------------------------
  // What strands it.

  /** Asleep though it could be admitted, and Close is not about to notify it. */
  predicate Stranded(s: State) {
    s.receiver.Asleep? && Admissible(s, s.receiver.data) && s.closer != Closing
  }

  /** The runs in which reads without room, and Close, may occur or not. */
  predicate Permitted(run: seq<Label>, roomless: bool, closes: bool) {
    forall i | 0 <= i < |run| :: (run[i] == Read(0) ==> roomless) && (run[i] == ClearConnected ==> closes)
  }

  lemma {:induction false} StaysConnected(s: State, run: seq<Label>)
    requires CanRun(s, run) && s.closer == Connected && Permitted(run, true, false)
    ensures Run(s, run).closer == Connected && Run(s, run).raced == s.raced
    decreases |run|
  {
    hide TakenFrom;
    if run != [] {
      assert run[0] != ClearConnected;
      assert Permitted(run[1..], true, false);
      StaysConnected(Apply(s, run[0]), run[1..]);
    }
  }

  lemma {:induction false} LosesNothing(s: State, run: seq<Label>)
    requires CanRun(s, run) && Permitted(run, false, true)
    ensures !LosesData(s, run)
    decreases |run|
  {
    hide Apply, Enabled;
    if run != [] {
      assert Permitted(run[1..], false, true);
      LosesNothing(Apply(s, run[0]), run[1..]);
    }
  }

  lemma StrandsNobody(keepAlive: bool, run: seq<Label>)
    requires CanRun(Start(Fresh(keepAlive)), run) && Permitted(run, false, false)
    ensures !Stranded(Run(Start(Fresh(keepAlive)), run))
  {
    hide Run, LosesData;
    var s := Start(Fresh(keepAlive));
    assert Permitted(run, true, false) && Permitted(run, false, true);
    StaysConnected(s, run);
    LosesNothing(s, run);
    var t := Run(s, run);
    if Stranded(t) {
      NoLostWakeUp(Fresh(keepAlive), run, t.receiver.data);
    }
  }

  /** A body of n zero bytes. */
  function Zeros(n: nat): (s: seq<byte>)
    ensures |s| == n
  {
    seq(n, _ => 0)
  }

  lemma ShortHead()
    ensures |HeadText(200, [], [])| == 17
  {
    assert Decimal(2) == [50];
    assert Decimal(20) == Decimal(2) + [48];
    assert Decimal(200) == Decimal(20) + [48];
  }

  /** The response to a request, up to 5000 bytes of its body. */
  function FirstSegment(): seq<byte> {
    HeadText(200, [], []) + Zeros(5000)
  }

  lemma FirstPieces(keepAlive: bool)
    ensures Sound(Fresh(keepAlive)) && |FirstSegment()| == 5017
    ensures PiecesOf([Zeros(5000)], Fresh(keepAlive), FirstSegment())
  {
    hide HeadText, Feed;
    ShortHead();
    var segment := FirstSegment();
    assert Stored([], map[]) == map[];
    assert !SelectsChunked([]) && SelectsCounted([], 0);
    assert Flatten([segment]) == segment + Flatten([]) == segment;
    CountedResponse(keepAlive, 200, [], [], 0, Zeros(5000), [segment]);
    OneFeed(Fresh(keepAlive), segment);
    assert [Zeros(5000)][1..] == [];
    assert Flatten([Zeros(5000)]) == Zeros(5000) + Flatten([]) == Zeros(5000);
    assert [] + Zeros(5000) == Zeros(5000);
  }

  lemma OneFeed(p: Parser, segment: seq<byte>)
    requires Sound(p)
    ensures FeedAll(p, [segment]) == Feed(p, segment)
  {
    hide Feed;
    assert [segment][1..] == [];
    assert FeedAll(Feed(p, segment), []) == Feed(p, segment);
  }

  /** A segment waits behind a chunk, and a read without room strands it. */
  lemma SecondStrands(s: State) returns (run: seq<Label>)
    requires s.receiver.Free? && s.chunks == [Chunk(Zeros(5000), 0)] && s.closer == Connected && Sound(s.parser)
    ensures CanRun(s, run) && Permitted(run, true, false) && Stranded(Run(s, run))
  {
    hide Sound, Feed, PiecesOf, TakenFrom, CanRun, Run;
    var more := Zeros(5000);
    OneChunk(more);
    var s5 := Apply(s, Arrive(more));
    assert !Admissible(s5, more);
    var s6 := Apply(s5, Test([]));
    var s7 := Apply(s6, Sleep);
    ReadWithoutRoomStrands(s7, more);
    RunEmpty(Apply(s7, Read(0)));
    RunFirst(s7, Read(0), []);
    RunFirst(s6, Sleep, [Read(0)] + []);
    RunFirst(s5, Test([]), [Sleep] + ([Read(0)] + []));
    run := [Arrive(more)] + ([Test([])] + ([Sleep] + ([Read(0)] + [])));
    RunFirst(s, Arrive(more), [Test([])] + ([Sleep] + ([Read(0)] + [])));
  }

  /** From Start: a first segment is queued, and then so. */
  lemma ReadStrands(keepAlive: bool) returns (run: seq<Label>)
    ensures CanRun(Start(Fresh(keepAlive)), run) && Permitted(run, true, false)
    ensures Stranded(Run(Start(Fresh(keepAlive)), run))
  {
    hide Sound, Feed, PiecesOf, TakenFrom, HeadText, CanRun, Run, Stranded;
    FirstPieces(keepAlive);
    var body := Zeros(5000);
    var s0 := Start(Fresh(keepAlive));
    var s1 := Apply(s0, Arrive(FirstSegment()));
    assert Admissible(s1, FirstSegment()) by { NoChunks(); }
    var s2 := Apply(s1, Test([body]));
    var s3 := Apply(s2, Add);
    var s4 := Apply(s3, Finish);
    assert s4.chunks == [Chunk(body, 0)];
    FeedSound(Fresh(keepAlive), FirstSegment());
    var tail := SecondStrands(s4);
    RunFirst(s3, Finish, tail);
    RunFirst(s2, Add, [Finish] + tail);
    RunFirst(s1, Test([body]), [Add] + ([Finish] + tail));
    RunFirst(s0, Arrive(FirstSegment()), [Test([body])] + ([Add] + ([Finish] + tail)));
    run := [Arrive(FirstSegment())] + ([Test([body])] + ([Add] + ([Finish] + tail)));
  }

  lemma NoChunks()
    ensures Total([]) == 0
  {
  }

  lemma FeedSound(p: Parser, data: seq<byte>)
    requires Sound(p)
    ensures Sound(Feed(p, data))
  {
  }

  lemma RunEmpty(s: State)
    ensures CanRun(s, []) && Run(s, []) == s
  {
  }

  lemma OneChunk(data: seq<byte>)
    ensures Total([Chunk(data, 0)]) == |data|
  {
    assert [Chunk(data, 0)][1..] == [];
  }

  /**
   * From the first byte of a response: no wake-up is lost exactly if neither reads without room nor
   * Close are allowed.
   */
  lemma WakeUpsLostOnlyBy(keepAlive: bool, roomless: bool, closes: bool)
    ensures (forall run | CanRun(Start(Fresh(keepAlive)), run) && Permitted(run, roomless, closes) ::
      !Stranded(Run(Start(Fresh(keepAlive)), run))) <==> !roomless && !closes
  {
    hide CanRun, Run, Stranded, Permitted;
    var s := Start(Fresh(keepAlive));
    if roomless {
      var run := ReadStrands(keepAlive);
      PermittedMore(run, closes, roomless);
      assert CanRun(s, run) && Stranded(Run(s, run));
    } else if closes {
      var run := ClosingStrands(keepAlive);
      assert CanRun(s, run) && Stranded(Run(s, run));
    } else {
      forall run | CanRun(s, run) && Permitted(run, roomless, closes) ensures !Stranded(Run(s, run)) {
        StrandsNobody(keepAlive, run);
      }
    }
  }

  lemma PermittedMore(run: seq<Label>, closes: bool, roomless: bool)
    requires Permitted(run, true, false) && roomless
    ensures Permitted(run, roomless, closes)
  {
  }

  lemma ClosingStrands(keepAlive: bool) returns (run: seq<Label>)
    ensures CanRun(Start(Fresh(keepAlive)), run) && Permitted(run, false, true)
    ensures Stranded(Run(Start(Fresh(keepAlive)), run))
  {
    hide CanRun, Run, Admissible;
    var data := Zeros(MAX_BODY_CHUNKS_SIZE);
    CloseStrands(Fresh(keepAlive), data);
    run := [Arrive(data), Test([]), ClearConnected, Notify, Sleep];
  }

  // ---------------------------------------------------------------------------------------
  // Eventual service.

  predicate Moves(s: State, l: Label, t: State) {
    Enabled(s, l) && t == Apply(s, l)
  }

  /** The reader reads, or there is nothing to read. */
  function ReaderTurn(trace: nat -> State, labels: nat -> Label): nat -> bool {
    (m: nat) => labels(m).Read? || trace(m).chunks == []
  }

  /** A step of the receiver in its wait. */
  predicate OfWait(l: Label) {
    l.Test? || l.Sleep?
  }

  /** The receiver has a step in its wait, or is not at one: asleep, busy or without a segment. */
  function ReceiverTurn(trace: nat -> State, labels: nat -> Label): nat -> bool {
    (m: nat) => OfWait(labels(m)) || !(trace(m).receiver.Testing? || trace(m).receiver.Falling?)
  }

  /** Neither is left behind, the reader has room in its buffer, and nobody closes. */
  ghost predicate Fair(trace: nat -> State, labels: nat -> Label) {
    && Recurs(ReaderTurn(trace, labels)) && Recurs(ReceiverTurn(trace, labels))
    && forall n: nat :: labels(n) != Read(0) && labels(n) != ClearConnected
  }

  ghost predicate Ready(s: State, p0: Parser, data: seq<byte>) {
    Inv(s, p0) && s.closer == Connected && !s.wasted && Waits(s.receiver, data)
  }

  /** By step k the segment has been admitted. */
  ghost predicate AdmittedBy(trace: nat -> State, n: nat, data: seq<byte>, k: nat) {
    k > n && trace(k).receiver.Adding? && trace(k).segments == trace(n).segments + [data]
  }

  /** A step while a segment waits: it is admitted, or the queue shrinks or stays. */
  lemma WaitingStep(s: State, l: Label, p0: Parser, data: seq<byte>)
    requires Ready(s, p0, data) && |data| < 8192 && Enabled(s, l)
    requires l != Read(0) && l != ClearConnected
    ensures var t := Apply(s, l);
      if t.receiver.Adding? then t.segments == s.segments + [data]
      else
        && Ready(t, p0, data) && t.segments == s.segments
        && (if l.Read? && s.chunks != [] then |Unread(t.chunks)| < |Unread(s.chunks)| else t.chunks == s.chunks)
        && (OfWait(l) ==> s.chunks != [])
  {
    StepKeepsInv(s, l, p0);
    hide Sound, Steady, Feed, FeedAll, TakenFrom, Unread, Flatten, PiecesOf, Inv;
    NothingRefuses(s, p0, data);
    if l.Read? {
      TakenServes(s.chunks, l.size) by { LiveQueue(s, p0); }
      var (r, rest) := TakenFrom(s.chunks, l.size);
      assert |Unread(s.chunks)| == |r| + |Unread(rest)|;
    }
  }

  lemma LiveQueue(s: State, p0: Parser)
    requires Inv(s, p0)
    ensures Live(s.chunks)
  {
    hide ParserFits, Conserved, Bounded;
  }

  /** With nothing queued the segment is in front of its test, and passes it. */
  lemma NothingRefuses(s: State, p0: Parser, data: seq<byte>)
    requires Ready(s, p0, data) && |data| < 8192
    ensures s.chunks == [] ==> s.receiver == Testing(data) && Admissible(s, data)
  {
    hide ParserFits, Conserved, Bounded, QueueFits;
    if s.chunks == [] {
      NoChunks();
    }
  }

  lemma TraceStep(trace: nat -> State, labels: nat -> Label, n: nat)
    requires Follows(trace, labels, Moves) && Fair(trace, labels)
    ensures Enabled(trace(n), labels(n)) && trace(n + 1) == Apply(trace(n), labels(n))
    ensures labels(n) != Read(0) && labels(n) != ClearConnected
  {
    hide Enabled, Apply;
    assert Moves(trace(n), labels(n), trace(n + 1));
  }

  lemma AdmittedEarlier(trace: nat -> State, n: nat, data: seq<byte>, next: nat)
    requires next == n + 1 && trace(next).segments == trace(n).segments
    requires exists k: nat :: AdmittedBy(trace, next, data, k)
    ensures exists k: nat :: AdmittedBy(trace, n, data, k)
  {
    var k: nat :| AdmittedBy(trace, next, data, k);
    assert AdmittedBy(trace, n, data, k);
  }

  /** Admission from an empty queue, with the receiver's next step. */
  lemma {:induction false} AdmitsEmpty(trace: nat -> State, labels: nat -> Label, p0: Parser,
                                       data: seq<byte>, n: nat, m: nat)
    requires Follows(trace, labels, Moves) && Fair(trace, labels)
    requires Ready(trace(n), p0, data) && |data| < 8192
    requires trace(n).chunks == [] && m >= n && ReceiverTurn(trace, labels)(m)
    ensures exists k: nat :: AdmittedBy(trace, n, data, k)
    decreases m - n
  {
    hide Follows, Recurs, Ready, Enabled, Apply;
    TraceStep(trace, labels, n);
    NothingRefuses(trace(n), p0, data);
    WaitingStep(trace(n), labels(n), p0, data);
    if trace(n + 1).receiver.Adding? {
      assert AdmittedBy(trace, n, data, n + 1);
    } else {
      AdmitsEmpty(trace, labels, p0, data, n + 1, m);
      AdmittedEarlier(trace, n, data, n + 1);
    }
  }

  /** The induction: by what is queued, then by the time until the next read. */
  lemma {:induction false} AdmitsFrom(trace: nat -> State, labels: nat -> Label, p0: Parser,
                                      data: seq<byte>, n: nat, m: nat)
    requires Follows(trace, labels, Moves) && Fair(trace, labels)
    requires Ready(trace(n), p0, data) && |data| < 8192
    requires m >= n && ReaderTurn(trace, labels)(m)
    ensures exists k: nat :: AdmittedBy(trace, n, data, k)
    decreases |Unread(trace(n).chunks)|, m - n
  {
    hide Follows, Recurs, Ready, Enabled, Apply, Unread;
    if trace(n).chunks == [] {
      var next := NextTime(ReceiverTurn(trace, labels), n);
      AdmitsEmpty(trace, labels, p0, data, n, next);
    } else {
      TraceStep(trace, labels, n);
      WaitingStep(trace(n), labels(n), p0, data);
      if trace(n + 1).receiver.Adding? {
        assert AdmittedBy(trace, n, data, n + 1);
      } else {
        var next := m;
        if labels(n).Read? {
          next := NextTime(ReaderTurn(trace, labels), n + 1);
        }
        AdmitsFrom(trace, labels, p0, data, n + 1, next);
        AdmittedEarlier(trace, n, data, n + 1);
      }
    }
  }

  /**
   * A segment below the limit is admitted under every fair schedule of reader and receiver, whether
   * further segments come or not, with spurious wake-ups or without: a receiver that sleeps is woken.
   */
  lemma FairlyAdmitted(trace: nat -> State, labels: nat -> Label, p0: Parser, data: seq<byte>, n: nat)
    requires Follows(trace, labels, Moves) && Fair(trace, labels)
    requires Ready(trace(n), p0, data) && |data| < 8192
    ensures exists k: nat :: AdmittedBy(trace, n, data, k)
  {
    hide Follows, Recurs, Ready;
    var m := NextTime(ReaderTurn(trace, labels), n);
    AdmitsFrom(trace, labels, p0, data, n, m);
  }
}
