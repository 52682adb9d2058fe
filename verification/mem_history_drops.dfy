// Which records of the allocation history are dropped: his_wait_for_enough tests at most five times, and
// gives a record up if each test found all slices full and no room in the current one.
module MemHistoryDrops {
  import opened Bytes
  import opened Common
  import opened MemHistory
  import opened MemHistoryRuns

  /** A record somebody logged, and what each test made for it has found: room, or none. */
  datatype Attempt = Attempt(event: Event, found: seq<bool>)

  /** Four slices queued, and the record does not fit into the rest of the current slice. */
  predicate NoRoom(s: State, r: Record) {
    s.ring.n >= 4 && s.ring.filled + SizeOf(r) > s.size
  }

  /** The history of all attempts, one step further. */
  function Noted(h: seq<Attempt>, s: State, l: Label): seq<Attempt> {
    if l.Log? then h + [Attempt(l.event, [])]
    else if l.Check? && h != [] then
      var a := h[|h| - 1];
      h[..|h| - 1] + [a.(found := a.found + [!NoRoom(s, a.event.record)])]
    else h
  }

  function Attempts(s: State, run: seq<Label>, h: seq<Attempt>): seq<Attempt>
    requires CanRun(s, run)
    decreases |run|
  {
    if run == [] then h else Attempts(Apply(s, run[0]), run[1..], Noted(h, s, run[0]))
  }

  /** Everything logged in a run. */
  function Logged(run: seq<Label>): seq<Event> {
    if run == [] then [] else (if run[0].Log? then [run[0].event] else []) + Logged(run[1..])
  }

  function EventsOf(h: seq<Attempt>): (es: seq<Event>)
    ensures |es| == |h| && forall i | 0 <= i < |h| :: es[i] == h[i].event
  {
    seq(|h|, i requires 0 <= i < |h| => h[i].event)
  }

  predicate Failed(found: seq<bool>) {
    forall i | 0 <= i < |found| :: !found[i]
  }

  /** Five tests, and none found room. */
  predicate Dropped(a: Attempt) {
    |a.found| == 5 && Failed(a.found)
  }

  /** At most five tests, and the last one found room. */
  predicate Admitted(a: Attempt) {
    1 <= |a.found| <= 5 && Failed(a.found[..|a.found| - 1]) && a.found[|a.found| - 1]
  }

  /** Still being tested, `retry` tests to go. */
  predicate Trying(a: Attempt, retry: nat) {
    |a.found| + retry == 5 && retry > 0 && Failed(a.found)
  }

  /** The records that were not dropped. */
  function Surviving(h: seq<Attempt>): seq<Event> {
    if h == [] then []
    else Surviving(h[..|h| - 1]) + if Dropped(h[|h| - 1]) then [] else [h[|h| - 1].event]
  }

  predicate AllOver(h: seq<Attempt>) {
    forall a | a in h :: Dropped(a) || Admitted(a)
  }

  /** How the attempts and the state belong together. */
  predicate Tally(s: State, h: seq<Attempt>) {
    if s.logger.Waiting? then
      && h != [] && h[|h| - 1].event == s.logger.event && Trying(h[|h| - 1], s.logger.retry)
      && AllOver(h[..|h| - 1]) && s.events == Surviving(h[..|h| - 1])
    else AllOver(h) && s.events == Surviving(h)
  }

  lemma SizeIs(e: Event)
    ensures |Encode(e)| == SizeOf(e.record)
  {
  }

  lemma SurvivingSnoc(h: seq<Attempt>, a: Attempt)
    ensures Surviving(h + [a]) == Surviving(h) + if Dropped(a) then [] else [a.event]
    ensures (h + [a])[..|h|] == h
    ensures AllOver(h + [a]) <==> AllOver(h) && (Dropped(a) || Admitted(a))
  {
    assert (h + [a])[..|h|] == h;
    assert forall x :: x in h + [a] <==> x in h || x == a;
  }

  lemma CheckTallies(s: State, h: seq<Attempt>)
    requires Tally(s, h) && Enabled(s, Check)
    ensures Tally(Apply(s, Check), Noted(h, s, Check))
  {
    hide Encode, Surviving, AllOver, Detail, Frames;
    var before, a := h[..|h| - 1], h[|h| - 1];
    SizeIs(a.event);
    var room := !NoRoom(s, a.event.record);
    var b := a.(found := a.found + [room]);
    assert b.found[..|b.found| - 1] == a.found;
    SurvivingSnoc(before, b);
  }

  lemma LogTallies(s: State, h: seq<Attempt>, e: Event)
    requires Tally(s, h) && Enabled(s, Log(e))
    ensures Tally(Apply(s, Log(e)), Noted(h, s, Log(e)))
  {
    hide Surviving, AllOver;
    assert (h + [Attempt(e, [])])[..|h|] == h;
  }

  /** The other steps neither log nor test. */
  lemma OtherTallies(s: State, h: seq<Attempt>, l: Label)
    requires Tally(s, h) && Enabled(s, l) && !l.Log? && !l.Check?
    ensures Tally(Apply(s, l), Noted(h, s, l))
  {
    hide Surviving, AllOver, Trying, Stored, HeadOf;
  }

  lemma StepTallies(s: State, h: seq<Attempt>, l: Label)
    requires Tally(s, h) && Enabled(s, l)
    ensures Tally(Apply(s, l), Noted(h, s, l))
  {
    hide Tally, Apply, Enabled, Noted;
    if l.Log? {
      LogTallies(s, h, l.event);
    } else if l.Check? {
      CheckTallies(s, h);
    } else {
      OtherTallies(s, h, l);
    }
  }

  lemma {:induction false} RunTallies(s: State, run: seq<Label>, h: seq<Attempt>)
    requires CanRun(s, run) && Tally(s, h)
    ensures Tally(Run(s, run), Attempts(s, run, h))
    decreases |run|
  {
    hide Tally, Apply, Enabled, Noted;
    if run != [] {
      StepTallies(s, h, run[0]);
      RunTallies(Apply(s, run[0]), run[1..], Noted(h, s, run[0]));
    }
  }

  lemma NotedEvents(h: seq<Attempt>, s: State, l: Label)
    ensures EventsOf(Noted(h, s, l)) == EventsOf(h) + if l.Log? then [l.event] else []
  {
    hide NoRoom;
    assert EventsOf(h) + [] == EventsOf(h);
  }

  lemma {:induction false} RunLogs(s: State, run: seq<Label>, h: seq<Attempt>)
    requires CanRun(s, run)
    ensures EventsOf(Attempts(s, run, h)) == EventsOf(h) + Logged(run)
    decreases |run|
  {
    hide Apply, Enabled, Noted, EventsOf;
    if run == [] {
      assert EventsOf(h) + [] == EventsOf(h);
    } else {
      NotedEvents(h, s, run[0]);
      RunLogs(Apply(s, run[0]), run[1..], Noted(h, s, run[0]));
      Regroup(EventsOf(h), if run[0].Log? then [run[0].event] else [], Logged(run[1..]));
    }
  }

  lemma Regroup(a: seq<Event>, b: seq<Event>, c: seq<Event>)
    ensures a + b + c == a + (b + c)
  {
  }

  /**
   * In every run, once the logger is not between two tests: each record logged was tested up to the first
   * test that found room and at most five times; it was dropped exactly if five tests found four slices
   * queued and no room in the current one; and all others, in order, are admitted.
   */
  lemma DroppedExactly(slices: Slices, size: nat, run: seq<Label>)
    requires CanRun(Start(slices, size), run) && !Run(Start(slices, size), run).logger.Waiting?
    ensures var h := Attempts(Start(slices, size), run, []);
      && EventsOf(h) == Logged(run) && AllOver(h)
      && Run(Start(slices, size), run).events == Surviving(h)
  {
    hide Run, Attempts;
    RunTallies(Start(slices, size), run, []);
    RunLogs(Start(slices, size), run, []);
    assert EventsOf([]) + Logged(run) == Logged(run);
  }

  /** No test of the run finds four slices queued. */
  predicate NeverFull(s: State, run: seq<Label>)
    requires CanRun(s, run)
    decreases |run|
  {
    run == [] || ((run[0].Check? ==> s.ring.n < 4) && NeverFull(Apply(s, run[0]), run[1..]))
  }

  predicate NoneFailed(h: seq<Attempt>) {
    forall a, i | a in h && 0 <= i < |a.found| :: a.found[i]
  }

  lemma {:induction false} NeverFullFinds(s: State, run: seq<Label>, h: seq<Attempt>)
    requires CanRun(s, run) && NeverFull(s, run) && NoneFailed(h)
    ensures NoneFailed(Attempts(s, run, h))
    decreases |run|
  {
    hide Apply, Enabled;
    if run != [] {
      var g := Noted(h, s, run[0]);
      forall a, i | a in g && 0 <= i < |a.found| ensures a.found[i] {
        if a !in h && run[0].Check? {
          assert h[|h| - 1] in h;
        }
      }
      NeverFullFinds(Apply(s, run[0]), run[1..], g);
    }
  }

  lemma {:induction false} AllSurvive(h: seq<Attempt>)
    requires NoneFailed(h)
    ensures Surviving(h) == EventsOf(h)
    decreases |h|
  {
    if h != [] {
      var a := h[|h| - 1];
      assert a in h;
      assert |a.found| > 0 ==> a.found[0];
      forall x | x in h[..|h| - 1] ensures x in h {
      }
      AllSurvive(h[..|h| - 1]);
      assert EventsOf(h) == EventsOf(h[..|h| - 1]) + [a.event];
    }
  }

  /**
   * So in every run in which no test finds four slices queued, what is admitted is all that was logged;
   * and when the thread has gone, the file decodes to exactly that, unless the request to stop came
   * between the thread's two tests while full slices were queued.
   */
  lemma AllLoggedIsSaved(slices: Slices, size: nat, run: seq<Label>)
    requires (forall i | 0 <= i < SAVE_SLICE_NUM :: |slices[i]| == size) && CanRun(Start(slices, size), run)
    requires NeverFull(Start(slices, size), run)
    ensures var s := Run(Start(slices, size), run);
      && (!s.logger.Waiting? ==> s.events == Logged(run))
      && (s.saver.Gone? && !s.late ==>
            (Decode(s.file) == Some(Records(Logged(run))) <==> !StopsBetweenTests(Start(slices, size), run)))
  {
    hide Run, Attempts, Decode, Records, StopsBetweenTests, Kept, Shape;
    var start := Start(slices, size);
    var s := Run(start, run);
    NeverFullFinds(start, run, []);
    if !s.logger.Waiting? {
      DroppedExactly(slices, size, run);
      AllSurvive(Attempts(start, run, []));
    }
    if s.saver.Gone? && !s.late {
      FileDecodes(slices, size, run);
      StartInv(slices, size);
      RunKeepsInv(start, run);
    }
  }

  /** Fewer than four slices are queued and the current one is nearly full: the record goes over two slices. */
  lemma AdmittedOverTwo(s: State, e: Event)
    requires Enabled(s, Check) && s.logger.event == e && s.ring.n < 4
    ensures Apply(s, Check).events == s.events + [e] && Writing(Apply(s, Check).logger)
  {
    hide Encode, Detail, Frames;
  }

  /**
   * How far the loggers may run ahead of the thread: his_write waits exactly once the bytes stored and
   * not yet given back, those of the slice being saved included, fill four slices.
   */
  lemma RunsAhead(slices: Slices, size: nat, run: seq<Label>)
    requires (forall i | 0 <= i < SAVE_SLICE_NUM :: |slices[i]| == size) && CanRun(Start(slices, size), run)
    requires var s := Run(Start(slices, size), run); s.logger.Testing? && !s.saver.Gone? && size > 0
    ensures var s := Run(Start(slices, size), run);
      Apply(s, Probe).logger.Locking? <==> |s.log| + Copied(s) < |s.file| + 4 * size
  {
    hide Run, Inv, Apply, Copied;
    StartInv(slices, size);
    RunKeepsInv(Start(slices, size), run);
    SameSize(Start(slices, size), run);
    var s := Run(Start(slices, size), run);
    StillUnsaved(s);
    FourSlices(s.ring.n, s.ring.filled, s.size);
    assert Apply(s, Probe).logger.Locking? <==> s.ring.n < 4 by { ProbeLooks(s); }
  }

  lemma ProbeLooks(s: State)
    requires s.logger.Testing?
    ensures Apply(s, Probe).logger.Locking? <==> s.ring.n < 4
  {
  }

  lemma FourSlices(n: nat, filled: nat, size: nat)
    requires n <= 4 && filled < size
    ensures n < 4 <==> n * size + filled < 4 * size
  {
    if n < 4 {
      assert n * size <= 3 * size;
    }
  }

  lemma StillUnsaved(s: State)
    requires Inv(s) && !s.saver.Gone? && s.size > 0
    ensures |s.log| + Copied(s) == |s.file| + s.ring.n * s.size + s.ring.filled
    ensures s.ring.n <= 4 && s.ring.filled < s.size
  {
    hide Queue, HeadOf, EncodeAll, Stopped;
    var r := s.ring;
    QueueLength(r.slices, HeadOf(r), r.n, s.size);
    CopiedFits(s);
    BeyondLength(r, s.size, Copied(s));
    assert |s.file + Unsaved(s)| == |s.log|;
  }

  lemma BeyondLength(r: Ring, size: nat, copied: nat)
    requires RingShape(r, size) && |Queue(r.slices, HeadOf(r), r.n)| == r.n * size && copied <= r.n * size
    ensures |Beyond(r, copied)| == r.n * size - copied + r.filled
  {
    hide Queue, HeadOf;
  }

  lemma {:induction false} SameSize(s: State, run: seq<Label>)
    requires CanRun(s, run)
    ensures Run(s, run).size == s.size
    decreases |run|
  {
    hide Enabled, Stored, HeadOf, Encode, Detail, Frames;
    if run != [] {
      SameSize(Apply(s, run[0]), run[1..]);
    }
  }
}
