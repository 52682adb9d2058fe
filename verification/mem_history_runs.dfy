// The four slices between the loggers (his_wait_for_enough, his_write) and the thread that saves them,
// as a step system. The thread reads its slice byte by byte and outside the mutex. The loggers are one
// at a time: media_lib_mem_trace.c calls them under its own mutex.
module MemHistoryRuns {
  import opened Bytes
  import opened Common
  import opened MemHistory

  type Slot = x: nat | x < SAVE_SLICE_NUM
  type Slices = s: seq<seq<byte>> | |s| == SAVE_SLICE_NUM witness [[], [], [], []]

  /**
   * The logger: at rest; in his_wait_for_enough with `retry` tests to go; in his_write in front of its
   * test of n, or behind it and in front of the mutex. `left` is the rest of the current buffer,
   * `next` the buffer of the his_write behind it.
   */
  datatype Logger =
    | Idle
    | Waiting(event: Event, retry: nat)
    | Testing(left: seq<byte>, next: seq<byte>)
    | Locking(left: seq<byte>, next: seq<byte>)

  /**
   * The saving thread: in front of its test of n; behind it with slices to save; writing byte k of
   * slice `head`; in front of `n--`; behind the test with nothing to save; behind the loop; gone.
   */
  datatype Saver = Looking | Found | Copying(head: Slot, k: nat) | Counting | SawEmpty | Leaving | Gone

  /** cache_filled, wp and n; save_cache */
  datatype Ring = Ring(slices: Slices, filled: nat, wp: Slot, n: nat)

  /**
   * `log` is every byte stored so far and `events` what has been admitted. `late`: something was
   * logged behind the request to stop; `raced`: the request came while the thread stood between its
   * two tests with full slices queued.
   */
  datatype State = State(size: nat, ring: Ring, logger: Logger, saver: Saver, stopping: bool,
                         file: seq<byte>, log: seq<byte>, events: seq<Event>, late: bool, raced: bool)

  datatype Label =
    | Log(event: Event)
    | Check
    | Probe
    | Fill
    | Look
    | Head
    | Copy
    | Count
    | Decide
    | Final
    | Stop

  function Next(i: Slot): Slot {
    (i + 1) % SAVE_SLICE_NUM
  }

  function HeadOf(r: Ring): Slot {
    if r.n <= SAVE_SLICE_NUM then (r.wp + SAVE_SLICE_NUM - r.n) % SAVE_SLICE_NUM else 0
  }

  predicate Enabled(s: State, l: Label) {
    match l
    case Log(e) => s.logger.Idle? && Fits(e.record)
    case Check => s.logger.Waiting? && s.logger.retry > 0
    case Probe => s.logger.Testing?
    case Fill => s.logger.Locking?
    case Look => s.saver.Looking?
    case Head => s.saver.Found?
    case Copy => s.saver.Copying?
    case Count => s.saver.Counting?
    case Decide => s.saver.SawEmpty?
    case Final => s.saver.Leaving?
    case Stop => !s.stopping
  }

  predicate IsLate(s: State) {
    s.late || s.stopping
  }

  /** The logger behind a buffer that is done. */
  function After(next: seq<byte>): Logger {
    if next == [] then Idle else Testing(next, [])
  }

  /** How much of `left` goes into the current slice. */
  function Share(r: Ring, size: nat, left: seq<byte>): (fill: nat)
    ensures fill <= |left|
  {
    if r.filled < size then Min(|left|, size - r.filled) else 0
  }

  /** data behind what is in the current slice; a full slice is queued. */
  function Stored(r: Ring, size: nat, data: seq<byte>): Ring {
    var slices := r.slices[r.wp := Splice(r.slices[r.wp], r.filled, data)];
    if r.filled + |data| < size then Ring(slices, r.filled + |data|, r.wp, r.n)
    else Ring(slices, 0, Next(r.wp), r.n + 1)
  }

  /** The part of his_write under the mutex. */
  function Filled(s: State): State
    requires s.logger.Locking?
  {
    var left, next := s.logger.left, s.logger.next;
    var fill := Share(s.ring, s.size, left);
    if s.ring.filled < s.size then
      s.(ring := Stored(s.ring, s.size, left[..fill]), log := s.log + left[..fill],
         logger := if left[fill..] == [] then After(next) else Testing(left[fill..], next))
    else s.(logger := Testing(left, next))
  }

  function Apply(s: State, l: Label): State
    requires Enabled(s, l)
  {
    match l
    case Log(e) => s.(logger := Waiting(e, MAX_WRITE_RETRY), late := IsLate(s))
    case Check =>
      var e := s.logger.event;
      if s.ring.n < SAVE_SLICE_NUM || s.ring.filled + |Encode(e)| <= s.size then
        s.(events := s.events + [e], logger := Testing(Detail(e), Frames(e)))
      else s.(logger := if s.logger.retry == 1 then Idle else Waiting(e, s.logger.retry - 1))
    case Probe =>
      if s.ring.n >= SAVE_SLICE_NUM then s else s.(logger := Locking(s.logger.left, s.logger.next))
    case Fill => Filled(s)
    case Look => s.(saver := if s.ring.n > 0 then Found else SawEmpty)
    case Head => s.(saver := Copying(HeadOf(s.ring), 0))
    case Copy =>
      var slice := s.ring.slices[s.saver.head];
      if s.saver.k < s.size && s.saver.k < |slice| then
        s.(file := s.file + [slice[s.saver.k]], saver := Copying(s.saver.head, s.saver.k + 1))
      else s.(saver := Counting)
    case Count => s.(ring := s.ring.(n := if s.ring.n > 0 then s.ring.n - 1 else 0), saver := Looking)
    case Decide => s.(saver := if s.stopping then Leaving else Looking)
    case Final =>
      s.(file := s.file + s.ring.slices[s.ring.wp][..Min(s.ring.filled, |s.ring.slices[s.ring.wp]|)], saver := Gone)
    case Stop =>
      s.(stopping := true, late := s.late || !s.logger.Idle?, raced := s.saver.SawEmpty? && s.ring.n > 0)
  }

  predicate CanRun(s: State, run: seq<Label>)
    decreases |run|
  {
    run == [] || (Enabled(s, run[0]) && CanRun(Apply(s, run[0]), run[1..]))
  }

  function Run(s: State, run: seq<Label>): State
    requires CanRun(s, run)
    decreases |run|
  {
    if run == [] then s else Run(Apply(s, run[0]), run[1..])
  }

  function Start(slices: Slices, size: nat): State {
    State(size, Ring(slices, 0, 0, 0), Idle, Looking, false, [], [], [], false, false)
  }

  // ---------------------------------------------------------------------------------------
  // The invariant.

  /** The n slices from `head` on, in ring order. */
  function Queue(slices: Slices, head: Slot, n: nat): seq<byte>
    decreases n
  {
    if n == 0 then [] else slices[head] + Queue(slices, Next(head), n - 1)
  }

  /** The slice being filled. */
  function Partial(r: Ring): seq<byte> {
    r.slices[r.wp][..Min(r.filled, |r.slices[r.wp]|)]
  }

  /** How much of the slice at the head is in the file already. */
  function Copied(s: State): nat {
    match s.saver
    case Copying(_, k) => k
    case Counting => s.size
    case _ => 0
  }

  /** What is stored but for the first `copied` bytes: the queued slices in ring order, and the partial one. */
  function Beyond(r: Ring, copied: nat): seq<byte> {
    var q := Queue(r.slices, HeadOf(r), r.n);
    q[Min(copied, |q|)..] + Partial(r)
  }

  function Unsaved(s: State): seq<byte> {
    Beyond(s.ring, Copied(s))
  }

  /** The bytes admitted and not yet stored. */
  function Unstored(l: Logger): seq<byte> {
    if l.Testing? || l.Locking? then l.left + l.next else []
  }

  predicate Writing(l: Logger) {
    l.Testing? || l.Locking?
  }

  predicate RingShape(r: Ring, size: nat) {
    && (forall i | 0 <= i < SAVE_SLICE_NUM :: |r.slices[i]| == size)
    && r.n <= SAVE_SLICE_NUM && r.filled <= size && (r.filled == size ==> size == 0 && r.n == 0)
  }

  predicate Shape(s: State) {
    && RingShape(s.ring, s.size)
    && (s.logger.Locking? ==> s.ring.n < SAVE_SLICE_NUM)
    && (Writing(s.logger) ==> s.logger.left != [])
    && (s.logger.Waiting? ==> Fits(s.logger.event.record) && s.logger.retry > 0)
    && (s.saver.Found? || s.saver.Copying? || s.saver.Counting? ==> s.ring.n > 0)
    && (s.saver.Copying? ==> s.saver.head == HeadOf(s.ring) && s.saver.k <= s.size)
  }

  predicate Kept(s: State) {
    && (!s.saver.Gone? ==> s.file + Unsaved(s) == s.log)
    && s.log + Unstored(s.logger) == EncodeAll(s.events)
    && forall e | e in s.events :: Fits(e.record)
  }

  /** What a request to stop finds and leaves. */
  predicate Stopped(s: State) {
    && (s.saver.Leaving? || s.saver.Gone? ==> s.stopping)
    && (s.stopping && !s.late ==>
          && s.logger.Idle?
          && (s.raced ==> s.ring.n > 0 && (s.saver.SawEmpty? || s.saver.Leaving? || s.saver.Gone?))
          && (!s.raced && (s.saver.SawEmpty? || s.saver.Leaving? || s.saver.Gone?) ==> s.ring.n == 0))
    && (s.saver.Gone? && !s.late ==>
          if s.ring.n == 0 then s.file == s.log else |s.file| < |s.log|)
  }

  predicate Inv(s: State) {
    Shape(s) && Kept(s) && Stopped(s)
  }

  // ---------------------------------------------------------------------------------------
  // The ring.

  lemma {:induction false} QueueLength(slices: Slices, head: Slot, n: nat, size: nat)
    requires forall i | 0 <= i < SAVE_SLICE_NUM :: |slices[i]| == size
    ensures |Queue(slices, head, n)| == n * size
    decreases n
  {
    if n > 0 {
      QueueLength(slices, Next(head), n - 1, size);
      assert n * size == size + (n - 1) * size;
    }
  }

  /** Slices in front of slot `at` do not see what happens there. */
  lemma {:induction false} QueueFrame(slices: Slices, head: Slot, n: nat, at: Slot, x: seq<byte>)
    requires at == (head + n) % SAVE_SLICE_NUM && n < SAVE_SLICE_NUM
    ensures Queue(slices[at := x], head, n) == Queue(slices, head, n)
    decreases n
  {
    if n > 0 {
      QueueFrame(slices, Next(head), n - 1, at, x);
    }
  }

  lemma {:induction false} QueueSnoc(slices: Slices, head: Slot, n: nat)
    ensures Queue(slices, head, n + 1) == Queue(slices, head, n) + slices[(head + n) % SAVE_SLICE_NUM]
    decreases n
  {
    hide Queue;
    QueueFirst(slices, head, n + 1);
    QueueNone(slices, Next(head));
    if n == 0 {
      QueueNone(slices, head);
      assert slices[head] + [] == [] + slices[head];
    } else {
      QueueFirst(slices, head, n);
      QueueSnoc(slices, Next(head), n - 1);
      assert (Next(head) + (n - 1)) % SAVE_SLICE_NUM == (head + n) % SAVE_SLICE_NUM;
      var last, middle := slices[(head + n) % SAVE_SLICE_NUM], Queue(slices, Next(head), n - 1);
      assert slices[head] + (middle + last) == slices[head] + middle + last;
    }
  }

  lemma QueueNone(slices: Slices, head: Slot)
    ensures Queue(slices, head, 0) == []
  {
  }

  lemma StoredShape(r: Ring, size: nat, data: seq<byte>)
    requires RingShape(r, size) && r.n < SAVE_SLICE_NUM && |data| <= size - r.filled && size > 0
    ensures RingShape(Stored(r, size, data), size)
    ensures r.n > 0 ==> HeadOf(r) != r.wp
    ensures HeadOf(Stored(r, size, data)) == HeadOf(r)
    ensures r.n > 0 ==> Stored(r, size, data).slices[HeadOf(r)] == r.slices[HeadOf(r)]
    ensures Stored(r, size, data).n >= r.n
  {
  }

  /** Storing appends to what is stored. */
  lemma StoredAppends(r: Ring, size: nat, data: seq<byte>, copied: nat)
    requires RingShape(r, size) && r.n < SAVE_SLICE_NUM && |data| <= size - r.filled && size > 0
    requires copied <= r.n * size
    ensures Beyond(Stored(r, size, data), copied) == Beyond(r, copied) + data
  {
    hide Queue, Splice;
    var h := HeadOf(r);
    var t := Stored(r, size, data);
    var x := Splice(r.slices[r.wp], r.filled, data);
    var q := Queue(r.slices, h, r.n);
    StoredShape(r, size, data);
    QueueLength(r.slices, h, r.n, size);
    QueueFrame(r.slices, h, r.n, r.wp, x);
    SpliceFills(r.slices[r.wp], r.filled, data);
    if r.filled + |data| < size {
      assert t.slices[t.wp] == x;
      assert q[copied..] + (Partial(r) + data) == q[copied..] + Partial(r) + data;
    } else {
      QueueSnoc(t.slices, h, r.n);
      assert Queue(t.slices, h, t.n) == q + x;
      assert x[..size] == x;
      Behind(q, x, copied);
      assert Partial(t) == [];
      assert q[copied..] + (Partial(r) + data) == q[copied..] + Partial(r) + data;
    }
  }

  lemma Behind(q: seq<byte>, x: seq<byte>, k: nat)
    requires k <= |q|
    ensures (q + x)[k..] == q[k..] + x && (q + x)[k..] + [] == q[k..] + x
  {
  }

  lemma SpliceFills(b: seq<byte>, at: nat, data: seq<byte>)
    requires at + |data| <= |b|
    ensures Splice(b, at, data)[..at + |data|] == b[..at] + data
  {
  }

  /** The loggers never touch the slice that is being read outside the mutex. */
  lemma FillLeavesHead(s: State)
    requires Shape(s) && s.logger.Locking? && s.saver.Copying?
    ensures s.saver.head != s.ring.wp
    ensures Filled(s).ring.slices[s.saver.head] == s.ring.slices[s.saver.head]
    ensures HeadOf(Filled(s).ring) == s.saver.head
  {
    hide Stored;
    if s.ring.filled < s.size {
      StoredShape(s.ring, s.size, s.logger.left[..Share(s.ring, s.size, s.logger.left)]);
    }
  }

  // ---------------------------------------------------------------------------------------
  // Every step keeps the invariant.

  lemma CopiedFits(s: State)
    requires Shape(s)
    ensures Copied(s) <= s.ring.n * s.size
  {
    if s.ring.n > 0 {
      assert s.ring.n * s.size == s.size + (s.ring.n - 1) * s.size;
    }
  }

  lemma FillKeepsKept(s: State)
    requires Shape(s) && Kept(s) && s.logger.Locking?
    ensures Kept(Filled(s))
  {
    hide Stored, Beyond, Encode, EncodeAll;
    var left, next := s.logger.left, s.logger.next;
    var fill := Share(s.ring, s.size, left);
    if s.ring.filled < s.size {
      CopiedFits(s);
      StoredAppends(s.ring, s.size, left[..fill], Copied(s));
      assert s.file + (Unsaved(s) + left[..fill]) == s.file + Unsaved(s) + left[..fill];
      assert left == left[..fill] + left[fill..];
      assert s.log + (left + next) == s.log + left[..fill] + (left[fill..] + next);
      assert left[fill..] == [] ==> left[fill..] + next == next == next + [];
    }
  }

  lemma FillKeepsInv(s: State)
    requires Inv(s) && s.logger.Locking?
    ensures Inv(Filled(s))
  {
    hide Stored, Kept;
    FillKeepsKept(s);
    if s.ring.filled < s.size {
      StoredShape(s.ring, s.size, s.logger.left[..Share(s.ring, s.size, s.logger.left)]);
    }
  }

  lemma {:induction false} EncodeAllSnoc(es: seq<Event>, e: Event)
    ensures EncodeAll(es + [e]) == EncodeAll(es) + Encode(e)
    decreases |es|
  {
    hide Encode;
    var all := es + [e];
    if es == [] {
      assert all[1..] == [];
      assert Encode(e) + [] == [] + Encode(e);
    } else {
      assert all[1..] == es[1..] + [e] && all[0] == es[0];
      EncodeAllSnoc(es[1..], e);
    }
  }

  lemma DetailNonempty(e: Event)
    ensures Detail(e) != []
  {
  }

  lemma LogKeepsInv(s: State, l: Label)
    requires Inv(s) && Enabled(s, l) && (l.Log? || l.Check? || l.Probe?)
    ensures Inv(Apply(s, l))
  {
    hide Detail, Frames, EncodeAll, Beyond, HeadOf;
    if l.Check? {
      DetailNonempty(s.logger.event);
      EncodeAllSnoc(s.events, s.logger.event);
      assert s.log + [] == s.log;
    }
  }

  lemma CopyKeepsInv(s: State)
    requires Inv(s) && s.saver.Copying?
    ensures Inv(Apply(s, Copy))
  {
    hide EncodeAll, HeadOf, Queue, Partial;
    var r, h, k := s.ring, s.saver.head, s.saver.k;
    var q := Queue(r.slices, h, r.n);
    QueueLength(r.slices, h, r.n, s.size);
    QueueFirst(r.slices, h, r.n);
    CopiedFits(s);
    var slice := r.slices[h];
    if k < s.size {
      assert q[k..] == [slice[k]] + q[k + 1..];
      assert s.file + (q[k..] + Partial(r)) == s.file + [slice[k]] + (q[k + 1..] + Partial(r));
    }
  }

  lemma QueueFirst(slices: Slices, head: Slot, n: nat)
    requires n > 0
    ensures Queue(slices, head, n) == slices[head] + Queue(slices, Next(head), n - 1)
  {
  }

  lemma CountKeepsInv(s: State)
    requires Inv(s) && s.saver.Counting?
    ensures Inv(Apply(s, Count))
  {
    hide EncodeAll, Queue, Partial;
    var r, h := s.ring, HeadOf(s.ring);
    var rest := Queue(r.slices, Next(h), r.n - 1);
    QueueFirst(r.slices, h, r.n);
    assert (r.slices[h] + rest)[s.size..] == rest;
    assert rest[0..] == rest;
    var t := Apply(s, Count);
    assert HeadOf(t.ring) == Next(h) && Partial(t.ring) == Partial(r) by {
      PartialApart(r, r.n - 1);
    }
  }

  lemma PartialApart(r: Ring, n: nat)
    ensures Partial(r.(n := n)) == Partial(r)
  {
  }

  lemma FinalKeepsInv(s: State)
    requires Inv(s) && s.saver.Leaving?
    ensures Inv(Apply(s, Final))
  {
    hide EncodeAll, Queue, HeadOf;
    var r := s.ring;
    var q := Queue(r.slices, HeadOf(r), r.n);
    QueueLength(r.slices, HeadOf(r), r.n, s.size);
    assert q[0..] == q;
    if r.n > 0 {
      assert r.n * s.size == s.size + (r.n - 1) * s.size;
    } else {
      assert [] + Partial(r) == Partial(r);
    }
  }

  lemma SaverKeepsInv(s: State, l: Label)
    requires Inv(s) && Enabled(s, l) && (l.Look? || l.Head? || l.Decide? || l.Stop?)
    ensures Inv(Apply(s, l))
  {
    hide EncodeAll, Beyond, HeadOf;
  }

  lemma StepKeepsInv(s: State, l: Label)
    requires Inv(s) && Enabled(s, l)
    ensures Inv(Apply(s, l))
  {
    match l
    case Log(_) => LogKeepsInv(s, l);
    case Check => LogKeepsInv(s, l);
    case Probe => LogKeepsInv(s, l);
    case Fill => FillKeepsInv(s);
    case Copy => CopyKeepsInv(s);
    case Count => CountKeepsInv(s);
    case Final => FinalKeepsInv(s);
    case _ => SaverKeepsInv(s, l);
  }

  lemma {:induction false} RunKeepsInv(s: State, run: seq<Label>)
    requires Inv(s) && CanRun(s, run)
    ensures Inv(Run(s, run))
    decreases |run|
  {
    hide Inv, Apply, Enabled;
    if run != [] {
      StepKeepsInv(s, run[0]);
      RunKeepsInv(Apply(s, run[0]), run[1..]);
    }
  }

  lemma StartInv(slices: Slices, size: nat)
    requires forall i | 0 <= i < SAVE_SLICE_NUM :: |slices[i]| == size
    ensures Inv(Start(slices, size))
  {
    assert Queue(slices, 0, 0) == [];
  }

  // ---------------------------------------------------------------------------------------
  // Whole runs.

  /** In every run the file, the queued slices in ring order and the partial slice are what was stored. */
  lemma NothingLost(slices: Slices, size: nat, run: seq<Label>)
    requires (forall i | 0 <= i < SAVE_SLICE_NUM :: |slices[i]| == size) && CanRun(Start(slices, size), run)
    ensures var s := Run(Start(slices, size), run);
      && (!s.saver.Gone? ==> s.file + Unsaved(s) == s.log)
      && s.log + Unstored(s.logger) == EncodeAll(s.events)
      && (s.logger.Locking? && s.saver.Copying? ==> s.saver.head != s.ring.wp)
  {
    hide Run, Beyond, EncodeAll;
    StartInv(slices, size);
    RunKeepsInv(Start(slices, size), run);
    var s := Run(Start(slices, size), run);
    if s.logger.Locking? && s.saver.Copying? {
      FillLeavesHead(s);
    }
  }

  /** The moment at which a request to stop goes wrong. */
  predicate StopsBetweenTests(s: State, run: seq<Label>)
    requires CanRun(s, run)
    decreases |run|
  {
    run != [] &&
    ((run[0] == Stop && s.saver.SawEmpty? && s.ring.n > 0) || StopsBetweenTests(Apply(s, run[0]), run[1..]))
  }

  lemma {:induction false} StoppingStays(s: State, run: seq<Label>)
    requires CanRun(s, run) && s.stopping
    ensures Run(s, run).stopping && !StopsBetweenTests(s, run) && Run(s, run).raced == s.raced
    decreases |run|
  {
    if run != [] {
      StoppingStays(Apply(s, run[0]), run[1..]);
    }
  }

  lemma {:induction false} RacedMeans(s: State, run: seq<Label>)
    requires CanRun(s, run) && !s.stopping && !s.raced
    ensures Run(s, run).raced <==> StopsBetweenTests(s, run)
    decreases |run|
  {
    if run != [] {
      var t := Apply(s, run[0]);
      if t.stopping {
        StoppingStays(t, run[1..]);
      } else {
        RacedMeans(t, run[1..]);
      }
    }
  }

  /**
   * When the thread has gone and nothing was logged behind the request to stop, the file decodes to
   * exactly the records admitted, unless the request came between the thread's two tests while full
   * slices were queued.
   */
  lemma FileDecodes(slices: Slices, size: nat, run: seq<Label>)
    requires (forall i | 0 <= i < SAVE_SLICE_NUM :: |slices[i]| == size) && CanRun(Start(slices, size), run)
    requires var s := Run(Start(slices, size), run); s.saver.Gone? && !s.late
    ensures var s := Run(Start(slices, size), run);
      Decode(s.file) == Some(Records(s.events)) <==> !StopsBetweenTests(Start(slices, size), run)
  {
    hide Run, Beyond, EncodeAll, Records, Decode, StopsBetweenTests;
    StartInv(slices, size);
    RunKeepsInv(Start(slices, size), run);
    RacedMeans(Start(slices, size), run);
    var s := Run(Start(slices, size), run);
    assert s.log + [] == s.log;
    DecodeOfEncode(s.events);
    if Decode(s.file) == Some(Records(s.events)) {
      DecodeOnlyWhole(s.file, s.events);
    }
  }

  lemma {:induction false} RunsOn(s: State, a: seq<Label>, b: seq<Label>)
    requires CanRun(s, a) && CanRun(Run(s, a), b)
    ensures CanRun(s, a + b) && Run(s, a + b) == Run(Run(s, a), b)
    decreases |a|
  {
    hide Enabled, Apply;
    if a == [] {
      assert a + b == b;
    } else {
      assert (a + b)[1..] == a[1..] + b;
      RunsOn(Apply(s, a[0]), a[1..], b);
    }
  }

  lemma RunOne(s: State, l: Label)
    requires Enabled(s, l)
    ensures CanRun(s, [l]) && Run(s, [l]) == Apply(s, l)
  {
    assert CanRun(Apply(s, l), []) && Run(Apply(s, l), []) == Apply(s, l);
  }

  /** A record of six bytes fills a slice of six, once the thread has seen that there is none. */
  lemma OneSlice(slices: Slices, addr: Word)
    ensures var run := [Look] + [Log(Event(Free(addr), 0))] + [Check] + [Probe] + [Fill];
      && CanRun(Start(slices, 6), run)
      && var s := Run(Start(slices, 6), run);
         && s.saver.SawEmpty? && s.logger.Idle? && !s.stopping && !s.late && s.ring.n == 1 && s.ring.filled == 0
         && s.events == [Event(Free(addr), 0)] && s.file == []
  {
    hide Splice, Encode, CanRun, Run, HeadOf;
    var e := Event(Free(addr), 0);
    var s1, s2 := RunTwo(Start(slices, 6), Look, Log(e));
    var s3, s4 := RunTwo(s2, Check, Probe);
    assert Detail(e)[..6] == Detail(e) && Detail(e)[6..] == [];
    RunOne(s4, Fill);
    RunsOn(Start(slices, 6), [Look] + [Log(e)], [Check] + [Probe]);
    RunsOn(Start(slices, 6), [Look] + [Log(e)] + ([Check] + [Probe]), [Fill]);
    assert [Look] + [Log(e)] + ([Check] + [Probe]) == [Look] + [Log(e)] + [Check] + [Probe];
  }

  lemma RunTwo(s: State, a: Label, b: Label) returns (t: State, u: State)
    requires Enabled(s, a) && Enabled(Apply(s, a), b)
    ensures t == Apply(s, a) && u == Apply(t, b)
    ensures CanRun(s, [a] + [b]) && Run(s, [a] + [b]) == u
  {
    hide Enabled, Apply, CanRun, Run;
    t := Apply(s, a);
    u := Apply(t, b);
    RunOne(s, a);
    RunOne(t, b);
    RunsOn(s, [a], [b]);
  }

  predicate Loses(s: State, run: seq<Label>, e: Event) {
    && CanRun(s, run)
    && var t := Run(s, run);
       t.saver.Gone? && !t.late && t.events == [e] && t.file == []
  }

  /** Such a moment exists: a record that just fills a slice is admitted, saved by nobody, and gone. */
  lemma RecordLost(slices: Slices, addr: Word)
    requires forall i | 0 <= i < SAVE_SLICE_NUM :: |slices[i]| == 6
    ensures exists run: seq<Label> :: Loses(Start(slices, 6), run, Event(Free(addr), 0))
  {
    hide Splice, Encode, CanRun, Run, HeadOf;
    OneSlice(slices, addr);
    var first := [Look] + [Log(Event(Free(addr), 0))] + [Check] + [Probe] + [Fill];
    var s := Run(Start(slices, 6), first);
    var t, u := RunTwo(s, Stop, Decide);
    RunOne(u, Final);
    RunsOn(Start(slices, 6), first, [Stop] + [Decide]);
    RunsOn(Start(slices, 6), first + ([Stop] + [Decide]), [Final]);
    assert Loses(Start(slices, 6), first + ([Stop] + [Decide]) + [Final], Event(Free(addr), 0));
  }

  // ---------------------------------------------------------------------------------------
  // Progress of his_write.

  /** Steps of the thread until it gives a slice back. */
  function Work(s: State): nat {
    match s.saver
    case SawEmpty => s.size + 5
    case Looking => s.size + 4
    case Found => s.size + 3
    case Copying(_, k) => if k <= s.size then s.size - k + 2 else 2
    case _ => 1
  }

  /** What his_write still waits for, behind the bytes it still has to store. */
  function Wait(s: State): nat {
    if s.logger.Locking? then 0 else if s.ring.n < SAVE_SLICE_NUM then 1 else 2 + Work(s)
  }

  predicate Below(s: State, t: State) {
    |Unstored(s.logger)| < |Unstored(t.logger)| || (|Unstored(s.logger)| == |Unstored(t.logger)| && Wait(s) < Wait(t))
  }

  predicate ByLogger(l: Label) {
    l.Log? || l.Check? || l.Probe? || l.Fill?
  }

  /** The side that his_write waits for: itself, or the saving thread while all slices are full. */
  predicate Helps(s: State, l: Label) {
    ByLogger(l) <==> s.logger.Locking? || s.ring.n < SAVE_SLICE_NUM
  }

  /** What his_write waits for never grows, and it shrinks with the next step of the side it waits for. */
  lemma WriteAdvances(s: State, l: Label)
    requires Inv(s) && s.size > 0 && Writing(s.logger) && !s.stopping && Enabled(s, l) && l != Stop
    ensures var t := Apply(s, l);
      && (Below(t, s) || (|Unstored(t.logger)| == |Unstored(s.logger)| && Wait(t) == Wait(s)))
      && (Helps(s, l) ==> Below(t, s))
      && (t.logger.Idle? || Writing(t.logger)) && t.size == s.size && !t.stopping
  {
    hide Stored, Kept, HeadOf;
    if l == Fill {
      var fill := Share(s.ring, s.size, s.logger.left);
      assert fill > 0;
    }
  }

  predicate Moves(s: State, l: Label, t: State) {
    Enabled(s, l) && t == Apply(s, l)
  }

  /** The saving thread has a step; or the logger has one, or has nothing to log. */
  function Turn(trace: nat -> State, labels: nat -> Label, logger: bool): nat -> bool {
    (m: nat) => ByLogger(labels(m)) == logger || (logger && trace(m).logger.Idle?)
  }

  /** Neither the saving thread nor a logger with something to log is left behind, and nobody asks to stop. */
  ghost predicate Fair(trace: nat -> State, labels: nat -> Label) {
    && Recurs(Turn(trace, labels, true)) && Recurs(Turn(trace, labels, false))
    && forall n: nat :: labels(n) != Stop
  }

  ghost predicate Running(trace: nat -> State, n: nat) {
    Inv(trace(n)) && trace(n).size > 0 && !trace(n).stopping
  }

  /** At k the logger is at rest, and every admitted record is stored whole. */
  ghost predicate Rests(trace: nat -> State, n: nat, k: nat) {
    k >= n && trace(k).logger.Idle? && trace(k).log == EncodeAll(trace(k).events)
  }

  lemma RestsHere(trace: nat -> State, n: nat, k: nat)
    requires Running(trace, k) && trace(k).logger.Idle? && k >= n
    ensures Rests(trace, n, k)
  {
    hide EncodeAll, Shape, Stopped;
    assert trace(k).log + [] == trace(k).log;
  }

  lemma RestsEarlier(trace: nat -> State, n: nat, later: nat)
    requires n <= later && exists k: nat :: Rests(trace, later, k)
    ensures exists k: nat :: Rests(trace, n, k)
  {
    var k: nat :| Rests(trace, later, k);
    assert Rests(trace, n, k);
  }

  /** At m the side that helps in s has a step, or the logger has nothing to log. */
  predicate HelpsAt(s: State, trace: nat -> State, labels: nat -> Label, m: nat) {
    Helps(s, labels(m)) || trace(m).logger.Idle?
  }

  lemma NextHelp(s: State, trace: nat -> State, labels: nat -> Label, n: nat) returns (m: nat)
    requires Fair(trace, labels)
    ensures m >= n && HelpsAt(s, trace, labels, m)
  {
    m := NextTime(Turn(trace, labels, s.logger.Locking? || s.ring.n < SAVE_SLICE_NUM), n);
  }

  lemma TraceStep(trace: nat -> State, labels: nat -> Label, n: nat)
    requires Follows(trace, labels, Moves) && Fair(trace, labels) && Running(trace, n)
    ensures Enabled(trace(n), labels(n)) && labels(n) != Stop && trace(n + 1) == Apply(trace(n), labels(n))
    ensures Running(trace, n + 1)
  {
    hide Inv, Enabled, Apply;
    assert Moves(trace(n), labels(n), trace(n + 1));
    StepKeepsInv(trace(n), labels(n));
    NotStopped(trace(n), labels(n));
  }

  lemma NotStopped(s: State, l: Label)
    requires Enabled(s, l) && l != Stop && !s.stopping
    ensures !Apply(s, l).stopping && Apply(s, l).size == s.size
  {
    hide Stored;
  }

  /** The induction: by what is waited for, then by the time until the side that can help has its step. */
  lemma {:induction false} WriteEnds(trace: nat -> State, labels: nat -> Label, n: nat, m: nat)
    requires Follows(trace, labels, Moves) && Fair(trace, labels) && Running(trace, n) && Writing(trace(n).logger)
    requires n <= m && HelpsAt(trace(n), trace, labels, m)
    ensures exists k: nat :: Rests(trace, n, k)
    decreases |Unstored(trace(n).logger)|, Wait(trace(n)), m - n
  {
    hide Inv, Enabled, Apply, Follows, Fair, Unstored;
    var s, t := trace(n), trace(n + 1);
    TraceStep(trace, labels, n);
    WriteAdvances(s, labels(n));
    if t.logger.Idle? {
      RestsHere(trace, n, n + 1);
    } else {
      if Below(t, s) {
        var next := NextHelp(t, trace, labels, n + 1);
        WriteEnds(trace, labels, n + 1, next);
      } else {
        SameWait(s, t);
        assert n < m;
        WriteEnds(trace, labels, n + 1, m);
      }
      RestsEarlier(trace, n, n + 1);
    }
  }

  /** Waiting for the same, it waits for the same side. */
  lemma SameWait(s: State, t: State)
    requires Wait(s) == Wait(t)
    ensures s.logger.Locking? || s.ring.n < SAVE_SLICE_NUM <==> t.logger.Locking? || t.ring.n < SAVE_SLICE_NUM
  {
  }

  lemma CheckAdvances(s: State, l: Label)
    requires Enabled(s, l) && l != Stop && s.logger.Waiting? && s.logger.retry > 0
    ensures var u := Apply(s, l).logger;
      if !ByLogger(l) then u == s.logger
      else u.Idle? || Writing(u) || (u.Waiting? && 0 < u.retry < s.logger.retry)
  {
    hide HeadOf, Encode;
  }

  lemma {:induction false} WaitEnds(trace: nat -> State, labels: nat -> Label, n: nat, m: nat)
    requires Follows(trace, labels, Moves) && Fair(trace, labels) && Running(trace, n)
    requires trace(n).logger.Waiting? && n <= m && Turn(trace, labels, true)(m)
    ensures exists k: nat :: Rests(trace, n, k)
    decreases trace(n).logger.retry, m - n
  {
    hide Inv, Enabled, Apply, Follows, Fair;
    var t := trace(n + 1);
    TraceStep(trace, labels, n);
    RetriesLeft(trace(n));
    CheckAdvances(trace(n), labels(n));
    if t.logger.Idle? {
      RestsHere(trace, n, n + 1);
    } else {
      if Writing(t.logger) {
        var next := NextHelp(t, trace, labels, n + 1);
        WriteEnds(trace, labels, n + 1, next);
      } else if ByLogger(labels(n)) {
        var next := NextLogger(trace, labels, n + 1);
        WaitEnds(trace, labels, n + 1, next);
      } else {
        WaitEnds(trace, labels, n + 1, m);
      }
      RestsEarlier(trace, n, n + 1);
    }
  }

  lemma RetriesLeft(s: State)
    requires Inv(s) && s.logger.Waiting?
    ensures s.logger.retry > 0
  {
    hide Kept, Stopped;
  }

  lemma NextLogger(trace: nat -> State, labels: nat -> Label, n: nat) returns (m: nat)
    requires Fair(trace, labels)
    ensures m >= n && Turn(trace, labels, true)(m)
  {
    m := NextTime(Turn(trace, labels, true), n);
  }

  /**
   * Logging a record ends, under every fair schedule of logger and saving thread while nobody asks to
   * stop, whether further records come or not: it is stored whole or dropped whole.
   */
  lemma LoggingEnds(trace: nat -> State, labels: nat -> Label, n: nat)
    requires Follows(trace, labels, Moves) && Fair(trace, labels) && Running(trace, n)
    ensures exists k: nat :: Rests(trace, n, k)
  {
    hide Inv, Follows, Fair, Rests;
    var u := trace(n).logger;
    if u.Idle? {
      RestsHere(trace, n, n);
    } else if Writing(u) {
      var m := NextHelp(trace(n), trace, labels, n);
      WriteEnds(trace, labels, n, m);
    } else if u.Waiting? {
      var m := NextLogger(trace, labels, n);
      WaitEnds(trace, labels, n, m);
    }
  }

  /** With slices of no bytes (a cache of one to three) it never ends, whatever the others do. */
  lemma {:induction false} NoSliceNoEnd(s: State, run: seq<Label>)
    requires s.size == 0 && Writing(s.logger) && CanRun(s, run)
    ensures var t := Run(s, run);
      Writing(t.logger) && t.logger.left == s.logger.left && t.log == s.log
    decreases |run|
  {
    hide Stored, HeadOf;
    if run != [] {
      NoSliceNoEnd(Apply(s, run[0]), run[1..]);
    }
  }
}
