// Who owns a pool buffer between av_render_add_audio_data and the decoder thread of
// components/av_render/src/av_render.c (adec_body, render_consume_all, render_thread). Every
// interleaving of one submitter and one decoder thread.
module PoolOwnership {
  import opened Common

  /** A queued packet; 0 is the null pointer. */
  datatype Packet = Packet(data: nat, eos: bool)

  /**
   * The submitter: at rest; with a packet for the thread it has seen, its lock given up; or with one
   * that the queue has refused.
   */
  datatype Submitter = Idle | Holding(packet: Packet) | Refused(packet: Packet)

  /** Why the thread reads: to decode, to flush, or to leave nothing behind. */
  datatype Mode = Decode | Flush | Exit

  /** The thread: waiting for a message; in render_consume_all; with the oldest packet locked; with it freed; gone. */
  datatype Worker =
    | Receiving
    | Consuming(mode: Mode)
    | Locked(mode: Mode)
    | Freed(mode: Mode)
    | Gone

  /** `pool`: pool_free is set; `usePool`: the thread's copy of that, taken when its stream was added. */
  datatype Config = Config(pool: bool, usePool: bool, quitAtEos: bool)

  /**
   * The buffers ever submitted, the ones freed, and those that nobody will free: queued by value, or
   * queued for a thread that is gone.
   */
  datatype Book = Book(submitted: multiset<nat>, freed: multiset<nat>, orphans: multiset<nat>)

  datatype State = State(config: Config, paused: bool, submitter: Submitter, worker: Worker, queue: seq<Packet>,
                         book: Book)

  datatype Label =
    | Submit(packet: Packet)
    | Enqueue(room: bool)
    | FreeRefused
    | Close
    | Pause
    | Resume
    | StartFlush
    | Lock
    | Free
    | Unlock
    | Leave

  function Own(p: Packet): multiset<nat> {
    if p.data != 0 then multiset{p.data} else multiset{}
  }

  function OwnAll(queue: seq<Packet>): multiset<nat> {
    if queue == [] then multiset{} else Own(queue[0]) + OwnAll(queue[1..])
  }

  predicate Enabled(s: State, l: Label) {
    match l
    case Submit(_) => s.submitter.Idle?
    case Enqueue(_) => s.submitter.Holding?
    case FreeRefused => s.submitter.Refused?
    case Lock => s.queue != [] && (s.worker.Consuming? || (s.worker.Receiving? && !s.paused))
    case Free => s.worker.Locked? && s.queue != []
    case Unlock => s.worker.Freed? && s.queue != []
    case Leave => s.worker.Consuming? && s.queue == []
    case _ => s.worker.Receiving?
  }

  /** Whether a submitter finds a thread: it is unset before the thread consumes what is left. */
  predicate Threaded(w: Worker) {
    !w.Gone? && (w.Receiving? || w.mode != Exit)
  }

  /** What the pool is to get back for a packet. */
  function Due(c: Config, p: Packet): multiset<nat> {
    if c.pool then Own(p) else multiset{}
  }

  /** Without a thread the packet is decoded, rendered or turned down on the spot, and freed. */
  function Submitted(s: State, p: Packet): State {
    var book := s.book.(submitted := s.book.submitted + Due(s.config, p));
    if Threaded(s.worker) then s.(submitter := Holding(p), book := book)
    else s.(book := book.(freed := book.freed + Due(s.config, p)))
  }

  function Enqueued(s: State, p: Packet): State {
    var lost := if s.config.usePool && !s.worker.Gone? then multiset{} else Due(s.config, p);
    s.(submitter := Idle, queue := s.queue + [p], book := s.book.(orphans := s.book.orphans + lost))
  }

  /** The end of adec_body, and where it returns to. */
  function Unlocked(s: State): State
    requires s.worker.Freed? && s.queue != []
  {
    var mode, eos := s.worker.mode, s.queue[0].eos;
    // Without a pool the packets of a flush and of the exit are dropped unread.
    var read := mode == Decode || s.config.usePool;
    s.(queue := s.queue[1..], paused := s.paused || (read && eos && !s.config.quitAtEos),
       worker := if mode != Decode then Consuming(mode)
                 else if eos && s.config.quitAtEos then Consuming(Exit) else Receiving)
  }

  function Apply(s: State, l: Label): State
    requires Enabled(s, l)
  {
    match l
    case Submit(p) => Submitted(s, p)
    case Enqueue(room) =>
      if room then Enqueued(s, s.submitter.packet) else s.(submitter := Refused(s.submitter.packet))
    case FreeRefused =>
      s.(submitter := Idle, book := s.book.(freed := s.book.freed + Due(s.config, s.submitter.packet)))
    case Close => s.(worker := Consuming(Exit))
    case Pause => s.(paused := true)
    case Resume => s.(paused := false)
    case StartFlush => s.(worker := Consuming(Flush))
    case Lock => s.(worker := Locked(if s.worker.Consuming? then s.worker.mode else Decode))
    case Free =>
      var more := if s.config.usePool then Own(s.queue[0]) else multiset{};
      s.(worker := Freed(s.worker.mode), book := s.book.(freed := s.book.freed + more))
    case Unlock => Unlocked(s)
    case Leave => s.(worker := if s.worker.mode == Exit then Gone else Receiving)
  }

  predicate CanRun(s: State, run: seq<Label>)
    decreases |run|
  {
    run == [] || (Enabled(s, run[0]) && CanRun(Apply(s, run[0]), run[1..]))
  }

  function Run(s: State, run: seq<Label>): State
    requires CanRun(s, run)
    decreases |run|
  {
    if run == [] then s else Run(Apply(s, run[0]), run[1..])
  }

  /** A thread that has just been created, or none. */
  function Start(c: Config, threaded: bool): State {
    State(c, false, Idle, if threaded then Receiving else Gone, [], Book(multiset{}, multiset{}, multiset{}))
  }

  // ---------------------------------------------------------------------------------------
  // The invariant.

  /** What the queue owns: the packets that the thread has not freed. */
  function Queued(c: Config, w: Worker, queue: seq<Packet>): multiset<nat> {
    if !c.usePool || w.Gone? then multiset{} else OwnAll(if w.Freed? && queue != [] then queue[1..] else queue)
  }

  /** What the submitter has in its hands. */
  function InHand(c: Config, u: Submitter): multiset<nat> {
    if u.Idle? then multiset{} else Due(c, u.packet)
  }

  /** Every buffer submitted is in exactly one place. */
  predicate Balanced(s: State) {
    s.book.submitted ==
      s.book.freed + Queued(s.config, s.worker, s.queue) + InHand(s.config, s.submitter) + s.book.orphans
  }

  predicate Inv(s: State) {
    && (s.config.usePool ==> s.config.pool)
    && (s.worker.Locked? || s.worker.Freed? ==> s.queue != [])
    && Balanced(s)
  }

  lemma {:induction false} OwnSnoc(queue: seq<Packet>, p: Packet)
    ensures OwnAll(queue + [p]) == OwnAll(queue) + Own(p)
    decreases |queue|
  {
    var all := queue + [p];
    if queue == [] {
      assert all[1..] == [];
    } else {
      assert all[1..] == queue[1..] + [p];
      OwnSnoc(queue[1..], p);
    }
  }

  lemma QueuedSnoc(c: Config, w: Worker, queue: seq<Packet>, p: Packet)
    requires w.Freed? ==> queue != []
    ensures Queued(c, w, queue + [p]) == Queued(c, w, queue) + if c.usePool && !w.Gone? then Own(p) else multiset{}
  {
    hide OwnAll, Own;
    OwnSnoc(queue, p);
    if w.Freed? {
      assert (queue + [p])[1..] == queue[1..] + [p];
      OwnSnoc(queue[1..], p);
    }
  }

  lemma QueuedFirst(c: Config, w: Worker, queue: seq<Packet>)
    requires queue != [] && c.usePool && w.Locked?
    ensures Queued(c, w, queue) == Own(queue[0]) + Queued(c, Freed(w.mode), queue)
  {
  }

  lemma SubmitKeepsInv(s: State, p: Packet)
    requires Inv(s) && s.submitter.Idle?
    ensures Inv(Submitted(s, p))
  {
    hide Own, OwnAll, Queued, Threaded;
  }

  lemma EnqueueKeepsInv(s: State, p: Packet)
    requires Inv(s) && s.submitter == Holding(p)
    ensures Inv(Enqueued(s, p))
  {
    hide Own, OwnAll, Queued;
    QueuedSnoc(s.config, s.worker, s.queue, p);
  }

  lemma SubmitterKeepsInv(s: State, l: Label)
    requires Inv(s) && Enabled(s, l) && (l.Submit? || l.Enqueue? || l.FreeRefused?)
    ensures Inv(Apply(s, l))
  {
    if l.Submit? {
      hide Inv, Submitted;
      SubmitKeepsInv(s, l.packet);
    } else if l == Enqueue(true) {
      hide Inv, Enqueued;
      EnqueueKeepsInv(s, s.submitter.packet);
    } else {
      RefusedKeepsInv(s, l);
    }
  }

  lemma RefusedKeepsInv(s: State, l: Label)
    requires Inv(s) && Enabled(s, l) && (l == Enqueue(false) || l.FreeRefused?)
    ensures Inv(Apply(s, l))
  {
    hide Own, OwnAll, Queued;
  }

  lemma WorkerKeepsInv(s: State, l: Label)
    requires Inv(s) && Enabled(s, l) && !l.Submit? && !l.Enqueue? && !l.FreeRefused?
    ensures Inv(Apply(s, l))
  {
    hide Own, InHand;
    if l.Free? && s.config.usePool {
      hide Queued;
      QueuedFirst(s.config, s.worker, s.queue);
    }
  }

  lemma StepKeepsInv(s: State, l: Label)
    requires Inv(s) && Enabled(s, l)
    ensures Inv(Apply(s, l))
  {
    hide Inv, Enabled, Apply;
    if l.Submit? || l.Enqueue? || l.FreeRefused? {
      SubmitterKeepsInv(s, l);
    } else {
      WorkerKeepsInv(s, l);
    }
  }

  lemma {:induction false} RunKeepsInv(s: State, run: seq<Label>)
    requires Inv(s) && CanRun(s, run)
    ensures Inv(Run(s, run))
    decreases |run|
  {
    hide Inv, Apply, Enabled;
    if run != [] {
      StepKeepsInv(s, run[0]);
      RunKeepsInv(Apply(s, run[0]), run[1..]);
    }
  }

  /** A buffer is queued where nobody will free it: by value though there is a pool, or behind the thread's end. */
  predicate Abandons(s: State, l: Label) {
    && l == Enqueue(true) && s.submitter.Holding? && s.submitter.packet.data != 0 && s.config.pool
    && (!s.config.usePool || s.worker.Gone?)
  }

  predicate AbandonsSome(s: State, run: seq<Label>)
    requires CanRun(s, run)
    decreases |run|
  {
    run != [] && (Abandons(s, run[0]) || AbandonsSome(Apply(s, run[0]), run[1..]))
  }

  lemma OrphanStep(s: State, l: Label)
    requires Enabled(s, l)
    ensures Apply(s, l).book.orphans == multiset{} <==> s.book.orphans == multiset{} && !Abandons(s, l)
  {
    if l == Enqueue(true) {
      EnqueueOrphans(s, s.submitter.packet);
    }
  }

  lemma EnqueueOrphans(s: State, p: Packet)
    ensures Enqueued(s, p).book.orphans == multiset{} <==>
      s.book.orphans == multiset{} && (p.data == 0 || !s.config.pool || (s.config.usePool && !s.worker.Gone?))
  {
    if p.data != 0 {
      assert p.data in Own(p);
    }
  }

  lemma {:induction false} OrphansMean(s: State, run: seq<Label>)
    requires CanRun(s, run)
    ensures Run(s, run).book.orphans == multiset{} <==> s.book.orphans == multiset{} && !AbandonsSome(s, run)
    decreases |run|
  {
    hide Apply, Enabled, Abandons;
    if run != [] {
      OrphanStep(s, run[0]);
      OrphansMean(Apply(s, run[0]), run[1..]);
    }
  }

  /**
   * Each buffer submitted is freed, queued, in the submitter's hands or abandoned, and in one of these
   * only; and when the thread is gone and the submitter at rest, each has been freed exactly once
   * unless one was abandoned.
   */
  lemma FreedExactlyOnce(c: Config, threaded: bool, run: seq<Label>)
    requires (c.usePool ==> c.pool) && CanRun(Start(c, threaded), run)
    ensures var s := Run(Start(c, threaded), run);
      && Balanced(s)
      && (s.worker.Gone? && s.submitter.Idle? ==>
            (s.book.freed == s.book.submitted <==> !AbandonsSome(Start(c, threaded), run)))
  {
    hide Run, AbandonsSome, OwnAll;
    StartInv(c, threaded);
    RunKeepsInv(Start(c, threaded), run);
    OrphansMean(Start(c, threaded), run);
    var s := Run(Start(c, threaded), run);
    if s.worker.Gone? && s.submitter.Idle? {
      assert s.book.submitted == s.book.freed + s.book.orphans;
      if s.book.orphans != multiset{} {
        var x :| x in s.book.orphans;
        assert s.book.submitted[x] > s.book.freed[x];
      }
    }
  }

  lemma StartInv(c: Config, threaded: bool)
    requires c.usePool ==> c.pool
    ensures Inv(Start(c, threaded)) && Start(c, threaded).book.orphans == multiset{}
  {
  }

  // ---------------------------------------------------------------------------------------
  // The end of the thread.

  predicate ByWorker(l: Label) {
    l.Lock? || l.Free? || l.Unlock? || l.Leave?
  }

  predicate Exiting(w: Worker) {
    (w.Consuming? || w.Locked? || w.Freed?) && w.mode == Exit
  }

  /** The steps of the thread until it is gone; a packet in the submitter's hands may still arrive. */
  function StepsLeft(s: State): nat {
    3 * (|s.queue| + if s.submitter.Holding? then 1 else 0) +
    (if s.worker.Consuming? then 3 else if s.worker.Locked? then 2 else if s.worker.Freed? then 1 else 0)
  }

  /** On its way out each step of the thread brings the end closer, and no step of a submitter puts it off. */
  lemma ExitAdvances(s: State, l: Label)
    requires Inv(s) && Exiting(s.worker) && Enabled(s, l)
    ensures var t := Apply(s, l);
      && (if ByWorker(l) then StepsLeft(t) < StepsLeft(s) else StepsLeft(t) <= StepsLeft(s))
      && (t.worker.Gone? || Exiting(t.worker))
  {
    hide Balanced, Due, Own;
  }

  /** And the thread always has a step to take. */
  lemma ExitGoesOn(s: State)
    requires Inv(s) && Exiting(s.worker)
    ensures Enabled(s, Lock) || Enabled(s, Free) || Enabled(s, Unlock) || Enabled(s, Leave)
  {
    hide Balanced;
  }

  predicate Moves(s: State, l: Label, t: State) {
    Enabled(s, l) && t == Apply(s, l)
  }

  /** The thread has a step, or is gone. */
  function Works(trace: nat -> State, labels: nat -> Label): nat -> bool {
    (m: nat) => ByWorker(labels(m)) || trace(m).worker.Gone?
  }

  lemma {:induction false} ExitsFrom(trace: nat -> State, labels: nat -> Label, n: nat, m: nat)
    requires Follows(trace, labels, Moves) && Recurs(Works(trace, labels))
    requires Inv(trace(n)) && Exiting(trace(n).worker)
    requires m >= n && Works(trace, labels)(m)
    ensures exists k: nat :: trace(k).worker.Gone?
    decreases StepsLeft(trace(n)), m - n
  {
    hide Inv, Enabled, Apply, StepsLeft;
    var s, t := trace(n), trace(n + 1);
    assert Moves(s, labels(n), t);
    ExitAdvances(s, labels(n));
    StepKeepsInv(s, labels(n));
    if !t.worker.Gone? {
      if StepsLeft(t) < StepsLeft(s) {
        var next := NextTime(Works(trace, labels), n + 1);
        ExitsFrom(trace, labels, n + 1, next);
      } else {
        ExitsFrom(trace, labels, n + 1, m);
      }
    }
  }

  /**
   * Once it is on its way out, the thread, which can always go on, is gone some time if it does go on,
   * whatever a submitter does.
   */
  lemma ThreadExits(trace: nat -> State, labels: nat -> Label, n: nat)
    requires Follows(trace, labels, Moves) && Recurs(Works(trace, labels))
    requires Inv(trace(n)) && Exiting(trace(n).worker)
    ensures exists k: nat :: trace(k).worker.Gone?
  {
    hide Inv;
    var m := NextTime(Works(trace, labels), n);
    ExitsFrom(trace, labels, n, m);
  }

  // ---------------------------------------------------------------------------------------
  // The order of the packets.

  /** The packet in the submitter's hands: one submitted while there is a thread that is not on its way out. */
  function InHands(hand: Option<Packet>, s: State, l: Label): Option<Packet> {
    if l.Submit? then (if Exiting(s.worker) || s.worker.Gone? then None else Some(l.packet))
    else if l.Enqueue? then None
    else hand
  }

  /** The packets that the queue takes in a run. */
  function Accepted(s: State, run: seq<Label>, hand: Option<Packet>): seq<Packet>
    requires CanRun(s, run)
    decreases |run|
  {
    if run == [] then []
    else
      (if run[0] == Enqueue(true) && hand.Some? then [hand.value] else [])
      + Accepted(Apply(s, run[0]), run[1..], InHands(hand, s, run[0]))
  }

  /** The packets that the thread is done with. */
  function Taken(s: State, run: seq<Label>): seq<Packet>
    requires CanRun(s, run)
    decreases |run|
  {
    if run == [] then [] else (if run[0] == Unlock then [s.queue[0]] else []) + Taken(Apply(s, run[0]), run[1..])
  }

  predicate HandIs(s: State, hand: Option<Packet>) {
    if s.submitter.Holding? then hand == Some(s.submitter.packet) else hand.None?
  }

  lemma OrderStep(s: State, l: Label, hand: Option<Packet>)
    requires Enabled(s, l) && HandIs(s, hand)
    ensures HandIs(Apply(s, l), InHands(hand, s, l))
    ensures s.queue + (if l == Enqueue(true) && hand.Some? then [hand.value] else []) ==
      (if l == Unlock then [s.queue[0]] else []) + Apply(s, l).queue
  {
    hide Due, Own;
  }

  /** The order of the remaining packets follows from that of one step. */
  lemma OrderSums(q: seq<Packet>, a: seq<Packet>, b: seq<Packet>, c: seq<Packet>, d: seq<Packet>, r: seq<Packet>,
                  t: seq<Packet>)
    requires q + a == c + r && r + b == d + t
    ensures q + (a + b) == c + d + t
  {
    assert q + (a + b) == q + a + b;
    assert c + r + b == c + (r + b);
    assert c + (d + t) == c + d + t;
  }

  lemma {:induction false} OrderFrom(s: State, run: seq<Label>, hand: Option<Packet>)
    requires CanRun(s, run) && HandIs(s, hand)
    ensures s.queue + Accepted(s, run, hand) == Taken(s, run) + Run(s, run).queue
    decreases |run|
  {
    hide Enabled, Apply, InHands, HandIs;
    if run == [] {
      assert s.queue + [] == [] + s.queue;
    } else {
      var l := run[0];
      var t := Apply(s, l);
      OrderStep(s, l, hand);
      OrderFrom(t, run[1..], InHands(hand, s, l));
      OrderSums(s.queue, if l == Enqueue(true) && hand.Some? then [hand.value] else [],
                Accepted(t, run[1..], InHands(hand, s, l)), if l == Unlock then [s.queue[0]] else [],
                Taken(t, run[1..]), t.queue, Run(t, run[1..]).queue);
    }
  }

  /**
   * In every run every packet that is submitted while there is a thread and taken by the queue is dealt with
   * by the thread once, in order, or still queued.
   */
  lemma PacketsInOrder(c: Config, threaded: bool, run: seq<Label>)
    requires CanRun(Start(c, threaded), run)
    ensures Accepted(Start(c, threaded), run, None)
      == Taken(Start(c, threaded), run) + Run(Start(c, threaded), run).queue
  {
    hide CanRun, Run, Accepted, Taken;
    OrderFrom(Start(c, threaded), run, None);
    assert [] + Accepted(Start(c, threaded), run, None) == Accepted(Start(c, threaded), run, None);
  }

  // ---------------------------------------------------------------------------------------
  // The end of a stream.

  /** The thread has decoded and freed the packet that ends the stream. */
  predicate AtEos(s: State) {
    s.worker == Freed(Decode) && s.queue != [] && s.queue[0].eos
  }

  /** Nobody resumes the thread, flushes it or closes it. */
  predicate LeftAlone(run: seq<Label>) {
    Resume !in run && Close !in run && StartFlush !in run
  }

  lemma {:induction false} StaysPaused(s: State, run: seq<Label>)
    requires CanRun(s, run) && s.worker.Receiving? && s.paused && LeftAlone(run)
    ensures var t := Run(s, run); t.worker.Receiving? && t.paused && s.queue <= t.queue
    ensures forall l | l in run :: !ByWorker(l)
    decreases |run|
  {
    hide Due, Own;
    if run != [] {
      var l := run[0];
      assert l in run && forall x :: x in run[1..] ==> x in run;
      StaysPaused(Apply(s, l), run[1..]);
      assert run == [l] + run[1..];
    }
  }

  lemma {:induction false} StaysExiting(s: State, run: seq<Label>)
    requires CanRun(s, run) && s.config.quitAtEos && (Exiting(s.worker) || s.worker.Gone?)
    ensures var t := Run(s, run); (Exiting(t.worker) || t.worker.Gone?) && t.paused == s.paused
    decreases |run|
  {
    hide Due, Own;
    if run != [] {
      StaysExiting(Apply(s, run[0]), run[1..]);
    }
  }

  /**
   * Behind the packet that ends a stream the thread pauses: until it is resumed, flushed or closed it takes
   * no step, and what is queued stays queued in every run. If it is configured to quit then, it is on its way
   * out instead, is never back, and decodes nothing more; ThreadExits says that it arrives.
   */
  lemma EosStops(s: State, run: seq<Label>)
    requires AtEos(s) && CanRun(Apply(s, Unlock), run)
    ensures var t := Run(Apply(s, Unlock), run);
      if s.config.quitAtEos then
        (Exiting(t.worker) || t.worker.Gone?) && t.paused == s.paused
      else LeftAlone(run) ==>
        && t.worker.Receiving? && t.paused && s.queue[1..] <= t.queue
        && forall l | l in run :: !ByWorker(l)
  {
    var u := Apply(s, Unlock);
    if s.config.quitAtEos {
      StaysExiting(u, run);
    } else if LeftAlone(run) {
      StaysPaused(u, run);
    }
  }

  /** Any other packet leaves the thread as it was: it takes the next one at once unless it is paused. */
  lemma OthersGoOn(s: State)
    requires s.worker == Freed(Decode) && s.queue != [] && !s.queue[0].eos
    ensures var t := Apply(s, Unlock);
      && t.worker.Receiving? && t.paused == s.paused && t.queue == s.queue[1..]
      && (Enabled(t, Lock) <==> !s.paused && |s.queue| > 1)
  {
  }

  /** A flush reads the end of a stream too, and then pauses the thread, exactly if the packets are in a pool. */
  lemma FlushedEos(s: State)
    requires s.worker == Freed(Flush) && s.queue != [] && s.queue[0].eos
    ensures var t := Apply(s, Unlock);
      && t.worker == Consuming(Flush)
      && (t.paused <==> s.paused || (s.config.usePool && !s.config.quitAtEos))
  {
  }

  // ---------------------------------------------------------------------------------------
  // What the messages do.

  /** From a pause to the next resume, flush or close the thread takes no step, and what is queued stays queued. */
  lemma PauseHolds(s: State, run: seq<Label>)
    requires Enabled(s, Pause) && CanRun(Apply(s, Pause), run) && LeftAlone(run)
    ensures var t := Run(Apply(s, Pause), run); t.worker.Receiving? && t.paused && s.queue <= t.queue
    ensures forall l | l in run :: !ByWorker(l)
  {
    StaysPaused(Apply(s, Pause), run);
  }

  /** A resumed thread takes the oldest packet to decode it, if there is one. */
  lemma ResumeGoesOn(s: State)
    requires Enabled(s, Resume)
    ensures var t := Apply(s, Resume);
      && t.queue == s.queue && (Enabled(t, Lock) <==> s.queue != [])
      && (s.queue != [] ==> Apply(t, Lock).worker == Locked(Decode))
  {
  }

  predicate Flushing(w: Worker) {
    (w.Consuming? || w.Locked? || w.Freed?) && w.mode == Flush
  }

  lemma {:induction false} StaysFlushing(s: State, run: seq<Label>)
    requires CanRun(s, run) && Flushing(s.worker) && Leave !in run
    ensures Flushing(Run(s, run).worker)
    decreases |run|
  {
    hide Due, Own;
    if run != [] {
      assert forall x :: x in run[1..] ==> x in run;
      assert run[0] in run;
      StaysFlushing(Apply(s, run[0]), run[1..]);
    }
  }

  /** A flush decodes nothing, ends only with an empty queue, and brings the thread back to its messages. */
  lemma FlushEmpties(s: State, run: seq<Label>)
    requires Enabled(s, StartFlush) && CanRun(Apply(s, StartFlush), run) && Leave !in run
    ensures var t := Run(Apply(s, StartFlush), run);
      && Flushing(t.worker)
      && (Enabled(t, Leave) ==> t.queue == [] && Apply(t, Leave).worker.Receiving?)
  {
    StaysFlushing(Apply(s, StartFlush), run);
  }

  lemma {:induction false} ExitingStays(s: State, run: seq<Label>)
    requires CanRun(s, run) && (Exiting(s.worker) || s.worker.Gone?)
    ensures Exiting(Run(s, run).worker) || Run(s, run).worker.Gone?
    decreases |run|
  {
    hide Due, Own;
    if run != [] {
      ExitingStays(Apply(s, run[0]), run[1..]);
    }
  }

  /** From a close on the thread is on its way out in every run, and never back at its messages. */
  lemma CloseExits(s: State, run: seq<Label>)
    requires Enabled(s, Close) && CanRun(Apply(s, Close), run)
    ensures var t := Run(Apply(s, Close), run); Exiting(t.worker) || t.worker.Gone?
  {
    ExitingStays(Apply(s, Close), run);
  }
}
