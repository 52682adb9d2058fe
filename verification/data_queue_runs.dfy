// One writer, one reader and one thread calling data_queue_wakeup, interleaved on one queue.
//
// Every step is one critical section, or one of the two unlocked halves of _WAIT_BITS (the wait
// returning, and the separate clear that follows it), or one byte the writer stores into the block
// it has reserved. The locals of each thread are its program counter.
module DataQueueRuns {
  import opened Bytes
  import opened DataQueue

  /** `seen` remembers how many blocks had been consumed when the request was last examined. */
  datatype Writer =
    | WIdle
    | WTest(n: nat)
    | WBlocked(n: nat, seen: nat)
    | WWoken(n: nat)
    | WCleared(n: nat)
    | WReserved(at: int, n: nat)

  datatype Reader = RIdle | RBlocked | RWoken | RCleared | RHolding(at: int, len: int)

  datatype Waker = KIdle | KBlocked | KWoken | KCleared | KDone

  /**
   * The queue, its event bits and its three users. `sent` and `got` are the history: the payloads
   * committed so far, and the payloads consumed so far as the consumer saw them.
   */
  datatype System = System(ring: Ring, arrive: bool, consume: bool, free: bool,
                           w: Writer, r: Reader, k: Waker,
                           sent: seq<seq<byte>>, got: seq<seq<byte>>)

  datatype Action =
    | WCall(n: nat) | WTry | WWake | WClear | WFill(i: nat, b: byte) | WCommit(m: nat) | WCancel
    | RTry | RWake | RClear | RUnlock | RPeek | RConsumeAll
    | KCall | KWake | KClear | KRelock

  function Init(buffer: seq<byte>): System {
    System(Ring(buffer, 0, 0, 0, 0, 0, false), false, false, false, WIdle, RIdle, KIdle, [], [])
  }

  predicate Enabled(s: System, a: Action) {
    match a
    case WCall(n) => s.w.WIdle? && n + HEAD <= INT_MAX
    case WTry => s.w.WTest? || s.w.WCleared?
    case WWake => s.w.WBlocked? && s.consume
    case WClear => s.w.WWoken?
    case WFill(i, b) => s.w.WReserved? && i < s.w.n
    case WCommit(m) => s.w.WReserved? && 0 < m <= s.w.n
    case WCancel => s.w.WReserved?
    case RTry => s.r.RIdle? || s.r.RCleared?
    case RWake => s.r.RBlocked? && s.arrive
    case RClear => s.r.RWoken?
    case RUnlock => s.r.RHolding?
    case RPeek => s.r.RHolding?
    // A block that fills the whole buffer traps there.
    case RConsumeAll => s.r.RIdle? && !(|Blocks(s.ring)| == 1 && |Blocks(s.ring)[0]| + HEAD == |s.ring.buffer|)
    case KCall => s.k.KIdle?
    case KWake => s.k.KBlocked? && s.free
    case KClear => s.k.KWoken?
    case KRelock => s.k.KCleared?
  }

  /** Coming back from a wait with the lock held: no longer a user, and saying so. */
  function WriterBack(s: System): System {
    if s.w.WCleared? then s.(ring := s.ring.(user := s.ring.user - 1), free := true, w := WTest(s.w.n)) else s
  }

  function ReaderBack(s: System): System {
    if s.r.RCleared? then s.(ring := s.ring.(user := s.ring.user - 1), free := true, r := RIdle) else s
  }

  /** A pass of get_buffer's loop. */
  function TryReserve(s: System): System
    requires s.w.WTest?
  {
    var n := s.w.n;
    if s.ring.quit || n + HEAD > |s.ring.buffer| then s.(w := WIdle)
    else
      var tried := Wrapped(s.ring, n + HEAD);
      s.(ring := tried.(user := s.ring.user + 1),
         w := if Available(tried) >= n + HEAD then WReserved(tried.wp + HEAD, n) else WBlocked(n, |s.got|))
  }

  function Commit(s: System, m: nat): System
    requires s.w.WReserved? && 0 < m <= s.w.n && s.w.n + HEAD <= INT_MAX
  {
    if Available(s.ring) >= m + HEAD && 0 <= s.w.at <= |s.ring.buffer| - m then
      s.(ring := Committed(s.ring, m), w := WIdle, arrive := true, free := true,
         sent := s.sent + [s.ring.buffer[s.w.at..s.w.at + m]])
    else
      s.(ring := s.ring.(user := s.ring.user - 1), w := WIdle, free := true)
  }

  /** A pass of read_lock's loop. */
  function TryRead(s: System): System
    requires s.r.RIdle?
  {
    if s.ring.quit then s
    else
      var counted := s.ring.(user := s.ring.user + 1);
      if s.ring.filled == 0 then s.(r := RBlocked, ring := counted)
      else
        var p := ReadPosition(s.ring);
        s.(r := RHolding(p + HEAD, SizeWord(s.ring.buffer, p) - HEAD), ring := counted)
  }

  function Held(s: System): seq<byte> {
    if s.r.RHolding? && 0 <= s.r.at <= s.r.at + s.r.len <= |s.ring.buffer|
    then s.ring.buffer[s.r.at..s.r.at + s.r.len] else []
  }

  function Step(s: System, a: Action): System
    requires Enabled(s, a) && (s.w.WReserved? ==> s.w.n + HEAD <= INT_MAX)
  {
    match a
    case WCall(n) => s.(w := WTest(n))
    case WTry => TryReserve(WriterBack(s))
    case WWake => s.(w := WWoken(s.w.n))
    case WClear => s.(w := WCleared(s.w.n), consume := false)
    case WFill(i, b) => s.(ring := s.ring.(buffer := Splice(s.ring.buffer, s.w.at + i, [b])))
    case WCommit(m) => Commit(s, m)
    case WCancel => s.(ring := s.ring.(user := s.ring.user - 1), w := WIdle, free := true)
    case RTry => TryRead(ReaderBack(s))
    case RWake => s.(r := RWoken)
    case RClear => s.(r := RCleared, arrive := false)
    case RUnlock =>
      if HaveData(s.ring) then
        s.(ring := Consumed(s.ring).(user := s.ring.user - 1), r := RIdle, consume := true, free := true,
           got := s.got + [Held(s)])
      else s.(r := RIdle)
    case RPeek => s.(ring := s.ring.(user := s.ring.user - 1), r := RIdle)
    case RConsumeAll =>
      if s.ring.quit || !HaveData(s.ring) then s
      else s.(ring := Drained(s.ring, |Blocks(s.ring)|), consume := true, got := s.got + Blocks(s.ring))
    case KCall =>
      s.(ring := s.ring.(quit := true), arrive := true, consume := true,
         k := if s.ring.user != 0 then KBlocked else KDone)
    case KWake => s.(k := KWoken)
    case KClear => s.(k := KCleared, free := false)
    case KRelock => s.(k := if s.ring.user != 0 then KBlocked else KDone)
  }

  predicate CanRun(s: System, run: seq<Action>)
    decreases |run|
  {
    run == [] || (Enabled(s, run[0]) && Sane(s) && CanRun(Step(s, run[0]), run[1..]))
  }

  function Run(s: System, run: seq<Action>): System
    requires CanRun(s, run)
    decreases |run|
  {
    if run == [] then s else Run(Step(s, run[0]), run[1..])
  }

  /** A request never exceeds the range of the source's int. It is part of the invariant below. */
  predicate Sane(s: System) {
    s.w.WReserved? ==> s.w.n + HEAD <= INT_MAX
  }

  // ---------------------------------------------------------------------------------------
  // The invariant.

  function WriterUses(w: Writer): int {
    if w.WIdle? || w.WTest? then 0 else 1
  }

  function ReaderUses(r: Reader): int {
    if r.RIdle? then 0 else 1
  }

  predicate WriterInv(s: System) {
    match s.w
    case WIdle => true
    case WTest(n) => n + HEAD <= INT_MAX
    case WBlocked(n, seen) =>
      && n + HEAD <= |s.ring.buffer|
      // The consume bit is clear only while nothing was consumed since the failed test.
      && (!s.consume ==> !s.ring.quit && |s.got| == seen
                         && s.ring.fillEnd != 0 && Available(s.ring) < n + HEAD)
    case WWoken(n) => n + HEAD <= |s.ring.buffer|
    case WCleared(n) => n + HEAD <= |s.ring.buffer|
    case WReserved(at, n) =>
      at == s.ring.wp + HEAD && n + HEAD <= Available(s.ring) && n + HEAD <= |s.ring.buffer|
  }

  predicate ReaderInv(s: System) {
    match s.r
    case RBlocked => !s.arrive ==> !s.ring.quit && !HaveData(s.ring)
    case RHolding(at, len) =>
      HaveData(s.ring) && at == s.ring.rp + HEAD && len == SizeWord(s.ring.buffer, s.ring.rp) - HEAD
    case _ => true
  }

  predicate Inv(s: System) {
    && Valid(s.ring)
    && s.ring.user == WriterUses(s.w) + ReaderUses(s.r)
    && s.sent == s.got + Blocks(s.ring)
    && WriterInv(s) && ReaderInv(s)
    && (s.k.KIdle? <==> !s.ring.quit)
  }

  /** What the invariant says about the ring itself, with the ring's definitions out of sight. */
  lemma {:induction false} RingFacts(s: System)
    requires Inv(s)
    ensures Sane(s) && |s.ring.buffer| <= INT_MAX && 0 <= s.ring.wp <= |s.ring.buffer|
    ensures s.w.WReserved? ==> DisjointFromBlocks(s.ring, s.w.at - HEAD, s.w.n + HEAD)
    ensures s.r.RHolding? ==> Blocks(s.ring) != [] && Held(s) == Blocks(s.ring)[0]
  {
    if s.r.RHolding? {
      ConsumedIsTail(s.ring);
    }
  }

  /** The use count is no part of what the ring holds. */
  lemma UserApart(r: Ring, user: int)
    ensures Valid(r.(user := user)) == Valid(r) && Blocks(r.(user := user)) == Blocks(r)
  {
  }

  lemma BackKeepsInv(s: System)
    requires Inv(s)
    ensures Inv(WriterBack(s)) && Inv(ReaderBack(s))
    ensures Enabled(s, WTry) ==> WriterBack(s).w.WTest?
    ensures Enabled(s, RTry) ==> ReaderBack(s).r.RIdle?
  {
    hide Valid, SizeWord, Blocks;
    RingFacts(s);
    UserApart(s.ring, s.ring.user - 1);
  }

  lemma {:induction false} WrappedFacts(r: Ring, total: int, user: int)
    requires Valid(r) && 0 <= total <= |r.buffer|
    ensures var t := Wrapped(r, total).(user := user);
      && Valid(t) && Blocks(t) == Blocks(r) && t.buffer == r.buffer && t.quit == r.quit
      && (HaveData(r) <==> HaveData(t)) && (HaveData(r) ==> t.rp == r.rp)
      && (Available(t) < total ==> t.fillEnd != 0)
  {
    hide Chained, Decode, SizeWord, Blocks;
    WrappedKeepsBlocks(r, total);
    UserApart(Wrapped(r, total), user);
  }

  lemma {:induction false} TryReserveKeepsInv(s: System)
    requires Inv(s) && s.w.WTest?
    ensures Inv(TryReserve(s))
  {
    hide Valid, SizeWord, Blocks, Wrapped;
    var n := s.w.n;
    if !s.ring.quit && n + HEAD <= |s.ring.buffer| {
      WrappedFacts(s.ring, n + HEAD, s.ring.user + 1);
    }
  }

  lemma {:induction false} FillKeepsInv(s: System, i: nat, b: byte)
    requires Inv(s) && s.w.WReserved? && i < s.w.n
    ensures Inv(Step(s, WFill(i, b)))
  {
    hide Chained, Decode, SizeWord, Blocks;
    RingFacts(s);
    FillKeepsBlocks(s.ring, s.w.at + i, [b]);
    if s.r.RHolding? {
      HeldFrame(s, s.ring.(buffer := Splice(s.ring.buffer, s.w.at + i, [b])), s.w.at + i, 1);
    }
  }

  /** A change outside the queued blocks leaves the size word of the oldest one alone. */
  lemma {:induction false} HeldFrame(s: System, ring: Ring, at: int, n: nat)
    requires Valid(s.ring) && HaveData(s.ring) && |ring.buffer| == |s.ring.buffer|
    requires DisjointFromBlocks(s.ring, at, n)
    requires forall i | 0 <= i < |ring.buffer| && !(at <= i < at + n) :: ring.buffer[i] == s.ring.buffer[i]
    ensures SizeWord(ring.buffer, s.ring.rp) == SizeWord(s.ring.buffer, s.ring.rp)
  {
    hide LoadInt;
    ConsumedIsTail(s.ring);
    SizeWordFrame(s.ring.buffer, ring.buffer, s.ring.rp);
  }

  lemma {:induction false} CommitKeepsInv(s: System, m: nat)
    requires Inv(s) && s.w.WReserved? && 0 < m <= s.w.n
    ensures Sane(s) && Inv(Commit(s, m))
    ensures 0 <= s.w.at <= |s.ring.buffer| - m
    ensures Commit(s, m).sent == s.sent + [s.ring.buffer[s.w.at..s.w.at + m]]
  {
    hide Chained, Decode, SizeWord;
    RingFacts(s);
    CommittedIsAppend(s.ring, m);
    if s.r.RHolding? {
      HeldFrame(s, Committed(s.ring, m), s.ring.wp, HEAD);
    }
  }

  lemma {:induction false} TryReadKeepsInv(s: System)
    requires Inv(s) && s.r.RIdle?
    ensures Inv(TryRead(s))
  {
    hide Chained, Decode, SizeWord;
    HaveDataMeansNonempty(s.ring);
  }

  lemma {:induction false} UnlockKeepsInv(s: System)
    requires Inv(s) && s.r.RHolding?
    ensures Inv(Step(s, RUnlock))
  {
    hide Chained, Decode, SizeWord, Blocks;
    RingFacts(s);
    ConsumedIsTail(s.ring);
    ConsumedKeepsReservation(s.ring);
    UserApart(Consumed(s.ring), s.ring.user - 1);
    var b := Blocks(s.ring);
    assert b == [b[0]] + b[1..];
  }

  lemma {:induction false} DrainedKeepsReservation(r: Ring, k: nat)
    requires Valid(r) && k <= |Blocks(r)|
    ensures Drained(r, k).wp == r.wp && Available(Drained(r, k)) >= Available(r)
    ensures Drained(r, k).user == r.user && Drained(r, k).quit == r.quit
  {
    hide Valid, Blocks, SizeWord;
    if k > 0 {
      DrainedIsSuffix(r, k - 1);
      DrainedKeepsReservation(r, k - 1);
      HaveDataMeansNonempty(Drained(r, k - 1));
      ConsumedKeepsReservation(Drained(r, k - 1));
    }
  }

  lemma {:induction false} ConsumeAllKeepsInv(s: System)
    requires Inv(s) && Enabled(s, RConsumeAll)
    ensures Inv(Step(s, RConsumeAll))
  {
    hide Valid, Blocks, SizeWord;
    RingFacts(s);
    DrainedIsSuffix(s.ring, |Blocks(s.ring)|);
    DrainedKeepsReservation(s.ring, |Blocks(s.ring)|);
  }

  /** The steps that leave the ring's offsets and bytes alone. */
  lemma {:induction false} LightStepKeepsInv(s: System, a: Action)
    requires Inv(s) && Sane(s) && Enabled(s, a)
    requires a.WCall? || a.WWake? || a.WClear? || a.WCancel? || a.RWake? || a.RClear? || a.RPeek?
          || a.KCall? || a.KWake? || a.KClear? || a.KRelock?
    ensures Inv(Step(s, a))
  {
    hide Chained, Decode, SizeWord, TryReserve, Commit, TryRead, Consumed;
  }

  /** Every step of every thread keeps the invariant. */
  lemma {:induction false} StepKeepsInv(s: System, a: Action)
    requires Inv(s) && Enabled(s, a)
    ensures Sane(s) && Inv(Step(s, a))
  {
    hide Inv, TryReserve, Commit, TryRead, Valid, Blocks, WriterBack, ReaderBack;
    RingFacts(s);
    match a
    case WTry =>
      BackKeepsInv(s);
      TryReserveKeepsInv(WriterBack(s));
    case WFill(i, b) => FillKeepsInv(s, i, b);
    case WCommit(m) => CommitKeepsInv(s, m);
    case RTry =>
      BackKeepsInv(s);
      TryReadKeepsInv(ReaderBack(s));
    case RUnlock => UnlockKeepsInv(s);
    case RConsumeAll => ConsumeAllKeepsInv(s);
    case _ => LightStepKeepsInv(s, a);
  }

  lemma {:induction false} RunKeepsInv(s: System, run: seq<Action>)
    requires Inv(s) && CanRun(s, run)
    ensures Inv(Run(s, run))
    decreases |run|
  {
    hide Inv, Step;
    if run != [] {
      StepKeepsInv(s, run[0]);
      RunKeepsInv(Step(s, run[0]), run[1..]);
    }
  }

  lemma InitInv(buffer: seq<byte>)
    requires |buffer| <= INT_MAX
    ensures Inv(Init(buffer))
  {
  }

  // ---------------------------------------------------------------------------------------
  // Whole-run results, for every buffer content, every size and every interleaving.

  /** The state s is reached by some legal run on a queue freshly made over `buffer`. */
  ghost predicate Reachable(s: System) {
    exists buffer: seq<byte>, run: seq<Action> ::
      |buffer| <= INT_MAX && CanRun(Init(buffer), run) && Run(Init(buffer), run) == s
  }

  lemma {:induction false} ReachableInv(s: System)
    requires Reachable(s)
    ensures Inv(s)
  {
    hide Inv, Step;
    var buffer: seq<byte>, run: seq<Action> :|
      |buffer| <= INT_MAX && CanRun(Init(buffer), run) && Run(Init(buffer), run) == s;
    InitInv(buffer);
    RunKeepsInv(Init(buffer), run);
  }

  /**
   * First in, first out, exactly once: what has been consumed is what was committed first, the rest
   * is what the buffer holds, and a locked reader is looking at the next payload in line.
   */
  lemma {:induction false} Fifo(s: System)
    requires Reachable(s)
    ensures s.sent == s.got + Blocks(s.ring)
    ensures s.r.RHolding? ==> |s.got| < |s.sent| && Held(s) == s.sent[|s.got|]
    ensures s.ring.filled != 0 <==> |s.got| < |s.sent|
    ensures HaveData(s.ring) ==> ReadPosition(s.ring) == s.ring.rp
  {
    hide Valid, Blocks;
    ReachableInv(s);
    RingFacts(s);
    HaveDataMeansNonempty(s.ring);
  }

  /** There is room in one piece for a request of n bytes: from wp on or, before a wrap, from the start. */
  predicate RoomFor(r: Ring, n: nat) {
    FreeAt(r, r.wp, n + HEAD) || (r.fillEnd == 0 && FreeAt(r, 0, n + HEAD))
  }

  /**
   * What each test of a request decides, in every reachable state: it is granted exactly if there is
   * room for it among the bytes that no queued block takes up, and the place granted is the first such
   * room; otherwise the writer goes to sleep. In neither case does it touch what is queued.
   */
  lemma {:induction false} TestDecides(s: System)
    requires Reachable(s) && Enabled(s, WTry) && !s.ring.quit && s.w.n + HEAD <= |s.ring.buffer|
    ensures Sane(s)
    ensures Step(s, WTry).w.WReserved? <==> RoomFor(s.ring, s.w.n)
    ensures Step(s, WTry).w.WReserved? ==>
      Step(s, WTry).w.at == HEAD + if FreeAt(s.ring, s.ring.wp, s.w.n + HEAD) then s.ring.wp else 0
    ensures !Step(s, WTry).w.WReserved? ==> Step(s, WTry).w == WBlocked(s.w.n, |s.got|)
    ensures Blocks(Step(s, WTry).ring) == Blocks(s.ring)
  {
    hide Inv, WriterBack, TryReserve, FreeAt, Blocks;
    ReachableInv(s);
    RingFacts(s);
    BackKeepsInv(s);
    BackRing(s);
    TryDecides(WriterBack(s));
    FreeAtApart(s.ring, WriterBack(s).ring.user);
  }

  lemma BackRing(s: System)
    requires Inv(s) && Enabled(s, WTry)
    ensures var t := WriterBack(s);
      && t.ring == s.ring.(user := t.ring.user) && Blocks(t.ring) == Blocks(s.ring) && t.w == WTest(s.w.n)
      && t.got == s.got
  {
    hide Valid, Blocks;
    UserApart(s.ring, s.ring.user - 1);
  }

  lemma TryDecides(t: System)
    requires Inv(t) && t.w.WTest? && !t.ring.quit && t.w.n + HEAD <= |t.ring.buffer|
    ensures var u := TryReserve(t);
      && (u.w.WReserved? <==> RoomFor(t.ring, t.w.n))
      && (u.w.WReserved? ==> u.w.at == HEAD + if FreeAt(t.ring, t.ring.wp, t.w.n + HEAD) then t.ring.wp else 0)
      && (!u.w.WReserved? ==> u.w == WBlocked(t.w.n, |t.got|)) && Blocks(u.ring) == Blocks(t.ring)
  {
    hide Valid, Blocks, Wrapped, FreeAt;
    GrantsExactly(t.ring, t.w.n + HEAD);
    WrappedFacts(t.ring, t.w.n + HEAD, t.ring.user + 1);
  }

  lemma FreeAtApart(r: Ring, user: int)
    ensures forall at, total :: FreeAt(r.(user := user), at, total) == FreeAt(r, at, total)
  {
    hide TakenUp, SizeWord;
    assert forall k :: Free(r.(user := user), k) == Free(r, k);
  }

  /** However many reads come between, a reservation stays clear of unread data and can be committed. */
  lemma {:induction false} ReservationHolds(s: System, m: nat)
    requires Reachable(s) && s.w.WReserved? && 0 < m <= s.w.n
    ensures DisjointFromBlocks(s.ring, s.w.at - HEAD, s.w.n + HEAD)
    ensures s.w.at == s.ring.wp + HEAD && 0 <= s.w.at <= |s.ring.buffer| - m
    ensures Sane(s) && Step(s, WCommit(m)).sent == s.sent + [s.ring.buffer[s.w.at..s.w.at + m]]
  {
    hide Valid, Blocks, Commit;
    ReachableInv(s);
    RingFacts(s);
    CommitKeepsInv(s, m);
  }

  /**
   * No lost wake-up. A writer asleep with its bit clear has missed no consumption and still has no
   * room; a reader asleep with its bit clear has missed no data; so the two never sleep together.
   */
  lemma {:induction false} NoLostWakeup(s: System)
    requires Reachable(s)
    ensures s.w.WBlocked? && !s.consume ==>
      && |s.got| == s.w.seen && !Grants(s.ring, s.w.n + HEAD) && Blocks(s.ring) != [] && !s.ring.quit
    ensures s.r.RBlocked? && !s.arrive ==> Blocks(s.ring) == [] && s.got == s.sent && !s.ring.quit
    ensures !(s.w.WBlocked? && !s.consume && s.r.RBlocked? && !s.arrive)
  {
    hide Valid, Blocks;
    ReachableInv(s);
    HaveDataMeansNonempty(s.ring);
  }

  predicate Waiting(w: Writer) {
    w.WTest? || w.WBlocked? || w.WWoken? || w.WCleared?
  }

  /** The writer's request stays unserved throughout the run. */
  predicate StaysWaiting(s: System, run: seq<Action>)
    requires CanRun(s, run)
    decreases |run|
  {
    Waiting(s.w) && (run == [] || StaysWaiting(Step(s, run[0]), run[1..]))
  }

  lemma {:induction false} WaitingCommitsNothing(s: System, run: seq<Action>)
    requires Inv(s) && CanRun(s, run) && StaysWaiting(s, run)
    ensures Run(s, run).sent == s.sent && Waiting(Run(s, run).w)
    ensures Run(s, run).w.n == s.w.n && |Run(s, run).ring.buffer| == |s.ring.buffer|
    decreases |run|
  {
    if run != [] {
      StepKeepsInv(s, run[0]);
      hide Inv, Valid, Blocks, SizeWord;
      WaitingStep(s, run[0]);
      WaitingCommitsNothing(Step(s, run[0]), run[1..]);
    }
  }

  lemma TryFacts(s: System)
    ensures var t := WriterBack(s); t.sent == s.sent && t.got == s.got && |t.ring.buffer| == |s.ring.buffer|
    ensures var t := ReaderBack(s); t.sent == s.sent && t.w == s.w && |t.ring.buffer| == |s.ring.buffer|
    ensures Enabled(s, WTry) ==> WriterBack(s).w == WTest(s.w.n)
    ensures Enabled(s, RTry) ==> ReaderBack(s).r == RIdle
    ensures Consumed(s.ring).buffer == s.ring.buffer
    ensures s.w.WTest? ==> var t := TryReserve(s);
      && t.sent == s.sent && (Waiting(t.w) ==> t.w.n == s.w.n) && |t.ring.buffer| == |s.ring.buffer|
    ensures s.r.RIdle? ==> var t := TryRead(s);
      && t.sent == s.sent && t.w == s.w && |t.ring.buffer| == |s.ring.buffer|
  {
    hide SizeWord, Available, ReadPosition;
  }

  lemma {:induction false} WaitingStep(s: System, a: Action)
    requires Valid(s.ring) && Enabled(s, a) && Sane(s) && Waiting(s.w) && Waiting(Step(s, a).w)
    ensures Step(s, a).sent == s.sent && Step(s, a).w.n == s.w.n
    ensures |Step(s, a).ring.buffer| == |s.ring.buffer|
  {
    hide Valid, Blocks, SizeWord, HaveData, Drained, Consumed, TryReserve, TryRead, Commit, WriterBack, ReaderBack;
    if a == WTry {
      TryFacts(s);
      TryFacts(WriterBack(s));
    } else if a == RTry {
      TryFacts(s);
      TryFacts(ReaderBack(s));
    } else if a == RConsumeAll {
      DrainedIsSuffix(s.ring, |Blocks(s.ring)|);
    } else {
      WaitingRest(s, a);
    }
  }

  lemma WaitingRest(s: System, a: Action)
    requires Enabled(s, a) && Sane(s) && Waiting(s.w) && a != WTry && a != RTry && a != RConsumeAll
    ensures Step(s, a).sent == s.sent && Step(s, a).w.n == s.w.n
    ensures |Step(s, a).ring.buffer| == |s.ring.buffer|
  {
    hide Valid, Blocks, SizeWord, HaveData, Drained, TryReserve, TryRead, Commit, WriterBack, ReaderBack;
  }

  /**
   * Eventual service. While one request waits, at most the blocks queued at its start are consumed;
   * once they are, the writer is never asleep with its bit clear, and its next test succeeds
   * unless the queue is being shut down.
   */
  lemma {:induction false} EventualService(s: System, run: seq<Action>)
    requires Reachable(s) && CanRun(s, run) && StaysWaiting(s, run) && s.w.n + HEAD <= |s.ring.buffer|
    ensures var t := Run(s, run);
      && |s.got| <= |t.got| <= |s.got| + |Blocks(s.ring)|
      && (|t.got| == |s.got| + |Blocks(s.ring)| ==>
            && !(t.w.WBlocked? && !t.consume)
            && (Enabled(t, WTry) && !t.ring.quit ==> Step(t, WTry).w.WReserved?))
  {
    hide Chained, Decode, SizeWord;
    ReachableInv(s);
    RunKeepsInv(s, run);
    WaitingCommitsNothing(s, run);
    GotGrows(s, run);
    var t := Run(s, run);
    HaveDataMeansNonempty(t.ring);
    if |t.got| == |s.got| + |Blocks(s.ring)| {
      assert Blocks(t.ring) == [];
      EmptyServesAll(t.ring, s.w.n + HEAD);
    }
  }

  lemma GotStep(s: System, a: Action)
    requires Enabled(s, a) && Sane(s)
    ensures |s.got| <= |Step(s, a).got|
  {
    hide Valid, Blocks, SizeWord, Consumed, Drained, HaveData, Wrapped, Committed, Available, ReadPosition;
  }

  lemma {:induction false} GotGrows(s: System, run: seq<Action>)
    requires CanRun(s, run)
    ensures |s.got| <= |Run(s, run).got|
    decreases |run|
  {
    hide Step;
    if run != [] {
      GotStep(s, run[0]);
      GotGrows(Step(s, run[0]), run[1..]);
    }
  }

  // ---------------------------------------------------------------------------------------
  // data_queue_wakeup waits until nobody uses the queue. peek_unlock gives up its use without
  // signalling that, so the waker can sleep through the last departure.

  predicate Stranded(s: System) {
    s.k.KBlocked? && !s.free && s.ring.user == 0
  }

  /** Nobody can wake it any more. */
  lemma {:induction false} StrandedForever(s: System, run: seq<Action>)
    requires Inv(s) && Stranded(s) && CanRun(s, run)
    ensures Stranded(Run(s, run))
    decreases |run|
  {
    hide Valid, Blocks, SizeWord, LoadInt;
    if run != [] {
      StepKeepsInv(s, run[0]);
      StrandedForever(Step(s, run[0]), run[1..]);
    }
  }

  predicate Signalled(s: System) {
    s.k.KBlocked? && !s.free ==> s.ring.user != 0
  }

  lemma {:induction false} SignalledWithoutPeek(s: System, run: seq<Action>)
    requires Inv(s) && Signalled(s) && CanRun(s, run) && RPeek !in run
    ensures Signalled(Run(s, run))
    decreases |run|
  {
    if run != [] {
      StepKeepsInv(s, run[0]);
      SignalledStep(s, run[0]);
      hide Inv, Step;
      SignalledWithoutPeek(Step(s, run[0]), run[1..]);
    }
  }

  lemma {:induction false} SignalledStep(s: System, a: Action)
    requires Inv(s) && Signalled(s) && Enabled(s, a) && Sane(s) && a != RPeek
    ensures Signalled(Step(s, a))
  {
    hide Valid, Blocks, SizeWord, LoadInt;
    if a == RConsumeAll {
      DrainedKeepsReservation(s.ring, |Blocks(s.ring)|);
    }
  }

  lemma {:induction false} Extend(s: System, run: seq<Action>, a: Action)
    requires CanRun(s, run) && Sane(Run(s, run)) && Enabled(Run(s, run), a)
    ensures CanRun(s, run + [a]) && Run(s, run + [a]) == Step(Run(s, run), a)
    decreases |run|
  {
    hide Step, Enabled;
    if run == [] {
      assert [a][1..] == [];
      assert run + [a] == [a];
    } else {
      assert (run + [a])[1..] == run[1..] + [a];
      Extend(Step(s, run[0]), run[1..], a);
    }
  }

  /** One block committed and locked ... */
  lemma {:induction false} LockOneBlock(buffer: seq<byte>) returns (run: seq<Action>)
    requires HEAD < |buffer| <= INT_MAX
    ensures CanRun(Init(buffer), run)
    ensures var t := Run(Init(buffer), run);
      t.r.RHolding? && t.w.WIdle? && t.k.KIdle? && t.ring.user == 1
  {
    hide Valid, Blocks, SizeWord, LoadInt, Splice;
    var s := Init(buffer);
    Extend(s, [], WCall(1));
    run := [] + [WCall(1)];
    assert Run(s, run) == s.(w := WTest(1));
    Extend(s, run, WTry);
    run := run + [WTry];
    assert Run(s, run) == s.(w := WReserved(HEAD, 1), ring := s.ring.(user := 1));
    Extend(s, run, WCommit(1));
    run := run + [WCommit(1)];
    assert Run(s, run).w.WIdle? && Run(s, run).ring.filled == 1 + HEAD && Run(s, run).ring.user == 0;
    Extend(s, run, RTry);
    run := run + [RTry];
  }

  /** ... then a wake-up that finds it in use ... */
  lemma {:induction false} WakeWhileLocked(s: System, run0: seq<Action>) returns (run: seq<Action>)
    requires CanRun(s, run0)
    requires var t := Run(s, run0); t.r.RHolding? && t.w.WIdle? && t.k.KIdle? && t.ring.user == 1
    ensures CanRun(s, run)
    ensures var t := Run(s, run); t.r.RHolding? && t.w.WIdle? && t.k.KBlocked? && !t.free && t.ring.user == 1
  {
    hide Valid, Blocks, SizeWord, LoadInt, Splice;
    Extend(s, run0, KCall);
    run := run0 + [KCall];
    if Run(s, run).free {
      Extend(s, run, KWake);
      run := run + [KWake];
      Extend(s, run, KClear);
      run := run + [KClear];
      Extend(s, run, KRelock);
      run := run + [KRelock];
    }
  }

  /** ... and a peek: the waker is left asleep. */
  lemma {:induction false} PeekStrands(buffer: seq<byte>) returns (run: seq<Action>)
    requires HEAD < |buffer| <= INT_MAX
    ensures CanRun(Init(buffer), run) && Stranded(Run(Init(buffer), run))
  {
    hide Valid, Blocks, SizeWord, LoadInt, Splice;
    run := LockOneBlock(buffer);
    run := WakeWhileLocked(Init(buffer), run);
    Extend(Init(buffer), run, RPeek);
    run := run + [RPeek];
  }

  /** A wake-up cannot be lost exactly when no read lock is given up by a peek. */
  lemma {:induction false} WakeupLostOnlyByPeek(buffer: seq<byte>, peeks: bool)
    requires HEAD < |buffer| <= INT_MAX
    ensures (forall run | CanRun(Init(buffer), run) && (peeks || RPeek !in run) ::
      !Stranded(Run(Init(buffer), run))) <==> !peeks
  {
    hide Valid, Step;
    InitInv(buffer);
    if peeks {
      var run := PeekStrands(buffer);
    } else {
      forall run | CanRun(Init(buffer), run) && RPeek !in run
        ensures !Stranded(Run(Init(buffer), run))
      {
        SignalledWithoutPeek(Init(buffer), run);
      }
    }
  }
}
