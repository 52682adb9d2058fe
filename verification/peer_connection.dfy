// The PAUSED / RESUME / EXIT handshake of components/esp_webrtc/src/esp_webrtc.c between one
// controller (signalling callbacks and API calls, which run one at a time) and pc_task.
//
// Each step is one read or write of a shared field or event bit. WAIT_FOR_BITS is two steps: the
// wait returning, and the clear that follows. esp_peer_main_loop is a single opaque step TMain.
module PeerConnection {

  /** pc_task's program counter; TNone when no task exists. */
  datatype Task = TNone | TLoop | TPause | TMain | TSetPaused | TWait | TClear | TExit

  /** The controller's program counter. `still` is pc_close's local still_running. */
  datatype Control =
    | Idle
    | ByePause | ByeWait | ByeClear | ByeQuiet | ByeConnect
    | EnableTail
    | Unpause | SetResume
    | Close0 | Close1(still: bool) | CloseSetResume(still: bool) | CloseStop(still: bool)
    | CloseWait | CloseClear | ClosePeer | CloseGroup

  /** How pc_start ends when there is no peer yet. Its thread creation is not checked. */
  datatype StartOutcome = OpenFailed | NoEventGroup | NoThread | Started

  datatype Op =
    | Bye
    | IceReceived(o: StartOutcome)
    | Enable(iceLoaded: bool, signalling: bool, o: StartOutcome)
    | Disable
    | Stop

  datatype Action = Call(op: Op) | ControlStep | TaskStep

  /**
   * webrtc_t: pc and group stand for pc != NULL and wait_event != NULL. `autoReconnect` is the
   * configuration; `orphan` and `lost` record that the last start left a peer without an event
   * group, or set running without a thread.
   */
  datatype State = State(
    pc: bool, group: bool, running: bool, pause: bool, pendingConnect: bool,
    paused: bool, resume: bool, exit: bool,
    ctl: Control, task: Task, autoReconnect: bool, orphan: bool, lost: bool)

  function Init(autoReconnect: bool): State {
    State(false, false, false, false, false, false, false, false, Idle, TNone, autoReconnect, false, false)
  }

  // ---------------------------------------------------------------------------------------
  // The steps.

  /** pc_start; a peer that exists already only gets its ICE servers updated. */
  function PcStart(s: State, o: StartOutcome): State {
    if s.pc then s
    else match o
      case OpenFailed => s
      case NoEventGroup => s.(pc := true, orphan := true)
      case NoThread => s.(pc := true, group := true, paused := false, resume := false, exit := false,
                          running := true, lost := true)
      case Started => s.(pc := true, group := true, paused := false, resume := false, exit := false,
                         running := true, task := TLoop)
  }

  function CallOp(s: State, op: Op): State {
    match op
    case Bye => if s.running then s.(ctl := ByePause) else s
    case IceReceived(o) => if s.pendingConnect then s else PcStart(s, o)
    case Enable(iceLoaded, signalling, o) =>
      var s := s.(pendingConnect := false);
      if s.pc then (if signalling then s.(ctl := EnableTail) else s)
      else if !iceLoaded then s
      else
        var t := PcStart(s, o);
        if signalling && (o == NoThread || o == Started) then t.(ctl := EnableTail) else t
    case Disable => s.(pendingConnect := true, ctl := Close0)
    case Stop => s.(ctl := Close0)
  }

  predicate ControlBlocked(s: State) {
    (s.ctl == ByeWait && !s.paused) || (s.ctl == CloseWait && !s.exit)
  }

  predicate Closing(s: State) {
    || s.ctl.Close0? || s.ctl.Close1? || s.ctl.CloseSetResume? || s.ctl.CloseStop?
    || s.ctl.CloseWait? || s.ctl.CloseClear? || s.ctl.ClosePeer? || s.ctl.CloseGroup?
  }

  function ControlNext(s: State): State {
    if ControlBlocked(s) then s else if Closing(s) then CloseNext(s) else ByeNext(s)
  }

  /** The BYE handler, and the resuming tail it shares with esp_webrtc_enable_peer_connection. */
  function ByeNext(s: State): State {
    match s.ctl
    case ByePause => if s.pause then s.(ctl := ByeQuiet) else s.(pause := true, ctl := ByeWait)
    case ByeWait => s.(ctl := ByeClear)
    case ByeClear => s.(paused := false, ctl := ByeQuiet)
    // esp_peer_disconnect and stop_stream
    case ByeQuiet => s.(ctl := if s.autoReconnect then ByeConnect else Idle)
    // esp_peer_new_connection
    case ByeConnect => s.(ctl := if s.pause then Unpause else Idle)
    case EnableTail => s.(ctl := if s.pause then Unpause else Idle)
    case Unpause => s.(pause := false, ctl := SetResume)
    case SetResume => s.(resume := true, ctl := Idle)
    case _ => s
  }

  /** pc_close */
  function CloseNext(s: State): State {
    match s.ctl
    case Close0 => s.(ctl := if s.pc then Close1(s.running) else CloseGroup)
    case Close1(still) =>
      if s.pause then s.(pause := false, ctl := CloseSetResume(still)) else s.(ctl := CloseStop(still))
    case CloseSetResume(still) => s.(resume := true, ctl := CloseStop(still))
    case CloseStop(still) => s.(running := false, ctl := if still then CloseWait else ClosePeer)
    case CloseWait => s.(ctl := CloseClear)
    case CloseClear => s.(exit := false, ctl := ClosePeer)
    case ClosePeer => s.(pc := false, orphan := false, ctl := CloseGroup)
    case CloseGroup => s.(group := false, paused := false, resume := false, exit := false, ctl := Idle)
    case _ => s
  }

  function TaskNext(s: State): State {
    match s.task
    case TNone => s
    case TLoop => s.(task := if s.running then TPause else TExit)
    case TPause => s.(task := if s.pause then TSetPaused else TMain)
    case TMain => s.(task := TLoop)
    case TSetPaused => s.(paused := true, task := TWait)
    case TWait => if s.resume then s.(task := TClear) else s
    case TClear => s.(resume := false, task := TLoop)
    case TExit => s.(exit := true, task := TNone)
  }

  predicate Enabled(s: State, a: Action) {
    a.Call? ==> s.ctl == Idle
  }

  function Next(s: State, a: Action): State {
    match a
    case Call(op) => CallOp(s, op)
    case ControlStep => ControlNext(s)
    case TaskStep => TaskNext(s)
  }

  predicate CanRun(s: State, run: seq<Action>)
    decreases |run|
  {
    run == [] || (Enabled(s, run[0]) && CanRun(Next(s, run[0]), run[1..]))
  }

  function Run(s: State, run: seq<Action>): State
    decreases |run|
  {
    if run == [] then s else Run(Next(s, run[0]), run[1..])
  }

  // ---------------------------------------------------------------------------------------
  // The invariant.

  /** pc_task sits in its wait for RESUME, with nothing to wake it. */
  predicate Parked(s: State) {
    s.task == TWait && !s.resume && !s.paused && !s.exit && s.running && !s.lost
  }

  /** pc_task runs freely; a RESUME bit that is set is one it is about to take. */
  predicate Roaming(s: State) {
    && !s.paused
    && (s.task == TWait || s.task == TClear <==> s.resume)
    && s.task != TSetPaused
    && (s.task == TNone <==> !s.running || s.lost)
    && s.task != TExit && !s.exit
  }

  predicate Settled(s: State) {
    if s.pause then Parked(s) else Roaming(s)
  }

  predicate Inv(s: State) {
    && (s.group ==> s.pc || s.ctl == CloseGroup)
    && (s.running ==> s.pc && s.group)
    && (s.pause ==> s.running)
    && (s.task != TNone ==> s.pc && s.group)
    && (s.orphan ==> s.pc && !s.group)
    && (s.lost ==> s.pc && s.group && s.task == TNone)
    && match s.ctl
       case Idle => Settled(s) && (s.group <==> s.running) && (s.pc <==> s.running || s.orphan)
       case EnableTail => Settled(s) && s.running == s.group && s.pc == (s.running || s.orphan)
       case ByePause => Settled(s) && s.running && !s.orphan
       case ByeWait =>
         && s.pause && !s.exit && !s.orphan
         && (s.paused ==> s.task == TWait && !s.resume && !s.lost)
         && (!s.paused ==> (s.task == TWait || s.task == TClear <==> s.resume))
         && s.task != TExit && (s.task == TNone <==> s.lost)
       case ByeClear => s.pause && s.paused && !s.exit && s.task == TWait && !s.resume && !s.lost && !s.orphan
       case ByeQuiet => s.pause && Parked(s) && !s.orphan
       case ByeConnect => s.pause && Parked(s) && !s.orphan
       case Unpause => s.pause && Parked(s) && !s.orphan
       case SetResume => !s.pause && Parked(s) && !s.orphan
       case Close0 => Settled(s) && s.running == s.group && s.pc == (s.running || s.orphan)
       case Close1(still) => s.pc && still == s.running && s.running == s.group && Settled(s)
       case CloseSetResume(still) => s.pc && still && !s.pause && Parked(s)
       case CloseStop(still) => s.pc && still == s.running && s.running == s.group && !s.pause && Roaming(s)
       case CloseWait =>
         && s.pc && s.group && !s.running && !s.pause && !s.paused
         && (s.task == TWait || s.task == TClear <==> s.resume)
         && s.task != TSetPaused && (s.task == TNone <==> s.exit || s.lost) && !(s.exit && s.lost)
       case CloseClear =>
        s.pc && s.group && !s.running && s.task == TNone && s.exit && !s.lost && !s.resume && !s.paused
       case ClosePeer => s.pc && !s.running && s.task == TNone && !s.exit && !s.resume && !s.paused && !s.lost
       case CloseGroup => !s.pc && !s.running && s.task == TNone && !s.orphan && !s.lost
  }

  /** Controller steps left. */
  function Rank(c: Control): nat {
    match c
    case Idle => 0
    case SetResume => 1
    case Unpause => 2
    case EnableTail => 3
    case ByeConnect => 3
    case ByeQuiet => 4
    case ByeClear => 5
    case ByeWait => 6
    case ByePause => 7
    case CloseGroup => 1
    case ClosePeer => 2
    case CloseClear => 3
    case CloseWait => 4
    case CloseStop(_) => 5
    case CloseSetResume(_) => 6
    case Close1(_) => 7
    case Close0 => 8
  }

  lemma StartKeepsInv(s: State, o: StartOutcome)
    requires Inv(s) && s.ctl == Idle
    ensures Inv(PcStart(s, o))
    ensures PcStart(s, o).ctl == Idle
    ensures (o == NoThread || o == Started) && !s.pc ==> PcStart(s, o).running
  {
  }

  lemma CallKeepsInv(s: State, op: Op)
    requires Inv(s) && s.ctl == Idle
    ensures Inv(CallOp(s, op))
  {
    hide PcStart;
    match op
    case IceReceived(o) => StartKeepsInv(s, o);
    case Enable(iceLoaded, signalling, o) =>
      hide Inv;
      var p := s.(pendingConnect := false);
      PendingApart(s, false);
      StartKeepsInv(p, o);
      TailKeepsInv(p);
      TailKeepsInv(PcStart(p, o));
    case _ =>
  }

  lemma PendingApart(s: State, pending: bool)
    requires Inv(s)
    ensures Inv(s.(pendingConnect := pending))
  {
  }

  lemma TailKeepsInv(s: State)
    requires Inv(s) && s.ctl == Idle
    ensures Inv(s.(ctl := EnableTail))
  {
  }

  lemma ByeKeepsInv(s: State)
    requires Inv(s) && !Closing(s) && !ControlBlocked(s)
    ensures Inv(ByeNext(s)) && ByeNext(s).lost == s.lost
    ensures s.ctl != Idle ==> Rank(ByeNext(s).ctl) < Rank(s.ctl)
  {
  }

  lemma CloseBeginsKeepsInv(s: State)
    requires Inv(s) && (s.ctl.Close0? || s.ctl.Close1? || s.ctl.CloseSetResume? || s.ctl.CloseStop?)
    ensures Inv(CloseNext(s)) && CloseNext(s).lost == s.lost
    ensures Rank(CloseNext(s).ctl) < Rank(s.ctl)
  {
  }

  lemma CloseEndsKeepsInv(s: State)
    requires Inv(s) && !ControlBlocked(s)
    requires s.ctl.CloseWait? || s.ctl.CloseClear? || s.ctl.ClosePeer? || s.ctl.CloseGroup?
    ensures Inv(CloseNext(s)) && CloseNext(s).lost == s.lost
    ensures Rank(CloseNext(s).ctl) < Rank(s.ctl)
  {
  }

  lemma ControlKeepsInv(s: State)
    requires Inv(s)
    ensures Inv(ControlNext(s)) && ControlNext(s).lost == s.lost
    ensures !ControlBlocked(s) && s.ctl != Idle ==> Rank(ControlNext(s).ctl) < Rank(s.ctl)
  {
    hide Inv, ByeNext, CloseNext, Rank;
    if !ControlBlocked(s) {
      if s.ctl.Close0? || s.ctl.Close1? || s.ctl.CloseSetResume? || s.ctl.CloseStop? {
        CloseBeginsKeepsInv(s);
      } else if Closing(s) {
        CloseEndsKeepsInv(s);
      } else {
        ByeKeepsInv(s);
      }
    }
  }

  lemma TaskRoundKeepsInv(s: State)
    requires Inv(s) && (s.task == TLoop || s.task == TPause || s.task == TMain || s.task == TNone)
    ensures Inv(TaskNext(s))
  {
  }

  lemma TaskSignalKeepsInv(s: State)
    requires Inv(s) && (s.task == TSetPaused || s.task == TWait || s.task == TClear || s.task == TExit)
    ensures Inv(TaskNext(s))
  {
  }

  lemma TaskKeepsInv(s: State)
    requires Inv(s)
    ensures Inv(TaskNext(s))
  {
    hide Inv, TaskNext;
    match s.task
    case TSetPaused => TaskSignalKeepsInv(s);
    case TWait => TaskSignalKeepsInv(s);
    case TClear => TaskSignalKeepsInv(s);
    case TExit => TaskSignalKeepsInv(s);
    case _ => TaskRoundKeepsInv(s);
  }

  /** Every step of the controller and of pc_task keeps it. */
  lemma NextKeepsInv(s: State, a: Action)
    requires Inv(s) && Enabled(s, a)
    ensures Inv(Next(s, a))
  {
    hide Inv, CallOp, ControlNext, TaskNext;
    match a
    case Call(op) => CallKeepsInv(s, op);
    case ControlStep => ControlKeepsInv(s);
    case TaskStep => TaskKeepsInv(s);
  }

  lemma {:induction false} RunKeepsInv(s: State, run: seq<Action>)
    requires Inv(s) && CanRun(s, run)
    ensures Inv(Run(s, run))
    decreases |run|
  {
    hide Inv, Next;
    if run != [] {
      NextKeepsInv(s, run[0]);
      RunKeepsInv(Next(s, run[0]), run[1..]);
    }
  }

  // ---------------------------------------------------------------------------------------
  // Safety, over every run.

  ghost predicate Reachable(s: State) {
    exists auto: bool, run: seq<Action> :: CanRun(Init(auto), run) && Run(Init(auto), run) == s
  }

  lemma {:induction false} ReachableInv(s: State)
    requires Reachable(s)
    ensures Inv(s)
  {
    var auto: bool, run: seq<Action> :| CanRun(Init(auto), run) && Run(Init(auto), run) == s;
    RunKeepsInv(Init(auto), run);
  }

  /** Pause is in force: set, and no longer waiting for pc_task to acknowledge it. */
  predicate Held(s: State) {
    s.pause && s.ctl != ByeWait
  }

  /** While pause is in force pc_task is in its wait for RESUME, so it is not in the main loop. */
  lemma PauseExcludesMainLoop(s: State)
    requires Reachable(s) && Held(s)
    ensures s.task == TWait && !s.resume && TaskNext(s) == s
  {
    ReachableInv(s);
  }

  predicate StaysHeld(s: State, run: seq<Action>)
    decreases |run|
  {
    Held(s) && (run == [] || StaysHeld(Next(s, run[0]), run[1..]))
  }

  function WithoutTask(run: seq<Action>): seq<Action> {
    if run == [] then []
    else (if run[0] == TaskStep then [] else [run[0]]) + WithoutTask(run[1..])
  }

  /** Over a whole stretch of time with pause in force, pc_task might as well not exist. */
  lemma {:induction false} HeldTaskDoesNothing(s: State, run: seq<Action>)
    requires Inv(s) && CanRun(s, run) && StaysHeld(s, run)
    ensures Run(s, run) == Run(s, WithoutTask(run))
    decreases |run|
  {
    hide Next, Enabled;
    if run != [] {
      NextKeepsInv(s, run[0]);
      HeldTaskDoesNothing(Next(s, run[0]), run[1..]);
      if run[0] == TaskStep {
        assert TaskNext(s) == s && Next(s, TaskStep) == TaskNext(s) by { HeldTaskStep(s); }
        assert WithoutTask(run) == WithoutTask(run[1..]);
      } else {
        assert WithoutTask(run) == [run[0]] + WithoutTask(run[1..]);
      }
    }
  }

  lemma HeldTaskStep(s: State)
    requires Inv(s) && Held(s)
    ensures TaskNext(s) == s && Next(s, TaskStep) == s
  {
  }

  /**
   * No bit is stale. PAUSED is clear when a pause cycle begins; RESUME, if set then, belongs to a
   * pc_task still leaving the previous cycle, and it is gone before pc_task can acknowledge again.
   */
  lemma NoStaleBits(s: State)
    requires Reachable(s)
    ensures s.ctl == ByePause ==> !s.paused && !s.exit && (s.resume ==> s.task == TWait || s.task == TClear)
    ensures s.task == TSetPaused ==> !s.paused && !s.resume
    ensures s.ctl == SetResume || s.ctl.CloseSetResume? ==> !s.resume && s.task == TWait
    ensures s.task == TExit ==> !s.exit
  {
    ReachableInv(s);
  }

  /** The main loop only ever runs on an open peer, and no event bit is touched without a group. */
  lemma NothingDangles(s: State)
    requires Reachable(s)
    ensures s.task == TMain ==> s.pc
    ensures s.task != TNone ==> s.group
    ensures s.ctl in {ByeWait, ByeClear, SetResume, CloseWait, CloseClear} || s.ctl.CloseSetResume? ==> s.group
  {
    ReachableInv(s);
  }

  /**
   * Between operations the three fields agree, exactly unless a start was left without its event
   * group; without a peer there is no pause.
   */
  lemma FieldsAgree(s: State)
    requires Reachable(s) && s.ctl == Idle
    ensures s.running <==> s.group
    ensures (s.pc <==> s.running) <==> !s.orphan
    ensures s.pause ==> s.pc
    ensures s.task != TNone ==> s.running
  {
    ReachableInv(s);
  }

  // ---------------------------------------------------------------------------------------
  // Progress: a schedule says at each instant who may step, true for the controller.

  ghost predicate Later(sched: nat -> bool, n: nat, who: bool) {
    exists m: nat :: m >= n && sched(m) == who
  }

  ghost predicate Fair(sched: nat -> bool) {
    forall n: nat, who: bool :: Later(sched, n, who)
  }

  function Tick(s: State, who: bool): State {
    if who then ControlNext(s) else TaskNext(s)
  }

  /** The state k instants after instant n. */
  function At(s: State, sched: nat -> bool, n: nat, k: nat): State
    decreases k
  {
    if k == 0 then s else At(Tick(s, sched(n)), sched, n + 1, k - 1)
  }

  /** How far pc_task is from the bit that a blocked controller waits for. */
  function TaskRank(s: State): nat {
    match s.task
    case TWait => 7
    case TClear => 6
    case TMain => if s.running then 4 else 3
    case TLoop => if s.running then 3 else 2
    case TPause => if s.running then 2 else 4
    case TSetPaused => 1
    case TExit => 1
    case TNone => 0
  }

  function Measure(s: State): nat {
    10 * Rank(s.ctl) + if ControlBlocked(s) then TaskRank(s) else 0
  }

  lemma TaskProgress(s: State)
    requires Inv(s) && !s.lost
    ensures TaskNext(s).ctl == s.ctl && TaskNext(s).lost == s.lost
    ensures !ControlBlocked(s) ==> !ControlBlocked(TaskNext(s)) && Measure(TaskNext(s)) == Measure(s)
    ensures ControlBlocked(s) ==> Measure(TaskNext(s)) < Measure(s)
  {
    hide Inv, TaskNext, Rank, TaskRank;
    TaskApart(s);
    TaskBits(s);
    if ControlBlocked(s) {
      TaskNearer(s);
    }
  }

  /** A bit that the controller waits for stays set. */
  lemma TaskBits(s: State)
    ensures s.paused ==> TaskNext(s).paused
    ensures s.exit ==> TaskNext(s).exit
  {
    hide TaskNext;
    if s.task == TLoop || s.task == TPause || s.task == TMain || s.task == TNone {
      TaskRoundBits(s);
    } else {
      TaskSignalBits(s);
    }
  }

  lemma TaskRoundBits(s: State)
    requires s.task == TLoop || s.task == TPause || s.task == TMain || s.task == TNone
    ensures TaskNext(s).paused == s.paused && TaskNext(s).exit == s.exit
  {
  }

  lemma TaskSignalBits(s: State)
    requires s.task == TSetPaused || s.task == TWait || s.task == TClear || s.task == TExit
    ensures s.paused ==> TaskNext(s).paused
    ensures s.exit ==> TaskNext(s).exit
  {
  }

  lemma TaskNearer(s: State)
    requires Inv(s) && !s.lost && ControlBlocked(s)
    ensures ControlBlocked(TaskNext(s)) ==> TaskRank(TaskNext(s)) < TaskRank(s)
    ensures TaskRank(s) > 0
  {
    hide Settled;
  }

  /** Someone can always help: the controller if it is not blocked, else pc_task. */
  lemma TickProgress(s: State, who: bool)
    requires Inv(s) && s.ctl != Idle && !s.lost
    ensures Inv(Tick(s, who)) && !Tick(s, who).lost
    ensures Measure(Tick(s, who)) <= Measure(s)
    ensures who != ControlBlocked(s) ==> Measure(Tick(s, who)) < Measure(s)
    ensures who == ControlBlocked(s) && Measure(Tick(s, who)) == Measure(s) ==>
      ControlBlocked(Tick(s, who)) == ControlBlocked(s)
  {
    hide Inv, TaskNext, ByeNext, CloseNext, Closing, Rank;
    if who {
      ControlKeepsInv(s);
    } else {
      TaskKeepsInv(s);
      TaskProgress(s);
    }
  }

  /** The induction: by the measure, then by the time until the one who can help is scheduled. */
  lemma {:induction false} ReachesIdle(s: State, sched: nat -> bool, n: nat, m: nat)
    requires Inv(s) && !s.lost && Fair(sched)
    requires n <= m && sched(m) != ControlBlocked(s)
    ensures exists k: nat :: At(s, sched, n, k).ctl == Idle
    decreases Measure(s), m - n
  {
    hide Inv, Measure, ControlBlocked, Tick;
    if s.ctl == Idle {
      assert At(s, sched, n, 0).ctl == Idle;
    } else {
      var t := Tick(s, sched(n));
      TickProgress(s, sched(n));
      if Measure(t) < Measure(s) {
        assert Later(sched, n + 1, !ControlBlocked(t));
        var m' :| m' >= n + 1 && sched(m') == !ControlBlocked(t);
        ReachesIdle(t, sched, n + 1, m');
      } else {
        ReachesIdle(t, sched, n + 1, m);
      }
      var k: nat :| At(t, sched, n + 1, k).ctl == Idle;
      assert At(s, sched, n, k + 1).ctl == Idle;
    }
  }

  /** Every controller operation finishes under every fair schedule, if its task was created. */
  lemma {:induction false} OperationsFinish(s: State, sched: nat -> bool)
    requires Reachable(s) && !s.lost && Fair(sched)
    ensures exists k: nat :: At(s, sched, 0, k).ctl == Idle
  {
    ReachableInv(s);
    assert Later(sched, 0, !ControlBlocked(s));
    var m: nat :| m >= 0 && sched(m) == !ControlBlocked(s);
    ReachesIdle(s, sched, 0, m);
  }

  /** pc_close has done all it is for. */
  predicate Closed(s: State) {
    s.ctl == Idle && !s.pc && !s.group && !s.running && !s.pause && s.task == TNone
  }

  lemma ClosingTick(s: State, who: bool)
    requires Inv(s) && (Closing(s) || Closed(s))
    ensures Closing(Tick(s, who)) || Closed(Tick(s, who))
    ensures s.lost ==> Tick(s, who).lost && Closing(Tick(s, who))
  {
  }

  lemma {:induction false} ClosingAt(s: State, sched: nat -> bool, n: nat, k: nat)
    requires Inv(s) && (Closing(s) || Closed(s))
    ensures Closing(At(s, sched, n, k)) || Closed(At(s, sched, n, k))
    ensures s.lost ==> Closing(At(s, sched, n, k))
    decreases k
  {
    hide Inv, Closing, Closed, Tick;
    if k > 0 {
      ClosingTick(s, sched(n));
      TickKeepsInv(s, sched(n));
      ClosingAt(Tick(s, sched(n)), sched, n + 1, k - 1);
    } else if s.lost {
      LostIsOpen(s);
    }
  }

  lemma TickKeepsInv(s: State, who: bool)
    requires Inv(s)
    ensures Inv(Tick(s, who))
  {
    hide Inv, ControlNext, TaskNext;
    ControlKeepsInv(s);
    TaskKeepsInv(s);
  }

  lemma LostIsOpen(s: State)
    requires Inv(s) && s.lost
    ensures !Closed(s)
  {
  }

  ghost predicate CloseEnds(s: State, sched: nat -> bool) {
    exists k: nat :: Closed(At(s, sched, 0, k))
  }

  /**
   * Shutdown. Started in any reachable state, paused or not, pc_close runs to its end under every
   * fair schedule exactly when the thread that pc_start asked for exists.
   */
  lemma {:induction false} CloseFinishes(s: State)
    requires Reachable(s) && s.ctl == Close0
    ensures (forall sched: nat -> bool | Fair(sched) :: CloseEnds(s, sched)) <==> !s.lost
  {
    ReachableInv(s);
    if s.lost {
      var sched: nat -> bool := n => n % 2 == 0;
      forall n: nat, who: bool
        ensures Later(sched, n, who)
      {
        var m := if sched(n) == who then n else n + 1;
        assert m >= n && sched(m) == who;
      }
      forall k: nat
        ensures !Closed(At(s, sched, 0, k))
      {
        ClosingAt(s, sched, 0, k);
      }
      assert Fair(sched) && !CloseEnds(s, sched);
    } else {
      forall sched: nat -> bool | Fair(sched)
        ensures CloseEnds(s, sched)
      {
        OperationsFinish(s, sched);
        var k: nat :| At(s, sched, 0, k).ctl == Idle;
        ClosingAt(s, sched, 0, k);
        assert Closed(At(s, sched, 0, k));
      }
    }
  }

  // ---------------------------------------------------------------------------------------
  // What each operation leaves behind. A run from a call to the next Idle is the beginning of some
  // schedule, so At(CallOp(s, op), sched, 0, k) is every state of every such run.

  /** The call makes a peer where there was none. */
  predicate Opens(s: State, op: Op) {
    !s.pc && match op
      case IceReceived(o) => !s.pendingConnect && o != OpenFailed
      case Enable(iceLoaded, _, o) => iceLoaded && o != OpenFailed
      case _ => false
  }

  /** It also sets running, with a thread or without one. */
  predicate Starts(s: State, op: Op) {
    Opens(s, op) && op.o != NoEventGroup
  }

  /** The call lifts a pause. */
  predicate Lifts(s: State, op: Op) {
    match op
    case Bye => s.running && s.autoReconnect
    case Enable(_, signalling, _) => signalling
    case Disable => true
    case Stop => true
    case IceReceived(_) => false
  }

  /** How things stand once the operation is over, by what was there when it was called. */
  predicate Over(s: State, op: Op, t: State) {
    && t.autoReconnect == s.autoReconnect
    && t.pendingConnect == (if op.Enable? then false else op.Disable? || s.pendingConnect)
    && if op.Disable? || op.Stop? then Closed(t)
       else
         && t.pc == (s.pc || Opens(s, op)) && t.running == (s.running || Starts(s, op))
         && t.lost == (s.lost || (Starts(s, op) && op.o == NoThread))
         && t.pause == if Lifts(s, op) then false else s.pause || (op.Bye? && s.running)
  }

  /** The same on the way there. */
  predicate Doing(s: State, op: Op, t: State) {
    && t.autoReconnect == s.autoReconnect
    && t.pendingConnect == (if op.Enable? then false else op.Disable? || s.pendingConnect)
    && if op.Disable? || op.Stop? then Closing(t) || Closed(t)
       else
         && t.pc == (s.pc || Opens(s, op)) && t.running == (s.running || Starts(s, op))
         && t.lost == (s.lost || (Starts(s, op) && op.o == NoThread))
         && PauseDoing(s, op, t.ctl, t.pause)
  }

  predicate PauseDoing(s: State, op: Op, ctl: Control, pause: bool) {
    match ctl
    case Idle => pause == if Lifts(s, op) then false else s.pause || (op.Bye? && s.running)
    case ByePause => op.Bye? && s.running && pause == s.pause
    case ByeWait => op.Bye? && s.running && pause
    case ByeClear => op.Bye? && s.running && pause
    case ByeQuiet => op.Bye? && s.running && pause
    case ByeConnect => op.Bye? && s.running && s.autoReconnect && pause
    case EnableTail => op.Enable? && op.signalling && pause == s.pause
    case Unpause => Lifts(s, op) && pause
    case SetResume => Lifts(s, op) && !pause
    case _ => false
  }

  lemma CallDoing(s: State, op: Op)
    requires Inv(s) && s.ctl == Idle
    ensures Doing(s, op, CallOp(s, op))
  {
    if op.Enable? {
      EnableDoing(s, op);
    } else if op.IceReceived? {
      hide Lifts;
    } else {
      hide PcStart, Opens;
    }
  }

  lemma EnableDoing(s: State, op: Op)
    requires s.ctl == Idle && (s.pause ==> s.pc) && op.Enable?
    ensures Doing(s, op, CallOp(s, op))
  {
    hide PcStart, Doing;
    if s.pc {
      EnablesOld(s, op);
    } else {
      EnablesNew(s, op);
    }
  }

  lemma EnablesNew(s: State, op: Op)
    requires s.ctl == Idle && !s.pc && !s.pause && op.Enable?
    ensures Doing(s, op, CallOp(s, op))
  {
    hide PcStart;
    StartGives(s.(pendingConnect := false), op.o);
  }

  lemma EnablesOld(s: State, op: Op)
    requires s.ctl == Idle && s.pc && op.Enable?
    ensures Doing(s, op, CallOp(s, op))
  {
    hide CallOp, Doing;
    EnableStep(s, op);
    StillOpen(s, op, CallOp(s, op));
  }

  lemma StillOpen(s: State, op: Op, t: State)
    requires s.ctl == Idle && s.pc && op.Enable? && SameBut(s, t) && !t.pendingConnect
    requires if op.signalling then t.ctl == EnableTail else t.ctl == Idle
    ensures Doing(s, op, t)
  {
    hide Starts, Opens, Closing, Closed;
    OpensOnce(s, op);
  }

  predicate SameBut(s: State, t: State) {
    && t.autoReconnect == s.autoReconnect && t.pc == s.pc && t.running == s.running
    && t.lost == s.lost && t.pause == s.pause
  }

  lemma EnableStep(s: State, op: Op)
    requires s.ctl == Idle && s.pc && op.Enable?
    ensures var t := CallOp(s, op);
      SameBut(s, t) && !t.pendingConnect && if op.signalling then t.ctl == EnableTail else t.ctl == Idle
  {
    hide PcStart;
  }

  lemma OpensOnce(s: State, op: Op)
    ensures s.pc ==> !Opens(s, op) && !Starts(s, op)
  {
  }

  lemma StartGives(s: State, o: StartOutcome)
    requires !s.pc
    ensures var t := PcStart(s, o);
      && SameConfig(s, t) && t.ctl == s.ctl && t.pause == s.pause
      && t.pc == (o != OpenFailed) && t.running == (s.running || o == NoThread || o == Started)
      && t.lost == (s.lost || o == NoThread)
  {
  }

  /** The configuration and the user's wish are no business of the steps. */
  predicate SameConfig(s: State, t: State) {
    t.autoReconnect == s.autoReconnect && t.pendingConnect == s.pendingConnect
  }

  lemma CloseBeginsApart(s: State)
    requires s.ctl.Close0? || s.ctl.Close1? || s.ctl.CloseSetResume? || s.ctl.CloseStop?
    ensures SameConfig(s, CloseNext(s))
  {
  }

  lemma CloseEndsApart(s: State)
    requires s.ctl.CloseWait? || s.ctl.CloseClear? || s.ctl.ClosePeer? || s.ctl.CloseGroup?
    ensures SameConfig(s, CloseNext(s))
  {
  }

  /** pc_task changes its own place and the bits, nothing else. */
  predicate TaskOnly(s: State, t: State) {
    && SameConfig(s, t) && t.pc == s.pc && t.running == s.running && t.lost == s.lost
    && t.pause == s.pause && t.ctl == s.ctl
  }

  lemma TaskRoundApart(s: State)
    requires s.task == TLoop || s.task == TPause || s.task == TMain || s.task == TNone
    ensures TaskOnly(s, TaskNext(s))
  {
  }

  lemma TaskSignalApart(s: State)
    requires s.task == TSetPaused || s.task == TWait || s.task == TClear || s.task == TExit
    ensures TaskOnly(s, TaskNext(s))
  {
  }

  lemma TaskApart(s: State)
    ensures TaskOnly(s, TaskNext(s))
  {
    hide TaskOnly, TaskNext;
    if s.task == TLoop || s.task == TPause || s.task == TMain || s.task == TNone {
      TaskRoundApart(s);
    } else {
      TaskSignalApart(s);
    }
  }

  lemma TickDoing(s: State, op: Op, t: State, who: bool)
    requires Inv(t) && Doing(s, op, t)
    ensures Doing(s, op, Tick(t, who))
  {
    hide Inv, Doing, TaskNext, Tick;
    if op.Disable? || op.Stop? {
      CloseDoing(s, op, t, who);
    } else if who {
      ControlDoing(s, op, t);
      assert Tick(t, who) == ControlNext(t) by { TickIs(t, who); }
    } else {
      TaskDoing(s, op, t);
      assert Tick(t, who) == TaskNext(t) by { TickIs(t, who); }
    }
  }

  lemma TickIs(s: State, who: bool)
    ensures Tick(s, who) == if who then ControlNext(s) else TaskNext(s)
  {
    hide ControlNext, TaskNext;
  }

  lemma ControlDoing(s: State, op: Op, t: State)
    requires Doing(s, op, t) && !op.Disable? && !op.Stop?
    ensures Doing(s, op, ControlNext(t))
  {
    hide Doing, ByeNext, CloseNext;
    ByesOwn(s, op, t);
    if !ControlBlocked(t) {
      if t.ctl in {ByePause, ByeWait, ByeClear, ByeQuiet} {
        ByeDoing(s, op, t);
      } else if t.ctl == Idle {
        IdleRests(t);
      } else {
        TailDoing(s, op, t);
      }
    }
  }

  lemma ByesOwn(s: State, op: Op, t: State)
    requires Doing(s, op, t) && !op.Disable? && !op.Stop?
    ensures !Closing(t)
  {
    hide Opens, Starts, Lifts;
  }

  lemma ByeDoing(s: State, op: Op, t: State)
    requires Doing(s, op, t) && t.ctl in {ByePause, ByeWait, ByeClear, ByeQuiet} && !op.Disable? && !op.Stop?
    ensures Doing(s, op, ByeNext(t))
  {
    hide Opens, Starts;
  }

  lemma TailDoing(s: State, op: Op, t: State)
    requires Doing(s, op, t) && t.ctl in {ByeConnect, EnableTail, Unpause, SetResume} && !op.Disable? && !op.Stop?
    ensures Doing(s, op, ByeNext(t))
  {
    hide Doing, ByeNext;
    if t.ctl == Unpause {
      LiftDoing(s, op, t);
    } else if t.ctl == SetResume {
      ResumeDoing(s, op, t);
    } else {
      ConnectDoing(s, op, t);
    }
  }

  lemma LiftDoing(s: State, op: Op, t: State)
    requires Doing(s, op, t) && t.ctl == Unpause && !op.Disable? && !op.Stop?
    ensures Doing(s, op, ByeNext(t))
  {
    hide Opens, Starts, Lifts, ByeNext;
    assert ByeNext(t) == t.(pause := false, ctl := SetResume) by { UnpauseStep(t); }
  }

  lemma UnpauseStep(t: State)
    requires t.ctl == Unpause || t.ctl == SetResume
    ensures t.ctl == Unpause ==> ByeNext(t) == t.(pause := false, ctl := SetResume)
    ensures t.ctl == SetResume ==> ByeNext(t) == t.(resume := true, ctl := Idle)
  {
  }

  lemma ResumeDoing(s: State, op: Op, t: State)
    requires Doing(s, op, t) && t.ctl == SetResume && !op.Disable? && !op.Stop?
    ensures Doing(s, op, ByeNext(t))
  {
    hide Opens, Starts, Lifts, ByeNext;
    assert ByeNext(t) == t.(resume := true, ctl := Idle) by { UnpauseStep(t); }
  }

  lemma ConnectDoing(s: State, op: Op, t: State)
    requires Doing(s, op, t) && (t.ctl == ByeConnect || t.ctl == EnableTail) && !op.Disable? && !op.Stop?
    ensures Doing(s, op, ByeNext(t))
  {
    hide Opens, Starts;
  }

  lemma TaskDoing(s: State, op: Op, t: State)
    requires Doing(s, op, t) && !op.Disable? && !op.Stop?
    ensures Doing(s, op, TaskNext(t))
  {
    hide Opens, Starts, Lifts, TaskNext;
    TaskApart(t);
  }

  lemma CloseDoing(s: State, op: Op, t: State, who: bool)
    requires Inv(t) && Doing(s, op, t) && (op.Disable? || op.Stop?)
    ensures Doing(s, op, Tick(t, who))
  {
    hide Inv, Tick, Opens, Starts, Lifts;
    ClosingTick(t, who);
    TickConfig(t, who);
  }

  lemma IdleRests(s: State)
    requires s.ctl == Idle
    ensures ByeNext(s) == s
  {
  }

  lemma TickConfig(s: State, who: bool)
    requires Closing(s) || s.ctl == Idle
    ensures SameConfig(s, Tick(s, who))
  {
    hide TaskNext, ByeNext, CloseNext;
    TaskApart(s);
    if s.ctl.Close0? || s.ctl.Close1? || s.ctl.CloseSetResume? || s.ctl.CloseStop? {
      CloseBeginsApart(s);
    } else if Closing(s) {
      CloseEndsApart(s);
    } else {
      assert ByeNext(s) == s by { IdleRests(s); }
    }
  }

  lemma {:induction false} DoingAt(s: State, op: Op, t: State, sched: nat -> bool, n: nat, k: nat)
    requires Inv(t) && Doing(s, op, t)
    ensures Inv(At(t, sched, n, k)) && Doing(s, op, At(t, sched, n, k))
    decreases k
  {
    hide Inv, Doing, Tick;
    if k > 0 {
      TickDoing(s, op, t, sched(n));
      TickKeepsInv(t, sched(n));
      DoingAt(s, op, Tick(t, sched(n)), sched, n + 1, k - 1);
    }
  }

  lemma DoingIsOver(s: State, op: Op, t: State)
    requires Doing(s, op, t) && t.ctl == Idle
    ensures Over(s, op, t)
  {
  }

  /** Every operation, in every run, leaves exactly what it is for. */
  lemma {:induction false} OperationLeaves(s: State, op: Op, sched: nat -> bool, k: nat)
    requires Reachable(s) && s.ctl == Idle && At(CallOp(s, op), sched, 0, k).ctl == Idle
    ensures Over(s, op, At(CallOp(s, op), sched, 0, k))
  {
    hide Inv, Doing, Over, CallOp;
    ReachableInv(s);
    CallKeepsInv(s, op);
    CallDoing(s, op);
    DoingAt(s, op, CallOp(s, op), sched, 0, k);
    DoingIsOver(s, op, At(CallOp(s, op), sched, 0, k));
  }

  /** pc_task has answered the pause. */
  predicate Acknowledged(s: State) {
    s.ctl == ByeWait && s.pause && s.paused && s.task == TWait
  }

  /** The peer is disconnected and the streams are stopped, with pc_task in its wait. */
  predicate Quiet(s: State) {
    s.ctl == ByeQuiet && s.pause && s.task == TWait && !s.resume
  }

  /** What of it lies ahead of a state. */
  predicate Ahead(s: State, of: State -> bool, sched: nat -> bool, n: nat, k: nat)
    decreases k
  {
    of(s) || (k > 0 && Ahead(Tick(s, sched(n)), of, sched, n + 1, k - 1))
  }

  /** A BYE that finds the peer running goes on only once pc_task has left the main loop and said so. */
  lemma {:induction false} ByeWaits(s: State, sched: nat -> bool, k: nat)
    requires Reachable(s) && s.ctl == Idle && s.running && At(CallOp(s, Bye), sched, 0, k).ctl == Idle
    ensures !s.pause ==> Ahead(CallOp(s, Bye), Acknowledged, sched, 0, k)
    ensures Ahead(CallOp(s, Bye), Quiet, sched, 0, k)
  {
    hide Inv;
    ReachableInv(s);
    CallKeepsInv(s, Bye);
    QuietAhead(CallOp(s, Bye), sched, 0, k);
    if !s.pause {
      AcknowledgedAhead(CallOp(s, Bye), sched, 0, k);
    }
  }

  lemma {:induction false} AcknowledgedAhead(s: State, sched: nat -> bool, n: nat, k: nat)
    requires Inv(s) && At(s, sched, n, k).ctl == Idle && ((s.ctl == ByePause && !s.pause) || s.ctl == ByeWait)
    ensures Ahead(s, Acknowledged, sched, n, k)
    decreases k
  {
    hide Inv, Tick;
    if !Acknowledged(s) {
      var t := Tick(s, sched(n));
      BeforeAcknowledged(s, sched(n));
      TickKeepsInv(s, sched(n));
      AcknowledgedAhead(t, sched, n + 1, k - 1);
    }
  }

  lemma BeforeAcknowledged(s: State, who: bool)
    requires Inv(s) && ((s.ctl == ByePause && !s.pause) || s.ctl == ByeWait) && !Acknowledged(s)
    ensures var t := Tick(s, who); (t.ctl == ByePause && !t.pause) || t.ctl == ByeWait
  {
  }

  lemma {:induction false} QuietAhead(s: State, sched: nat -> bool, n: nat, k: nat)
    requires Inv(s) && At(s, sched, n, k).ctl == Idle && s.ctl in {ByePause, ByeWait, ByeClear, ByeQuiet}
    ensures Ahead(s, Quiet, sched, n, k)
    decreases k
  {
    hide Inv, Tick;
    if s.ctl == ByeQuiet {
      QuietIsHeld(s);
    } else {
      BeforeQuiet(s, sched(n));
      TickKeepsInv(s, sched(n));
      QuietAhead(Tick(s, sched(n)), sched, n + 1, k - 1);
    }
  }

  lemma QuietIsHeld(s: State)
    requires Inv(s) && s.ctl == ByeQuiet
    ensures Quiet(s)
  {
  }

  lemma BeforeQuiet(s: State, who: bool)
    requires s.ctl in {ByePause, ByeWait, ByeClear}
    ensures Tick(s, who).ctl in {ByePause, ByeWait, ByeClear, ByeQuiet}
  {
    hide TaskNext, CloseNext;
    TaskApart(s);
  }

  // ---------------------------------------------------------------------------------------
  // And pc_task is back at work.

  /** Between operations, with a peer that runs, no pause and a task. */
  predicate Free(s: State) {
    s.ctl == Idle && s.running && !s.pause && !s.lost
  }

  function StepsToMain(t: Task): nat {
    match t
    case TWait => 4
    case TClear => 3
    case TLoop => 2
    case TPause => 1
    case _ => 0
  }

  lemma FreeTick(s: State, who: bool)
    requires Inv(s) && Free(s)
    ensures Free(Tick(s, who)) && Inv(Tick(s, who))
    ensures who ==> Tick(s, who) == s
    ensures !who && s.task != TMain ==> StepsToMain(Tick(s, who).task) < StepsToMain(s.task)
  {
    TickKeepsInv(s, who);
  }

  /** esp_peer_main_loop is called at instant n + k. */
  predicate MainAt(s: State, sched: nat -> bool, n: nat, k: nat) {
    At(s, sched, n, k).task == TMain && !sched(n + k)
  }

  lemma {:induction false} MainFollows(s: State, sched: nat -> bool, n: nat, m: nat)
    requires Inv(s) && Free(s) && Fair(sched) && n <= m && !sched(m)
    ensures exists k: nat :: MainAt(s, sched, n, k)
    decreases StepsToMain(s.task), m - n
  {
    hide Inv, Tick;
    if s.task == TMain && !sched(n) {
      assert MainAt(s, sched, n, 0);
    } else {
      var t := Tick(s, sched(n));
      FreeTick(s, sched(n));
      if sched(n) {
        MainFollows(t, sched, n + 1, m);
      } else {
        assert Later(sched, n + 1, false);
        var m' :| m' >= n + 1 && sched(m') == false;
        MainFollows(t, sched, n + 1, m');
      }
      var k: nat :| MainAt(t, sched, n + 1, k);
      assert MainAt(s, sched, n, k + 1);
    }
  }

  lemma {:induction false} AtAdd(s: State, sched: nat -> bool, n: nat, i: nat, k: nat)
    ensures At(s, sched, n, i + k) == At(At(s, sched, n, i), sched, n + i, k)
    decreases i
  {
    if i > 0 {
      AtAdd(Tick(s, sched(n)), sched, n + 1, i - 1, k);
    }
  }

  lemma {:induction false} FreeAt(s: State, sched: nat -> bool, n: nat, k: nat)
    requires Inv(s) && Free(s)
    ensures Inv(At(s, sched, n, k)) && Free(At(s, sched, n, k))
    decreases k
  {
    hide Inv, Free, Tick;
    if k > 0 {
      FreeTick(s, sched(n));
      FreeAt(Tick(s, sched(n)), sched, n + 1, k - 1);
    }
  }

  ghost predicate MainFrom(s: State, sched: nat -> bool, i: nat) {
    exists k: nat :: k >= i && MainAt(s, sched, 0, k)
  }

  /** Between operations an unpaused peer is served again and again, for ever, under every fair schedule. */
  lemma {:induction false} MainLoopServed(s: State, sched: nat -> bool)
    requires Reachable(s) && Free(s) && Fair(sched)
    ensures forall i: nat :: MainFrom(s, sched, i)
  {
    hide Inv, Free, Tick;
    ReachableInv(s);
    forall i: nat ensures MainFrom(s, sched, i) {
      FreeAt(s, sched, 0, i);
      var t := At(s, sched, 0, i);
      assert Later(sched, i, false);
      var m: nat :| m >= i && sched(m) == false;
      MainFollows(t, sched, i, m);
      var k: nat :| MainAt(t, sched, i, k);
      AtAdd(s, sched, 0, i, k);
      assert MainAt(s, sched, 0, i + k);
    }
  }

  ghost predicate BackToWork(s: State, sched: nat -> bool) {
    exists k: nat :: MainAt(s, sched, 0, k) && Free(At(s, sched, 0, k))
  }

  /**
   * So a BYE with automatic reconnection, and an enable with signalling, bring a paused or a busy
   * pc_task back into esp_peer_main_loop under every fair schedule.
   */
  lemma {:induction false} PauseEnds(s: State, op: Op, sched: nat -> bool)
    requires Reachable(s) && s.ctl == Idle && s.running && !s.lost && Fair(sched)
    requires (op.Bye? && s.autoReconnect) || (op.Enable? && op.signalling)
    ensures BackToWork(CallOp(s, op), sched)
  {
    hide Inv, CallOp, Tick, Run, Doing, Over, Free, MainAt;
    ReachableInv(s);
    var t := CallOp(s, op);
    CallKeepsInv(s, op);
    CallDoing(s, op);
    StillThere(s, op, t);
    assert Later(sched, 0, !ControlBlocked(t));
    var m: nat :| m >= 0 && sched(m) == !ControlBlocked(t);
    ReachesIdle(t, sched, 0, m);
    var i: nat :| At(t, sched, 0, i).ctl == Idle;
    OperationLeaves(s, op, sched, i);
    DoingAt(s, op, t, sched, 0, i);
    FreeAfter(s, op, At(t, sched, 0, i));
    WorksFrom(t, sched, i);
  }

  lemma {:induction false} WorksFrom(t: State, sched: nat -> bool, i: nat)
    requires Fair(sched) && var u := At(t, sched, 0, i); Inv(u) && Free(u)
    ensures BackToWork(t, sched)
  {
    hide Inv, Tick, Free;
    var u := At(t, sched, 0, i);
    assert Later(sched, i, false);
    var m: nat :| m >= i && sched(m) == false;
    MainFollows(u, sched, i, m);
    var k: nat :| MainAt(u, sched, i, k);
    AtAdd(t, sched, 0, i, k);
    FreeAt(u, sched, i, k);
    assert MainAt(t, sched, 0, i + k);
  }

  lemma FreeAfter(s: State, op: Op, u: State)
    requires s.running && !s.lost && Inv(s) && Over(s, op, u) && u.ctl == Idle
    requires (op.Bye? && s.autoReconnect) || (op.Enable? && op.signalling)
    ensures Free(u)
  {
  }

  lemma StillThere(s: State, op: Op, t: State)
    requires Inv(s) && s.running && !s.lost && Doing(s, op, t) && !op.Disable? && !op.Stop?
    ensures !t.lost && t.running
  {
  }
}
