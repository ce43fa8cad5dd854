/** Daemon start-up under the file lock (src/contexts/daemon/infrastructure/socket_listener.rs) and the clean-up at
    shutdown (restart.rs), as the steps of any number of processes of one version. Process ids are not reused,
    file operations succeed unless a step says otherwise, and only these processes touch the files. */
module Startup {
  import opened Numbers

  type Pid = nat

  const BIND_RETRY_MAX: nat := 10

  datatype Outcome = AlreadyRunning | Failure | Finished | Crashed

  datatype Phase =
    | NotStarted
    | AtLock
    | Checking
    | HavePid(pid: Pid)
    | RemovingPid
    | RemovingSocket
    | Binding(retries: nat)
    | SettingMode
    | TruncatingPid
    | WritingPid
    | Unlocking
    | Serving
    | CleaningSocket
    | CleaningPid
    | Leaving
    | RecleaningSocket
    | RecleaningPid
    | Gone(outcome: Outcome)
  {
    predicate Alive() { !NotStarted? && !Gone? }

    /** Holds the start-up lock. */
    predicate InSection() {
      || Checking? || HavePid? || RemovingPid? || RemovingSocket? || Binding? || SettingMode? || TruncatingPid?
      || WritingPid? || Unlocking?
    }

    /** Holds the lock and has found no live daemon. */
    predicate PastCheck() { InSection() && !Checking? && !HavePid? && !Unlocking? }

    /** Has its pid in the file and has not removed it. */
    predicate Published() { Unlocking? || Serving? || CleaningSocket? || CleaningPid? }

    /** Has cleaned up and not ended. */
    predicate Left() { Leaving? || RecleaningSocket? || RecleaningPid? }

    /** Has bound the socket and not begun to clean up. */
    predicate Listening() { SettingMode? || TruncatingPid? || WritingPid? || Unlocking? || Serving? }
  }

  /** The lock holder, the pid the pid file names, and the process whose listener the socket path leads to. */
  datatype State = State(phases: map<Pid, Phase>, lock: Option<Pid>, pidFile: Option<Pid>, socket: Option<Pid>) {
    function PhaseOf(p: Pid): Phase { if p in phases then phases[p] else NotStarted }

    function Goto(p: Pid, phase: Phase): State { this.(phases := phases[p := phase]) }

    /** The process ends; the system drops its lock and leaves its files. */
    function End(p: Pid, outcome: Outcome): State {
      this.(phases := phases[p := Gone(outcome)], lock := if lock == Some(p) then None else lock)
    }
  }

  const INITIAL := State(map[], None, None, None)

  datatype Action =
    | Start | TakeLock | ReadPid | CheckAlive | RemovePid | RemoveSocket | Bind | BindFails | SetMode | ModeFails
    | TruncatePid | WritePid | Unlock | BeginCleanup | RemoveOwnSocket | RemoveOwnPid
    | CleanupAgain | RemoveSocketAgain | RemovePidAgain | Exit | Crash

  /** The state after process `p` takes an action, or `None` when it cannot. `again` lets a daemon that has cleaned
      up run the clean-up a second time before it exits. */
  function Act(s: State, p: Pid, a: Action, again: bool): Option<State> {
    match (a, s.PhaseOf(p))
    case (Start, NotStarted) => Some(s.Goto(p, AtLock))
    case (TakeLock, AtLock) => if s.lock.None? then Some(s.Goto(p, Checking).(lock := Some(p))) else None
    case (ReadPid, Checking) =>
      Some(if s.pidFile.None? then s.Goto(p, RemovingSocket) else s.Goto(p, HavePid(s.pidFile.value)))
    case (CheckAlive, HavePid(q)) =>
      Some(if s.PhaseOf(q).Alive() then s.End(p, AlreadyRunning) else s.Goto(p, RemovingPid))
    case (RemovePid, RemovingPid) => Some(s.Goto(p, RemovingSocket).(pidFile := None))
    case (RemoveSocket, RemovingSocket) => Some(s.Goto(p, Binding(0)).(socket := None))
    case (Bind, Binding(retries)) =>
      Some(if s.socket.None? then s.Goto(p, SettingMode).(socket := Some(p))
           else if retries >= BIND_RETRY_MAX then s.End(p, AlreadyRunning)
           else s.Goto(p, Binding(retries + 1)))
    case (BindFails, Binding(_)) => Some(s.End(p, Failure))
    case (SetMode, SettingMode) => Some(s.Goto(p, TruncatingPid))
    case (ModeFails, SettingMode) => Some(s.End(p, Failure).(socket := None))
    case (TruncatePid, TruncatingPid) => Some(s.Goto(p, WritingPid).(pidFile := None))
    case (WritePid, WritingPid) => Some(s.Goto(p, Unlocking).(pidFile := Some(p)))
    case (Unlock, Unlocking) => Some(s.Goto(p, Serving).(lock := None))
    case (BeginCleanup, Serving) => Some(s.Goto(p, CleaningSocket))
    case (RemoveOwnSocket, CleaningSocket) => Some(s.Goto(p, CleaningPid).(socket := None))
    case (RemoveOwnPid, CleaningPid) => Some(s.Goto(p, Leaving).(pidFile := None))
    case (CleanupAgain, Leaving) => if again then Some(s.Goto(p, RecleaningSocket)) else None
    case (RemoveSocketAgain, RecleaningSocket) =>
      if again then Some(s.Goto(p, RecleaningPid).(socket := None)) else None
    case (RemovePidAgain, RecleaningPid) => if again then Some(s.Goto(p, Leaving).(pidFile := None)) else None
    case (Exit, Leaving) => Some(s.End(p, Finished))
    case (Crash, phase) => if phase.Alive() then Some(s.End(p, Crashed)) else None
    case _ => None
  }

  type Trace = seq<(Pid, Action)>

  function Run(s: State, trace: Trace, again: bool): Option<State>
    decreases |trace|
  {
    if trace == [] then Some(s)
    else
      var next := Act(s, trace[0].0, trace[0].1, again);
      if next.None? then None else Run(next.value, trace[1..], again)
  }

  ghost predicate CanReach(from: State, to: State, again: bool) {
    exists trace: Trace :: Run(from, trace, again) == Some(to)
  }

  ghost predicate Reachable(s: State, again: bool) { CanReach(INITIAL, s, again) }

  /** At most one process serves, the pid file names it and the socket path leads to it. */
  ghost predicate Safe(s: State) {
    && (forall p: Pid, q: Pid :: s.PhaseOf(p).Serving? && s.PhaseOf(q).Serving? ==> p == q)
    && (forall p: Pid :: s.PhaseOf(p).Serving? ==> s.pidFile == Some(p) && s.socket == Some(p))
  }

  // ---- the invariant ---------------------------------------------------------------------------

  /** Exactly the processes in the section hold the lock. */
  ghost predicate LockInv(s: State) { forall p: Pid :: s.PhaseOf(p).InSection() <==> s.lock == Some(p) }

  /** The pid file names every published process, and only a published process or one that has ended. */
  ghost predicate PidInv(s: State) {
    && (forall p: Pid :: s.PhaseOf(p).Published() ==> s.pidFile == Some(p))
    && (s.pidFile.Some? ==> s.PhaseOf(s.pidFile.value).Published() || s.PhaseOf(s.pidFile.value).Gone?)
  }

  /** The socket path leads to every process that listens; it is free when one binds. */
  ghost predicate SocketInv(s: State) {
    && (forall p: Pid :: s.PhaseOf(p).Listening() ==> s.socket == Some(p))
    && (forall p: Pid :: s.PhaseOf(p).Binding? ==> s.socket.None? && s.PhaseOf(p).retries == 0)
  }

  /** Nobody is published while a starter is past its check. */
  ghost predicate CheckInv(s: State) {
    forall p: Pid, q: Pid :: s.PhaseOf(p).PastCheck() ==> !s.PhaseOf(q).Published()
  }

  /** A pid that was read is still in the file unless its process has removed it since. */
  ghost predicate ReadInv(s: State) {
    forall p: Pid :: s.PhaseOf(p).HavePid? ==>
      var q := s.PhaseOf(p).pid;
      && (s.pidFile.Some? ==> s.pidFile == Some(q))
      && (s.PhaseOf(q).Published() || s.PhaseOf(q).Left() || s.PhaseOf(q).Gone?)
  }

  ghost predicate Inv(s: State) { LockInv(s) && PidInv(s) && SocketInv(s) && CheckInv(s) && ReadInv(s) }

  /** A repeated removal takes the socket of no process that listens, and the pid file of none that is in it. */
  ghost predicate Harmless(s: State, a: Action) {
    match a
    case RemoveSocketAgain => forall q: Pid :: !s.PhaseOf(q).Listening()
    case RemovePidAgain => forall q: Pid :: !s.PhaseOf(q).Published()
    case _ => true
  }

  lemma ActKeepsLock(s: State, p: Pid, a: Action, again: bool)
    requires LockInv(s) && Act(s, p, a, again).Some?
    ensures LockInv(Act(s, p, a, again).value)
  {
  }

  lemma OthersStay(s: State, p: Pid, a: Action, again: bool, r: Pid)
    requires Act(s, p, a, again).Some? && r != p
    ensures Act(s, p, a, again).value.PhaseOf(r) == s.PhaseOf(r)
  {
  }

  lemma ActKeepsPublished(s: State, p: Pid, a: Action, again: bool, r: Pid)
    requires Inv(s) && (again ==> Harmless(s, a)) && Act(s, p, a, again).Some?
    ensures var s' := Act(s, p, a, again).value; s'.PhaseOf(r).Published() ==> s'.pidFile == Some(r)
  {
    if r != p { OthersStay(s, p, a, again, r); }
  }

  lemma ActKeepsPid(s: State, p: Pid, a: Action, again: bool)
    requires Inv(s) && (again ==> Harmless(s, a)) && Act(s, p, a, again).Some?
    ensures PidInv(Act(s, p, a, again).value)
  {
    var s' := Act(s, p, a, again).value;
    forall r: Pid ensures s'.PhaseOf(r).Published() ==> s'.pidFile == Some(r) {
      ActKeepsPublished(s, p, a, again, r);
    }
    if s'.pidFile.Some? && s'.pidFile.value != p { OthersStay(s, p, a, again, s'.pidFile.value); }
  }

  /** A process that cleans up is alone: nobody listens. */
  lemma CleansAlone(s: State, p: Pid, r: Pid)
    requires Inv(s) && s.PhaseOf(p).CleaningSocket?
    ensures !s.PhaseOf(r).Listening()
  {
    assert s.PhaseOf(p).Published();
    assert s.PhaseOf(r).Listening() ==> s.PhaseOf(r).PastCheck() || s.PhaseOf(r).Published();
  }

  lemma ActKeepsListening(s: State, p: Pid, a: Action, again: bool, r: Pid)
    requires Inv(s) && (again ==> Harmless(s, a)) && Act(s, p, a, again).Some?
    ensures var s' := Act(s, p, a, again).value; s'.PhaseOf(r).Listening() ==> s'.socket == Some(r)
  {
    if s.PhaseOf(p).CleaningSocket? { CleansAlone(s, p, r); }
    if r != p {
      OthersStay(s, p, a, again, r);
      assert s.PhaseOf(r).InSection() ==> s.lock == Some(r);
      assert s.PhaseOf(p).InSection() ==> s.lock == Some(p);
    }
  }

  lemma ActKeepsSocket(s: State, p: Pid, a: Action, again: bool)
    requires Inv(s) && (again ==> Harmless(s, a)) && Act(s, p, a, again).Some?
    ensures SocketInv(Act(s, p, a, again).value)
  {
    var s' := Act(s, p, a, again).value;
    forall r: Pid ensures s'.PhaseOf(r).Listening() ==> s'.socket == Some(r) {
      ActKeepsListening(s, p, a, again, r);
    }
    ActKeepsFreeSocket(s, p, a, again);
  }

  lemma ActKeepsFreeSocket(s: State, p: Pid, a: Action, again: bool)
    requires LockInv(s) && SocketInv(s) && Act(s, p, a, again).Some?
    ensures var s' := Act(s, p, a, again).value;
            forall r: Pid :: s'.PhaseOf(r).Binding? ==> s'.socket.None? && s'.PhaseOf(r).retries == 0
  {
    var s' := Act(s, p, a, again).value;
    forall r: Pid | s'.PhaseOf(r).Binding? ensures s'.socket.None? && s'.PhaseOf(r).retries == 0 {
      assert r != p ==> s'.PhaseOf(r) == s.PhaseOf(r);
      assert s.PhaseOf(r).InSection();
    }
  }

  /** Whoever goes past the check has found nobody published. */
  lemma PassesCheck(s: State, p: Pid, a: Action, again: bool, q: Pid)
    requires Inv(s) && Act(s, p, a, again).Some? && q != p
    ensures Act(s, p, a, again).value.PhaseOf(p).PastCheck() ==> !s.PhaseOf(q).Published()
  {
    assert s.PhaseOf(q).Published() ==> s.pidFile == Some(q);
  }

  lemma ActKeepsCheck(s: State, p: Pid, a: Action, again: bool)
    requires Inv(s) && (again ==> Harmless(s, a)) && Act(s, p, a, again).Some?
    ensures CheckInv(Act(s, p, a, again).value)
  {
    var s' := Act(s, p, a, again).value;
    forall r: Pid, q: Pid | s'.PhaseOf(r).PastCheck() ensures !s'.PhaseOf(q).Published() {
      if q != p { OthersStay(s, p, a, again, q); }
      if r != p {
        OthersStay(s, p, a, again, r);
        assert s.PhaseOf(r).InSection();
      } else if q != p {
        PassesCheck(s, p, a, again, q);
      }
    }
  }

  lemma ActKeepsRead(s: State, p: Pid, a: Action, again: bool)
    requires Inv(s) && (again ==> Harmless(s, a)) && Act(s, p, a, again).Some?
    ensures ReadInv(Act(s, p, a, again).value)
  {
    var s' := Act(s, p, a, again).value;
    forall r: Pid | s'.PhaseOf(r).HavePid?
      ensures s'.pidFile.Some? ==> s'.pidFile == Some(s'.PhaseOf(r).pid)
      ensures var q := s'.PhaseOf(r).pid; s'.PhaseOf(q).Published() || s'.PhaseOf(q).Left() || s'.PhaseOf(q).Gone?
    {
      assert s.PhaseOf(r).InSection();
      assert r != p ==> s'.PhaseOf(r) == s.PhaseOf(r);
      var q := s'.PhaseOf(r).pid;
      assert q != p ==> s'.PhaseOf(q) == s.PhaseOf(q);
    }
  }

  lemma ActKeepsInv(s: State, p: Pid, a: Action, again: bool)
    requires Inv(s) && (again ==> Harmless(s, a)) && Act(s, p, a, again).Some?
    ensures Inv(Act(s, p, a, again).value)
  {
    ActKeepsLock(s, p, a, again);
    ActKeepsPid(s, p, a, again);
    ActKeepsSocket(s, p, a, again);
    ActKeepsCheck(s, p, a, again);
    ActKeepsRead(s, p, a, again);
  }

  lemma {:induction false} RunKeepsInv(s: State, trace: Trace)
    requires Inv(s) && Run(s, trace, false).Some?
    ensures Inv(Run(s, trace, false).value)
    decreases |trace|
  {
    if trace != [] {
      ActKeepsInv(s, trace[0].0, trace[0].1, false);
      RunKeepsInv(Act(s, trace[0].0, trace[0].1, false).value, trace[1..]);
    }
  }

  lemma ReachableInv(s: State)
    requires Reachable(s, false)
    ensures Inv(s)
  {
    var trace: Trace :| Run(INITIAL, trace, false) == Some(s);
    RunKeepsInv(INITIAL, trace);
  }

  // ---- what follows ----------------------------------------------------------------------------

  /** Never two listeners: from the moment it binds the socket until it begins to clean up, a process is alone. */
  lemma OneListener(s: State, p: Pid, q: Pid)
    requires Reachable(s, false) && s.PhaseOf(p).Listening() && s.PhaseOf(q).Listening()
    ensures p == q && s.socket == Some(p)
  {
    ReachableInv(s);
  }

  /** A starter is turned away only by the daemon whose pid it read, which serves or is shutting down; it goes on
      only when nobody is published. */
  lemma TurnedAwayIff(s: State, p: Pid)
    requires Reachable(s, false) && s.PhaseOf(p).HavePid?
    ensures Act(s, p, CheckAlive, false).Some?
    ensures var q, s' := s.PhaseOf(p).pid, Act(s, p, CheckAlive, false).value;
            && (s'.PhaseOf(p) == Gone(AlreadyRunning) <==>
                  || s.PhaseOf(q).Serving? || s.PhaseOf(q).CleaningSocket? || s.PhaseOf(q).CleaningPid?
                  || s.PhaseOf(q).Left())
            && (s'.PhaseOf(p) != Gone(AlreadyRunning) ==>
                  s'.PhaseOf(p).RemovingPid? && forall r: Pid :: !s.PhaseOf(r).Published())
  {
    ReachableInv(s);
    assert !s.PhaseOf(s.PhaseOf(p).pid).Unlocking?;
  }

  /** While a daemon serves, every starter that reads the pid file reads its pid, and is turned away if the daemon is
      still alive when that is looked up. */
  lemma ServingIsSeen(s: State, p: Pid, q: Pid)
    requires Reachable(s, false) && s.PhaseOf(p).Checking? && s.PhaseOf(q).Serving?
    ensures Act(s, p, ReadPid, false) == Some(s.Goto(p, HavePid(q)))
    ensures Act(s.Goto(p, HavePid(q)), p, CheckAlive, false) == Some(s.Goto(p, HavePid(q)).End(p, AlreadyRunning))
  {
    ReachableInv(s);
  }

  /** Under the lock the socket path is always free when a starter binds, so it never has to retry. */
  lemma BindNeverBusy(s: State, p: Pid)
    requires Reachable(s, false) && s.PhaseOf(p).Binding?
    ensures Act(s, p, Bind, false) == Some(s.Goto(p, SettingMode).(socket := Some(p)))
    ensures s.PhaseOf(p).retries == 0
  {
    ReachableInv(s);
  }

  /** How a process ends: turned away at the check by a live daemon, by a failure to bind or to set the mode, by leaving
      after its clean-up, or by a crash. The lock it held is free again, and its files stay, but for the socket it
      had just bound when the mode could not be set. */
  lemma EndsBy(s: State, p: Pid, a: Action, outcome: Outcome)
    requires Reachable(s, false) && Act(s, p, a, false).Some? && !s.PhaseOf(p).Gone?
    requires Act(s, p, a, false).value.PhaseOf(p) == Gone(outcome)
    ensures match outcome
            case AlreadyRunning => a == CheckAlive && s.PhaseOf(p).HavePid? && s.PhaseOf(s.PhaseOf(p).pid).Alive()
            case Failure => (a == BindFails && s.PhaseOf(p).Binding?) || (a == ModeFails && s.PhaseOf(p).SettingMode?)
            case Finished => a == Exit && s.PhaseOf(p).Leaving?
            case Crashed => a == Crash
    ensures var s' := Act(s, p, a, false).value;
            && s'.lock != Some(p) && (s.lock != Some(p) ==> s'.lock == s.lock) && s'.pidFile == s.pidFile
            && s'.socket == if a == ModeFails then None else s.socket
  {
    ReachableInv(s);
  }

  // ---- a second clean-up breaks it -------------------------------------------------------------

  lemma {:induction false} RunConcat(s: State, a: Trace, b: Trace, again: bool)
    requires Run(s, a, again).Some?
    ensures Run(s, a + b, again) == Run(Run(s, a, again).value, b, again)
    decreases |a|
  {
    if a == [] {
      assert a + b == b;
    } else {
      assert (a + b)[1..] == a[1..] + b;
      RunConcat(Act(s, a[0].0, a[0].1, again).value, a[1..], b, again);
    }
  }

  lemma ReachTrans(a: State, b: State, c: State, again: bool)
    requires CanReach(a, b, again) && CanReach(b, c, again)
    ensures CanReach(a, c, again)
  {
    var t: Trace :| Run(a, t, again) == Some(b);
    var u: Trace :| Run(b, u, again) == Some(c);
    RunConcat(a, t, u, again);
  }

  lemma ReachStep(s: State, p: Pid, a: Action, to: State, again: bool)
    requires Act(s, p, a, again) == Some(to)
    ensures CanReach(s, to, again)
  {
    var one: Trace := [(p, a)];
    assert one[1..] == [] && Run(s, one, again) == Some(to);
  }

  /** Nobody is in the section, `p` has not started, and the pid file is missing or names another process that is
      not alive. */
  predicate Free(s: State, p: Pid) {
    && s.PhaseOf(p).NotStarted? && s.lock.None?
    && (s.pidFile.Some? ==> s.pidFile.value != p && !s.PhaseOf(s.pidFile.value).Alive())
  }

  function Served(s: State, p: Pid): State { State(s.phases[p := Serving], None, Some(p), Some(p)) }

  lemma ReachThen(s: State, mid: State, p: Pid, a: Action, to: State, again: bool)
    requires CanReach(s, mid, again) && Act(mid, p, a, again) == Some(to)
    ensures CanReach(s, to, again)
  {
    ReachStep(mid, p, a, to, again);
    ReachTrans(s, mid, to, again);
  }

  /** A starter that finds no live daemon, and meets no crash, ends up serving. */
  lemma StartsServing(s: State, p: Pid, again: bool)
    requires Free(s, p)
    ensures CanReach(s, Served(s, p), again)
  {
    var atBind := State(s.phases[p := Binding(0)], Some(p), None, None);
    var bound := State(s.phases[p := TruncatingPid], Some(p), None, Some(p));
    StartsToBind(s, p, again);
    BindsSocket(atBind, p, again);
    assert atBind.phases[p := TruncatingPid] == bound.phases;
    ReachTrans(s, atBind, bound, again);
    Publishes(bound, p, again);
    assert bound.phases[p := Serving] == s.phases[p := Serving];
    ReachTrans(s, bound, Served(s, p), again);
  }

  lemma StartsToBind(s: State, p: Pid, again: bool)
    requires Free(s, p)
    ensures CanReach(s, State(s.phases[p := Binding(0)], Some(p), None, None), again)
  {
    var s1 := s.Goto(p, AtLock);
    var s2 := s1.Goto(p, Checking).(lock := Some(p));
    ReachStep(s, p, Start, s1, again);
    ReachThen(s, s1, p, TakeLock, s2, again);
    var s3 := ChecksPid(s, s2, p, again);
    assert s3.phases[p := Binding(0)] == s.phases[p := Binding(0)];
    ReachThen(s, s3, p, RemoveSocket, State(s.phases[p := Binding(0)], Some(p), None, None), again);
  }

  lemma ChecksPid(s0: State, s: State, p: Pid, again: bool) returns (s': State)
    requires CanReach(s0, s, again) && s.PhaseOf(p).Checking?
    requires s.pidFile.Some? ==> !s.PhaseOf(s.pidFile.value).Alive()
    ensures CanReach(s0, s', again)
    ensures s'.phases == s.phases[p := RemovingSocket] && s'.lock == s.lock && s'.pidFile.None?
  {
    if s.pidFile.None? {
      s' := s.Goto(p, RemovingSocket);
      ReachThen(s0, s, p, ReadPid, s', again);
    } else {
      var read := s.Goto(p, HavePid(s.pidFile.value));
      var mid := read.Goto(p, RemovingPid);
      s' := mid.Goto(p, RemovingSocket).(pidFile := None);
      assert s'.phases == s.phases[p := RemovingSocket];
      ReachThen(s0, s, p, ReadPid, read, again);
      ReachThen(s0, read, p, CheckAlive, mid, again);
      ReachThen(s0, mid, p, RemovePid, s', again);
    }
  }

  /** Whatever crashes left behind, once nobody is published or in the section a new starter can serve. */
  lemma NoStaleFileBlocks(s: State, p: Pid)
    requires Reachable(s, false) && s.PhaseOf(p).NotStarted? && s.lock.None?
    requires forall q: Pid :: !s.PhaseOf(q).Published()
    ensures CanReach(s, Served(s, p), false)
  {
    ReachableInv(s);
    StartsServing(s, p, false);
  }

  lemma BindsSocket(s: State, p: Pid, again: bool)
    requires s.PhaseOf(p) == Binding(0) && s.socket.None?
    ensures CanReach(s, State(s.phases[p := TruncatingPid], s.lock, s.pidFile, Some(p)), again)
  {
    var s1 := s.Goto(p, SettingMode).(socket := Some(p));
    ReachStep(s, p, Bind, s1, again);
    assert s1.phases[p := TruncatingPid] == s.phases[p := TruncatingPid];
    ReachThen(s, s1, p, SetMode, s.Goto(p, TruncatingPid).(socket := Some(p)), again);
  }

  lemma Publishes(s: State, p: Pid, again: bool)
    requires s.PhaseOf(p).TruncatingPid?
    ensures CanReach(s, State(s.phases[p := Serving], None, Some(p), s.socket), again)
  {
    var s1 := s.Goto(p, WritingPid).(pidFile := None);
    var s2 := s1.Goto(p, Unlocking).(pidFile := Some(p));
    ReachStep(s, p, TruncatePid, s1, again);
    ReachThen(s, s1, p, WritePid, s2, again);
    assert s2.phases[p := Serving] == s.phases[p := Serving];
    ReachThen(s, s2, p, Unlock, State(s.phases[p := Serving], None, Some(p), s.socket), again);
  }

  function CleanedUp(s: State, p: Pid): State { State(s.phases[p := Leaving], s.lock, None, None) }

  lemma GotoTwice(s: State, p: Pid, first: Phase, second: Phase)
    ensures s.Goto(p, first).Goto(p, second) == s.Goto(p, second)
  {
    assert s.phases[p := first][p := second] == s.phases[p := second];
  }

  lemma RemovesFiles(s: State, p: Pid, again: bool)
    requires s.PhaseOf(p).CleaningSocket?
    ensures CanReach(s, CleanedUp(s, p), again)
  {
    var s' := s.Goto(p, CleaningPid).(socket := None);
    GotoTwice(s, p, CleaningPid, Leaving);
    ReachStep(s, p, RemoveOwnSocket, s', again);
    ReachThen(s, s', p, RemoveOwnPid, CleanedUp(s, p), again);
  }

  lemma CleansUp(s: State, p: Pid, again: bool)
    requires s.PhaseOf(p).Serving?
    ensures CanReach(s, CleanedUp(s, p), again)
  {
    var s' := s.Goto(p, CleaningSocket);
    GotoTwice(s, p, CleaningSocket, Leaving);
    ReachStep(s, p, BeginCleanup, s', again);
    RemovesFiles(s', p, again);
    ReachTrans(s, s', CleanedUp(s, p), again);
  }

  lemma RemovesFilesAgain(s: State, p: Pid)
    requires s.PhaseOf(p).RecleaningSocket?
    ensures CanReach(s, CleanedUp(s, p), true)
  {
    var s' := s.Goto(p, RecleaningPid).(socket := None);
    GotoTwice(s, p, RecleaningPid, Leaving);
    ReachStep(s, p, RemoveSocketAgain, s', true);
    ReachThen(s, s', p, RemovePidAgain, CleanedUp(s, p), true);
  }

  lemma CleansUpAgain(s: State, p: Pid)
    requires s.PhaseOf(p).Leaving?
    ensures CanReach(s, CleanedUp(s, p), true)
  {
    var s' := s.Goto(p, RecleaningSocket);
    GotoTwice(s, p, RecleaningSocket, Leaving);
    ReachStep(s, p, CleanupAgain, s', true);
    RemovesFilesAgain(s', p);
    ReachTrans(s, s', CleanedUp(s, p), true);
  }

  /** With a second clean-up two daemons can serve at once: the first daemon cleans up, the second starts, the first
      cleans up again and so removes the second's files, and the third starts. */
  lemma SecondCleanupBreaks() returns (s: State)
    ensures Reachable(s, true) && s.PhaseOf(2).Serving? && s.PhaseOf(3).Serving?
  {
    var s1 := Served(INITIAL, 1);
    var s2 := CleanedUp(s1, 1);
    var s3 := Served(s2, 2);
    var s4 := CleanedUp(s3, 1);
    s := Served(s4, 3);
    StartsServing(INITIAL, 1, true);
    CleansUp(s1, 1, true);
    ReachTrans(INITIAL, s1, s2, true);
    StartsServing(s2, 2, true);
    ReachTrans(INITIAL, s2, s3, true);
    CleansUpAgain(s3, 1);
    ReachTrans(INITIAL, s3, s4, true);
    StartsServing(s4, 3, true);
    ReachTrans(INITIAL, s4, s, true);
  }

  /** Every reachable state is safe exactly when no daemon cleans up a second time before it exits. */
  lemma SafeIffSingleCleanup(again: bool)
    ensures (forall s: State | Reachable(s, again) :: Safe(s)) <==> !again
  {
    if again {
      var s := SecondCleanupBreaks();
      assert !Safe(s);
    } else {
      forall s: State | Reachable(s, false) ensures Safe(s) {
        ReachableInv(s);
      }
    }
  }

  // ---- when a second clean-up is harmless ------------------------------------------------------

  /** Safe, whatever the processes do next, short of cleaning up again. */
  ghost predicate StaysSafe(s: State) { forall s': State | CanReach(s, s', false) :: Safe(s') }

  lemma InvStaysSafe(s: State)
    requires Inv(s)
    ensures StaysSafe(s)
  {
    forall s': State | CanReach(s, s', false) ensures Safe(s') {
      var trace: Trace :| Run(s, trace, false) == Some(s');
      RunKeepsInv(s, trace);
    }
  }

  lemma ReachSelf(s: State)
    ensures CanReach(s, s, false)
  {
    var none: Trace := [];
    assert Run(s, none, false) == Some(s);
  }

  lemma FileLostIsUnsafe(s: State, q: Pid)
    requires s.PhaseOf(q).Serving? && (s.socket != Some(q) || s.pidFile != Some(q))
    ensures !Safe(s)
  {
  }

  /** What a listening process does next, and how far it is from serving. */
  function NextToServe(phase: Phase): (Action, nat)
    requires phase.Listening()
  {
    match phase
    case SettingMode => (SetMode, 4)
    case TruncatingPid => (TruncatePid, 3)
    case WritingPid => (WritePid, 2)
    case Unlocking => (Unlock, 1)
    case Serving => (BeginCleanup, 0)
  }

  /** A process that has bound its socket comes to serve without looking at the socket path again. */
  lemma {:induction false} FinishesStart(s: State, q: Pid) returns (s': State)
    requires s.PhaseOf(q).Listening()
    ensures CanReach(s, s', false) && s'.PhaseOf(q).Serving? && s'.socket == s.socket
    decreases NextToServe(s.PhaseOf(q)).1
  {
    if s.PhaseOf(q).Serving? {
      s' := s;
      ReachSelf(s);
    } else {
      var a := NextToServe(s.PhaseOf(q)).0;
      var mid := Act(s, q, a, false).value;
      ReachStep(s, q, a, mid, false);
      s' := FinishesStart(mid, q);
      ReachTrans(s, mid, s', false);
    }
  }

  /** A pid nobody has used. */
  lemma FreshPid(used: set<Pid>) returns (r: Pid)
    ensures forall p | p in used :: p < r
    decreases used
  {
    if used == {} {
      r := 0;
    } else {
      var p :| p in used;
      var bound := FreshPid(used - {p});
      r := Max(bound, p + 1);
      assert used == (used - {p}) + {p};
    }
  }

  /** The lock can be free soon: its holder may crash. */
  lemma LockFreed(s: State, q: Pid) returns (s': State)
    requires LockInv(s) && !s.PhaseOf(q).InSection()
    ensures CanReach(s, s', false) && s'.lock.None? && s'.pidFile == s.pidFile
    ensures s'.PhaseOf(q) == s.PhaseOf(q)
  {
    if s.lock.None? {
      s' := s;
      ReachSelf(s);
    } else {
      var x := s.lock.value;
      assert s.PhaseOf(x).InSection();
      s' := s.End(x, Crashed);
      ReachStep(s, x, Crash, s', false);
    }
  }

  lemma CleansUpOver(s: State, q: Pid, r: Pid) returns (s': State)
    requires (s.PhaseOf(q).CleaningSocket? || s.PhaseOf(q).CleaningPid?) && s.PhaseOf(r).Serving?
    ensures CanReach(s, s', false) && !Safe(s')
  {
    var a := if s.PhaseOf(q).CleaningSocket? then RemoveOwnSocket else RemoveOwnPid;
    s' := Act(s, q, a, false).value;
    ReachStep(s, q, a, s', false);
    OthersStay(s, q, a, false, r);
    FileLostIsUnsafe(s', r);
  }

  /** Without its pid file a process that is cleaning up lets another start, whose file it then removes. */
  lemma CleanerDisowns(s: State, q: Pid) returns (s': State)
    requires LockInv(s) && s.pidFile.None? && (s.PhaseOf(q).CleaningSocket? || s.PhaseOf(q).CleaningPid?)
    ensures CanReach(s, s', false) && !Safe(s')
  {
    var free := LockFreed(s, q);
    var r := FreshPid(free.phases.Keys);
    assert free.PhaseOf(r).NotStarted? && r != q;
    StartsServing(free, r, false);
    var served := Served(free, r);
    ReachTrans(s, free, served, false);
    assert served.PhaseOf(q) == s.PhaseOf(q);
    s' := CleansUpOver(served, q, r);
    ReachTrans(s, served, s', false);
  }

  lemma PublishedWithoutFile(s: State, q: Pid) returns (s': State)
    requires LockInv(s) && s.pidFile.None? && s.PhaseOf(q).Published()
    ensures CanReach(s, s', false) && !Safe(s')
  {
    if s.PhaseOf(q).CleaningSocket? || s.PhaseOf(q).CleaningPid? {
      s' := CleanerDisowns(s, q);
    } else if s.PhaseOf(q).Unlocking? {
      s' := s.Goto(q, Serving).(lock := None);
      ReachStep(s, q, Unlock, s', false);
      FileLostIsUnsafe(s', q);
    } else {
      s' := s;
      ReachSelf(s);
      FileLostIsUnsafe(s', q);
    }
  }

  lemma ListeningWithoutSocket(s: State, q: Pid) returns (s': State)
    requires s.socket.None? && s.PhaseOf(q).Listening()
    ensures CanReach(s, s', false) && !Safe(s')
  {
    s' := FinishesStart(s, q);
    FileLostIsUnsafe(s', q);
  }

  /** A repeated removal keeps start-up safe for good exactly when it is harmless. */
  lemma StaysSafeIffHarmless(s: State, p: Pid, a: Action)
    requires Inv(s) && Act(s, p, a, true).Some?
    ensures StaysSafe(Act(s, p, a, true).value) <==> Harmless(s, a)
  {
    var s' := Act(s, p, a, true).value;
    if Harmless(s, a) {
      ActKeepsInv(s, p, a, true);
      InvStaysSafe(s');
    } else {
      ActKeepsLock(s, p, a, true);
      var q: Pid :| if a.RemovePidAgain? then s.PhaseOf(q).Published() else s.PhaseOf(q).Listening();
      OthersStay(s, p, a, true, q);
      var bad: State;
      if a.RemovePidAgain? {
        bad := PublishedWithoutFile(s', q);
      } else {
        bad := ListeningWithoutSocket(s', q);
      }
      assert CanReach(s', bad, false) && !Safe(bad);
    }
  }

  /** Every state of the run stays safe. */
  ghost predicate StaysSafeThroughout(s: State, trace: Trace)
    requires Run(s, trace, true).Some?
    decreases |trace|
  {
    StaysSafe(s) && (trace != [] ==> StaysSafeThroughout(Act(s, trace[0].0, trace[0].1, true).value, trace[1..]))
  }

  /** Every repeated removal of the run is harmless when it is made. */
  ghost predicate HarmlessThroughout(s: State, trace: Trace)
    requires Run(s, trace, true).Some?
    decreases |trace|
  {
    trace != [] ==>
      Harmless(s, trace[0].1) && HarmlessThroughout(Act(s, trace[0].0, trace[0].1, true).value, trace[1..])
  }

  lemma {:induction false} SafeIffHarmlessFrom(s: State, trace: Trace)
    requires Inv(s) && Run(s, trace, true).Some?
    ensures StaysSafeThroughout(s, trace) <==> HarmlessThroughout(s, trace)
    decreases |trace|
  {
    InvStaysSafe(s);
    if trace != [] {
      var p, a := trace[0].0, trace[0].1;
      StaysSafeIffHarmless(s, p, a);
      if Harmless(s, a) {
        ActKeepsInv(s, p, a, true);
        SafeIffHarmlessFrom(Act(s, p, a, true).value, trace[1..]);
      } else {
        StaysSafeStarts(Act(s, p, a, true).value, trace[1..]);
      }
    }
  }

  lemma StaysSafeStarts(s: State, trace: Trace)
    requires Run(s, trace, true).Some?
    ensures StaysSafeThroughout(s, trace) ==> StaysSafe(s)
  {
  }

  /** In a run with repeated clean-ups every state is safe, and stays so until the next repeated clean-up, exactly when
      no repeated removal takes the socket of a process that listens or the pid file of a published one. */
  lemma SafeIffHarmless(trace: Trace)
    requires Run(INITIAL, trace, true).Some?
    ensures StaysSafeThroughout(INITIAL, trace) <==> HarmlessThroughout(INITIAL, trace)
  {
    SafeIffHarmlessFrom(INITIAL, trace);
  }

  // ---- a busy address --------------------------------------------------------------------------

  function Binds(p: Pid, n: nat): Trace { seq(n, i => (p, Bind)) }

  lemma {:induction false} BindsAgain(s: State, p: Pid, n: nat, again: bool)
    requires s.socket.Some? && s.PhaseOf(p).Binding? && s.PhaseOf(p).retries + n == 11 && n > 0
    ensures Run(s, Binds(p, n), again) == Some(s.End(p, AlreadyRunning))
    decreases n
  {
    var trace := Binds(p, n);
    if n > 1 {
      var next := s.Goto(p, Binding(s.PhaseOf(p).retries + 1));
      BindsAgain(next, p, n - 1, again);
      assert trace[1..] == Binds(p, n - 1);
      assert next.phases[p := Gone(AlreadyRunning)] == s.phases[p := Gone(AlreadyRunning)];
    } else {
      assert trace[1..] == [];
    }
  }

  /** A starter that finds the address in use eleven times gives up: another daemon is running. */
  lemma BusyAddress(s: State, p: Pid, again: bool)
    requires s.socket.Some? && s.PhaseOf(p) == Binding(0)
    ensures Run(s, Binds(p, 11), again) == Some(s.End(p, AlreadyRunning))
  {
    BindsAgain(s, p, 11, again);
  }

  // ---- the retry loop --------------------------------------------------------------------------

  datatype BindOutcome = BoundOk | AddrInUse | OtherError

  /** Tries to bind until an attempt does not find the address in use, at most `retryMax` times more than once. */
  method BindWithRetry(outcomes: seq<BindOutcome>, retryMax: nat) returns (result: Option<Outcome>, calls: nat)
    requires |outcomes| > retryMax
    ensures 1 <= calls <= retryMax + 1
    ensures forall k | 0 <= k < calls - 1 :: outcomes[k] == AddrInUse
    ensures match outcomes[calls - 1]
            case BoundOk => result == None
            case OtherError => result == Some(Failure)
            case AddrInUse => result == Some(AlreadyRunning) && calls == retryMax + 1
  {
    var retries := 0;
    calls := 0;
    while true
      invariant calls == retries <= retryMax
      invariant forall k | 0 <= k < calls :: outcomes[k] == AddrInUse
      decreases retryMax - retries
    {
      calls := calls + 1;
      match outcomes[calls - 1] {
        case BoundOk => return None, calls;
        case AddrInUse =>
          if retries >= retryMax {
            return Some(AlreadyRunning), calls;
          }
          retries := retries + 1;
        case OtherError => return Some(Failure), calls;
      }
    }
  }
}
