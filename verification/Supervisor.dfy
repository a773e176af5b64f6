/** One slot's supervisor goroutine, the stoppers (Unload, StopAll) and its child processes, as
    interleaved atomic steps: each step is one critical section, channel operation or call. */
module Supervisor {
  import opened Wrappers
  import Placement

  type Pid = nat

  /** The one-slot exit channel of one launch. */
  datatype Chan = Empty | Full | Drained

  datatype Proc = Proc(
    dead: bool,      // the process has exited
    killed: bool,    // a stopper has sent it Kill
    waiter: bool,    // its Wait goroutine has still to report
    exit: Chan,
    received: nat)   // how often its exit result was taken

  /** Where the supervisor stands in supervise and, below it, in launch. */
  datatype Pc =
    | Top                   // loop head, before isStopping
    | Launching             // before the port probe
    | PortFree              // before cmd.Start
    | Started(p: Pid)       // process runs, cmd and exitCh not yet published
    | Deadline(p: Pid)      // head of the health loop
    | StopCheck(p: Pid)     // isStopping inside the health loop
    | ExitPoll(p: Pid)      // non-blocking receive
    | HealthPoll(p: Pid)    // GET /health
    | Ready(p: Pid)         // launch returned nil
    | Waiting(p: Pid)       // blocked on the exit channel
    | Exited(p: Pid)        // exit received, before isStopping
    | Failed                // launch returned an error
    | BeforeSleep           // isStopping before the back-off
    | Sleeping
    | Done

  /** A stopper between setting `stopping` and marking the slot stopped. */
  datatype Stopper = Locked(held: Option<Pid>) | KillSent | Marked

  datatype State = State(
    pc: Pc,
    stopping: bool,
    cmd: Option<Pid>,
    procs: seq<Proc>,
    stoppers: map<nat, Stopper>,
    state: Placement.RunState,
    backoff: nat,            // seconds
    restarts: nat,
    // history
    sleeps: seq<nat>,        // back-offs slept since the last clean start
    exits: nat,              // exits received after reaching healthy
    late: nat,               // processes started after `stopping` was set
    abandoned: set<Pid>,     // launches given up while their process might still run
    held: set<Pid>)          // processes some stopper read as the slot's cmd

  const INIT := State(Top, false, None, [], map[], Placement.Stopped, 1, 0, [], 0, 0, {}, {})

  /** `yes` is the environment's answer where the step asks one: port free, start succeeded,
      deadline passed, health 200. */
  datatype Event =
    | Sup(yes: bool)
    | StopLock(id: nat) | StopKill(id: nat) | StopMark(id: nat)
    | ProcExit(p: Pid) | WaitSend(p: Pid)

  function Receive(s: State, p: Pid): State
    requires p < |s.procs|
  {
    s.(procs := s.procs[p := s.procs[p].(exit := Drained, received := s.procs[p].received + 1)])
  }

  /** One step of supervise or launch; None when the supervisor is blocked or gone. */
  function SupStep(s: State, yes: bool): Option<State> {
    match s.pc
    case Top => Some(s.(pc := if s.stopping then Done else Launching))
    case Launching => Some(s.(pc := if yes then PortFree else Failed, state := Placement.Starting))
    case PortFree =>
      if !yes then Some(s.(pc := Failed))
      else Some(s.(pc := Started(|s.procs|),
                   procs := s.procs + [Proc(false, false, false, Empty, 0)],
                   late := s.late + if s.stopping then 1 else 0))
    case Started(p) =>
      if p >= |s.procs| then None
      else Some(s.(pc := Deadline(p), cmd := Some(p), procs := s.procs[p := s.procs[p].(waiter := true)]))
    case Deadline(p) =>
      Some(if yes then s.(pc := Failed, abandoned := s.abandoned + {p}) else s.(pc := StopCheck(p)))
    case StopCheck(p) =>
      Some(if s.stopping then s.(pc := Failed, abandoned := s.abandoned + {p}) else s.(pc := ExitPoll(p)))
    case ExitPoll(p) =>
      if p >= |s.procs| then None
      else Some(if s.procs[p].exit.Full? then Receive(s, p).(pc := Failed) else s.(pc := HealthPoll(p)))
    case HealthPoll(p) => Some(s.(pc := if yes then Ready(p) else Deadline(p)))
    case Ready(p) => Some(s.(pc := Waiting(p), backoff := 1, sleeps := [], state := Placement.Healthy))
    case Waiting(p) =>
      if p >= |s.procs| || !s.procs[p].exit.Full? then None
      else Some(Receive(s, p).(pc := Exited(p), exits := s.exits + 1))
    case Exited(p) =>
      Some(if s.stopping then s.(pc := Done)
           else s.(pc := BeforeSleep, restarts := s.restarts + 1, state := Placement.Crashed))
    case Failed => Some(s.(pc := BeforeSleep, state := Placement.Crashed))
    case BeforeSleep => Some(s.(pc := if s.stopping then Done else Sleeping))
    case Sleeping =>
      Some(s.(pc := Top, sleeps := s.sleeps + [s.backoff],
              backoff := if s.backoff < 30 then s.backoff * 2 else s.backoff))
    case Done => None
  }

  function Step(s: State, e: Event): Option<State> {
    match e
    case Sup(yes) => SupStep(s, yes)
    case StopLock(id) =>
      if id in s.stoppers then None
      else Some(s.(stopping := true, stoppers := s.stoppers[id := Locked(s.cmd)],
                   held := s.held + if s.cmd.Some? then {s.cmd.value} else {}))
    case StopKill(id) =>
      if id !in s.stoppers || !s.stoppers[id].Locked? then None
      else
        var t := s.(stoppers := s.stoppers[id := KillSent]);
        var held := s.stoppers[id].held;
        if held.None? then Some(t)
        else if held.value >= |s.procs| then None
        else Some(t.(procs := s.procs[held.value := s.procs[held.value].(killed := true)]))
    case StopMark(id) =>
      if id !in s.stoppers || !s.stoppers[id].KillSent? then None
      else Some(s.(stoppers := s.stoppers[id := Marked], state := Placement.Stopped))
    case ProcExit(p) =>
      if p < |s.procs| then Some(s.(procs := s.procs[p := s.procs[p].(dead := true)])) else None
    case WaitSend(p) =>
      if p < |s.procs| && s.procs[p].waiter && s.procs[p].dead
      then Some(s.(procs := s.procs[p := s.procs[p].(waiter := false, exit := Full)]))
      else None
  }

  function Run(s: State, es: seq<Event>): Option<State>
    decreases es
  {
    if es == [] then Some(s)
    else match Step(s, es[0]) case None => None case Some(t) => Run(t, es[1..])
  }

  // ---- the invariant ---------------------------------------------------------------------

  /** A process that Kill has reached or will reach. */
  ghost predicate Doomed(s: State, p: Pid) {
    p < |s.procs| && (s.procs[p].killed || exists id :: id in s.stoppers && s.stoppers[id] == Locked(Some(p)))
  }

  /** The launch in progress, once its cmd and channel are published. */
  function Published(pc: Pc): Option<Pid> {
    match pc
    case Deadline(p) => Some(p) case StopCheck(p) => Some(p) case ExitPoll(p) => Some(p)
    case HealthPoll(p) => Some(p) case Ready(p) => Some(p) case Waiting(p) => Some(p)
    case _ => None
  }

  predicate PastStopCheck(pc: Pc) {
    pc.ExitPoll? || pc.HealthPoll? || pc.Ready? || pc.Waiting?
  }

  ghost predicate ProcOk(x: Proc) {
    x.received == (if x.exit.Drained? then 1 else 0) &&
    (x.waiter ==> x.exit.Empty?) && (!x.exit.Empty? ==> x.dead)
  }

  ghost predicate PidsOk(s: State) {
    (s.cmd.Some? ==> s.cmd.value < |s.procs|) &&
    (forall id :: id in s.stoppers && s.stoppers[id].Locked? && s.stoppers[id].held.Some? ==>
      s.stoppers[id].held.value < |s.procs|)
  }

  ghost predicate LaunchOk(s: State) {
    (s.pc.Started? ==> s.pc.p == |s.procs| - 1 && s.procs[s.pc.p].exit.Empty? && !s.procs[s.pc.p].waiter) &&
    (Published(s.pc).Some? ==>
      var p := Published(s.pc).value;
      s.cmd == Some(p) && p < |s.procs| && !s.procs[p].exit.Drained? &&
      (s.procs[p].exit.Empty? ==> s.procs[p].waiter))
  }

  ghost predicate StopOk(s: State) {
    (s.stoppers != map[] ==> s.stopping) &&
    (s.stopping && PastStopCheck(s.pc) ==> Doomed(s, s.pc.p)) &&
    (s.late > 0 ==> s.stopping) && s.late <= 1 &&
    (s.pc.Launching? || s.pc.PortFree? ==> s.late == 0)
  }

  /** A process is in hand, has been heard from, or was given up on. */
  predicate Settled(s: State, p: Pid)
    requires p < |s.procs|
  {
    s.pc == Started(p) || Published(s.pc) == Some(p) || s.procs[p].exit.Drained? || p in s.abandoned
  }

  ghost predicate Accounted(s: State) {
    forall p :: 0 <= p < |s.procs| ==> Settled(s, p)
  }

  /** Kill reaches exactly the processes that a stopper has read. */
  ghost predicate HeldOk(s: State) {
    (forall p :: p in s.held ==> Doomed(s, p)) &&
    (forall p :: 0 <= p < |s.procs| && s.procs[p].killed ==> p in s.held) &&
    (forall id :: id in s.stoppers && s.stoppers[id].Locked? && s.stoppers[id].held.Some? ==>
      s.stoppers[id].held.value in s.held)
  }

  /** What a slot shows while it is not stopped, by where its supervisor stands; and that a clean
      start has reset the back-off. */
  predicate Shows(s: State) {
    match s.pc
    case Top => s.state.Stopped? || s.state.Crashed?
    case Launching => s.state.Stopped? || s.state.Crashed?
    case Waiting(_) => s.state.Healthy? && s.backoff == 1 && |s.sleeps| == 0
    case Exited(_) => s.state.Healthy? && s.backoff == 1 && |s.sleeps| == 0
    case BeforeSleep => s.state.Crashed?
    case Sleeping => s.state.Crashed?
    case Done => true
    case _ => s.state.Starting?
  }

  function Pow2(k: nat): nat { if k == 0 then 1 else 2 * Pow2(k - 1) }

  function Backoff(k: nat): nat { if Pow2(k) < 32 then Pow2(k) else 32 }

  ghost predicate BackoffOk(s: State) {
    s.backoff == Backoff(|s.sleeps|) &&
    (forall k :: 0 <= k < |s.sleeps| ==> s.sleeps[k] == Backoff(k)) &&
    (!s.stopping ==> s.exits == s.restarts + if s.pc.Exited? then 1 else 0)
  }

  ghost predicate Inv(s: State) {
    (forall p :: 0 <= p < |s.procs| ==> ProcOk(s.procs[p])) &&
    PidsOk(s) && LaunchOk(s) && StopOk(s) && Accounted(s) && BackoffOk(s) && HeldOk(s) &&
    (!s.stopping ==> Shows(s))
  }

  ghost predicate Reachable(s: State) {
    exists es :: Run(INIT, es) == Some(s)
  }

  lemma BackoffDoubles(k: nat)
    ensures Backoff(k + 1) == if Backoff(k) < 30 then 2 * Backoff(k) else Backoff(k)
  {
    if k >= 5 {
      Pow2Large(k);
      Pow2Large(k + 1);
    }
  }

  lemma {:induction false} Pow2Large(k: nat)
    requires k >= 5
    ensures Pow2(k) >= 32
  {
    if k > 5 {
      Pow2Large(k - 1);
    } else {
      assert Pow2(5) == 2 * Pow2(4);
    }
  }

  lemma StepInv(s: State, e: Event, t: State)
    requires Inv(s) && Step(s, e) == Some(t)
    ensures Inv(t)
  {
    if e.Sup? {
      SupInv(s, e.yes, t);
    } else {
      OtherInv(s, e, t);
    }
  }

  lemma SupInv(s: State, yes: bool, t: State)
    requires Inv(s) && SupStep(s, yes) == Some(t)
    ensures Inv(t)
  {
    hide SupStep, ProcOk, PidsOk, LaunchOk, StopOk, Accounted, BackoffOk, HeldOk, Shows;
    SupProcs(s, yes, t);
    SupLaunch(s, yes, t);
    SupStop(s, yes, t);
    SupAccounted(s, yes, t);
    SupBackoff(s, yes, t);
    SupHeld(s, yes, t);
    SupShows(s, yes, t);
  }

  lemma SupShows(s: State, yes: bool, t: State)
    requires SupStep(s, yes) == Some(t) && (!s.stopping ==> Shows(s))
    ensures !t.stopping ==> Shows(t)
  {
  }

  lemma SupProcs(s: State, yes: bool, t: State)
    requires Inv(s) && SupStep(s, yes) == Some(t)
    ensures (forall p :: 0 <= p < |t.procs| ==> ProcOk(t.procs[p])) && PidsOk(t)
  {
    hide StopOk, Accounted, BackoffOk, HeldOk, Shows;
    forall p | 0 <= p < |t.procs| ensures ProcOk(t.procs[p]) {
      if p < |s.procs| {
        assert ProcOk(s.procs[p]);
      }
    }
  }

  lemma SupLaunch(s: State, yes: bool, t: State)
    requires Inv(s) && SupStep(s, yes) == Some(t)
    ensures LaunchOk(t)
  {
    hide SupStep, StopOk, Accounted, BackoffOk, ProcOk, PidsOk, HeldOk, Shows, LaunchOk;
    if Published(s.pc).Some? {
      LaunchGoesOn(s, yes, t);
    } else {
      LaunchBegins(s, yes, t);
    }
  }

  lemma LaunchGoesOn(s: State, yes: bool, t: State)
    requires SupStep(s, yes) == Some(t) && LaunchOk(s) && Published(s.pc).Some?
    ensures LaunchOk(t)
  {
  }

  lemma LaunchBegins(s: State, yes: bool, t: State)
    requires SupStep(s, yes) == Some(t) && LaunchOk(s) && Published(s.pc).None?
    ensures LaunchOk(t)
  {
  }

  lemma SupAccounted(s: State, yes: bool, t: State)
    requires Inv(s) && SupStep(s, yes) == Some(t)
    ensures Accounted(t)
  {
    hide SupStep, Settled, StopOk, BackoffOk, ProcOk, PidsOk, LaunchOk, HeldOk, Shows;
    forall p | 0 <= p < |t.procs| ensures Settled(t, p) {
      assert p < |s.procs| ==> Settled(s, p);
      SettledStays(s, yes, t, p);
    }
  }

  lemma SettledStays(s: State, yes: bool, t: State, p: Pid)
    requires SupStep(s, yes) == Some(t) && p < |t.procs|
    requires p < |s.procs| ==> Settled(s, p)
    ensures Settled(t, p)
  {
    if Published(s.pc).Some? {
      SettledAwaited(s, yes, t, p);
    } else {
      SettledBetween(s, yes, t, p);
    }
  }

  lemma SettledAwaited(s: State, yes: bool, t: State, p: Pid)
    requires SupStep(s, yes) == Some(t) && Published(s.pc).Some? && p < |s.procs| && Settled(s, p)
    ensures Settled(t, p)
  {
  }

  lemma SettledBetween(s: State, yes: bool, t: State, p: Pid)
    requires SupStep(s, yes) == Some(t) && Published(s.pc).None? && p < |t.procs|
    requires p < |s.procs| ==> Settled(s, p)
    ensures Settled(t, p)
  {
  }

  lemma SupStop(s: State, yes: bool, t: State)
    requires Inv(s) && SupStep(s, yes) == Some(t)
    ensures StopOk(t)
  {
    hide SupStep, Accounted, BackoffOk, ProcOk, HeldOk, Shows, PidsOk, LaunchOk;
    SupKeeps(s, yes, t);
    SupLateOk(s, yes, t);
    SupPast(s, yes, t);
    if PastStopCheck(t.pc) && t.stopping {
      assert Doomed(s, t.pc.p);
      SupKillsNone(s, yes, t, t.pc.p);
      if !s.procs[t.pc.p].killed {
        var id :| id in s.stoppers && s.stoppers[id] == Locked(Some(t.pc.p));
        assert t.stoppers[id] == Locked(Some(t.pc.p));
      }
    }
  }

  /** Under a stop, the check is only passed by launches that had passed it before. */
  lemma SupPast(s: State, yes: bool, t: State)
    requires SupStep(s, yes) == Some(t)
    ensures t.stopping == s.stopping
    ensures t.stopping && PastStopCheck(t.pc) ==> PastStopCheck(s.pc) && s.pc.p == t.pc.p
  {
  }

  lemma SupLateOk(s: State, yes: bool, t: State)
    requires SupStep(s, yes) == Some(t)
    requires (s.late > 0 ==> s.stopping) && s.late <= 1 && (s.pc.Launching? || s.pc.PortFree? ==> s.late == 0)
    requires s.pc.Top? && !s.stopping ==> s.late == 0
    ensures (t.late > 0 ==> t.stopping) && t.late <= 1 && (t.pc.Launching? || t.pc.PortFree? ==> t.late == 0)
  {
  }

  lemma SupBackoff(s: State, yes: bool, t: State)
    requires Inv(s) && SupStep(s, yes) == Some(t)
    ensures BackoffOk(t)
  {
    hide SupStep, Backoff, Accounted, StopOk, ProcOk, LaunchOk, PidsOk, HeldOk, Shows;
    SleepStep(s, yes, t);
    RestartStep(s, yes, t);
    BackoffDoubles(|s.sleeps|);
    BackoffStart();
  }

  /** A step leaves the back-off alone, resets it, or sleeps it off and raises it. */
  lemma SleepStep(s: State, yes: bool, t: State)
    requires SupStep(s, yes) == Some(t)
    ensures (t.backoff == s.backoff && t.sleeps == s.sleeps) || (t.backoff == 1 && t.sleeps == []) ||
            (t.sleeps == s.sleeps + [s.backoff] && t.backoff == if s.backoff < 30 then 2 * s.backoff else s.backoff)
  {
    if !s.pc.Ready? && !s.pc.Sleeping? {
      SleepKept(s, yes, t);
    }
  }

  lemma SleepKept(s: State, yes: bool, t: State)
    requires SupStep(s, yes) == Some(t) && !s.pc.Ready? && !s.pc.Sleeping?
    ensures t.backoff == s.backoff && t.sleeps == s.sleeps
  {
  }

  lemma RestartStep(s: State, yes: bool, t: State)
    requires SupStep(s, yes) == Some(t)
    ensures t.stopping == s.stopping
    ensures !s.stopping && s.exits == s.restarts + (if s.pc.Exited? then 1 else 0) ==>
      t.exits == t.restarts + (if t.pc.Exited? then 1 else 0)
  {
  }

  lemma BackoffStart()
    ensures Backoff(0) == 1
  {
  }

  /** The supervisor kills nothing and takes no process off anyone's list. */
  lemma SupHeld(s: State, yes: bool, t: State)
    requires Inv(s) && SupStep(s, yes) == Some(t)
    ensures HeldOk(t)
  {
    hide Accounted, BackoffOk, ProcOk, StopOk, PidsOk, LaunchOk, SupStep, Shows;
    SupKeeps(s, yes, t);
    forall p | 0 <= p < |t.procs| ensures t.procs[p].killed == (p < |s.procs| && s.procs[p].killed) {
      SupKillsNone(s, yes, t, p);
    }
    forall p | p in t.held ensures Doomed(t, p) {
      assert Doomed(s, p);
    }
  }

  lemma SupKeeps(s: State, yes: bool, t: State)
    requires SupStep(s, yes) == Some(t)
    ensures t.stoppers == s.stoppers && t.held == s.held && |s.procs| <= |t.procs|
  {
  }

  lemma SupKillsNone(s: State, yes: bool, t: State, p: Pid)
    requires SupStep(s, yes) == Some(t) && p < |t.procs|
    ensures t.procs[p].killed == (p < |s.procs| && s.procs[p].killed)
  {
  }

  lemma OtherInv(s: State, e: Event, t: State)
    requires Inv(s) && !e.Sup? && Step(s, e) == Some(t)
    ensures Inv(t)
  {
    hide Backoff, SupStep, StopOk, HeldOk, Shows;
    OtherShows(s, e, t);
    OtherStop(s, e, t);
    OtherHeld(s, e, t);
    forall p | 0 <= p < |t.procs| ensures Settled(t, p) && ProcOk(t.procs[p]) {
      assert Settled(s, p) && ProcOk(s.procs[p]);
    }
  }

  lemma OtherStop(s: State, e: Event, t: State)
    requires Inv(s) && !e.Sup? && Step(s, e) == Some(t)
    ensures StopOk(t)
  {
    hide Backoff, SupStep, Accounted, BackoffOk, ProcOk, HeldOk, Shows;
    if PastStopCheck(t.pc) && t.stopping {
      var p := t.pc.p;
      if e.StopLock? {
        assert t.stoppers[e.id] == Locked(Some(p));
      } else if !t.procs[p].killed {
        var id :| id in s.stoppers && s.stoppers[id] == Locked(Some(p));
        assert t.stoppers[id] == Locked(Some(p));
      }
    }
  }

  lemma OtherShows(s: State, e: Event, t: State)
    requires Inv(s) && !e.Sup? && Step(s, e) == Some(t)
    ensures !t.stopping ==> Shows(t)
  {
    hide SupStep, Accounted, BackoffOk, ProcOk, PidsOk, LaunchOk, HeldOk, Doomed;
    if e.StopKill? || e.StopMark? {
      assert e.id in s.stoppers;
    }
  }

  lemma OtherHeld(s: State, e: Event, t: State)
    requires Inv(s) && !e.Sup? && Step(s, e) == Some(t)
    ensures HeldOk(t)
  {
    hide Backoff, SupStep, Accounted, BackoffOk, ProcOk, StopOk, LaunchOk, Shows;
    forall p | p in t.held ensures Doomed(t, p) {
      if e.StopLock? && s.cmd == Some(p) {
        assert t.stoppers[e.id] == Locked(Some(p));
      } else {
        assert Doomed(s, p);
        if !t.procs[p].killed {
          var id :| id in s.stoppers && s.stoppers[id] == Locked(Some(p));
          assert t.stoppers[id] == Locked(Some(p));
        }
      }
    }
  }

  lemma {:induction false} RunInv(s: State, es: seq<Event>)
    requires Inv(s) && Run(s, es).Some?
    ensures Inv(Run(s, es).value)
    decreases es
  {
    hide Inv, Step;
    if es != [] {
      StepInv(s, es[0], Step(s, es[0]).value);
      RunInv(Step(s, es[0]).value, es[1..]);
    }
  }

  lemma ReachableInv(s: State)
    requires Reachable(s)
    ensures Inv(s)
  {
    var es :| Run(INIT, es) == Some(s);
    RunInv(INIT, es);
  }

  // ---- what holds in every interleaving --------------------------------------------------

  /** A supervisor that blocks on an exit channel after a stop is never left waiting for a
      process nobody will kill: the process has been killed or a stopper holds it to kill, its
      result has not been taken yet, and its Wait goroutine is still there to send it. */
  lemma BlockedMeansDoomed(s: State)
    requires Reachable(s) && s.stopping && s.pc.Waiting?
    ensures Doomed(s, s.pc.p)
    ensures !s.procs[s.pc.p].exit.Drained?
    ensures s.procs[s.pc.p].exit.Full? || s.procs[s.pc.p].waiter
  {
    ReachableInv(s);
  }

  /** No exit result is taken twice, and none is waited for after it was taken. */
  lemma ExitTakenOnce(s: State, p: Pid)
    requires Reachable(s) && p < |s.procs|
    ensures s.procs[p].received <= 1
    ensures s.pc == Waiting(p) ==> s.procs[p].received == 0
  {
    ReachableInv(s);
  }

  /** At most one process start follows the setting of `stopping`. */
  lemma AtMostOneLateStart(s: State)
    requires Reachable(s)
    ensures s.late <= 1
  {
    ReachableInv(s);
  }

  /** Unstopped: the k-th sleep since the last clean start is min(2^k, 32) seconds, and the
      restart counter counts exits after healthy, never failed launches. */
  lemma BackoffAndRestarts(s: State)
    requires Reachable(s) && !s.stopping && !s.pc.Exited?
    ensures forall k :: 0 <= k < |s.sleeps| ==> s.sleeps[k] == if k < 5 then [1, 2, 4, 8, 16][k] else 32
    ensures s.restarts == s.exits
  {
    hide Backoff;
    ReachableInv(s);
    forall k | 0 <= k < |s.sleeps| ensures s.sleeps[k] == if k < 5 then [1, 2, 4, 8, 16][k] else 32 {
      BackoffIs(k);
    }
  }

  lemma BackoffIs(k: nat)
    ensures Backoff(k) == if k < 5 then [1, 2, 4, 8, 16][k] else 32
  {
    if k >= 5 {
      Pow2Large(k);
    } else {
      assert Pow2(1) == 2 && Pow2(2) == 4 && Pow2(3) == 8 && Pow2(4) == 16;
    }
  }

  /** What only an answer brings about: a launch goes on only with its port free, a process appears
      only by a start that succeeded, a launch succeeds only by a 200 for the same process, and it
      is given up only past its deadline or under a stop. */
  lemma OnlyAsAnswered(s: State, yes: bool, t: State)
    requires SupStep(s, yes) == Some(t)
    ensures t.pc.PortFree? ==> s.pc.Launching? && yes
    ensures |t.procs| > |s.procs| ==> s.pc.PortFree? && yes
    ensures t.pc.Ready? ==> yes && s.pc == HealthPoll(t.pc.p)
    ensures t.pc.Waiting? ==> s.pc == Ready(t.pc.p)
    ensures t.abandoned != s.abandoned ==> (s.pc.Deadline? && yes) || (s.pc.StopCheck? && s.stopping)
  {
    if Published(s.pc).None? {
      UnpublishedSteps(s, yes, t);
    }
  }

  lemma UnpublishedSteps(s: State, yes: bool, t: State)
    requires SupStep(s, yes) == Some(t) && Published(s.pc).None?
    ensures t.pc.PortFree? ==> s.pc.Launching? && yes
    ensures |t.procs| > |s.procs| ==> s.pc.PortFree? && yes
    ensures !t.pc.Ready? && !t.pc.Waiting? && t.abandoned == s.abandoned
  {
  }

  /** Unstopped, a slot shows Healthy exactly while its supervisor waits for a process that has
      answered its health check, or has just seen it exit; else Starting, Crashed or, before the
      first launch, Stopped. */
  lemma StateShown(s: State)
    requires Reachable(s) && !s.stopping
    ensures s.state.Healthy? <==> s.pc.Waiting? || s.pc.Exited?
    ensures s.pc.BeforeSleep? || s.pc.Sleeping? ==> s.state.Crashed?
    ensures s.pc.PortFree? || s.pc.Started? || s.pc.Failed? ==> s.state.Starting?
    ensures Published(s.pc).Some? && !s.pc.Waiting? ==> s.state.Starting?
    ensures s.pc.Top? || s.pc.Launching? ==> s.state.Stopped? || s.state.Crashed?
    ensures s.pc.Waiting? ==> s.backoff == 1
  {
    ReachableInv(s);
    RunNotDone(s);
  }

  /** Without a stop the supervisor never ends. */
  lemma RunNotDone(s: State)
    requires Reachable(s) && !s.stopping
    ensures !s.pc.Done?
  {
    var es :| Run(INIT, es) == Some(s);
    StaysUp(INIT, es);
  }

  lemma {:induction false} StaysUp(s: State, es: seq<Event>)
    requires !s.pc.Done? && Run(s, es).Some?
    ensures !Run(s, es).value.stopping ==> !Run(s, es).value.pc.Done?
    decreases es
  {
    if es != [] {
      var t := Step(s, es[0]).value;
      if t.pc.Done? {
        DoneMeansStopping(s, es[0], t);
        StopEndsSupervisor(t, es[1..]);
      } else {
        StaysUp(t, es[1..]);
      }
    }
  }

  lemma DoneMeansStopping(s: State, e: Event, t: State)
    requires !s.pc.Done? && Step(s, e) == Some(t) && t.pc.Done?
    ensures t.stopping
  {
    if !e.Sup? {
      StopOtherStep(s, e, t);
    }
  }

  // ---- the history fields ----------------------------------------------------------------

  /** Processes started while `stopping` was set. */
  function LateStarts(s: State, es: seq<Event>): nat
    decreases es
  {
    if es == [] then 0
    else match Step(s, es[0]) case None => 0 case Some(t) =>
      (if s.stopping && |t.procs| > |s.procs| then 1 else 0) + LateStarts(t, es[1..])
  }

  /** Exit results received by a supervisor that had reached healthy. */
  function HealthyExits(s: State, es: seq<Event>): nat
    decreases es
  {
    if es == [] then 0
    else match Step(s, es[0]) case None => 0 case Some(t) =>
      (if s.pc.Waiting? && t.pc.Exited? then 1 else 0) + HealthyExits(t, es[1..])
  }

  /** The counters count what happened. */
  lemma {:induction false} HistoryIsReal(s: State, es: seq<Event>)
    requires Run(s, es).Some?
    ensures Run(s, es).value.late == s.late + LateStarts(s, es)
    ensures Run(s, es).value.exits == s.exits + HealthyExits(s, es)
    decreases es
  {
    hide Step;
    if es != [] {
      var t := Step(s, es[0]).value;
      CountsStep(s, es[0], t);
      HistoryIsReal(t, es[1..]);
    }
  }

  lemma CountsStep(s: State, e: Event, t: State)
    requires Step(s, e) == Some(t)
    ensures t.late == s.late + if s.stopping && |t.procs| > |s.procs| then 1 else 0
    ensures t.exits == s.exits + if s.pc.Waiting? && t.pc.Exited? then 1 else 0
  {
    hide SupStep;
    if e.Sup? {
      SupLate(s, e.yes, t);
      SupExits(s, e.yes, t);
    }
  }

  lemma SupLate(s: State, yes: bool, t: State)
    requires SupStep(s, yes) == Some(t)
    ensures t.late == s.late + if s.stopping && |t.procs| > |s.procs| then 1 else 0
  {
  }

  lemma SupExits(s: State, yes: bool, t: State)
    requires SupStep(s, yes) == Some(t)
    ensures t.exits == s.exits + if s.pc.Waiting? && t.pc.Exited? then 1 else 0
  {
  }

  // ---- a stop ends the supervisor --------------------------------------------------------

  /** Supervisor steps left at most, once `stopping` is set. */
  function StepsLeft(pc: Pc): nat {
    match pc
    case Done => 0
    case Top => 1 case BeforeSleep => 1 case Exited(_) => 1
    case Sleeping => 2 case Failed => 2 case Waiting(_) => 2
    case StopCheck(_) => 3 case Ready(_) => 3
    case Deadline(_) => 4
    case Started(_) => 5 case HealthPoll(_) => 5
    case PortFree => 6 case ExitPoll(_) => 6
    case Launching => 7
  }

  function SupEvents(es: seq<Event>): nat {
    if es == [] then 0 else (if es[0].Sup? then 1 else 0) + SupEvents(es[1..])
  }

  /** However the steps interleave after a stop, the supervisor takes at most seven more. */
  lemma {:induction false} StopEndsSupervisor(s: State, es: seq<Event>)
    requires s.stopping && Run(s, es).Some?
    ensures Run(s, es).value.stopping
    ensures SupEvents(es) + StepsLeft(Run(s, es).value.pc) <= StepsLeft(s.pc) <= 7
    decreases es
  {
    if es != [] {
      var t := Step(s, es[0]).value;
      StopStep(s, es[0], t);
      StopEndsSupervisor(t, es[1..]);
    }
  }

  lemma StopStep(s: State, e: Event, t: State)
    requires s.stopping && Step(s, e) == Some(t)
    ensures t.stopping && StepsLeft(t.pc) + (if e.Sup? then 1 else 0) <= StepsLeft(s.pc)
  {
    if !e.Sup? {
      StopOtherStep(s, e, t);
    }
  }

  lemma StopOtherStep(s: State, e: Event, t: State)
    requires !e.Sup? && Step(s, e) == Some(t)
    ensures t.pc == s.pc && (s.stopping ==> t.stopping)
  {
    hide SupStep;
  }

  /** And it never gets stuck short of the end: either it can move, or the process it waits for
      is about to report, can be reported, or is doomed and has still to die. */
  lemma StopMakesProgress(s: State)
    requires Reachable(s) && s.stopping && !s.pc.Done?
    ensures SupStep(s, true).Some? ||
      (s.pc.Waiting? && Doomed(s, s.pc.p) &&
        (Step(s, WaitSend(s.pc.p)).Some? || (s.procs[s.pc.p].waiter && !s.procs[s.pc.p].dead)))
  {
    ReachableInv(s);
  }

  // ---- what a stop does not promise ------------------------------------------------------

  /** When everything has settled after a stop, a process runs on unkilled exactly when its launch
      was given up (health timeout, or stopped while starting), it has not died by itself, and no
      stopper read it as the slot's cmd. */
  lemma NoLeakIff(s: State, p: Pid)
    requires Reachable(s) && s.pc.Done? && p < |s.procs|
    requires forall id :: id in s.stoppers ==> !s.stoppers[id].Locked?
    ensures !s.procs[p].dead && !s.procs[p].killed <==> p in s.abandoned && !s.procs[p].dead && p !in s.held
  {
    ReachableInv(s);
    assert Settled(s, p) && ProcOk(s.procs[p]);
    assert p in s.held ==> Doomed(s, p);
  }

  /** Every stopper is through, the supervisor is gone, and a process runs on unkilled. */
  ghost predicate Leaking(s: State) {
    Reachable(s) && s.pc.Done? && s.stoppers != map[] &&
    (forall id :: id in s.stoppers ==> s.stoppers[id].Marked?) &&
    exists p :: 0 <= p < |s.procs| && !s.procs[p].dead && !s.procs[p].killed
  }

  /** The race that leaks: stopped between the loop-head check and the start, the supervisor
      starts one process, abandons it, and ends; nobody holds that process to kill it. */
  lemma LaunchRaceLeaks() returns (s: State)
    ensures Leaking(s)
  {
    assert Run(INIT, []) == Some(INIT);
    assert Reachable(INIT);
    s := Take(INIT, Sup(true));
    s := Take(s, StopLock(0));
    s := Take(s, StopKill(0));
    s := Take(s, StopMark(0));
    s := RaceEnds(s);
  }

  lemma RaceEnds(r: State) returns (s: State)
    requires Reachable(r)
    requires r == INIT.(pc := Launching, stopping := true, stoppers := map[0 := Marked])
    ensures Leaking(s)
  {
    hide Reachable;
    s := Take(r, Sup(true));   // port free
    s := Take(s, Sup(true));   // started
    s := Take(s, Sup(true));   // published
    s := Take(s, Sup(false));  // deadline not passed
    s := Take(s, Sup(true));   // stopping
    s := Take(s, Sup(true));
    s := Take(s, Sup(true));
    assert 0 in s.stoppers && !s.procs[0].dead;
  }

  lemma Take(s: State, e: Event) returns (t: State)
    requires Reachable(s) && Step(s, e).Some?
    ensures Reachable(t) && Step(s, e) == Some(t)
  {
    t := Step(s, e).value;
    var es :| Run(INIT, es) == Some(s);
    RunSnoc(INIT, es, e, s);
    assert Run(INIT, es + [e]) == Some(t);
  }

  lemma {:induction false} RunSnoc(s: State, es: seq<Event>, e: Event, t: State)
    requires Run(s, es) == Some(t)
    ensures Run(s, es + [e]) == Step(t, e)
    decreases es
  {
    if es == [] {
      assert [e][1..] == [];
    } else {
      assert (es + [e])[1..] == es[1..] + [e];
      RunSnoc(Step(s, es[0]).value, es[1..], e, t);
    }
  }
}
