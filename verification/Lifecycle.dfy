/** The desktop shell, the backend it spawns, and the backend's watchdog, as every
    interleaving of their steps (src-tauri/src/main.rs, src-tauri/src/backend.rs,
    server/loregarden/__main__.py). */
module Lifecycle {

  // ---------------------------------------------------------------- the parts

  datatype Kind = Dev | Sidecar

  datatype Config = Config(kind: Kind, shellPid: nat, grace: nat, poll: nat) {
    ghost predicate Valid() {
      poll > 0
    }
  }

  datatype Shell = Up | Down(at: nat)

  /** The startup task. It holds the child while `Waiting`, `Ready` and `EndingUnready`. */
  datatype Startup = Starting | Waiting | Ready | EndingUnready(deadline: nat) | Stored | Failed

  /** The signal thread. It holds the mutex, and the child, while `EndingOnSignal`: the guard
      of `shared.lock()` in an `if let` lives to the end of its body. */
  datatype Signal = Listening | Signalled | EndingOnSignal(deadline: nat)

  /** The event loop; `last` tells `Exit` from `ExitRequested`. It lets the mutex go before
      it terminates the child. */
  datatype Loop = Idle | Handling(last: bool) | EndingOnExit(deadline: nat, last: bool) | Finished

  /** `Condemned`: killed outright, and not yet seen to be gone. */
  datatype Backend = Unspawned | Alive | Condemned | Gone

  /** The watchdog thread: whom it watches, since when, and when it next looks. */
  datatype Watchdog = Unstarted | Watching(target: nat, since: nat, wake: nat)

  datatype State = State(
    now: nat,
    shell: Shell,
    startup: Startup,
    signal: Signal,
    loop: Loop,
    slot: bool,             // the shared `Mutex<Option<ManagedChild>>` is `Some`
    backend: Backend,
    parentPid: nat,         // LOREGARDEN_PARENT_PID in the backend's environment
    exited: bool,           // the sidecar's `exited` flag
    watchdog: Watchdog,
    pidReused: bool,        // another process runs under the dead shell's pid
    calls: nat,             // calls of `terminate` so far
    sawExit: nat,           // how many returned having seen the child exit
    killed: nat,            // and how many returned by killing it
    dropped: nat)           // children whose handle was dropped without `terminate`

  function Initial(): State {
    State(0, Up, Starting, Listening, Idle, false, Unspawned, 0, false, Unstarted, false, 0, 0, 0, 0)
  }

  datatype Action =
    | SpawnFails | Spawn | BecomesReady | TimesOut | ReadinessPanics | Store | StartupPolls
    | SignalArrives | SignalTakes | SignalPolls
    | ExitEvent(last: bool) | LoopTakes | LoopPolls | LoopEnds
    | Crash
    | BackendExits | FlagIsSet | WatchdogStarts | WatchdogLooks
    | PidReused | Tick

  // ---------------------------------------------------------------- one step

  /** `has_exited`: the process itself in development, the flag another task sets for a sidecar. */
  predicate HasExited(c: Config, s: State) {
    match c.kind
    case Dev => s.backend == Gone
    case Sidecar => s.exited
  }

  /** `terminate`'s loop leaves: it saw the exit in time, or the grace is over. */
  predicate Leaves(c: Config, s: State, deadline: nat) {
    s.now >= deadline || HasExited(c, s)
  }

  /** What leaving does: past the deadline a process that is still there is killed outright. */
  function AfterTerminate(s: State, deadline: nat): State {
    if s.now >= deadline then
      s.(killed := s.killed + 1, backend := if s.backend.Gone? then Gone else Condemned)
    else s.(sawExit := s.sawExit + 1)
  }

  /** How many calls of `terminate` have returned. */
  function Returned(s: State): nat {
    s.sawExit + s.killed
  }

  predicate MutexFree(s: State) {
    !s.signal.EndingOnSignal?
  }

  datatype Probe = Delivered | NoSuchProcess | NotPermitted

  /** What `os.kill(pid, 0)` meets. A process under a reused pid may belong to someone else. */
  function ProbePid(c: Config, s: State, pid: nat): Probe {
    if pid == c.shellPid then
      if s.shell.Up? then Delivered else if s.pidReused then NotPermitted else NoSuchProcess
    else Delivered
  }

  /** `_process_alive`: only "no such process" means gone. */
  predicate ProcessAlive(p: Probe) {
    p != NoSuchProcess
  }

  predicate Enabled(c: Config, s: State, a: Action) {
    match a
    case SpawnFails => s.shell.Up? && s.startup.Starting?
    case Spawn => s.shell.Up? && s.startup.Starting?
    case BecomesReady => s.shell.Up? && s.startup.Waiting?
    case TimesOut => s.shell.Up? && s.startup.Waiting?
    case ReadinessPanics => s.shell.Up? && s.startup.Waiting?
    case Store => s.shell.Up? && s.startup.Ready? && MutexFree(s)
    case StartupPolls => s.shell.Up? && s.startup.EndingUnready? && Leaves(c, s, s.startup.deadline)
    case SignalArrives => s.shell.Up? && s.signal.Listening?
    case SignalTakes => s.shell.Up? && s.signal.Signalled?
    case SignalPolls => s.shell.Up? && s.signal.EndingOnSignal? && Leaves(c, s, s.signal.deadline)
    case ExitEvent(_) => s.shell.Up? && s.loop.Idle?
    case LoopTakes => s.shell.Up? && s.loop.Handling? && MutexFree(s)
    case LoopPolls => s.shell.Up? && s.loop.EndingOnExit? && Leaves(c, s, s.loop.deadline)
    case LoopEnds => s.shell.Up? && s.loop.Finished?
    case Crash => s.shell.Up?
    case BackendExits => s.backend.Alive? || s.backend.Condemned?
    case FlagIsSet => s.shell.Up? && s.backend.Gone? && c.kind.Sidecar?
    case WatchdogStarts => s.backend.Alive? && s.watchdog.Unstarted?
    case WatchdogLooks => s.backend.Alive? && s.watchdog.Watching? && s.now == s.watchdog.wake
    case PidReused => s.shell.Down?
    // A due look is not put off: time waits for it.
    case Tick => s.backend.Alive? && s.watchdog.Watching? ==> s.now < s.watchdog.wake
  }

  function AfterExitEvent(s: State, last: bool): State {
    s.(loop := if last then Finished else Idle)
  }

  function Do(c: Config, s: State, a: Action): State
    requires Enabled(c, s, a)
  {
    match a
    case SpawnFails => s.(startup := Failed)
    case Spawn => s.(startup := Waiting, backend := Alive, parentPid := c.shellPid)
    case BecomesReady => s.(startup := Ready)
    case TimesOut => s.(startup := EndingUnready(s.now + c.grace), calls := s.calls + 1)
    case ReadinessPanics => s.(startup := Failed, dropped := s.dropped + 1)
    case Store => s.(startup := Stored, slot := true)
    case StartupPolls => AfterTerminate(s, s.startup.deadline).(startup := Failed)
    case SignalArrives => s.(signal := Signalled)
    case SignalTakes =>
      if s.slot then s.(slot := false, signal := EndingOnSignal(s.now + c.grace), calls := s.calls + 1)
      else s.(shell := Down(s.now))
    case SignalPolls => AfterTerminate(s, s.signal.deadline).(signal := Signalled, shell := Down(s.now))
    case ExitEvent(last) => s.(loop := Handling(last))
    case LoopTakes =>
      if s.slot then s.(slot := false, loop := EndingOnExit(s.now + c.grace, s.loop.last), calls := s.calls + 1)
      else AfterExitEvent(s, s.loop.last)
    case LoopPolls => AfterExitEvent(AfterTerminate(s, s.loop.deadline), s.loop.last)
    case LoopEnds => s.(shell := Down(s.now))
    case Crash => s.(shell := Down(s.now))
    case BackendExits => s.(backend := Gone)
    case FlagIsSet => s.(exited := true)
    case WatchdogStarts => s.(watchdog := Watching(s.parentPid, s.now, s.now + c.poll))
    case WatchdogLooks =>
      if ProcessAlive(ProbePid(c, s, s.watchdog.target)) then s.(watchdog := s.watchdog.(wake := s.now + c.poll))
      else s.(backend := Gone)
    case PidReused => s.(pidReused := true)
    case Tick => s.(now := s.now + 1)
  }

  // ---------------------------------------------------------------- runs

  /** These actions can be taken in this order from the start. */
  ghost predicate IsRun(c: Config, actions: seq<Action>)
    decreases |actions|, 0
  {
    actions == [] ||
    (IsRun(c, actions[..|actions| - 1]) && Enabled(c, Reached(c, actions[..|actions| - 1]), actions[|actions| - 1]))
  }

  ghost function Reached(c: Config, actions: seq<Action>): State
    requires IsRun(c, actions)
    decreases |actions|, 1
  {
    if actions == [] then Initial()
    else Do(c, Reached(c, actions[..|actions| - 1]), actions[|actions| - 1])
  }

  // ---------------------------------------------------------------- the invariant

  function Count(b: bool): nat {
    if b then 1 else 0
  }

  /** How many places hold the child: the startup task, the slot, and the two handlers. */
  function Holders(s: State): nat {
    Count(s.startup.Waiting? || s.startup.Ready? || s.startup.EndingUnready?) + Count(s.slot)
    + Count(s.signal.EndingOnSignal?) + Count(s.loop.EndingOnExit?)
  }

  /** How many of them are inside `terminate`. */
  function Ending(s: State): nat {
    Count(s.startup.EndingUnready?) + Count(s.signal.EndingOnSignal?) + Count(s.loop.EndingOnExit?)
  }

  function Max(a: nat, b: nat): nat {
    if a < b then b else a
  }

  ghost predicate Owned(s: State) {
    && Holders(s) + Returned(s) + s.dropped == Count(s.backend != Unspawned)
    && s.calls == Ending(s) + Returned(s)
    && (s.startup.Starting? ==> s.backend.Unspawned?)
    && (Returned(s) > 0 ==> s.backend.Gone? || s.backend.Condemned?)
    && (s.sawExit > 0 ==> s.backend.Gone?)
    && (s.backend.Condemned? ==> s.killed > 0)
    && (s.exited ==> s.backend.Gone?)
    && (s.dropped > 0 ==> s.startup.Failed?)
    && (s.startup.Stored? ==> s.backend != Unspawned)
  }

  ghost predicate Watched(c: Config, s: State) {
    && (s.startup.Starting? ==> s.backend.Unspawned?)
    && (s.backend != Unspawned ==> s.parentPid == c.shellPid)
    && (s.watchdog.Watching? ==>
          && s.backend != Unspawned
          && s.watchdog.target == c.shellPid
          && s.watchdog.since <= s.now && s.watchdog.wake <= s.now + c.poll)
    && (s.shell.Down? ==> s.shell.at <= s.now)
    && (s.shell.Up? ==> !s.pidReused)
    && (s.backend.Alive? && s.watchdog.Watching? ==>
          && s.now <= s.watchdog.wake
          && (s.shell.Down? && !s.pidReused ==> s.watchdog.wake <= Max(s.shell.at, s.watchdog.since) + c.poll))
  }

  ghost predicate Inv(c: Config, s: State) {
    Owned(s) && Watched(c, s)
  }

  predicate OfStartup(a: Action) {
    a in {SpawnFails, Spawn, BecomesReady, TimesOut, ReadinessPanics, Store, StartupPolls}
  }

  lemma OwnedStartup(c: Config, s: State, a: Action)
    requires Owned(s) && Enabled(c, s, a) && OfStartup(a)
    ensures Owned(Do(c, s, a))
  {
  }

  predicate OfSignal(a: Action) {
    a in {SignalArrives, SignalTakes, SignalPolls}
  }

  lemma OwnedSignal(c: Config, s: State, a: Action)
    requires Owned(s) && Enabled(c, s, a) && OfSignal(a)
    ensures Owned(Do(c, s, a))
  {
  }

  predicate OfLoop(a: Action) {
    a.ExitEvent? || a in {LoopTakes, LoopPolls, LoopEnds}
  }

  lemma OwnedLoop(c: Config, s: State, a: Action)
    requires Owned(s) && Enabled(c, s, a) && OfLoop(a)
    ensures Owned(Do(c, s, a))
  {
  }

  lemma OwnedOther(c: Config, s: State, a: Action)
    requires Owned(s) && Enabled(c, s, a) && !OfStartup(a) && !OfSignal(a) && !OfLoop(a)
    ensures Owned(Do(c, s, a))
  {
  }

  lemma WatchedStartup(c: Config, s: State, a: Action)
    requires c.Valid() && Inv(c, s) && Enabled(c, s, a) && OfStartup(a)
    ensures Watched(c, Do(c, s, a))
  {
  }

  lemma WatchedOther(c: Config, s: State, a: Action)
    requires c.Valid() && Inv(c, s) && Enabled(c, s, a) && !OfStartup(a)
    ensures Watched(c, Do(c, s, a))
  {
  }

  lemma InvStep(c: Config, s: State, a: Action)
    requires c.Valid() && Inv(c, s) && Enabled(c, s, a)
    ensures Inv(c, Do(c, s, a))
  {
    hide Owned, Watched, Enabled, Do, OfStartup, OfSignal, OfLoop;
    if OfStartup(a) {
      OwnedStartup(c, s, a);
      WatchedStartup(c, s, a);
    } else {
      if OfSignal(a) {
        OwnedSignal(c, s, a);
      } else if OfLoop(a) {
        OwnedLoop(c, s, a);
      } else {
        OwnedOther(c, s, a);
      }
      WatchedOther(c, s, a);
    }
  }

  predicate Fresh(s: State) {
    && s.shell == Up && s.startup == Starting && s.signal == Listening && s.loop == Idle && !s.slot
    && s.backend == Unspawned && !s.exited && s.watchdog == Unstarted
    && !s.pidReused && s.calls == 0 && s.sawExit == 0 && s.killed == 0 && s.dropped == 0
  }

  lemma StartIsFresh()
    ensures Fresh(Initial())
  {
  }

  lemma FreshIsOwned(s: State)
    requires Fresh(s)
    ensures Owned(s)
  {
  }

  lemma FreshIsWatched(c: Config, s: State)
    requires Fresh(s)
    ensures Watched(c, s)
  {
  }

  lemma InvStart(c: Config)
    ensures Inv(c, Initial())
  {
    hide Owned, Watched, Initial, Fresh;
    StartIsFresh();
    FreshIsOwned(Initial());
    FreshIsWatched(c, Initial());
  }

  lemma {:induction false} InvRun(c: Config, actions: seq<Action>)
    requires c.Valid() && IsRun(c, actions)
    ensures Inv(c, Reached(c, actions))
  {
    hide Inv, Initial, Enabled, Do;
    if actions == [] {
      InvStart(c);
    } else {
      var before := actions[..|actions| - 1];
      InvRun(c, before);
      InvStep(c, Reached(c, before), actions[|actions| - 1]);
    }
  }

  // ---------------------------------------------------------------- ownership

  /** In every interleaving a spawned child has exactly one owner until `terminate` has
      returned for it, or its handle was dropped because the readiness task panicked; and it
      is passed to `terminate` at most once, the not-ready path included. */
  lemma OneOwner(c: Config, actions: seq<Action>)
    requires c.Valid() && IsRun(c, actions)
    ensures var s := Reached(c, actions);
            && Holders(s) == Count(s.backend != Unspawned && Returned(s) == 0 && s.dropped == 0)
            && Returned(s) + s.dropped <= 1
            && s.calls <= 1
            && (s.calls == 1 ==> Ending(s) + Returned(s) == 1 && !s.slot && s.dropped == 0)
  {
    InvRun(c, actions);
  }

  /** Once `terminate` has returned, the backend is gone, or it was killed and has yet to go;
      and having seen the exit means that it is gone. Nothing else condemns a backend. */
  lemma TerminatedIsGone(c: Config, actions: seq<Action>)
    requires c.Valid() && IsRun(c, actions)
    ensures var s := Reached(c, actions);
            && (Returned(s) > 0 ==> s.backend.Gone? || s.backend.Condemned?)
            && (s.sawExit > 0 ==> s.backend.Gone?)
            && (s.backend.Condemned? ==> s.killed == 1)
  {
    InvRun(c, actions);
  }

  /** A call returns without killing only in a step before its deadline that sees the exit,
      kills exactly when the deadline has come, and leaves the backend gone or condemned. */
  lemma ReturnSawExitOrKilled(c: Config, actions: seq<Action>, a: Action)
    requires c.Valid() && IsRun(c, actions) && Enabled(c, Reached(c, actions), a)
    ensures var s, s' := Reached(c, actions), Do(c, Reached(c, actions), a);
            && s.sawExit <= s'.sawExit && s.killed <= s'.killed
            && (Returned(s) < Returned(s') ==>
                  Ending(s) == 1 && Ending(s') == 0 && (s'.backend.Gone? || s'.backend.Condemned?))
            && (s.sawExit < s'.sawExit ==> s'.backend.Gone? && (c.kind.Sidecar? ==> s.exited))
            && (a == StartupPolls ==> (s.killed < s'.killed <==> s.now >= s.startup.deadline))
            && (a == SignalPolls ==> (s.killed < s'.killed <==> s.now >= s.signal.deadline))
            && (a == LoopPolls ==> (s.killed < s'.killed <==> s.now >= s.loop.deadline))
            && (Returned(s') == Returned(s) + Count(a in {StartupPolls, SignalPolls, LoopPolls}))
  {
    InvRun(c, actions);
    InvStep(c, Reached(c, actions), a);
  }

  /** `terminate` is called by the startup task when the backend did not become ready in time,
      and by the two handlers when they find a child in the slot, which they empty; and its
      deadline is the grace from then. */
  lemma TerminateStarts(c: Config, actions: seq<Action>, a: Action)
    requires c.Valid() && IsRun(c, actions) && Enabled(c, Reached(c, actions), a)
    ensures var s, s' := Reached(c, actions), Do(c, Reached(c, actions), a);
            && s'.calls == s.calls + Count(a == TimesOut || (s.slot && (a == SignalTakes || a == LoopTakes)))
            && (s.calls < s'.calls ==> !s'.slot)
            && (a == TimesOut ==> s.startup.Waiting? && s'.startup == EndingUnready(s.now + c.grace))
            && (s.slot && a == SignalTakes ==> s'.signal == EndingOnSignal(s.now + c.grace))
            && (s.slot && a == LoopTakes ==> s'.loop.EndingOnExit? && s'.loop.deadline == s.now + c.grace)
  {
    InvRun(c, actions);
  }

  /** The shell ends in a crash, when the event loop has ended, and when the signal thread has
      found the slot empty or has terminated what was in it; in no other step. */
  lemma ShellEnds(c: Config, actions: seq<Action>, a: Action)
    requires c.Valid() && IsRun(c, actions) && Enabled(c, Reached(c, actions), a) && Reached(c, actions).shell.Up?
    ensures var s, s' := Reached(c, actions), Do(c, Reached(c, actions), a);
            s'.shell == if a in {Crash, LoopEnds, SignalPolls} || (a == SignalTakes && !s.slot) then Down(s.now) else Up
  {
    hide IsRun;
  }

  /** A live backend stops being one by exiting, by being killed when the grace was over, or by
      a look of its watchdog that finds the shell dead under a pid not in use again. */
  lemma BackendEnds(c: Config, actions: seq<Action>, a: Action)
    requires c.Valid() && IsRun(c, actions) && Enabled(c, Reached(c, actions), a) && Reached(c, actions).backend.Alive?
    ensures var s, s' := Reached(c, actions), Do(c, Reached(c, actions), a);
            s'.backend.Alive? <==>
              && a != BackendExits
              && s'.killed == s.killed
              && !(a == WatchdogLooks && s.shell.Down? && !s.pidReused)
  {
    InvRun(c, actions);
  }

  /** The shell's orderly ways out leave a live backend behind only when its handle was, at
      that moment, still somewhere no handler had reached, or being terminated elsewhere. */
  lemma LiveBackendHasHandle(c: Config, actions: seq<Action>)
    requires c.Valid() && IsRun(c, actions) && Reached(c, actions).backend.Alive?
    ensures var s := Reached(c, actions);
            || s.dropped == 1
            || s.startup in {Waiting, Ready} || s.slot
            || Ending(s) == 1
  {
    InvRun(c, actions);
  }

  /** A child reaches the slot only after it became ready, and before it became so none does. */
  lemma {:induction false} ReadyBeforeStored(c: Config, actions: seq<Action>)
    requires IsRun(c, actions)
    ensures var s := Reached(c, actions);
            && (s.slot ==> s.startup.Stored?)
            && (s.startup.Ready? || s.startup.Stored? ==> Spawn in actions && BecomesReady in actions)
            && (s.startup.Waiting? ==> Spawn in actions)
  {
    if actions == [] {
    } else {
      var before, a := actions[..|actions| - 1], actions[|actions| - 1];
      ReadyBeforeStored(c, before);
      assert actions == before + [a];
      ReadyStep(c, Reached(c, before), a);
    }
  }

  lemma ReadyStep(c: Config, s: State, a: Action)
    requires Enabled(c, s, a) && (s.slot ==> s.startup.Stored?)
    ensures var s' := Do(c, s, a);
            && (s'.slot ==> s'.startup.Stored?)
            && (s'.startup.Stored? ==> s.startup.Stored? || s.startup.Ready?)
            && (s'.startup.Ready? ==> s.startup.Ready? || (s.startup.Waiting? && a == BecomesReady))
            && (s'.startup.Waiting? ==> s.startup.Waiting? || a == Spawn)
  {
  }

  /** When the event loop is done with an exit event the slot is empty, and a child that had
      reached the slot by then is gone or condemned, and the signal thread is not at work: the
      event loop waits for its mutex. Only `Exit` ends the loop. */
  lemma ExitHandled(c: Config, actions: seq<Action>, a: Action)
    requires c.Valid() && IsRun(c, actions) && Enabled(c, Reached(c, actions), a)
    requires a in {LoopTakes, LoopPolls} && !Do(c, Reached(c, actions), a).loop.EndingOnExit?
    ensures var s, s' := Reached(c, actions), Do(c, Reached(c, actions), a);
            && !s'.slot
            && !s.signal.EndingOnSignal? && !s'.signal.EndingOnSignal?
            && (s'.startup.Stored? ==> s'.backend.Gone? || s'.backend.Condemned?)
            && s'.loop == if s.loop.last then Finished else Idle
  {
    InvRun(c, actions);
  }

  // ---------------------------------------------------------------- no orphan

  /** The backstop: wherever the shell is dead and the backend alive, the backend was told
      the shell's pid, its watchdog watches that pid, and no more than one poll interval has
      passed since the later of the shell's death and the watchdog's start. */
  lemma NoOrphan(c: Config, actions: seq<Action>)
    requires c.Valid() && IsRun(c, actions)
    requires var s := Reached(c, actions); s.shell.Down? && s.backend.Alive?
    ensures var s := Reached(c, actions);
            && s.parentPid == c.shellPid
            && (s.watchdog.Watching? ==>
                  && s.watchdog.target == c.shellPid
                  && (!s.pidReused ==> s.now <= Max(s.shell.at, s.watchdog.since) + c.poll))
  {
    InvRun(c, actions);
  }

  /** Time is never stuck: when a look is due it can be taken, and then the clock can move. */
  lemma ClockAdvances(c: Config, actions: seq<Action>)
    requires c.Valid() && IsRun(c, actions)
    ensures var s := Reached(c, actions);
            || Enabled(c, s, Tick)
            || (Enabled(c, s, WatchdogLooks) && Enabled(c, Do(c, s, WatchdogLooks), Tick))
  {
    InvRun(c, actions);
  }

  /** A look ends the backend exactly when the shell is dead and nothing else has come to run
      under its pid. Otherwise it changes nothing, and the next one is a poll interval away. */
  lemma DueLookEnds(c: Config, actions: seq<Action>)
    requires c.Valid() && IsRun(c, actions) && Enabled(c, Reached(c, actions), WatchdogLooks)
    ensures var s, s' := Reached(c, actions), Do(c, Reached(c, actions), WatchdogLooks);
            && (s'.backend.Gone? <==> s.shell.Down? && !s.pidReused)
            && (s'.backend.Gone? ==> s' == s.(backend := Gone))
            && (!s'.backend.Gone? ==> s' == s.(watchdog := Watching(c.shellPid, s.watchdog.since, s.now + c.poll)))
  {
    InvRun(c, actions);
  }

  lemma Extend(c: Config, actions: seq<Action>, a: Action)
    requires IsRun(c, actions) && Enabled(c, Reached(c, actions), a)
    ensures IsRun(c, actions + [a]) && Reached(c, actions + [a]) == Do(c, Reached(c, actions), a)
  {
    assert (actions + [a])[..|actions + [a]| - 1] == actions;
  }

  // ---------------------------------------------------------------- what can happen

  /** Two states alike but for the time and the watchdog's next look. */
  predicate Later(s: State, s': State, ticks: nat) {
    s' == s.(now := s.now + ticks, watchdog := s'.watchdog) && s.shell.Up?
  }

  lemma TickUp(c: Config, actions: seq<Action>) returns (more: seq<Action>)
    requires c.Valid() && IsRun(c, actions) && Reached(c, actions).shell.Up?
    ensures IsRun(c, more) && Later(Reached(c, actions), Reached(c, more), 1)
  {
    hide IsRun, Reached, Inv;
    more := actions;
    InvRun(c, more);
    var s := Reached(c, more);
    assert Watched(c, s) by { InvIsWatched(c, s); }
    if !Enabled(c, s, Tick) {
      Extend(c, more, WatchdogLooks);
      more := more + [WatchdogLooks];
    }
    Extend(c, more, Tick);
    more := more + [Tick];
  }

  lemma InvIsWatched(c: Config, s: State)
    requires Inv(c, s)
    ensures Watched(c, s)
  {
    hide Owned, Watched;
  }

  lemma {:induction false} WaitUp(c: Config, actions: seq<Action>, ticks: nat) returns (more: seq<Action>)
    requires c.Valid() && IsRun(c, actions) && Reached(c, actions).shell.Up?
    ensures IsRun(c, more) && Later(Reached(c, actions), Reached(c, more), ticks)
    decreases ticks
  {
    hide IsRun, Reached;
    more := actions;
    if ticks > 0 {
      more := TickUp(c, actions);
      more := WaitUp(c, more, ticks - 1);
    }
  }

  /** From any state with the shell up, a signal can bring it down. */
  lemma SignalCanEnd(c: Config, actions: seq<Action>) returns (more: seq<Action>)
    requires c.Valid() && IsRun(c, actions) && Reached(c, actions).shell.Up?
    ensures IsRun(c, more) && Reached(c, more).shell.Down? && !Reached(c, more).pidReused
  {
    hide IsRun, Reached, Inv;
    more := actions;
    InvRun(c, actions);
    InvIsWatched(c, Reached(c, actions));
    if Reached(c, more).signal.Listening? {
      Extend(c, more, SignalArrives);
      more := more + [SignalArrives];
    }
    if Reached(c, more).signal.Signalled? {
      Extend(c, more, SignalTakes);
      more := more + [SignalTakes];
    }
    if Reached(c, more).shell.Up? {
      var s := Reached(c, more);
      var wait := if s.now < s.signal.deadline then s.signal.deadline - s.now else 0;
      more := WaitUp(c, more, wait);
      Extend(c, more, SignalPolls);
      more := more + [SignalPolls];
    }
  }

  lemma {:induction false} WaitForLook(c: Config, actions: seq<Action>) returns (more: seq<Action>)
    requires c.Valid() && IsRun(c, actions)
    requires var s := Reached(c, actions); s.shell.Down? && !s.pidReused && s.backend.Alive? && s.watchdog.Watching?
    ensures IsRun(c, more)
    ensures var s := Reached(c, more); s.shell.Down? && !s.pidReused && Enabled(c, s, WatchdogLooks)
    decreases Reached(c, actions).watchdog.wake - Reached(c, actions).now
  {
    hide IsRun, Reached, Inv;
    InvRun(c, actions);
    var s := Reached(c, actions);
    InvIsWatched(c, s);
    more := actions;
    if s.now < s.watchdog.wake {
      Extend(c, actions, Tick);
      more := WaitForLook(c, actions + [Tick]);
    }
  }

  /** No state is a dead end: from any that can be reached with the shell up, the shell can
      come down with the backend not alive, through the signal thread and the watchdog. */
  lemma ShutdownPossible(c: Config, actions: seq<Action>) returns (more: seq<Action>)
    requires c.Valid() && IsRun(c, actions) && Reached(c, actions).shell.Up?
    ensures IsRun(c, more) && Reached(c, more).shell.Down? && !Reached(c, more).backend.Alive?
  {
    hide IsRun, Reached, Inv;
    more := SignalCanEnd(c, actions);
    if Reached(c, more).backend.Alive? {
      if Reached(c, more).watchdog.Unstarted? {
        Extend(c, more, WatchdogStarts);
        more := more + [WatchdogStarts];
      }
      more := WaitForLook(c, more);
      DueLookEnds(c, more);
      Extend(c, more, WatchdogLooks);
      more := more + [WatchdogLooks];
    }
  }

  /** The orderly run can happen: the backend starts, becomes ready and is stored; on exit the
      event loop takes it, sees it go within the grace, and the shell ends. */
  lemma OrderlyRun(c: Config) returns (actions: seq<Action>)
    requires c.Valid() && c.grace > 0
    ensures IsRun(c, actions)
    ensures var s := Reached(c, actions);
            s.shell.Down? && s.startup.Stored? && s.backend.Gone? && s.calls == 1 && s.sawExit == 1 && s.killed == 0
  {
    hide IsRun, Reached;
    actions := StoredRun(c);
    Extend(c, actions, ExitEvent(true));
    actions := actions + [ExitEvent(true)];
    Extend(c, actions, LoopTakes);
    actions := actions + [LoopTakes];
    Extend(c, actions, BackendExits);
    actions := actions + [BackendExits];
    if c.kind.Sidecar? {
      Extend(c, actions, FlagIsSet);
      actions := actions + [FlagIsSet];
    }
    Extend(c, actions, LoopPolls);
    actions := actions + [LoopPolls];
    Extend(c, actions, LoopEnds);
    actions := actions + [LoopEnds];
  }

  lemma StoredRun(c: Config) returns (actions: seq<Action>)
    requires c.Valid()
    ensures IsRun(c, actions)
    ensures var s := Reached(c, actions);
            && s.now == 0 && s.shell.Up? && s.startup.Stored? && s.slot && s.signal.Listening? && s.loop.Idle?
            && s.backend.Alive? && s.calls == s.sawExit == s.killed == 0
  {
    hide IsRun, Reached;
    EmptyRun(c);
    Extend(c, [], Spawn);
    assert [] + [Spawn] == [Spawn];
    Extend(c, [Spawn], BecomesReady);
    Extend(c, [Spawn] + [BecomesReady], Store);
    actions := [Spawn] + [BecomesReady] + [Store];
  }

  /** An orphan whose shell's pid is in use again, with a watchdog that looks on time. */
  ghost predicate Orphaned(c: Config, s: State) {
    && s.shell.Down? && s.backend.Alive? && s.pidReused
    && s.watchdog.Watching? && s.watchdog.target == c.shellPid && s.now <= s.watchdog.wake
  }

  /** Such a state can be left for one just like it, a tick later. */
  lemma OrphanTicks(c: Config, actions: seq<Action>) returns (more: seq<Action>)
    requires c.Valid() && IsRun(c, actions) && Orphaned(c, Reached(c, actions))
    ensures IsRun(c, more)
    ensures var s, s' := Reached(c, actions), Reached(c, more);
            && Orphaned(c, s') && s'.now == s.now + 1
            && s'.shell == s.shell && s'.watchdog.since == s.watchdog.since
  {
    hide IsRun, Reached;
    more := actions;
    var s := Reached(c, more);
    if s.now == s.watchdog.wake {
      Extend(c, more, WatchdogLooks);
      more := more + [WatchdogLooks];
    }
    Extend(c, more, Tick);
    more := more + [Tick];
  }

  lemma {:induction false} OrphanLasts(c: Config, actions: seq<Action>, ticks: nat) returns (more: seq<Action>)
    requires c.Valid() && IsRun(c, actions) && Orphaned(c, Reached(c, actions))
    ensures IsRun(c, more)
    ensures var s, s' := Reached(c, actions), Reached(c, more);
            && Orphaned(c, s') && s'.now == s.now + ticks
            && s'.shell == s.shell && s'.watchdog.since == s.watchdog.since
    decreases ticks
  {
    hide IsRun, Reached, Orphaned;
    if ticks == 0 {
      more := actions;
    } else {
      more := OrphanTicks(c, actions);
      more := OrphanLasts(c, more, ticks - 1);
    }
  }

  lemma OrphanStart(c: Config) returns (actions: seq<Action>)
    requires c.Valid()
    ensures IsRun(c, actions) && Orphaned(c, Reached(c, actions))
  {
    hide IsRun, Reached;
    EmptyRun(c);
    Extend(c, [], Spawn);
    Extend(c, [Spawn], WatchdogStarts);
    assert [Spawn] + [WatchdogStarts] == [Spawn, WatchdogStarts];
    Extend(c, [Spawn, WatchdogStarts], Crash);
    assert [Spawn, WatchdogStarts] + [Crash] == [Spawn, WatchdogStarts, Crash];
    Extend(c, [Spawn, WatchdogStarts, Crash], PidReused);
    actions := [Spawn, WatchdogStarts, Crash] + [PidReused];
  }

  /** That the pid is not reused is needed: with any poll interval there are runs in which it
      is, and the backend outlives the bound by as long as one likes. */
  lemma ReusedPidKeepsOrphan(c: Config, excess: nat) returns (actions: seq<Action>)
    requires c.Valid()
    ensures IsRun(c, actions)
    ensures var s := Reached(c, actions);
            && s.shell.Down? && s.backend.Alive? && s.watchdog.Watching?
            && s.now > Max(s.shell.at, s.watchdog.since) + c.poll + excess
  {
    hide IsRun, Reached;
    actions := OrphanStart(c);
    var s := Reached(c, actions);
    actions := OrphanLasts(c, actions, Max(s.shell.at, s.watchdog.since) + c.poll + excess + 1);
  }

  lemma EmptyRun(c: Config)
    ensures IsRun(c, []) && Reached(c, []) == Initial()
  {
  }
}
