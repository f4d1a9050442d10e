/**
 The companion tunnel worker's registration lifecycle (src/client/client-companion-tunnel-worker.ts)
 as a machine whose steps are the stretches of code between two awaits. Network outcomes, signals,
 lease checks and timers are events that may arrive in any order the suspended loop allows.
 */
module TunnelProtocol {
  import opened Wrappers

  const MAX_RETRY_DELAY_MS: nat := 60_000

  /** A delay the server asked for, as `retryDelayFromResponse` lets it through. */
  type RetryDelay = ms: nat | ms <= MAX_RETRY_DELAY_MS

  /** `clampRetryDelay`, which every delay read from a response goes through */
  function ClampRetryDelay(ms: real): (r: RetryDelay)
    ensures 0.0 <= ms <= 60_000.0 ==> ms <= r as real < ms + 1.0
    ensures ms <= 0.0 ==> r == 0
    ensures ms >= 60_000.0 ==> r == MAX_RETRY_DELAY_MS
  {
    var whole := -((-ms).Floor);
    if whole < 0 then 0 else if whole > MAX_RETRY_DELAY_MS then MAX_RETRY_DELAY_MS else whole
  }

  /** `nextRetryDelay` */
  function NextRetryDelay(ms: nat): nat {
    if ms * 2 < MAX_RETRY_DELAY_MS then ms * 2 else MAX_RETRY_DELAY_MS
  }

  /** What the loop does once the unregister it awaits has settled. */
  datatype Resume = LeaveLoop | HandleError | GoOn

  /** Where the loop is suspended. */
  datatype Pc = Begin | Registering | Opening | Bridged | Unregistering(next: Resume) | Delaying | Exited

  /** What the bridge server, the timers and the process observe, in order. */
  datatype Action =
    | RegisterStarted
    | RegisterFailed(failure: Failure)
    | RegisterSucceeded
    | UnregisterStarted
    | UnregisterFinished
    | ShutdownRequested
    | Waited(ms: nat, ownSchedule: bool)

  datatype Config = Config(reconnectDelayMs: nat, hasExit: bool)

  datatype State = State(pc: Pc, halted: bool, shutdownRequested: bool, registered: bool,
                         activeRegistrationComplete: bool, unregisterInFlight: bool, bridgeSocket: bool,
                         retryDelayMs: nat, log: seq<Action>)

  /** An error the loop catches: it may end the loop, or carry the server's own retry delay. */
  datatype Failure = Failure(retryable: bool, retryAfterMs: Option<RetryDelay>)

  /** `keep` and `keepAfter` are the answers of successive looks at the state file. */
  datatype Event =
    | Enter(keep: bool)
    | RegisterOk(keep: bool, socketConstructed: bool)
    | RegisterFail(failure: Failure, keep: bool, keepAfter: bool)
    | SocketOpened
    | SocketFailed(keep: bool, keepAfter: bool)
    | BridgeEnded(keep: bool)
    | UnregisterSettled
    | ResumeLoop(keep: bool, keepAfter: bool)
    | DelayElapsed(keep: bool)
    | Shutdown
    | HardExit

  function Initial(c: Config): State {
    State(Begin, false, false, false, false, false, false, c.reconnectDelayMs, [])
  }

  function Log(s: State, a: Action): State {
    s.(log := s.log + [a])
  }

  /** `unregisterActiveRegistration` up to its await. */
  function StartUnregister(s: State): State {
    if !s.activeRegistrationComplete || s.unregisterInFlight then s
    else Log(s.(unregisterInFlight := true), UnregisterStarted)
  }

  /** The head of the loop, up to the register request. */
  function LoopHead(s: State, keep: bool): State {
    if !s.shutdownRequested && keep then
      Log(s.(pc := Registering, registered := false, activeRegistrationComplete := false), RegisterStarted)
    else s.(pc := Exited)
  }

  /** The end of the loop body, up to the wait. */
  function Wait(s: State, override: Option<RetryDelay>, keep: bool): State {
    if s.shutdownRequested || !keep then s.(pc := Exited)
    else
      match override
      case Some(ms) => Log(s.(pc := Delaying), Waited(ms, false))
      case None => Log(s.(pc := Delaying, retryDelayMs := NextRetryDelay(s.retryDelayMs)), Waited(s.retryDelayMs, true))
  }

  /** The catch block after it has made sure nothing is registered. */
  function Caught(s: State, f: Failure, keep: bool, keepAfter: bool): State {
    if s.shutdownRequested || !keep || !f.retryable then s.(pc := Exited)
    else Wait(s, f.retryAfterMs, keepAfter)
  }

  /** An error that is no registration error: retried on the loop's own schedule. */
  const OTHER_ERROR: Failure := Failure(true, None)

  function Registered(c: Config, s: State, keep: bool, socketConstructed: bool): State {
    var t := Log(s.(retryDelayMs := c.reconnectDelayMs, registered := true, activeRegistrationComplete := true),
      RegisterSucceeded);
    if t.shutdownRequested || !keep then StartUnregister(t).(pc := Unregistering(LeaveLoop))
    else if !socketConstructed then StartUnregister(t.(bridgeSocket := false)).(pc := Unregistering(HandleError))
    else t.(bridgeSocket := true, pc := Opening)
  }

  /** The inner finally block, entered with or without an error. */
  function BridgeOver(s: State, failed: bool, keep: bool, keepAfter: bool): State {
    var t := s.(bridgeSocket := false);
    if t.registered then StartUnregister(t).(pc := Unregistering(if failed then HandleError else GoOn))
    else if failed then Caught(t, OTHER_ERROR, keep, keepAfter)
    else Wait(t, None, keep)
  }

  function Resumed(s: State, next: Resume, keep: bool, keepAfter: bool): State {
    var t := s.(registered := false);
    match next
    case LeaveLoop => t.(pc := Exited)
    case HandleError => Caught(t.(bridgeSocket := false), OTHER_ERROR, keep, keepAfter)
    case GoOn => Wait(t, None, keep)
  }

  function UnregisterDone(s: State): State {
    Log(s.(activeRegistrationComplete := false, unregisterInFlight := false), UnregisterFinished)
  }

  /** `requestShutdown` */
  function RequestShutdown(s: State): State {
    if s.shutdownRequested then s
    else
      var t := Log(s.(shutdownRequested := true), ShutdownRequested);
      if t.activeRegistrationComplete then StartUnregister(t) else t
  }

  /** Whether the event can reach the worker in this state. */
  predicate Enabled(c: Config, s: State, e: Event) {
    !s.halted &&
    match e
    case Enter(_) => s.pc == Begin
    case RegisterOk(_, _) => s.pc == Registering
    case RegisterFail(_, _, _) => s.pc == Registering
    case SocketOpened => s.pc == Opening
    case SocketFailed(_, _) => s.pc == Opening
    case BridgeEnded(_) => s.pc == Bridged
    case UnregisterSettled => s.unregisterInFlight
    case ResumeLoop(_, _) => s.pc.Unregistering? && !s.unregisterInFlight
    case DelayElapsed(_) => s.pc == Delaying
    case Shutdown => s.pc != Begin && s.pc != Exited
    case HardExit => s.shutdownRequested && c.hasExit
  }

  function Step(c: Config, s: State, e: Event): State {
    if !Enabled(c, s, e) then s
    else
      match e
      case Enter(keep) => LoopHead(s, keep)
      case RegisterOk(keep, constructed) => Registered(c, s, keep, constructed)
      case RegisterFail(f, keep, keepAfter) => Caught(Log(s, RegisterFailed(f)), f, keep, keepAfter)
      case SocketOpened => s.(pc := Bridged)
      case SocketFailed(keep, keepAfter) => BridgeOver(s, true, keep, keepAfter)
      case BridgeEnded(keep) => BridgeOver(s, false, keep, keep)
      case UnregisterSettled => UnregisterDone(s)
      case ResumeLoop(keep, keepAfter) => Resumed(s, s.pc.next, keep, keepAfter)
      case DelayElapsed(keep) => LoopHead(s, keep)
      case Shutdown => RequestShutdown(s)
      case HardExit => s.(halted := true)
  }

  /** Any run: any events, in any order. */
  function Run(c: Config, events: seq<Event>): State {
    if events == [] then Initial(c) else Step(c, Run(c, events[..|events| - 1]), events[|events| - 1])
  }

  // ---- the registration discipline, as an automaton over what is observed ----

  datatype Phase = Idle | Asking | Live | Leaving

  /**
   `ownWaits` counts the waits taken on the loop's own schedule since the last success, and `asked`
   is the delay the server asked for when it last refused; `fatal` records a refusal for good.
   */
  datatype Watch = Watch(phase: Phase, down: bool, ownWaits: nat, asked: Option<RetryDelay>, fatal: bool)

  /** The loop's own delay after k waits on its own schedule. */
  function Backoff(base: nat, k: nat): nat {
    if k == 0 then base else NextRetryDelay(Backoff(base, k - 1))
  }

  /** The next phase; `None` once the discipline has been broken. */
  function Observe(base: nat, w: Option<Watch>, a: Action): Option<Watch> {
    match w
    case None => None
    case Some(Watch(p, down, k, asked, fatal)) =>
      match a
      case RegisterStarted =>
        if p == Idle && !down && !fatal then Some(w.value.(phase := Asking, asked := None)) else None
      case RegisterFailed(f) =>
        if p == Asking then Some(Watch(Idle, down, k, f.retryAfterMs, fatal || !f.retryable)) else None
      case RegisterSucceeded => if p == Asking then Some(Watch(Live, down, 0, None, fatal)) else None
      case UnregisterStarted => if p == Live then Some(w.value.(phase := Leaving)) else None
      case UnregisterFinished => if p == Leaving then Some(w.value.(phase := Idle)) else None
      case ShutdownRequested => if !down then Some(w.value.(down := true)) else None
      case Waited(ms, own) =>
        if p != Idle || down || fatal || own != asked.None? then None
        else if own then (if ms == Backoff(base, k) then Some(w.value.(ownWaits := k + 1)) else None)
        else if ms == asked.value then Some(w.value) else None
  }

  /**
   Registrations never overlap, each success is followed by at most one unregister before the next
   request, no request or wait is begun while a registration is live, while an unregister is in
   flight, after shutdown or after a refusal for good, and every wait is the one the server asked for, capped,
   or the scheduled one.
   */
  function Judge(base: nat, log: seq<Action>): Option<Watch> {
    if log == [] then Some(Watch(Idle, false, 0, None, false))
    else Observe(base, Judge(base, log[..|log| - 1]), log[|log| - 1])
  }

  predicate IsIdlePc(pc: Pc) {
    pc == Begin || pc == Delaying || pc == Exited
  }

  /** How the worker's own flags relate to what has been observed. */
  predicate Fits(base: nat, s: State, w: Watch) {
    && w.down == s.shutdownRequested
    && (w.down ==> w.phase != Live)
    && (w.asked.Some? ==> IsIdlePc(s.pc))
    && (w.fatal ==> s.pc == Exited)
    && s.retryDelayMs == Backoff(base, w.ownWaits)
    && (w.phase == Asking <==> s.pc == Registering)
    && (w.phase == Live ==> s.activeRegistrationComplete && !s.unregisterInFlight)
    && (w.phase == Leaving ==> s.activeRegistrationComplete && s.unregisterInFlight)
    && (w.phase == Idle || w.phase == Asking ==> !s.activeRegistrationComplete && !s.unregisterInFlight)
    && (IsIdlePc(s.pc) ==> w.phase == Idle)
    && (s.pc.Unregistering? ==> w.phase != Live)
    && (s.registered <==> !IsIdlePc(s.pc) && s.pc != Registering)
    && (s.bridgeSocket <==> s.pc == Opening || s.pc == Bridged)
    && (s.bridgeSocket && !w.down ==> w.phase == Live)
  }

  predicate Consistent(base: nat, s: State) {
    Judge(base, s.log).Some? && Fits(base, s, Judge(base, s.log).value)
  }

  lemma LogJudged(base: nat, s: State, a: Action)
    ensures Judge(base, Log(s, a).log) == Observe(base, Judge(base, s.log), a)
  {
  }

  lemma WaitConsistent(base: nat, s: State, override: Option<RetryDelay>, keep: bool)
    requires Judge(base, s.log).Some? && Fits(base, s.(pc := Exited), Judge(base, s.log).value)
    requires override == Judge(base, s.log).value.asked && !Judge(base, s.log).value.fatal
    ensures Consistent(base, Wait(s, override, keep))
  {
    hide Judge, NextRetryDelay;
    var w := Judge(base, s.log).value;
    var t := s.(pc := Delaying);
    if override.Some? {
      LogJudged(base, t, Waited(override.value, false));
    } else {
      LogJudged(base, t.(retryDelayMs := NextRetryDelay(s.retryDelayMs)), Waited(s.retryDelayMs, true));
    }
  }

  lemma CaughtConsistent(base: nat, s: State, f: Failure, keep: bool, keepAfter: bool)
    requires Judge(base, s.log).Some? && Fits(base, s.(pc := Exited), Judge(base, s.log).value)
    requires f.retryAfterMs == Judge(base, s.log).value.asked && (Judge(base, s.log).value.fatal ==> !f.retryable)
    ensures Consistent(base, Caught(s, f, keep, keepAfter))
  {
    hide Judge, Backoff;
    if !(s.shutdownRequested || !keep || !f.retryable) {
      WaitConsistent(base, s, f.retryAfterMs, keepAfter);
    }
  }

  lemma LoopHeadConsistent(base: nat, s: State, keep: bool)
    requires Consistent(base, s) && (s.pc == Begin || s.pc == Delaying)
    ensures Consistent(base, LoopHead(s, keep))
  {
    hide Judge, Backoff;
    LogJudged(base, s.(pc := Registering, registered := false, activeRegistrationComplete := false), RegisterStarted);
  }

  lemma RegisteredConsistent(c: Config, s: State, keep: bool, constructed: bool)
    requires Consistent(c.reconnectDelayMs, s) && s.pc == Registering
    ensures Consistent(c.reconnectDelayMs, Registered(c, s, keep, constructed))
  {
    hide Judge;
    var base := c.reconnectDelayMs;
    var u := s.(retryDelayMs := base, registered := true, activeRegistrationComplete := true);
    LogJudged(base, u, RegisterSucceeded);
    var t := Log(u, RegisterSucceeded);
    LogJudged(base, t.(unregisterInFlight := true), UnregisterStarted);
    LogJudged(base, t.(bridgeSocket := false, unregisterInFlight := true), UnregisterStarted);
  }

  lemma BridgeOverConsistent(base: nat, s: State, failed: bool, keep: bool, keepAfter: bool)
    requires Consistent(base, s) && (s.pc == Opening || s.pc == Bridged)
    ensures Consistent(base, BridgeOver(s, failed, keep, keepAfter))
  {
    hide Judge, Backoff;
    LogJudged(base, s.(bridgeSocket := false, unregisterInFlight := true), UnregisterStarted);
  }

  lemma ResumedConsistent(base: nat, s: State, next: Resume, keep: bool, keepAfter: bool)
    requires Consistent(base, s) && s.pc.Unregistering? && !s.unregisterInFlight
    ensures Consistent(base, Resumed(s, next, keep, keepAfter))
  {
    hide Judge, Backoff;
    var t := s.(registered := false);
    match next {
      case LeaveLoop =>
      case HandleError => CaughtConsistent(base, t.(bridgeSocket := false), OTHER_ERROR, keep, keepAfter);
      case GoOn => WaitConsistent(base, t, None, keep);
    }
  }

  lemma ShutdownConsistent(base: nat, s: State)
    requires Consistent(base, s)
    ensures Consistent(base, RequestShutdown(s))
  {
    hide Judge, Backoff;
    var t := s.(shutdownRequested := true);
    LogJudged(base, t, ShutdownRequested);
    LogJudged(base, Log(t, ShutdownRequested).(unregisterInFlight := true), UnregisterStarted);
  }

  lemma StepConsistent(c: Config, s: State, e: Event)
    requires Consistent(c.reconnectDelayMs, s)
    ensures Consistent(c.reconnectDelayMs, Step(c, s, e))
  {
    hide Judge, Backoff;
    var base := c.reconnectDelayMs;
    if Enabled(c, s, e) {
      match e {
        case Enter(keep) => LoopHeadConsistent(base, s, keep);
        case RegisterOk(keep, constructed) => RegisteredConsistent(c, s, keep, constructed);
        case RegisterFail(f, keep, keepAfter) =>
          LogJudged(base, s, RegisterFailed(f));
          CaughtConsistent(base, Log(s, RegisterFailed(f)), f, keep, keepAfter);
        case SocketOpened =>
        case SocketFailed(keep, keepAfter) => BridgeOverConsistent(base, s, true, keep, keepAfter);
        case BridgeEnded(keep) => BridgeOverConsistent(base, s, false, keep, keep);
        case UnregisterSettled =>
          LogJudged(base, s.(activeRegistrationComplete := false, unregisterInFlight := false), UnregisterFinished);
        case ResumeLoop(keep, keepAfter) => ResumedConsistent(base, s, s.pc.next, keep, keepAfter);
        case DelayElapsed(keep) => LoopHeadConsistent(base, s, keep);
        case Shutdown => ShutdownConsistent(base, s);
        case HardExit =>
      }
    }
  }

  /** Whatever happens in whatever order, the run keeps the registration discipline. */
  lemma {:induction false} RunConsistent(c: Config, events: seq<Event>)
    ensures Consistent(c.reconnectDelayMs, Run(c, events))
  {
    if events != [] {
      hide Judge, Fits, Step;
      RunConsistent(c, events[..|events| - 1]);
      StepConsistent(c, Run(c, events[..|events| - 1]), events[|events| - 1]);
    }
  }

  // ---- what the discipline means for every run ----

  function Count(log: seq<Action>, a: Action): nat {
    if log == [] then 0 else Count(log[..|log| - 1], a) + (if log[|log| - 1] == a then 1 else 0)
  }

  function Failures(log: seq<Action>): nat {
    if log == [] then 0 else Failures(log[..|log| - 1]) + (if log[|log| - 1].RegisterFailed? then 1 else 0)
  }

  lemma {:induction false} JudgedPrefix(base: nat, log: seq<Action>, i: nat)
    requires i <= |log| && Judge(base, log).Some?
    ensures Judge(base, log[..i]).Some?
  {
    hide Backoff;
    if i < |log| {
      assert log[..|log| - 1][..i] == log[..i];
      JudgedPrefix(base, log[..|log| - 1], i);
    } else {
      assert log[..i] == log;
    }
  }

  /** Every refusal so far left the door open. */
  predicate NoneFatal(log: seq<Action>) {
    forall k :: 0 <= k < |log| && log[k].RegisterFailed? ==> log[k].failure.retryable
  }

  /** The phase is a tally: what is asked, live or leaving is the difference between two counts. */
  ghost predicate Tallied(log: seq<Action>, w: Watch) {
    && Count(log, RegisterSucceeded) == Count(log, UnregisterStarted) + (if w.phase == Live then 1 else 0)
    && Count(log, UnregisterStarted) == Count(log, UnregisterFinished) + (if w.phase == Leaving then 1 else 0)
    && Count(log, RegisterStarted)
       == Count(log, RegisterSucceeded) + Failures(log) + (if w.phase == Asking then 1 else 0)
    && (w.down <==> ShutdownRequested in log)
    && (w.fatal <==> !NoneFatal(log))
  }

  lemma CountLast(log: seq<Action>, last: Action, a: Action)
    ensures Count(log + [last], a) == Count(log, a) + (if last == a then 1 else 0)
    ensures Failures(log + [last]) == Failures(log) + (if last.RegisterFailed? then 1 else 0)
    ensures NoneFatal(log + [last]) <==> NoneFatal(log) && (last.RegisterFailed? ==> last.failure.retryable)
  {
    assert forall k :: 0 <= k < |log| ==> log[k] == (log + [last])[k];
    assert (log + [last])[..|log|] == log;
  }

  lemma TallyStep(base: nat, log: seq<Action>, w: Watch, a: Action)
    requires Tallied(log, w) && Observe(base, Some(w), a).Some?
    ensures Tallied(log + [a], Observe(base, Some(w), a).value)
  {
    hide Count, Failures, NoneFatal, Backoff;
    CountLast(log, a, RegisterStarted);
    CountLast(log, a, RegisterSucceeded);
    CountLast(log, a, UnregisterStarted);
    CountLast(log, a, UnregisterFinished);
  }

  lemma {:induction false} Tally(base: nat, log: seq<Action>)
    requires Judge(base, log).Some?
    ensures Tallied(log, Judge(base, log).value)
  {
    if log != [] {
      hide Tallied, Observe, Count;
      var rest, last := log[..|log| - 1], log[|log| - 1];
      assert log == rest + [last];
      BrokenStaysBroken(base, last);
      Tally(base, rest);
      TallyStep(base, rest, Judge(base, rest).value, last);
    }
  }

  lemma BrokenStaysBroken(base: nat, a: Action)
    ensures Observe(base, None, a) == None
  {
  }

  /** The registration discipline without the automaton, at every point of the log. */
  ghost predicate Disciplined(log: seq<Action>) {
    && (forall i :: 0 <= i <= |log| ==>
          Count(log[..i], UnregisterFinished) <= Count(log[..i], UnregisterStarted)
          <= Count(log[..i], RegisterSucceeded) <= Count(log[..i], UnregisterFinished) + 1)
    && (forall i :: 0 <= i < |log| && (log[i] == RegisterStarted || log[i].Waited?) ==>
          ShutdownRequested !in log[..i] && NoneFatal(log[..i])
          && Count(log[..i], RegisterSucceeded) == Count(log[..i], UnregisterFinished)
          && Count(log[..i], RegisterStarted) == Count(log[..i], RegisterSucceeded) + Failures(log[..i]))
  }

  lemma JudgedIsDisciplined(base: nat, log: seq<Action>)
    requires Judge(base, log).Some?
    ensures Disciplined(log)
  {
    hide Backoff, Count;
    forall i | 0 <= i <= |log|
      ensures Count(log[..i], UnregisterFinished) <= Count(log[..i], UnregisterStarted)
              <= Count(log[..i], RegisterSucceeded) <= Count(log[..i], UnregisterFinished) + 1
    {
      JudgedPrefix(base, log, i);
      Tally(base, log[..i]);
    }
    forall i | 0 <= i < |log| && (log[i] == RegisterStarted || log[i].Waited?)
      ensures ShutdownRequested !in log[..i] && NoneFatal(log[..i])
      ensures Count(log[..i], RegisterSucceeded) == Count(log[..i], UnregisterFinished)
      ensures Count(log[..i], RegisterStarted) == Count(log[..i], RegisterSucceeded) + Failures(log[..i])
    {
      JudgedPrefix(base, log, i);
      JudgedPrefix(base, log, i + 1);
      assert log[..i + 1][..i] == log[..i];
      Tally(base, log[..i]);
    }
  }

  /**
   Under every interleaving: at most one registration is live or being unregistered, unregister starts
   at most once per success, and no request or wait begins while one is in flight, after shutdown, or after
   the server has refused for good.
   A shutdown leaves no live registration behind: its unregister has been started, also for a success
   that comes in late. A worker that has left its loop has unregistered exactly what it registered; only
   the hard exit, which needs a shutdown and a runtime that can exit, may stop it earlier.
   */
  lemma RegistrationProtocol(c: Config, events: seq<Event>)
    ensures
      var s := Run(c, events);
      && Disciplined(s.log)
      && (s.pc == Exited ==>
            Count(s.log, UnregisterFinished) == Count(s.log, UnregisterStarted) == Count(s.log, RegisterSucceeded))
      && (s.shutdownRequested ==> Count(s.log, UnregisterStarted) == Count(s.log, RegisterSucceeded))
      && (s.shutdownRequested <==> ShutdownRequested in s.log)
      && (s.halted ==> s.shutdownRequested && c.hasExit)
  {
    hide Judge, Count, Backoff, Step, Disciplined;
    var s := Run(c, events);
    RunConsistent(c, events);
    JudgedIsDisciplined(c.reconnectDelayMs, s.log);
    Tally(c.reconnectDelayMs, s.log);
    HardExitNeedsShutdown(c, events);
  }

  lemma ShutdownLasts(c: Config, s: State, e: Event)
    ensures s.shutdownRequested ==> Step(c, s, e).shutdownRequested
    ensures Step(c, s, e).halted ==> s.halted || (s.shutdownRequested && c.hasExit)
  {
    hide NextRetryDelay;
  }

  lemma {:induction false} HardExitNeedsShutdown(c: Config, events: seq<Event>)
    ensures Run(c, events).halted ==> Run(c, events).shutdownRequested && c.hasExit
  {
    hide Step;
    if events != [] {
      HardExitNeedsShutdown(c, events[..|events| - 1]);
      ShutdownLasts(c, Run(c, events[..|events| - 1]), events[|events| - 1]);
    }
  }

  // ---- the retry schedule ----

  /** The delay the server asked for when it last refused, unless a request was started or granted since. */
  function Asked(log: seq<Action>): Option<RetryDelay> {
    if log == [] then None
    else
      match log[|log| - 1]
      case RegisterFailed(f) => f.retryAfterMs
      case RegisterStarted => None
      case RegisterSucceeded => None
      case _ => Asked(log[..|log| - 1])
  }

  /** The waits on the loop's own schedule since the last success. */
  function OwnWaits(log: seq<Action>): nat {
    if log == [] then 0
    else
      match log[|log| - 1]
      case RegisterSucceeded => 0
      case Waited(_, own) => OwnWaits(log[..|log| - 1]) + (if own then 1 else 0)
      case _ => OwnWaits(log[..|log| - 1])
  }

  lemma {:induction false} WatchRemembers(base: nat, log: seq<Action>)
    requires Judge(base, log).Some?
    ensures Judge(base, log).value.ownWaits == OwnWaits(log)
    ensures Judge(base, log).value.asked == Asked(log)
  {
    hide Backoff;
    if log != [] {
      WatchRemembers(base, log[..|log| - 1]);
    }
  }

  function Doubled(base: nat, k: nat): nat {
    if k == 0 then base else 2 * Doubled(base, k - 1)
  }

  /** The wait after k waits on the own schedule: the base delay, then doubled each time up to the cap. */
  function Scheduled(base: nat, k: nat): nat {
    if k == 0 || Doubled(base, k) < MAX_RETRY_DELAY_MS then Doubled(base, k) else MAX_RETRY_DELAY_MS
  }

  /** Doubling with a cap at each step is doubling without one, capped at the end. */
  lemma {:induction false} BackoffDoubles(base: nat, k: nat)
    ensures Backoff(base, k) == Scheduled(base, k)
  {
    if k > 0 {
      BackoffDoubles(base, k - 1);
    }
  }

  /**
   In every run each wait is the one the server asked for with its refusal, within the cap, and where
   it did not ask, the base delay doubled once for each own wait since the last success, up to the cap.
   */
  lemma BackoffSchedule(c: Config, events: seq<Event>, i: nat)
    requires i < |Run(c, events).log| && Run(c, events).log[i].Waited?
    ensures
      var log := Run(c, events).log;
      match Asked(log[..i])
      case Some(ms) => log[i] == Waited(ms, false)
      case None => log[i] == Waited(Scheduled(c.reconnectDelayMs, OwnWaits(log[..i])), true)
  {
    hide Step, Backoff, OwnWaits, Asked;
    var log := Run(c, events).log;
    RunConsistent(c, events);
    JudgedPrefix(c.reconnectDelayMs, log, i);
    JudgedPrefix(c.reconnectDelayMs, log, i + 1);
    assert log[..i + 1][..i] == log[..i];
    WatchRemembers(c.reconnectDelayMs, log[..i]);
    BackoffDoubles(c.reconnectDelayMs, OwnWaits(log[..i]));
  }

  /** Once the schedule has reached the cap it stays there. */
  lemma {:induction false} ScheduleIsMonotone(base: nat, j: nat, k: nat)
    requires 1 <= j <= k
    ensures Scheduled(base, j) <= Scheduled(base, k) <= MAX_RETRY_DELAY_MS
  {
    hide Scheduled;
    BackoffDoubles(base, k);
    if j < k {
      ScheduleIsMonotone(base, j, k - 1);
      BackoffDoubles(base, k - 1);
    }
  }

  // ---- leaving the loop ----

  /** Events that give the worker no reason to stop: no shutdown, no lost lease, no fatal refusal. */
  predicate Harmless(e: Event) {
    match e
    case Enter(keep) => keep
    case RegisterOk(keep, _) => keep
    case RegisterFail(f, keep, keepAfter) => f.retryable && keep && keepAfter
    case SocketFailed(keep, keepAfter) => keep && keepAfter
    case BridgeEnded(keep) => keep
    case ResumeLoop(keep, keepAfter) => keep && keepAfter
    case DelayElapsed(keep) => keep
    case Shutdown => false
    case HardExit => false
    case _ => true
  }

  predicate Carrying(s: State) {
    !s.shutdownRequested && !s.halted && s.pc != Exited && s.pc != Unregistering(LeaveLoop)
  }

  lemma HarmlessStep(c: Config, s: State, e: Event)
    requires Carrying(s) && (Harmless(e) || !Enabled(c, s, e))
    ensures Carrying(Step(c, s, e))
  {
    hide NextRetryDelay;
  }

  /** Some event that reached the worker gave it a reason to stop. */
  ghost predicate HadReason(c: Config, events: seq<Event>) {
    exists i :: 0 <= i < |events| && !Harmless(events[i]) && Enabled(c, Run(c, events[..i]), events[i])
  }

  lemma ReasonsStay(c: Config, events: seq<Event>, n: nat)
    requires n <= |events| && HadReason(c, events[..n])
    ensures HadReason(c, events)
  {
    var i :| 0 <= i < n && !Harmless(events[..n][i]) && Enabled(c, Run(c, events[..n][..i]), events[..n][i]);
    assert events[..n][..i] == events[..i];
  }

  /** Whatever fails, the worker reconnects for ever unless it is given a reason to stop. */
  lemma {:induction false} NeverGivesUp(c: Config, events: seq<Event>)
    requires !HadReason(c, events)
    ensures Carrying(Run(c, events))
  {
    hide Step, Harmless, HadReason, Enabled;
    if events != [] {
      var n := |events| - 1;
      if HadReason(c, events[..n]) {
        ReasonsStay(c, events, n);
      }
      NeverGivesUp(c, events[..n]);
      LastIsNoReason(c, events);
      HarmlessStep(c, Run(c, events[..n]), events[n]);
    }
  }

  lemma LastIsNoReason(c: Config, events: seq<Event>)
    requires !HadReason(c, events) && events != []
    ensures var n := |events| - 1; Harmless(events[n]) || !Enabled(c, Run(c, events[..n]), events[n])
  {
  }

  /** A worker that has left its loop, or is about to, was given a reason to. */
  lemma LeavesForAReason(c: Config, events: seq<Event>)
    requires Run(c, events).pc == Exited || Run(c, events).pc == Unregistering(LeaveLoop)
    ensures HadReason(c, events)
  {
    hide HadReason, Run;
    if !HadReason(c, events) {
      NeverGivesUp(c, events);
    }
  }

  // ---- service ----

  /** Events that neither end a connection nor stop the worker. */
  predicate LeavesServing(e: Event) {
    !e.SocketFailed? && !e.BridgeEnded? && e != Shutdown && e != HardExit
  }

  /**
   A granted registration is served: with its state file in place and no shutdown the worker opens the
   bridge, and until the socket fails, the bridge ends or a shutdown comes it holds on to the
   registration and does nothing else.
   */
  lemma {:induction false} GrantIsServed(c: Config, events: seq<Event>, more: seq<Event>)
    requires var s := Run(c, events); s.pc == Registering && !s.shutdownRequested && !s.halted
    requires forall e :: e in more ==> LeavesServing(e)
    ensures var s, t := Run(c, events), Run(c, events + [RegisterOk(true, true)] + more);
      && t.log == s.log + [RegisterSucceeded]
      && t.registered && t.bridgeSocket && !t.shutdownRequested && !t.halted
      && t.pc == if SocketOpened in more then Bridged else Opening
  {
    hide Judge, Backoff, Step;
    var granted := events + [RegisterOk(true, true)];
    RunConsistent(c, events);
    RunLast(c, events, RegisterOk(true, true));
    if more == [] {
      assert granted + more == granted;
      GrantStep(c, Run(c, events));
    } else {
      var n := |more| - 1;
      GrantIsServed(c, events, more[..n]);
      RunConsistent(c, granted + more[..n]);
      RunLast(c, granted + more[..n], more[n]);
      assert granted + more == (granted + more[..n]) + [more[n]] && more == more[..n] + [more[n]];
      ServingStep(c, Run(c, granted + more[..n]), more[n]);
    }
  }

  lemma RunLast(c: Config, events: seq<Event>, e: Event)
    ensures Run(c, events + [e]) == Step(c, Run(c, events), e)
  {
    assert (events + [e])[..|events|] == events;
  }

  lemma GrantStep(c: Config, s: State)
    requires Consistent(c.reconnectDelayMs, s) && s.pc == Registering && !s.shutdownRequested && !s.halted
    ensures var t := Step(c, s, RegisterOk(true, true));
      && t.pc == Opening && t.log == s.log + [RegisterSucceeded] && t.registered && t.bridgeSocket
      && !t.shutdownRequested && !t.halted
  {
    hide Judge, Backoff;
  }

  lemma ServingStep(c: Config, s: State, e: Event)
    requires Consistent(c.reconnectDelayMs, s) && !s.shutdownRequested && !s.halted && LeavesServing(e)
    requires s.pc == Opening || s.pc == Bridged
    ensures Step(c, s, e) == if e == SocketOpened then s.(pc := Bridged) else s
  {
    hide Backoff;
  }

  /** The step starts an unregister. */
  predicate Unregisters(c: Config, s: State, e: Event) {
    Count(s.log, UnregisterStarted) < Count(Step(c, s, e).log, UnregisterStarted)
  }

  lemma CountNone(s: State, a: Action)
    ensures Count(Log(s, a).log, UnregisterStarted) ==
            Count(s.log, UnregisterStarted) + (if a == UnregisterStarted then 1 else 0)
  {
  }

  lemma StartCounts(s: State)
    ensures Count(StartUnregister(s).log, UnregisterStarted) ==
            Count(s.log, UnregisterStarted) + (if s.activeRegistrationComplete && !s.unregisterInFlight then 1 else 0)
  {
    hide Count;
    CountNone(s, UnregisterStarted);
  }

  lemma WaitCounts(s: State, override: Option<RetryDelay>, keep: bool)
    ensures Count(Wait(s, override, keep).log, UnregisterStarted) == Count(s.log, UnregisterStarted)
  {
  }

  lemma CaughtCounts(s: State, f: Failure, keep: bool, keepAfter: bool)
    ensures Count(Caught(s, f, keep, keepAfter).log, UnregisterStarted) == Count(s.log, UnregisterStarted)
  {
    hide Count, Wait;
    WaitCounts(s, f.retryAfterMs, keepAfter);
  }

  /**
   Exactly what makes the worker give a registration back: a grant it has no more use for or no socket
   for, a shutdown while it is connected, or the end of the connection when no shutdown came before.
   */
  lemma UnregisterHasCause(c: Config, events: seq<Event>, e: Event)
    ensures var s := Run(c, events);
      Unregisters(c, s, e) <==>
        Enabled(c, s, e) &&
        match e
        case RegisterOk(keep, constructed) => s.shutdownRequested || !keep || !constructed
        case Shutdown => !s.shutdownRequested && (s.pc == Opening || s.pc == Bridged)
        case SocketFailed(_, _) => !s.shutdownRequested
        case BridgeEnded(_) => !s.shutdownRequested
        case _ => false
  {
    hide Judge, Backoff, Run, Count, Wait, Caught, StartUnregister, Log;
    RunConsistent(c, events);
    var s := Run(c, events);
    if Enabled(c, s, e) {
      match e {
        case RegisterOk(keep, constructed) =>
          var u := s.(retryDelayMs := c.reconnectDelayMs, registered := true, activeRegistrationComplete := true);
          CountNone(u, RegisterSucceeded);
          LogKeepsFlags(u, RegisterSucceeded);
          StartCounts(Log(u, RegisterSucceeded));
          StartCounts(Log(u, RegisterSucceeded).(bridgeSocket := false));
        case RegisterFail(f, keep, keepAfter) =>
          CountNone(s, RegisterFailed(f));
          CaughtCounts(Log(s, RegisterFailed(f)), f, keep, keepAfter);
        case SocketFailed(keep, keepAfter) => StartCounts(s.(bridgeSocket := false));
        case BridgeEnded(keep) => StartCounts(s.(bridgeSocket := false));
        case UnregisterSettled =>
          CountNone(s.(activeRegistrationComplete := false, unregisterInFlight := false), UnregisterFinished);
        case ResumeLoop(keep, keepAfter) =>
          var t := s.(registered := false);
          CaughtCounts(t.(bridgeSocket := false), OTHER_ERROR, keep, keepAfter);
          WaitCounts(t, None, keep);
        case Shutdown =>
          var t := s.(shutdownRequested := true);
          CountNone(t, ShutdownRequested);
          LogKeepsFlags(t, ShutdownRequested);
          StartCounts(Log(t, ShutdownRequested));
        case Enter(keep) => LoopHeadCounts(s, keep);
        case DelayElapsed(keep) => LoopHeadCounts(s, keep);
        case SocketOpened =>
        case HardExit =>
      }
    }
  }

  lemma LogKeepsFlags(s: State, a: Action)
    ensures Log(s, a) == s.(log := Log(s, a).log)
  {
  }

  lemma LoopHeadCounts(s: State, keep: bool)
    ensures Count(LoopHead(s, keep).log, UnregisterStarted) == Count(s.log, UnregisterStarted)
  {
  }

  lemma WaitGrows(s: State, override: Option<RetryDelay>, keep: bool)
    ensures s.log <= Wait(s, override, keep).log
  {
  }

  lemma CaughtGrows(s: State, f: Failure, keep: bool, keepAfter: bool)
    ensures s.log <= Caught(s, f, keep, keepAfter).log
  {
    hide Wait;
    WaitGrows(s, f.retryAfterMs, keepAfter);
  }

  lemma StartGrows(s: State)
    ensures s.log <= StartUnregister(s).log
  {
  }

  lemma RegisteredGrows(c: Config, s: State, keep: bool, constructed: bool)
    ensures s.log <= Registered(c, s, keep, constructed).log
  {
    hide StartUnregister;
    var t := Log(s.(retryDelayMs := c.reconnectDelayMs, registered := true, activeRegistrationComplete := true),
      RegisterSucceeded);
    StartGrows(t);
    StartGrows(t.(bridgeSocket := false));
  }

  lemma BridgeOverGrows(s: State, failed: bool, keep: bool, keepAfter: bool)
    ensures s.log <= BridgeOver(s, failed, keep, keepAfter).log
  {
    hide Wait, Caught, StartUnregister;
    var t := s.(bridgeSocket := false);
    StartGrows(t);
    CaughtGrows(t, OTHER_ERROR, keep, keepAfter);
    WaitGrows(t, None, keep);
  }

  lemma ResumedGrows(s: State, next: Resume, keep: bool, keepAfter: bool)
    ensures s.log <= Resumed(s, next, keep, keepAfter).log
  {
    hide Wait, Caught;
    CaughtGrows(s.(registered := false, bridgeSocket := false), OTHER_ERROR, keep, keepAfter);
    WaitGrows(s.(registered := false), None, keep);
  }

  /** A step forgets nothing it has logged. */
  lemma LogGrows(c: Config, s: State, e: Event)
    ensures s.log <= Step(c, s, e).log
  {
    hide Wait, Caught, Registered, BridgeOver, Resumed;
    if Enabled(c, s, e) {
      match e {
        case RegisterOk(keep, constructed) => RegisteredGrows(c, s, keep, constructed);
        case RegisterFail(f, keep, keepAfter) => CaughtGrows(Log(s, RegisterFailed(f)), f, keep, keepAfter);
        case SocketFailed(keep, keepAfter) => BridgeOverGrows(s, true, keep, keepAfter);
        case BridgeEnded(keep) => BridgeOverGrows(s, false, keep, keep);
        case ResumeLoop(keep, keepAfter) => ResumedGrows(s, s.pc.next, keep, keepAfter);
        case _ =>
      }
    }
  }

  /**
   A shutdown can reach the worker wherever its loop is suspended, and the first one has its effect at once:
   a worker that is connected starts the unregister in the same stretch of code.
   */
  lemma ShutdownIsPrompt(c: Config, events: seq<Event>)
    requires var s := Run(c, events); !s.halted && s.pc != Begin && s.pc != Exited
    ensures var s, t := Run(c, events), Run(c, events + [Shutdown]);
      && t.shutdownRequested
      && t.log == s.log +
           (if s.shutdownRequested then []
            else if s.pc == Opening || s.pc == Bridged then [ShutdownRequested, UnregisterStarted]
            else [ShutdownRequested])
  {
    hide Judge, Backoff, Run;
    RunConsistent(c, events);
    RunLast(c, events, Shutdown);
  }

  predicate EndsConnection(e: Event) {
    e.SocketFailed? || e.BridgeEnded?
  }

  /**
   What becomes of a connection that ends: once its unregister has settled the loop goes on to its wait
   unless a shutdown came or the state file is gone. A failed socket takes the error path, which looks for
   the file a second time.
   */
  lemma AfterConnection(c: Config, events: seq<Event>, e: Event, keep: bool, keepAfter: bool)
    requires var s := Run(c, events); !s.halted && Enabled(c, s, e) && EndsConnection(e) && !s.shutdownRequested
    ensures var t := Run(c, events + [e] + [UnregisterSettled] + [ResumeLoop(keep, keepAfter)]);
      t.pc == if keep && (e.SocketFailed? ==> keepAfter) then Delaying else Exited
  {
    hide Judge, Backoff, NextRetryDelay, Run;
    RunConsistent(c, events);
    RunLast(c, events, e);
    RunLast(c, events + [e], UnregisterSettled);
    RunLast(c, events + [e] + [UnregisterSettled], ResumeLoop(keep, keepAfter));
  }

  // ---- asking again ----

  /** How many events at most, short of a reason to stop, until the next register request. */
  function ToRequest(s: State): nat {
    match s.pc
    case Registering => 6
    case Opening => 5
    case Bridged => 4
    case Unregistering(_) => if s.unregisterInFlight then 3 else 2
    case Delaying => 1
    case Begin => 1
    case Exited => 0
  }

  /** Each event finds the worker waiting for it and gives it no reason to stop. */
  predicate Arrives(c: Config, s: State, events: seq<Event>)
    decreases |events|
  {
    events != [] ==> Enabled(c, s, events[0]) && Harmless(events[0]) && Arrives(c, Step(c, s, events[0]), events[1..])
  }

  lemma RequestProgress(c: Config, s: State, e: Event)
    requires Consistent(c.reconnectDelayMs, s) && Carrying(s) && Enabled(c, s, e) && Harmless(e)
    ensures Carrying(Step(c, s, e))
    ensures if s.pc == Begin || s.pc == Delaying then Step(c, s, e).log == s.log + [RegisterStarted]
            else ToRequest(Step(c, s, e)) < ToRequest(s)
  {
    hide Judge, Backoff, NextRetryDelay;
    HarmlessStep(c, s, e);
  }

  lemma CountMonotone(s: State, c: Config, e: Event, a: Action)
    ensures Count(s.log, a) <= Count(Step(c, s, e).log, a)
  {
    hide Step, Count;
    LogGrows(c, s, e);
    CountPrefix(s.log, Step(c, s, e).log, a);
  }

  lemma {:induction false} CountPrefix(log: seq<Action>, more: seq<Action>, a: Action)
    requires log <= more
    ensures Count(log, a) <= Count(more, a)
  {
    if |log| < |more| {
      CountPrefix(log, more[..|more| - 1], a);
    } else {
      assert log == more;
    }
  }

  lemma {:induction false} RequestsRemain(c: Config, s: State, events: seq<Event>, a: Action)
    ensures Count(s.log, a) <= Count(RunFrom(c, s, events).log, a)
    decreases |events|
  {
    hide Step, Count;
    if events != [] {
      CountMonotone(s, c, events[0], a);
      RequestsRemain(c, Step(c, s, events[0]), events[1..], a);
    }
  }

  /**
   The worker keeps asking: without a reason to stop, whatever succeeds or fails, it starts another
   request within six events.
   */
  lemma {:induction false} KeepsRequesting(c: Config, s: State, events: seq<Event>)
    requires Consistent(c.reconnectDelayMs, s) && Carrying(s) && Arrives(c, s, events) && ToRequest(s) <= |events|
    ensures Count(s.log, RegisterStarted) < Count(RunFrom(c, s, events).log, RegisterStarted)
    decreases |events|
  {
    hide Step, Count, Consistent, Harmless, Enabled;
    var t := Step(c, s, events[0]);
    RequestProgress(c, s, events[0]);
    StepConsistent(c, s, events[0]);
    if s.pc == Begin || s.pc == Delaying {
      CountLast(s.log, RegisterStarted, RegisterStarted);
      RequestsRemain(c, t, events[1..], RegisterStarted);
    } else {
      CountMonotone(s, c, events[0], RegisterStarted);
      KeepsRequesting(c, t, events[1..]);
    }
  }

  /** And as long as it carries on, some event that gives no reason to stop can reach it. */
  lemma AlwaysArrives(c: Config, s: State)
    requires Consistent(c.reconnectDelayMs, s) && Carrying(s)
    ensures exists e :: Enabled(c, s, e) && Harmless(e)
  {
    hide Judge, Backoff;
    var e := match s.pc
      case Begin => Enter(true)
      case Registering => RegisterOk(true, true)
      case Opening => SocketOpened
      case Bridged => BridgeEnded(true)
      case Unregistering(_) => if s.unregisterInFlight then UnregisterSettled else ResumeLoop(true, true)
      case Delaying => DelayElapsed(true)
      case Exited => HardExit;
    assert Enabled(c, s, e) && Harmless(e);
  }

  // ---- draining ----

  /** How far the worker is from the end of its loop: two units for each suspension point, and for a shutdown. */
  function Rank(s: State): nat {
    var here := match s.pc
      case Begin => 6
      case Registering => 5
      case Opening => 4
      case Bridged => 3
      case Unregistering(_) => 2
      case Delaying => 1
      case Exited => 0;
    2 * here + (if s.unregisterInFlight then 1 else 0) + (if s.shutdownRequested then 0 else 2)
  }

  /** An event at which the worker, if it looks for its state file, finds it gone. */
  predicate FindsNoState(e: Event) {
    match e
    case Enter(keep) => !keep
    case RegisterOk(keep, _) => !keep
    case RegisterFail(_, keep, _) => !keep
    case SocketFailed(keep, _) => !keep
    case BridgeEnded(keep) => !keep
    case ResumeLoop(keep, _) => !keep
    case DelayElapsed(keep) => !keep
    case _ => true
  }

  /** An event the worker waits for: not a hard exit, nor a second request to shut down. */
  predicate Progress(c: Config, s: State, e: Event) {
    Enabled(c, s, e) && e != HardExit && (e == Shutdown ==> !s.shutdownRequested)
  }

  /** It has been told to shut down, or its state file is gone. */
  predicate Draining(s: State, e: Event) {
    s.shutdownRequested || FindsNoState(e)
  }

  lemma DrainProgress(c: Config, s: State, e: Event)
    requires Progress(c, s, e) && Draining(s, e)
    ensures Rank(Step(c, s, e)) < Rank(s) && Step(c, s, e).halted == s.halted
  {
    hide NextRetryDelay;
  }

  function RunFrom(c: Config, s: State, events: seq<Event>): State
    decreases |events|
  {
    if events == [] then s else RunFrom(c, Step(c, s, events[0]), events[1..])
  }

  /** Each event finds the worker waiting for it, and draining. */
  predicate Drains(c: Config, s: State, events: seq<Event>)
    decreases |events|
  {
    events != [] ==>
      Progress(c, s, events[0]) && Draining(s, events[0]) && Drains(c, Step(c, s, events[0]), events[1..])
  }

  /**
   From any reachable state, once the worker has been told to shut down or its state file is gone, and
   however shutdown and loop interleave from there, it takes at most `Rank` further events. If it then
   waits for none (short of a hard exit) it has left its loop with everything unregistered, and if it
   has left its loop it waits for none.
   */
  lemma {:induction false} WorkerDrains(c: Config, s: State, events: seq<Event>)
    requires !s.halted && Consistent(c.reconnectDelayMs, s) && Drains(c, s, events)
    ensures |events| <= Rank(s)
    ensures var t := RunFrom(c, s, events);
      && (t.pc == Exited <==> !exists e :: Progress(c, t, e) && Draining(t, e))
      && (t.pc == Exited ==>
            Count(t.log, UnregisterFinished) == Count(t.log, UnregisterStarted) == Count(t.log, RegisterSucceeded))
    decreases |events|
  {
    hide Consistent, Step, Count, Progress, Draining, Rank;
    if events == [] {
      WaitsUntilExited(c, s);
      if s.pc == Exited {
        ExitedIsClean(c.reconnectDelayMs, s);
      }
    } else {
      DrainProgress(c, s, events[0]);
      StepConsistent(c, s, events[0]);
      WorkerDrains(c, Step(c, s, events[0]), events[1..]);
    }
  }

  lemma ExitedIsClean(base: nat, s: State)
    requires Consistent(base, s) && s.pc == Exited
    ensures Count(s.log, UnregisterFinished) == Count(s.log, UnregisterStarted) == Count(s.log, RegisterSucceeded)
  {
    hide Judge, Count, Backoff;
    Tally(base, s.log);
  }

  /**
   The worker is never stuck: short of the end of its loop, some event can reach it, with or without its
   state file.
   */
  lemma WaitsUntilExited(c: Config, s: State)
    requires !s.halted && Consistent(c.reconnectDelayMs, s)
    ensures s.pc == Exited <==> !exists e :: Progress(c, s, e) && Draining(s, e)
  {
    hide Judge, Backoff;
    var e := match s.pc
      case Begin => Enter(false)
      case Registering => RegisterOk(false, true)
      case Opening => SocketOpened
      case Bridged => BridgeEnded(false)
      case Unregistering(_) => if s.unregisterInFlight then UnregisterSettled else ResumeLoop(false, true)
      case Delaying => DelayElapsed(false)
      case Exited => HardExit;
    assert s.pc != Exited ==> Progress(c, s, e) && Draining(s, e);
    assert s.pc == Exited ==> !s.unregisterInFlight;
  }
}
