/**
 `runCompanionTunnelWorker` as the object its closures share: each method is one stretch of code
 between two awaits, or one callback, and moves the worker exactly as the protocol's step does.
 */
module TunnelWorker {
  import opened Wrappers
  import opened TunnelProtocol

  class CompanionWorker {
    const reconnectDelayMs: nat
    const hasExit: bool
    var shutdownRequested: bool
    var activeRegistrationComplete: bool
    var activeUnregister: bool
    var activeBridgeSocket: bool
    var registerRetryDelayMs: nat
    var registered: bool
    var pc: Pc
    var halted: bool
    ghost var log: seq<Action>

    function Options(): Config {
      Config(reconnectDelayMs, hasExit)
    }

    ghost function View(): State
      reads this
    {
      State(pc, halted, shutdownRequested, registered, activeRegistrationComplete, activeUnregister,
            activeBridgeSocket, registerRetryDelayMs, log)
    }

    ghost predicate Valid()
      reads this
    {
      Consistent(reconnectDelayMs, View())
    }

    constructor (reconnectDelayMs: nat, hasExit: bool)
      ensures Valid() && View() == Initial(Config(reconnectDelayMs, hasExit)) &&
        Options() == Config(reconnectDelayMs, hasExit)
    {
      this.reconnectDelayMs, this.hasExit := reconnectDelayMs, hasExit;
      shutdownRequested, activeRegistrationComplete, activeUnregister, activeBridgeSocket := false, false, false, false;
      registerRetryDelayMs, registered, pc, halted, log := reconnectDelayMs, false, Begin, false, [];
    }

    /** `unregisterActiveRegistration` up to its await: a second caller joins the request in flight. */
    method UnregisterActiveRegistration()
      modifies this`activeUnregister, this`log
      ensures View() == StartUnregister(old(View()))
    {
      if !activeRegistrationComplete && !activeUnregister {
        return;
      }
      if !activeUnregister {
        activeUnregister := true;
        log := log + [UnregisterStarted];
      }
    }

    method BeginIteration(keep: bool)
      modifies this
      ensures View() == LoopHead(old(View()), keep)
    {
      if !shutdownRequested && keep {
        registered := false;
        activeRegistrationComplete := false;
        pc := Registering;
        log := log + [RegisterStarted];
      } else {
        pc := Exited;
      }
    }

    method EndIteration(retryDelayOverrideMs: Option<RetryDelay>, keep: bool)
      modifies this
      ensures View() == Wait(old(View()), retryDelayOverrideMs, keep)
    {
      if shutdownRequested || !keep {
        pc := Exited;
        return;
      }
      var delayMs := if retryDelayOverrideMs.Some? then retryDelayOverrideMs.value else registerRetryDelayMs;
      if retryDelayOverrideMs.None? {
        registerRetryDelayMs := NextRetryDelay(registerRetryDelayMs);
      }
      pc := Delaying;
      log := log + [Waited(delayMs, retryDelayOverrideMs.None?)];
    }

    method CatchError(error: Failure, keep: bool, keepAfter: bool)
      modifies this
      ensures View() == Caught(old(View()), error, keep, keepAfter)
    {
      if shutdownRequested || !keep || !error.retryable {
        pc := Exited;
        return;
      }
      EndIteration(error.retryAfterMs, keepAfter);
    }

    method Start(keep: bool)
      requires Valid() && Enabled(Options(), View(), Enter(keep))
      modifies this
      ensures Valid() && View() == Step(Options(), old(View()), Enter(keep))
    {
      hide Consistent;
      StepConsistent(Options(), View(), Enter(keep));
      BeginIteration(keep);
    }

    method OnRegistered(keep: bool, socketConstructed: bool)
      requires Valid() && Enabled(Options(), View(), RegisterOk(keep, socketConstructed))
      modifies this
      ensures Valid() && View() == Step(Options(), old(View()), RegisterOk(keep, socketConstructed))
    {
      hide Consistent;
      StepConsistent(Options(), View(), RegisterOk(keep, socketConstructed));
      registerRetryDelayMs := reconnectDelayMs;
      registered := true;
      activeRegistrationComplete := true;
      log := log + [RegisterSucceeded];
      if shutdownRequested || !keep {
        UnregisterActiveRegistration();
        pc := Unregistering(LeaveLoop);
      } else if !socketConstructed {
        activeBridgeSocket := false;
        UnregisterActiveRegistration();
        pc := Unregistering(HandleError);
      } else {
        activeBridgeSocket := true;
        pc := Opening;
      }
    }

    method OnRegisterFailed(error: Failure, keep: bool, keepAfter: bool)
      requires Valid() && Enabled(Options(), View(), RegisterFail(error, keep, keepAfter))
      modifies this
      ensures Valid() && View() == Step(Options(), old(View()), RegisterFail(error, keep, keepAfter))
    {
      hide Consistent;
      StepConsistent(Options(), View(), RegisterFail(error, keep, keepAfter));
      log := log + [RegisterFailed(error)];
      CatchError(error, keep, keepAfter);
    }

    method OnSocketOpened()
      requires Valid() && Enabled(Options(), View(), SocketOpened)
      modifies this
      ensures Valid() && View() == Step(Options(), old(View()), SocketOpened)
    {
      hide Consistent;
      StepConsistent(Options(), View(), SocketOpened);
      pc := Bridged;
    }

    /** The inner finally block, up to its await. */
    method LeaveBridge(failed: bool, keep: bool, keepAfter: bool)
      modifies this
      ensures View() == BridgeOver(old(View()), failed, keep, keepAfter)
    {
      activeBridgeSocket := false;
      if registered {
        UnregisterActiveRegistration();
        pc := Unregistering(if failed then HandleError else GoOn);
      } else if failed {
        CatchError(OTHER_ERROR, keep, keepAfter);
      } else {
        EndIteration(None, keep);
      }
    }

    method OnSocketFailed(keep: bool, keepAfter: bool)
      requires Valid() && Enabled(Options(), View(), SocketFailed(keep, keepAfter))
      modifies this
      ensures Valid() && View() == Step(Options(), old(View()), SocketFailed(keep, keepAfter))
    {
      hide Consistent;
      StepConsistent(Options(), View(), SocketFailed(keep, keepAfter));
      LeaveBridge(true, keep, keepAfter);
    }

    method OnBridgeEnded(keep: bool)
      requires Valid() && Enabled(Options(), View(), BridgeEnded(keep))
      modifies this
      ensures Valid() && View() == Step(Options(), old(View()), BridgeEnded(keep))
    {
      hide Consistent;
      StepConsistent(Options(), View(), BridgeEnded(keep));
      LeaveBridge(false, keep, keep);
    }

    /** The `finally` callback of the unregister request, whether it was answered or gave up. */
    method OnUnregisterSettled()
      requires Valid() && Enabled(Options(), View(), UnregisterSettled)
      modifies this
      ensures Valid() && View() == Step(Options(), old(View()), UnregisterSettled)
    {
      hide Consistent;
      StepConsistent(Options(), View(), UnregisterSettled);
      activeRegistrationComplete := false;
      activeUnregister := false;
      log := log + [UnregisterFinished];
    }

    method OnUnregisterAwaited(keep: bool, keepAfter: bool)
      requires Valid() && Enabled(Options(), View(), ResumeLoop(keep, keepAfter))
      modifies this
      ensures Valid() && View() == Step(Options(), old(View()), ResumeLoop(keep, keepAfter))
    {
      hide Consistent;
      StepConsistent(Options(), View(), ResumeLoop(keep, keepAfter));
      registered := false;
      match pc.next {
        case LeaveLoop => pc := Exited;
        case HandleError =>
          activeBridgeSocket := false;
          CatchError(OTHER_ERROR, keep, keepAfter);
        case GoOn => EndIteration(None, keep);
      }
    }

    method OnDelayElapsed(keep: bool)
      requires Valid() && Enabled(Options(), View(), DelayElapsed(keep))
      modifies this
      ensures Valid() && View() == Step(Options(), old(View()), DelayElapsed(keep))
    {
      hide Consistent;
      StepConsistent(Options(), View(), DelayElapsed(keep));
      BeginIteration(keep);
    }

    method RequestShutdown()
      requires Valid() && Enabled(Options(), View(), Shutdown)
      modifies this
      ensures Valid() && View() == Step(Options(), old(View()), Shutdown)
    {
      hide Consistent;
      StepConsistent(Options(), View(), Shutdown);
      if shutdownRequested {
        return;
      }
      shutdownRequested := true;
      log := log + [ShutdownRequested];
      if activeRegistrationComplete {
        UnregisterActiveRegistration();
      }
    }

    method ExitWorker()
      requires Valid() && !halted && shutdownRequested
      modifies this
      ensures Valid() && View() == Step(Options(), old(View()), HardExit)
    {
      hide Consistent;
      StepConsistent(Options(), View(), HardExit);
      if hasExit {
        halted := true;
      }
    }

    /** The lease timer: an expired lease shuts the worker down and ends the process at once. */
    method OnLeaseCheck(keep: bool)
      requires Valid() && Enabled(Options(), View(), Shutdown)
      modifies this
      ensures Valid()
      ensures View() == if keep then old(View()) else Step(Options(), Step(Options(), old(View()), Shutdown), HardExit)
      ensures !keep ==> shutdownRequested && halted == hasExit
    {
      hide Consistent;
      if !keep {
        RequestShutdown();
        ExitWorker();
      }
    }
  }
}
