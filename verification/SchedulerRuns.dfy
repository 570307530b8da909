/**
 * Whole runs of the scheduler: any sequence of calls, from any thread, in any order.
 */
module SchedulerRuns {
  import opened Words
  import opened Handles
  import opened SchedState
  import opened SchedSteps
  import opened SchedWaits
  import opened Scheduler
  import opened EventApi

  datatype Command =
    | YieldCall | TerminateCall
    | ResumeCall(handle: u64, intact: bool)
    | PrepareCall(handle: u64) | FinishCall(handle: u64)
    | WaitCall(handle: u64, milliseconds: nat, alertable: nat, clock: Option<u64>, poll: Option<u64>)
    | EndWaitCall(handle: u64)
    | SignalCall(handle: u64) | ResetCall(handle: u64) | SetEventCall(handle: u64) | ResetEventCall(handle: u64)
    | ArmCall(deadline: u64) | TimeoutsCall(now: u64)
    | CreateEventCall(manualReset: bool, signaled: bool) | CreateThreadCall(resources: bool)
    | CloseCall(handle: u64, intact: bool, unregistered: bool) | DestroyCall(handle: u64)
    | ReclaimCall(thread: nat, intact: bool, unregistered: bool)
    | DiscardCall(thread: nat, intact: bool, unregistered: bool)
    | CollectCall(permitted: seq<bool>)

  /** What the program leaves to its callers: how to end and how to discard a thread. */
  predicate Allowed(s: State, c: Command)
    requires s.current < |s.threads| == MAX_THREADS
  {
    match c
    case TerminateCall => s.current == 0 || (s.queue != [] && s.threads[s.current].record == None)
    case DiscardCall(t, _, _) => t < MAX_THREADS && (!Discardable(s, t) || (t != 0 && s.threads[t].record == None))
    case ReclaimCall(t, _, _) => t < MAX_THREADS
    case WaitCall(_, milliseconds, _, _, _) => milliseconds <= INFINITE
    case CollectCall(permitted) => |permitted| == MAX_THREADS
    case _ => true
  }

  /** Thread `t`, queued in `a`, is queued since then, was dispatched after `a`, or was discarded. */
  ghost predicate Awaits(a: State, b: State, t: nat)
    requires a.Sized() && b.Sized() && t < MAX_THREADS
  {
    (t in b.queue && b.since[t] == a.since[t]) || b.ran[t] > a.switches || b.gone[t] > a.gone[t]
  }

  /** The wait that record `r` of `a` stands for is still recorded or has its outcome. */
  ghost predicate WaitKept(a: State, b: State, r: nat)
    requires a.Sized() && b.Sized() && r < MAX_THREADS
  {
    (b.records[r].valid && b.records[r].generation == a.records[r].generation) || a.records[r].generation in b.outcomes
  }

  /**
   * What no call takes back: the outcome of a completed wait, the place of a queued thread until it
   * runs, a registered wait until it has an outcome, and the counters of history.
   */
  ghost predicate Later(a: State, b: State) {
    && a.Sized() && b.Sized()
    && a.nextGeneration <= b.nextGeneration && a.switches <= b.switches
    && (forall g | g in a.outcomes :: g in b.outcomes && b.outcomes[g] == a.outcomes[g])
    && (forall g | g in a.registered :: g in b.registered && b.registered[g] == a.registered[g])
    && (forall o | 0 <= o < MAX_OBJECTS :: a.objects[o].births <= b.objects[o].births)
    && (forall t | 0 <= t < MAX_THREADS :: a.ran[t] <= b.ran[t] && a.gone[t] <= b.gone[t])
    && (forall t | t in a.queue && t < MAX_THREADS :: Awaits(a, b, t))
    && (forall r | 0 <= r < MAX_THREADS && a.records[r].valid :: WaitKept(a, b, r))
  }

  /** Whatever happens in between, a queued thread that is not discarded runs within MAX_THREADS switches. */
  lemma RunsInTime(a: State, b: State, t: nat)
    requires a.Inv() && b.Inv() && Later(a, b) && t in a.queue && t < MAX_THREADS
    requires b.switches >= a.switches + MAX_THREADS && b.gone[t] == a.gone[t]
    ensures a.switches < b.ran[t] <= b.switches
  {
    assert Awaits(a, b, t);
    if t in b.queue && b.since[t] == a.since[t] {
      BoundedWaiting(a, t);
      BoundedWaiting(b, t);
    }
  }

  /** A wait that was registered and whose record is gone or reused has exactly one outcome, for good. */
  lemma NoWaitIsLost(a: State, b: State, c: State, r: nat)
    requires a.Inv() && Later(a, b) && Later(b, c) && r < MAX_THREADS && a.records[r].valid
    requires !b.records[r].valid || b.records[r].generation != a.records[r].generation
    ensures a.records[r].generation in b.outcomes && a.records[r].generation in c.outcomes
    ensures c.outcomes[a.records[r].generation] == b.outcomes[a.records[r].generation]
  {
    assert WaitKept(a, b, r);
  }

  /**
   * Why a wait ended. A registered wait keeps its ticket: event, deadline, and the signals given by
   * then. If it ends by timeout, timeouts were serviced with a reading at or after its armed deadline;
   * if it ends as signaled, its own event was signaled after it was registered.
   */
  lemma WhyItEnded(a: State, b: State, r: nat)
    requires a.Inv() && b.Inv() && Later(a, b) && r < MAX_THREADS && a.records[r].valid
    requires a.records[r].generation in b.outcomes
    ensures a.records[r].generation in a.registered && a.records[r].generation in b.registered
    ensures var rc := a.records[r];
            var ticket, outcome := b.registered[rc.generation], b.outcomes[rc.generation];
            && ticket == a.registered[rc.generation] && ticket.event == rc.event
            && ticket.eventGeneration == rc.objectGeneration
            && (outcome.how == Timeout || outcome.how == Object0)
            && (outcome.how == Timeout ==> rc.armed && rc.deadline <= outcome.reading)
            && (outcome.how == Object0 ==> ticket.signals < outcome.signals)
  {
    assert TicketOk(a.records[r], a.ledgers, a.registered);
  }

  lemma LaterTransitive(a: State, b: State, c: State)
    requires Later(a, b) && Later(b, c)
    ensures Later(a, c)
  {
    forall t | t in a.queue && t < MAX_THREADS
      ensures Awaits(a, c, t)
    {
      assert Awaits(a, b, t);
    }
    forall r | 0 <= r < MAX_THREADS && a.records[r].valid
      ensures WaitKept(a, c, r)
    {
      assert WaitKept(a, b, r);
    }
  }

  /** A call that switches no thread, completes no wait and frees no record. */
  lemma QuietLater(a: State, b: State)
    requires a.Sized() && b.Sized() && b.queue == a.queue && b.since == a.since && b.ran == a.ran && b.gone == a.gone
    requires b.switches == a.switches && b.records == a.records && b.outcomes == a.outcomes
    requires b.registered == a.registered && a.nextGeneration <= b.nextGeneration
    requires forall o | 0 <= o < MAX_OBJECTS :: a.objects[o].births <= b.objects[o].births
    ensures Later(a, b)
  {
  }

  lemma DispatchLater(s: State, next: nat)
    requires s.Inv() && next < MAX_THREADS && s.Dispatch(next).Sized()
    ensures Later(s, s.Dispatch(next))
  {
    WithoutMembers(s.queue, next);
    assert s.FairOk();
  }

  lemma YieldLater(s: State)
    requires s.Inv() && s.busy
    ensures Later(s, s.LeaveYield())
  {
    RunningFacts(s);
  }

  lemma ResumeLater(s: State, t: nat)
    requires s.Inv() && t < MAX_THREADS && s.threads[t].phase == Suspended
    ensures Later(s, s.Enqueue(t))
  {
  }

  lemma RetireLater(s: State, t: nat)
    requires s.Inv() && t < MAX_THREADS && Retire(s, t).Sized()
    ensures Later(s, Retire(s, t))
  {
    WithoutMembers(s.queue, t);
  }

  lemma ReleaseLater(s: State, r: nat)
    requires CanFinish(s, r)
    ensures Later(s, s.Release(r))
  {
    FinishFacts(s, r);
  }

  lemma ExpiredLater(a: State, b: State, now: u64)
    requires a.Inv() && b.Inv() && ExpiredUpTo(a, b, now, MAX_THREADS)
    ensures Later(a, b)
  {
  }

  lemma FreshOutcome(s: State, e: nat, i: nat)
    requires s.Inv() && s.Waiting(e, i)
    ensures s.records[s.events[e].waiters[i]].generation !in s.outcomes
  {
    assert s.EventOk(e) && s.RecordOk(s.events[e].waiters[i]);
  }

  lemma CompleteLater(s: State, e: nat, i: nat, how: Completion)
    requires s.Inv() && s.Waiting(e, i)
    ensures Later(s, s.Complete(e, i, how))
  {
    hide State.Complete, State.Inv;
    InvSized(s);
    FreshOutcome(s, e, i);
    CompleteFrame(s, e, i, how);
    CompleteGrows(s, e, i, how);
    forall r | 0 <= r < MAX_THREADS && s.records[r].valid
      ensures WaitKept(s, s.Complete(e, i, how), r)
    {
      CompleteRecords(s, e, i, how, r);
    }
  }

  /** Waking every waiter goes forward one completion at a time. */
  lemma {:induction false} WakeAllLater(s: State, e: nat)
    requires s.Inv() && e < MAX_EVENTS && s.events[e].manualReset && s.Slack(e)
    ensures Later(s, WakeAll(s, e))
    decreases |s.events[e].waiters|
  {
    hide State.Inv, State.Complete, State.Slack, Later;
    InvSized(s);
    if s.events[e].waiters == [] {
      QuietLater(s, s);
    } else {
      WaiterIsWaiting(s, e, 0);
      CompleteInv(s, e, 0, Object0);
      CompleteFrame(s, e, 0, Object0);
      CompleteLater(s, e, 0, Object0);
      SlackStays(s, e);
      WakeAllLater(s.Complete(e, 0, Object0), e);
      LaterTransitive(s, s.Complete(e, 0, Object0), WakeAll(s, e));
    }
  }

  lemma SignaledLater(s: State, e: nat)
    requires s.Inv() && e < MAX_EVENTS && s.events[e].live
    ensures Later(s, Signaled(s, e))
  {
    hide State.Inv, State.Complete, Later;
    InvSized(s);
    CountSignalInv(s, e);
    var c := CountSignal(s, e);
    QuietLater(s, c);
    if s.events[e].manualReset {
      WakeAllLater(c, e);
      var w := WakeAll(c, e);
      InvSized(w);
      WakeAllMeaning(c, e);
      QuietLater(w, SetFlag(w, e, true));
      LaterTransitive(c, w, SetFlag(w, e, true));
    } else if s.events[e].waiters != [] {
      WaiterIsWaiting(c, e, 0);
      CompleteLater(c, e, 0, Object0);
    } else {
      QuietLater(c, SetFlag(c, e, true));
    }
    LaterTransitive(s, c, Signaled(s, e));
  }

  lemma BlockLater(s: State, r: nat, e: nat, armed: bool, deadline: u64, handle: u64)
    requires CanBlock(s, r, e)
    ensures Later(s, s.LeaveBlock(r, e, armed, deadline, handle))
  {
  }

  lemma ParkedLater(a: State, b: State, e: nat, handle: u64)
    requires a.Inv() && Parked(a, b, e, handle)
    ensures Later(a, b)
  {
    hide State.Inv, Later, CanBlock;
    InvSized(a);
    var u := Unarmed(a);
    QuietLater(a, u);
    var r := b.threads[a.current].record.value;
    ParkedBlock(a, b, e, handle);
    var m := u.LeaveBlock(r, e, a.pendingArmed, a.pendingDeadline, handle);
    LeaveBlockInv(u, r, e, a.pendingArmed, a.pendingDeadline, handle);
    BlockLater(u, r, e, a.pendingArmed, a.pendingDeadline, handle);
    DispatchLater(m, b.current);
    LaterTransitive(a, u, m);
    LaterTransitive(a, m, b);
  }

  lemma ParkedBlock(a: State, b: State, e: nat, handle: u64)
    requires Parked(a, b, e, handle)
    ensures b.current < MAX_THREADS && b.threads[a.current].record.value < MAX_THREADS && e < MAX_EVENTS
    ensures a.events[e].objectSlot < MAX_OBJECTS && CanBlock(Unarmed(a), b.threads[a.current].record.value, e)
  {
  }

  lemma BlocksLater(a: State, b: State, e: nat, handle: u64, answer: Answer)
    requires a.Inv() && b.Inv() && Blocks(a, b, e, handle, answer)
    ensures Later(a, b)
  {
    hide Parked, Later, State.Inv;
    InvSized(b);
    if a.queue != [] {
      ParkedLater(a, b, e, handle);
    } else {
      QuietLater(a, b);
    }
  }

  lemma YieldRun(a: State, b: State)
    requires a.Inv() && a.busy && IsNext(a.LeaveYield(), b.current) && b == a.LeaveYield().Dispatch(b.current)
        && b.Sized()
    ensures Later(a, b)
  {
    hide State.Inv, Later;
    YieldLater(a);
    LeaveYieldInv(a);
    DispatchLater(a.LeaveYield(), b.current);
    LaterTransitive(a, a.LeaveYield(), b);
  }

  lemma TerminateRun(a: State, b: State)
    requires a.Inv() && a.busy && a.current != 0 && a.threads[a.current].record == None
    requires IsNext(a, b.current) && b == a.LeaveTerminate().Dispatch(b.current) && b.Sized()
    ensures Later(a, b)
  {
    hide State.Inv, Later;
    LeaveTerminateInv(a);
    InvSized(a);
    QuietLater(a, a.LeaveTerminate());
    DispatchLater(a.LeaveTerminate(), b.current);
    LaterTransitive(a, a.LeaveTerminate(), b);
  }

  lemma ReclaimedLater(s: State, t: nat, permitted: bool)
    requires s.Sized() && t < MAX_THREADS && Reclaimed(s, t, permitted).Sized()
    ensures Later(s, Reclaimed(s, t, permitted))
  {
    hide Later;
    QuietLater(s, Reclaimed(s, t, permitted));
  }

  lemma CloseLater(s: State, o: nat, t: nat, permitted: bool)
    requires s.Inv() && o < MAX_OBJECTS && s.objects[o].live && s.objects[o].publicRefs > 0 && t < MAX_THREADS
    requires s.objects[o].kind == ThreadKind ==> s.objects[o].target < MAX_THREADS
    ensures Later(s, CloseObject(s, o)) && Later(s, Reclaimed(CloseObject(s, o), t, permitted))
  {
    hide State.Inv, Later, Reclaimed;
    InvSized(s);
    CloseObjectInv(s, o);
    var c := CloseObject(s, o);
    InvSized(c);
    QuietLater(s, c);
    ReclaimedInv(c, t, permitted);
    InvSized(Reclaimed(c, t, permitted));
    ReclaimedLater(c, t, permitted);
    LaterTransitive(s, c, Reclaimed(c, t, permitted));
  }

  lemma DiscardLater(s: State, t: nat, permitted: bool)
    requires s.Inv() && s.busy && 0 < t < MAX_THREADS && Discardable(s, t) && s.threads[t].record == None
    ensures Later(s, Reclaimed(Retire(s, t), t, permitted))
  {
    hide State.Inv, Later;
    InvSized(s);
    DiscardExact(s, t, permitted);
    RetireLater(s, t);
    InvSized(Reclaimed(Retire(s, t), t, permitted));
    ReclaimedLater(Retire(s, t), t, permitted);
    LaterTransitive(s, Retire(s, t), Reclaimed(Retire(s, t), t, permitted));
  }

  // Each of the next methods performs one group of calls and shows that it goes forward only.

  method Switching(k: Kernel, c: Command)
    requires k.Valid() && k.s.Sized() && Allowed(k.s, c)
    modifies k
    ensures k.Valid() && Later(old(k.s), k.s)
  {
    hide State.Inv, Later;
    QuietLater(k.s, k.s);
    match c {
      case YieldCall =>
        var _ := k.Yield();
        InvSized(k.s);
        YieldRun(old(k.s), k.s);
      case TerminateCall =>
        var ok := k.Terminate();
        InvSized(k.s);
        if ok {
          TerminateRun(old(k.s), k.s);
        }
      case ResumeCall(handle, intact) =>
        var previous := k.Resume(handle, intact);
        if previous == Some(1) {
          ResumeLater(old(k.s), old(k.s).objects[Lookup(old(k.s), handle, ThreadKind).value].target);
        }
      case FinishCall(handle) => Finishing(k, handle);
      case EndWaitCall(handle) => EndWaiting(k, handle);
      case ArmCall(deadline) =>
        var _ := k.ArmTimeout(deadline);
        QuietLater(old(k.s), k.s);
      case TimeoutsCall(now) =>
        var _ := k.ServiceTimeouts(now);
        InvSized(k.s);
        ExpiredLater(old(k.s), k.s, now);
      case _ =>
    }
  }

  method Finishing(k: Kernel, handle: u64)
    requires k.Valid() && k.s.Sized()
    modifies k
    ensures k.Valid() && Later(old(k.s), k.s)
  {
    hide State.Inv, Later, CanFinish;
    var record := k.s.threads[k.s.current].record;
    QuietLater(k.s, k.s);
    if record.Some? {
      FinishFacts(k.s, record.value);
      ReleaseLater(k.s, record.value);
    }
    var _ := k.FinishWait(handle);
    if record == None {
      InvSized(k.s);
      QuietLater(old(k.s), k.s);
    }
  }

  method EndWaiting(k: Kernel, handle: u64)
    requires k.Valid() && k.s.Sized()
    modifies k
    ensures k.Valid() && Later(old(k.s), k.s)
  {
    hide State.Inv, Later, CanFinish;
    var record := k.s.threads[k.s.current].record;
    QuietLater(k.s, k.s);
    if record.Some? {
      FinishFacts(k.s, record.value);
      ReleaseLater(k.s, record.value);
    }
    var _ := EndWait(k, handle);
    if record == None {
      InvSized(k.s);
      QuietLater(old(k.s), k.s);
    }
  }

  method Waiting(k: Kernel, c: Command)
    requires k.Valid() && k.s.Sized() && Allowed(k.s, c)
    modifies k
    ensures k.Valid() && Later(old(k.s), k.s)
  {
    hide State.Inv, Parked, Blocks, Signaled, Later;
    QuietLater(k.s, k.s);
    match c {
      case PrepareCall(handle) =>
        TargetFacts(k.s, handle);
        var result := k.PrepareWait(handle);
        InvSized(k.s);
        if result == WaitBlocked {
          ParkedLater(old(k.s), k.s, WaitTarget(old(k.s), handle).event, handle);
        } else {
          QuietLater(old(k.s), k.s);
        }
      case WaitCall(handle, milliseconds, alertable, clock, poll) =>
        WaitingOnce(k, handle, milliseconds, alertable, clock, poll);
      case SignalCall(handle) =>
        var ok := k.Signal(handle);
        if ok {
          SignaledLater(old(k.s), old(k.s).objects[Lookup(old(k.s), handle, EventKind).value].target);
        }
      case ResetCall(handle) =>
        var _ := k.Reset(handle);
        InvSized(k.s);
        QuietLater(old(k.s), k.s);
      case SetEventCall(handle) =>
        var ok := SetEvent(k, handle);
        if ok {
          SignaledLater(old(k.s), OpenEvent(old(k.s), handle).value);
        }
      case ResetEventCall(handle) =>
        var _ := ResetEvent(k, handle);
        InvSized(k.s);
        QuietLater(old(k.s), k.s);
      case _ =>
    }
  }

  method WaitingOnce(k: Kernel, handle: u64, milliseconds: nat, alertable: nat, clock: Option<u64>, poll: Option<u64>)
    requires k.Valid() && k.s.Sized() && milliseconds <= INFINITE
    modifies k
    ensures k.Valid() && Later(old(k.s), k.s)
  {
    hide State.Inv, Parked, Blocks, Later, ExpiredUpTo;
    ghost var e := OpenForWait(k.s, handle);
    ghost var armed := k.s;
    QuietLater(k.s, k.s);
    var answer, polled := WaitOne(k, handle, milliseconds, alertable, clock, poll);
    InvSized(k.s);
    if alertable == 0 && e.Good? && milliseconds != 0 && !old(k.s).events[e.event].signaled {
      if milliseconds != INFINITE && clock.Some? {
        PolledLater(old(k.s), polled, poll);
        armed := Armed(polled, Deadline(clock.value, milliseconds));
        PendingInv(polled, true, Deadline(clock.value, milliseconds));
        QuietLater(polled, armed);
        LaterTransitive(old(k.s), polled, armed);
      }
      if (milliseconds == INFINITE || clock.Some?) && old(k.s).threads[old(k.s).current].record == None {
        BlocksLater(armed, k.s, e.event, handle, answer);
        LaterTransitive(old(k.s), armed, k.s);
      } else if milliseconds == INFINITE {
        QuietLater(old(k.s), k.s);
      }
    } else if alertable == 0 && e.Good? && old(k.s).events[e.event].signaled {
      QuietLater(old(k.s), k.s);
    }
  }

  lemma PolledLater(a: State, b: State, poll: Option<u64>)
    requires a.Inv() && b.Inv() && Polled(a, b, poll)
    ensures Later(a, b)
  {
    if poll.Some? {
      ExpiredLater(a, b, poll.value);
    } else {
      QuietLater(a, a);
    }
  }

  method Owning(k: Kernel, c: Command)
    requires k.Valid() && k.s.Sized() && Allowed(k.s, c)
    modifies k
    ensures k.Valid() && Later(old(k.s), k.s)
  {
    hide State.Inv, Later, Reclaimed;
    QuietLater(k.s, k.s);
    match c {
      case CloseCall(handle, intact, unregistered) =>
        var ok := k.Close(handle, intact, unregistered);
        if ok {
          var o := Lookup(old(k.s), handle, KindOf(handle)).value;
          var thread := KindOf(handle) == ThreadKind;
          CloseLater(old(k.s), o, if thread then old(k.s).objects[o].target else 0, intact && unregistered);
        }
      case DestroyCall(handle) =>
        var ok := k.TryDestroyEvent(handle);
        InvSized(k.s);
        QuietLater(old(k.s), k.s);
      case ReclaimCall(t, intact, unregistered) =>
        var _ := k.TryReclaim(t, intact, unregistered);
        InvSized(k.s);
        ReclaimedLater(old(k.s), t, intact && unregistered);
      case DiscardCall(t, intact, unregistered) =>
        if Discardable(k.s, t) {
          DiscardLater(k.s, t, intact && unregistered);
        }
        var _ := k.Discard(t, intact, unregistered);
      case _ =>
    }
  }

  method Creating(k: Kernel, c: Command)
    requires k.Valid() && k.s.Sized() && Allowed(k.s, c)
    modifies k
    ensures k.Valid() && Later(old(k.s), k.s)
  {
    hide State.Inv, Later;
    QuietLater(k.s, k.s);
    match c {
      case CreateEventCall(manualReset, signaled) =>
        var _ := k.CreateEvent(manualReset, signaled);
        InvSized(k.s);
        QuietLater(old(k.s), k.s);
      case CreateThreadCall(resources) =>
        var _ := k.CreateThread(resources);
        InvSized(k.s);
        QuietLater(old(k.s), k.s);
      case CollectCall(permitted) =>
        k.Collect(permitted);
        InvSized(k.s);
        QuietLater(old(k.s), k.s);
      case _ =>
    }
  }

  /**
   * Every run keeps the invariant: one running thread, the queue exactly the runnable threads, no
   * event both signaled and waited on, pins and active waits counted, no auto-reset token handed
   * out twice, bounded waiting. Completed waits keep their outcome, registered waits keep their
   * ticket and end only with an outcome, and a queued thread keeps its place until it runs. The run
   * stops early only before a call that the program leaves to its callers to avoid.
   */
  method Perform(k: Kernel, commands: seq<Command>) returns (done: nat)
    requires k.Valid()
    modifies k
    ensures k.Valid() && Later(old(k.s), k.s)
    ensures done <= |commands| && (done < |commands| ==> !Allowed(k.s, commands[done]))
  {
    hide State.Inv, Later;
    InvSized(k.s);
    QuietLater(k.s, k.s);
    done := 0;
    while done != |commands| && Allowed(k.s, commands[done])
      invariant 0 <= done <= |commands| && k.Valid() && k.s.Sized() && Later(old(k.s), k.s)
    {
      ghost var before := k.s;
      match commands[done] {
        case YieldCall | TerminateCall | ResumeCall(_, _) | FinishCall(_) | EndWaitCall(_) | ArmCall(_)
          | TimeoutsCall(_) =>
          Switching(k, commands[done]);
        case PrepareCall(_) | WaitCall(_, _, _, _, _) | SignalCall(_) | ResetCall(_) | SetEventCall(_)
          | ResetEventCall(_) =>
          Waiting(k, commands[done]);
        case CreateEventCall(_, _) | CreateThreadCall(_) | CollectCall(_) =>
          Creating(k, commands[done]);
        case _ =>
          Owning(k, commands[done]);
      }
      LaterTransitive(old(k.s), before, k.s);
      InvSized(k.s);
      done := done + 1;
    }
  }

  /** A kernel that has just been initialized, taken through any run. */
  method FromBoot(commands: seq<Command>) returns (k: Kernel, done: nat)
    ensures k.Valid() && Later(Boot(), k.s)
    ensures done <= |commands| && (done < |commands| ==> !Allowed(k.s, commands[done]))
  {
    hide State.Inv, Later;
    k := new Kernel();
    done := Perform(k, commands);
  }

  // ---- The two calls that can break the invariant, in the states that a run reaches ----

  /** The boot thread with one worker that is queued. */
  method BootWithWorker() returns (k: Kernel, worker: nat)
    ensures fresh(k) && k.Valid() && k.s.Sized() && k.s.current == 0 && k.s.threads[0].record == None
        && k.s.threads[0].publicRefs == 0
    ensures 0 < worker < MAX_THREADS && k.s.queue == [worker]
    ensures forall e | 0 <= e < MAX_EVENTS :: !k.s.events[e].live
    ensures exists o :: 0 <= o < MAX_OBJECTS && !k.s.objects[o].live
    ensures forall r | 0 <= r < MAX_THREADS :: !k.s.records[r].valid
    ensures !k.s.pendingArmed && k.s.pendingDeadline == 0
  {
    hide State.Inv, Lookup;
    worker := 1;
    k := new Kernel();
    assert !k.s.threads[1].live && !k.s.objects[1].live && !k.s.objects[2].live;
    var handle := k.CreateThread(true);
    if handle == None {
      return;
    }
    var o := Lookup(k.s, handle.value, ThreadKind).value;
    worker := k.s.objects[o].target;
    var previous := k.Resume(handle.value, true);
    assert !k.s.objects[if o == 1 then 2 else 1].live;
  }

  /** A worker that ends while every other thread is blocked leaves nobody running. */
  method TerminateCanStrand() returns (k: Kernel)
    ensures !k.Valid()
  {
    hide State.Inv;
    var worker;
    k, worker := BootWithWorker();
    assert !k.s.events[0].live;
    var handle := k.CreateEvent(false, false);
    if handle == None {
      return;
    }
    TargetFacts(k.s, handle.value);
    var waited := k.PrepareWait(handle.value);
    assert k.s.current == worker && k.s.queue == [];
    var ended := k.Terminate();
  }

  /** Nothing keeps a caller from discarding the boot thread once it has yielded. */
  method DiscardCanStrand() returns (k: Kernel)
    ensures !k.Valid()
  {
    hide State.Inv;
    var worker;
    k, worker := BootWithWorker();
    assert k.s.LeaveYield().queue == [worker, 0];
    assert worker in k.s.LeaveYield().queue;
    var yielded := k.Yield();
    assert k.s.current == worker;
    var gone := k.Discard(0, true, true);
  }

  lemma EventHandleKind(slot: nat, handle: u64)
    requires slot < MAX_OBJECTS
    ensures forall birth: nat | 0 < birth && handle == MakeHandle(EventKind, slot, GenerationOf(birth)) ::
              KindOf(handle) == EventKind
  {
  }

  /** A wait through a closed handle is satisfied by the event that it used to open. */
  method ClosedHandleWaits() returns (k: Kernel, handle: u64, result: WaitResult)
    ensures k.Valid() && k.s.Sized()
    ensures result == WaitSignaled && OpenEvent(k.s, handle) == None && NamesSignaled(k.s, handle)
  {
    hide State.Inv;
    handle, result := 0, WaitSignaled;
    k := new Kernel();
    assert !k.s.events[0].live && !k.s.objects[1].live;
    var created := k.CreateEvent(true, true);
    if created == None {
      return;
    }
    handle := created.value;
    EventHandleKind(k.s.events[OpenEvent(k.s, handle).value].objectSlot, handle);
    var closed := k.Close(handle, true, true);
    result := k.PrepareWait(handle);
    InvSized(k.s);
  }
}
