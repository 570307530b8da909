/**
 * The event calls of the Windows-style interface: WaitForSingleObject(Ex), SetEvent, ResetEvent.
 */
module EventApi {
  import opened Words
  import opened Handles
  import opened SchedState
  import opened SchedSteps
  import opened SchedWaits
  import opened Scheduler

  const ERROR_INVALID_HANDLE: nat := 6
  const ERROR_NOT_ENOUGH_MEMORY: nat := 8
  const INFINITE: nat := 0xFFFF_FFFF

  /** WAIT_OBJECT_0, WAIT_TIMEOUT, WAIT_FAILED with the error set, or no answer yet. */
  datatype Answer = ObjectSignaled | TimedOutAnswer | Failed(error: nat) | StillBlocked

  /** The object behind a wait handle, or the error the call reports for it. */
  datatype Opened = Bad(error: nat) | Good(event: nat)

  function OpenForWait(s: State, handle: u64): (r: Opened)
    requires |s.objects| == MAX_OBJECTS && |s.events| == MAX_EVENTS
    ensures r.Good? ==> OpenEvent(s, handle) == Some(r.event) && r.event < MAX_EVENTS
    ensures r.Bad? ==> r.error == ERROR_INVALID_PARAMETER || r.error == ERROR_INVALID_HANDLE
  {
    var kind := KindOf(handle);
    var found := Lookup(s, handle, kind);
    if kind == NoKind || found == None then Bad(ERROR_INVALID_HANDLE) else
    var ob := s.objects[found.value];
    if ob.publicRefs == 0 || ob.closed || ob.internalRefs == 0 then Bad(ERROR_INVALID_HANDLE) else
    if kind != EventKind then Bad(ERROR_INVALID_PARAMETER) else
    match OpenEvent(s, handle)
    case None => Bad(ERROR_INVALID_HANDLE)
    case Some(e) => Good(e)
  }

  /** The handle of a live object that is still open for its owner. */
  predicate OpenObject(s: State, handle: u64, kind: Kind)
    requires |s.objects| == MAX_OBJECTS
  {
    && Lookup(s, handle, kind).Some?
    && var ob := s.objects[Lookup(s, handle, kind).value];
       ob.publicRefs > 0 && !ob.closed
  }

  /** An open event can be waited on, an open thread is the wrong kind of object, all else is no handle. */
  lemma WaitHandles(s: State, handle: u64)
    requires s.Inv()
    ensures s.Sized()
    ensures OpenForWait(s, handle).Good? <==> OpenEvent(s, handle).Some?
    ensures OpenForWait(s, handle) == Bad(ERROR_INVALID_PARAMETER) <==> OpenObject(s, handle, ThreadKind)
    ensures OpenForWait(s, handle) == Bad(ERROR_INVALID_HANDLE) <==>
              !OpenObject(s, handle, EventKind) && !OpenObject(s, handle, ThreadKind)
  {
    hide State.Inv;
    InvSized(s);
    LookupKind(s, handle, ThreadKind);
    LookupKind(s, handle, EventKind);
    TargetFacts(s, handle);
    if Lookup(s, handle, ThreadKind).Some? {
      ThreadFacts(s, Lookup(s, handle, ThreadKind).value);
    }
    if Lookup(s, handle, EventKind).Some? {
      EventFacts(s, Lookup(s, handle, EventKind).value);
    }
  }

  /** A handle resolves as the type that its type byte names. */
  lemma LookupKind(s: State, handle: u64, kind: Kind)
    requires |s.objects| == MAX_OBJECTS
    ensures kind != NoKind && Lookup(s, handle, kind).Some? ==> KindOf(handle) == kind
  {
  }

  /** The deadline of a finite wait, held at the largest clock value. */
  function Deadline(now: u64, milliseconds: nat): (d: u64)
    ensures d >= now && (d == now + milliseconds || d == MAX_U64 < now + milliseconds)
  {
    if now > MAX_U64 - milliseconds then MAX_U64 else now + milliseconds
  }

  function Armed(s: State, deadline: u64): State {
    s.(pendingArmed := true, pendingDeadline := deadline)
  }

  /** How a wait that has to block ends: refused without effect, or parked until a completion. */
  ghost predicate Blocks(a: State, b: State, e: nat, handle: u64, answer: Answer) {
    && a.Sized() && a.threads[a.current].record == None
    && if a.queue == []
       then answer == Failed(ERROR_NOT_ENOUGH_MEMORY) && b == Note(a, 0, WaitFailure, a.nextGeneration + 1, false, 0)
       else answer == StillBlocked && Parked(a, b, e, handle)
  }

  /**
   * wait_one up to the point where the caller either has its answer or has given up the processor.
   * `clock` and `poll` are the two readings of the clock, None when there is none.
   */
  method WaitOne(k: Kernel, handle: u64, milliseconds: nat, alertable: nat, clock: Option<u64>, poll: Option<u64>)
    returns (answer: Answer, ghost polled: State)
    requires k.Valid() && milliseconds <= INFINITE
    modifies k
    ensures k.Valid()
    ensures alertable != 0 ==> answer == Failed(ERROR_INVALID_PARAMETER) && k.s == old(k.s)
    ensures alertable == 0 ==>
              match OpenForWait(old(k.s), handle)
              case Bad(error) => answer == Failed(error) && k.s == old(k.s)
              case Good(e) =>
                if old(k.s).events[e].signaled then answer == ObjectSignaled && k.s == TakeToken(old(k.s), e)
                else if milliseconds == 0 then answer == TimedOutAnswer && k.s == old(k.s)
                else if milliseconds == INFINITE then
                  if old(k.s).threads[old(k.s).current].record != None
                  then answer == Failed(ERROR_NOT_ENOUGH_MEMORY) && k.s == Unarmed(old(k.s))
                  else Blocks(old(k.s), k.s, e, handle, answer)
                else if clock == None then answer == Failed(ERROR_INVALID_PARAMETER) && k.s == old(k.s)
                else
                  && polled.Inv() && Polled(old(k.s), polled, poll)
                  && if old(k.s).threads[old(k.s).current].record != None
                     then answer == Failed(ERROR_INVALID_PARAMETER) && k.s == polled
                     else Blocks(Armed(polled, Deadline(clock.value, milliseconds)), k.s, e, handle, answer)
  {
    hide State.Inv, Parked, ExpiredUpTo, OpenEvent, Lookup;
    InvSized(k.s);
    TargetFacts(k.s, handle);
    polled := k.s;
    if alertable != 0 {
      return Failed(ERROR_INVALID_PARAMETER), polled;
    }
    var target := OpenForWait(k.s, handle);
    if target.Bad? {
      return Failed(target.error), polled;
    }
    var e := target.event;
    if k.s.events[e].signaled {
      TakeTokenInv(k.s, e);
      if !k.s.events[e].manualReset {
        k.s := k.s.(events := k.s.events[e := k.s.events[e].(signaled := false)]);
      }
      k.s := k.s.(ledgers := k.s.Satisfy(e));
      assert k.s.events == TakeToken(old(k.s), e).events;
      return ObjectSignaled, polled;
    }
    if milliseconds == 0 {
      return TimedOutAnswer, polled;
    }
    if milliseconds != INFINITE {
      if clock == None {
        return Failed(ERROR_INVALID_PARAMETER), polled;
      }
      PollNothing(k.s);
      if poll.Some? {
        var _ := k.ServiceTimeouts(poll.value);
        InvSized(k.s);
      }
      polled := k.s;
      StillOpen(old(k.s), polled, poll, handle);
      var ready := k.ArmTimeout(Deadline(clock.value, milliseconds));
      if !ready {
        return Failed(ERROR_INVALID_PARAMETER), polled;
      }
    }
    SameTarget(polled, k.s, handle);
    var result := k.PrepareWait(handle);
    answer := if result == WaitBlocked then StillBlocked else Failed(ERROR_NOT_ENOUGH_MEMORY);
  }

  /** The state after poll_timeouts; without a clock reading it is the same. */
  ghost predicate Polled(a: State, b: State, poll: Option<u64>) {
    && a.Sized() && b.Sized()
    && match poll
       case None => b == a
       case Some(now) => ExpiredUpTo(a, b, now, MAX_THREADS)
  }

  lemma PollNothing(a: State)
    requires a.Inv()
    ensures Polled(a, a, None)
  {
  }

  lemma SameTarget(a: State, b: State, handle: u64)
    requires a.Sized() && (b == a || b == Armed(a, b.pendingDeadline))
    ensures WaitTarget(b, handle) == WaitTarget(a, handle) && OpenEvent(b, handle) == OpenEvent(a, handle)
  {
  }

  /** Timeouts neither close handles nor signal events. */
  lemma StillOpen(a: State, b: State, poll: Option<u64>, handle: u64)
    requires a.Inv() && b.Inv() && Polled(a, b, poll)
    ensures OpenEvent(b, handle) == OpenEvent(a, handle) && WaitTarget(b, handle) == WaitTarget(a, handle)
    ensures b.threads[b.current].record == a.threads[a.current].record
  {
  }

  function AnswerOf(result: WaitResult): Answer {
    match result
    case WaitSignaled => ObjectSignaled
    case WaitTimedOut => TimedOutAnswer
    case _ => Failed(ERROR_NOT_ENOUGH_MEMORY)
  }

  /** The rest of wait_one, after the blocked thread has been dispatched again. */
  method EndWait(k: Kernel, handle: u64) returns (answer: Answer)
    requires k.Valid()
    modifies k
    ensures k.Valid()
    ensures match old(k.s.threads[k.s.current].record)
            case None =>
              var noted := old(k.s.threads[k.s.current].blockedResult);
              && answer == AnswerOf(noted)
              && k.s == if noted == WaitSignaled || noted == WaitTimedOut
                        then Note(old(k.s), 0, WaitFailure, old(k.s.nextGeneration), old(k.s.pendingArmed),
                            old(k.s.pendingDeadline))
                        else old(k.s)
            case Some(r) =>
              && CanFinish(old(k.s), r)
              && var rc := old(k.s).records[r];
                 && rc.generation in old(k.s).outcomes
                 && if handle == 0 || DecodeHandle(handle, EventKind) == Reference(rc.objectSlot, rc.objectGeneration)
                    then k.s == old(k.s).Release(r) && match old(k.s).outcomes[rc.generation].how
                                                       case Object0 => answer == ObjectSignaled
                                                       case Timeout => answer == TimedOutAnswer
                                                       case Pending => false
                    else k.s == old(k.s) && answer == Failed(ERROR_NOT_ENOUGH_MEMORY)
  {
    hide State.Inv;
    var result := k.FinishWait(handle);
    answer := AnswerOf(result);
  }

  /** gxos_set_event_contract: unlike the scheduler's own signal, it needs an open handle. */
  method SetEvent(k: Kernel, handle: u64) returns (ok: bool)
    requires k.Valid()
    modifies k
    ensures k.Valid()
    ensures ok <==> OpenEvent(old(k.s), handle).Some?
    ensures k.s == match OpenEvent(old(k.s), handle)
                   case None => old(k.s)
                   case Some(e) => Signaled(old(k.s), e)
  {
    hide State.Inv, Signaled;
    TargetFacts(k.s, handle);
    if OpenEvent(k.s, handle) == None {
      return false;
    }
    ok := k.Signal(handle);
  }

  /** gxos_reset_event_contract */
  method ResetEvent(k: Kernel, handle: u64) returns (ok: bool)
    requires k.Valid()
    modifies k
    ensures k.Valid()
    ensures ok <==> OpenEvent(old(k.s), handle).Some?
    ensures k.s == match OpenEvent(old(k.s), handle)
                   case None => old(k.s)
                   case Some(e) => SetFlag(old(k.s), e, false)
  {
    hide State.Inv;
    TargetFacts(k.s, handle);
    if OpenEvent(k.s, handle) == None {
      return false;
    }
    ok := k.Reset(handle);
  }
}
