/**
 * What signals, timeouts and unfinished waits do to the whole scheduler state.
 */
module SchedWaits {
  import opened Words
  import opened Handles
  import opened SchedState
  import opened SchedSteps

  /** The waiter at place `i` of event `e` can be completed: its thread is off the queue, which has room. */
  ghost predicate Wakeable(s: State, e: nat, i: nat) {
    && s.Waiting(e, i)
    && var rc := s.records[s.events[e].waiters[i]];
       && rc.valid && rc.active && rc.linked && s.threads[rc.thread].live && !s.threads[rc.thread].queued
       && s.threads[rc.thread].suspendCount == 0 && |s.queue| < MAX_THREADS
  }

  lemma WaiterIsWakeable(s: State, e: nat, i: nat)
    requires s.Inv() && e < MAX_EVENTS && i < |s.events[e].waiters|
    ensures Wakeable(s, e, i) && s.events[e].live && !s.events[e].signaled
  {
    WaiterIsWaiting(s, e, i);
    var r := s.events[e].waiters[i];
    assert s.EventOk(e) && s.RecordOk(r) && s.ThreadOk(s.records[r].thread);
    QueueFits(s, s.records[r].thread);
  }

  /** Every queued thread of `a` is still queued in `b`, since the same switch; none was dispatched or lost. */
  ghost predicate QueueGrows(a: State, b: State)
    requires a.Sized() && b.Sized()
  {
    && (forall t | t in a.queue && t < MAX_THREADS :: t in b.queue && b.since[t] == a.since[t])
    && b.ran == a.ran && b.gone == a.gone && b.switches == a.switches
  }

  lemma CompleteGrows(s: State, e: nat, i: nat, how: Completion)
    requires s.Inv() && s.Waiting(e, i)
    ensures s.Complete(e, i, how).Sized() && QueueGrows(s, s.Complete(e, i, how))
  {
    WaiterIsWakeable(s, e, i);
    assert s.ThreadOk(s.records[s.events[e].waiters[i]].thread);
  }

  /** What completing a wait leaves alone. */
  lemma CompleteFrame(s: State, e: nat, i: nat, how: Completion)
    requires s.Waiting(e, i) && |s.ledgers| == MAX_EVENTS
    ensures var s' := s.Complete(e, i, how);
            && s'.objects == s.objects && s'.current == s.current && s'.busy == s.busy && s'.switches == s.switches
            && s'.activeWaits == s.activeWaits && s'.nextGeneration == s.nextGeneration
            && s'.pendingArmed == s.pendingArmed && s'.pendingDeadline == s.pendingDeadline
            && |s'.events| == |s.events| && |s'.ledgers| == |s.ledgers| && |s'.threads| == |s.threads|
            && s'.events[e] == s.events[e].(waiters := s'.events[e].waiters)
            && |s'.events[e].waiters| == |s.events[e].waiters| - 1
            && (forall f | 0 <= f < MAX_EVENTS && f != e :: s'.events[f] == s.events[f]
                 && s'.ledgers[f] == s.ledgers[f])
            && s'.ledgers[e] == (if how == Object0 then s.Satisfy(e) else s.ledgers)[e]
            && s'.clock == s.clock && s'.registered == s.registered
            && s'.outcomes == s.outcomes[s.records[s.events[e].waiters[i]].generation :=
                                           Outcome(how, s.clock, s.ledgers[e].signals)]
            && (forall t | 0 <= t < MAX_THREADS
                 && t != s.records[s.events[e].waiters[i]].thread :: s'.threads[t] == s.threads[t])
  {
  }

  /** Completing a wait finishes that record and at most moves another one. */
  lemma CompleteRecords(s: State, e: nat, i: nat, how: Completion, r: nat)
    requires s.Inv() && s.Waiting(e, i) && r < MAX_THREADS
    ensures var s', done := s.Complete(e, i, how), s.events[e].waiters[i];
            && s'.Sized() && s'.records[r] == (
              if r == done
              then s.records[r].(linked := false, waiterIndex := NO_INDEX, completed := true, completion := how)
              else s.records[r].(waiterIndex := s'.records[r].waiterIndex))
            && (r != done && !(s.records[r].valid && s.records[r].linked && s.records[r].event == e) ==>
                  s'.records[r] == s.records[r])
            && s'.threads[s.records[done].thread].live
            && s'.threads[s.records[done].thread].phase == Runnable
  {
    CompleteShape(s, e, i, how, r);
    assert s.EventOk(e) && s.RecordOk(s.events[e].waiters[i]);
  }

  // ---- Signal ----

  /** A signal of a manual-reset event serves every waiter: completing one leaves the others served. */
  lemma SlackStays(s: State, e: nat)
    requires s.Inv() && s.Waiting(e, 0) && s.events[e].manualReset && s.Slack(e)
    ensures s.Complete(e, 0, Object0).Sized() && s.Complete(e, 0, Object0).Slack(e)
  {
    hide State.Complete;
    CompleteFrame(s, e, 0, Object0);
    forall r | 0 <= r < MAX_THREADS
      ensures s.Complete(e, 0, Object0).Sized()
      ensures s.Complete(e, 0, Object0).records[r].valid == s.records[r].valid
      ensures s.Complete(e, 0, Object0).records[r].linked ==> s.records[r].linked
      ensures s.Complete(e, 0, Object0).records[r].event == s.records[r].event
      ensures s.Complete(e, 0, Object0).records[r].generation == s.records[r].generation
    {
      CompleteShape(s, e, 0, Object0, r);
    }
  }

  /** The loop that wakes every waiter of a manual-reset event, always the one at place 0. */
  ghost function WakeAll(s: State, e: nat): (w: State)
    requires s.Inv() && e < MAX_EVENTS && s.events[e].manualReset && s.Slack(e)
    ensures w.Inv()
    decreases |s.events[e].waiters|
  {
    if s.events[e].waiters == [] then s else
    WaiterIsWaiting(s, e, 0);
    CompleteInv(s, e, 0, Object0);
    CompleteFrame(s, e, 0, Object0);
    SlackStays(s, e);
    WakeAll(s.Complete(e, 0, Object0), e)
  }

  ghost predicate WaitsOn(s: State, r: nat, e: nat)
    requires s.Sized() && r < MAX_THREADS
  {
    s.records[r].valid && s.records[r].linked && s.records[r].event == e
  }

  /** From `s` to `w` exactly the linked records of `e` were completed as signaled, and nothing else moved. */
  ghost predicate AllWoken(s: State, w: State, e: nat)
    requires s.Inv() && w.Inv() && e < MAX_EVENTS
  {
    && w.events == s.events[e := s.events[e].(waiters := [])]
    && (forall r | 0 <= r < MAX_THREADS :: Woken(s, w, e, r))
    && (forall g | g in w.outcomes :: (g in s.outcomes && w.outcomes[g] == s.outcomes[g])
         || w.outcomes[g].how == Object0)
    && s.outcomes.Keys <= w.outcomes.Keys && w.registered == s.registered && w.clock == s.clock
    && w.objects == s.objects && w.current == s.current && w.busy == s.busy && w.switches == s.switches
    && w.activeWaits == s.activeWaits && w.nextGeneration == s.nextGeneration && QueueGrows(s, w)
    && (forall f | 0 <= f < MAX_EVENTS && f != e :: w.ledgers[f] == s.ledgers[f])
    && w.ledgers[e] == s.ledgers[e].(satisfied := s.ledgers[e].satisfied + |s.events[e].waiters|)
  }

  ghost predicate Woken(s: State, w: State, e: nat, r: nat)
    requires s.Sized() && w.Sized() && r < MAX_THREADS
  {
    if WaitsOn(s, r, e)
    then w.records[r] == s.records[r].(linked := false, waiterIndex := NO_INDEX, completed := true,
        completion := Object0)
    else w.records[r] == s.records[r]
  }

  lemma {:induction false} WakeAllMeaning(s: State, e: nat)
    requires s.Inv() && e < MAX_EVENTS && s.events[e].manualReset && s.Slack(e)
    ensures AllWoken(s, WakeAll(s, e), e)
    decreases |s.events[e].waiters|
  {
    hide State.Inv, State.Complete, State.Slack, AllWoken;
    InvSized(s);
    if s.events[e].waiters == [] {
      WakeNothing(s, e);
    } else {
      WaiterIsWaiting(s, e, 0);
      CompleteInv(s, e, 0, Object0);
      CompleteFrame(s, e, 0, Object0);
      SlackStays(s, e);
      WakeAllMeaning(s.Complete(e, 0, Object0), e);
      WokenAfter(s, WakeAll(s, e), e);
    }
  }

  /** Completing the first waiter and waking the rest is waking all. */
  lemma WokenAfter(s: State, w: State, e: nat)
    requires s.Inv() && w.Inv() && s.Waiting(e, 0)
    requires s.Complete(e, 0, Object0).Inv() && AllWoken(s.Complete(e, 0, Object0), w, e)
    ensures AllWoken(s, w, e)
  {
    hide State.Inv, State.Complete, Woken, QueueGrows;
    var s' := s.Complete(e, 0, Object0);
    InvSized(s);
    InvSized(w);
    InvSized(s');
    CompleteFrame(s, e, 0, Object0);
    CompleteGrows(s, e, 0, Object0);
    WakeStep(s, e);
    forall r | 0 <= r < MAX_THREADS
      ensures Woken(s, w, e, r)
    {
      WokenStep(s, w, e, r);
    }
    GrowsOn(s, s', w);
    assert w.events == s.events[e := s.events[e].(waiters := [])];
  }

  lemma InvSized(s: State)
    requires s.Inv()
    ensures s.Sized()
  {
  }

  lemma GrowsOn(a: State, b: State, c: State)
    requires a.Sized() && b.Sized() && c.Sized() && QueueGrows(a, b) && QueueGrows(b, c)
    ensures QueueGrows(a, c)
  {
  }

  lemma WokenStep(s: State, w: State, e: nat, r: nat)
    requires s.Inv() && s.Waiting(e, 0) && w.Sized() && r < MAX_THREADS
    requires s.Complete(e, 0, Object0).Inv() && Woken(s.Complete(e, 0, Object0), w, e, r)
    ensures Woken(s, w, e, r)
  {
    hide State.Inv, State.Complete;
    InvSized(s);
    WakeStep(s, e);
    CompleteRecords(s, e, 0, Object0, r);
  }

  lemma WakeNothing(s: State, e: nat)
    requires s.Inv() && e < MAX_EVENTS && s.events[e].waiters == []
    ensures AllWoken(s, s, e)
  {
    assert s.events == s.events[e := s.events[e].(waiters := [])];
    forall r | 0 <= r < MAX_THREADS
      ensures !WaitsOn(s, r, e)
    {
      assert s.RecordOk(r);
    }
  }

  lemma WakeStep(s: State, e: nat)
    requires s.Inv() && s.Waiting(e, 0)
    ensures s.records[s.events[e].waiters[0]].generation !in s.outcomes
    ensures WaitsOn(s, s.events[e].waiters[0], e)
    ensures s.Sized()
  {
    assert s.EventOk(e) && s.RecordOk(s.events[e].waiters[0]);
  }

  /** The waits registered before a signal are older than it. */
  lemma CountSignalSlack(s: State, e: nat)
    requires s.Inv() && e < MAX_EVENTS
    ensures CountSignal(s, e).Sized() && (s.events[e].live ==> CountSignal(s, e).Slack(e))
  {
    assert s.LedgerOk(e);
    forall r | 0 <= r < MAX_THREADS
      ensures TicketOk(s.records[r], s.ledgers, s.registered)
    {
    }
  }

  lemma CountSignalInv(s: State, e: nat)
    requires s.Inv() && e < MAX_EVENTS
    ensures CountSignal(s, e).Inv() && (s.events[e].live ==> CountSignal(s, e).Slack(e))
  {
    CountSignalSlack(s, e);
    assert s.LedgerOk(e);
    assert s.EventOk(e);
    EventRecordInv(s, CountSignal(s, e), e);
  }

  /** gxos_scheduler_signal_event on a live event, as one change of state. */
  ghost function Signaled(s: State, e: nat): State
    requires s.Inv() && e < MAX_EVENTS && s.events[e].live
  {
    CountSignalInv(s, e);
    var c := CountSignal(s, e);
    if s.events[e].manualReset then SetFlag(WakeAll(c, e), e, true)
    else if s.events[e].waiters != [] then WaiterIsWaiting(c, e, 0); c.Complete(e, 0, Object0)
    else SetFlag(c, e, true)
  }

  lemma SignaledInv(s: State, e: nat)
    requires s.Inv() && e < MAX_EVENTS && s.events[e].live
    ensures Signaled(s, e).Inv()
  {
    hide State.ThreadOk, State.RecordOk, State.ObjectOk, State.ThreadObjectOk, State.QueueOk, State.FairOk,
      State.EventOk, State.Complete;
    CountSignalInv(s, e);
    var c := CountSignal(s, e);
    if s.events[e].manualReset {
      WakeAllMeaning(c, e);
      EventRecordInv(WakeAll(c, e), SetFlag(WakeAll(c, e), e, true), e);
    } else if s.events[e].waiters != [] {
      WaiterIsWaiting(c, e, 0);
      CompleteInv(c, e, 0, Object0);
    } else {
      EventRecordInv(c, SetFlag(c, e, true), e);
    }
  }

  /**
   * No signal is lost. A manual-reset event keeps it and frees every waiter; an auto-reset event
   * hands it to its first waiter or, having none, keeps it, but never both.
   */
  lemma SignalMeaning(s: State, e: nat)
    requires s.Inv() && e < MAX_EVENTS && s.events[e].live
    ensures var s' := Signaled(s, e);
            && |s'.events| == MAX_EVENTS && |s'.ledgers| == MAX_EVENTS
            && s'.ledgers[e].signals == s.ledgers[e].signals + 1
            && |s.events[e].waiters| - |s'.events[e].waiters| == s'.ledgers[e].satisfied - s.ledgers[e].satisfied
            && (s.events[e].manualReset ==> s'.events[e].signaled && s'.events[e].waiters == [])
            && (!s.events[e].manualReset && s.events[e].waiters == [] ==>
                  s'.events[e].signaled && s'.records == s.records)
            && (!s.events[e].manualReset && s.events[e].waiters != [] ==>
                  && !s'.events[e].signaled && |s'.events[e].waiters| == |s.events[e].waiters| - 1
                  && s.events[e].waiters[0] < |s'.records|
                  && s'.records[s.events[e].waiters[0]].completion == Object0)
  {
    hide State.ThreadOk, State.RecordOk, State.ObjectOk, State.ThreadObjectOk, State.QueueOk, State.FairOk,
      State.Complete;
    CountSignalInv(s, e);
    var c := CountSignal(s, e);
    if s.events[e].manualReset {
      WakeAllMeaning(c, e);
    } else if s.events[e].waiters != [] {
      WaiterIsWakeable(s, e, 0);
      WaiterIsWaiting(c, e, 0);
      CompleteFrame(c, e, 0, Object0);
      CompleteRecords(c, e, 0, Object0, s.events[e].waiters[0]);
    }
  }

  lemma FlagThenUnlink(s: State, e: nat)
    requires s.Waiting(e, 0)
    ensures SetFlag(s, e, true).Waiting(e, 0)
    ensures SetFlag(s, e, true).Unlink(e, 0) == SetFlag(s.Unlink(e, 0), e, true)
  {
    var a, b := SetFlag(s, e, true).Unlink(e, 0), SetFlag(s.Unlink(e, 0), e, true);
    assert a.events[e] == b.events[e];
    assert a.events == b.events && a.records == b.records;
  }

  /** Setting the flag first and waking after it is waking first and setting the flag after it. */
  lemma FlagThenWake(s: State, e: nat)
    requires s.Waiting(e, 0) && |s.ledgers| == MAX_EVENTS
    ensures SetFlag(s, e, true).Waiting(e, 0)
    ensures SetFlag(s, e, true).Complete(e, 0, Object0) == SetFlag(s.Complete(e, 0, Object0), e, true)
  {
    hide State.Unlink;
    FlagThenUnlink(s, e);
  }

  lemma TakeTokenInv(s: State, e: nat)
    requires s.Inv() && e < MAX_EVENTS && s.events[e].live && s.events[e].signaled
    ensures TakeToken(s, e).Inv()
  {
    assert s.LedgerOk(e) && s.EventOk(e);
    EventRecordInv(s, TakeToken(s, e), e);
  }

  // ---- Timeouts ----

  predicate Expired(s: State, r: nat, now: u64)
    requires r < |s.records|
  {
    var rc := s.records[r];
    rc.valid && rc.active && rc.armed && !rc.completed && rc.deadline <= now
  }

  ghost function ExpiredBelow(s: State, now: u64, n: nat): set<nat>
    requires n <= |s.records|
  {
    set r | 0 <= r < n && Expired(s, r, now)
  }

  lemma ExpiredCount(s: State, now: u64, n: nat)
    requires n < |s.records|
    ensures |ExpiredBelow(s, now, n + 1)| == |ExpiredBelow(s, now, n)| + if Expired(s, n, now) then 1 else 0
  {
    assert ExpiredBelow(s, now, n + 1) == ExpiredBelow(s, now, n) + if Expired(s, n, now) then {n} else {};
  }

  /** The record of a wait that timed out. */
  function TimedOut(rc: Record): Record {
    rc.(linked := false, waiterIndex := NO_INDEX, completed := true, completion := Timeout)
  }

  /** One of the expired records below `n` is that of thread `t`. */
  ghost predicate Timed(a: State, now: u64, n: nat, t: nat)
    requires a.Sized() && n <= MAX_THREADS
  {
    exists r :: 0 <= r < n && Expired(a, r, now) && a.records[r].thread == t
  }

  /** From `a` to `b` exactly the expired records below `n` were completed, by timeout. */
  ghost predicate ExpiredUpTo(a: State, b: State, now: u64, n: nat)
    requires a.Sized() && b.Sized() && n <= MAX_THREADS
  {
    && QueueGrows(a, b)
    && (forall r | 0 <= r < MAX_THREADS :: b.records[r] ==
          if r < n && Expired(a, r, now) then TimedOut(a.records[r])
          else a.records[r].(waiterIndex := b.records[r].waiterIndex))
    && (forall e | 0 <= e < MAX_EVENTS :: b.events[e] == a.events[e].(waiters := b.events[e].waiters))
    && b.objects == a.objects && b.ledgers == a.ledgers && b.current == a.current && b.busy == a.busy
    && b.switches == a.switches && b.activeWaits == a.activeWaits && b.nextGeneration == a.nextGeneration
    && b.pendingArmed == a.pendingArmed && b.pendingDeadline == a.pendingDeadline
    && b.registered == a.registered && b.clock == now
    && (forall t | 0 <= t < MAX_THREADS :: b.threads[t] == a.threads[t] || Timed(a, now, n, t))
    && b.threads[b.current] == a.threads[a.current]
    && (forall g | g in a.outcomes :: g in b.outcomes && b.outcomes[g] == a.outcomes[g])
    && (forall g | g in b.outcomes && g !in a.outcomes ::
          && b.outcomes[g].how == Timeout && b.outcomes[g].reading == now
          && exists r :: 0 <= r < n && Expired(a, r, now) && a.records[r].generation == g)
  }

  lemma ExpireStep(a: State, b: State, now: u64, n: nat)
    requires a.Inv() && b.Inv() && b.busy && n < MAX_THREADS && ExpiredUpTo(a, b, now, n)
    ensures Expired(b, n, now) <==> Expired(a, n, now)
    ensures !Expired(a, n, now) ==> ExpiredUpTo(a, b, now, n + 1)
    ensures Expired(b, n, now) ==>
              var rc := b.records[n];
              && rc.linked && rc.event < MAX_EVENTS && rc.waiterIndex < |b.events[rc.event].waiters|
              && Wakeable(b, rc.event, rc.waiterIndex) && b.events[rc.event].waiters[rc.waiterIndex] == n
              && b.Complete(rc.event, rc.waiterIndex, Timeout).Inv()
              && ExpiredUpTo(a, b.Complete(rc.event, rc.waiterIndex, Timeout), now, n + 1)
  {
    hide State.ThreadOk, State.ObjectOk, State.ThreadObjectOk, State.QueueOk, State.FairOk, State.Complete,
      State.LedgerOk, State.Inv;
    InvSized(a);
    InvSized(b);
    if Expired(b, n, now) {
      ExpiredLinked(b, n, now);
      var e, i := b.records[n].event, b.records[n].waiterIndex;
      WaiterIsWakeable(b, e, i);
      CompleteInv(b, e, i, Timeout);
      CompleteGrows(b, e, i, Timeout);
      var c := b.Complete(e, i, Timeout);
      InvSized(c);
      CompleteFrame(b, e, i, Timeout);
      assert c.ledgers == b.ledgers;
      forall r | 0 <= r < MAX_THREADS
        ensures c.records[r] ==
          if r < n + 1 && Expired(a, r, now) then TimedOut(a.records[r])
          else a.records[r].(waiterIndex := c.records[r].waiterIndex)
      {
        CompleteRecords(b, e, i, Timeout, r);
        if b.records[r].completed {
          CompletedStays(b, e, i, Timeout, r);
        }
      }
    }
  }

  /** History: the clock reading that timeouts are now serviced with. */
  function Read(s: State, now: u64): State {
    s.(clock := now)
  }

  lemma ReadInv(s: State, now: u64)
    requires s.Inv()
    ensures Read(s, now).Inv()
  {
    hide History;
    var s' := Read(s, now);
    assert forall t | 0 <= t < MAX_THREADS :: s.ThreadOk(t) ==> s'.ThreadOk(t);
    assert forall t | 0 <= t < MAX_THREADS :: s.ThreadObjectOk(t) ==> s'.ThreadObjectOk(t);
    assert forall t | 0 <= t < MAX_THREADS :: s.RecordOk(t) ==> s'.RecordOk(t);
    assert forall f | 0 <= f < MAX_EVENTS :: s.EventOk(f) ==> s'.EventOk(f);
    assert forall f | 0 <= f < MAX_EVENTS :: s.LedgerOk(f) ==> s'.LedgerOk(f);
    assert forall p | 0 <= p < MAX_OBJECTS :: s.ObjectOk(p) ==> s'.ObjectOk(p);
  }

  lemma ReadExpiresNothing(s: State, now: u64)
    requires s.Sized()
    ensures Read(s, now).Sized() && ExpiredUpTo(s, Read(s, now), now, 0)
  {
  }

  lemma CompletedStays(s: State, e: nat, i: nat, how: Completion, r: nat)
    requires s.Inv() && s.Waiting(e, i) && r < MAX_THREADS && s.records[r].completed
    ensures r != s.events[e].waiters[i] && |s.Complete(e, i, how).records| == MAX_THREADS
    ensures s.Complete(e, i, how).records[r] == s.records[r]
  {
    assert s.EventOk(e) && s.RecordOk(r);
    CompleteRecords(s, e, i, how, r);
  }

  lemma ExpiredLinked(s: State, r: nat, now: u64)
    requires s.Inv() && s.busy && r < MAX_THREADS && Expired(s, r, now)
    ensures var rc := s.records[r];
            && rc.linked && rc.event < MAX_EVENTS && rc.waiterIndex < |s.events[rc.event].waiters|
            && s.events[rc.event].waiters[rc.waiterIndex] == r && rc.generation !in s.outcomes
            && rc.thread < MAX_THREADS && rc.thread != s.current
  {
    assert s.RecordOk(r);
    assert s.ThreadOk(s.records[r].thread);
  }

  // ---- Notes on the running thread ----

  /** Changes of the running thread's wait notes, the pending timeout and the wait generation. */
  function Note(s: State, blockedOn: u64, result: WaitResult, next: nat, armed: bool, deadline: u64): State
    requires s.current < |s.threads|
  {
    s.(threads := s.threads[s.current := s.threads[s.current].(blockedOn := blockedOn, blockedResult := result)],
       nextGeneration := next, pendingArmed := armed, pendingDeadline := deadline)
  }

  lemma NoteInv(s: State, blockedOn: u64, result: WaitResult, next: nat, armed: bool, deadline: u64)
    requires s.Inv() && s.threads[s.current].record == None && s.nextGeneration <= next
    ensures Note(s, blockedOn, result, next, armed, deadline).Inv()
  {
    var s' := Note(s, blockedOn, result, next, armed, deadline);
    forall t | 0 <= t < MAX_THREADS
      ensures s'.ThreadOk(t) && s'.ThreadObjectOk(t) && s'.RecordOk(t)
    {
      assert s.ThreadOk(t) && s.ThreadObjectOk(t) && s.RecordOk(t);
    }
    forall f | 0 <= f < MAX_EVENTS
      ensures s'.EventOk(f) && s'.LedgerOk(f)
    {
      assert s.EventOk(f) && s.LedgerOk(f);
    }
    forall p | 0 <= p < MAX_OBJECTS
      ensures s'.ObjectOk(p)
    {
      assert s.ObjectOk(p);
    }
  }

  lemma PendingInv(s: State, armed: bool, deadline: u64)
    requires s.Inv()
    ensures s.(pendingArmed := armed, pendingDeadline := deadline).Inv()
  {
    var s' := s.(pendingArmed := armed, pendingDeadline := deadline);
    assert forall t | 0 <= t < MAX_THREADS :: s.ThreadOk(t) ==> s'.ThreadOk(t);
    assert forall t | 0 <= t < MAX_THREADS :: s.ThreadObjectOk(t) ==> s'.ThreadObjectOk(t);
    assert forall t | 0 <= t < MAX_THREADS :: s.RecordOk(t) ==> s'.RecordOk(t);
    assert forall f | 0 <= f < MAX_EVENTS :: s.EventOk(f) ==> s'.EventOk(f);
    assert forall f | 0 <= f < MAX_EVENTS :: s.LedgerOk(f) ==> s'.LedgerOk(f);
    assert forall p | 0 <= p < MAX_OBJECTS :: s.ObjectOk(p) ==> s'.ObjectOk(p);
  }
}
