/**
 * What callers of the event and thread interface see: short runs whose answers are known in advance.
 */
module EventRuns {
  import opened Words
  import opened Handles
  import opened SchedState
  import opened SchedSteps
  import opened SchedWaits
  import opened Scheduler
  import opened EventApi
  import opened SchedulerRuns

  // ---- Events ----

  /** An auto-reset event that is created signaled satisfies one wait, and the next one times out. */
  method AutoResetOnce(k: Kernel) returns (created: bool, first: Answer, second: Answer)
    requires k.Valid()
    modifies k
    ensures k.Valid() && (created ==> first == ObjectSignaled && second == TimedOutAnswer)
  {
    hide State.Inv;
    first, second := StillBlocked, StillBlocked;
    var handle := k.CreateEvent(false, true);
    created := handle.Some?;
    if !created {
      return;
    }
    OpenForWaiting(k.s, handle.value);
    ghost var polled;
    first, polled := WaitOne(k, handle.value, 0, 0, None, None);
    OpenForWaiting(k.s, handle.value);
    second, polled := WaitOne(k, handle.value, 0, 0, None, None);
  }

  /** An open event is what a wait on its handle meets. */
  lemma OpenForWaiting(s: State, handle: u64)
    requires s.Inv()
    ensures s.Sized() && (OpenEvent(s, handle).Some? ==> OpenForWait(s, handle) == Good(OpenEvent(s, handle).value))
  {
    hide State.Inv;
    WaitHandles(s, handle);
  }

  /** A manual-reset event that is signaled satisfies a wait and stays as it is. */
  method WaitOnSet(k: Kernel, handle: u64) returns (answer: Answer)
    requires SetFor(k, handle)
    modifies k
    ensures SetFor(k, handle) && answer == ObjectSignaled
  {
    hide State.Inv;
    OpenForWaiting(k.s, handle);
    ghost var polled;
    answer, polled := WaitOne(k, handle, 0, 0, None, None);
    InvSized(k.s);
  }

  ghost predicate SetFor(k: Kernel, handle: u64)
    reads k
  {
    && k.Valid() && k.s.Sized() && OpenEvent(k.s, handle).Some?
    && k.s.events[OpenEvent(k.s, handle).value].manualReset && k.s.events[OpenEvent(k.s, handle).value].signaled
  }

  /** A manual-reset event that is created signaled satisfies every wait until it is reset; then waits time out. */
  method ManualResetKeeps(k: Kernel, waits: nat) returns (created: bool, answers: seq<Answer>, last: Answer)
    requires k.Valid()
    modifies k
    ensures k.Valid() && (created ==> last == TimedOutAnswer && |answers| == waits)
    ensures forall i | 0 <= i < |answers| :: answers[i] == ObjectSignaled
  {
    hide State.Inv;
    answers, last := [], StillBlocked;
    var handle := k.CreateEvent(true, true);
    created := handle.Some?;
    if !created {
      return;
    }
    InvSized(k.s);
    assert SetFor(k, handle.value);
    while |answers| != waits
      invariant |answers| <= waits && SetFor(k, handle.value)
      invariant forall i | 0 <= i < |answers| :: answers[i] == ObjectSignaled
    {
      var answer := WaitOnSet(k, handle.value);
      answers := answers + [answer];
    }
    ghost var ok;
    last, ok := ResetThenWait(k, handle.value);
  }

  /** After a reset of an open event a wait without time to wait answers at once that the time is up. */
  method ResetThenWait(k: Kernel, handle: u64) returns (answer: Answer, reset: bool)
    requires k.Valid() && k.s.Sized()
    modifies k
    ensures k.Valid() && (reset <==> OpenEvent(old(k.s), handle).Some?)
    ensures reset ==> answer == TimedOutAnswer
  {
    hide State.Inv;
    answer := StillBlocked;
    OpenForWaiting(k.s, handle);
    reset := ResetEvent(k, handle);
    OpenForWaiting(k.s, handle);
    ghost var polled;
    if reset {
      answer, polled := WaitOne(k, handle, 0, 0, None, None);
    }
  }

  /** A signal that no thread waits for is kept: for one wait by an auto-reset event, for all by a manual-reset one. */
  method SetThenWait(k: Kernel, handle: u64) returns (first: Answer, second: Answer)
    requires k.Valid() && k.s.Sized() && OpenEvent(k.s, handle).Some?
    requires k.s.events[OpenEvent(k.s, handle).value].waiters == []
    modifies k
    ensures k.Valid() && first == ObjectSignaled
    ensures second == if old(k.s.events[OpenEvent(k.s, handle).value].manualReset)
                      then ObjectSignaled else TimedOutAnswer
  {
    hide State.Inv;
    ghost var e := OpenEvent(k.s, handle).value;
    IdleSignal(k.s, e, handle);
    var ok := SetEvent(k, handle);
    OpenForWaiting(k.s, handle);
    ghost var polled;
    first, polled := WaitOne(k, handle, 0, 0, None, None);
    OpenForWaiting(k.s, handle);
    second, polled := WaitOne(k, handle, 0, 0, None, None);
  }

  /** A signal without waiters is the flag and nothing else that a wait could notice. */
  lemma IdleSignal(s: State, e: nat, handle: u64)
    requires s.Inv() && e < MAX_EVENTS && s.events[e].live && s.events[e].waiters == []
    ensures var w := Signaled(s, e);
            && w.Sized() && s.Sized() && w.events == s.events[e := s.events[e].(signaled := true)]
            && w.objects == s.objects && OpenEvent(w, handle) == OpenEvent(s, handle)
  {
    hide State.Complete, State.ThreadOk, State.RecordOk, State.ObjectOk, State.ThreadObjectOk, State.QueueOk,
      State.FairOk;
    CountSignalInv(s, e);
    SignaledInv(s, e);
  }

  /** Closing the handle of an event makes it useless, for waits and for closing. */
  method CloseTwice(k: Kernel, handle: u64) returns (first: bool, second: bool)
    requires k.Valid() && k.s.Sized() && OpenEvent(k.s, handle).Some?
    modifies k
    ensures k.Valid() && first && !second && k.s.Sized() && OpenEvent(k.s, handle) == None
  {
    hide State.Inv;
    OpenHandle(k.s, handle);
    first := k.Close(handle, true, true);
    InvSized(k.s);
    second := k.Close(handle, true, true);
  }

  lemma OpenHandle(s: State, handle: u64)
    requires s.Inv()
    ensures s.Sized()
    ensures OpenEvent(s, handle).Some? ==>
              && KindOf(handle) == EventKind && Lookup(s, handle, EventKind).Some?
              && s.objects[Lookup(s, handle, EventKind).value].publicRefs == 1
  {
    LookupKind(s, handle, EventKind);
    if Lookup(s, handle, EventKind).Some? {
      assert s.ObjectOk(Lookup(s, handle, EventKind).value);
    }
  }

  /** A wait that would leave nobody running is refused, and there is nothing to finish afterwards. */
  method WaitAlone(k: Kernel, handle: u64) returns (answer: Answer, left: Answer)
    requires k.Valid() && k.s.Sized() && k.s.queue == [] && OpenEvent(k.s, handle).Some?
    requires !k.s.events[OpenEvent(k.s, handle).value].signaled && k.s.threads[k.s.current].record == None
    modifies k
    ensures k.Valid() && answer == left == Failed(ERROR_NOT_ENOUGH_MEMORY)
    ensures k.s.events == old(k.s.events) && k.s.objects == old(k.s.objects) && k.s.records == old(k.s.records)
    ensures k.s.current == old(k.s.current) && k.s.queue == []
  {
    hide State.Inv, Lookup;
    OpenForWaiting(k.s, handle);
    ghost var polled;
    answer, polled := WaitOne(k, handle, INFINITE, 0, None, None);
    left := EndWait(k, handle);
  }

  /** A wait that is satisfied at once is finished once. */
  method PrepareThenFinish(k: Kernel, handle: u64) returns (prepared: WaitResult, first: WaitResult, second: WaitResult)
    requires k.Valid() && k.s.Sized() && k.s.threads[k.s.current].record == None && NamesSignaled(k.s, handle)
    modifies k
    ensures k.Valid() && prepared == first == WaitSignaled && second == WaitFailure
  {
    hide State.Inv, Lookup, DecodeHandle;
    ClosedHandle(k.s, handle);
    prepared := k.PrepareWait(handle);
    InvSized(k.s);
    first := k.FinishWait(handle);
    InvSized(k.s);
    second := k.FinishWait(handle);
  }

  /** An event can be destroyed once its handle is closed, not before, and then its handle names nothing. */
  method EventLife(k: Kernel, manualReset: bool, signaled: bool)
    returns (created: bool, handle: u64, early: bool, closed: bool, destroyed: bool)
    requires k.Valid()
    modifies k
    ensures k.Valid() && k.s.Sized()
    ensures created ==> !early && closed && destroyed && Lookup(k.s, handle, EventKind) == None
  {
    hide State.Inv, MakeHandle, DecodeHandle;
    InvSized(k.s);
    handle, early, closed, destroyed := 0, true, false, false;
    var made := k.CreateEvent(manualReset, signaled);
    created := made.Some?;
    InvSized(k.s);
    if !created {
      return;
    }
    handle := made.value;
    OpenHandle(k.s, handle);
    TargetFacts(k.s, handle);
    ghost var o := Lookup(k.s, handle, EventKind).value;
    early := k.TryDestroyEvent(handle);
    closed := k.Close(handle, true, true);
    InvSized(k.s);
    Unwaited(k.s, o);
    destroyed := k.TryDestroyEvent(handle);
    InvSized(k.s);
  }

  /** An event without waiters and finished waits is not pinned. */
  lemma Unwaited(s: State, o: nat)
    requires s.Inv() && o < MAX_OBJECTS && s.objects[o].live && s.objects[o].kind == EventKind
    ensures s.Sized() && (s.objects[o].internalRefs == 1 ==> Pins(s.records, o) == {})
  {
    assert s.ObjectOk(o);
  }

  // ---- Threads ----

  /** A created thread is suspended, runs after one resume, and further resumes find nothing to do. */
  method ResumeTwice(k: Kernel) returns (created: bool, first: Option<nat>, second: Option<nat>)
    requires k.Valid()
    modifies k
    ensures k.Valid() && (created ==> first == Some(1) && second == Some(0))
  {
    hide State.Inv;
    first, second := None, None;
    InvSized(k.s);
    var handle := k.CreateThread(true);
    created := handle.Some?;
    if created {
      InvSized(k.s);
      ghost var o := Lookup(k.s, handle.value, ThreadKind).value;
      assert k.s.objects[o].publicRefs == 1 && k.s.threads[k.s.objects[o].target].phase == Suspended;
      first := k.Resume(handle.value, true);
      InvSized(k.s);
      assert Lookup(k.s, handle.value, ThreadKind) == Some(o);
      second := k.Resume(handle.value, true);
    }
  }

  /** Round robin in plain terms: the least queued slot above the current one, or else the least of all. */
  lemma NextInOrder(s: State, next: nat)
    requires s.Inv()
    ensures s.Sized()
    ensures IsNext(s, next) <==>
              && next in s.queue
              && (next <= s.current ==> forall t | t in s.queue :: t <= s.current)
              && (forall t | t in s.queue && (t > s.current <==> next > s.current) :: next <= t)
  {
    hide State.ThreadOk, State.RecordOk, State.EventOk, State.ObjectOk, State.ThreadObjectOk, State.FairOk,
      State.LedgerOk;
    assert forall t | t in s.queue :: t < MAX_THREADS;
  }

  /** From boot: a worker is created, resumed and gets the processor when the boot thread yields. */
  method WorkerRuns() returns (k: Kernel, handle: u64, ghost o: nat)
    ensures fresh(k) && k.Valid() && k.s.Sized() && k.s.current != 0 && k.s.queue == [0]
    ensures Lookup(k.s, handle, ThreadKind) == Some(o) && k.s.objects[o].target == k.s.current
    ensures k.s.objects[o].publicRefs == 1 && k.s.threads[k.s.current].record == None
  {
    hide State.Inv, MakeHandle, DecodeHandle;
    k := new Kernel();
    handle, o := 0, 0;
    assert !k.s.threads[1].live && !k.s.objects[1].live;
    var created := k.CreateThread(true);
    if created == None {
      return;
    }
    handle := created.value;
    o := Lookup(k.s, handle, ThreadKind).value;
    ghost var worker := k.s.objects[o].target;
    var previous := k.Resume(handle, true);
    assert k.s.LeaveYield().queue == [worker, 0];
    assert worker in k.s.LeaveYield().queue;
    var yielded := k.Yield();
    assert k.s.current == worker;
    InvSized(k.s);
  }

  /** The worker ends, the boot thread runs on, and once its handle is closed, not before, the worker is gone. */
  method WorkerLife() returns (k: Kernel, handle: u64, during: nat, after: nat, early: bool, closed: bool)
    ensures k.Valid() && k.s.Sized() && 0 < during < MAX_THREADS && after == 0 && !early && closed
    ensures Lookup(k.s, handle, ThreadKind) == None && !k.s.threads[during].live
  {
    hide State.Inv, MakeHandle, DecodeHandle;
    ghost var o;
    k, handle, o := WorkerRuns();
    during := k.s.current;
    assert 0 in k.s.queue;
    ThreadFacts(k.s, o);
    var ended := k.Terminate();
    after := k.s.current;
    ThreadHandle(k.s, o, handle);
    ThreadFacts(k.s, o);
    early := k.TryReclaim(during, true, true);
    EndedWorkerGoes(k.s, o);
    closed := k.Close(handle, true, true);
    InvSized(k.s);
  }

  /** A created thread that nobody holds a handle of can be discarded, and then its handle names nothing. */
  method DiscardCreated() returns (k: Kernel, handle: u64, early: bool, gone: bool)
    ensures k.Valid() && k.s.Sized() && !early && gone && Lookup(k.s, handle, ThreadKind) == None
  {
    hide State.Inv, MakeHandle, DecodeHandle;
    k := new Kernel();
    handle, early, gone := 0, true, false;
    assert !k.s.threads[1].live && !k.s.objects[1].live;
    var created := k.CreateThread(true);
    if created == None {
      return;
    }
    handle := created.value;
    ghost var o := Lookup(k.s, handle, ThreadKind).value;
    var t := k.s.objects[Lookup(k.s, handle, ThreadKind).value].target;
    ThreadHandle(k.s, o, handle);
    ThreadFacts(k.s, o);
    early := k.Discard(t, true, true);
    var closed := k.Close(handle, true, true);
    InvSized(k.s);
    CreatedGoes(k.s, t, o);
    gone := k.Discard(t, true, true);
    InvSized(k.s);
  }

  lemma CreatedGoes(s: State, t: nat, o: nat)
    requires s.Inv() && s.busy && 0 < t < MAX_THREADS && Discardable(s, t) && s.threads[t].objectSlot == o < MAX_OBJECTS
    ensures s.threads[t].phase == Suspended ==> s.threads[t].record == None
    ensures Retire(s, t).Sized() && !Reclaimed(Retire(s, t), t, true).objects[o].live
  {
    assert s.ThreadOk(t);
    DiscardExact(s, t, true);
  }

  lemma EndedWorkerGoes(s: State, o: nat)
    requires s.Inv() && o < MAX_OBJECTS && s.objects[o].live && s.objects[o].kind == ThreadKind
    requires s.objects[o].publicRefs == 1 && s.objects[o].target != 0 && s.objects[o].target != s.current
    ensures var t := s.objects[o].target;
            && t < MAX_THREADS
            && (s.threads[t].phase == Terminated ==>
                  && !Reclaimed(CloseObject(s, o), t, true).objects[o].live
                  && !Reclaimed(CloseObject(s, o), t, true).threads[t].live)
  {
    ThreadFacts(s, o);
    assert s.ThreadOk(s.objects[o].target);
  }

  lemma ThreadHandle(s: State, o: nat, handle: u64)
    requires |s.objects| == MAX_OBJECTS && Lookup(s, handle, ThreadKind) == Some(o)
    ensures KindOf(handle) == ThreadKind
  {
    LookupKind(s, handle, ThreadKind);
  }

  /** The boot thread is blocked on the auto-reset event of `handle`, alone, and the worker runs. */
  ghost predicate Asleep(s: State, worker: nat, handle: u64, armed: bool, deadline: u64) {
    && s.Inv() && s.busy && s.Sized() && s.current == worker && 0 < worker < MAX_THREADS && s.queue == []
    && OpenEvent(s, handle).Some? && s.threads[0].record.Some? && s.threads[0].record.value < MAX_THREADS
    && var e, r := OpenEvent(s, handle).value, s.threads[0].record.value;
       && !s.events[e].manualReset && s.events[e].waiters == [r]
       && s.records[r].valid && s.records[r].active && !s.records[r].completed
       && s.records[r].event == e && s.records[r].waiterIndex == 0
       && s.records[r].thread == 0 && s.records[r].armed == armed && s.records[r].deadline == deadline
       && DecodeHandle(handle, EventKind) == Reference(s.records[r].objectSlot, s.records[r].objectGeneration)
       && forall q | 0 <= q < MAX_THREADS && q != r :: !s.records[q].valid
  }

  /** The boot thread is runnable again, and its wait ended that way. */
  ghost predicate Awake(s: State, worker: nat, handle: u64, how: Completion) {
    && s.Inv() && s.busy && s.Sized() && s.current == worker && 0 < worker < MAX_THREADS && s.queue == [0]
    && s.threads[0].record.Some? && s.threads[0].record.value < MAX_THREADS
    && var rc := s.records[s.threads[0].record.value];
       && rc.generation in s.outcomes && s.outcomes[rc.generation].how == how
       && DecodeHandle(handle, EventKind) == Reference(rc.objectSlot, rc.objectGeneration)
  }

  lemma SleeperWakes(s: State, worker: nat, handle: u64, armed: bool, deadline: u64, how: Completion)
    requires Asleep(s, worker, handle, armed, deadline) && how != Pending
    requires s.Waiting(OpenEvent(s, handle).value, 0) && Timely(s, OpenEvent(s, handle).value, 0, how)
    ensures Awake(s.Complete(OpenEvent(s, handle).value, 0, how), worker, handle, how)
  {
    hide State.Inv, State.Slack, Timely, DecodeHandle, OpenEvent;
    var e := OpenEvent(s, handle).value;
    CompleteInv(s, e, 0, how);
    CompleteFrame(s, e, 0, how);
    CompleteShape(s, e, 0, how, s.threads[0].record.value);
  }

  lemma ParkedSleeps(a: State, b: State, e: nat, handle: u64, worker: nat)
    requires a.Inv() && a.current == 0 && 0 < worker < MAX_THREADS && a.queue == [worker]
    requires forall r | 0 <= r < MAX_THREADS :: !a.records[r].valid
    requires OpenEvent(a, handle) == Some(e) && !a.events[e].manualReset && a.events[e].waiters == []
    requires Parked(a, b, e, handle) && b.Inv() && b.busy
    ensures Asleep(b, worker, handle, a.pendingArmed, a.pendingDeadline)
  {
    hide State.Inv, DecodeHandle, MakeHandle;
    InvSized(b);
  }

  /** From boot: one worker, and the boot thread waiting on an auto-reset event for `milliseconds` from `clock` on. */
  method Park(milliseconds: nat, clock: u64) returns (k: Kernel, worker: nat, handle: u64, parked: Answer)
    requires 0 < milliseconds <= INFINITE
    ensures fresh(k) && parked == StillBlocked
    ensures Asleep(k.s, worker, handle, milliseconds != INFINITE,
                   if milliseconds == INFINITE then 0 else Deadline(clock, milliseconds))
  {
    hide State.Inv, DecodeHandle, MakeHandle, Parked, Asleep, Lookup, OpenEvent;
    k, worker := BootWithWorker();
    handle, parked := 0, StillBlocked;
    assert !k.s.events[0].live;
    var created := k.CreateEvent(false, false);
    if created == None {
      return;
    }
    handle := created.value;
    OpenForWaiting(k.s, handle);
    ghost var polled;
    ghost var before := k.s;
    ghost var e := OpenEvent(before, handle).value;
    parked, polled := WaitOne(k, handle, milliseconds, 0, Some(clock), None);
    ghost var armed := if milliseconds == INFINITE then before else Armed(before, Deadline(clock, milliseconds));
    PendingInv(before, true, armed.pendingDeadline);
    SameTarget(before, armed, handle);
    ParkedSleeps(armed, k.s, e, handle, worker);
  }

  /** Once its wait is over, the boot thread runs as soon as the worker yields, and learns how it ended. */
  method Return(k: Kernel, worker: nat, handle: u64, ghost how: Completion) returns (running: nat, answer: Answer)
    requires Awake(k.s, worker, handle, how) && how != Pending
    modifies k
    ensures k.Valid() && running == 0
    ensures answer == if how == Object0 then ObjectSignaled else TimedOutAnswer
  {
    hide State.Inv, DecodeHandle;
    assert k.s.LeaveYield().queue == [0, worker];
    assert 0 in k.s.LeaveYield().queue;
    var yielded := k.Yield();
    running := k.s.current;
    assert running == 0;
    answer := EndWait(k, handle);
  }

  /** A thread that blocks on an event gives way, and the signal brings it back with WAIT_OBJECT_0. */
  method SignalWakes() returns (parked: Answer, worker: nat, between: nat, running: nat, answer: Answer)
    ensures parked == StillBlocked && worker != 0 && between == worker
    ensures running == 0 && answer == ObjectSignaled
  {
    hide State.Inv, Asleep, Awake;
    var k, handle;
    k, worker, handle, parked := Park(INFINITE, 0);
    between := Signaler(k, worker, handle);
    running, answer := Return(k, worker, handle, Object0);
  }

  /** The worker signals the event that the boot thread sleeps on. */
  method Signaler(k: Kernel, ghost worker: nat, handle: u64) returns (running: nat)
    requires Asleep(k.s, worker, handle, false, 0)
    modifies k
    ensures running == worker != 0 && Awake(k.s, worker, handle, Object0)
  {
    hide State.Inv, State.Complete, State.Slack, DecodeHandle;
    running := k.s.current;
    ghost var e := OpenEvent(k.s, handle).value;
    WaiterIsWaiting(k.s, e, 0);
    CountSignalInv(k.s, e);
    ghost var c := CountSignal(k.s, e);
    WaiterIsWaiting(c, e, 0);
    SleeperWakes(c, worker, handle, false, 0, Object0);
    var ok := SetEvent(k, handle);
  }

  /** A wait of ten milliseconds from 100 on is still on at 109, and over, as timed out, at 110. */
  method TimeoutWakes() returns (parked: Answer, early: nat, late: nat, running: nat, answer: Answer)
    ensures parked == StillBlocked && early == 0 && late == 1
    ensures running == 0 && answer == TimedOutAnswer
  {
    hide State.Inv, Asleep, Awake;
    var k, worker, handle;
    k, worker, handle, parked := Park(10, 100);
    early := Tick(k, worker, handle, 110, 109);
    late := Tick(k, worker, handle, 110, 110);
    running, answer := Return(k, worker, handle, Timeout);
  }

  /** A record that waits alone is the only entry of its event. */
  lemma SoleWaiter(s: State, r: nat)
    requires s.Inv() && r < MAX_THREADS && s.records[r].valid && s.records[r].linked
    requires forall q | 0 <= q < MAX_THREADS && q != r :: !s.records[q].valid
    ensures s.records[r].event < MAX_EVENTS && s.records[r].waiterIndex == 0
    ensures s.events[s.records[r].event].waiters == [r]
  {
    assert s.RecordOk(r);
    var e := s.records[r].event;
    assert s.EventOk(e);
    var waiters := s.events[e].waiters;
    forall i | 0 <= i < |waiters|
      ensures waiters[i] == r && i == s.records[r].waiterIndex
    {
      var q := waiters[i];
      assert s.records[q].valid && s.records[q].waiterIndex == i;
    }
    FirstTwo(waiters);
  }

  lemma StillAsleep(a: State, b: State, worker: nat, handle: u64, deadline: u64)
    requires Asleep(a, worker, handle, true, deadline) && b.Inv() && b.busy && b.Sized()
    requires b.threads == a.threads && b.objects == a.objects && b.current == a.current
    requires forall r | 0 <= r < MAX_THREADS :: b.records[r] == a.records[r].(waiterIndex := b.records[r].waiterIndex)
    requires forall e | 0 <= e < MAX_EVENTS :: b.events[e] == a.events[e].(waiters := b.events[e].waiters)
    ensures Asleep(b, worker, handle, true, deadline)
  {
    hide DecodeHandle;
    var r := a.threads[0].record.value;
    assert a.RecordOk(r);
    SoleWaiter(b, r);
    SameRunnables(a, b);
  }

  lemma FirstTwo(q: seq<nat>)
    ensures |q| > 0 ==> q[0] in q
    ensures |q| > 1 ==> q[1] in q
  {
  }

  lemma SameRunnables(a: State, b: State)
    requires a.Sized() && a.QueueOk() && b.Sized() && b.QueueOk() && b.threads == a.threads && a.queue == []
    ensures b.queue == []
  {
    assert forall t :: t in b.queue <==> t in a.queue;
    FirstTwo(b.queue);
  }

  lemma NowAwake(a: State, b: State, worker: nat, handle: u64, deadline: u64)
    requires Asleep(a, worker, handle, true, deadline) && b.Inv() && b.busy && b.Sized() && b.current == a.current
    requires b.records[a.threads[0].record.value] == TimedOut(a.records[a.threads[0].record.value])
    requires forall t | 0 < t < MAX_THREADS :: b.threads[t] == a.threads[t]
    ensures Awake(b, worker, handle, Timeout)
  {
    hide DecodeHandle;
    var r := a.threads[0].record.value;
    assert a.RecordOk(r) && b.RecordOk(r) && b.ThreadOk(0);
    assert forall t :: t in b.queue <==> t == 0 || t in a.queue;
    OnlyZero(b.queue);
  }

  lemma OnlyZero(q: seq<nat>)
    requires NoRepeats(q) && forall t :: t in q <==> t == 0
    ensures q == [0]
  {
    assert 0 in q;
    FirstTwo(q);
  }

  /** Servicing timeouts leaves the sleeper alone before its deadline and wakes it from then on. */
  method Tick(k: Kernel, ghost worker: nat, ghost handle: u64, ghost deadline: u64, now: u64) returns (completed: nat)
    requires Asleep(k.s, worker, handle, true, deadline)
    modifies k
    ensures now < deadline ==> completed == 0 && Asleep(k.s, worker, handle, true, deadline)
    ensures now >= deadline ==> completed == 1 && Awake(k.s, worker, handle, Timeout)
  {
    hide State.Inv, DecodeHandle, QueueGrows;
    ghost var r := k.s.threads[0].record.value;
    ghost var before := k.s;
    assert ExpiredBelow(before, now, MAX_THREADS) == if now < deadline then {} else {r};
    completed := k.ServiceTimeouts(now);
    InvSized(k.s);
    assert forall q | 0 <= q < MAX_THREADS :: Expired(before, q, now) <==> q == r && now >= deadline;
    assert forall t | 0 < t < MAX_THREADS :: !Timed(before, now, MAX_THREADS, t);
    if now < deadline {
      assert forall t | 0 <= t < MAX_THREADS :: !Timed(before, now, MAX_THREADS, t);
      StillAsleep(before, k.s, worker, handle, deadline);
    } else {
      NowAwake(before, k.s, worker, handle, deadline);
    }
  }
}
