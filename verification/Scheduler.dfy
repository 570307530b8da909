/**
 * The cooperative scheduler: run queue, events, waits with timeouts, handles and reclamation.
 */
module Scheduler {
  import opened Words
  import opened Handles
  import opened SchedState
  import opened SchedSteps
  import opened SchedWaits

  /** lookup_object */
  function Lookup(s: State, handle: u64, kind: Kind): (o: Option<nat>)
    requires |s.objects| == MAX_OBJECTS
    ensures o.Some? ==> o.value < MAX_OBJECTS && s.objects[o.value].live && s.objects[o.value].kind == kind
  {
    match DecodeHandle(handle, kind)
    case Invalid => None
    case Reference(slot, generation) =>
      if s.objects[slot].live && s.objects[slot].kind == kind && s.objects[slot].generation == generation
      then Some(slot) else None
  }

  /** validate_open_event_handle */
  function OpenEvent(s: State, handle: u64): (e: Option<nat>)
    requires |s.objects| == MAX_OBJECTS && |s.events| == MAX_EVENTS
    ensures e.Some? ==> e.value < MAX_EVENTS && s.events[e.value].live
  {
    match Lookup(s, handle, EventKind)
    case None => None
    case Some(o) =>
      var ob := s.objects[o];
      if ob.closed || ob.publicRefs == 0 || ob.internalRefs == 0 || ob.target >= MAX_EVENTS then None else
      var ev := s.events[ob.target];
      if ev.live && ev.objectSlot == o && ev.generation == ob.generation then Some(ob.target) else None
  }

  /**
   * A handle issued for the birth-th object of a slot resolves exactly while that object lives, or
   * while an object of the same type born a multiple of 65535 allocations later lives there.
   */
  lemma IssuedHandle(s: State, kind: Kind, slot: nat, birth: nat)
    requires s.Inv() && slot < MAX_OBJECTS && 0 < birth <= s.objects[slot].births && kind != NoKind
    ensures Lookup(s, MakeHandle(kind, slot, GenerationOf(birth)), kind)
         == if s.objects[slot].live && s.objects[slot].kind == kind && (s.objects[slot].births - birth) % 0xFFFF == 0
            then Some(slot) else None
    ensures s.objects[slot].births - birth < 0xFFFF ==>
              (Lookup(s, MakeHandle(kind, slot, GenerationOf(birth)), kind).Some? <==>
               s.objects[slot].live && s.objects[slot].kind == kind && s.objects[slot].births == birth)
  {
    hide State.Inv, MakeHandle, DecodeHandle, GenerationOf;
    SlotGeneration(s, slot);
    HandleRoundTrip(kind, slot, GenerationOf(birth), kind);
    GenerationRepeats(birth, s.objects[slot].births);
  }

  lemma SlotGeneration(s: State, slot: nat)
    requires s.Inv() && slot < MAX_OBJECTS
    ensures s.Sized() && s.objects[slot].generation == GenerationOf(s.objects[slot].births)
  {
    assert s.ObjectOk(slot);
  }

  /** A handle of one type never resolves as another. */
  lemma HandleKinds(s: State, kind: Kind, other: Kind, slot: nat, birth: nat)
    requires s.Inv() && slot < MAX_OBJECTS && 0 < birth && kind != other
    ensures Lookup(s, MakeHandle(kind, slot, GenerationOf(birth)), other) == None
  {
    hide State.Inv, MakeHandle, DecodeHandle, GenerationOf;
    HandleRoundTrip(kind, slot, GenerationOf(birth), other);
  }

  /** The parts of the invariant that an operation needs about one event object. */
  lemma EventFacts(s: State, o: nat)
    requires s.Inv() && o < MAX_OBJECTS && s.objects[o].live && s.objects[o].kind == EventKind
    ensures s.objects[o].target < MAX_EVENTS && s.events[s.objects[o].target].live
    ensures s.events[s.objects[o].target].objectSlot == o
    ensures s.events[s.objects[o].target].generation == s.objects[o].generation
    ensures s.objects[o].internalRefs == 1 + |Pins(s.records, o)|
    ensures s.events[s.objects[o].target].signaled ==> s.events[s.objects[o].target].waiters == []
  {
    assert s.ObjectOk(o);
    assert s.EventOk(s.objects[o].target);
  }

  /** No lost wakeup: a blocked thread waits, unfinished, at one place of one unsignaled event. */
  lemma BlockedThreadWaits(s: State, t: nat)
    requires s.Inv() && t < MAX_THREADS && s.threads[t].live && s.threads[t].phase == Blocked
    ensures s.threads[t].record.Some? && s.threads[t].record.value < MAX_THREADS
    ensures var rc := s.records[s.threads[t].record.value];
            && rc.valid && !rc.completed && rc.completion == Pending && rc.thread == t
            && rc.event < MAX_EVENTS && s.events[rc.event].live && !s.events[rc.event].signaled
            && rc.waiterIndex < |s.events[rc.event].waiters|
            && s.events[rc.event].waiters[rc.waiterIndex] == s.threads[t].record.value
    ensures forall e, i | 0 <= e < MAX_EVENTS && 0 <= i < |s.events[e].waiters| ::
              s.events[e].waiters[i] == s.threads[t].record.value ==>
                e == s.records[s.threads[t].record.value].event && i == s.records[s.threads[t].record.value].waiterIndex
  {
    assert s.ThreadOk(t);
    var r := s.threads[t].record.value;
    assert s.RecordOk(r);
    assert s.EventOk(s.records[r].event);
    forall e, i | 0 <= e < MAX_EVENTS && 0 <= i < |s.events[e].waiters| && s.events[e].waiters[i] == r
      ensures e == s.records[r].event && i == s.records[r].waiterIndex
    {
      assert s.EventOk(e);
    }
  }

  /** Bounded waiting: a queued thread has seen fewer than MAX_THREADS switches since it was queued. */
  lemma BoundedWaiting(s: State, t: nat)
    requires s.Inv() && t in s.queue
    ensures t < MAX_THREADS && s.since[t] <= s.switches < s.since[t] + MAX_THREADS
  {
  }

  /** Auto-reset events: waits satisfied, plus a signal still kept, never exceed the signals given. */
  lemma TokensConserved(s: State, e: nat)
    requires s.Inv() && e < MAX_EVENTS && s.events[e].live && !s.events[e].manualReset
    ensures s.ledgers[e].satisfied + (if s.events[e].signaled then 1 else 0)
           <= s.ledgers[e].initial + s.ledgers[e].signals
  {
    assert s.LedgerOk(e);
  }

  /** A wait has an outcome exactly when it is completed, and no two waits share the place it is kept in. */
  lemma CompletedOnce(s: State, r: nat)
    requires s.Inv() && r < MAX_THREADS && s.records[r].valid
    ensures s.records[r].completed <==> s.records[r].generation in s.outcomes
    ensures s.records[r].completed ==> s.outcomes[s.records[r].generation].how == s.records[r].completion != Pending
    ensures forall q | 0 <= q < MAX_THREADS && q != r && s.records[q].valid ::
              s.records[q].generation != s.records[r].generation && s.records[q].thread != s.records[r].thread
  {
    assert s.RecordOk(r);
    forall q | 0 <= q < MAX_THREADS && q != r && s.records[q].valid
      ensures s.records[q].generation != s.records[r].generation && s.records[q].thread != s.records[r].thread
    {
      assert s.RecordOk(q);
      assert s.Tickets();
    }
  }

  /** Exactly one thread runs, and it is the current one. */
  lemma OneRunning(s: State, t: nat)
    requires s.Inv() && t < MAX_THREADS
    ensures s.threads[t].live && s.threads[t].phase == Running <==> s.busy && t == s.current
  {
    assert s.ThreadOk(t);
  }

  /** What thread selection relies on. */
  ghost predicate Queues(s: State) {
    && s.Sized() && s.QueueOk()
    && forall t | 0 <= t < MAX_THREADS && s.threads[t].live :: s.threads[t].queued <==> s.threads[t].phase == Runnable
  }

  lemma Basics(s: State)
    requires s.Inv()
    ensures Queues(s)
    ensures forall t | 0 <= t < MAX_THREADS && s.threads[t].live :: s.threads[t].objectSlot < MAX_OBJECTS
  {
    forall t | 0 <= t < MAX_THREADS && s.threads[t].live
      ensures s.threads[t].objectSlot < MAX_OBJECTS && (s.threads[t].queued <==> s.threads[t].phase == Runnable)
    {
      assert s.ThreadOk(t);
    }
  }

  lemma RunningFacts(s: State)
    requires s.Inv() && s.busy
    ensures s.threads[s.current].phase == Running && s.current !in s.queue && !s.threads[s.current].queued
    ensures s.threads[s.current].isBoot <==> s.current == 0
    ensures s.threads[s.current].suspendCount == 0
  {
    assert s.ThreadOk(s.current);
  }

  /** A thread that ends with an unfinished wait record breaks the invariant for good. */
  lemma TerminateExact(s: State)
    requires s.Inv() && s.busy && s.current != 0
    ensures Queues(s.LeaveTerminate()) && s.LeaveTerminate().queue == s.queue
    ensures s.LeaveTerminate().Inv() <==> s.threads[s.current].record == None
    ensures forall next | IsNext(s, next)
        && s.threads[s.current].record != None :: !s.LeaveTerminate().Dispatch(next).Inv()
  {
    var s' := s.LeaveTerminate();
    Basics(s);
    RunningFacts(s);
    if s.threads[s.current].record == None {
      LeaveTerminateInv(s);
    } else {
      assert !s'.ThreadOk(s.current);
      forall next | IsNext(s, next)
        ensures !s'.Dispatch(next).Inv()
      {
        assert next != s.current;
        assert !s'.Dispatch(next).ThreadOk(s.current);
      }
    }
  }

  /** The entry at `first` leaves the queue and the later ones move up. */
  method ShiftDown(queue: seq<nat>, first: nat) returns (shorter: seq<nat>)
    requires first < |queue|
    ensures shorter == queue[..first] + queue[first + 1..]
  {
    var tail := |queue| - 1;
    var q, index := queue, first;
    while index != tail
      invariant first <= index <= tail && |q| == |queue|
      invariant forall k | 0 <= k < first :: q[k] == queue[k]
      invariant forall k | first <= k < index :: q[k] == queue[k + 1]
      invariant forall k | index <= k < |queue| :: q[k] == queue[k]
    {
      q := q[index := q[index + 1]];
      index := index + 1;
    }
    shorter := q[..tail];
  }

  lemma {:induction false} WithoutAt(q: seq<nat>, x: nat, index: nat)
    requires index <= |q| && x !in q[..index] && (index < |q| ==> q[index] == x)
    ensures Without(q, x) == if index < |q| then q[..index] + q[index + 1..] else q
  {
    if index > 0 {
      var rest := q[1..];
      assert q[..index] == [q[0]] + rest[..index - 1];
      assert q == [q[0]] + rest;
      WithoutAt(rest, x, index - 1);
      assert index < |q| ==> rest[index..] == q[index + 1..];
    }
  }

  /** The type byte of a handle, as close_handle reads it. */
  function KindOf(handle: u64): Kind {
    var code := handle / 0x1_0000_0000_0000 % 0x100;
    if code == 1 then ThreadKind else if code == 2 then EventKind else NoKind
  }

  /** The handle of a live object resolves to it, and opens it if it is an event that is not closed. */
  lemma NewHandle(s: State, kind: Kind, o: nat)
    requires s.Inv() && o < MAX_OBJECTS && s.objects[o].live && s.objects[o].kind == kind
    ensures s.objects[o].generation == GenerationOf(s.objects[o].births) < 0x1_0000
    ensures Lookup(s, MakeHandle(kind, o, s.objects[o].generation), kind) == Some(o)
    ensures kind == EventKind && !s.objects[o].closed && s.objects[o].publicRefs > 0 ==>
              OpenEvent(s, MakeHandle(kind, o, s.objects[o].generation)) == Some(s.objects[o].target)
  {
    assert s.ObjectOk(o);
    HandleRoundTrip(kind, o, s.objects[o].generation, kind);
  }

  lemma ThreadFacts(s: State, o: nat)
    requires s.Inv() && o < MAX_OBJECTS && s.objects[o].live && s.objects[o].kind == ThreadKind
    ensures var t := s.objects[o].target;
            && t < MAX_THREADS && s.threads[t].live && s.threads[t].objectSlot == o && s.objects[o].internalRefs == 1
            && s.threads[t].generation == s.objects[o].generation && s.threads[t].publicRefs == s.objects[o].publicRefs
            && (s.threads[t].executionRefs == 0 <==> s.threads[t].phase == Terminated) && s.threads[t].phase != Free
            && (s.threads[t].phase != Terminated ==>
                  s.threads[t].suspendCount == if s.threads[t].phase == Suspended then 1 else 0)
  {
    assert s.ObjectOk(o);
    assert s.ThreadOk(s.objects[o].target);
  }

  ghost predicate HasObject(s: State, t: nat)
    requires s.Sized() && t < MAX_THREADS
  {
    s.threads[t].live ==>
      && s.threads[t].objectSlot < MAX_OBJECTS
      && s.objects[s.threads[t].objectSlot].live && s.objects[s.threads[t].objectSlot].kind == ThreadKind
  }

  /** An ended worker that nobody refers to any more. */
  predicate Reclaimable(s: State, t: nat)
    requires t < |s.threads|
  {
    var th := s.threads[t];
    && th.live && t != s.current && th.phase == Terminated && th.executionRefs == 0 && th.publicRefs == 0
    && !th.queued && !th.isBoot && th.objectSlot < |s.objects|
  }

  function Reclaimed(s: State, t: nat, permitted: bool): State
    requires t < |s.threads|
  {
    if Reclaimable(s, t) && permitted then Reap(s, t) else s
  }

  lemma ReclaimedInv(s: State, t: nat, permitted: bool)
    requires s.Inv() && t < MAX_THREADS
    ensures HasObject(s, t) && Reclaimed(s, t, permitted).Inv() && Reclaimed(s, t, permitted).busy == s.busy
  {
    assert s.ThreadObjectOk(t);
    if Reclaimable(s, t) {
      ReapInv(s, t);
    }
  }

  /** From `a` to `b` exactly the reclaimable threads below `n` have gone, with their objects. */
  ghost predicate CollectedUpTo(a: State, b: State, permitted: seq<bool>, n: nat)
    requires a.Sized() && b.Sized() && |permitted| == MAX_THREADS && n <= MAX_THREADS
  {
    && b == a.(threads := b.threads, objects := b.objects)
    && (forall t | 0 <= t < MAX_THREADS ::
          b.threads[t] == if t < n && Reclaimable(a, t) && permitted[t] then NO_THREAD else a.threads[t])
    && (forall o | 0 <= o < MAX_OBJECTS ::
          b.objects[o] == a.objects[o] || (a.objects[o].kind == ThreadKind && b.objects[o] == DeadObject(a.objects[o])))
  }

  lemma CollectStep(a: State, b: State, permitted: seq<bool>, t: nat)
    requires a.Sized() && b.Sized() && |permitted| == MAX_THREADS && t < MAX_THREADS
    requires CollectedUpTo(a, b, permitted, t) && HasObject(b, t)
    ensures Reclaimed(b, t, permitted[t]).Sized() ==> CollectedUpTo(a, Reclaimed(b, t, permitted[t]), permitted, t + 1)
    ensures b.threads[0].isBoot ==> Reclaimed(b, t, permitted[t]).Sized()
  {
  }

  predicate Discardable(s: State, t: nat)
    requires t < |s.threads|
  {
    s.threads[t].live && (s.threads[t].phase == Suspended || s.threads[t].phase == Runnable)
        && s.threads[t].publicRefs == 0
  }

  lemma DiscardExact(s: State, t: nat, permitted: bool)
    requires s.Inv() && s.busy && t < MAX_THREADS && Discardable(s, t)
    ensures Retire(s, t).Sized() && HasObject(Retire(s, t), t)
    ensures t != s.current && (s.threads[t].queued <==> t in s.queue)
    ensures !s.threads[t].queued ==> Without(s.queue, t) == s.queue
    ensures Reclaimable(Retire(s, t), t) <==> t != 0
    ensures Reclaimed(Retire(s, t), t, permitted).Inv() <==> t != 0 && s.threads[t].record == None
  {
    assert s.ThreadOk(t) && s.ThreadObjectOk(t);
    WithoutAbsent(s.queue, t);
    var s' := Retire(s, t);
    if t != 0 && s.threads[t].record == None {
      RetireInv(s, t);
      ReclaimedInv(s', t, permitted);
    } else if t == 0 {
      assert !s'.ThreadOk(0);
    } else {
      var r := s.threads[t].record.value;
      assert s.RecordOk(r);
      assert s'.records == s.records;
      if permitted {
        assert !Reap(s', t).Sized() || !Reap(s', t).RecordOk(r);
      } else {
        assert !s'.ThreadOk(t);
      }
    }
  }

  lemma {:induction false} WithoutAbsent(q: seq<nat>, x: nat)
    ensures x !in q ==> Without(q, x) == q
  {
    if q != [] && x !in q {
      assert x !in q[1..];
      WithoutAbsent(q[1..], x);
    }
  }

  /** The test that try_destroy_event makes is exactly that no record pins the event. */
  lemma DestroyExact(s: State, o: nat)
    requires s.Inv() && o < MAX_OBJECTS && s.objects[o].live && s.objects[o].kind == EventKind
    requires s.objects[o].target < MAX_EVENTS
    ensures s.events[s.objects[o].target].waiters == [] && s.objects[o].internalRefs <= 1 <==> Pins(s.records, o) == {}
    ensures Pins(s.records, o) == {} ==>
              forall r | 0 <= r < MAX_THREADS && s.records[r].valid :: s.records[r].event != s.objects[o].target
  {
    var e := s.objects[o].target;
    assert s.ObjectOk(o) && s.EventOk(e);
    if s.events[e].waiters != [] {
      var r := s.events[e].waiters[0];
      assert s.RecordOk(r);
      assert r in Pins(s.records, o);
    }
    if Pins(s.records, o) == {} {
      forall r | 0 <= r < MAX_THREADS && s.records[r].valid
        ensures s.records[r].event != e
      {
        UnpinnedEvent(s, e, o, r);
      }
    }
  }

  lemma UnlinkFrame(s: State, e: nat, i: nat)
    requires s.Waiting(e, i)
    ensures var u := s.Unlink(e, i);
            && u == s.(events := u.events, records := u.records) && |u.records| == |s.records|
  {
  }

  lemma {:induction false} SignaledBusy(s: State, e: nat)
    requires s.Inv() && e < MAX_EVENTS && s.events[e].live
    ensures Signaled(s, e).busy == s.busy
  {
    hide State.Complete;
    CountSignalInv(s, e);
    var c := CountSignal(s, e);
    if s.events[e].manualReset {
      WakeAllMeaning(c, e);
    } else if s.events[e].waiters != [] {
      WaiterIsWaiting(c, e, 0);
      CompleteFrame(c, e, 0, Object0);
    }
  }

  lemma ResetInv(s: State, e: nat)
    requires s.Inv() && e < MAX_EVENTS
    ensures SetFlag(s, e, false).Inv()
  {
    assert s.LedgerOk(e);
    EventRecordInv(s, SetFlag(s, e, false), e);
  }

  /** What registering on a live event finds: an object to pin, a free record, and none of its own waits. */
  lemma RegisterFacts(s: State, e: nat)
    requires s.Inv() && e < MAX_EVENTS && s.events[e].live && s.threads[s.current].record == None
    ensures s.Sized() && s.events[e].objectSlot < MAX_OBJECTS
    ensures s.objects[s.events[e].objectSlot].live && s.objects[s.events[e].objectSlot].internalRefs > 0
    ensures exists r :: 0 <= r < MAX_THREADS && !s.records[r].valid
    ensures forall i | 0 <= i < |s.events[e].waiters| ::
              && s.events[e].waiters[i] < MAX_THREADS && s.records[s.events[e].waiters[i]].thread != s.current
  {
    assert s.EventOk(e);
    assert s.ObjectOk(s.events[e].objectSlot);
    RecordIsFree(s, s.current);
    forall i | 0 <= i < |s.events[e].waiters|
      ensures s.events[e].waiters[i] < MAX_THREADS && s.records[s.events[e].waiters[i]].thread != s.current
    {
      assert s.RecordOk(s.events[e].waiters[i]);
    }
  }

  lemma UnregisterFacts(s: State, r: nat, e: nat, armed: bool, deadline: u64, handle: u64)
    requires CanBlock(s, r, e)
    ensures s.LeaveBlock(r, e, armed, deadline, handle).activeWaits > 0 && s.records[r] == NO_RECORD
    ensures s.LeaveBlock(r, e, armed, deadline, handle).Waiting(e, |s.events[e].waiters|)
    ensures s.threads[s.current].phase == Running && s.nextGeneration !in s.registered
  {
    BlockEvents(s, r, e, armed, deadline, handle);
    assert s.LeaveBlock(r, e, armed, deadline, handle).EventOk(e);
    assert s.RecordOk(r) && s.ThreadOk(s.current);
  }

  /** complete_waiter up to the point where its thread becomes RUNNABLE. */
  ghost function Marked(s: State, e: nat, i: nat, how: Completion): State
    requires s.Waiting(e, i)
  {
    var r := s.events[e].waiters[i];
    var rc, u := s.records[r], s.Unlink(e, i);
    u.(records := u.records[r := u.records[r].(completed := true, completion := how)],
       threads := s.threads[rc.thread := s.threads[rc.thread].(blockedOn := 0, blockedResult := ResultOf(how))],
       outcomes := s.outcomes[rc.generation := Outcome(how, s.clock, s.ledgers[e].signals)],
       ledgers := if how == Object0 then s.Satisfy(e) else s.ledgers)
  }

  /** The thread is RUNNABLE and queued, or BLOCKED if it is not live or the queue is full. */
  function Offered(s: State, t: nat): State
    requires t < |s.threads| && t < |s.since|
  {
    var th := s.threads[t];
    var taken := th.live && (th.queued || |s.queue| < MAX_THREADS);
    var appended := taken && !th.queued;
    s.(threads := s.threads[t := th.(queued := th.queued || taken, phase := if taken then Runnable else Blocked)],
       queue := if appended then s.queue + [t] else s.queue,
       since := if appended then s.since[t := s.switches] else s.since)
  }

  /** The whole effect of complete_waiter, whatever the state of the waiter. */
  ghost function CompletedWaiter(s: State, e: nat, i: nat, how: Completion): State
    requires s.Waiting(e, i)
  {
    var rc := s.records[s.events[e].waiters[i]];
    if rc.valid && rc.active && rc.linked then Offered(Marked(s, e, i, how), rc.thread) else s.Unlink(e, i)
  }

  /** For an unfinished wait of a thread that the queue takes it is the completion of that wait. */
  lemma WakeableCompletes(s: State, e: nat, i: nat, how: Completion)
    ensures Wakeable(s, e, i) ==> CompletedWaiter(s, e, i, how) == s.Complete(e, i, how)
  {
    hide State.Unlink;
    if Wakeable(s, e, i) {
      UnlinkFrame(s, e, i);
      assert CompletedWaiter(s, e, i, how).threads == s.Complete(e, i, how).threads;
    }
  }

  /** What a wait on a handle meets. */
  datatype Target = Nothing | Ready(event: nat) | Busy(event: nat)

  function WaitTarget(s: State, handle: u64): Target
    requires |s.objects| == MAX_OBJECTS && |s.events| == MAX_EVENTS
  {
    match Lookup(s, handle, EventKind)
    case None => Nothing
    case Some(o) =>
      var e := s.objects[o].target;
      if e < MAX_EVENTS && s.events[e].signaled then Ready(e)
      else if OpenEvent(s, handle).Some? then Busy(OpenEvent(s, handle).value) else Nothing
  }

  /** The handle names a live event that is signaled, whether the handle is closed or not. */
  predicate NamesSignaled(s: State, handle: u64)
    requires |s.objects| == MAX_OBJECTS && |s.events| == MAX_EVENTS
  {
    && Lookup(s, handle, EventKind).Some?
    && var e := s.objects[Lookup(s, handle, EventKind).value].target;
       e < MAX_EVENTS && s.events[e].signaled
  }

  /** A handle that does not open an event meets one exactly if it still names one that is signaled. */
  lemma ClosedHandle(s: State, handle: u64)
    requires s.Inv()
    ensures s.Sized()
    ensures OpenEvent(s, handle) == None ==> (WaitTarget(s, handle) == Nothing <==> !NamesSignaled(s, handle))
    ensures NamesSignaled(s, handle) <==> WaitTarget(s, handle).Ready?
  {
    hide State.Inv;
    TargetFacts(s, handle);
  }

  /** An open handle opens the event that it looks up. */
  lemma TargetFacts(s: State, handle: u64)
    requires s.Inv()
    ensures s.Sized()
    ensures Lookup(s, handle, EventKind).Some? ==>
              var e := s.objects[Lookup(s, handle, EventKind).value].target;
              && e < MAX_EVENTS && s.events[e].live
              && (OpenEvent(s, handle).Some? ==> OpenEvent(s, handle).value == e)
    ensures OpenEvent(s, handle).Some? ==> Lookup(s, handle, EventKind).Some?
  {
    var found := Lookup(s, handle, EventKind);
    if found.Some? {
      EventFacts(s, found.value);
    }
  }

  function Unarmed(s: State): State {
    s.(pendingArmed := false, pendingDeadline := 0)
  }

  /** The running thread of `a` is blocked in `b` on event `e`, under the armed timeout, and the next thread runs. */
  ghost predicate Parked(a: State, b: State, e: nat, handle: u64) {
    && a.Sized() && b.Sized() && IsNext(a, b.current)
    && b.threads[a.current].record.Some?
    && var r := b.threads[a.current].record.value;
       && CanBlock(Unarmed(a), r, e)
       && b == Unarmed(a).LeaveBlock(r, e, a.pendingArmed, a.pendingDeadline, handle).Dispatch(b.current)
  }

  lemma ParkedBy(a: State, r: nat, e: nat, handle: u64, next: nat)
    requires a.Inv() && CanBlock(Unarmed(a), r, e)
        && IsNext(Unarmed(a).LeaveBlock(r, e, a.pendingArmed, a.pendingDeadline, handle), next)
    ensures Parked(a, Unarmed(a).LeaveBlock(r, e, a.pendingArmed, a.pendingDeadline, handle).Dispatch(next), e, handle)
  {
    RunningFacts(a);
  }

  lemma ActiveCount(s: State)
    requires s.Inv()
    ensures s.activeWaits == |ValidRecords(s.records)|
  {
  }

  /** The state that gxos_scheduler_initialize leaves. */
  function Boot(): State {
    var boot := NO_THREAD.(live := true, isBoot := true, generation := 1, phase := Running, executionRefs := 1);
    State([boot] + seq(MAX_THREADS - 1, _ => NO_THREAD), seq(MAX_THREADS, _ => NO_RECORD),
          seq(MAX_EVENTS, _ => NO_EVENT),
          [Object(true, ThreadKind, false, 1, 0, 1, 0, 1)] + seq(MAX_OBJECTS - 1,
              _ => Object(false, NoKind, false, 0, 0, 0, 0, 0)),
          [], 0, 0, 1, false, 0, true, 0, seq(MAX_THREADS, _ => 0), seq(MAX_THREADS, _ => 0),
          seq(MAX_THREADS, _ => 0), 0, map[], map[], seq(MAX_EVENTS, _ => Ledger(0, 0, 0)))
  }

  lemma BootInv()
    ensures Boot().Inv() && Boot().busy
  {
    var s := Boot();
    assert ValidRecords(s.records) == {};
    assert forall t | 0 <= t < MAX_THREADS :: s.ThreadOk(t) && s.ThreadObjectOk(t) && s.RecordOk(t);
    assert forall e | 0 <= e < MAX_EVENTS :: s.EventOk(e) && s.LedgerOk(e);
    assert forall o | 0 <= o < MAX_OBJECTS :: s.ObjectOk(o);
  }

  class Kernel {
    var s: State

    ghost predicate Valid()
      reads this
    {
      s.Inv() && s.busy
    }

    /** gxos_scheduler_initialize: the boot thread runs; its object has no public handle. */
    constructor ()
      ensures Valid() && s == Boot()
    {
      s := Boot();
      new;
      BootInv();
    }

    // ---- The runnable queue ----

    /** enqueue_runnable */
    method EnqueueRunnable(t: nat) returns (ok: bool)
      requires t < |s.threads| && t < |s.since|
      modifies this
      ensures ok <==> (
                && old(s.threads[t].live && s.threads[t].phase == Runnable)
                && (old(s.threads[t].queued) || |old(s.queue)| < MAX_THREADS))
      ensures ok && !old(s.threads[t].queued) ==>
                s == old(s).(threads := old(s.threads)[t := old(s.threads[t]).(queued := true)],
                             queue := old(s.queue) + [t], since := old(s.since)[t := old(s.switches)])
      ensures !ok || old(s.threads[t].queued) ==> s == old(s)
    {
      if !s.threads[t].live || s.threads[t].phase != Runnable {
        return false;
      }
      if s.threads[t].queued {
        return true;
      }
      if |s.queue| >= MAX_THREADS {
        return false;
      }
      s := s.(queue := s.queue + [t], threads := s.threads[t := s.threads[t].(queued := true)],
              since := s.since[t := s.switches]);
      return true;
    }

    /** remove_runnable: later entries move up by one. */
    method RemoveRunnable(t: nat) returns (ok: bool)
      requires t < |s.threads|
      modifies this
      ensures ok <==> old(s.threads[t].queued) && t in old(s.queue)
      ensures s == old(s).(threads := old(s.threads)[t := old(s.threads[t]).(queued := false)],
                           queue := if old(s.threads[t].queued) then Without(old(s.queue), t) else old(s.queue))
    {
      if !s.threads[t].queued {
        return false;
      }
      var index := 0;
      while index != |s.queue| && s.queue[index] != t
        invariant 0 <= index <= |s.queue| && s == old(s)
        invariant t !in s.queue[..index]
      {
        index := index + 1;
      }
      WithoutAt(s.queue, t, index);
      ok := index != |s.queue|;
      if ok {
        var shorter := ShiftDown(s.queue, index);
        s := s.(queue := shorter);
      }
      s := s.(threads := s.threads[t := s.threads[t].(queued := false)]);
    }

    /** pick_next_runnable: the nearest runnable slot after the current one, the current slot last. */
    method PickNext() returns (next: Option<nat>)
      requires Queues(s)
      ensures next == None <==> s.queue == []
      ensures next.Some? ==> IsNext(s, next.value)
    {
      assert s.queue == [] || s.queue[0] in s.queue;
      var offset := 1;
      while offset <= MAX_THREADS
        invariant 1 <= offset <= MAX_THREADS + 1
        invariant forall t | t in s.queue && t < MAX_THREADS :: offset <= Distance(s.current, t)
      {
        var index := (s.current + offset) % MAX_THREADS;
        if s.threads[index].live && s.threads[index].phase == Runnable && s.threads[index].queued {
          return Some(index);
        }
        offset := offset + 1;
      }
      return None;
    }

    /** choose_next */
    method ChooseNext(next: nat)
      requires Queues(s) && IsNext(s, next)
      modifies this
      ensures s == old(s).Dispatch(next)
    {
      var _ := RemoveRunnable(next);
      s := s.(threads := s.threads[next := s.threads[next].(phase := Running)], current := next,
              busy := true, switches := s.switches + 1, ran := s.ran[next := s.switches + 1]);
      assert s.threads == old(s).Dispatch(next).threads;
    }

    // ---- Switching ----

    /** gxos_scheduler_prepare_yield: always succeeds; with nobody else queued the caller runs on. */
    method Yield() returns (ok: bool)
      requires Valid()
      modifies this
      ensures Valid() && ok
      ensures IsNext(old(s).LeaveYield(), s.current) && s == old(s).LeaveYield().Dispatch(s.current)
    {
      hide State.Inv;
      Basics(s);
      RunningFacts(s);
      QueueFits(s, s.current);
      LeaveYieldInv(s);
      var current := s.current;
      s := s.(busy := false, threads := s.threads[current := s.threads[current].(phase := Runnable)]);
      ok := EnqueueRunnable(current);
      if !ok {
        return;
      }
      assert s.threads == old(s).LeaveYield().threads;
      assert s == old(s).LeaveYield();
      Basics(s);
      var next := PickNext();
      assert current in s.queue;
      if next == None {
        ok := false;
        return;
      }
      DispatchInv(s, next.value);
      ChooseNext(next.value);
    }

    /**
     * gxos_scheduler_prepare_terminate. The thread is marked TERMINATED before the search for a
     * successor, so without another runnable thread nobody runs any more.
     */
    method Terminate() returns (ok: bool)
      requires Valid()
      modifies this
      ensures ok <==> old(s.current) != 0 && old(s.queue) != []
      ensures ok ==> IsNext(old(s), s.current) && s == old(s).LeaveTerminate().Dispatch(s.current)
      ensures !ok && old(s.current) == 0 ==> s == old(s)
      ensures !ok && old(s.current) != 0 ==> s == old(s).LeaveTerminate()
      ensures Valid() <==> old(s.current) == 0 || (old(s.queue) != [] && old(s.threads[s.current].record) == None)
    {
      hide State.Inv;
      Basics(s);
      RunningFacts(s);
      var current := s.current;
      if s.threads[current].phase != Running || s.threads[current].isBoot {
        return false;
      }
      TerminateExact(s);
      s := s.(busy := false,
          threads := s.threads[current := s.threads[current].(phase := Terminated, executionRefs := 0)]);
      var next := PickNext();
      if next == None {
        return false;
      }
      if s.Inv() {
        DispatchInv(s, next.value);
      }
      ChooseNext(next.value);
      return true;
    }

    // ---- Objects, events and threads ----

    /** allocate_object */
    method AllocateObject(kind: Kind, target: nat) returns (slot: Option<nat>)
      requires s.Sized()
      modifies this
      ensures slot == None ==> s == old(s) && forall o | 0 <= o < MAX_OBJECTS :: s.objects[o].live
      ensures slot.Some? ==>
                && slot.value < MAX_OBJECTS && !old(s.objects)[slot.value].live
                && s == old(s).(objects :=
                     old(s.objects)[slot.value := BornObject(old(s.objects)[slot.value], kind, target)])
    {
      var o := 0;
      while o != MAX_OBJECTS
        invariant 0 <= o <= MAX_OBJECTS && s == old(s)
        invariant forall p | 0 <= p < o :: s.objects[p].live
      {
        if !s.objects[o].live {
          s := s.(objects := s.objects[o := BornObject(s.objects[o], kind, target)]);
          return Some(o);
        }
        o := o + 1;
      }
      return None;
    }

    /** gxos_scheduler_create_event */
    method CreateEvent(manualReset: bool, signaled: bool) returns (handle: Option<u64>)
      requires Valid()
      modifies this
      ensures Valid()
      ensures handle.Some? <==>
                && (exists e :: 0 <= e < MAX_EVENTS && !old(s.events)[e].live)
                && (exists o :: 0 <= o < MAX_OBJECTS && !old(s.objects)[o].live)
      ensures handle.Some? ==>
                && OpenEvent(s, handle.value).Some?
                && var e := OpenEvent(s, handle.value).value;
                   var o := s.events[e].objectSlot;
                   && !old(s.events)[e].live && o < MAX_OBJECTS && !old(s.objects)[o].live
                   && s == BirthEvent(old(s), e, o, manualReset, signaled)
                   && handle.value == MakeHandle(EventKind, o, GenerationOf(s.objects[o].births))
                   && s.events[e].manualReset == manualReset && s.events[e].signaled == signaled
                   && s.events[e].waiters == [] && s.current == old(s.current) && s.queue == old(s.queue)
                   && forall f | 0 <= f < MAX_EVENTS && f != e :: s.events[f] == old(s.events)[f]
      ensures handle == None ==>
                || s == old(s)
                || exists e ::
                     && 0 <= e < MAX_EVENTS && !old(s.events)[e].live
                     && s == old(s).(events := old(s.events)[e := NO_EVENT])
    {
      hide State.Inv;
      Basics(s);
      var e := 0;
      while e != MAX_EVENTS && s.events[e].live
        invariant 0 <= e <= MAX_EVENTS && s == old(s)
        invariant forall f | 0 <= f < e :: s.events[f].live
      {
        e := e + 1;
      }
      if e == MAX_EVENTS {
        return None;
      }
      ClearEventInv(s, e);
      s := s.(events := s.events[e := NO_EVENT]);
      var slot := AllocateObject(EventKind, e);
      if slot == None {
        s := s.(events := s.events[e := NO_EVENT]);
        assert s.events == old(s.events)[e := NO_EVENT];
        return None;
      }
      var o := slot.value;
      BirthEventInv(old(s), e, o, manualReset, signaled);
      s := s.(events := s.events[e := Event(true, manualReset, signaled, s.objects[o].generation, o, [])],
              ledgers := s.ledgers[e := Ledger(if signaled then 1 else 0, 0, 0)]);
      assert s.events == BirthEvent(old(s), e, o, manualReset, signaled).events;
      NewHandle(s, EventKind, o);
      handle := Some(MakeHandle(EventKind, o, s.objects[o].generation));
    }

    /**
     * gxos_scheduler_create_suspended_thread. `resources` tells whether the stack, its canary page,
     * the environment pages and the stack registration were all obtained.
     */
    method CreateThread(resources: bool) returns (handle: Option<u64>)
      requires Valid()
      modifies this
      ensures Valid()
      ensures handle.Some? <==>
                && resources && (exists t :: 0 <= t < MAX_THREADS && !old(s.threads)[t].live)
                && (exists o :: 0 <= o < MAX_OBJECTS && !old(s.objects)[o].live)
      ensures handle.Some? ==>
                && Lookup(s, handle.value, ThreadKind).Some?
                && var o := Lookup(s, handle.value, ThreadKind).value;
                   && !old(s.objects)[o].live && s.objects[o].target < MAX_THREADS
                   && !old(s.threads)[s.objects[o].target].live
                   && s == BirthThread(old(s), s.objects[o].target, o)
                   && handle.value == MakeHandle(ThreadKind, o, GenerationOf(s.objects[o].births))
      ensures handle == None ==>
                s == old(s) || exists o :: 0 <= o < MAX_OBJECTS && !old(s.objects)[o].live && s == Burn(old(s), o)
    {
      hide State.Inv;
      Basics(s);
      var t := 0;
      while t != MAX_THREADS && s.threads[t].live
        invariant 0 <= t <= MAX_THREADS && s == old(s)
        invariant forall u | 0 <= u < t :: s.threads[u].live
      {
        t := t + 1;
      }
      if t == MAX_THREADS {
        return None;
      }
      DeadIsEmpty(s, t);
      var created := NO_THREAD.(live := true, phase := Suspended, suspendCount := 1, publicRefs := 1,
          executionRefs := 1);
      s := s.(threads := s.threads[t := created]);
      var slot := AllocateObject(ThreadKind, t);
      if slot == None {
        s := s.(threads := s.threads[t := NO_THREAD]);
        assert s.threads == old(s.threads);
        return None;
      }
      var o := slot.value;
      if !resources {
        s := s.(objects := s.objects[o := DeadObject(s.objects[o])], threads := s.threads[t := NO_THREAD]);
        assert s.threads == old(s.threads);
        assert s.objects == Burn(old(s), o).objects;
        BurnInv(old(s), o);
        return None;
      }
      BirthThreadInv(old(s), t, o);
      s := s.(threads := s.threads[t := s.threads[t].(generation := s.objects[o].generation, objectSlot := o)]);
      assert s.threads == BirthThread(old(s), t, o).threads;
      NewHandle(s, ThreadKind, o);
      handle := Some(MakeHandle(ThreadKind, o, s.objects[o].generation));
    }

    /**
     * gxos_scheduler_resume_thread: the suspend count before the call, or None on failure.
     * `intact` is the verdict on the saved context of a thread that has not run yet.
     */
    method Resume(handle: u64, intact: bool) returns (previous: Option<nat>)
      requires Valid()
      modifies this
      ensures Valid()
      ensures match Lookup(old(s), handle, ThreadKind)
              case None => previous == None && s == old(s)
              case Some(o) =>
                var t := old(s).objects[o].target;
                && t < MAX_THREADS
                && var th := old(s).threads[t];
                   if old(s).objects[o].publicRefs == 0 || th.phase == Terminated then previous == None && s == old(s)
                   else if th.phase != Suspended then previous == Some(0) && s == old(s)
                   else if intact then previous == Some(1) && s == old(s).Enqueue(t)
                   else previous == None && s == old(s)
    {
      hide State.Inv;
      Basics(s);
      var found := Lookup(s, handle, ThreadKind);
      if found == None {
        return None;
      }
      var ob := s.objects[found.value];
      ThreadFacts(s, found.value);
      if ob.publicRefs == 0 || ob.internalRefs == 0 {
        return None;
      }
      var t := ob.target;
      var th := s.threads[t];
      if !th.live || th.executionRefs == 0 || th.objectSlot != found.value || th.generation != ob.generation
         || th.phase == Free || th.phase == Terminated {
        return None;
      }
      if th.suspendCount == 0 {
        if th.phase == Runnable && !th.queued {
          return None;
        }
        return Some(0);
      }
      if th.phase != Suspended || th.suspendCount != 1 || !intact {
        return None;
      }
      ResumeInv(s, t);
      QueueFits(s, t);
      s := s.(threads := s.threads[t := th.(suspendCount := 0, phase := Runnable)]);
      var queued := EnqueueRunnable(t);
      assert s.threads == old(s).Enqueue(t).threads;
      if !queued {
        previous := None;
        return;
      }
      previous := Some(1);
    }

    // ---- Closing, destroying and reclaiming ----

    /**
     * maybe_reclaim_thread. `intact` and `unregistered` are the answers of the canary check and of
     * the stack registry.
     */
    method MaybeReclaim(t: nat, intact: bool, unregistered: bool)
      requires s.Sized() && t < MAX_THREADS && HasObject(s, t)
      modifies this
      ensures s == Reclaimed(old(s), t, intact && unregistered)
    {
      var th := s.threads[t];
      if !th.live || t == s.current || th.phase != Terminated || th.executionRefs != 0 || th.publicRefs != 0
         || th.queued || th.isBoot || !intact {
        return;
      }
      if !s.objects[th.objectSlot].live || s.objects[th.objectSlot].kind != ThreadKind {
        return;
      }
      if !unregistered {
        return;
      }
      s := s.(objects := s.objects[th.objectSlot := DeadObject(s.objects[th.objectSlot])],
              threads := s.threads[t := NO_THREAD]);
    }

    /** gxos_scheduler_close_handle */
    method Close(handle: u64, intact: bool, unregistered: bool) returns (ok: bool)
      requires Valid()
      modifies this
      ensures Valid()
      ensures ok <==>
                && KindOf(handle) != NoKind && Lookup(old(s), handle, KindOf(handle)).Some?
                && old(s).objects[Lookup(old(s), handle, KindOf(handle)).value].publicRefs > 0
      ensures !ok ==> s == old(s)
      ensures ok ==>
                var o := Lookup(old(s), handle, KindOf(handle)).value;
                var target := old(s).objects[o].target;
                if KindOf(handle) == EventKind then s == CloseObject(old(s), o)
                else target < MAX_THREADS && s == Reclaimed(CloseObject(old(s), o), target, intact && unregistered)
    {
      hide State.Inv;
      Basics(s);
      var kind := KindOf(handle);
      if kind == NoKind {
        return false;
      }
      var found := Lookup(s, handle, kind);
      if found == None || s.objects[found.value].publicRefs == 0 {
        return false;
      }
      var o := found.value;
      var ob := s.objects[o];
      if kind == ThreadKind {
        ThreadFacts(s, o);
      }
      CloseObjectInv(s, o);
      s := s.(objects := s.objects[o := ob.(publicRefs := ob.publicRefs - 1, closed := true)]);
      if kind == ThreadKind {
        var th := s.threads[ob.target];
        if th.publicRefs != 0 {
          s := s.(threads := s.threads[ob.target := th.(publicRefs := th.publicRefs - 1)]);
        }
        Basics(s);
        ReclaimedInv(s, ob.target, intact && unregistered);
        MaybeReclaim(ob.target, intact, unregistered);
      }
      return true;
    }

    /** gxos_scheduler_try_destroy_event: only an event that is closed and that no wait record pins goes. */
    method TryDestroyEvent(handle: u64) returns (ok: bool)
      requires Valid()
      modifies this
      ensures Valid()
      ensures ok <==>
                && Lookup(old(s), handle, EventKind).Some?
                && var o := Lookup(old(s), handle, EventKind).value;
                   old(s).objects[o].publicRefs == 0 && Pins(old(s).records, o) == {}
      ensures !ok ==> s == old(s)
      ensures ok ==>
                var o := Lookup(old(s), handle, EventKind).value;
                var e := old(s).objects[o].target;
                && e < MAX_EVENTS && s == DropEvent(old(s), e, o)
                && forall r | 0 <= r < MAX_THREADS && s.records[r].valid :: s.records[r].event != e
    {
      hide State.Inv;
      Basics(s);
      var found := Lookup(s, handle, EventKind);
      if found == None {
        return false;
      }
      var o := found.value;
      EventFacts(s, o);
      DestroyExact(s, o);
      var e := s.objects[o].target;
      if s.events[e].waiters != [] || s.objects[o].publicRefs != 0 || s.objects[o].internalRefs > 1 {
        return false;
      }
      DropEventInv(s, e, o);
      s := s.(events := s.events[e := s.events[e].(live := false)],
          objects := s.objects[o := DeadObject(s.objects[o])]);
      return true;
    }

    /** gxos_scheduler_try_reclaim_thread */
    method TryReclaim(t: nat, intact: bool, unregistered: bool) returns (gone: bool)
      requires Valid() && t < MAX_THREADS
      modifies this
      ensures Valid()
      ensures s == Reclaimed(old(s), t, intact && unregistered)
      ensures gone <==> Reclaimable(old(s), t) && intact && unregistered
    {
      hide State.Inv;
      Basics(s);
      var th := s.threads[t];
      if !th.live || th.executionRefs != 0 || th.phase == Blocked || th.phase != Terminated {
        return false;
      }
      ReclaimedInv(s, t, intact && unregistered);
      MaybeReclaim(t, intact, unregistered);
      return !s.threads[t].live;
    }

    /**
     * gxos_scheduler_discard_created_thread. The program does not check that the thread is a worker
     * and has no unfinished wait; the invariant survives exactly when it is and has none.
     */
    method Discard(t: nat, intact: bool, unregistered: bool) returns (gone: bool)
      requires Valid() && t < MAX_THREADS
      modifies this
      ensures !Discardable(old(s), t) ==> !gone && s == old(s)
      ensures Discardable(old(s), t) ==> s == Reclaimed(Retire(old(s), t), t, intact && unregistered)
      ensures gone <==> Discardable(old(s), t) && t != 0 && intact && unregistered
      ensures Valid() <==> !Discardable(old(s), t) || (t != 0 && old(s.threads)[t].record == None)
    {
      hide State.Inv;
      Basics(s);
      var th := s.threads[t];
      if !th.live || (th.phase != Suspended && th.phase != Runnable) || th.publicRefs != 0 {
        return false;
      }
      DiscardExact(s, t, intact && unregistered);
      if s.threads[t].queued {
        var removed := RemoveRunnable(t);
        if !removed {
          gone := false;
          return;
        }
      }
      s := s.(threads := s.threads[t := s.threads[t].(phase := Terminated, executionRefs := 0)],
              gone := s.gone[t := s.gone[t] + 1]);
      assert s.threads == Retire(old(s), t).threads;
      assert s == Retire(old(s), t);
      MaybeReclaim(t, intact, unregistered);
      return !s.threads[t].live;
    }

    /** gxos_scheduler_collect: `permitted` holds the answers of the canary checks and the stack registry. */
    method Collect(permitted: seq<bool>)
      requires Valid() && |permitted| == MAX_THREADS
      modifies this
      ensures Valid() && CollectedUpTo(old(s), s, permitted, MAX_THREADS)
    {
      hide State.Inv;
      Basics(s);
      var t := 0;
      while t != MAX_THREADS
        invariant 0 <= t <= MAX_THREADS && Valid() && s.Sized() && CollectedUpTo(old(s), s, permitted, t)
      {
        ReclaimedInv(s, t, permitted[t]);
        CollectStep(old(s), s, permitted, t);
        MaybeReclaim(t, permitted[t], true);
        t := t + 1;
      }
    }

    // ---- Completing waits ----

    /** remove_waiter */
    method RemoveWaiter(e: nat, i: nat)
      requires s.Waiting(e, i)
      modifies this
      ensures s == old(s).Unlink(e, i)
    {
      var waiters := s.events[e].waiters;
      var r, tail := waiters[i], |waiters| - 1;
      waiters := waiters[i := waiters[tail]];
      s := s.(records := s.records[waiters[i] := s.records[waiters[i]].(waiterIndex := i)]);
      s := s.(events := s.events[e := s.events[e].(waiters := waiters[..tail])]);
      s := s.(records := s.records[r := s.records[r].(linked := false, waiterIndex := NO_INDEX)]);
    }

    /**
     * complete_waiter: an entry that is no unfinished wait is only unlinked; a finished wait whose
     * thread the queue does not take leaves that thread BLOCKED.
     */
    method CompleteWaiter(e: nat, i: nat, how: Completion)
      requires s.Waiting(e, i)
      modifies this
      ensures Wakeable(old(s), e, i) ==> s == old(s).Complete(e, i, how)
      ensures s == CompletedWaiter(old(s), e, i, how)
    {
      hide State.Unlink, Wakeable, Offered;
      WakeableCompletes(s, e, i, how);
      var r := s.events[e].waiters[i];
      if !s.records[r].valid || !s.records[r].active || !s.records[r].linked {
        RemoveWaiter(e, i);
        return;
      }
      var t, generation := s.records[r].thread, s.records[r].generation;
      UnlinkFrame(s, e, i);
      RemoveWaiter(e, i);
      s := s.(records := s.records[r := s.records[r].(completed := true, completion := how)]);
      s := s.(threads := s.threads[t := s.threads[t].(blockedOn := 0, blockedResult := ResultOf(how))],
              outcomes := s.outcomes[generation := Outcome(how, s.clock, s.ledgers[e].signals)],
              ledgers := if how == Object0 then s.Satisfy(e) else s.ledgers);
      assert s == Marked(old(s), e, i, how);
      WakeThread(t);
    }

    /** The end of complete_waiter: RUNNABLE and queued, or BLOCKED again if the queue does not take it. */
    method WakeThread(t: nat)
      requires t < |s.threads| && t < |s.since|
      modifies this
      ensures s == Offered(old(s), t)
    {
      s := s.(threads := s.threads[t := s.threads[t].(phase := Runnable)]);
      var queued := EnqueueRunnable(t);
      if !queued {
        s := s.(threads := s.threads[t := s.threads[t].(phase := Blocked)]);
      }
    }

    /** gxos_scheduler_signal_event */
    method Signal(handle: u64) returns (ok: bool)
      requires Valid()
      modifies this
      ensures Valid()
      ensures ok <==> Lookup(old(s), handle, EventKind).Some?
      ensures !ok ==> s == old(s)
      ensures ok ==>
                var e := old(s).objects[Lookup(old(s), handle, EventKind).value].target;
                e < MAX_EVENTS && old(s).events[e].live && s == Signaled(old(s), e)
    {
      hide State.Inv, State.Complete, CompletedWaiter;
      Basics(s);
      var found := Lookup(s, handle, EventKind);
      if found == None {
        return false;
      }
      EventFacts(s, found.value);
      var e := s.objects[found.value].target;
      SignaledInv(s, e);
      CountSignalInv(s, e);
      s := CountSignal(s, e);
      if s.events[e].manualReset {
        SignalAll(e);
      } else if s.events[e].waiters != [] {
        WaiterIsWakeable(s, e, 0);
        s := s.(events := s.events[e := s.events[e].(signaled := false)]);
        assert s == CountSignal(old(s), e);
        CompleteWaiter(e, 0, Object0);
      } else {
        s := s.(events := s.events[e := s.events[e].(signaled := true)]);
      }
      SignaledBusy(old(s), e);
      return true;
    }

    /** The manual-reset branch of gxos_scheduler_signal_event: set the flag, then wake waiter 0 until none is left. */
    method SignalAll(e: nat)
      requires s.Inv() && e < MAX_EVENTS && s.events[e].manualReset && s.Slack(e)
      modifies this
      ensures s == SetFlag(WakeAll(old(s), e), e, true)
    {
      hide State.Inv, State.Complete, CompletedWaiter;
      InvSized(s);
      ghost var base := s;
      s := s.(events := s.events[e := s.events[e].(signaled := true)]);
      while s.events[e].waiters != []
        invariant base.Inv() && base.Sized() && base.events[e].manualReset && base.Slack(e)
            && s == SetFlag(base, e, true)
        invariant WakeAll(base, e) == WakeAll(old(s), e)
        decreases |s.events[e].waiters|
      {
        WaiterIsWakeable(base, e, 0);
        CompleteFrame(base, e, 0, Object0);
        CompleteInv(base, e, 0, Object0);
        FlagThenWake(base, e);
        SlackStays(base, e);
        CompleteWaiter(e, 0, Object0);
        base := base.Complete(e, 0, Object0);
        InvSized(base);
      }
    }

    /** gxos_scheduler_reset_event */
    method Reset(handle: u64) returns (ok: bool)
      requires Valid()
      modifies this
      ensures Valid()
      ensures ok <==> Lookup(old(s), handle, EventKind).Some?
      ensures !ok ==> s == old(s)
      ensures ok ==>
                var e := old(s).objects[Lookup(old(s), handle, EventKind).value].target;
                e < MAX_EVENTS && s == SetFlag(old(s), e, false)
    {
      hide State.Inv;
      Basics(s);
      var found := Lookup(s, handle, EventKind);
      if found == None {
        return false;
      }
      EventFacts(s, found.value);
      ResetInv(s, s.objects[found.value].target);
      var e := s.objects[found.value].target;
      s := s.(events := s.events[e := s.events[e].(signaled := false)]);
      return true;
    }

    /** gxos_scheduler_arm_wait_timeout */
    method ArmTimeout(deadline: u64) returns (ok: bool)
      requires Valid()
      modifies this
      ensures Valid()
      ensures ok <==> old(s.threads[s.current].record) == None
      ensures s == if ok then old(s).(pendingArmed := true, pendingDeadline := deadline) else old(s)
    {
      hide State.Inv;
      Basics(s);
      RunningFacts(s);
      if s.threads[s.current].phase != Running || s.threads[s.current].record != None {
        return false;
      }
      PendingInv(s, true, deadline);
      s := s.(pendingArmed := true, pendingDeadline := deadline);
      return true;
    }

    /** gxos_scheduler_service_timeouts: completes exactly the armed waits whose deadline has passed. */
    method ServiceTimeouts(now: u64) returns (completed: nat)
      requires Valid()
      modifies this
      ensures Valid() && ExpiredUpTo(old(s), s, now, MAX_THREADS)
      ensures completed == |ExpiredBelow(old(s), now, MAX_THREADS)|
      ensures forall r | 0 <= r < MAX_THREADS :: !Expired(s, r, now)
    {
      hide State.Inv, State.Complete, CompletedWaiter;
      InvSized(s);
      ReadInv(s, now);
      ReadExpiresNothing(s, now);
      s := Read(s, now);
      var index := 0;
      completed := 0;
      while index != MAX_THREADS
        invariant 0 <= index <= MAX_THREADS && s.Inv() && s.Sized() && ExpiredUpTo(old(s), s, now, index)
        invariant completed == |ExpiredBelow(old(s), now, index)|
      {
        ExpireStep(old(s), s, now, index);
        ExpiredCount(old(s), now, index);
        var rc := s.records[index];
        if rc.valid && rc.active && rc.armed && !rc.completed && rc.deadline <= now {
          CompleteWaiter(rc.event, rc.waiterIndex, Timeout);
          completed := completed + 1;
        }
        InvSized(s);
        index := index + 1;
      }
    }

    // ---- Waiting ----

    /** add_waiter */
    method AddWaiter(e: nat, r: nat) returns (ok: bool)
      requires s.Sized() && e < MAX_EVENTS && r < MAX_THREADS
      requires forall i | 0 <= i < |s.events[e].waiters| :: s.events[e].waiters[i] < MAX_THREADS
      modifies this
      ensures ok <==>
                && |old(s).events[e].waiters| < MAX_THREADS && !old(s).records[r].linked
                && forall i | 0 <= i < |old(s).events[e].waiters| ::
                     && old(s).events[e].waiters[i] != r
                     && old(s).records[old(s).events[e].waiters[i]].thread != old(s).records[r].thread
      ensures s == if !ok then old(s) else old(s).(
                records := old(s).records[r :=
                    old(s).records[r].(waiterIndex := |old(s).events[e].waiters|, linked := true)],
                events := old(s).events[e := old(s).events[e].(waiters := old(s).events[e].waiters + [r])])
    {
      var waiters := s.events[e].waiters;
      if |waiters| >= MAX_THREADS || s.records[r].linked {
        return false;
      }
      var i := 0;
      while i != |waiters|
        invariant 0 <= i <= |waiters| && s == old(s)
        invariant forall k | 0 <= k < i :: waiters[k] != r && s.records[waiters[k]].thread != s.records[r].thread
      {
        if waiters[i] == r || s.records[waiters[i]].thread == s.records[r].thread {
          return false;
        }
        i := i + 1;
      }
      s := s.(records := s.records[r := s.records[r].(waiterIndex := |waiters|, linked := true)],
              events := s.events[e := s.events[e].(waiters := waiters + [r])]);
      return true;
    }

    /** allocate_wait_record */
    method AllocateRecord() returns (r: Option<nat>)
      requires s.Sized()
      modifies this
      ensures r == None ==> s == old(s) && forall q | 0 <= q < MAX_THREADS :: s.records[q].valid
      ensures r.Some? ==>
                && r.value < MAX_THREADS && !old(s).records[r.value].valid
                && s == old(s).(
                  records := old(s).records[r.value :=
                      NO_RECORD.(valid := true, generation := old(s).nextGeneration, waiterIndex := NO_INDEX)],
                  nextGeneration := old(s).nextGeneration + 1)
    {
      var q := 0;
      while q != MAX_THREADS
        invariant 0 <= q <= MAX_THREADS && s == old(s)
        invariant forall p | 0 <= p < q :: s.records[p].valid
      {
        if !s.records[q].valid {
          s := s.(records := s.records[q :=
              NO_RECORD.(valid := true, generation := s.nextGeneration, waiterIndex := NO_INDEX)],
                  nextGeneration := s.nextGeneration + 1);
          return Some(q);
        }
        q := q + 1;
      }
      return None;
    }

    /** The middle of gxos_scheduler_prepare_wait_record: pin, record, waiter entry, BLOCKED. It never fails. */
    method Register(e: nat, armed: bool, deadline: u64, handle: u64) returns (r: Option<nat>)
      requires Valid() && e < MAX_EVENTS && s.events[e].live && !s.events[e].signaled
          && s.threads[s.current].record == None
      modifies this
      ensures r.Some? && r.value < MAX_THREADS && CanBlock(old(s), r.value, e)
      ensures s == old(s).LeaveBlock(r.value, e, armed, deadline, handle)
    {
      hide State.Inv;
      RegisterFacts(s, e);
      var o := s.events[e].objectSlot;
      if !s.objects[o].live || s.objects[o].internalRefs == 0 {
        r := None;
        return;
      }
      s := s.(objects := s.objects[o := s.objects[o].(internalRefs := s.objects[o].internalRefs + 1)]);
      r := AllocateRecord();
      if r == None {
        return;
      }
      WaiterFits(old(s), e, r.value);
      s := s.(records := s.records[r.value := s.records[r.value].(
                objectSlot := o, objectGeneration := s.objects[o].generation, thread := s.current, event := e,
                pinHeld := true, completion := Pending, armed := armed, deadline := deadline)]);
      var added := AddWaiter(e, r.value);
      if !added {
        r := None;
        return;
      }
      s := s.(records := s.records[r.value := s.records[r.value].(active := true)], activeWaits := s.activeWaits + 1,
              registered := s.registered[s.records[r.value].generation :=
                              Ticket(e, s.records[r.value].objectGeneration, armed, deadline, s.ledgers[e].signals)],
              threads := s.threads[s.current := s.threads[s.current].(
                record := r, blockedOn := handle, blockedResult := WaitFailure, phase := Blocked)],
              busy := false);
      ghost var b := old(s).LeaveBlock(r.value, e, armed, deadline, handle);
      assert s.records == b.records;
      assert s.objects == b.objects && s.events == b.events && s.threads == b.threads;
    }

    /** release_wait_record, with unpin_wait_record */
    method ReleaseRecord(r: nat)
      requires s.Sized() && r < MAX_THREADS && s.records[r].objectSlot < MAX_OBJECTS
      requires s.records[r].valid && s.records[r].active && s.records[r].pinHeld
      requires s.activeWaits != 0 && s.objects[s.records[r].objectSlot].internalRefs != 0
      modifies this
      ensures s == old(s).(
                records := old(s).records[r := NO_RECORD], activeWaits := old(s).activeWaits - 1,
                objects := old(s).objects[old(s).records[r].objectSlot := old(s).objects[old(s).records[r].objectSlot].(
                  internalRefs := old(s).objects[old(s).records[r].objectSlot].internalRefs - 1)])
    {
      if s.records[r].active && s.activeWaits != 0 {
        s := s.(activeWaits := s.activeWaits - 1);
      }
      s := s.(records := s.records[r := s.records[r].(active := false)]);
      var o := s.records[r].objectSlot;
      if s.records[r].pinHeld && s.objects[o].internalRefs != 0 {
        s := s.(objects := s.objects[o := s.objects[o].(internalRefs := s.objects[o].internalRefs - 1)]);
      }
      s := s.(records := s.records[r := NO_RECORD]);
    }

    /** The undo branch of gxos_scheduler_prepare_wait_record: nobody else can run, so the wait is taken back. */
    method Unregister(ghost before: State, r: nat, e: nat, armed: bool, deadline: u64, handle: u64)
      requires CanBlock(before, r, e) && s == before.LeaveBlock(r, e, armed, deadline, handle)
      modifies this
      ensures s == Note(before, 0, WaitFailure, before.nextGeneration + 1, before.pendingArmed, before.pendingDeadline)
    {
      hide State.Inv;
      LeaveBlockInv(before, r, e, armed, deadline, handle);
      RegisterFacts(before, e);
      UnregisterFacts(before, r, e, armed, deadline, handle);
      s := s.(threads := s.threads[s.current := s.threads[s.current].(
                phase := Running, record := None, blockedOn := 0, blockedResult := WaitFailure)], busy := true);
      s := s.(registered := s.registered - {s.records[r].generation});
      RemoveWaiter(e, s.records[r].waiterIndex);
      ReleaseRecord(r);
      assert s.registered == before.registered;
      assert s.records == before.records;
      assert s.events == before.events;
      assert s.objects == before.objects;
      assert s.threads == Note(before, 0, WaitFailure, 0, false, 0).threads;
    }

    /**
     * gxos_scheduler_prepare_wait_record. The pending timeout is always consumed. A signaled event
     * satisfies the wait at once even through a closed handle; an open unsignaled event blocks the
     * caller exactly when somebody else can run.
     */
    method PrepareWait(handle: u64) returns (result: WaitResult)
      requires Valid()
      modifies this
      ensures Valid()
      ensures old(s.threads[s.current].record) != None ==> result == WaitFailure && s == Unarmed(old(s))
      ensures old(s.threads[s.current].record) == None ==>
                match WaitTarget(old(s), handle)
                case Nothing => result == WaitFailure && s == Unarmed(old(s))
                case Ready(e) =>
                  && result == WaitSignaled && e < MAX_EVENTS
                  && s == Note(TakeToken(old(s), e), old(s.threads[s.current].blockedOn), WaitSignaled,
                       old(s.nextGeneration), false, 0)
                case Busy(e) =>
                  && e < MAX_EVENTS
                  && if old(s.queue) == []
                     then result == WaitFailure
                         && s == Note(old(s), 0, WaitFailure, old(s.nextGeneration) + 1, false, 0)
                     else result == WaitBlocked && Parked(old(s), s, e, handle)
      ensures old(s.threads[s.current].record) == None ==> (result == WaitSignaled <==> NamesSignaled(old(s), handle))
    {
      hide State.Inv, Parked;
      Basics(s);
      ClosedHandle(s, handle);
      RunningFacts(s);
      TargetFacts(s, handle);
      var armed, deadline := s.pendingArmed, s.pendingDeadline;
      PendingInv(s, false, 0);
      s := s.(pendingArmed := false, pendingDeadline := 0);
      var current := s.current;
      if s.threads[current].phase != Running || s.threads[current].record != None {
        return WaitFailure;
      }
      var target := OpenEvent(s, handle);
      if target == None {
        var found := Lookup(s, handle, EventKind);
        if found.Some? && s.objects[found.value].target < MAX_EVENTS && s.events[s.objects[found.value].target].live
           && s.events[s.objects[found.value].target].signaled {
          TakeNow(s.objects[found.value].target);
          return WaitSignaled;
        }
        return WaitFailure;
      }
      var e := target.value;
      if s.events[e].signaled {
        TakeNow(e);
        return WaitSignaled;
      }
      result := Block(e, armed, deadline, handle, old(s));
    }

    /** The blocking part of gxos_scheduler_prepare_wait_record: register, then switch or take the wait back. */
    method Block(e: nat, armed: bool, deadline: u64, handle: u64, ghost first: State) returns (result: WaitResult)
      requires Valid() && e < MAX_EVENTS && s.events[e].live && !s.events[e].signaled
          && s.threads[s.current].record == None
      requires first.Inv() && s == Unarmed(first) && armed == first.pendingArmed && deadline == first.pendingDeadline
      modifies this
      ensures Valid()
      ensures if first.queue == []
              then result == WaitFailure && s == Note(first, 0, WaitFailure, first.nextGeneration + 1, false, 0)
              else result == WaitBlocked && Parked(first, s, e, handle)
    {
      hide State.Inv, Parked;
      Basics(s);
      var r := Register(e, armed, deadline, handle);
      LeaveBlockInv(Unarmed(first), r.value, e, armed, deadline, handle);
      Basics(s);
      var next := PickNext();
      if next == None {
        Unregister(Unarmed(first), r.value, e, armed, deadline, handle);
        NoteInv(Unarmed(first), 0, WaitFailure, first.nextGeneration + 1, false, 0);
        return WaitFailure;
      }
      DispatchInv(s, next.value);
      ChooseNext(next.value);
      ParkedBy(first, r.value, e, handle, next.value);
      return WaitBlocked;
    }

    /** A wait satisfied without blocking. */
    method TakeNow(e: nat)
      requires Valid() && e < MAX_EVENTS && s.events[e].live && s.events[e].signaled
          && s.threads[s.current].record == None
      modifies this
      ensures Valid()
      ensures s == Note(TakeToken(old(s), e), old(s.threads[s.current].blockedOn), WaitSignaled,
                        old(s.nextGeneration), old(s.pendingArmed), old(s.pendingDeadline))
    {
      hide State.Inv;
      InvSized(s);
      TakeTokenInv(s, e);
      NoteInv(TakeToken(s, e), s.threads[s.current].blockedOn, WaitSignaled, s.nextGeneration, s.pendingArmed,
          s.pendingDeadline);
      if !s.events[e].manualReset {
        s := s.(events := s.events[e := s.events[e].(signaled := false)]);
      }
      s := s.(ledgers := s.Satisfy(e));
      s := s.(threads := s.threads[s.current := s.threads[s.current].(blockedResult := WaitSignaled)]);
      assert s.events == TakeToken(old(s), e).events;
    }

    /**
     * gxos_scheduler_finish_wait: a thread with a record is told how that very wait was completed
     * and gives the record and its pin back; a wrong handle changes nothing.
     */
    method FinishWait(handle: u64) returns (result: WaitResult)
      requires Valid()
      modifies this
      ensures Valid()
      ensures match old(s.threads[s.current].record)
              case None =>
                var noted := old(s.threads[s.current].blockedResult);
                if noted == WaitSignaled || noted == WaitTimedOut
                then result == noted && s == Note(old(s), 0, WaitFailure, old(s.nextGeneration), old(s.pendingArmed),
                    old(s.pendingDeadline))
                else result == WaitFailure && s == old(s)
              case Some(r) =>
                && CanFinish(old(s), r)
                && var rc := old(s).records[r];
                   && rc.generation in old(s).outcomes
                   && if handle == 0 || DecodeHandle(handle, EventKind) == Reference(rc.objectSlot, rc.objectGeneration)
                      then result == ResultOf(old(s).outcomes[rc.generation].how) && result != WaitFailure
                          && s == old(s).Release(r)
                      else result == WaitFailure && s == old(s)
    {
      hide State.Inv;
      Basics(s);
      var current := s.current;
      var record := s.threads[current].record;
      if record.Some? {
        FinishFacts(s, record.value);
        ReleaseInv(s, record.value);
        PinsRemove(s.records, record.value, 0);
        ActiveCount(s);
      } else {
        NoteInv(s, 0, WaitFailure, s.nextGeneration, s.pendingArmed, s.pendingDeadline);
      }
      var noted := s.threads[current].blockedResult;
      if noted != WaitSignaled && noted != WaitTimedOut {
        return WaitFailure;
      }
      if record == None {
        s := s.(threads := s.threads[current := s.threads[current].(blockedOn := 0, blockedResult := WaitFailure)]);
        return noted;
      }
      var r := record.value;
      var rc := s.records[r];
      if !rc.valid || !rc.active || !rc.completed || rc.thread != current
         || (noted == WaitSignaled && rc.completion != Object0) || (noted == WaitTimedOut && rc.completion != Timeout)
         || (handle != 0 && DecodeHandle(handle, EventKind) != Reference(rc.objectSlot, rc.objectGeneration)) {
        return WaitFailure;
      }
      s := s.(threads := s.threads[current :=
          s.threads[current].(record := None, blockedOn := 0, blockedResult := WaitFailure)]);
      ReleaseRecord(r);
      return noted;
    }
  }
}
