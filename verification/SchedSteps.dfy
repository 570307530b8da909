/**
 * The remaining elementary changes of scheduler state: registering and finishing waits, event
 * flags, and the birth and death of events, threads and their objects.
 */
module SchedSteps {
  import opened Words
  import opened Handles
  import opened SchedState

  // ---- Registering a wait ----

  ghost predicate CanBlock(s: State, r: nat, e: nat) {
    && s.Inv() && s.busy && r < MAX_THREADS && e < MAX_EVENTS
    && s.threads[s.current].record == None && !s.records[r].valid
    && s.events[e].live && !s.events[e].signaled && s.events[e].objectSlot < MAX_OBJECTS
  }

  lemma BlockThreads(s: State, r: nat, e: nat, armed: bool, deadline: u64, handle: u64)
    requires CanBlock(s, r, e)
    ensures forall t | 0 <= t < MAX_THREADS ::
              s.LeaveBlock(r, e, armed, deadline, handle).ThreadOk(t)
                  && s.LeaveBlock(r, e, armed, deadline, handle).ThreadObjectOk(t)
    ensures s.LeaveBlock(r, e, armed, deadline, handle).QueueOk()
        && s.LeaveBlock(r, e, armed, deadline, handle).FairOk()
  {
    var s' := s.LeaveBlock(r, e, armed, deadline, handle);
    assert s.EventOk(e) && s.ThreadOk(s.current) && s.RecordOk(r);
    forall t | 0 <= t < MAX_THREADS
      ensures s'.ThreadOk(t) && s'.ThreadObjectOk(t)
    {
      assert s.ThreadOk(t) && s.ThreadObjectOk(t);
    }
  }

  lemma BlockRecords(s: State, r: nat, e: nat, armed: bool, deadline: u64, handle: u64)
    requires CanBlock(s, r, e)
    ensures forall q | 0 <= q < MAX_THREADS :: s.LeaveBlock(r, e, armed, deadline, handle).RecordOk(q)
    ensures s.LeaveBlock(r, e, armed, deadline, handle).Tickets()
  {
    var s' := s.LeaveBlock(r, e, armed, deadline, handle);
    assert s.EventOk(e) && s.ThreadOk(s.current) && s.ObjectOk(s.events[e].objectSlot);
    forall q | 0 <= q < MAX_THREADS
      ensures s'.RecordOk(q) && (s.records[q].valid ==> s.records[q].generation < s.nextGeneration)
    {
      assert s.RecordOk(q);
    }
  }

  lemma BlockEvents(s: State, r: nat, e: nat, armed: bool, deadline: u64, handle: u64)
    requires CanBlock(s, r, e)
    ensures forall f | 0 <= f < MAX_EVENTS ::
              s.LeaveBlock(r, e, armed, deadline, handle).EventOk(f)
                  && s.LeaveBlock(r, e, armed, deadline, handle).LedgerOk(f)
  {
    var s' := s.LeaveBlock(r, e, armed, deadline, handle);
    assert s.EventOk(e) && s.RecordOk(r);
    forall f | 0 <= f < MAX_EVENTS
      ensures s'.EventOk(f) && s'.LedgerOk(f)
    {
      assert s.EventOk(f) && s.LedgerOk(f);
    }
  }

  lemma PinsAdd(records: seq<Record>, r: nat, rc: Record, o: nat)
    requires r < |records| && !records[r].valid && rc.valid
    ensures |Pins(records[r := rc], o)| == |Pins(records, o)| + (if rc.objectSlot == o then 1 else 0)
  {
    var before, after := Pins(records, o), Pins(records[r := rc], o);
    assert forall q | q != r :: q in after <==> q in before;
    assert r !in before && (r in after <==> rc.objectSlot == o);
    assert after == if rc.objectSlot == o then before + {r} else before;
  }

  lemma ValidAdd(records: seq<Record>, r: nat, rc: Record)
    requires r < |records| && !records[r].valid && rc.valid
    ensures |ValidRecords(records[r := rc])| == |ValidRecords(records)| + 1
  {
    var before, after := ValidRecords(records), ValidRecords(records[r := rc]);
    assert forall q | q != r :: q in after <==> q in before;
    assert after == before + {r};
  }

  lemma PinsRemove(records: seq<Record>, r: nat, o: nat)
    requires r < |records| && records[r].valid
    ensures |Pins(records[r := NO_RECORD], o)| == |Pins(records, o)| - (if records[r].objectSlot == o then 1 else 0)
    ensures |ValidRecords(records[r := NO_RECORD])| == |ValidRecords(records)| - 1
  {
    assert records[r := NO_RECORD][r := records[r]] == records;
    ValidAdd(records[r := NO_RECORD], r, records[r]);
    PinsAdd(records[r := NO_RECORD], r, records[r], o);
  }

  lemma BlockObjects(s: State, r: nat, e: nat, armed: bool, deadline: u64, handle: u64)
    requires CanBlock(s, r, e)
    ensures forall o | 0 <= o < MAX_OBJECTS :: s.LeaveBlock(r, e, armed, deadline, handle).ObjectOk(o)
    ensures |ValidRecords(s.LeaveBlock(r, e, armed, deadline, handle).records)| == |ValidRecords(s.records)| + 1
  {
    var s' := s.LeaveBlock(r, e, armed, deadline, handle);
    assert s.EventOk(e);
    ValidAdd(s.records, r, s'.records[r]);
    forall o | 0 <= o < MAX_OBJECTS
      ensures s'.ObjectOk(o)
    {
      assert s.ObjectOk(o);
      PinsAdd(s.records, r, s'.records[r], o);
    }
  }

  lemma BlockHistory(s: State, r: nat, e: nat, armed: bool, deadline: u64, handle: u64)
    requires CanBlock(s, r, e)
    ensures var s' := s.LeaveBlock(r, e, armed, deadline, handle);
            History(s'.records, s'.ledgers, s'.registered, s'.outcomes, s'.nextGeneration)
  {
    hide State.QueueOk, State.FairOk, State.ObjectOk, State.ThreadObjectOk, State.LedgerOk, State.ThreadOk;
    var s' := s.LeaveBlock(r, e, armed, deadline, handle);
    forall q | 0 <= q < MAX_THREADS
      ensures TicketOk(s'.records[q], s'.ledgers, s'.registered)
    {
      assert TicketOk(s.records[q], s.ledgers, s.registered);
    }
  }

  lemma LeaveBlockInv(s: State, r: nat, e: nat, armed: bool, deadline: u64, handle: u64)
    requires CanBlock(s, r, e)
    ensures s.LeaveBlock(r, e, armed, deadline, handle).Inv()
  {
    BlockThreads(s, r, e, armed, deadline, handle);
    BlockRecords(s, r, e, armed, deadline, handle);
    BlockEvents(s, r, e, armed, deadline, handle);
    BlockObjects(s, r, e, armed, deadline, handle);
    BlockHistory(s, r, e, armed, deadline, handle);
  }

  // ---- The fixed tables suffice ----

  lemma {:induction false} Range(n: nat) returns (all: set<nat>)
    ensures forall x: nat :: x in all <==> x < n
    ensures |all| == n
  {
    if n == 0 {
      all := {};
    } else {
      all := Range(n - 1);
      all := all + {n - 1};
    }
  }

  /** Distinct values below `n` that avoid `missing < n` number less than `n`. */
  lemma FewerThan(a: set<nat>, n: nat, missing: nat)
    requires missing < n && missing !in a && forall x | x in a :: x < n
    ensures |a| < n
  {
    var all := Range(n);
    assert a + {missing} <= all;
    SubsetSize(a + {missing}, all);
    assert |a + {missing}| == |a| + 1;
  }

  ghost function Elements(s: seq<nat>): set<nat> {
    set x | x in s
  }

  lemma {:induction false} ElementCount(s: seq<nat>)
    requires NoRepeats(s)
    ensures |Elements(s)| == |s|
  {
    if s != [] {
      ElementCount(s[1..]);
      assert Elements(s) == Elements(s[1..]) + {s[0]};
    }
  }

  /** The threads that own the records of a set are as many as the records. */
  lemma {:induction false} OwnersCount(s: State, rs: set<nat>)
    requires s.Inv() && rs <= ValidRecords(s.records)
    ensures |set r | r in rs :: s.records[r].thread| == |rs|
    decreases |rs|
  {
    if rs != {} {
      var r :| r in rs;
      var rest := rs - {r};
      OwnersCount(s, rest);
      assert (set q | q in rs :: s.records[q].thread)
          == (set q | q in rest :: s.records[q].thread) + {s.records[r].thread};
      assert s.RecordOk(r);
      forall q | q in rest
        ensures s.records[q].thread != s.records[r].thread
      {
        assert s.RecordOk(q);
      }
    }
  }

  /** A thread without a record finds a free one: every valid record belongs to another thread. */
  lemma RecordIsFree(s: State, t: nat)
    requires s.Inv() && t < MAX_THREADS && s.threads[t].record == None
    ensures exists r :: 0 <= r < MAX_THREADS && !s.records[r].valid
  {
    var rs := ValidRecords(s.records);
    var owners := set r | r in rs :: s.records[r].thread;
    OwnersCount(s, rs);
    forall x | x in owners
      ensures x < MAX_THREADS && x != t
    {
      var r :| r in rs && s.records[r].thread == x;
      assert s.RecordOk(r);
    }
    FewerThan(owners, MAX_THREADS, t);
    var all := Range(MAX_THREADS);
    if rs == all {
      assert false;
    } else {
      assert exists r :: r in all && r !in rs;
    }
  }

  /** add_waiter never refuses: the new record is not among the waiters and there are few enough. */
  lemma WaiterFits(s: State, e: nat, r: nat)
    requires s.Inv() && e < MAX_EVENTS && r < MAX_THREADS && !s.records[r].valid
    ensures |s.events[e].waiters| < MAX_THREADS
    ensures forall i | 0 <= i < |s.events[e].waiters| :: s.events[e].waiters[i] != r
  {
    var waiters := s.events[e].waiters;
    assert s.EventOk(e);
    ElementCount(waiters);
    FewerThan(Elements(waiters), MAX_THREADS, r);
  }

  /** enqueue_runnable never refuses a thread that is not queued. */
  lemma QueueFits(s: State, t: nat)
    requires s.Inv() && t < MAX_THREADS && t !in s.queue
    ensures |s.queue| < MAX_THREADS
  {
    ElementCount(s.queue);
    FewerThan(Elements(s.queue), MAX_THREADS, t);
  }

  // ---- Finishing a wait ----

  ghost predicate CanFinish(s: State, r: nat) {
    && s.Inv() && s.busy && r < MAX_THREADS && s.threads[s.current].record == Some(r)
    && s.records[r].objectSlot < MAX_OBJECTS && s.objects[s.records[r].objectSlot].internalRefs > 0
  }

  /** The running thread's record is completed and its pin is held. */
  lemma FinishFacts(s: State, r: nat)
    requires s.Inv() && s.busy && s.threads[s.current].record == Some(r)
    ensures CanFinish(s, r) && s.RecordOk(r) && s.records[r].thread == s.current && s.records[r].valid
    ensures s.records[r].completed && s.records[r].generation in s.outcomes
    ensures s.outcomes[s.records[r].generation].how == s.records[r].completion != Pending
    ensures s.threads[s.current].blockedResult == ResultOf(s.records[r].completion)
  {
    assert s.ThreadOk(s.current) && s.RecordOk(r);
    assert s.EventOk(s.records[r].event);
    assert s.ObjectOk(s.records[r].objectSlot);
  }

  lemma ReleaseThreads(s: State, r: nat)
    requires CanFinish(s, r)
    ensures forall t | 0 <= t < MAX_THREADS :: s.Release(r).ThreadOk(t) && s.Release(r).ThreadObjectOk(t)
    ensures s.Release(r).QueueOk() && s.Release(r).FairOk()
  {
    assert s.ThreadOk(s.current);
    forall t | 0 <= t < MAX_THREADS
      ensures s.Release(r).ThreadOk(t) && s.Release(r).ThreadObjectOk(t)
    {
      assert s.ThreadOk(t) && s.ThreadObjectOk(t);
    }
  }

  lemma ReleaseRecords(s: State, r: nat)
    requires CanFinish(s, r)
    ensures forall q | 0 <= q < MAX_THREADS :: s.Release(r).RecordOk(q)
    ensures s.Release(r).Tickets()
    ensures forall f | 0 <= f < MAX_EVENTS :: s.Release(r).EventOk(f) && s.Release(r).LedgerOk(f)
  {
    var s' := s.Release(r);
    assert s.ThreadOk(s.current) && s.RecordOk(r);
    forall q | 0 <= q < MAX_THREADS
      ensures s'.RecordOk(q)
    {
      assert s.RecordOk(q);
    }
    forall f | 0 <= f < MAX_EVENTS
      ensures s'.EventOk(f) && s'.LedgerOk(f)
    {
      assert s.EventOk(f) && s.LedgerOk(f);
    }
  }

  lemma ReleaseObjects(s: State, r: nat)
    requires CanFinish(s, r)
    ensures forall o | 0 <= o < MAX_OBJECTS :: s.Release(r).ObjectOk(o)
    ensures |ValidRecords(s.Release(r).records)| == |ValidRecords(s.records)| - 1
  {
    var s' := s.Release(r);
    assert s.ThreadOk(s.current) && s.RecordOk(r) && s.EventOk(s.records[r].event);
    PinsRemove(s.records, r, 0);
    forall o | 0 <= o < MAX_OBJECTS
      ensures s'.ObjectOk(o)
    {
      assert s.ObjectOk(o);
      PinsRemove(s.records, r, o);
    }
  }

  lemma ReleaseHistory(s: State, r: nat)
    requires CanFinish(s, r)
    ensures History(s.Release(r).records, s.ledgers, s.registered, s.outcomes, s.nextGeneration)
  {
    var s' := s.Release(r);
    forall q | 0 <= q < MAX_THREADS
      ensures TicketOk(s'.records[q], s.ledgers, s.registered)
    {
      assert TicketOk(s.records[q], s.ledgers, s.registered);
    }
  }

  lemma ReleaseInv(s: State, r: nat)
    requires CanFinish(s, r)
    ensures s.Release(r).Inv()
  {
    ReleaseThreads(s, r);
    ReleaseRecords(s, r);
    ReleaseObjects(s, r);
    ReleaseHistory(s, r);
  }

  // ---- Event flags ----

  function SetFlag(s: State, e: nat, signaled: bool): State
    requires e < |s.events|
  {
    s.(events := s.events[e := s.events[e].(signaled := signaled)])
  }

  /** History: one more signal call on event `e`. */
  function CountSignal(s: State, e: nat): State
    requires e < |s.ledgers|
  {
    s.(ledgers := s.ledgers[e := s.ledgers[e].(signals := s.ledgers[e].signals + 1)])
  }

  /** A wait satisfied at once: an auto-reset event loses its signal. */
  function TakeToken(s: State, e: nat): State
    requires e < |s.events| && e < |s.ledgers|
  {
    SetFlag(s, e, s.events[e].manualReset && s.events[e].signaled).(ledgers := s.Satisfy(e))
  }

  /** More signals, or the ledger of an event that no wait refers to, leave every wait explained. */
  lemma LedgerHistory(s: State, ledgers: seq<Ledger>, e: nat)
    requires s.Inv() && e < MAX_EVENTS && |ledgers| == MAX_EVENTS
    requires forall f | 0 <= f < MAX_EVENTS && f != e :: ledgers[f] == s.ledgers[f]
    requires ledgers[e].signals >= s.ledgers[e].signals || !s.events[e].live
    ensures History(s.records, ledgers, s.registered, s.outcomes, s.nextGeneration)
  {
    forall r | 0 <= r < MAX_THREADS
      ensures TicketOk(s.records[r], ledgers, s.registered)
    {
      assert s.RecordOk(r) && TicketOk(s.records[r], s.ledgers, s.registered);
    }
  }

  /** Changing the flag and the ledger of one event touches no other part of the invariant. */
  lemma EventRecordInv(s: State, s': State, e: nat)
    requires s.Inv() && e < MAX_EVENTS && |s'.events| == |s'.ledgers| == MAX_EVENTS
    requires s' == s.(events := s'.events, ledgers := s'.ledgers)
    requires forall f | 0 <= f < MAX_EVENTS && f != e :: s'.events[f] == s.events[f] && s'.ledgers[f] == s.ledgers[f]
    requires s'.events[e] == s.events[e].(signaled := s'.events[e].signaled)
    requires s'.events[e].signaled ==> s.events[e].waiters == []
    requires s'.LedgerOk(e) && s'.ledgers[e].signals >= s.ledgers[e].signals
    ensures s'.Inv()
  {
    hide History;
    LedgerHistory(s, s'.ledgers, e);
    forall t | 0 <= t < MAX_THREADS
      ensures s'.ThreadOk(t) && s'.ThreadObjectOk(t) && s'.RecordOk(t)
    {
      assert s.ThreadOk(t) && s.ThreadObjectOk(t) && s.RecordOk(t);
    }
    forall f | 0 <= f < MAX_EVENTS
      ensures s'.EventOk(f) && s'.LedgerOk(f)
    {
      assert s.EventOk(f) && s.LedgerOk(f);
    }
    forall o | 0 <= o < MAX_OBJECTS
      ensures s'.ObjectOk(o)
    {
      assert s.ObjectOk(o);
    }
  }

  // ---- Objects: birth, closing and death ----

  function BornObject(ob: Object, kind: Kind, target: nat): Object {
    Object(true, kind, false, NextGeneration(ob.generation), 1, 1, target, ob.births + 1)
  }

  /** release_object_record keeps the generation. */
  function DeadObject(ob: Object): Object {
    Object(false, NoKind, false, ob.generation, 0, 0, 0, ob.births)
  }

  function BirthEvent(s: State, e: nat, o: nat, manualReset: bool, signaled: bool): State
    requires e < |s.events| && o < |s.objects| && e < |s.ledgers|
  {
    var ob := BornObject(s.objects[o], EventKind, e);
    s.(events := s.events[e := Event(true, manualReset, signaled, ob.generation, o, [])],
       objects := s.objects[o := ob],
       ledgers := s.ledgers[e := Ledger(if signaled then 1 else 0, 0, 0)])
  }

  function BirthThread(s: State, t: nat, o: nat): State
    requires t < |s.threads| && o < |s.objects|
  {
    var ob := BornObject(s.objects[o], ThreadKind, t);
    s.(threads := s.threads[t :=
        Thread(true, false, ob.generation, o, Suspended, false, 1, 1, 1, 0, WaitFailure, None)],
       objects := s.objects[o := ob])
  }

  /** An object allocated and released again: only its generation has moved on. */
  function Burn(s: State, o: nat): State
    requires o < |s.objects|
  {
    s.(objects := s.objects[o := DeadObject(BornObject(s.objects[o], NoKind, 0))])
  }

  function CloseObject(s: State, o: nat): State
    requires o < |s.objects| && s.objects[o].publicRefs > 0
    requires s.objects[o].kind == ThreadKind ==> s.objects[o].target < |s.threads|
  {
    var ob := s.objects[o];
    var closed := s.(objects := s.objects[o := ob.(publicRefs := ob.publicRefs - 1, closed := true)]);
    if ob.kind != ThreadKind then closed else
    var th := s.threads[ob.target];
    closed.(threads := s.threads[ob.target := th.(publicRefs := if th.publicRefs == 0 then 0 else th.publicRefs - 1)])
  }

  function DropEvent(s: State, e: nat, o: nat): State
    requires e < |s.events| && o < |s.objects|
  {
    s.(events := s.events[e := s.events[e].(live := false)], objects := s.objects[o := DeadObject(s.objects[o])])
  }

  function Reap(s: State, t: nat): State
    requires t < |s.threads| && s.threads[t].objectSlot < |s.objects|
  {
    var o := s.threads[t].objectSlot;
    s.(threads := s.threads[t := NO_THREAD], objects := s.objects[o := DeadObject(s.objects[o])])
  }

  /** A created or queued thread that will not run is made TERMINATED. */
  function Retire(s: State, t: nat): State
    requires t < |s.threads| && t < |s.gone|
  {
    s.(threads := s.threads[t := s.threads[t].(phase := Terminated, queued := false, executionRefs := 0)],
       queue := Without(s.queue, t), gone := s.gone[t := s.gone[t] + 1])
  }

  lemma DeadObjectUnpinned(s: State, o: nat)
    requires s.Inv() && o < MAX_OBJECTS && !s.objects[o].live
    ensures Pins(s.records, o) == {}
  {
    forall r | 0 <= r < MAX_THREADS
      ensures r !in Pins(s.records, o)
    {
      assert s.RecordOk(r);
      if s.records[r].valid {
        assert s.EventOk(s.records[r].event);
      }
    }
  }

  lemma ClearEventInv(s: State, e: nat)
    requires s.Inv() && e < MAX_EVENTS && !s.events[e].live
    ensures s.(events := s.events[e := NO_EVENT]).Inv()
  {
    var s' := s.(events := s.events[e := NO_EVENT]);
    assert s.EventOk(e);
    forall t | 0 <= t < MAX_THREADS
      ensures s'.ThreadOk(t) && s'.ThreadObjectOk(t) && s'.RecordOk(t)
    {
      assert s.ThreadOk(t) && s.ThreadObjectOk(t) && s.RecordOk(t);
    }
    forall f | 0 <= f < MAX_EVENTS
      ensures s'.EventOk(f) && s'.LedgerOk(f)
    {
      assert s.EventOk(f) && s.LedgerOk(f);
    }
    forall p | 0 <= p < MAX_OBJECTS
      ensures s'.ObjectOk(p)
    {
      assert s.ObjectOk(p);
    }
  }

  /** A change that makes no thread runnable and stops none leaves the queue in order. */
  lemma QueueStays(s: State, s': State)
    requires s.Inv() && s'.Sized() && s'.queue == s.queue && s'.since == s.since && s'.ran == s.ran
    requires s'.switches == s.switches && s'.current == s.current
    requires forall t | 0 <= t < MAX_THREADS ::
               (s'.threads[t].live && s'.threads[t].phase == Runnable
                <==> s.threads[t].live && s.threads[t].phase == Runnable)
    ensures s'.QueueOk() && s'.FairOk()
  {
    hide State.ThreadOk, State.RecordOk, State.EventOk, State.ObjectOk, State.ThreadObjectOk, State.LedgerOk;
  }

  lemma BirthEventInv(s: State, e: nat, o: nat, manualReset: bool, signaled: bool)
    requires s.Inv() && e < MAX_EVENTS && o < MAX_OBJECTS && !s.events[e].live && !s.objects[o].live
    ensures BirthEvent(s, e, o, manualReset, signaled).Inv()
  {
    hide State.QueueOk, State.FairOk, History;
    var s' := BirthEvent(s, e, o, manualReset, signaled);
    LedgerHistory(s, s'.ledgers, e);
    QueueStays(s, s');
    DeadObjectUnpinned(s, o);
    GenerationStep(s.objects[o].births);
    assert s.ObjectOk(o) && s.EventOk(e);
    forall t | 0 <= t < MAX_THREADS
      ensures s'.ThreadOk(t) && s'.ThreadObjectOk(t) && s'.RecordOk(t)
    {
      assert s.ThreadOk(t) && s.ThreadObjectOk(t) && s.RecordOk(t);
      if s.records[t].valid {
        assert s.EventOk(s.records[t].event);
      }
    }
    forall f | 0 <= f < MAX_EVENTS
      ensures s'.EventOk(f) && s'.LedgerOk(f)
    {
      assert s.EventOk(f) && s.LedgerOk(f);
    }
    forall p | 0 <= p < MAX_OBJECTS
      ensures s'.ObjectOk(p)
    {
      assert s.ObjectOk(p);
    }
  }

  lemma DeadIsEmpty(s: State, t: nat)
    requires s.Inv() && t < MAX_THREADS && !s.threads[t].live
    ensures s.threads[t] == NO_THREAD
  {
    assert s.ThreadOk(t);
  }

  lemma BirthThreadInv(s: State, t: nat, o: nat)
    requires s.Inv() && t < MAX_THREADS && o < MAX_OBJECTS && !s.threads[t].live && !s.objects[o].live
    ensures BirthThread(s, t, o).Inv()
  {
    hide State.QueueOk, State.FairOk;
    var s' := BirthThread(s, t, o);
    DeadIsEmpty(s, t);
    QueueStays(s, s');
    GenerationStep(s.objects[o].births);
    assert s.ObjectOk(o) && s.ThreadOk(t);
    forall u | 0 <= u < MAX_THREADS
      ensures s'.ThreadOk(u) && s'.ThreadObjectOk(u) && s'.RecordOk(u)
    {
      assert s.ThreadOk(u) && s.ThreadObjectOk(u) && s.RecordOk(u);
    }
    forall f | 0 <= f < MAX_EVENTS
      ensures s'.EventOk(f) && s'.LedgerOk(f)
    {
      assert s.EventOk(f) && s.LedgerOk(f);
    }
    forall p | 0 <= p < MAX_OBJECTS
      ensures s'.ObjectOk(p)
    {
      assert s.ObjectOk(p);
    }
  }

  lemma BurnInv(s: State, o: nat)
    requires s.Inv() && o < MAX_OBJECTS && !s.objects[o].live
    ensures Burn(s, o).Inv()
  {
    var s' := Burn(s, o);
    GenerationStep(s.objects[o].births);
    assert s.ObjectOk(o);
    forall u | 0 <= u < MAX_THREADS
      ensures s'.ThreadOk(u) && s'.ThreadObjectOk(u) && s'.RecordOk(u)
    {
      assert s.ThreadOk(u) && s.ThreadObjectOk(u) && s.RecordOk(u);
    }
    forall f | 0 <= f < MAX_EVENTS
      ensures s'.EventOk(f) && s'.LedgerOk(f)
    {
      assert s.EventOk(f) && s.LedgerOk(f);
    }
    forall p | 0 <= p < MAX_OBJECTS
      ensures s'.ObjectOk(p)
    {
      assert s.ObjectOk(p);
    }
  }

  lemma CloseObjectObjects(s: State, o: nat)
    requires s.Inv() && o < MAX_OBJECTS && s.objects[o].live && s.objects[o].publicRefs > 0
    requires s.objects[o].kind == ThreadKind ==> s.objects[o].target < MAX_THREADS
    ensures forall p | 0 <= p < MAX_OBJECTS :: CloseObject(s, o).ObjectOk(p)
  {
    hide State.QueueOk, State.FairOk, State.ThreadOk, State.ThreadObjectOk, State.LedgerOk, State.EventOk,
      State.RecordOk;
    assert s.ObjectOk(o);
    forall p | 0 <= p < MAX_OBJECTS
      ensures CloseObject(s, o).ObjectOk(p)
    {
      assert s.ObjectOk(p);
    }
  }

  lemma CloseObjectInv(s: State, o: nat)
    requires s.Inv() && o < MAX_OBJECTS && s.objects[o].live && s.objects[o].publicRefs > 0
    requires s.objects[o].kind == ThreadKind ==> s.objects[o].target < MAX_THREADS
    ensures CloseObject(s, o).Inv()
  {
    hide State.ObjectOk;
    CloseObjectObjects(s, o);
    var s' := CloseObject(s, o);
    forall u | 0 <= u < MAX_THREADS
      ensures s'.ThreadOk(u) && s'.ThreadObjectOk(u) && s'.RecordOk(u)
    {
      assert s.ThreadOk(u) && s.ThreadObjectOk(u) && s.RecordOk(u);
    }
    forall f | 0 <= f < MAX_EVENTS
      ensures s'.EventOk(f) && s'.LedgerOk(f)
    {
      assert s.EventOk(f) && s.LedgerOk(f);
    }
  }

  /** An event without pins has no wait record, finished or not. */
  lemma UnpinnedEvent(s: State, e: nat, o: nat, r: nat)
    requires s.Inv() && e < MAX_EVENTS && o < MAX_OBJECTS && s.objects[o].live && r < MAX_THREADS
    requires s.objects[o].kind == EventKind && s.objects[o].target == e && s.objects[o].internalRefs <= 1
    ensures s.records[r].valid ==> s.records[r].event != e && s.records[r].objectSlot != o
  {
    assert s.ObjectOk(o) && s.RecordOk(r);
    assert Pins(s.records, o) == {};
    assert r !in Pins(s.records, o);
  }

  lemma DropEventInv(s: State, e: nat, o: nat)
    requires s.Inv() && e < MAX_EVENTS && o < MAX_OBJECTS && s.objects[o].live
    requires s.objects[o].kind == EventKind && s.objects[o].target == e && s.objects[o].internalRefs <= 1
    requires s.events[e].waiters == []
    ensures DropEvent(s, e, o).Inv()
  {
    var s' := DropEvent(s, e, o);
    assert s.ObjectOk(o) && s.EventOk(e);
    forall u | 0 <= u < MAX_THREADS
      ensures s'.ThreadOk(u) && s'.ThreadObjectOk(u) && s'.RecordOk(u)
    {
      UnpinnedEvent(s, e, o, u);
      assert s.ThreadOk(u) && s.ThreadObjectOk(u) && s.RecordOk(u);
    }
    forall f | 0 <= f < MAX_EVENTS
      ensures s'.EventOk(f) && s'.LedgerOk(f)
    {
      assert s.EventOk(f) && s.LedgerOk(f);
    }
    forall p | 0 <= p < MAX_OBJECTS
      ensures s'.ObjectOk(p)
    {
      assert s.ObjectOk(p);
    }
  }

  lemma BootIsAlive(s: State)
    requires s.Inv()
    ensures s.threads[0].live && s.threads[0].phase != Terminated
  {
    assert s.ThreadOk(0);
  }

  lemma ReapInv(s: State, t: nat)
    requires s.Inv() && t < MAX_THREADS && s.threads[t].live && s.threads[t].phase == Terminated
    requires t != s.current && s.threads[t].objectSlot < MAX_OBJECTS
    ensures Reap(s, t).Inv()
  {
    hide State.QueueOk, State.FairOk;
    var s' := Reap(s, t);
    var o := s.threads[t].objectSlot;
    BootIsAlive(s);
    QueueStays(s, s');
    assert s.ThreadOk(t) && s.ThreadObjectOk(t) && s.ObjectOk(o);
    forall u | 0 <= u < MAX_THREADS
      ensures s'.ThreadOk(u) && s'.ThreadObjectOk(u) && s'.RecordOk(u)
    {
      assert s.ThreadOk(u) && s.ThreadObjectOk(u) && s.RecordOk(u);
    }
    forall f | 0 <= f < MAX_EVENTS
      ensures s'.EventOk(f) && s'.LedgerOk(f)
    {
      assert s.EventOk(f) && s.LedgerOk(f);
    }
    forall p | 0 <= p < MAX_OBJECTS
      ensures s'.ObjectOk(p)
    {
      assert s.ObjectOk(p);
    }
  }

  lemma RetireQueue(s: State, t: nat)
    requires s.Inv() && t < MAX_THREADS && t != s.current
    ensures Retire(s, t).Sized() && Retire(s, t).QueueOk() && Retire(s, t).FairOk()
  {
    hide State.ThreadOk, State.RecordOk, State.EventOk, State.ObjectOk, State.ThreadObjectOk, State.LedgerOk;
    WithoutMembers(s.queue, t);
  }

  lemma RetireInv(s: State, t: nat)
    requires s.Inv() && 0 < t < MAX_THREADS && s.threads[t].live && t != s.current && s.threads[t].record == None
    ensures Retire(s, t).Inv()
  {
    hide State.QueueOk, State.FairOk;
    RetireQueue(s, t);
    var s' := Retire(s, t);
    assert s.ThreadOk(t);
    forall u | 0 <= u < MAX_THREADS
      ensures s'.ThreadOk(u) && s'.ThreadObjectOk(u) && s'.RecordOk(u)
    {
      assert s.ThreadOk(u) && s.ThreadObjectOk(u) && s.RecordOk(u);
    }
    forall f | 0 <= f < MAX_EVENTS
      ensures s'.EventOk(f) && s'.LedgerOk(f)
    {
      assert s.EventOk(f) && s.LedgerOk(f);
    }
    forall p | 0 <= p < MAX_OBJECTS
      ensures s'.ObjectOk(p)
    {
      assert s.ObjectOk(p);
    }
  }

  lemma ResumeQueue(s: State, t: nat)
    requires s.Inv() && t < MAX_THREADS && s.threads[t].live && s.threads[t].phase == Suspended
    ensures s.Enqueue(t).Sized() && s.Enqueue(t).QueueOk() && s.Enqueue(t).FairOk()
  {
    hide State.ThreadOk, State.RecordOk, State.EventOk, State.ObjectOk, State.ThreadObjectOk, State.LedgerOk;
  }

  lemma ResumeInv(s: State, t: nat)
    requires s.Inv() && t < MAX_THREADS && s.threads[t].live && s.threads[t].phase == Suspended
    ensures s.Enqueue(t).Inv()
  {
    hide State.QueueOk, State.FairOk;
    ResumeQueue(s, t);
    var s' := s.Enqueue(t);
    assert s.ThreadOk(t);
    forall u | 0 <= u < MAX_THREADS
      ensures s'.ThreadOk(u) && s'.ThreadObjectOk(u) && s'.RecordOk(u)
    {
      assert s.ThreadOk(u) && s.ThreadObjectOk(u) && s.RecordOk(u);
    }
    forall f | 0 <= f < MAX_EVENTS
      ensures s'.EventOk(f) && s'.LedgerOk(f)
    {
      assert s.EventOk(f) && s.LedgerOk(f);
    }
    forall p | 0 <= p < MAX_OBJECTS
      ensures s'.ObjectOk(p)
    {
      assert s.ObjectOk(p);
    }
  }
}
