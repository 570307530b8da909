/**
 * The state of the cooperative scheduler and its invariant.
 *
 * Pointers between tables are table indices. Fields listed under "history" do not exist in the
 * program; they record the past so that properties of whole runs can be stated on one state:
 * whether a thread is RUNNING, the number of switches, the switch count at which a thread was last
 * queued and last dispatched, how often a slot lost a queued or suspended thread, the latest clock
 * reading that timeouts were serviced with, what every wait was registered with and how it was
 * completed, and the signals and satisfied waits of every event.
 */
module SchedState {
  import opened Words
  import opened Handles

  const MAX_THREADS: nat := 6
  const MAX_EVENTS: nat := 12

  datatype Phase = Free | Suspended | Runnable | Running | Blocked | Terminated

  datatype WaitResult = WaitFailure | WaitBlocked | WaitSignaled | WaitTimedOut

  /** completion_result: WAIT_FAILED while waiting, then WAIT_OBJECT_0 or WAIT_TIMEOUT. */
  datatype Completion = Pending | Object0 | Timeout

  datatype Thread = Thread(live: bool, isBoot: bool, generation: nat, objectSlot: nat, phase: Phase, queued: bool,
                           suspendCount: nat, publicRefs: nat, executionRefs: nat, blockedOn: u64,
                           blockedResult: WaitResult, record: Option<nat>)

  datatype Event = Event(live: bool, manualReset: bool, signaled: bool, generation: nat, objectSlot: nat,
                         waiters: seq<nat>)

  datatype Record = Record(valid: bool, active: bool, completed: bool, linked: bool, pinHeld: bool, armed: bool,
                           generation: nat, objectSlot: nat, objectGeneration: nat, waiterIndex: nat,
                           completion: Completion, deadline: u64, thread: nat, event: nat)

  datatype Object = Object(live: bool, kind: Kind, closed: bool, generation: nat, publicRefs: nat, internalRefs: nat,
                           target: nat, births: nat)

  /** History of one event: was it created signaled, how often signaled, how many waits it satisfied. */
  datatype Ledger = Ledger(initial: nat, signals: nat, satisfied: nat)

  /**
   * History of one registered wait, under its generation: the event, the armed deadline, and how often
   * the event had been signaled by then.
   */
  datatype Ticket = Ticket(event: nat, eventGeneration: nat, armed: bool, deadline: u64, signals: nat)

  /** History of one completed wait: how, the latest clock reading, and the signals of the event so far. */
  datatype Outcome = Outcome(how: Completion, reading: u64, signals: nat)

  /** A timeout came at or after the armed deadline; a signal came after the wait was registered. */
  ghost predicate Explained(t: Ticket, o: Outcome) {
    && o.how != Pending
    && (o.how == Timeout ==> t.armed && t.deadline <= o.reading)
    && (o.how == Object0 ==> t.signals < o.signals)
  }

  ghost predicate TicketOk(rc: Record, ledgers: seq<Ledger>, registered: map<nat, Ticket>) {
    rc.valid ==>
      && rc.generation in registered && rc.event < |ledgers|
      && var t := registered[rc.generation];
      && t.event == rc.event && t.eventGeneration == rc.objectGeneration
      && t.armed == rc.armed && t.deadline == rc.deadline && t.signals <= ledgers[rc.event].signals
  }

  /** Every wait has its ticket, and every outcome is explained by the ticket. */
  ghost predicate History(records: seq<Record>, ledgers: seq<Ledger>, registered: map<nat, Ticket>,
                          outcomes: map<nat, Outcome>, nextGeneration: nat)
  {
    && (forall r | 0 <= r < |records| :: TicketOk(records[r], ledgers, registered))
    && (forall g | g in registered :: g < nextGeneration)
    && (forall g | g in outcomes :: g in registered && Explained(registered[g], outcomes[g]))
  }

  const NO_THREAD: Thread := Thread(false, false, 0, 0, Free, false, 0, 0, 0, 0, WaitFailure, None)
  const NO_EVENT: Event := Event(false, false, false, 0, 0, [])
  const NO_RECORD: Record := Record(false, false, false, false, false, false, 0, 0, 0, 0, Pending, 0, 0, 0)
  const NO_INDEX: nat := 0xFFFF_FFFF

  function ResultOf(how: Completion): WaitResult {
    match how
    case Pending => WaitFailure
    case Object0 => WaitSignaled
    case Timeout => WaitTimedOut
  }

  /** How many slots round-robin selection moves on from `from` to reach `to`. */
  function Distance(from: nat, to: nat): nat
    requires from < MAX_THREADS && to < MAX_THREADS
  {
    if to > from then to - from else to + MAX_THREADS - from
  }

  function Without(s: seq<nat>, x: nat): seq<nat> {
    if s == [] then [] else if s[0] == x then s[1..] else [s[0]] + Without(s[1..], x)
  }

  lemma {:induction false} WithoutMembers(s: seq<nat>, x: nat)
    requires NoRepeats(s)
    ensures NoRepeats(Without(s, x))
    ensures forall y :: y in Without(s, x) <==> y in s && y != x
    ensures |Without(s, x)| <= |s|
  {
    if s != [] && s[0] != x {
      WithoutMembers(s[1..], x);
      assert forall y :: y in s <==> y == s[0] || y in s[1..];
      assert s[0] !in s[1..];
    } else if s != [] {
      assert forall y :: y in s <==> y == s[0] || y in s[1..];
    }
  }

  ghost function ValidRecords(records: seq<Record>): set<nat> {
    set r | 0 <= r < |records| && records[r].valid
  }

  /** The wait records that pin an object. */
  ghost function Pins(records: seq<Record>, slot: nat): set<nat> {
    set r | 0 <= r < |records| && records[r].valid && records[r].objectSlot == slot
  }

  datatype State = State(
    threads: seq<Thread>, records: seq<Record>, events: seq<Event>, objects: seq<Object>,
    queue: seq<nat>, current: nat, activeWaits: int, nextGeneration: nat,
    pendingArmed: bool, pendingDeadline: u64,
    // history
    busy: bool, switches: nat, since: seq<nat>, ran: seq<nat>, gone: seq<nat>, clock: u64,
    registered: map<nat, Ticket>, outcomes: map<nat, Outcome>, ledgers: seq<Ledger>)
  {
    ghost predicate Sized()
    {
      && |threads| == |records| == |since| == |ran| == |gone| == MAX_THREADS
      && |events| == |ledgers| == MAX_EVENTS && |objects| == MAX_OBJECTS
      && current < MAX_THREADS && threads[0].live && threads[current].live
    }

    /** A thread and its wait: blocked exactly while its one record is linked. */
    ghost predicate ThreadOk(t: nat)
      requires Sized() && t < MAX_THREADS
    {
      var th := threads[t];
      if !th.live then th == NO_THREAD else
        && th.phase != Free && (th.phase == Running <==> busy && t == current)
        && (th.queued <==> th.phase == Runnable) && (th.isBoot <==> t == 0)
        && (th.phase != Terminated ==> th.suspendCount == (if th.phase == Suspended then 1 else 0))
        && th.executionRefs == (if th.phase == Terminated then 0 else 1) && (t == 0 ==> th.phase != Terminated)
        && th.objectSlot < MAX_OBJECTS
        && match th.record
           case None => th.phase != Blocked
           case Some(r) =>
             && r < MAX_THREADS && records[r].valid && records[r].thread == t
             && (th.phase == Blocked <==> records[r].linked)
             && (th.phase == Blocked || th.phase == Runnable || th.phase == Running)
    }

    ghost predicate QueueOk()
      requires Sized()
    {
      && NoRepeats(queue)
      && forall t :: t in queue <==> 0 <= t < MAX_THREADS && threads[t].live && threads[t].phase == Runnable
    }

    ghost predicate RecordOk(r: nat)
      requires Sized() && r < MAX_THREADS
    {
      var rc := records[r];
      if !rc.valid then rc == NO_RECORD else
        && rc.active && rc.pinHeld && rc.completed == !rc.linked
        && rc.thread < MAX_THREADS && threads[rc.thread].live && threads[rc.thread].record == Some(r)
        && threads[rc.thread].blockedResult == ResultOf(rc.completion)
        && rc.event < MAX_EVENTS && events[rc.event].live
        && rc.objectSlot == events[rc.event].objectSlot && rc.objectGeneration == events[rc.event].generation
        && rc.generation < nextGeneration
        && (rc.linked ==>
              && rc.completion == Pending && rc.generation !in outcomes
              && rc.waiterIndex < |events[rc.event].waiters| && events[rc.event].waiters[rc.waiterIndex] == r)
        && (!rc.linked ==>
              && rc.completion != Pending && rc.generation in outcomes && outcomes[rc.generation].how == rc.completion
              && (rc.completion == Timeout ==> rc.armed))
    }

    ghost predicate Tickets()
      requires Sized()
    {
      forall r, q | 0 <= r < q < MAX_THREADS && records[r].valid && records[q].valid ::
        records[r].generation != records[q].generation
    }

    /** No event is both signaled and waited on; a waiter sits at its recorded index. */
    ghost predicate EventOk(e: nat)
      requires Sized() && e < MAX_EVENTS
    {
      var ev := events[e];
      && (ev.signaled || !ev.live ==> ev.waiters == [])
      && (forall i | 0 <= i < |ev.waiters| ::
            && ev.waiters[i] < MAX_THREADS && records[ev.waiters[i]].valid && records[ev.waiters[i]].linked
            && records[ev.waiters[i]].event == e && records[ev.waiters[i]].waiterIndex == i)
      && (ev.live ==>
            && ev.objectSlot < MAX_OBJECTS && objects[ev.objectSlot].live
            && objects[ev.objectSlot].kind == EventKind && objects[ev.objectSlot].target == e)
    }

    ghost predicate ObjectOk(o: nat)
      requires Sized() && o < MAX_OBJECTS
    {
      var ob := objects[o];
      && ob.generation == GenerationOf(ob.births)
      && if !ob.live then ob.publicRefs == 0 && ob.kind == NoKind else
         && ob.births > 0 && ob.publicRefs <= 1
         && match ob.kind
            case NoKind => false
            case ThreadKind =>
              && ob.target < MAX_THREADS && threads[ob.target].live && threads[ob.target].objectSlot == o
              && threads[ob.target].generation == ob.generation && threads[ob.target].publicRefs == ob.publicRefs
              && ob.internalRefs == 1
            case EventKind =>
              && ob.target < MAX_EVENTS && events[ob.target].live && events[ob.target].objectSlot == o
              && events[ob.target].generation == ob.generation
              && ob.internalRefs == 1 + |Pins(records, o)|
    }

    ghost predicate ThreadObjectOk(t: nat)
      requires Sized() && t < MAX_THREADS
    {
      threads[t].live ==>
        && threads[t].objectSlot < MAX_OBJECTS && objects[threads[t].objectSlot].live
        && objects[threads[t].objectSlot].kind == ThreadKind && objects[threads[t].objectSlot].target == t
    }

    /** A queued thread is dispatched before the switch counter has moved on by MAX_THREADS. */
    ghost predicate FairOk()
      requires Sized() && QueueOk()
    {
      && (forall t | t in queue :: since[t] <= switches && switches - since[t] + Distance(current, t) <= MAX_THREADS)
      && forall t | 0 <= t < MAX_THREADS :: ran[t] <= switches
    }

    /** An auto-reset event satisfies no more waits than it was given signals. */
    ghost predicate LedgerOk(e: nat)
      requires Sized() && e < MAX_EVENTS
    {
      events[e].live && !events[e].manualReset ==>
        ledgers[e].satisfied + (if events[e].signaled then 1 else 0) <= ledgers[e].initial + ledgers[e].signals
    }

    ghost predicate Inv()
    {
      && Sized() && QueueOk()
      && (forall t | 0 <= t < MAX_THREADS :: ThreadOk(t))
      && (forall r | 0 <= r < MAX_THREADS :: RecordOk(r))
      && Tickets()
      && (forall e | 0 <= e < MAX_EVENTS :: EventOk(e))
      && (forall o | 0 <= o < MAX_OBJECTS :: ObjectOk(o))
      && (forall t | 0 <= t < MAX_THREADS :: ThreadObjectOk(t))
      && activeWaits == |ValidRecords(records)|
      && History(records, ledgers, registered, outcomes, nextGeneration)
      && FairOk()
      && (forall e | 0 <= e < MAX_EVENTS :: LedgerOk(e))
    }

    // ---- Elementary updates ----

    /** enqueue_runnable of a thread that has just become RUNNABLE */
    function Enqueue(t: nat): State
      requires t < |threads| && t < |since|
    {
      this.(threads := threads[t := threads[t].(phase := Runnable, queued := true, suspendCount := 0)],
            queue := queue + [t], since := since[t := switches])
    }

    /** choose_next */
    function Dispatch(next: nat): State
      requires next < |threads| && next < |ran|
    {
      this.(threads := threads[next := threads[next].(phase := Running, queued := false)],
            queue := Without(queue, next), current := next, busy := true, switches := switches + 1,
            ran := ran[next := switches + 1])
    }

    /** remove_waiter: the last waiter takes the freed place. */
    function Unlink(e: nat, i: nat): State
      requires e < |events| && i < |events[e].waiters|
      requires forall k | 0 <= k < |events[e].waiters| :: events[e].waiters[k] < |records|
    {
      var waiters := events[e].waiters;
      var r, tail := waiters[i], |waiters| - 1;
      var last := waiters[tail];
      var moved := records[last := records[last].(waiterIndex := i)];
      this.(events := events[e := events[e].(waiters := waiters[i := last][..tail])],
            records := moved[r := moved[r].(linked := false, waiterIndex := NO_INDEX)])
    }

    /** Place `i` of event `e` holds a wait record of some thread. */
    ghost predicate Waiting(e: nat, i: nat)
    {
      && Sized() && e < MAX_EVENTS && i < |events[e].waiters|
      && (forall k | 0 <= k < |events[e].waiters| :: events[e].waiters[k] < MAX_THREADS)
      && records[events[e].waiters[i]].thread < MAX_THREADS
    }

    /** complete_waiter */
    function Complete(e: nat, i: nat, how: Completion): State
      requires Waiting(e, i)
    {
      var r := events[e].waiters[i];
      var t := records[r].thread;
      var u := Unlink(e, i);
      u.(records := u.records[r := u.records[r].(completed := true, completion := how)],
         threads := threads[t := threads[t].(blockedOn := 0, blockedResult := ResultOf(how))],
         outcomes := outcomes[records[r].generation := Outcome(how, clock, ledgers[e].signals)],
         ledgers := if how == Object0 then Satisfy(e) else ledgers).Enqueue(t)
    }

    /** History: one more wait satisfied by event `e`. */
    function Satisfy(e: nat): seq<Ledger>
      requires e < |ledgers|
    {
      ledgers[e := ledgers[e].(satisfied := ledgers[e].satisfied + 1)]
    }

    /** All waits on the event are older than its last signal, and an auto-reset event has one left to hand out. */
    ghost predicate Slack(e: nat)
      requires Sized() && e < MAX_EVENTS
    {
      (forall r | 0 <= r < MAX_THREADS && records[r].valid && records[r].linked && records[r].event == e ::
         records[r].generation in registered && registered[records[r].generation].signals < ledgers[e].signals)
      &&
      (!events[e].manualReset ==>
        ledgers[e].satisfied + (if events[e].signaled then 1 else 0) < ledgers[e].initial + ledgers[e].signals)
    }

    // ---- Leaving the processor ----

    /** The running thread becomes RUNNABLE. */
    function LeaveYield(): State
      requires Sized()
    {
      this.(busy := false).Enqueue(current)
    }

    /** The running thread becomes TERMINATED. */
    function LeaveTerminate(): State
      requires Sized()
    {
      this.(busy := false,
            threads := threads[current := threads[current].(phase := Terminated, executionRefs := 0)])
    }

    /** The running thread registers on event `e` with record `r` and becomes BLOCKED. */
    function LeaveBlock(r: nat, e: nat, armed: bool, deadline: u64, handle: u64): State
      requires Sized() && r < MAX_THREADS && e < MAX_EVENTS && events[e].objectSlot < MAX_OBJECTS
    {
      var ev := events[e];
      var ob := objects[ev.objectSlot];
      this.(records := records[r := Record(true, true, false, true, true, armed, nextGeneration, ev.objectSlot,
                                           ob.generation, |ev.waiters|, Pending, deadline, current, e)],
            events := events[e := ev.(waiters := ev.waiters + [r])],
            objects := objects[ev.objectSlot := ob.(internalRefs := ob.internalRefs + 1)],
            threads := threads[current := threads[current].(phase := Blocked, record := Some(r), blockedOn := handle,
                                                            blockedResult := WaitFailure)],
            registered := registered[nextGeneration := Ticket(e, ob.generation, armed, deadline, ledgers[e].signals)],
            activeWaits := activeWaits + 1, nextGeneration := nextGeneration + 1, busy := false)
    }

    /** The running thread gives back its completed record. */
    function Release(r: nat): State
      requires Sized() && r < MAX_THREADS && records[r].objectSlot < MAX_OBJECTS
      requires objects[records[r].objectSlot].internalRefs > 0
    {
      var o := records[r].objectSlot;
      this.(records := records[r := NO_RECORD],
            objects := objects[o := objects[o].(internalRefs := objects[o].internalRefs - 1)],
            threads := threads[current :=
                threads[current].(record := None, blockedOn := 0, blockedResult := WaitFailure)],
            activeWaits := activeWaits - 1)
    }
  }

  // ---- Completing a wait ----

  lemma WaiterIsWaiting(s: State, e: nat, i: nat)
    requires s.Inv() && e < MAX_EVENTS && i < |s.events[e].waiters|
    ensures s.Waiting(e, i) && s.records[s.events[e].waiters[i]].linked && s.events[e].live
  {
    assert s.EventOk(e);
    assert forall k | 0 <= k < |s.events[e].waiters| :: s.RecordOk(s.events[e].waiters[k]);
  }

  /** What completing a wait needs: its deadline has passed, or a signal has come. */
  ghost predicate Timely(s: State, e: nat, i: nat, how: Completion)
    requires s.Waiting(e, i)
  {
    var rc := s.records[s.events[e].waiters[i]];
    && (how == Timeout ==> rc.armed && rc.deadline <= s.clock)
    && (how == Object0 ==> s.Slack(e))
  }

  lemma TimelyFacts(s: State, e: nat, i: nat, how: Completion)
    requires s.Waiting(e, i) && Timely(s, e, i, how)
    ensures how == Timeout ==> s.records[s.events[e].waiters[i]].armed
    ensures how == Object0 ==> s.Slack(e)
  {
  }

  lemma CompleteThreads(s: State, e: nat, i: nat, how: Completion)
    requires s.Inv() && s.Waiting(e, i) && how != Pending
    requires how == Timeout ==> s.records[s.events[e].waiters[i]].armed
    ensures forall t | 0 <= t < MAX_THREADS :: s.Complete(e, i, how).ThreadOk(t)
  {
    hide State.QueueOk, State.FairOk, State.ObjectOk, State.ThreadObjectOk, State.LedgerOk, State.Tickets, History;
    var s' := s.Complete(e, i, how);
    assert s.EventOk(e) && s.RecordOk(s.events[e].waiters[i]);
    forall t | 0 <= t < MAX_THREADS
      ensures s'.ThreadOk(t)
    {
      assert s.ThreadOk(t);
    }
  }

  /** What completing a wait does to the record tables. */
  lemma CompleteShape(s: State, e: nat, i: nat, how: Completion, r: nat)
    requires s.Waiting(e, i) && r < MAX_THREADS
    ensures var s', waiters := s.Complete(e, i, how), s.events[e].waiters;
            && s'.Sized() && s'.records[r] == (
              if r == waiters[i]
              then s.records[r].(linked := false, waiterIndex := NO_INDEX, completed := true, completion := how)
              else if r == waiters[|waiters| - 1] then s.records[r].(waiterIndex := i) else s.records[r])
    ensures s.Complete(e, i, how).events == s.events[e := s.events[e].(
              waiters := s.events[e].waiters[i :=
                  s.events[e].waiters[|s.events[e].waiters| - 1]][..|s.events[e].waiters| - 1])]
    ensures forall t | 0 <= t < MAX_THREADS ::
              && s.Complete(e, i, how).threads[t].live == s.threads[t].live
              && s.Complete(e, i, how).threads[t].record == s.threads[t].record
              && s.Complete(e, i, how).threads[t].blockedResult == (
                if t == s.records[s.events[e].waiters[i]].thread then ResultOf(how) else s.threads[t].blockedResult)
    ensures s.Complete(e, i, how).outcomes == s.outcomes[s.records[s.events[e].waiters[i]].generation :=
              Outcome(how, s.clock, s.ledgers[e].signals)]
    ensures s.Complete(e, i, how).registered == s.registered && s.Complete(e, i, how).nextGeneration == s.nextGeneration
    ensures s.Complete(e, i, how).ledgers == if how == Object0 then s.Satisfy(e) else s.ledgers
  {
  }

  lemma CompleteDone(s: State, e: nat, i: nat, how: Completion)
    requires s.Inv() && s.Waiting(e, i) && how != Pending
    requires how == Timeout ==> s.records[s.events[e].waiters[i]].armed
    ensures s.Complete(e, i, how).Sized() && s.Complete(e, i, how).RecordOk(s.events[e].waiters[i])
  {
    hide State.QueueOk, State.FairOk, State.ObjectOk, State.ThreadObjectOk, State.LedgerOk, State.ThreadOk,
      State.Complete,
      State.Tickets, History;
    CompleteShape(s, e, i, how, s.events[e].waiters[i]);
    assert s.EventOk(e) && s.RecordOk(s.events[e].waiters[i]);
  }

  lemma CompleteOther(s: State, e: nat, i: nat, how: Completion, r: nat)
    requires s.Inv() && s.Waiting(e, i) && how != Pending && r < MAX_THREADS && r != s.events[e].waiters[i]
    ensures s.Complete(e, i, how).Sized() && s.Complete(e, i, how).RecordOk(r)
  {
    hide State.QueueOk, State.FairOk, State.ObjectOk, State.ThreadObjectOk, State.LedgerOk, State.ThreadOk,
      State.Complete,
      State.Tickets, History;
    CompleteShape(s, e, i, how, r);
    var waiters := s.events[e].waiters;
    var done, tail := waiters[i], |waiters| - 1;
    assert s.EventOk(e) && s.RecordOk(done) && s.RecordOk(r);
    if s.records[r].valid {
      OtherTicket(s, r, done);
      var at := s.records[r].waiterIndex;
      if s.records[r].linked && s.records[r].event == e && at != tail {
        assert waiters[i := waiters[tail]][..tail][at] == r;
      }
    }
  }

  lemma CompleteRecord(s: State, e: nat, i: nat, how: Completion, r: nat)
    requires s.Inv() && s.Waiting(e, i) && how != Pending && r < MAX_THREADS
    requires how == Timeout ==> s.records[s.events[e].waiters[i]].armed
    ensures s.Complete(e, i, how).Sized() && s.Complete(e, i, how).RecordOk(r)
  {
    hide State.Inv, State.Complete, State.RecordOk;
    if r == s.events[e].waiters[i] {
      CompleteDone(s, e, i, how);
    } else {
      CompleteOther(s, e, i, how, r);
    }
  }

  lemma OtherTicket(s: State, r: nat, q: nat)
    requires s.Inv() && r < MAX_THREADS && q < MAX_THREADS && r != q && s.records[r].valid && s.records[q].valid
    ensures s.records[r].generation != s.records[q].generation
  {
    assert s.Tickets();
  }

  lemma CompleteTickets(s: State, e: nat, i: nat, how: Completion)
    requires s.Inv() && s.Waiting(e, i) && how != Pending
    ensures s.Complete(e, i, how).Tickets()
  {
    hide State.QueueOk, State.FairOk, State.ObjectOk, State.ThreadObjectOk, State.LedgerOk, State.ThreadOk;
    assert s.EventOk(e) && s.RecordOk(s.events[e].waiters[i]);
    var s' := s.Complete(e, i, how);
    assert forall r | 0 <= r < MAX_THREADS ::
        s'.records[r].valid == s.records[r].valid && s'.records[r].generation == s.records[r].generation;
  }

  /** A timely completion is explained by the ticket of the wait. */
  lemma CompleteHistory(s: State, e: nat, i: nat, how: Completion)
    requires s.Inv() && s.Waiting(e, i) && how != Pending && Timely(s, e, i, how)
    ensures var s' := s.Complete(e, i, how);
            History(s'.records, s'.ledgers, s'.registered, s'.outcomes, s'.nextGeneration)
  {
    hide State.QueueOk, State.FairOk, State.ObjectOk, State.ThreadObjectOk, State.LedgerOk, State.ThreadOk,
      State.Complete;
    var s' := s.Complete(e, i, how);
    var done := s.events[e].waiters[i];
    CompleteShape(s, e, i, how, done);
    assert s.EventOk(e) && s.RecordOk(done) && TicketOk(s.records[done], s.ledgers, s.registered);
    forall r | 0 <= r < MAX_THREADS
      ensures TicketOk(s'.records[r], s'.ledgers, s'.registered)
    {
      CompleteShape(s, e, i, how, r);
      assert TicketOk(s.records[r], s.ledgers, s.registered);
    }
  }

  lemma CompleteEvents(s: State, e: nat, i: nat, how: Completion)
    requires s.Inv() && s.Waiting(e, i) && how != Pending
    ensures s.Complete(e, i, how).Sized()
    ensures forall f | 0 <= f < MAX_EVENTS :: s.Complete(e, i, how).EventOk(f)
  {
    hide State.QueueOk, State.FairOk, State.ThreadOk, State.ThreadObjectOk, State.ObjectOk, State.LedgerOk,
      State.Tickets, History;
    var s' := s.Complete(e, i, how);
    assert s.EventOk(e) && s.RecordOk(s.events[e].waiters[i]);
    forall f | 0 <= f < MAX_EVENTS
      ensures s'.EventOk(f)
    {
      assert s.EventOk(f);
    }
  }

  lemma CompleteLedgers(s: State, e: nat, i: nat, how: Completion)
    requires s.Inv() && s.Waiting(e, i) && how != Pending
    requires how == Object0 ==> s.Slack(e)
    ensures s.Complete(e, i, how).Sized()
    ensures forall f | 0 <= f < MAX_EVENTS :: s.Complete(e, i, how).LedgerOk(f)
  {
    hide State.Complete, State.Inv, State.Slack;
    CompleteShape(s, e, i, how, 0);
    if how == Object0 {
      SlackLeft(s, e);
    }
    forall f | 0 <= f < MAX_EVENTS
      ensures s.Complete(e, i, how).LedgerOk(f)
    {
      LedgerFacts(s, f);
    }
  }

  lemma LedgerFacts(s: State, e: nat)
    requires s.Inv() && e < MAX_EVENTS
    ensures s.Sized() && s.LedgerOk(e)
  {
  }

  lemma SlackLeft(s: State, e: nat)
    requires s.Sized() && e < MAX_EVENTS && s.Slack(e)
    ensures !s.events[e].manualReset ==>
              s.ledgers[e].satisfied + (if s.events[e].signaled then 1 else 0)
              < s.ledgers[e].initial + s.ledgers[e].signals
  {
  }

  lemma CompleteObjects(s: State, e: nat, i: nat, how: Completion)
    requires s.Inv() && s.Waiting(e, i) && how != Pending
    ensures forall o | 0 <= o < MAX_OBJECTS :: s.Complete(e, i, how).ObjectOk(o)
    ensures forall t | 0 <= t < MAX_THREADS :: s.Complete(e, i, how).ThreadObjectOk(t)
    ensures ValidRecords(s.Complete(e, i, how).records) == ValidRecords(s.records)
    ensures s.Complete(e, i, how).activeWaits == s.activeWaits
  {
    var s' := s.Complete(e, i, how);
    assert s.EventOk(e) && s.RecordOk(s.events[e].waiters[i]);
    forall o | 0 <= o < MAX_OBJECTS
      ensures s'.ObjectOk(o)
    {
      assert s.ObjectOk(o);
      assert Pins(s'.records, o) == Pins(s.records, o);
    }
    forall t | 0 <= t < MAX_THREADS
      ensures s'.ThreadObjectOk(t)
    {
      assert s.ThreadObjectOk(t);
    }
  }

  lemma CompleteQueue(s: State, e: nat, i: nat, how: Completion)
    requires s.Inv() && s.Waiting(e, i) && how != Pending
    ensures s.Complete(e, i, how).Sized() && s.Complete(e, i, how).QueueOk() && s.Complete(e, i, how).FairOk()
  {
    var s' := s.Complete(e, i, how);
    assert s.EventOk(e) && s.RecordOk(s.events[e].waiters[i]) && s.ThreadOk(s.records[s.events[e].waiters[i]].thread);
  }

  /** A signal or a timeout that completes one linked wait keeps the invariant. */
  lemma CompleteInv(s: State, e: nat, i: nat, how: Completion)
    requires s.Inv() && s.Waiting(e, i) && how != Pending && Timely(s, e, i, how)
    ensures s.Complete(e, i, how).Inv()
  {
    hide State.Slack, History, State.Complete;
    TimelyFacts(s, e, i, how);
    CompleteQueue(s, e, i, how);
    CompleteThreads(s, e, i, how);
    forall r | 0 <= r < MAX_THREADS
      ensures s.Complete(e, i, how).RecordOk(r)
    {
      CompleteRecord(s, e, i, how, r);
    }
    CompleteTickets(s, e, i, how);
    CompleteHistory(s, e, i, how);
    CompleteEvents(s, e, i, how);
    CompleteLedgers(s, e, i, how);
    CompleteObjects(s, e, i, how);
  }

  // ---- Switching ----

  /** `next` is the queued thread that round-robin selection from `current` meets first. */
  ghost predicate IsNext(s: State, next: nat)
    requires s.Sized()
  {
    next in s.queue && next < MAX_THREADS
    && forall t | t in s.queue && t < MAX_THREADS :: Distance(s.current, next) <= Distance(s.current, t)
  }

  /** Moving on to the nearest queued thread brings every other queued thread nearer. */
  lemma DistanceShrinks(from: nat, next: nat, t: nat)
    requires from < MAX_THREADS && next < MAX_THREADS && t < MAX_THREADS
    requires t != next && Distance(from, next) <= Distance(from, t)
    ensures Distance(next, t) + 1 <= Distance(from, t)
  {
  }

  lemma DispatchInv(s: State, next: nat)
    requires s.Inv() && !s.busy && IsNext(s, next)
    ensures s.Dispatch(next).Inv()
  {
    var s' := s.Dispatch(next);
    WithoutMembers(s.queue, next);
    assert s.ThreadOk(next);
    DispatchQueue(s, next);
    forall t | 0 <= t < MAX_THREADS
      ensures s'.ThreadOk(t) && s'.ThreadObjectOk(t)
    {
      assert s.ThreadOk(t) && s.ThreadObjectOk(t);
    }
    forall r | 0 <= r < MAX_THREADS
      ensures s'.RecordOk(r)
    {
      assert s.RecordOk(r);
    }
    forall e | 0 <= e < MAX_EVENTS
      ensures s'.EventOk(e) && s'.LedgerOk(e)
    {
      assert s.EventOk(e) && s.LedgerOk(e);
    }
    forall o | 0 <= o < MAX_OBJECTS
      ensures s'.ObjectOk(o)
    {
      assert s.ObjectOk(o);
    }
  }

  lemma DispatchQueue(s: State, next: nat)
    requires s.Inv() && !s.busy && IsNext(s, next)
    ensures s.Dispatch(next).Sized() && s.Dispatch(next).QueueOk() && s.Dispatch(next).FairOk()
  {
    var s' := s.Dispatch(next);
    WithoutMembers(s.queue, next);
    assert s.ThreadOk(next);
    forall t | t in s'.queue
      ensures s'.since[t] <= s'.switches && s'.switches - s'.since[t] + Distance(next, t) <= MAX_THREADS
    {
      DistanceShrinks(s.current, next, t);
    }
  }

  lemma LeaveYieldInv(s: State)
    requires s.Inv() && s.busy
    ensures s.LeaveYield().Inv()
  {
    var s' := s.LeaveYield();
    assert s.ThreadOk(s.current);
    forall t | 0 <= t < MAX_THREADS
      ensures s'.ThreadOk(t) && s'.ThreadObjectOk(t)
    {
      assert s.ThreadOk(t) && s.ThreadObjectOk(t);
    }
    forall r | 0 <= r < MAX_THREADS
      ensures s'.RecordOk(r)
    {
      assert s.RecordOk(r);
    }
    forall e | 0 <= e < MAX_EVENTS
      ensures s'.EventOk(e) && s'.LedgerOk(e)
    {
      assert s.EventOk(e) && s.LedgerOk(e);
    }
    forall o | 0 <= o < MAX_OBJECTS
      ensures s'.ObjectOk(o)
    {
      assert s.ObjectOk(o);
    }
  }

  lemma LeaveTerminateInv(s: State)
    requires s.Inv() && s.busy && s.current != 0 && s.threads[s.current].record == None
    ensures s.LeaveTerminate().Inv()
  {
    var s' := s.LeaveTerminate();
    assert s.ThreadOk(s.current);
    forall t | 0 <= t < MAX_THREADS
      ensures s'.ThreadOk(t) && s'.ThreadObjectOk(t)
    {
      assert s.ThreadOk(t) && s.ThreadObjectOk(t);
    }
    forall r | 0 <= r < MAX_THREADS
      ensures s'.RecordOk(r)
    {
      assert s.RecordOk(r);
    }
    forall e | 0 <= e < MAX_EVENTS
      ensures s'.EventOk(e) && s'.LedgerOk(e)
    {
      assert s.EventOk(e) && s.LedgerOk(e);
    }
    forall o | 0 <= o < MAX_OBJECTS
      ensures s'.ObjectOk(o)
    {
      assert s.ObjectOk(o);
    }
  }
}
