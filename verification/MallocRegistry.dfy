/**
 * The registry behind malloc and free: 64 live blocks over a pool that is not trusted, exact
 * accounting, and a ring that remembers the last 64 releases.
 */
module MallocRegistry {
  import opened Words

  const MAX_REQUEST: nat := 0xC_8000
  const CAPACITY: nat := 64
  const MAX_PROTECTED: nat := 8

  datatype Range = Range(base: u64, end: u64)

  /** A registry slot. `guards` is history: how many protected ranges there were at the allocation. */
  datatype Block = Block(occupied: bool, pointer: u64, size: nat, sequence: nat, guards: nat)

  /** What the ring keeps of a released block; `order` counts releases from zero. */
  datatype Release = Release(pointer: u64, size: nat, sequence: nat, order: nat, slot: nat)

  const NO_BLOCK: Block := Block(false, 0, 0, 0, 0)
  const NO_RELEASE: Release := Release(0, 0, 0, 0, 0)

  datatype MallocFailure = NoFailure | MalformedRegistry | InvalidProtectedRange | ZeroSize | SizeLimit
    | BootServicesUnavailable | PoolServiceUnavailable | MetadataExhausted | SequenceExhausted | PoolAllocation
    | NullSuccess | Unaligned | RangeOverflow | ProtectedOverlap | DuplicatePointer | ExistingOverlap
    | AccountingOverflow

  datatype FreeResult = NullIgnored | Malformed | InteriorPointer | DoubleFree | UnknownPointer | ServiceUnavailable
    | AccountingFailure | BackingRelease | Freed

  // ---- Totals over the slots ----

  function Count(rs: seq<Block>, n: nat): nat
    requires n <= |rs|
  {
    if n == 0 then 0 else Count(rs, n - 1) + (if rs[n - 1].occupied then 1 else 0)
  }

  function Bytes(rs: seq<Block>, n: nat): nat
    requires n <= |rs|
  {
    if n == 0 then 0 else Bytes(rs, n - 1) + (if rs[n - 1].occupied then rs[n - 1].size else 0)
  }

  function Largest(rs: seq<Block>, n: nat): nat
    requires n <= |rs|
  {
    if n == 0 then 0 else
    var before := Largest(rs, n - 1);
    if rs[n - 1].occupied && rs[n - 1].size > before then rs[n - 1].size else before
  }

  /** The largest request is one of the live sizes and no live size exceeds it; 0 when nothing lives. */
  lemma {:induction false} LargestMeaning(rs: seq<Block>, n: nat)
    requires n <= |rs|
    ensures forall i | 0 <= i < n && rs[i].occupied :: rs[i].size <= Largest(rs, n)
    ensures Largest(rs, n) == 0 || exists i :: 0 <= i < n && rs[i].occupied && rs[i].size == Largest(rs, n)
  {
    if n > 0 {
      LargestMeaning(rs, n - 1);
    }
  }

  lemma {:induction false} TotalsAfterUpdate(rs: seq<Block>, i: nat, b: Block, n: nat)
    requires i < |rs| && n <= |rs|
    ensures i >= n ==> Count(rs[i := b], n) == Count(rs, n) && Bytes(rs[i := b], n) == Bytes(rs, n)
    ensures i < n ==>
              && Count(rs[i := b], n)
              == Count(rs, n) - (if rs[i].occupied then 1 else 0) + (if b.occupied then 1 else 0)
              && Bytes(rs[i := b], n)
              == Bytes(rs, n) - (if rs[i].occupied then rs[i].size else 0) + (if b.occupied then b.size else 0)
  {
    if n > 0 {
      TotalsAfterUpdate(rs, i, b, n - 1);
    }
  }

  /** Filling a free slot can only raise the largest request. */
  lemma {:induction false} LargestAfterAdd(rs: seq<Block>, i: nat, b: Block, n: nat)
    requires i < |rs| && n <= |rs| && !rs[i].occupied && b.occupied
    ensures Largest(rs[i := b], n) == if i < n && b.size > Largest(rs, n) then b.size else Largest(rs, n)
  {
    if n > 0 {
      LargestAfterAdd(rs, i, b, n - 1);
    }
  }

  lemma {:induction false} TotalsBound(rs: seq<Block>, n: nat)
    requires n <= |rs| && forall i | 0 <= i < n :: BlockOk(rs[i])
    ensures Count(rs, n) <= n && Bytes(rs, n) <= n * MAX_REQUEST
  {
    if n > 0 {
      TotalsBound(rs, n - 1);
    }
  }

  lemma {:induction false} OccupiedCounts(rs: seq<Block>, i: nat, n: nat)
    requires i < n <= |rs| && rs[i].occupied
    ensures Count(rs, n) >= 1 && Bytes(rs, n) >= rs[i].size
  {
    if i < n - 1 {
      OccupiedCounts(rs, i, n - 1);
    }
  }

  // ---- The invariant ----

  predicate BlockOk(b: Block) {
    b.occupied ==>
      && b.pointer != 0 && b.pointer % 8 == 0 && 0 < b.size <= MAX_REQUEST && b.sequence != 0
      && b.pointer + b.size <= MAX_U64
  }

  predicate Apart(a: Block, b: Block) {
    a.occupied && b.occupied ==>
      a.sequence != b.sequence && (a.pointer + a.size <= b.pointer || b.pointer + b.size <= a.pointer)
  }

  predicate RangeOk(r: Range) {
    0 != r.base < r.end
  }

  predicate Clear(b: Block, r: Range) {
    b.pointer + b.size <= r.base || r.end <= b.pointer
  }

  datatype Context = Context(
    protected: seq<Range>, records: seq<Block>, liveCount: nat, total: nat, largest: nat,
    nextSequence: nat, generation: nat, ring: seq<Release>, releaseCount: nat, nextRelease: nat,
    // history
    releases: seq<Release>, grants: nat)
  {
    ghost predicate Sized() {
      |records| == |ring| == CAPACITY && |protected| <= MAX_PROTECTED
    }

    /** What gxos_crt_malloc_registry_valid decides. */
    ghost predicate Registered()
      requires Sized()
    {
      && nextSequence != 0 && liveCount <= CAPACITY && releaseCount <= CAPACITY && nextRelease < CAPACITY
      && (forall i | 0 <= i < CAPACITY :: BlockOk(records[i]))
      && (forall i, j | 0 <= i < j < CAPACITY :: Apart(records[i], records[j]))
      && liveCount == Count(records, CAPACITY) && total == Bytes(records, CAPACITY)
      && largest == Largest(records, CAPACITY)
    }

    /** The ring holds the last min(64, n) of the n releases made so far. */
    ghost predicate RingOk()
      requires Sized()
    {
      && releaseCount == (if |releases| < CAPACITY then |releases| else CAPACITY)
      && nextRelease == |releases| % CAPACITY
      && (forall k | 0 <= k < |releases| :: releases[k].order == k)
      && (forall k | |releases| - releaseCount <= k < |releases| :: ring[k % CAPACITY] == releases[k])
    }

    /**
     * The registry check is not inductive by itself: a new sequence number must also be new, which
     * needs every live one to lie below the next.
     */
    ghost predicate Inv() {
      && Sized() && Registered() && RingOk()
      && (forall i | 0 <= i < CAPACITY && records[i].occupied :: records[i].sequence < nextSequence)
      && (forall i | 0 <= i < |protected| :: RangeOk(protected[i]))
      && (forall i | 0 <= i < CAPACITY && records[i].occupied :: records[i].guards <= |protected|)
      && (forall i, k | 0 <= i < CAPACITY && records[i].occupied
           && 0 <= k < records[i].guards :: Clear(records[i], protected[k]))
      && generation == 1 + grants + |releases| && generation <= MAX_U64
      && nextSequence == 1 + grants
    }

    function Grant(slot: nat, pointer: u64, size: nat): Context
      requires slot < |records|
    {
      this.(records := records[slot := Block(true, pointer, size, nextSequence, |protected|)],
            liveCount := liveCount + 1, total := total + size, largest := if size > largest then size else largest,
            nextSequence := nextSequence + 1, generation := generation + 1, grants := grants + 1)
    }

    function Drop(slot: nat): Context
      requires slot < |records| && liveCount > 0 && total >= records[slot].size && |ring| == CAPACITY
    {
      var b := records[slot];
      var released := Release(b.pointer, b.size, b.sequence, |releases|, slot);
      var cleared := records[slot := NO_BLOCK];
      this.(records := cleared, liveCount := liveCount - 1, total := total - b.size,
          largest := Largest(cleared, |cleared|),
          generation := generation + 1, ring := ring[|releases| % CAPACITY := released],
          releaseCount := if releaseCount < CAPACITY then releaseCount + 1 else releaseCount,
          nextRelease := (|releases| + 1) % CAPACITY, releases := releases + [released])
    }
  }

  ghost predicate CanGrant(c: Context, slot: nat, pointer: u64, size: nat) {
    && c.Inv() && slot < CAPACITY && !c.records[slot].occupied && c.generation < MAX_U64
    && pointer != 0 && pointer % 8 == 0 && 0 < size <= MAX_REQUEST && pointer + size <= MAX_U64
    && (forall k | 0 <= k < |c.protected| :: pointer + size <= c.protected[k].base || c.protected[k].end <= pointer)
    && (forall i | 0 <= i < CAPACITY && c.records[i].occupied ::
          pointer + size <= c.records[i].pointer || c.records[i].pointer + c.records[i].size <= pointer)
  }

  lemma GrantInv(c: Context, slot: nat, pointer: u64, size: nat)
    requires CanGrant(c, slot, pointer, size)
    ensures c.Grant(slot, pointer, size).Inv()
  {
    var b := Block(true, pointer, size, c.nextSequence, |c.protected|);
    TotalsAfterUpdate(c.records, slot, b, CAPACITY);
    LargestAfterAdd(c.records, slot, b, CAPACITY);
    var d := c.Grant(slot, pointer, size);
    TotalsBound(d.records, CAPACITY);
  }

  lemma DropInv(c: Context, slot: nat)
    requires c.Inv() && slot < CAPACITY && c.records[slot].occupied && c.generation < MAX_U64
    ensures c.liveCount > 0 && c.total >= c.records[slot].size && c.Drop(slot).Inv()
  {
    OccupiedCounts(c.records, slot, CAPACITY);
    TotalsAfterUpdate(c.records, slot, NO_BLOCK, CAPACITY);
    DropRing(c, slot);
    TotalsBound(c.Drop(slot).records, CAPACITY);
  }

  lemma DropRing(c: Context, slot: nat)
    requires c.Inv() && slot < CAPACITY && c.liveCount > 0 && c.total >= c.records[slot].size
    ensures c.Drop(slot).RingOk()
  {
    var d := c.Drop(slot);
    var n := |c.releases|;
    forall k | n + 1 - d.releaseCount <= k < n + 1
      ensures d.ring[k % CAPACITY] == d.releases[k]
    {
      if k < n {
        SlotsDiffer(k, n);
      }
    }
  }

  /** Releases less than 64 apart fall on different ring slots. */
  lemma SlotsDiffer(k: nat, n: nat)
    requires k < n < k + CAPACITY
    ensures k % CAPACITY != n % CAPACITY
  {
  }

  // ---- The registry check ----

  /** The program's 64-bit sum. */
  function EndOf(b: Block): u64 {
    (b.pointer + b.size) % 0x1_0000_0000_0000_0000
  }

  predicate Overlaps(leftBase: int, leftEnd: int, rightBase: int, rightEnd: int) {
    leftBase < rightEnd && rightBase < leftEnd
  }

  /** The test that registry_valid makes on two occupied slots. */
  predicate PairPasses(a: Block, b: Block) {
    b.occupied ==>
      !(b.pointer == a.pointer || a.sequence == b.sequence || Overlaps(a.pointer, EndOf(a), b.pointer, EndOf(b)))
  }

  lemma PairIsApart(a: Block, b: Block)
    requires BlockOk(a) && BlockOk(b) && a.occupied
    ensures PairPasses(a, b) <==> Apart(a, b)
    ensures EndOf(a) == a.pointer + a.size && (b.occupied ==> EndOf(b) == b.pointer + b.size)
  {
  }

  lemma EndDetectsWrap(b: Block)
    requires b.size <= MAX_REQUEST
    ensures EndOf(b) >= b.pointer <==> b.pointer + b.size <= MAX_U64
  {
  }

  /** The failures that come after the pool has handed out a block. */
  predicate Rejection(failure: MallocFailure) {
    failure.NullSuccess? || failure.Unaligned? || failure.RangeOverflow? || failure.ProtectedOverlap?
    || failure.DuplicatePointer? || failure.ExistingOverlap? || failure.AccountingOverflow?
  }

  /** A pointer that the registry can take in for a request of `size` bytes. */
  ghost predicate Acceptable(c: Context, pointer: u64, size: nat) {
    && pointer != 0 && pointer % 8 == 0 && pointer + size <= MAX_U64
    && (forall k | 0 <= k < |c.protected| :: pointer + size <= c.protected[k].base || c.protected[k].end <= pointer)
    && (forall i | 0 <= i < |c.records| && c.records[i].occupied ::
          pointer + size <= c.records[i].pointer || c.records[i].pointer + c.records[i].size <= pointer)
  }

  /** The registry that gxos_crt_malloc_context_reset leaves. */
  function EmptyContext(): Context {
    Context([], seq(CAPACITY, _ => NO_BLOCK), 0, 0, 0, 1, 1, seq(CAPACITY, _ => NO_RELEASE), 0, 0, [], 0)
  }

  /** No live block touches any protected range. */
  ghost predicate AllClear(c: Context) {
    forall i, k | 0 <= i < |c.records| && c.records[i].occupied
        && 0 <= k < |c.protected| :: Clear(c.records[i], c.protected[k])
  }

  predicate LiveAt(c: Context, i: nat, pointer: u64) {
    i < |c.records| && c.records[i].occupied && c.records[i].pointer == pointer
  }

  ghost predicate IsLive(c: Context, pointer: u64) {
    exists i :: 0 <= i < |c.records| && LiveAt(c, i, pointer)
  }

  /** The pointer of a live block is never acceptable again. */
  lemma LiveIsRefused(c: Context, pointer: u64, size: nat)
    requires c.Sized() && c.Registered() && size > 0
    ensures IsLive(c, pointer) ==> !Acceptable(c, pointer, size)
  {
    if i :| 0 <= i < |c.records| && LiveAt(c, i, pointer) {
      assert BlockOk(c.records[i]);
    }
  }

  predicate InsideAt(c: Context, i: nat, pointer: u64) {
    i < |c.records| && c.records[i].occupied
        && c.records[i].pointer < pointer < c.records[i].pointer + c.records[i].size
  }

  /** The pointer was released, and by one of the last 64 releases. */
  ghost predicate RecentlyReleased(c: Context, pointer: u64) {
    exists k :: 0 <= k < |c.releases| && |c.releases| - CAPACITY <= k && c.releases[k].pointer == pointer
  }

  lemma RingIsRecent(c: Context, pointer: u64)
    requires c.Inv()
    ensures RecentlyReleased(c, pointer) <==> exists i :: 0 <= i < c.releaseCount && c.ring[i].pointer == pointer
  {
    var n := |c.releases|;
    if RecentlyReleased(c, pointer) {
      var k :| 0 <= k < n && n - CAPACITY <= k && c.releases[k].pointer == pointer;
      assert c.ring[k % CAPACITY] == c.releases[k];
      assert n < CAPACITY ==> k % CAPACITY == k;
      assert k % CAPACITY < c.releaseCount;
    }
    if i :| 0 <= i < c.releaseCount && c.ring[i].pointer == pointer {
      var k := LatestAt(n, i);
      assert c.ring[k % CAPACITY] == c.releases[k];
    }
  }

  /** The release that a used ring slot holds. */
  lemma LatestAt(n: nat, i: nat) returns (k: nat)
    requires i < CAPACITY && (n < CAPACITY ==> i < n)
    ensures k < n && n - CAPACITY <= k && k % CAPACITY == i
  {
    if n < CAPACITY {
      k := i;
    } else {
      var q, r := n / CAPACITY, n % CAPACITY;
      assert n == CAPACITY * q + r;
      k := if i < r then CAPACITY * q + i else CAPACITY * (q - 1) + i;
      assert k % CAPACITY == i;
    }
  }

  /**
   * The program's own check survives an allocation exactly when the next sequence number is not
   * already in use, which the check itself does not demand.
   */
  lemma GrantExact(c: Context, slot: nat, pointer: u64, size: nat)
    requires c.Sized() && c.Registered() && slot < CAPACITY && !c.records[slot].occupied
    requires 0 < size <= MAX_REQUEST && Acceptable(c, pointer, size)
    ensures c.Grant(slot, pointer, size).Sized()
    ensures c.Grant(slot, pointer, size).Registered() <==>
              forall i | 0 <= i < CAPACITY && c.records[i].occupied :: c.records[i].sequence != c.nextSequence
  {
    var b := Block(true, pointer, size, c.nextSequence, |c.protected|);
    var d := c.Grant(slot, pointer, size);
    TotalsAfterUpdate(c.records, slot, b, CAPACITY);
    LargestAfterAdd(c.records, slot, b, CAPACITY);
    if d.Registered() {
      forall i | 0 <= i < CAPACITY && c.records[i].occupied
        ensures c.records[i].sequence != c.nextSequence
      {
        assert i < slot ==> Apart(d.records[i], d.records[slot]);
        assert slot < i ==> Apart(d.records[slot], d.records[i]);
      }
    }
    if forall i | 0 <= i < CAPACITY && c.records[i].occupied :: c.records[i].sequence != c.nextSequence {
      TotalsBound(d.records, CAPACITY);
      assert forall i | 0 <= i < CAPACITY :: BlockOk(d.records[i]);
      forall i, j | 0 <= i < j < CAPACITY
        ensures Apart(d.records[i], d.records[j])
      {
        assert Apart(c.records[i], c.records[j]);
      }
    }
  }

  /** A registry that passes the check and no longer does after one allocation. */
  lemma CheckIsNotInductive() returns (c: Context)
    ensures c.Sized() && c.Registered() && Acceptable(c, 0x2000, 16) && !c.records[1].occupied
    ensures !c.Grant(1, 0x2000, 16).Registered()
  {
    var empty := seq(CAPACITY, _ => NO_BLOCK);
    var b := Block(true, 0x1000, 16, 1, 0);
    c := Context([], empty[0 := b], 1, 16, 16, 1, 2, seq(CAPACITY, _ => NO_RELEASE), 0, 0, [], 1);
    EmptyTotals(empty, CAPACITY);
    TotalsAfterUpdate(empty, 0, b, CAPACITY);
    LargestAfterAdd(empty, 0, b, CAPACITY);
    GrantExact(c, 1, 0x2000, 16);
    assert c.records[0].occupied;
  }

  datatype Call =
    | ProtectCall(base: u64, end: u64)
    | MallocCall(size: nat, services: bool, pool: bool, answer: Option<u64>)
    | FreeCall(pointer: u64, service: bool, status: nat)

  lemma InvParts(c: Context)
    requires c.Inv()
    ensures c.Sized() && c.Registered() && c.RingOk()
    ensures forall i | 0 <= i < CAPACITY :: BlockOk(c.records[i])
    ensures forall i | 0 <= i < |c.protected| :: RangeOk(c.protected[i])
    ensures c.nextSequence <= c.generation <= MAX_U64 && c.total <= CAPACITY * MAX_REQUEST
    ensures c.liveCount == Count(c.records, CAPACITY) && c.total == Bytes(c.records, CAPACITY)
  {
    TotalsBound(c.records, CAPACITY);
  }

  lemma AcceptableGrant(c: Context, slot: nat, pointer: u64, size: nat)
    requires c.Inv() && slot < CAPACITY && !c.records[slot].occupied && c.generation < MAX_U64
    requires 0 < size <= MAX_REQUEST && Acceptable(c, pointer, size)
    ensures CanGrant(c, slot, pointer, size) && c.Grant(slot, pointer, size).Inv() && pointer != 0
  {
    GrantInv(c, slot, pointer, size);
  }

  /** From `a` to `b` one block came to life, at that pointer, of that size, under the next sequence number. */
  ghost predicate Adds(a: Context, b: Context, pointer: u64, size: nat) {
    && |a.records| == |b.records| == CAPACITY && b.releases == a.releases && b.nextSequence == a.nextSequence + 1
    && exists slot ::
         && 0 <= slot < CAPACITY && !a.records[slot].occupied && LiveAt(b, slot, pointer)
         && b.records[slot].size == size && b.records[slot].sequence == a.nextSequence
         && forall j | 0 <= j < CAPACITY && j != slot :: b.records[j] == a.records[j]
  }

  /** From `a` to `b` the live block at that pointer is gone and is the latest release that is remembered. */
  ghost predicate Removes(a: Context, b: Context, pointer: u64) {
    && |a.records| == |b.records| == CAPACITY && b.nextSequence == a.nextSequence
    && |b.releases| == |a.releases| + 1 && b.releases[..|a.releases|] == a.releases
    && exists slot ::
         && 0 <= slot < CAPACITY && LiveAt(a, slot, pointer) && !b.records[slot].occupied
         && b.releases[|a.releases|].pointer == pointer
         && b.releases[|a.releases|].size == a.records[slot].size
         && b.releases[|a.releases|].sequence == a.records[slot].sequence
         && forall j | 0 <= j < CAPACITY && j != slot :: b.records[j] == a.records[j]
  }

  lemma GrantAdds(c: Context, slot: nat, pointer: u64, size: nat)
    requires c.Sized() && slot < CAPACITY && !c.records[slot].occupied
    ensures Adds(c, c.Grant(slot, pointer, size), pointer, size)
  {
    assert LiveAt(c.Grant(slot, pointer, size), slot, pointer);
  }

  lemma DropRemoves(c: Context, slot: nat, pointer: u64)
    requires c.Sized() && LiveAt(c, slot, pointer) && c.liveCount > 0 && c.total >= c.records[slot].size
    ensures Removes(c, c.Drop(slot), pointer)
  {
    assert !c.Drop(slot).records[slot].occupied;
  }

  /** What has just been released is neither live nor inside a live block, and it is remembered. */
  lemma RemovedIsDouble(a: Context, b: Context, pointer: u64)
    requires a.Inv() && b.Inv() && Removes(a, b, pointer)
    ensures RecentlyReleased(b, pointer)
    ensures forall i | 0 <= i < CAPACITY :: !LiveAt(b, i, pointer) && !InsideAt(b, i, pointer)
  {
    hide Context.RingOk;
    assert b.releases[|a.releases|].pointer == pointer;
    var slot :| 0 <= slot < CAPACITY && LiveAt(a, slot, pointer) && !b.records[slot].occupied
      && forall j | 0 <= j < CAPACITY && j != slot :: b.records[j] == a.records[j];
    forall i | 0 <= i < CAPACITY
      ensures !LiveAt(b, i, pointer) && !InsideAt(b, i, pointer)
    {
      assert i < slot ==> Apart(a.records[i], a.records[slot]);
      assert slot < i ==> Apart(a.records[slot], a.records[i]);
      assert BlockOk(a.records[slot]);
    }
  }

  ghost predicate Dropped(a: Context, b: Context, slot: nat) {
    && slot < |a.records| && a.liveCount > 0 && a.total >= a.records[slot].size && |a.ring| == CAPACITY
    && b == a.Drop(slot)
  }

  lemma NextSlot(n: nat)
    ensures (n % CAPACITY + 1) % CAPACITY == (n + 1) % CAPACITY
  {
  }

  lemma NullIsNotLive(c: Context)
    requires c.Inv()
    ensures forall i | 0 <= i < CAPACITY :: !LiveAt(c, i, 0) && !InsideAt(c, i, 0)
  {
  }

  lemma LiveIsNotInside(c: Context, slot: nat, pointer: u64)
    requires c.Inv() && slot < CAPACITY && LiveAt(c, slot, pointer)
    ensures forall i | 0 <= i < CAPACITY :: !InsideAt(c, i, pointer)
  {
  }

  lemma {:induction false} EmptyTotals(rs: seq<Block>, n: nat)
    requires n <= |rs| && forall i | 0 <= i < n :: !rs[i].occupied
    ensures Count(rs, n) == 0 && Bytes(rs, n) == 0 && Largest(rs, n) == 0
  {
    if n > 0 {
      EmptyTotals(rs, n - 1);
    }
  }

  lemma AddedRange(c: Context, r: Range)
    requires c.Sized()
    ensures AllClear(c.(protected := c.protected + [r])) <==>
              AllClear(c) && forall i | 0 <= i < CAPACITY && c.records[i].occupied :: Clear(c.records[i], r)
  {
    var d := c.(protected := c.protected + [r]);
    assert d.protected[|c.protected|] == r;
    if AllClear(d) {
      forall i, k | 0 <= i < CAPACITY && c.records[i].occupied && 0 <= k < |c.protected|
        ensures Clear(c.records[i], c.protected[k])
      {
        assert d.protected[k] == c.protected[k];
      }
      forall i | 0 <= i < CAPACITY && c.records[i].occupied
        ensures Clear(c.records[i], r)
      {
        assert Clear(d.records[i], d.protected[|c.protected|]);
      }
    }
  }

  lemma RowFails(c: Context, index: nat)
    requires c.Sized() && index < CAPACITY && c.records[index].occupied && BlockOk(c.records[index])
    requires exists j :: index < j < CAPACITY && !PairPasses(c.records[index], c.records[j])
    ensures !c.Registered()
  {
  }

  lemma AllApart(c: Context)
    requires c.Sized() && forall i | 0 <= i < CAPACITY :: BlockOk(c.records[i])
    requires forall i, j | 0 <= i < CAPACITY && i < j < CAPACITY
        && c.records[i].occupied :: PairPasses(c.records[i], c.records[j])
    ensures forall i, j | 0 <= i < j < CAPACITY :: Apart(c.records[i], c.records[j])
  {
    forall i, j | 0 <= i < j < CAPACITY
      ensures Apart(c.records[i], c.records[j])
    {
      if c.records[i].occupied {
        PairIsApart(c.records[i], c.records[j]);
      }
    }
  }

  class Registry {
    var c: Context

    ghost predicate Valid()
      reads this
    {
      c.Inv()
    }

    /** gxos_crt_malloc_context_reset */
    constructor ()
      ensures Valid() && c == EmptyContext()
    {
      c := EmptyContext();
      new;
      EmptyTotals(c.records, CAPACITY);
    }

    /** gxos_crt_malloc_add_protected_range; it does not look at the live blocks. */
    method AddProtected(base: u64, end: u64) returns (ok: bool)
      requires Valid()
      modifies this
      ensures Valid()
      ensures ok <==> 0 != base < end && |old(c).protected| < MAX_PROTECTED
      ensures c == if ok then old(c).(protected := old(c).protected + [Range(base, end)]) else old(c)
      ensures ok ==>
                (AllClear(c) <==> AllClear(old(c)) && forall i | 0 <= i < CAPACITY
                    && c.records[i].occupied :: Clear(c.records[i], Range(base, end)))
    {
      if base == 0 || base >= end || |c.protected| >= MAX_PROTECTED {
        return false;
      }
      c := c.(protected := c.protected + [Range(base, end)]);
      AddedRange(old(c), Range(base, end));
      return true;
    }

    /** The inner loop of gxos_crt_malloc_registry_valid. */
    method RowPasses(index: nat) returns (ok: bool)
      requires c.Sized() && index < CAPACITY
      ensures ok <==> forall j | index < j < CAPACITY :: PairPasses(c.records[index], c.records[j])
    {
      var other := index + 1;
      while other != CAPACITY
        invariant index < other <= CAPACITY
        invariant forall j | index < j < other :: PairPasses(c.records[index], c.records[j])
      {
        var b := c.records[other];
        if b.occupied && (b.pointer == c.records[index].pointer || c.records[index].sequence == b.sequence
                          || Overlaps(c.records[index].pointer, EndOf(c.records[index]), b.pointer, EndOf(b))) {
          assert !PairPasses(c.records[index], c.records[other]);
          return false;
        }
        other := other + 1;
      }
      return true;
    }

    /** gxos_crt_malloc_registry_valid */
    method RegistryValid() returns (ok: bool)
      requires c.Sized()
      ensures ok <==> c.Registered()
    {
      if c.nextSequence == 0 || c.liveCount > CAPACITY || c.releaseCount > CAPACITY || c.nextRelease >= CAPACITY {
        return false;
      }
      var index, live, total, largest := 0, 0, 0, 0;
      while index != CAPACITY
        invariant 0 <= index <= CAPACITY
        invariant forall i | 0 <= i < index :: BlockOk(c.records[i])
        invariant forall i, j | 0 <= i < index && i < j < CAPACITY
            && c.records[i].occupied :: PairPasses(c.records[i], c.records[j])
        invariant live == Count(c.records, index) && total == Bytes(c.records, index)
            && largest == Largest(c.records, index)
      {
        var b := c.records[index];
        if b.occupied {
          if b.pointer == 0 || b.size == 0 || b.size > MAX_REQUEST || b.pointer % 8 != 0 || b.sequence == 0 {
            assert !BlockOk(c.records[index]);
            return false;
          }
          EndDetectsWrap(b);
          if EndOf(b) < b.pointer {
            assert !BlockOk(c.records[index]);
            return false;
          }
          var row := RowPasses(index);
          if !row {
            RowFails(c, index);
            return false;
          }
          TotalsBound(c.records, index);
          if total > MAX_U64 - b.size {
            return false;
          }
          total := total + b.size;
          if b.size > largest {
            largest := b.size;
          }
          live := live + 1;
        }
        index := index + 1;
      }
      AllApart(c);
      return live == c.liveCount && total == c.total && largest == c.largest;
    }

    /** gxos_crt_malloc_find_live_record */
    method FindLive(pointer: u64) returns (slot: Option<nat>)
      requires c.Sized()
      ensures slot.Some? ==> pointer != 0 && LiveAt(c, slot.value, pointer) && slot.value < CAPACITY
      ensures slot == None ==> pointer == 0 || forall i | 0 <= i < CAPACITY :: !LiveAt(c, i, pointer)
    {
      if pointer == 0 {
        return None;
      }
      var index := 0;
      while index != CAPACITY
        invariant 0 <= index <= CAPACITY
        invariant forall i | 0 <= i < index :: !LiveAt(c, i, pointer)
      {
        if c.records[index].occupied && c.records[index].pointer == pointer {
          return Some(index);
        }
        index := index + 1;
      }
      return None;
    }

    /** gxos_crt_malloc_find_live_containing_record */
    method FindContaining(pointer: u64) returns (found: bool)
      requires c.Sized() && forall i | 0 <= i < CAPACITY :: BlockOk(c.records[i])
      ensures found <==> pointer != 0 && exists i :: 0 <= i < CAPACITY && InsideAt(c, i, pointer)
    {
      if pointer == 0 {
        return false;
      }
      var index := 0;
      while index != CAPACITY
        invariant 0 <= index <= CAPACITY
        invariant forall i | 0 <= i < index :: !InsideAt(c, i, pointer)
      {
        var b := c.records[index];
        if b.occupied && b.pointer != pointer && b.size != 0 && b.pointer <= MAX_U64 - b.size {
          if pointer > b.pointer && pointer < b.pointer + b.size {
            assert InsideAt(c, index, pointer);
            return true;
          }
        }
        index := index + 1;
      }
      return false;
    }

    /** gxos_crt_malloc_find_release_record */
    method FindRelease(pointer: u64) returns (found: bool)
      requires Valid()
      ensures found <==> pointer != 0 && RecentlyReleased(c, pointer)
    {
      RingIsRecent(c, pointer);
      if pointer == 0 {
        return false;
      }
      var index := 0;
      while index != c.releaseCount
        invariant 0 <= index <= c.releaseCount
        invariant forall i | 0 <= i < index :: c.ring[i].pointer != pointer
      {
        if c.ring[index].pointer == pointer {
          return true;
        }
        index := index + 1;
      }
      return false;
    }

    /** gxos_crt_malloc_find_free_slot */
    method FindFreeSlot() returns (slot: Option<nat>)
      requires c.Sized()
      ensures slot.Some? ==> slot.value < CAPACITY && !c.records[slot.value].occupied
      ensures slot == None ==> forall i | 0 <= i < CAPACITY :: c.records[i].occupied
    {
      var index := 0;
      while index != CAPACITY
        invariant 0 <= index <= CAPACITY
        invariant forall i | 0 <= i < index :: c.records[i].occupied
      {
        if !c.records[index].occupied {
          return Some(index);
        }
        index := index + 1;
      }
      return None;
    }

    /** gxos_crt_free_recompute_largest */
    method RecomputeLargest() returns (largest: nat)
      requires c.Sized()
      ensures largest == Largest(c.records, CAPACITY)
    {
      largest := 0;
      var index := 0;
      while index != CAPACITY
        invariant 0 <= index <= CAPACITY && largest == Largest(c.records, index)
      {
        if c.records[index].occupied && c.records[index].size > largest {
          largest := c.records[index].size;
        }
        index := index + 1;
      }
    }

    /** gxos_crt_malloc_context_ranges_valid */
    method RangesValid() returns (ok: bool)
      ensures ok <==> |c.protected| <= MAX_PROTECTED && forall i | 0 <= i < |c.protected| :: RangeOk(c.protected[i])
    {
      if |c.protected| > MAX_PROTECTED {
        return false;
      }
      var index := 0;
      while index != |c.protected|
        invariant 0 <= index <= |c.protected|
        invariant forall i | 0 <= i < index :: RangeOk(c.protected[i])
      {
        if c.protected[index].base == 0 || c.protected[index].base >= c.protected[index].end {
          return false;
        }
        index := index + 1;
      }
      return true;
    }

    /** The checks of gxos_crt_malloc_call on what the pool returned. */
    method CheckAnswer(pointer: u64, size: nat) returns (failure: MallocFailure)
      requires Valid() && 0 < size <= MAX_REQUEST
      ensures failure == NoFailure || Rejection(failure)
      ensures failure == NoFailure <==> Acceptable(c, pointer, size) && c.generation < MAX_U64
      ensures failure == NullSuccess <==> pointer == 0
      ensures failure == Unaligned <==> pointer % 8 != 0
      ensures failure == ProtectedOverlap ==>
                exists k :: 0 <= k < |c.protected|
                    && Overlaps(pointer, pointer + size, c.protected[k].base, c.protected[k].end)
      ensures failure == DuplicatePointer ==> exists i :: 0 <= i < CAPACITY && LiveAt(c, i, pointer)
      ensures failure == ExistingOverlap ==>
                exists i :: 0 <= i < CAPACITY && c.records[i].occupied
                            && Overlaps(pointer, pointer + size, c.records[i].pointer, EndOf(c.records[i]))
      ensures failure == AccountingOverflow <==> Acceptable(c, pointer, size) && c.generation == MAX_U64
    {
      hide Context.Inv, Context.Registered, Context.RingOk;
      InvParts(c);
      if pointer == 0 {
        return NullSuccess;
      }
      if pointer % 8 != 0 {
        return Unaligned;
      }
      if pointer > MAX_U64 - size {
        return RangeOverflow;
      }
      var end := pointer + size;
      var index := 0;
      while index != |c.protected|
        invariant 0 <= index <= |c.protected|
        invariant forall k | 0 <= k < index :: end <= c.protected[k].base || c.protected[k].end <= pointer
      {
        if Overlaps(pointer, end, c.protected[index].base, c.protected[index].end) {
          return ProtectedOverlap;
        }
        index := index + 1;
      }
      index := 0;
      while index != CAPACITY
        invariant 0 <= index <= CAPACITY
        invariant forall i | 0 <= i < index && c.records[i].occupied ::
                    end <= c.records[i].pointer || c.records[i].pointer + c.records[i].size <= pointer
      {
        var b := c.records[index];
        if b.occupied {
          assert BlockOk(b);
          if b.pointer == pointer {
            assert LiveAt(c, index, pointer);
            return DuplicatePointer;
          }
          PairIsApart(b, b);
          if Overlaps(pointer, end, b.pointer, EndOf(b)) {
            return ExistingOverlap;
          }
        }
        index := index + 1;
      }
      if c.total > MAX_U64 - size {
        return AccountingOverflow;
      }
      if c.generation == MAX_U64 {
        return AccountingOverflow;
      }
      return NoFailure;
    }

    /**
     * gxos_crt_malloc_call. `services` and `pool` tell which services there are, `answer` is what the
     * pool returns, None for an error status. A block that is refused after all is given back, also
     * one that is live: that happens exactly if the pool answers the pointer of a live block.
     */
    method Malloc(size: nat, services: bool, pool: bool, answer: Option<u64>)
      returns (result: u64, failure: MallocFailure, givenBack: bool)
      requires Valid()
      modifies this
      ensures Valid()
      ensures failure != MalformedRegistry && failure != InvalidProtectedRange
      ensures failure == NoFailure <==>
                && 0 < size <= MAX_REQUEST && services && pool
                && (exists i :: 0 <= i < CAPACITY && !old(c).records[i].occupied)
                && old(c).nextSequence < MAX_U64 && old(c).generation < MAX_U64
                && answer.Some? && Acceptable(old(c), answer.value, size)
      ensures failure == NoFailure ==>
                && answer == Some(result) && result != 0
                && exists slot :: CanGrant(old(c), slot, result, size) && c == old(c).Grant(slot, result, size)
      ensures failure == NoFailure ==> Adds(old(c), c, result, size)
      ensures failure != NoFailure ==> result == 0 && c == old(c)
      ensures failure == ZeroSize <==> size == 0
      ensures failure == SizeLimit <==> size > 0xC_8000
      ensures failure == BootServicesUnavailable <==> 0 < size <= 0xC_8000 && !services
      ensures failure == PoolServiceUnavailable <==> 0 < size <= 0xC_8000 && services && !pool
      ensures failure == MetadataExhausted <==>
                && 0 < size <= 0xC_8000 && services && pool
                && forall i | 0 <= i < CAPACITY :: old(c).records[i].occupied
      ensures failure == PoolAllocation ==> answer == None
      ensures givenBack ==> failure != NoFailure && answer.Some?
      ensures givenBack <==> Rejection(failure)
      ensures givenBack && IsLive(old(c), answer.value) <==>
                && 0 < size <= MAX_REQUEST && services && pool
                && (exists i :: 0 <= i < CAPACITY && !old(c).records[i].occupied)
                && old(c).nextSequence < MAX_U64
                && answer.Some? && IsLive(old(c), answer.value)
      ensures failure == DuplicatePointer ==> answer.Some? && IsLive(old(c), answer.value)
    {
      hide Context.Inv, Context.Registered, Context.RingOk, Acceptable, CanGrant, Adds;
      InvParts(c);
      result, failure, givenBack := 0, NoFailure, false;
      var valid := RegistryValid();
      var ranges := RangesValid();
      if !valid {
        failure := MalformedRegistry;
        return;
      }
      if !ranges {
        failure := InvalidProtectedRange;
        return;
      }
      if size == 0 {
        failure := ZeroSize;
        return;
      }
      if size > MAX_REQUEST {
        failure := SizeLimit;
        return;
      }
      if !services {
        failure := BootServicesUnavailable;
        return;
      }
      if !pool {
        failure := PoolServiceUnavailable;
        return;
      }
      var slot := FindFreeSlot();
      if slot == None {
        failure := MetadataExhausted;
        return;
      }
      if c.nextSequence == MAX_U64 {
        failure := SequenceExhausted;
        return;
      }
      if answer == None {
        failure := PoolAllocation;
        return;
      }
      LiveIsRefused(c, answer.value, size);
      failure := CheckAnswer(answer.value, size);
      if failure != NoFailure {
        givenBack := true;
        return;
      }
      result := answer.value;
      AcceptableGrant(c, slot.value, result, size);
      c := c.(records := c.records[slot.value := Block(true, result, size, c.nextSequence, |c.protected|)],
              nextSequence := c.nextSequence + 1, liveCount := c.liveCount + 1, total := c.total + size,
              largest := if size > c.largest then size else c.largest, generation := c.generation + 1,
              grants := c.grants + 1);
      assert c == old(c).Grant(slot.value, result, size);
      GrantAdds(old(c), slot.value, result, size);
    }

    /** gxos_crt_free_remember_release */
    method RememberRelease(b: Block, registrySlot: nat)
      requires c.Sized() && c.RingOk()
      modifies this
      ensures var released := Release(b.pointer, b.size, b.sequence, |old(c).releases|, registrySlot);
              c == old(c).(
                ring := old(c).ring[|old(c).releases| % CAPACITY := released], releases := old(c).releases + [released],
                releaseCount := if old(c).releaseCount < CAPACITY then old(c).releaseCount + 1 else old(c).releaseCount,
                nextRelease := (|old(c).releases| + 1) % CAPACITY)
    {
      var slot := c.nextRelease;
      if c.releaseCount < CAPACITY {
        slot := c.releaseCount;
        c := c.(releaseCount := c.releaseCount + 1);
      }
      ghost var n := |c.releases|;
      assert slot == n % CAPACITY;
      NextSlot(n);
      var released := Release(b.pointer, b.size, b.sequence, |c.releases|, registrySlot);
      c := c.(nextRelease := (slot + 1) % CAPACITY, ring := c.ring[slot := released],
          releases := c.releases + [released]);
    }

    /**
     * gxos_crt_free_call. `service` tells whether the pool can release, `status` is its answer. A
     * pointer that is no live block is classified by where it lies and by the last 64 releases.
     */
    method Free(pointer: u64, service: bool, status: nat) returns (r: FreeResult)
      requires Valid()
      modifies this
      ensures Valid()
      ensures r == NullIgnored <==> pointer == 0
      ensures r != Malformed
      ensures r == InteriorPointer <==>
                && (forall i | 0 <= i < CAPACITY :: !LiveAt(old(c), i, pointer))
                && (exists i :: 0 <= i < CAPACITY && InsideAt(old(c), i, pointer))
      ensures r == DoubleFree <==>
                && pointer != 0 && RecentlyReleased(old(c), pointer)
                && forall i | 0 <= i < CAPACITY :: !LiveAt(old(c), i, pointer) && !InsideAt(old(c), i, pointer)
      ensures r == UnknownPointer <==>
                && pointer != 0 && !RecentlyReleased(old(c), pointer)
                && forall i | 0 <= i < CAPACITY :: !LiveAt(old(c), i, pointer) && !InsideAt(old(c), i, pointer)
      ensures r == Freed <==>
                && service && status == 0 && old(c).generation < MAX_U64
                && pointer != 0 && exists i :: 0 <= i < CAPACITY && LiveAt(old(c), i, pointer)
      ensures r == Freed ==>
                exists slot :: 0 <= slot < CAPACITY && LiveAt(old(c), slot, pointer) && Dropped(old(c), c, slot)
      ensures r == ServiceUnavailable <==> pointer != 0 && IsLive(old(c), pointer) && !service
      ensures r == AccountingFailure <==>
                pointer != 0 && IsLive(old(c), pointer) && service && old(c).generation == MAX_U64
      ensures r == BackingRelease <==>
                pointer != 0 && IsLive(old(c), pointer) && service && old(c).generation < MAX_U64 && status != 0
      ensures r == Freed ==> Removes(old(c), c, pointer)
      ensures r != Freed ==> c == old(c)
    {
      hide Context.Inv, Context.Registered, Context.RingOk, RecentlyReleased, Removes;
      if pointer == 0 {
        NullIsNotLive(c);
        return NullIgnored;
      }
      InvParts(c);
      var valid := RegistryValid();
      if !valid {
        return Malformed;
      }
      var found := FindLive(pointer);
      if found == None {
        var interior := FindContaining(pointer);
        if interior {
          return InteriorPointer;
        }
        var double := FindRelease(pointer);
        return if double then DoubleFree else UnknownPointer;
      }
      var slot := found.value;
      LiveIsNotInside(c, slot, pointer);
      OccupiedCounts(c.records, slot, CAPACITY);
      if !service {
        return ServiceUnavailable;
      }
      var b := c.records[slot];
      if c.liveCount == 0 || c.total < b.size || c.generation == MAX_U64 {
        return AccountingFailure;
      }
      if status != 0 {
        return BackingRelease;
      }
      DropInv(c, slot);
      RememberRelease(b, slot);
      c := c.(records := c.records[slot := NO_BLOCK], liveCount := c.liveCount - 1, total := c.total - b.size);
      var largest := RecomputeLargest();
      c := c.(largest := largest, generation := c.generation + 1);
      assert c == old(c).Drop(slot);
      DropRemoves(old(c), slot, pointer);
      return Freed;
    }

    /** Every run of calls, whatever the pool answers, keeps the registry sound and its accounting exact. */
    method Perform(calls: seq<Call>)
      requires Valid()
      modifies this
      ensures Valid() && old(c).releases <= c.releases && old(c).grants <= c.grants
    {
      var n := 0;
      while n != |calls|
        invariant 0 <= n <= |calls| && Valid()
        invariant old(c).releases <= c.releases && old(c).grants <= c.grants
      {
        match calls[n] {
          case ProtectCall(base, end) => var _ := AddProtected(base, end);
          case MallocCall(size, services, pool, answer) => var _, _, _ := Malloc(size, services, pool, answer);
          case FreeCall(pointer, service, status) => var _ := Free(pointer, service, status);
        }
        n := n + 1;
      }
    }
  }

  /** The pool's first answer is acceptable, and a range over it is not clear of it. */
  lemma FirstGrant()
    ensures exists i :: 0 <= i < CAPACITY && !EmptyContext().records[i].occupied
    ensures Acceptable(EmptyContext(), 0x1000, 16)
    ensures forall slot | 0 <= slot < CAPACITY ::
              var c := EmptyContext().Grant(slot, 0x1000, 16);
              c.records[slot].occupied && !Clear(c.records[slot], Range(0x1000, 0x2000))
  {
    assert !EmptyContext().records[0].occupied;
  }

  /** One block leaves a free slot, and is live. */
  lemma FreeSlotLeft(c: Context)
    requires exists slot :: 0 <= slot < CAPACITY && c == EmptyContext().Grant(slot, 0x1000, 16)
    ensures exists i :: 0 <= i < CAPACITY && !c.records[i].occupied
    ensures IsLive(c, 0x1000) && c.nextSequence < MAX_U64 && |c.records| == CAPACITY
  {
    var slot :| 0 <= slot < CAPACITY && c == EmptyContext().Grant(slot, 0x1000, 16);
    assert LiveAt(c, slot, 0x1000);
    assert !c.records[if slot == 0 then 1 else 0].occupied;
  }

  /** Protecting a range over a block that was handed out before leaves the two overlapping. */
  method ProtectedCanOverlap() returns (r: Registry)
    ensures r.Valid() && !AllClear(r.c)
  {
    hide Context.Inv, Registry.Valid;
    r := new Registry();
    FirstGrant();
    var pointer, failure, givenBack := r.Malloc(16, true, true, Some(0x1000));
    var added := r.AddProtected(0x1000, 0x2000);
  }

  /** A pool that answers a live pointer gets the block back while it stays registered. */
  method LiveIsGivenBack() returns (r: Registry, givenBack: bool)
    ensures r.Valid() && givenBack && IsLive(r.c, 0x1000)
  {
    hide Context.Inv, Registry.Valid, Acceptable;
    r := new Registry();
    FirstGrant();
    var pointer, failure;
    pointer, failure, givenBack := r.Malloc(16, true, true, Some(0x1000));
    FreeSlotLeft(r.c);
    pointer, failure, givenBack := r.Malloc(16, true, true, Some(0x1000));
  }

  /** A pointer that was freed is found out when it is freed again. */
  method FreeTwice(r: Registry, pointer: u64) returns (first: FreeResult, second: FreeResult)
    requires r.Valid()
    modifies r
    ensures r.Valid() && (first == Freed ==> second == DoubleFree)
  {
    hide Context.Inv, RecentlyReleased, Removes;
    first := r.Free(pointer, true, 0);
    if first == Freed {
      RemovedIsDouble(old(r.c), r.c, pointer);
    }
    second := r.Free(pointer, true, 0);
  }

  /**
   * A block that was handed out cannot be handed out again, and is freed by its pointer and by no
   * other address inside it.
   */
  method Borrow(r: Registry, size: nat, answer: u64, inside: u64)
    returns (given: bool, again: MallocFailure, interior: FreeResult, freed: FreeResult)
    requires r.Valid() && r.c.generation < MAX_U64 - 1 && answer < inside < answer + size
    modifies r
    ensures r.Valid()
    ensures given ==> again != NoFailure && interior == InteriorPointer && freed == Freed
  {
    hide Context.Inv, Context.Registered, RecentlyReleased, Removes, Acceptable, CanGrant;
    again, interior, freed := NoFailure, NullIgnored, NullIgnored;
    var pointer, failure, givenBack := r.Malloc(size, true, true, Some(answer));
    given := failure == NoFailure;
    if !given {
      return;
    }
    OneOwner(r.c, answer, inside);
    InvParts(r.c);
    LiveIsRefused(r.c, answer, size);
    var other;
    other, again, givenBack := r.Malloc(size, true, true, Some(answer));
    interior := r.Free(inside, true, 0);
    freed := r.Free(answer, true, 0);
  }

  /** An address inside a live block is not the pointer of another. */
  lemma OneOwner(c: Context, pointer: u64, inside: u64)
    requires c.Inv()
    ensures forall i | 0 <= i < CAPACITY && LiveAt(c, i, pointer) && pointer < inside < pointer + c.records[i].size ::
              InsideAt(c, i, inside) && forall j | 0 <= j < CAPACITY :: !LiveAt(c, j, inside)
  {
    forall i, j | 0 <= i < CAPACITY && 0 <= j < CAPACITY && LiveAt(c, i, pointer)
                  && pointer < inside < pointer + c.records[i].size
      ensures InsideAt(c, i, inside) && !LiveAt(c, j, inside)
    {
      assert i < j ==> Apart(c.records[i], c.records[j]);
      assert j < i ==> Apart(c.records[j], c.records[i]);
      assert BlockOk(c.records[i]) && BlockOk(c.records[j]);
    }
  }
}
