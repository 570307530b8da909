/**
 * GXOS_VM_ARENA: reserve, reserve_any, commit_page, decommit_page and release over the two fixed
 * tables, each stated as one update of the books.
 */
module Arena {
  import opened Words
  import opened Packing
  import opened ArenaBooks

  datatype VmStatus =
    | Ok
    | InvalidArgument
    | OutsideArena
    | Overflow
    | Overlap
    | Capacity
    | NotFound
    | CommitOverlap
    | CommitOutsideReservation
    | CommittedReservation
    | Alignment
    | InvalidState

  /** The range lies in the arena and touches no live reservation. */
  ghost predicate Fits(b: Books, base: u64, bytes: u64) {
    && RangeContains(b.base, b.length, base, bytes)
    && forall k | 0 <= k < |b.reservations| :: Apart(Span(true, base, bytes), ReservationSpan(b.reservations[k]))
  }

  predicate Holds(r: Reservation, address: u64) {
    r.live && r.base <= address < r.base + r.bytes
  }

  predicate Backs(c: Commitment, address: u64) {
    c.live && c.base <= address < c.base + c.bytes
  }

  function NewReservation(base: u64, bytes: u64, requested: u64, kind: nat, owner: nat, generation: u64): Reservation {
    Reservation(true, base, bytes, requested, kind, owner, Reserved, generation, 0)
  }

  /** The record of a reservation says where it lies, how large it is, and what, for whom and when it was asked for. */
  ghost predicate Recorded(r: Reservation, base: u64, bytes: int, requested: u64, kind: nat, owner: nat,
                           generation: u64)
  {
    && r.live && r.base == base && r.bytes == bytes && r.requestedBytes == requested
    && r.kind == kind && r.owner == owner && r.generation == generation && r.committedBytes == 0
  }

  function PageCommitment(slot: nat, page: u64, physical: u64, generation: u64): Commitment {
    Commitment(true, slot, page, 0x1000, physical, 1, Committed, generation)
  }

  /** The lowest 64 KiB-aligned base at which `bytes` bytes fit. */
  ghost predicate FirstFit(b: Books, bytes: u64, base: u64) {
    && base % 0x1_0000 == 0 && Fits(b, base, bytes)
    && NoneBelow(b, bytes, base)
  }

  /** A free table slot and some aligned base for the page-rounded request. */
  ghost predicate CanReserveAny(b: Books, requested: u64, generation: u64) {
    && 0 < requested <= MAX_U64 - 0xFFF && generation != 0 && b.reservationCount < MAX_RESERVATIONS
    && exists c: u64 :: c % 0x1_0000 == 0 && Fits(b, c, PageCeiling(requested))
  }

  ghost predicate NoneBelow(b: Books, bytes: u64, limit: int) {
    forall c: u64 | c % 0x1_0000 == 0 && c < limit :: !Fits(b, c, bytes)
  }

  /** No aligned base below the granule after a conflicting reservation fits either. */
  lemma SkipReservation(b: Books, bytes: u64, candidate: u64, k: nat)
    requires NoneBelow(b, bytes, candidate) && k < |b.reservations| && bytes > 0
    requires b.reservations[k].live && b.reservations[k].base + b.reservations[k].bytes <= MAX_U64
    requires !Apart(Span(true, candidate, bytes), ReservationSpan(b.reservations[k]))
    ensures NoneBelow(b, bytes, GranuleCeiling(b.reservations[k].base + b.reservations[k].bytes))
  {
  }

  lemma NoneBeyond(b: Books, bytes: u64, candidate: int)
    requires NoneBelow(b, bytes, candidate) && candidate + bytes > b.base + b.length
    ensures NoneBelow(b, bytes, 0x1_0000_0000_0000_0000)
  {
  }

  // ---- When a first-fit search runs past the last address ----

  /** Reservation `k` is in the way of `bytes` bytes at `candidate`. */
  ghost predicate Blocks(b: Books, bytes: u64, candidate: int, k: nat)
    requires k < |b.reservations|
  {
    !Apart(Span(true, candidate, bytes), ReservationSpan(b.reservations[k]))
  }

  ghost predicate NextCandidate(b: Books, bytes: u64, candidate: int, next: int)
    requires b.Sound()
  {
    && (exists k | 0 <= k < |b.reservations| :: Blocks(b, bytes, candidate, k) && next == EndGranule(b, k))
    && (forall k | 0 <= k < |b.reservations| && Blocks(b, bytes, candidate, k) :: EndGranule(b, k) <= next)
  }

  /** The first granule after reservation `k`. */
  ghost function EndGranule(b: Books, k: nat): int
    requires b.Sound() && k < |b.reservations|
  {
    assert b.ReservationOk(k);
    if b.reservations[k].live then GranuleCeiling(b.reservations[k].base + b.reservations[k].bytes) else 0
  }

  lemma GranuleBound(end: u64, next: int)
    requires next % 0x1_0000 == 0
    ensures GranuleCeiling(end) <= next <==> end <= next
    ensures GranuleCeiling(end) <= 0x1_0000_0000_0000_0000
  {
  }

  lemma EndGranuleFacts(b: Books, k: nat, next: int)
    requires b.Sound() && k < |b.reservations| && next % 0x1_0000 == 0
    ensures b.reservations[k].live ==>
              && b.reservations[k].base + b.reservations[k].bytes <= MAX_U64
              && EndGranule(b, k) == GranuleCeiling(b.reservations[k].base + b.reservations[k].bytes)
              && (EndGranule(b, k) <= next <==> b.reservations[k].base + b.reservations[k].bytes <= next)
              && b.reservations[k].base + b.reservations[k].bytes <= EndGranule(b, k) <= 0x1_0000_0000_0000_0000
              && EndGranule(b, k) % 0x1_0000 == 0
  {
    hide GranuleCeiling;
    assert b.ReservationOk(k);
    if b.reservations[k].live {
      GranuleBound(b.reservations[k].base + b.reservations[k].bytes, next);
    }
  }

  /** The scan may stop early once the next candidate leaves 64 bits. */
  lemma FurthestIsNext(b: Books, bytes: u64, candidate: int, next: int, blocker: nat, seen: nat)
    requires b.Sound() && blocker < |b.reservations| && Blocks(b, bytes, candidate, blocker)
    requires next == EndGranule(b, blocker)
    requires seen == |b.reservations| || next > MAX_U64
    requires forall k | 0 <= k < seen && k < |b.reservations|
        && Blocks(b, bytes, candidate, k) :: EndGranule(b, k) <= next
    ensures NextCandidate(b, bytes, candidate, next) && next <= 0x1_0000_0000_0000_0000
  {
    EndGranuleFacts(b, blocker, 0x1_0000_0000_0000_0000);
    forall k | 0 <= k < |b.reservations| && Blocks(b, bytes, candidate, k)
      ensures EndGranule(b, k) <= next <= 0x1_0000_0000_0000_0000
    {
      EndGranuleFacts(b, k, 0x1_0000_0000_0000_0000);
    }
  }

  /** From `candidate` on, skipping what is in the way leads past the last 64-bit address. */
  ghost predicate Overruns(b: Books, bytes: u64, candidate: int)
    requires b.Sound()
    decreases 0x2_0000_0000_0000_0000 - candidate
  {
    || candidate > MAX_U64
    || (candidate + bytes <= b.base + b.length && exists next: int | candidate < next <= 0x1_0000_0000_0000_0000 ::
          NextCandidate(b, bytes, candidate, next) && Overruns(b, bytes, next))
  }

  /** The request cannot be rounded to pages, or the search for it overruns. */
  ghost predicate SearchOverflows(b: Books, requested: u64) {
    && b.Sound()
    && (requested > MAX_U64 - 0xFFF || Overruns(b, PageCeiling(requested), GranuleCeiling(b.base)))
  }

  lemma OverrunsStep(b: Books, bytes: u64, candidate: int, next: int)
    requires b.Sound() && NextCandidate(b, bytes, candidate, next)
    requires candidate <= MAX_U64 && candidate + bytes <= b.base + b.length
    requires candidate < next <= 0x1_0000_0000_0000_0000
    ensures Overruns(b, bytes, candidate) <==> Overruns(b, bytes, next)
  {
  }

  lemma NoOverrunHere(b: Books, bytes: u64, candidate: u64)
    requires b.Sound() && Fits(b, candidate, bytes)
    ensures !Overruns(b, bytes, candidate)
  {
  }

  /** No search overruns in an arena that ends below the last granule. */
  lemma {:induction false} NoOverrun(b: Books, bytes: u64, candidate: int)
    requires b.Sound() && b.base + b.length <= MAX_U64 - 0xFFFF && candidate <= MAX_U64
    ensures !Overruns(b, bytes, candidate)
    decreases MAX_U64 - candidate
  {
    hide LiveBytes, LiveCount, Disjoint;
    if candidate + bytes <= b.base + b.length {
      forall next: int | candidate < next && NextCandidate(b, bytes, candidate, next)
        ensures next <= MAX_U64 && !Overruns(b, bytes, next)
      {
        var k :| 0 <= k < |b.reservations| && Blocks(b, bytes, candidate, k) && next == EndGranule(b, k);
        assert b.ReservationOk(k);
        NoOverrun(b, bytes, next);
      }
    }
  }

  /** Some sound books over the arena make some request overrun. */
  ghost predicate CanOverrun(base: u64, length: u64) {
    exists b: Books, requested: u64 | b.Sound() && b.base == base && b.length == length
        && 0 < requested <= MAX_U64 - 0xFFF ::
      Overruns(b, PageCeiling(requested), GranuleCeiling(base))
  }

  /** The arenas whose search may overrun: aligning the base leaves 64 bits, or the arena meets the last granule. */
  predicate MeetsLastGranule(base: u64, length: u64) {
    || GranuleCeiling(base) > MAX_U64
    || (GranuleCeiling(base) + 0x1000 <= base + length && base + length > MAX_U64 - 0xFFFF)
  }

  /** Reservations of an arena that is full from end to end. */
  function FullBooks(base: u64, length: u64, slot: nat): Books
    requires slot < MAX_RESERVATIONS
  {
    EmptyBooks(base, length, 1).AddReservation(slot, NewReservation(base, length, length, 0, 0, 1))
  }

  lemma FullOverruns(base: u64, length: u64, slot: nat)
    requires 0 < length && base + length <= MAX_U64 && slot < MAX_RESERVATIONS && MeetsLastGranule(base, length)
    ensures FullBooks(base, length, slot).Sound()
    ensures Overruns(FullBooks(base, length, slot), 0x1000, GranuleCeiling(base))
  {
    var b := FullBooks(base, length, slot);
    var start := GranuleCeiling(base);
    EmptySound(base, length, 1);
    AddReservationSound(EmptyBooks(base, length, 1), slot, NewReservation(base, length, length, 0, 0, 1));
    if start <= MAX_U64 {
      assert Blocks(b, 0x1000, start, slot) && EndGranule(b, slot) == 0x1_0000_0000_0000_0000;
      assert NextCandidate(b, 0x1000, start, 0x1_0000_0000_0000_0000);
    }
  }

  /** Exactly the arenas in which the search can answer OVERFLOW to a request that can be rounded. */
  lemma OverrunIsExact(base: u64, length: u64)
    requires 0 < length && base + length <= MAX_U64
    ensures CanOverrun(base, length) <==> MeetsLastGranule(base, length)
  {
    if MeetsLastGranule(base, length) {
      FullOverruns(base, length, 0);
      assert PageCeiling(1) == 0x1000;
      var b := FullBooks(base, length, 0);
      assert Overruns(b, PageCeiling(1), GranuleCeiling(base));
    } else if CanOverrun(base, length) {
      var b: Books, requested: u64 :| b.Sound() && b.base == base && b.length == length
          && 0 < requested <= MAX_U64 - 0xFFF
        && Overruns(b, PageCeiling(requested), GranuleCeiling(base));
      assert PageCeiling(requested) >= 0x1000;
      if base + length <= MAX_U64 - 0xFFFF {
        NoOverrun(b, PageCeiling(requested), GranuleCeiling(base));
      }
    }
  }

  // ---- How many candidates a first-fit search can try ----

  ghost function Passed(rs: seq<Reservation>, candidate: int): (spans: seq<Span>)
    ensures |spans| == |rs|
  {
    seq(|rs|, i requires 0 <= i < |rs| =>
      Span(rs[i].live && rs[i].base + rs[i].bytes <= candidate, rs[i].base, rs[i].bytes))
  }

  lemma {:induction false} CountGrows(a: seq<Span>, b: seq<Span>)
    requires |a| == |b| && forall i | 0 <= i < |a| :: a[i].live ==> b[i].live
    ensures LiveCount(a) <= LiveCount(b)
    ensures (exists i | 0 <= i < |a| :: !a[i].live && b[i].live) ==> LiveCount(a) < LiveCount(b)
  {
    if a != [] {
      var n := |a| - 1;
      assert forall i | 0 <= i < n :: a[..n][i] == a[i] && b[..n][i] == b[i];
      CountGrows(a[..n], b[..n]);
      if i :| 0 <= i < |a| && !a[i].live && b[i].live {
        if i < n {
          assert !a[..n][i].live && b[..n][i].live;
        }
      }
    }
  }

  /** Each rejected candidate passes a reservation for good. */
  lemma CandidatePasses(b: Books, candidate: int, next: int, k: nat)
    requires k < |b.reservations| && b.reservations[k].live && candidate <= next
    requires candidate < b.reservations[k].base + b.reservations[k].bytes <= next
    ensures LiveCount(Passed(b.reservations, candidate)) + 1 <= LiveCount(Passed(b.reservations, next))
  {
    var x, y := Passed(b.reservations, candidate), Passed(b.reservations, next);
    assert !x[k].live && y[k].live;
    CountGrows(x, y);
  }

  predicate IsPage(c: Commitment, page: u64) {
    c.live && c.base == page && c.bytes == 0x1000
  }

  ghost predicate HasPage(b: Books, page: u64) {
    exists i | 0 <= i < |b.commitments| :: IsPage(b.commitments[i], page)
  }

  ghost predicate InReservation(b: Books, page: u64) {
    exists k | 0 <= k < |b.reservations| ::
      b.reservations[k].live && RangeContains(b.reservations[k].base, b.reservations[k].bytes, page, 0x1000)
  }

  lemma HolderIsUnique(b: Books, page: u64, slot: nat)
    requires b.Sound() && slot < |b.reservations| && Holds(b.reservations[slot], page)
    ensures InReservation(b, page) ==>
              RangeContains(b.reservations[slot].base, b.reservations[slot].bytes, page, 0x1000)
  {
    var spans := ReservationSpans(b.reservations);
    if InReservation(b, page) {
      var k :| 0 <= k < |b.reservations| && b.reservations[k].live
        && RangeContains(b.reservations[k].base, b.reservations[k].bytes, page, 0x1000);
      assert spans[k].live && spans[slot].live;
    }
  }

  /** Page-aligned single pages with different bases do not touch. */
  lemma NewPageApart(b: Books, i: nat, c: Commitment)
    requires b.Sound() && i < |b.commitments| && c.bytes == 0x1000 && c.base % 0x1000 == 0
    requires !HasPage(b, c.base)
    ensures forall j | 0 <= j < |b.commitments| :: Apart(CommitmentSpan(c), CommitmentSpan(b.commitments[j]))
  {
  }

  lemma SoundShape(b: Books)
    requires b.Sound()
    ensures b.valid && |b.reservations| == MAX_RESERVATIONS && |b.commitments| == MAX_COMMITMENTS
  {
  }

  lemma SoundReservation(b: Books, k: nat)
    requires b.Sound() && k < |b.reservations|
    ensures b.ReservationOk(k) && b.base + b.length <= MAX_U64
  {
  }

  lemma NoHolder(b: Books, page: u64)
    requires forall k | 0 <= k < |b.reservations| :: !Holds(b.reservations[k], page)
    ensures !InReservation(b, page)
  {
  }

  /** The reservation found for a page decides whether the page can be committed. */
  lemma HolderDecides(b: Books, page: u64, slot: nat)
    requires b.Sound() && slot < |b.reservations| && Holds(b.reservations[slot], page)
    ensures InReservation(b, page) <==>
        RangeContains(b.reservations[slot].base, b.reservations[slot].bytes, page, 0x1000)
    ensures RangeContains(b.reservations[slot].base, b.reservations[slot].bytes, page, 0x1000) ==>
              RangeContains(b.base, b.length, page, 0x1000) && b.base + b.length <= MAX_U64
  {
    HolderIsUnique(b, page, slot);
    assert b.ReservationOk(slot);
  }

  lemma NewPageFits(b: Books, free: nat, c: Commitment)
    requires b.Sound() && free < |b.commitments| && !b.commitments[free].live && c.slot < |b.reservations|
    requires c == PageCommitment(c.slot, c.base, c.physical, c.generation) && !HasPage(b, c.base)
    requires c.base % 0x1000 == 0 && c.physical != 0 && c.generation != 0 && b.reservations[c.slot].live
    requires RangeContains(b.reservations[c.slot].base, b.reservations[c.slot].bytes, c.base, 0x1000)
    ensures CanCommit(b, free, c) && b.AddCommitment(free, c).Sound()
    ensures b.totalCommitted + 0x1000 <= MAX_U64 && b.reservations[c.slot].committedBytes + 0x1000 <= MAX_U64
  {
    NewPageApart(b, free, c);
    AddCommitmentSound(b, free, c);
    PackedTotals(b.AddCommitment(free, c));
    assert b.AddCommitment(free, c).ReservationOk(c.slot);
  }

  lemma SomethingCommitted(b: Books, slot: nat)
    requires b.Sound() && slot < |b.reservations| && b.reservations[slot].live
        && b.reservations[slot].committedBytes != 0
    ensures exists i | 0 <= i < |b.commitments| :: b.commitments[i].live && b.commitments[i].slot == slot
  {
    if forall i | 0 <= i < |b.commitments| :: b.commitments[i].live ==> b.commitments[i].slot != slot {
      NothingCommitted(b, slot);
    }
  }

  lemma PassedBound(b: Books, candidate: int)
    requires b.Sound()
    ensures LiveCount(Passed(b.reservations, candidate)) <= b.reservationCount <= MAX_RESERVATIONS
  {
    CountGrows(Passed(b.reservations, candidate), ReservationSpans(b.reservations));
    CountBound(ReservationSpans(b.reservations));
  }

  /** The 64-bit total cannot overflow: the reservations are packed in the arena. */
  lemma AddReservationPacked(b: Books, slot: nat, r: Reservation)
    requires b.Sound() && CanReserve(b, slot, r)
    ensures b.totalReserved + r.bytes <= b.length
  {
    AddReservationSound(b, slot, r);
    PackedTotals(b.AddReservation(slot, r));
  }

  /** What was requested, and for whom, may be recorded instead of the rounded size. */
  lemma RequestSound(b: Books, slot: nat, base: u64, requested: u64, kind: nat, owner: nat, generation: u64)
    requires b.Sound() && slot < |b.reservations| && !b.reservations[slot].live
    requires 0 < requested <= MAX_U64 - 0xFFF && generation != 0 && Fits(b, base, PageCeiling(requested))
    ensures var r := NewReservation(base, PageCeiling(requested), requested, kind, owner, generation);
            b.AddReservation(slot, r).Sound()
    ensures slot < |b.reservations| == MAX_RESERVATIONS
  {
    AddReservationSound(b, slot, NewReservation(base, PageCeiling(requested), requested, kind, owner, generation));
  }

  class VmArena {
    var books: Books

    /** gxos_vm_arena_init on an arena for which `valid` comes out true. */
    constructor (base: u64, length: u64, generation: u64)
      requires generation != 0 && length != 0 && base <= MAX_U64 - length
      ensures Valid() && books == EmptyBooks(base, length, generation)
    {
      books := EmptyBooks(base, length, generation);
      new;
      EmptySound(base, length, generation);
    }

    ghost predicate Valid()
      reads this
    {
      books.Sound()
    }

    /** gxos_vm_arena_contains; a range of no bytes lies nowhere. */
    predicate Covers(base: u64, bytes: u64)
      reads this
    {
      books.valid && Contains(books.base, books.length, base, bytes)
    }

    /** gxos_vm_arena_find_reservation */
    method FindReservation(address: u64) returns (found: bool, slot: nat)
      requires Valid()
      ensures found ==> slot < |books.reservations| && Holds(books.reservations[slot], address)
      ensures !found ==> forall k | 0 <= k < |books.reservations| :: !Holds(books.reservations[k], address)
    {
      slot := 0;
      while slot != MAX_RESERVATIONS
        invariant slot <= MAX_RESERVATIONS
        invariant forall k | 0 <= k < slot :: !Holds(books.reservations[k], address)
      {
        if Holds(books.reservations[slot], address) {
          return true, slot;
        }
        slot := slot + 1;
      }
      return false, 0;
    }

    /** gxos_vm_arena_find_commitment */
    method FindCommitment(address: u64) returns (found: bool, slot: nat)
      requires Valid()
      ensures found ==> slot < |books.commitments| && Backs(books.commitments[slot], address)
      ensures !found ==> forall i | 0 <= i < |books.commitments| :: !Backs(books.commitments[i], address)
    {
      slot := 0;
      while slot != MAX_COMMITMENTS
        invariant slot <= MAX_COMMITMENTS
        invariant forall i | 0 <= i < slot :: !Backs(books.commitments[i], address)
      {
        if Backs(books.commitments[slot], address) {
          return true, slot;
        }
        slot := slot + 1;
      }
      return false, 0;
    }

    /** The scan for a dead reservation slot. */
    method FreeReservationSlot() returns (slot: nat)
      requires Valid()
      ensures slot <= MAX_RESERVATIONS
      ensures slot < MAX_RESERVATIONS ==> !books.reservations[slot].live
      ensures slot == MAX_RESERVATIONS <==> books.reservationCount >= MAX_RESERVATIONS
    {
      slot := 0;
      while slot != MAX_RESERVATIONS && books.reservations[slot].live
        invariant slot <= MAX_RESERVATIONS
        invariant forall k | 0 <= k < slot :: books.reservations[k].live
      {
        slot := slot + 1;
      }
      var spans := ReservationSpans(books.reservations);
      CountBound(spans);
      assert slot < MAX_RESERVATIONS ==> !spans[slot].live;
    }

    /** The scan for a dead commitment slot. */
    method FreeCommitmentSlot() returns (slot: nat)
      requires Valid()
      ensures slot <= MAX_COMMITMENTS
      ensures slot < MAX_COMMITMENTS ==> !books.commitments[slot].live
      ensures slot == MAX_COMMITMENTS <==> books.commitmentCount >= MAX_COMMITMENTS
    {
      slot := 0;
      while slot != MAX_COMMITMENTS && books.commitments[slot].live
        invariant slot <= MAX_COMMITMENTS
        invariant forall i | 0 <= i < slot :: books.commitments[i].live
      {
        slot := slot + 1;
      }
      var spans := CommitmentSpans(books.commitments);
      CountBound(spans);
      assert slot < MAX_COMMITMENTS ==> !spans[slot].live;
    }

    /** The overlap scan of gxos_vm_arena_reserve. */
    method TouchesReservation(base: u64, bytes: u64) returns (overlap: bool)
      requires Valid() && bytes != 0
      ensures overlap <==> exists k | 0 <= k < |books.reservations| ::
                !Apart(Span(true, base, bytes), ReservationSpan(books.reservations[k]))
    {
      var index := 0;
      while index != MAX_RESERVATIONS
        invariant 0 <= index <= MAX_RESERVATIONS
        invariant forall k | 0 <= k < index :: Apart(Span(true, base, bytes), ReservationSpan(books.reservations[k]))
      {
        var r := books.reservations[index];
        if r.live && RangesOverlap(base, bytes, r.base, r.bytes) {
          assert !Apart(Span(true, base, bytes), ReservationSpan(books.reservations[index]));
          return true;
        }
        index := index + 1;
      }
      return false;
    }

    /** gxos_vm_arena_reserve: any base and size, recorded as requested. */
    method Reserve(base: u64, bytes: u64, kind: nat, generation: u64) returns (status: VmStatus, slot: nat)
      requires Valid()
      modifies this
      ensures Valid()
      ensures !status.Ok? ==> books == old(books)
      ensures status.Ok? ==>
                && slot < MAX_RESERVATIONS && !old(books.reservations)[slot].live
                && books == old(books).AddReservation(slot, NewReservation(base, bytes, bytes, kind, 0, generation))
                && Recorded(books.reservations[slot], base, bytes, bytes, kind, 0, generation)
      ensures status.Ok? <==> (
                && bytes != 0 && generation != 0 && base <= MAX_U64 - bytes
                && Fits(old(books), base, bytes) && old(books.reservationCount) < MAX_RESERVATIONS)
      ensures status.InvalidArgument? <==> bytes == 0 || generation == 0
      ensures status.OutsideArena? || status.Overlap? || status.Overflow? ==> !Fits(old(books), base, bytes)
      ensures status.Capacity? ==> old(books.reservationCount) >= MAX_RESERVATIONS
      ensures status in {VmStatus.Ok, InvalidArgument, Overflow, OutsideArena, VmStatus.Overlap, Capacity}
    {
      slot := 0;
      if !books.valid || generation == 0 || bytes == 0 {
        return InvalidArgument, 0;
      }
      if base > MAX_U64 - bytes {
        return Overflow, 0;
      }
      if !Covers(base, bytes) {
        return OutsideArena, 0;
      }
      var overlap := TouchesReservation(base, bytes);
      if overlap {
        return VmStatus.Overlap, 0;
      }
      if books.reservationCount >= MAX_RESERVATIONS {
        return Capacity, 0;
      }
      slot := FreeReservationSlot();
      var r := NewReservation(base, bytes, bytes, kind, 0, generation);
      AddReservationSound(books, slot, r);
      AddReservationPacked(books, slot, r);
      if books.totalReserved + bytes > MAX_U64 {
        status := Overflow;
        return;
      }
      books := books.(
        reservations := books.reservations[slot := r],
        reservationCount := books.reservationCount + 1,
        totalReserved := books.totalReserved + bytes);
      return Ok, slot;
    }

    /** gxos_vm_arena_reserve_fixed: an aligned base, the size rounded to pages, the request and owner recorded. */
    method ReserveFixed(base: u64, requested: u64, kind: nat, owner: nat, generation: u64)
      returns (status: VmStatus, slot: nat)
      requires Valid()
      modifies this
      ensures Valid()
      ensures !status.Ok? ==> books == old(books)
      ensures status.Ok? ==>
                && slot < MAX_RESERVATIONS && !old(books.reservations)[slot].live && PageCeiling(requested) <= MAX_U64
                && books == old(books).AddReservation(slot,
                     NewReservation(base, PageCeiling(requested), requested, kind, owner, generation))
                && Recorded(books.reservations[slot], base, PageCeiling(requested), requested, kind, owner, generation)
      ensures status.Ok? <==> (
                && 0 < requested <= MAX_U64 - 0xFFF && generation != 0 && base % 0x1_0000 == 0
                && base <= MAX_U64 - PageCeiling(requested)
                && Fits(old(books), base, PageCeiling(requested)) && old(books.reservationCount) < MAX_RESERVATIONS)
      ensures status.Alignment? <==> requested != 0 && base % 0x1_0000 != 0
      ensures status.InvalidArgument? <==>
                || requested == 0
                || (base % 0x1_0000 == 0 && requested <= MAX_U64 - 0xFFF && generation == 0)
      ensures status.OutsideArena? || status.Overlap? || status.Overflow? ==>
                requested > MAX_U64 - 0xFFF || !Fits(old(books), base, PageCeiling(requested))
      ensures status.Capacity? ==> old(books.reservationCount) >= MAX_RESERVATIONS
      ensures status in {VmStatus.Ok, InvalidArgument, Alignment, Overflow, OutsideArena, VmStatus.Overlap, Capacity}
    {
      hide Books.Sound, Fits;
      slot := 0;
      if requested == 0 {
        return InvalidArgument, 0;
      }
      if base % 0x1_0000 != 0 {
        return Alignment, 0;
      }
      if requested > MAX_U64 - 0xFFF {
        return Overflow, 0;
      }
      ghost var before := books;
      SoundShape(books);
      var bytes: u64 := PageCeiling(requested);
      status, slot := Reserve(base, bytes, kind, generation);
      if !status.Ok? {
        return;
      }
      RequestSound(before, slot, base, requested, kind, owner, generation);
      books := books.(reservations := books.reservations[slot :=
        books.reservations[slot].(requestedBytes := requested, owner := owner, state := Reserved)]);
      assert books.reservations
          == before.reservations[slot := NewReservation(base, bytes, requested, kind, owner, generation)];
    }

    /**
     * One round of the search: does `candidate` conflict, and which candidate is next?
     * A next candidate beyond the 64-bit range is the code's overflow exit.
     */
    method TryCandidate(candidate: u64, bytes: u64) returns (conflict: bool, next: int)
      requires Valid() && bytes != 0 && candidate % 0x1_0000 == 0
      requires books.base <= candidate && candidate + bytes <= books.base + books.length
      requires NoneBelow(books, bytes, candidate)
      ensures !conflict ==> Fits(books, candidate, bytes)
      ensures conflict ==>
                && next % 0x1_0000 == 0 && candidate < next <= 0x1_0000_0000_0000_0000
                && NextCandidate(books, bytes, candidate, next) && NoneBelow(books, bytes, next)
                && !Fits(books, candidate, bytes)
                && LiveCount(Passed(books.reservations, candidate)) + 1 <= LiveCount(Passed(books.reservations, next))
    {
      hide Books.Sound, NoneBelow, LiveCount, Passed, GranuleCeiling, NextCandidate;
      SoundShape(books);
      conflict, next := false, candidate;
      var index := 0;
      ghost var blocker := 0;
      while index != MAX_RESERVATIONS
        invariant 0 <= index <= MAX_RESERVATIONS && 0 <= blocker < MAX_RESERVATIONS
        invariant (!conflict ==> next == candidate) && candidate <= next && next % 0x1_0000 == 0
        invariant !conflict ==> forall k | 0 <= k < index ::
                      Apart(Span(true, candidate, bytes), ReservationSpan(books.reservations[k]))
        invariant conflict ==>
                    var w := books.reservations[blocker];
                    && w.live && !Apart(Span(true, candidate, bytes), ReservationSpan(w))
                    && candidate < w.base + w.bytes <= MAX_U64
                    && next == GranuleCeiling(w.base + w.bytes)
        invariant forall k | 0 <= k < index && Blocks(books, bytes, candidate, k) :: EndGranule(books, k) <= next
      {
        SoundReservation(books, index);
        EndGranuleFacts(books, index, next);
        var r := books.reservations[index];
        if r.live && RangesOverlap(candidate, bytes, r.base, r.bytes) {
          if !conflict || r.base + r.bytes > next {
            next := GranuleCeiling(r.base + r.bytes);
            blocker := index;
          }
          conflict := true;
          if next > MAX_U64 {
            break;
          }
        }
        index := index + 1;
      }
      if conflict {
        FurthestIsNext(books, bytes, candidate, next, blocker, index);
        SkipReservation(books, bytes, candidate, blocker);
        CandidatePasses(books, candidate, next, blocker);
      }
    }

    /**
     * gxos_vm_arena_reserve_any: exact first fit. `rounds` counts the candidates tried.
     */
    method ReserveAny(requested: u64, kind: nat, owner: nat, generation: u64)
      returns (status: VmStatus, base: u64, slot: nat, ghost rounds: nat)
      requires Valid()
      modifies this
      ensures Valid()
      ensures !status.Ok? ==> books == old(books)
      ensures status.Ok? ==>
                && slot < MAX_RESERVATIONS && !old(books.reservations)[slot].live
                && PageCeiling(requested) <= MAX_U64 && FirstFit(old(books), PageCeiling(requested), base)
                && books == old(books).AddReservation(slot,
                     NewReservation(base, PageCeiling(requested), requested, kind, owner, generation))
                && Recorded(books.reservations[slot], base, PageCeiling(requested), requested, kind, owner, generation)
      ensures requested != 0 && generation != 0 && requested <= MAX_U64 - 0xFFF ==>
                (status.OutsideArena? || status.Overflow? <==>
                 forall c: u64 | c % 0x1_0000 == 0 :: !Fits(old(books), c, PageCeiling(requested)))
      ensures requested != 0 && generation != 0 ==>
                (status.Overflow? <==> SearchOverflows(old(books), requested))
      ensures status.Capacity? ==> old(books.reservationCount) >= MAX_RESERVATIONS
      ensures status.InvalidArgument? <==> requested == 0 || generation == 0
      ensures status.Ok? <==> CanReserveAny(old(books), requested, generation)
      ensures status in {VmStatus.Ok, InvalidArgument, Overflow, OutsideArena, Capacity}
      ensures rounds <= old(books.reservationCount) + 1
    {
      base, slot, rounds := 0, 0, 0;
      if requested == 0 || !books.valid || generation == 0 {
        return InvalidArgument, 0, 0, 0;
      }
      if requested > MAX_U64 - 0xFFF {
        return Overflow, 0, 0, 0;
      }
      var bytes: u64 := PageCeiling(requested);
      var arenaEnd := books.base + books.length;
      var candidate: int := GranuleCeiling(books.base);
      assert NoneBelow(books, bytes, candidate);
      while candidate + bytes <= arenaEnd
        invariant books == old(books)
        invariant candidate % 0x1_0000 == 0 && books.base <= candidate
        invariant NoneBelow(books, bytes, candidate)
        invariant Overruns(books, bytes, GranuleCeiling(books.base)) <==> Overruns(books, bytes, candidate)
        invariant rounds <= LiveCount(Passed(books.reservations, candidate))
        decreases arenaEnd - candidate
      {
        var conflict, next := TryCandidate(candidate, bytes);
        rounds := rounds + 1;
        PassedBound(books, candidate);
        if !conflict {
          NoOverrunHere(books, bytes, candidate);
          status, slot := ReserveFixed(candidate, requested, kind, owner, generation);
          base := candidate;
          return;
        }
        OverrunsStep(books, bytes, candidate, next);
        candidate := next;
      }
      NoneBeyond(books, bytes, candidate);
      PassedBound(books, candidate);
      return if candidate > MAX_U64 then Overflow else OutsideArena, 0, 0, rounds;
    }

    /** The scan of gxos_vm_arena_commit_page for an exact live page. */
    method FindPage(page: u64) returns (found: bool, index: nat)
      requires Valid()
      ensures found ==> index < |books.commitments| && IsPage(books.commitments[index], page)
      ensures !found ==> forall i | 0 <= i < |books.commitments| :: !IsPage(books.commitments[i], page)
    {
      index := 0;
      while index != MAX_COMMITMENTS
        invariant index <= MAX_COMMITMENTS
        invariant forall i | 0 <= i < index :: !IsPage(books.commitments[i], page)
      {
        if IsPage(books.commitments[index], page) {
          return true, index;
        }
        index := index + 1;
      }
      return false, 0;
    }

    /** gxos_vm_arena_commit_page */
    method CommitPage(page: u64, physical: u64, generation: u64)
      returns (status: VmStatus, already: bool, slot: nat, ghost index: nat)
      requires Valid()
      modifies this
      ensures Valid()
      ensures !status.Ok? || already ==> books == old(books)
      ensures already ==> HasPage(old(books), page)
      ensures status.Ok? && !already ==>
                && slot < MAX_RESERVATIONS && index < MAX_COMMITMENTS
                && CanCommit(old(books), index, PageCommitment(slot, page, physical, generation))
                && books == old(books).AddCommitment(index, PageCommitment(slot, page, physical, generation))
                && IsPage(books.commitments[index], page) && books.commitments[index].physical == physical
                && books.commitments[index].slot == slot && books.commitments[index].generation == generation
      ensures status.Ok? && !already <==> (
                && generation != 0 && physical != 0 && page % 0x1000 == 0 && physical % 0x1000 == 0
                && InReservation(old(books), page) && !HasPage(old(books), page)
                && old(books.commitmentCount) < MAX_COMMITMENTS)
    {
      hide Books.Sound, CanCommit, InReservation;
      already, slot, index := false, 0, 0;
      if generation == 0 || physical == 0 {
        return InvalidArgument, false, 0, 0;
      }
      if page % 0x1000 != 0 || physical % 0x1000 != 0 {
        return Alignment, false, 0, 0;
      }
      SoundShape(books);
      var inside;
      inside, slot := FindReservation(page);
      if !inside {
        NoHolder(books, page);
        return CommitOutsideReservation, false, 0, 0;
      }
      var r := books.reservations[slot];
      HolderDecides(books, page, slot);
      if !Covers(page, 0x1000) || !RangeContains(r.base, r.bytes, page, 0x1000) {
        return CommitOutsideReservation, false, 0, 0;
      }
      var found, at := FindPage(page);
      if found {
        assert HasPage(books, page);
        if books.commitments[at].physical != physical {
          return CommitOverlap, false, 0, 0;
        }
        return Ok, true, 0, 0;
      }
      if books.commitmentCount >= MAX_COMMITMENTS {
        return Capacity, false, 0, 0;
      }
      var free := FreeCommitmentSlot();
      var c := PageCommitment(slot, page, physical, generation);
      NewPageFits(books, free, c);
      if books.totalCommitted + 0x1000 > MAX_U64 || r.committedBytes + 0x1000 > MAX_U64 {
        status := Overflow;
        return;
      }
      books := books.(
        commitments := books.commitments[free := c],
        commitmentCount := books.commitmentCount + 1,
        totalCommitted := books.totalCommitted + 0x1000,
        reservations := books.reservations[slot :=
            r.(committedBytes := r.committedBytes + 0x1000, state := Committed)]);
      return Ok, false, slot, free;
    }

    /** gxos_vm_arena_decommit_page */
    method DecommitPage(page: u64) returns (status: VmStatus, physical: u64, ghost index: nat)
      requires Valid()
      modifies this
      ensures Valid()
      ensures !status.Ok? ==> books == old(books)
      ensures status.Ok? ==>
                && index < MAX_COMMITMENTS && IsPage(old(books).commitments[index], page)
                && old(books).commitments[index].slot < MAX_RESERVATIONS
                && books == old(books).DropCommitment(index) && physical == old(books).commitments[index].physical
      ensures status.Ok? <==> page % 0x1000 == 0 && HasPage(old(books), page)
    {
      physical, index := 0, 0;
      if page % 0x1000 != 0 {
        return InvalidArgument, 0, 0;
      }
      var found, at := FindPage(page);
      if !found {
        return NotFound, 0, 0;
      }
      var c := books.commitments[at];
      assert books.CommitmentOk(at) && HasPage(books, page);
      if c.slot >= MAX_RESERVATIONS {
        status := InvalidState;
        return;
      }
      DropCommitmentTables(books, at);
      DropCommitmentSound(books, at);
      LiveIsCounted(CommitmentSpans(books.commitments), at);
      var r := books.reservations[c.slot];
      if !r.live || books.commitmentCount == 0 || books.totalCommitted < 0x1000 || r.committedBytes < 0x1000 {
        status := InvalidState;
        return;
      }
      var left := r.committedBytes - 0x1000;
      books := books.(
        commitments := books.commitments[at := NO_COMMITMENT],
        commitmentCount := books.commitmentCount - 1,
        totalCommitted := books.totalCommitted - 0x1000,
        reservations := books.reservations[c.slot :=
            r.(committedBytes := left, state := if left == 0 then Reserved else r.state)]);
      return Ok, c.physical, at;
    }

    /** gxos_vm_arena_release: a released reservation leaves no commitment behind. */
    method Release(slot: nat) returns (status: VmStatus)
      requires Valid()
      modifies this
      ensures Valid()
      ensures !status.Ok? ==> books == old(books)
      ensures status.Ok? ==> slot < MAX_RESERVATIONS && books == old(books).DropReservation(slot)
      ensures status.Ok? <==> (
                && slot < MAX_RESERVATIONS && old(books).reservations[slot].live
                && forall i | 0 <= i < MAX_COMMITMENTS ::
                     old(books).commitments[i].live ==> old(books).commitments[i].slot != slot)
    {
      if !books.valid || slot >= MAX_RESERVATIONS {
        return InvalidArgument;
      }
      var r := books.reservations[slot];
      if !r.live {
        return NotFound;
      }
      if r.committedBytes != 0 {
        SomethingCommitted(books, slot);
        return CommittedReservation;
      }
      DropReservationSound(books, slot);
      LiveIsCounted(ReservationSpans(books.reservations), slot);
      if books.reservationCount == 0 || books.totalReserved < r.bytes {
        status := InvalidArgument;
        return;
      }
      books := books.(
        totalReserved := books.totalReserved - r.bytes,
        reservationCount := books.reservationCount - 1,
        reservations := books.reservations[slot := NO_RESERVATION]);
      return Ok;
    }

    /** gxos_vm_arena_available: exact, because packed reservations never exceed the arena. */
    method Available() returns (bytes: int)
      requires Valid()
      ensures bytes == books.length - LiveBytes(ReservationSpans(books.reservations)) && 0 <= bytes <= books.length
    {
      PackedTotals(books);
      if !books.valid || books.totalReserved > books.length {
        bytes := 0;
        return;
      }
      return books.length - books.totalReserved;
    }
  }

  /** In each of those arenas one reservation of the whole arena makes the search answer OVERFLOW. */
  method FullArenaOverflows(base: u64, length: u64) returns (status: VmStatus)
    requires 0 < length && base + length <= MAX_U64 && MeetsLastGranule(base, length)
    ensures status.Overflow?
  {
    var arena := new VmArena(base, length, 1);
    ghost var empty := arena.books;
    var slot, found;
    status, slot := arena.Reserve(base, length, 0, 1);
    assert Fits(empty, base, length);
    FullOverruns(base, length, slot);
    assert PageCeiling(1) == 0x1000;
    ghost var rounds;
    status, found, slot, rounds := arena.ReserveAny(1, 0, 0, 1);
  }

  /** Some reservation starts there. */
  ghost predicate Held(b: Books, at: int) {
    exists k :: 0 <= k < |b.reservations| && b.reservations[k].live && b.reservations[k].base == at
  }

  /** No reservation other than `slot` meets the granule there. */
  ghost predicate FreeBut(b: Books, slot: nat, at: int) {
    forall k | 0 <= k < |b.reservations| && k != slot ::
      Apart(Span(true, at, 0x1_0000), ReservationSpan(b.reservations[k]))
  }

  /** With the granules below `at` held and that one free, a search for up to a granule stops there. */
  lemma NextGranule(b: Books, size: u64, at: u64)
    requires b.Sound() && 0 < size <= 0x1_0000 && b.reservationCount < MAX_RESERVATIONS
    requires b.base % 0x1_0000 == 0 && at % 0x1_0000 == 0 && b.base <= at && at + 0x1_0000 <= b.base + b.length
    requires forall g | b.base <= g < at && g % 0x1_0000 == 0 :: Held(b, g)
    requires FreeBut(b, MAX_RESERVATIONS, at)
    ensures CanReserveAny(b, size, 1)
    ensures forall c: u64 :: FirstFit(b, PageCeiling(size), c) ==> c == at
  {
    hide LiveBytes, LiveCount;
    var bytes := PageCeiling(size);
    assert Fits(b, at, bytes);
    forall c: u64 | c % 0x1_0000 == 0 && c < at
      ensures !Fits(b, c, bytes)
    {
      if c >= b.base {
        assert Held(b, c);
        var k :| 0 <= k < |b.reservations| && b.reservations[k].live && b.reservations[k].base == c;
        assert b.ReservationOk(k);
        assert !Apart(Span(true, c, bytes), ReservationSpan(b.reservations[k]));
      }
    }
  }

  lemma AfterReserve(b: Books, slot: nat, r: Reservation, at: int, other: nat)
    requires slot < |b.reservations| == MAX_RESERVATIONS && !b.reservations[slot].live && r.live
    ensures Held(b.AddReservation(slot, r), r.base)
    ensures Held(b, at) ==> Held(b.AddReservation(slot, r), at)
    ensures FreeBut(b, other, at) && Apart(Span(true, at, 0x1_0000), ReservationSpan(r)) ==>
              FreeBut(b.AddReservation(slot, r), other, at)
    ensures FreeBut(b, MAX_RESERVATIONS, at) ==> FreeBut(b.AddReservation(slot, r), slot, at)
  {
    var c := b.AddReservation(slot, r);
    assert c.reservations[slot] == r;
    if Held(b, at) {
      var k :| 0 <= k < |b.reservations| && b.reservations[k].live && b.reservations[k].base == at;
      assert c.reservations[k] == b.reservations[k];
    }
  }

  lemma EmptyIsFree(base: u64, length: u64)
    requires base + length <= MAX_U64
    ensures forall at: int :: FreeBut(EmptyBooks(base, length, 1), MAX_RESERVATIONS, at)
  {
  }

  lemma OnePage()
    ensures PageCeiling(1) == 0x1000
  {
  }

  /** A released place is free again, if nothing else met it. */
  lemma AfterRelease(b: Books, slot: nat, at: int)
    requires slot < |b.reservations| && FreeBut(b, slot, at)
    ensures FreeBut(b.DropReservation(slot), MAX_RESERVATIONS, at)
  {
  }

  /** In an empty arena one byte takes the first granule, the next request the granule after it. */
  method FirstFitRun(base: u64, length: u64, size: u64) returns (first: u64, second: u64, again: u64)
    requires base % 0x1_0000 == 0 && 0x2_0000 <= length && base + length <= MAX_U64 && 0 < size <= 0x1_0000
    ensures first == base && second == base + 0x1_0000 && again == base
  {
    hide Books.Sound, FirstFit, CanReserveAny, Held, FreeBut, SearchOverflows, Fits;
    var arena := new VmArena(base, length, 1);
    ghost var empty := arena.books;
    var status, slot, other;
    ghost var rounds;
    EmptyIsFree(base, length);
    NextGranule(empty, 1, base);
    status, first, slot, rounds := arena.ReserveAny(1, 0, 0, 1);
    ghost var one := NewReservation(base, 0x1000, 1, 0, 0, 1);
    OnePage();
    AfterReserve(empty, slot, one, base, slot);
    AfterReserve(empty, slot, one, base + 0x1_0000, MAX_RESERVATIONS);
    ghost var held := arena.books;
    NextGranule(held, size, base + 0x1_0000);
    status, second, other, rounds := arena.ReserveAny(size, 0, 0, 1);
    AfterReserve(held, other, NewReservation(second, PageCeiling(size), size, 0, 0, 1), base, slot);
    ghost var both := arena.books;
    status := arena.Release(slot);
    AfterRelease(both, slot, base);
    NextGranule(arena.books, size, base);
    status, again, slot, rounds := arena.ReserveAny(size, 0, 0, 1);
  }
}
