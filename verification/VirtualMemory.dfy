/**
 * gxos_vm_commit_range and the public VirtualAlloc and VirtualFree on top of the arena, the page
 * tables and the data-page allocator.
 */
module VirtualMemory {
  import opened Words
  import opened PageFormat
  import opened PageTree
  import opened Packing
  import opened ArenaBooks
  import opened Coherence
  import Arena
  import Paging

  datatype CommitOutcome = Existing | Made | Refused | Mismatch

  datatype Created = Created(page: u64, physical: u64)

  /** The page lies in a live reservation, and the commitment table has a free slot. */
  ghost predicate Committable(b: Books, page: u64) {
    Arena.InReservation(b, page) && b.commitmentCount < MAX_COMMITMENTS
  }

  lemma CommittableInArena(b: Books, tables: Paging.PageTables, page: u64)
    requires b.Sound() && tables.Valid() && page % 0x1000 == 0
    requires b.base == tables.arenaBase && b.length == tables.arenaLength
    ensures Committable(b, page) ==> Paging.ArenaContainsPage(tables.arenaBase, tables.arenaLength, page)
  {
    if Committable(b, page) {
      var k :| 0 <= k < |b.reservations| && b.reservations[k].live
        && RangeContains(b.reservations[k].base, b.reservations[k].bytes, page, 0x1000);
      assert b.ReservationOk(k);
      Paging.ArenaPage(tables.arenaBase, tables.arenaLength, page);
    }
  }

  ghost predicate AllReserved(b: Books, start: u64, count: nat)
    requires start + 0x1000 * count <= MAX_U64
  {
    forall k | 0 <= k < count :: Arena.InReservation(b, start + 0x1000 * k)
  }

  /** Pages of the range that are not mapped yet and pages committed already fit the commitment table. */
  ghost predicate RoomFor(before: View, start: u64, count: nat)
    requires start + 0x1000 * count <= MAX_U64
  {
    before.books.commitmentCount + count - CountMapped(before.pages, start, count) <= MAX_COMMITMENTS
  }

  lemma ExistingIsMapped(v: View, page: u64, slot: nat)
    requires v.Coherent() && slot < |v.books.commitments| && Arena.Backs(v.books.commitments[slot], page)
    requires page % 0x1000 == 0
    ensures v.books.commitments[slot].base == page && v.books.commitments[slot].physical != 0
    ensures page in v.pages && v.pages[page].address == v.books.commitments[slot].physical
  {
    assert v.Backed(slot);
  }

  lemma BackedFacts(v: View, address: u64, slot: nat)
    requires v.Coherent() && slot < |v.books.commitments| && Arena.Backs(v.books.commitments[slot], address)
    ensures PageOf(address) in v.pages && v.pages[PageOf(address)].address == v.books.commitments[slot].physical
    ensures v.books.commitments[slot].physical in v.outstanding
    ensures v.books.base <= address < v.books.base + v.books.length
  {
    assert v.Backed(slot) && v.books.CommitmentOk(slot);
    assert v.books.ReservationOk(v.books.commitments[slot].slot);
  }

  lemma CommittedBacks(b: Books, address: u64)
    requires Arena.HasPage(b, PageOf(address))
    ensures exists i | 0 <= i < |b.commitments| :: Arena.Backs(b.commitments[i], address)
  {
    var i :| 0 <= i < |b.commitments| && Arena.IsPage(b.commitments[i], PageOf(address));
    assert Arena.Backs(b.commitments[i], address);
  }

  lemma NotBackedFacts(v: View, address: u64)
    requires v.Coherent()
    requires forall i | 0 <= i < |v.books.commitments| :: !Arena.Backs(v.books.commitments[i], address)
    ensures PageOf(address) !in v.pages
  {
    if PageOf(address) in v.pages {
      CommittedBacks(v.books, address);
    }
  }

  /** What a mapping lets its users do. */
  datatype Access = Access(writable: bool, noExecute: bool)

  predicate Grants(entry: Entry, access: Access) {
    entry.present && !entry.large && entry.writable == access.writable && entry.noExecute == access.noExecute
  }

  /** Every page that is mapped in `after` only is mapped with that access. */
  ghost predicate Granted(before: map<u64, Entry>, after: map<u64, Entry>, access: Access) {
    forall p | p in after && p !in before :: Grants(after[p], access)
  }

  lemma InstallFacts(before: View, page: u64, physical: u64, writable: bool, noExecute: bool)
    requires before.Coherent() && Aligned({physical})
    ensures before.books.Sound() && (page in before.pages <==> Arena.HasPage(before.books, page))
    ensures physical % 0x1000 == 0 && physical != 0
    ensures MakeEntry(physical, writable, noExecute).address == physical
    ensures Grants(MakeEntry(physical, writable, noExecute), Access(writable, noExecute))
  {
    assert physical in {physical};
    MappedIffCommitted(before, page, 0);
    MadeAddress(physical, writable, noExecute);
    MadeFlags(physical, writable, noExecute);
  }

  lemma DropFacts(v: View, page: u64, index: nat)
    requires v.Coherent() && index < |v.books.commitments| && Arena.IsPage(v.books.commitments[index], page)
    ensures v.books.Sound() && Arena.HasPage(v.books, page) && page % 0x1000 == 0
    ensures v.books.commitments[index].physical in v.outstanding && v.books.commitments[index].physical != 0
    ensures page in v.pages && v.pages[page].address == v.books.commitments[index].physical
    ensures v.books.commitments[index].slot < |v.books.reservations| && |v.books.commitments| == MAX_COMMITMENTS
    ensures v.Drop(index).Coherent()
  {
    assert v.Backed(index) && v.books.CommitmentOk(index);
    DropCoherent(v, index);
  }

  lemma DropIndex(v: View, page: u64, index: nat, at: nat)
    requires v.Coherent() && index < |v.books.commitments| && Arena.IsPage(v.books.commitments[index], page)
    requires at < |v.books.commitments| && Arena.IsPage(v.books.commitments[at], page)
    ensures at == index
  {
    SamePageSameSlot(v.books, index, at);
  }

  lemma UndoFacts(s: Step)
    requires Undoable(s)
    ensures s.index < |s.before.books.commitments| && s.c.slot < |s.before.books.reservations|
    ensures Arena.IsPage(s.before.Commit(s.index, s.c, s.entry).books.commitments[s.index], s.c.base)
    ensures s.before.Commit(s.index, s.c, s.entry).books.commitments[s.index].physical == s.c.physical
    ensures s.before.Commit(s.index, s.c, s.entry).Drop(s.index) == s.before
  {
    DropUndoesCommit(s.before, s.index, s.c, s.entry);
  }

  datatype CommitStatus =
    | Ok
    | InvalidArgument
    | Overflow
    | OutsideReservation
    | Allocation
    | Inconsistent
    | Capacity

  lemma VisitFacts(v: View, page: u64)
    requires v.Coherent()
    ensures v.books.Sound() && (page in v.pages <==> Arena.HasPage(v.books, page))
  {
    MappedIffCommitted(v, page, 0);
  }

  lemma NotBacked(v: View, page: u64)
    requires v.Coherent() && forall i | 0 <= i < |v.books.commitments| :: !Arena.Backs(v.books.commitments[i], page)
    ensures !Arena.HasPage(v.books, page)
  {
  }

  /** `after` is `before` with every page of the range mapped and no other page changed. */
  ghost predicate Filled(before: map<u64, Entry>, after: map<u64, Entry>, start: u64, count: nat)
    requires start + 0x1000 * count <= MAX_U64
  {
    && (forall p | p in before :: p in after && after[p] == before[p])
    && (forall p | p in after :: p in before || start <= p < start + 0x1000 * count)
    && (forall p: u64 | start <= p < start + 0x1000 * count && p % 0x1000 == 0 :: p in after)
  }

  /** A range with an unmapped page does not count as full. */
  lemma {:induction false} NotAllMapped(pages: map<u64, Entry>, start: u64, count: nat, k: nat)
    requires start + 0x1000 * count <= MAX_U64 && k < count && start + 0x1000 * k !in pages
    ensures CountMapped(pages, start, count) < count
  {
    if k < count - 1 {
      NotAllMapped(pages, start, count - 1, k);
    }
  }

  lemma RefusedPage(first: View, now: Books, start: u64, count: nat, k: nat)
    requires start + 0x1000 * count <= MAX_U64 && k < count && start + 0x1000 * k !in first.pages
    requires SameReservations(first.books, now)
    requires now.commitmentCount + CountMapped(first.pages, start, k) == first.books.commitmentCount + k
    ensures Committable(now, start + 0x1000 * k) || !AllReserved(first.books, start, count)
        || !RoomFor(first, start, count)
  {
    UnmappedGrows(first.pages, start, k, count);
    if AllReserved(first.books, start, count) {
      assert Arena.InReservation(first.books, start + 0x1000 * k);
    }
  }

  lemma {:induction false} UnmappedGrows(pages: map<u64, Entry>, start: u64, k: nat, count: nat)
    requires start + 0x1000 * count <= MAX_U64 && k < count && start + 0x1000 * k !in pages
    ensures k - CountMapped(pages, start, k) < count - CountMapped(pages, start, count)
  {
    if k < count - 1 {
      UnmappedGrows(pages, start, k, count - 1);
    }
  }

  lemma FilledNext(before: map<u64, Entry>, after: map<u64, Entry>, start: u64, k: nat)
    requires start + 0x1000 * (k + 1) <= MAX_U64 && Filled(before, after, start, k)
    ensures start + 0x1000 * k in after <==> start + 0x1000 * k in before
    ensures CountMapped(before, start, k + 1)
         == CountMapped(before, start, k) + (if start + 0x1000 * k in before then 1 else 0)
  {
  }

  lemma FilledStep(before: map<u64, Entry>, after: map<u64, Entry>, start: u64, k: nat, entry: Entry)
    requires start % 0x1000 == 0 && start + 0x1000 * (k + 1) <= MAX_U64 && Filled(before, after, start, k)
    requires start + 0x1000 * k !in after
    ensures Filled(before, after[start + 0x1000 * k := entry], start, k + 1)
  {
  }

  lemma FilledExisting(before: map<u64, Entry>, after: map<u64, Entry>, start: u64, k: nat)
    requires start % 0x1000 == 0 && start + 0x1000 * (k + 1) <= MAX_U64 && Filled(before, after, start, k)
    requires start + 0x1000 * k in after
    ensures Filled(before, after, start, k + 1)
  {
  }

  /** Committing pages leaves every reservation where it is. */
  ghost predicate SameReservations(a: Books, b: Books) {
    && |b.reservations| == |a.reservations| && b.reservationCount == a.reservationCount
    && b.totalReserved == a.totalReserved && b.base == a.base && b.length == a.length
    && forall k | 0 <= k < |a.reservations| ::
         b.reservations[k].live == a.reservations[k].live && b.reservations[k].base == a.reservations[k].base
         && b.reservations[k].bytes == a.reservations[k].bytes
  }

  /**
   * From `a` to `b` commitments were only added, for pages of the range, and only reservations that
   * meet the range were charged.
   */
  ghost predicate OnlyAdds(a: Books, b: Books, start: u64, count: nat) {
    && |b.commitments| == |a.commitments| && |b.reservations| == |a.reservations|
    && b.valid == a.valid && b.base == a.base && b.length == a.length && b.generation == a.generation
    && (forall i | 0 <= i < |a.commitments| ::
          || b.commitments[i] == a.commitments[i]
          || (!a.commitments[i].live && b.commitments[i].live
              && start <= b.commitments[i].base < start + 0x1000 * count))
    && (forall k | 0 <= k < |a.reservations| ::
          || b.reservations[k] == a.reservations[k]
          || (a.reservations[k].live && Meets(a.reservations[k], start, count)))
  }

  predicate Meets(r: Reservation, start: u64, count: nat) {
    start < r.base + r.bytes && r.base < start + 0x1000 * count
  }

  lemma OnlyAddsMore(a: Books, b: Books, start: u64, k: nat)
    requires OnlyAdds(a, b, start, k)
    ensures OnlyAdds(a, b, start, k + 1)
  {
  }

  lemma OnlyAddsStep(a: Books, s: Step, start: u64, k: nat)
    requires OnlyAdds(a, s.before.books, start, k) && SameReservations(a, s.before.books)
    requires Undoable(s) && s.c.base == start + 0x1000 * k
    ensures s.c.slot < |s.before.books.reservations| && s.index < |s.before.books.commitments|
    ensures OnlyAdds(a, s.before.Commit(s.index, s.c, s.entry).books, start, k + 1)
  {
    var b, c := s.before.books, s.before.Commit(s.index, s.c, s.entry).books;
    var r := a.reservations[s.c.slot];
    assert RangeContains(b.reservations[s.c.slot].base, b.reservations[s.c.slot].bytes, s.c.base, 0x1000);
    assert r.live && Meets(r, start, k + 1);
    forall j | 0 <= j < |a.reservations|
      ensures c.reservations[j] == a.reservations[j]
          || (a.reservations[j].live && Meets(a.reservations[j], start, k + 1))
    {
      assert j != s.c.slot ==> c.reservations[j] == b.reservations[j];
    }
  }

  lemma SameReservationsStep(a: Books, s: Step)
    requires SameReservations(a, s.before.books) && Undoable(s)
    ensures s.c.slot < |s.before.books.reservations| && s.index < |s.before.books.commitments|
    ensures SameReservations(a, s.before.Commit(s.index, s.c, s.entry).books)
  {
  }

  /** The loop of gxos_vm_commit_range after `k` pages: which are new, and how to take them back. */
  ghost predicate Progress(first: View, now: View, start: u64, k: nat, created: seq<Created>, steps: seq<Step>,
      access: Access)
    requires start + 0x1000 * k <= MAX_U64
  {
    && Listed(created, steps) && Chain(first, steps, now)
    && Filled(first.pages, now.pages, start, k) && Granted(first.pages, now.pages, access)
    && |created| + CountMapped(first.pages, start, k) == k
    && SameReservations(first.books, now.books) && OnlyAdds(first.books, now.books, start, k)
    && now.books.commitmentCount == first.books.commitmentCount + |created|
  }

  /** The pages to take back, in the order of the steps. */
  ghost predicate Listed(created: seq<Created>, steps: seq<Step>) {
    && |created| == |steps|
    && forall k | 0 <= k < |steps| :: created[k] == Created(steps[k].c.base, steps[k].c.physical)
  }

  lemma ProgressStart(first: View, start: u64, access: Access)
    ensures Progress(first, first, start, 0, [], [], access)
  {
  }

  lemma ProgressMade(first: View, start: u64, k: nat, created: seq<Created>, steps: seq<Step>, s: Step,
      access: Access)
    requires start % 0x1000 == 0 && start + 0x1000 * (k + 1) <= MAX_U64
    requires Progress(first, s.before, start, k, created, steps, access)
    requires Undoable(s) && s.c.base == start + 0x1000 * k && s.c.base !in s.before.pages && Grants(s.entry, access)
    ensures s.c.slot < |s.before.books.reservations| && s.index < |s.before.books.commitments|
    ensures Progress(first, s.before.Commit(s.index, s.c, s.entry), start, k + 1,
                     created + [Created(s.c.base, s.c.physical)], steps + [s], access)
  {
    hide Filled, SameReservations, OnlyAdds, Chain, CountMapped;
    FilledNext(first.pages, s.before.pages, start, k);
    OnlyAddsStep(first.books, s, start, k);
    FilledStep(first.pages, s.before.pages, start, k, s.entry);
    ChainExtend(first, steps, s);
    SameReservationsStep(first.books, s);
  }

  lemma ProgressExisting(first: View, now: View, start: u64, k: nat, created: seq<Created>, steps: seq<Step>,
      access: Access)
    requires start % 0x1000 == 0 && start + 0x1000 * (k + 1) <= MAX_U64
    requires Progress(first, now, start, k, created, steps, access) && start + 0x1000 * k in now.pages
    ensures Progress(first, now, start, k + 1, created, steps, access)
  {
    FilledNext(first.pages, now.pages, start, k);
    FilledExisting(first.pages, now.pages, start, k);
    OnlyAddsMore(first.books, now.books, start, k);
  }

  /** A page that cannot be committed in its turn shows that the range cannot be as a whole. */
  lemma ProgressRefused(first: View, now: View, start: u64, k: nat, created: seq<Created>, steps: seq<Step>, count: nat,
      access: Access)
    requires k < count && start + 0x1000 * count <= MAX_U64
    requires Progress(first, now, start, k, created, steps, access) && start + 0x1000 * k !in now.pages
    ensures Listed(created, steps) && Chain(first, steps, now)
    ensures CountMapped(first.pages, start, count) < count
    ensures Committable(now.books, start + 0x1000 * k) || !AllReserved(first.books, start, count)
        || !RoomFor(first, start, count)
  {
    hide SameReservations;
    FilledNext(first.pages, now.pages, start, k);
    NotAllMapped(first.pages, start, count, k);
    RefusedPage(first, now.books, start, count, k);
  }

  lemma ProgressEnd(first: View, now: View, start: u64, k: nat, created: seq<Created>, steps: seq<Step>,
      access: Access)
    requires start + 0x1000 * k <= MAX_U64 && Progress(first, now, start, k, created, steps, access)
    ensures Granted(first.pages, now.pages, access)
    ensures Filled(first.pages, now.pages, start, k) && |created| + CountMapped(first.pages, start, k) == k
    ensures SameReservations(first.books, now.books) && OnlyAdds(first.books, now.books, start, k)
    ensures now.books.commitmentCount == first.books.commitmentCount + |created|
  {
  }

  lemma ReservationInside(v: View, slot: nat)
    requires v.Coherent() && slot < |v.books.reservations| && v.books.reservations[slot].live
    ensures RangeContains(v.books.base, v.books.length, v.books.reservations[slot].base,
        v.books.reservations[slot].bytes)
    ensures v.books.valid && v.books.length != 0 && v.books.base + v.books.length <= MAX_U64
  {
    assert v.books.ReservationOk(slot);
  }

  lemma LiveIsPage(v: View, i: nat)
    requires v.Coherent() && i < |v.books.commitments| && v.books.commitments[i].live
    ensures Arena.IsPage(v.books.commitments[i], v.books.commitments[i].base)
  {
  }

  /** Pages that meet a byte range. */
  function PageCount(start: u64, bytes: u64): (count: nat)
    requires start + bytes <= MAX_U64 - 0xFFF
    ensures PageOf(start) + 0x1000 * count == PageCeiling(start + bytes)
  {
    (PageCeiling(start + bytes) - PageOf(start)) / 0x1000
  }

  /** `now` is `before` with every page of the byte range committed; `made` of them are new, with that access. */
  ghost predicate RangeCommitted(before: View, now: View, start: u64, bytes: u64, made: nat, access: Access)
    requires start + bytes <= MAX_U64 - 0xFFF
  {
    var count := PageCount(start, bytes);
    && Filled(before.pages, now.pages, PageOf(start), count) && Granted(before.pages, now.pages, access)
    && made + CountMapped(before.pages, PageOf(start), count) == count
    && SameReservations(before.books, now.books)
    && OnlyAdds(before.books, now.books, PageOf(start), count)
    && now.books.commitmentCount == before.books.commitmentCount + made
  }

  /** The range is not empty and lies in the live reservation after rounding. */
  ghost predicate FitsReservation(b: Books, slot: nat, start: u64, bytes: u64) {
    && 0 < bytes && slot < MAX_RESERVATIONS && slot < |b.reservations| && b.reservations[slot].live
    && start + bytes <= MAX_U64 - 0xFFF
    && b.reservations[slot].base <= PageOf(start)
    && PageCeiling(start + bytes) <= b.reservations[slot].base + b.reservations[slot].bytes
  }

  /** Such a range whose pages do not outnumber the commitment table. */
  ghost predicate CanCommitRange(b: Books, slot: nat, start: u64, bytes: u64) {
    FitsReservation(b, slot, start, bytes) && PageCount(start, bytes) <= MAX_COMMITMENTS
  }

  /** The commitment table has room for the pages of the byte range that are not mapped yet. */
  ghost predicate RoomForRange(before: View, start: u64, bytes: u64)
    requires start + bytes <= MAX_U64 - 0xFFF
  {
    RoomFor(before, PageOf(start), PageCount(start, bytes))
  }

  /** A committable range lies in its reservation page by page. */
  lemma RangeReserved(b: Books, slot: nat, start: u64, bytes: u64)
    requires CanCommitRange(b, slot, start, bytes)
    ensures AllReserved(b, PageOf(start), PageCount(start, bytes))
  {
    forall k | 0 <= k < PageCount(start, bytes)
      ensures Arena.InReservation(b, PageOf(start) + 0x1000 * k)
    {
      var r := b.reservations[slot];
      assert RangeContains(r.base, r.bytes, PageOf(start) + 0x1000 * k, 0x1000);
    }
  }

  /** Every page that meets the byte range is mapped already. */
  ghost predicate AllCommitted(pages: map<u64, Entry>, start: u64, bytes: u64) {
    && start + bytes <= MAX_U64 - 0xFFF
    && CountMapped(pages, PageOf(start), PageCount(start, bytes)) == PageCount(start, bytes)
  }

  datatype PublicStatus =
    | Ok
    | InvalidArgument
    | Unsupported
    | Capacity
    | Allocation
    | Inconsistent

  const VM_DATA: nat := 13
  const NATIVEAOT: nat := 1

  datatype AllocResult = AllocResult(requestedBytes: u64, roundedBytes: int, effectiveBase: u64, slot: nat,
                                     newPages: nat, existingPages: nat, reserved: bool, committed: bool)

  function NoResult(size: u64): AllocResult {
    AllocResult(size, 0, 0, 0, 0, 0, false, false)
  }

  /** map_commit_status */
  function MapCommitStatus(status: CommitStatus): PublicStatus {
    match status
    case Ok => PublicStatus.Ok
    case Overflow => PublicStatus.InvalidArgument
    case OutsideReservation => PublicStatus.InvalidArgument
    case Capacity => PublicStatus.Allocation
    case Allocation => PublicStatus.Allocation
    case Inconsistent => PublicStatus.Inconsistent
    case InvalidArgument => PublicStatus.Inconsistent
  }

  /** map_reserve_status */
  function MapReserveStatus(status: Arena.VmStatus): PublicStatus {
    if status.Ok? then PublicStatus.Ok
    else if status.Capacity? || status.OutsideArena? then PublicStatus.Capacity
    else PublicStatus.InvalidArgument
  }

  /** A new reservation at `address`, with its pages committed if asked for, and nothing else. */
  ghost predicate NewlyReserved(before: View, now: View, address: u64, size: u64, generation: u64, commit: bool,
                                result: AllocResult, access: Access)
    requires size <= MAX_U64 - 0xFFF
  {
    var r := Arena.NewReservation(address, PageCeiling(size), size, VM_DATA, NATIVEAOT, generation);
    && result.slot < |before.books.reservations| && !before.books.reservations[result.slot].live
    && var middle := before.(books := before.books.AddReservation(result.slot, r));
    && result.effectiveBase == address && result.roundedBytes == PageCeiling(size)
    && if commit
       then address + size <= MAX_U64 - 0xFFF && RangeCommitted(middle, now, address, size, result.newPages, access)
         && result.existingPages == 0
       else now == middle
  }

  lemma ReserveFacts(before: View, slot: nat, r: Reservation, books: Books)
    requires before.Coherent() && slot < MAX_RESERVATIONS && slot < |before.books.reservations|
    requires books == before.books.AddReservation(slot, r) && books.Sound()
    ensures before.(books := books).Coherent()
    ensures slot < |books.reservations| && books.reservations[slot] == r
  {
    SameCommitmentsCoherent(before, books);
  }

  /** Releasing a reservation that got no page takes the books back to where they were. */
  lemma CleanUpFacts(before: View, slot: nat, r: Reservation, middle: View)
    requires before.Coherent() && middle.Coherent() && slot < |before.books.reservations|
    requires !before.books.reservations[slot].live && r.live
    requires middle == before.(books := before.books.AddReservation(slot, r))
    ensures DropSlot(middle, slot, MAX_COMMITMENTS) == middle
    ensures forall i | 0 <= i < MAX_COMMITMENTS ::
              middle.books.commitments[i].live ==> middle.books.commitments[i].slot != slot
    ensures middle.books.reservations[slot].live && middle.books.DropReservation(slot) == before.books
  {
    forall i | 0 <= i < MAX_COMMITMENTS && middle.books.commitments[i].live
      ensures middle.books.commitments[i].slot != slot
    {
      assert before.books.CommitmentOk(i);
    }
    DropSlotNothing(middle, slot, MAX_COMMITMENTS);
    assert middle.books.DropReservation(slot).reservations == before.books.reservations;
  }

  /** No page of a range that fits beside the reservations is mapped. */
  lemma {:induction false} FreshRangeUnmapped(v: View, base: u64, bytes: u64, count: nat)
    requires v.Coherent() && Arena.Fits(v.books, base, bytes)
    requires base + 0x1000 * count <= MAX_U64 && 0x1000 * count <= bytes
    ensures CountMapped(v.pages, base, count) == 0
  {
    if count > 0 {
      FreshRangeUnmapped(v, base, bytes, count - 1);
      var page := base + 0x1000 * (count - 1);
      if page in v.pages {
        MappedInReservation(v, page);
      }
    }
  }

  lemma FreshFacts(v: View, base: u64, size: u64)
    requires v.Coherent() && 0 < size <= MAX_U64 - 0xFFF && base + size <= MAX_U64 - 0xFFF
    requires Arena.FirstFit(v.books, PageCeiling(size), base)
    ensures PageOf(base) == base && PageCeiling(base + size) == base + PageCeiling(size)
    ensures CountMapped(v.pages, base, PageCeiling(size) / 0x1000) == 0
  {
    hide View.Coherent, Arena.Fits, Arena.NoneBelow;
    GranulePages(base, size);
    FreshRangeUnmapped(v, base, PageCeiling(size), PageCeiling(size) / 0x1000);
  }

  /** The commitment table has room for the pages of a new reservation of `size` bytes. */
  ghost predicate RoomForNew(b: Books, size: u64) {
    b.commitmentCount + PageCeiling(size) / 0x1000 <= MAX_COMMITMENTS
  }

  /** The range of a new reservation fits it; with room in the commitment table it can be committed as a whole. */
  lemma NewIsCommittable(v: View, slot: nat, base: u64, size: u64, generation: u64)
    requires v.Coherent() && 0 < size <= MAX_U64 - 0xFFF && generation != 0
    requires slot < MAX_RESERVATIONS && slot < |v.books.reservations|
    requires Arena.FirstFit(v.books, PageCeiling(size), base)
    ensures var r := Arena.NewReservation(base, PageCeiling(size), size, VM_DATA, NATIVEAOT, generation);
            var middle := v.(books := v.books.AddReservation(slot, r));
            && FitsReservation(middle.books, slot, base, size)
            && (RoomForNew(v.books, size) ==>
                  CanCommitRange(middle.books, slot, base, size) && RoomForRange(middle, base, size))
  {
    CountBound(CommitmentSpans(v.books.commitments));
    NewFits(v.books, base, size);
    FreshFacts(v, base, size);
  }

  /** The search finds base 0, which the commit that follows takes for no address at all. */
  ghost predicate ZeroFits(b: Books, size: u64, generation: u64) {
    Arena.CanReserveAny(b, size, generation) && Arena.FirstFit(b, PageCeiling(size), 0)
  }

  /** It does so first of all in an arena that starts there. */
  lemma ZeroFitsAtFirst(length: u64, generation: u64)
    requires 0x1000 <= length && generation != 0
    ensures ZeroFits(EmptyBooks(0, length, generation), 1, generation)
  {
    assert Arena.Fits(EmptyBooks(0, length, generation), 0, PageCeiling(1));
  }

  /** If the lowest fitting base is 0, it is the one that the search finds. */
  lemma FirstFitIsOne(b: Books, bytes: u64, base: u64)
    requires Arena.FirstFit(b, bytes, base)
    ensures Arena.FirstFit(b, bytes, 0) ==> base == 0
  {
  }

  lemma NewFits(b: Books, base: u64, size: u64)
    requires b.Sound() && 0 < size <= MAX_U64 - 0xFFF && Arena.FirstFit(b, PageCeiling(size), base)
    ensures base + size <= MAX_U64 - 0xFFF
  {
    hide Arena.NoneBelow, Books.Tables, Books.Totals, Books.SinglePages;
    LastPage(base, PageCeiling(size));
  }

  lemma LastPage(base: u64, bytes: int)
    requires base % 0x1_0000 == 0 && bytes % 0x1000 == 0 && base + bytes <= MAX_U64
    ensures base + bytes <= MAX_U64 - 0xFFF
  {
    var k, j := base / 0x1_0000, bytes / 0x1000;
    assert base + bytes == 0x1000 * (16 * k + j);
  }

  lemma GranulePages(base: u64, size: u64)
    requires base % 0x1_0000 == 0 && base + size <= MAX_U64 - 0xFFF
    ensures PageOf(base) == base && PageCeiling(base + size) == base + PageCeiling(size)
    ensures 0x1000 * (PageCeiling(size) / 0x1000) == PageCeiling(size)
  {
    var k := base / 0x1_0000;
    assert base == 0x1000 * (16 * k);
    assert (base + size + 0xFFF) / 0x1000 == 16 * k + (size + 0xFFF) / 0x1000;
  }

  lemma MappedInReservation(v: View, page: u64)
    requires v.Coherent() && page in v.pages
    ensures exists k | 0 <= k < |v.books.reservations| :: Arena.Holds(v.books.reservations[k], page)
  {
    var i :| 0 <= i < |v.books.commitments| && Arena.IsPage(v.books.commitments[i], page);
    assert v.books.CommitmentOk(i);
    assert Arena.Holds(v.books.reservations[v.books.commitments[i].slot], page);
  }

  const MEM_COMMIT: nat := 0x1000
  const MEM_RESERVE: nat := 0x2000
  const MEM_DECOMMIT: nat := 0x4000
  const MEM_RELEASE: nat := 0x8000
  const MEM_RESET: nat := 0x8_0000
  const MEM_TOP_DOWN: nat := 0x10_0000
  const MEM_WRITE_WATCH: nat := 0x20_0000
  const MEM_PHYSICAL: nat := 0x40_0000
  const MEM_LARGE_PAGES: nat := 0x2000_0000
  const PAGE_READWRITE: nat := 4

  /** `flags & bit` for a one-bit mask. */
  predicate Wants(flags: nat, bit: nat) {
    bit != 0 && flags / bit % 2 == 1
  }

  /** One of write watch, reset, large pages, physical and top down is asked for. */
  predicate Exotic(flags: nat) {
    || flags / 0x20_0000 % 2 == 1 || flags / 0x8_0000 % 2 == 1 || flags / 0x2000_0000 % 2 == 1
    || flags / 0x40_0000 % 2 == 1 || flags / 0x10_0000 % 2 == 1
  }

  predicate IsReservation(b: Books, k: nat, address: u64) {
    k < |b.reservations| && b.reservations[k].live && b.reservations[k].base == address
  }

  /** All pages of the reservation are gone from the three views, and so is the reservation. */
  ghost predicate Freed(before: View, now: View, slot: nat)
    requires before.Coherent()
  {
    && |before.books.commitments| == MAX_COMMITMENTS && slot < |before.books.reservations|
    && var dropped := DropSlot(before, slot, MAX_COMMITMENTS);
    && now == dropped.(books := dropped.books.DropReservation(slot))
  }

  lemma CommitmentFacts(v: View, i: nat)
    requires v.Coherent() && i < |v.books.commitments| && v.books.commitments[i].live
    ensures v.books.commitments[i].bytes == 0x1000 && v.books.commitments[i].base % 0x1000 == 0
    ensures v.books.commitments[i].physical != 0 && v.books.commitments[i].physical in v.outstanding
    ensures v.books.commitments[i].base in v.pages
    ensures v.pages[v.books.commitments[i].base].address == v.books.commitments[i].physical
    ensures v.books.commitments[i].slot < |v.books.reservations|
    ensures v.books.reservations[v.books.commitments[i].slot].base <= v.books.commitments[i].base
  {
    assert v.books.CommitmentOk(i);
    assert v.Backed(i);
  }

  lemma HolderBase(b: Books, address: u64, slot: nat, k: nat)
    requires b.Sound() && slot < |b.reservations| && Arena.Holds(b.reservations[slot], address)
    requires IsReservation(b, k, address)
    ensures k == slot
  {
    var spans := ReservationSpans(b.reservations);
    assert b.ReservationOk(k);
    assert spans[k].live && spans[slot].live;
  }

  /** The reservation that a committable range lies in is the one its first address finds. */
  lemma CommitHolder(v: View, address: u64, size: u64, found: bool, slot: nat, k: nat)
    requires v.Coherent() && k < MAX_RESERVATIONS && FitsReservation(v.books, k, address, size)
    requires found ==> slot < |v.books.reservations| && Arena.Holds(v.books.reservations[slot], address)
    requires !found ==> forall j | 0 <= j < |v.books.reservations| :: !Arena.Holds(v.books.reservations[j], address)
    ensures found && slot == k
  {
    CoherentSound(v);
    assert v.books.ReservationOk(k);
    assert Arena.Holds(v.books.reservations[k], address);
    var spans := ReservationSpans(v.books.reservations);
    assert slot < k ==> Apart(spans[slot], spans[k]);
    assert k < slot ==> Apart(spans[k], spans[slot]);
  }

  lemma SizeFacts(b: Books, address: u64, size: u64, generation: u64)
    ensures Arena.CanReserveAny(b, size, generation) ==> 0 < size <= MAX_U64 - 0xFFF
    ensures b.Sound() && size > MAX_U64 - 0xFFF ==> Arena.SearchOverflows(b, size)
    ensures forall slot | 0 <= slot < MAX_RESERVATIONS
        && FitsReservation(b, slot, address, size) :: 0 < size <= MAX_U64 - 0xFFF
    ensures forall slot | 0 <= slot < MAX_RESERVATIONS
        && CanCommitRange(b, slot, address, size) :: FitsReservation(b, slot, address, size)
  {
  }

  lemma NotABase(b: Books, address: u64, found: bool, slot: nat)
    requires b.Sound()
    requires found ==>
               && slot < |b.reservations|
               && Arena.Holds(b.reservations[slot], address) && b.reservations[slot].base != address
    requires !found ==> forall k | 0 <= k < |b.reservations| :: !Arena.Holds(b.reservations[k], address)
    ensures forall k | 0 <= k < |b.reservations| :: !IsReservation(b, k, address)
  {
    forall k | 0 <= k < |b.reservations|
      ensures !IsReservation(b, k, address)
    {
      assert b.ReservationOk(k);
      if found && IsReservation(b, k, address) {
        HolderBase(b, address, slot, k);
      }
    }
  }

  lemma FreeFacts(v: View, slot: nat)
    requires v.Coherent() && slot < |v.books.reservations| && v.books.reservations[slot].live
    ensures |v.books.commitments| == MAX_COMMITMENTS
    ensures var w := DropSlot(v, slot, MAX_COMMITMENTS);
            && w.Coherent() && w.books.Sound()
            && slot < |w.books.reservations| && w.books.reservations[slot].live
            && (forall i | 0 <= i < MAX_COMMITMENTS :: w.books.commitments[i].live ==>
                 w.books.commitments[i].slot != slot)
    ensures v.books.reservations[slot].committedBytes == LiveBytes(SpansIn(v.books.commitments, slot))
  {
    var w := DropSlot(v, slot, MAX_COMMITMENTS);
    DropSlotReservations(v, slot, MAX_COMMITMENTS, slot);
    forall i | 0 <= i < MAX_COMMITMENTS && w.books.commitments[i].live
      ensures w.books.commitments[i].slot != slot
    {
      DropSlotCommitments(v, slot, MAX_COMMITMENTS, i);
    }
  }

  datatype Call =
    | Alloc(address: u64, size: u64, allocationType: nat, protection: nat)
    | Release(address: u64, size: u64, freeType: nat)

  /** The reservation that VirtualAlloc entered, as it stands after the commit. */
  lemma NewReservationStands(before: View, now: View, address: u64, size: u64, generation: u64, commit: bool,
                             result: AllocResult, access: Access)
    requires before.Coherent() && now.Coherent() && 0 < size <= MAX_U64 - 0xFFF
    requires Arena.FirstFit(before.books, PageCeiling(size), address)
    requires NewlyReserved(before, now, address, size, generation, commit, result, access)
    ensures result.slot < |now.books.reservations| && IsReservation(now.books, result.slot, address)
    ensures now.books.reservations[result.slot].bytes == PageCeiling(size)
    ensures now.books.valid == before.books.valid && now.books.base == before.books.base
    ensures now.books.length == before.books.length && now.books.generation == before.books.generation
    ensures forall p | p in before.pages :: p in now.pages && now.pages[p] == before.pages[p]
  {
    hide View.Coherent, Arena.FirstFit;
  }

  /** What the books of a coherent view hold beside one new reservation is what they held before. */
  lemma OldCommitments(before: View, now: View, address: u64, size: u64, generation: u64, commit: bool,
                       result: AllocResult, access: Access, i: nat)
    requires before.Coherent() && now.Coherent() && 0 < size <= MAX_U64 - 0xFFF
    requires Arena.FirstFit(before.books, PageCeiling(size), address)
    requires NewlyReserved(before, now, address, size, generation, commit, result, access)
    requires i < |before.books.commitments|
    ensures i < |now.books.commitments|
    ensures before.books.commitments[i]
         == if now.books.commitments[i].live && now.books.commitments[i].slot == result.slot
            then NO_COMMITMENT else now.books.commitments[i]
  {
    hide Filled, Granted, SameReservations, Arena.FirstFit;
    NewReservationStands(before, now, address, size, generation, commit, result, access);
    NewRange(before.books, address, size, commit);
    assert before.books.CommitmentOk(i);
    var c := now.books.commitments[i];
    if c != before.books.commitments[i] {
      assert now.books.CommitmentOk(i);
      SameHolder(now.books, c.slot, result.slot, c.base);
    }
  }

  /** The pages of a new reservation are the pages of its range. */
  lemma NewRange(b: Books, address: u64, size: u64, commit: bool)
    requires 0 < size <= MAX_U64 - 0xFFF && Arena.FirstFit(b, PageCeiling(size), address)
    ensures commit && address + size <= MAX_U64 - 0xFFF ==>
              && PageOf(address) == address
              && PageOf(address) + 0x1000 * PageCount(address, size) == address + PageCeiling(size)
  {
    if address + size <= MAX_U64 - 0xFFF {
      GranulePages(address, size);
    }
  }

  lemma SameHolder(b: Books, k: nat, slot: nat, address: u64)
    requires b.Sound() && k < |b.reservations| && slot < |b.reservations|
    requires Arena.Holds(b.reservations[k], address) && Arena.Holds(b.reservations[slot], address)
    ensures k == slot
  {
    var spans := ReservationSpans(b.reservations);
    assert k < slot ==> Apart(spans[k], spans[slot]);
    assert slot < k ==> Apart(spans[slot], spans[k]);
  }

  lemma OldReservations(before: View, now: View, address: u64, size: u64, generation: u64, commit: bool,
                        result: AllocResult, access: Access, k: nat)
    requires before.Coherent() && now.Coherent() && 0 < size <= MAX_U64 - 0xFFF
    requires Arena.FirstFit(before.books, PageCeiling(size), address)
    requires NewlyReserved(before, now, address, size, generation, commit, result, access)
    requires k < |before.books.reservations|
    ensures k < |now.books.reservations|
    ensures before.books.reservations[k] == if k == result.slot then NO_RESERVATION else now.books.reservations[k]
  {
    hide Filled, Granted, Arena.FirstFit;
    NewReservationStands(before, now, address, size, generation, commit, result, access);
    NewRange(before.books, address, size, commit);
    if k != result.slot {
      var spans := ReservationSpans(now.books.reservations);
      assert k < result.slot ==> Apart(spans[k], spans[result.slot]);
      assert result.slot < k ==> Apart(spans[result.slot], spans[k]);
    }
  }

  /** VirtualFree of what VirtualAlloc has just handed out takes all three views back to where they were. */
  lemma FreeUndoesAlloc(before: View, now: View, after: View, address: u64, size: u64, generation: u64, commit: bool,
                        result: AllocResult, access: Access, slot: nat)
    requires before.Coherent() && now.Coherent() && after.Coherent() && 0 < size <= MAX_U64 - 0xFFF
    requires Arena.FirstFit(before.books, PageCeiling(size), address)
    requires NewlyReserved(before, now, address, size, generation, commit, result, access)
    requires IsReservation(now.books, slot, address) && Freed(now, after, slot)
    ensures after == before
  {
    hide View.Coherent, Arena.FirstFit, NewlyReserved;
    CoherentSound(before);
    CoherentSound(now);
    CoherentSound(after);
    NewReservationStands(before, now, address, size, generation, commit, result, access);
    HolderBase(now.books, address, result.slot, slot);
    DropSlotKeeps(now, slot, MAX_COMMITMENTS);
    forall i | 0 <= i < MAX_COMMITMENTS
      ensures after.books.commitments[i] == before.books.commitments[i]
    {
      DropSlotCommitments(now, slot, MAX_COMMITMENTS, i);
      OldCommitments(before, now, address, size, generation, commit, result, access, i);
    }
    forall k | 0 <= k < MAX_RESERVATIONS
      ensures after.books.reservations[k] == before.books.reservations[k]
    {
      DropSlotReservations(now, slot, MAX_COMMITMENTS, k);
      OldReservations(before, now, address, size, generation, commit, result, access, k);
    }
    SameTablesSameView(after, before);
  }

  /**
   * What a query for `va` must answer by the books: outside the arena what the firmware root says,
   * inside the frame of the commitment that backs the address, and without one nothing.
   */
  ghost predicate Translates(b: Books, firmware: Memory, cr3: u64, va: u64, seen: QueryResult) {
    if !(b.base <= va < b.base + b.length) then seen == QueryRoot(firmware, cr3, va)
    else if forall i | 0 <= i < |b.commitments| :: !Arena.Backs(b.commitments[i], va) then seen == Unmapped(NotPresent)
    else exists i ::
      && 0 <= i < |b.commitments| && Arena.Backs(b.commitments[i], va)
      && seen.Mapped? && seen.mapping.level == 1 && seen.mapping.pageSize == 0x1000
      && seen.mapping.physicalBase == b.commitments[i].physical + va % 0x1000
  }

  /** In a valid context every address translates by the books. */
  lemma QueryMeaning(c: Context, va: u64)
    requires c.Valid()
    ensures Translates(c.arena.books, c.tables.space.firmware, c.tables.space.cr3, va, c.tables.Query(va))
  {
    hide View.Coherent, Paging.PageTables.Valid, Paging.PageTables.Query, Books.Sound, QueryRoot;
    var b := c.arena.books;
    if i :| 0 <= i < |b.commitments| && Arena.Backs(b.commitments[i], va) {
      BackedFacts(c.Now(), va, i);
      Paging.MappedAddress(c.tables, va);
    } else {
      NotBackedFacts(c.Now(), va);
      if b.base <= va < b.base + b.length {
        Paging.UnmappedInArena(c.tables, va);
      }
    }
    Paging.FirmwareOutsideArena(c.tables, va);
  }

  class Context {
    const arena: Arena.VmArena
    const tables: Paging.PageTables
    const generation: u64

    /** Data pages handed out and not yet given back; the rest are with the page tables, in `tables.pool`. */
    var outstanding: set<u64>

    /** History: how often no usable data page was given. */
    ghost var refused: nat

    /** A context over an arena with nothing committed and tables with nothing mapped. */
    constructor (arena: Arena.VmArena, tables: Paging.PageTables, generation: u64)
      requires arena.Valid() && tables.Valid() && generation != 0
      requires arena.books.base == tables.arenaBase && arena.books.length == tables.arenaLength
      requires tables.pages == map[] && forall c | c in arena.books.commitments :: !c.live
      ensures Valid() && this.arena == arena && this.tables == tables && this.generation == generation
      ensures outstanding == {}
    {
      this.arena, this.tables, this.generation := arena, tables, generation;
      outstanding, refused := {}, 0;
    }

    ghost function Now(): View
      reads this, arena, tables
    {
      View(arena.books, tables.pages, outstanding)
    }

    ghost predicate Valid()
      reads this, arena, tables
    {
      Now().Coherent() && Ready()
    }

    /** Each part on its own is in order. */
    ghost predicate Ready()
      reads this, arena, tables
    {
      && tables.Valid()
      && arena.books.base == tables.arenaBase && arena.books.length == tables.arenaLength
      && generation != 0
      && DataOk()
    }

    /** A data page is an aligned page apart from all table memory, and free pages are not outstanding. */
    ghost predicate DataOk()
      reads this, tables
    {
      && Aligned(outstanding) && Separated(tables.space.firmware, tables.space.cr3, outstanding)
      && outstanding !! tables.pool + tables.space.tags.Keys
    }

    /** No data page or no table page was given in the meantime, or no more tables may be owned. */
    twostate predicate Starved()
      reads this, tables
    {
      refused > old(refused) || tables.Shortage(old(tables.refused))
    }

    /** All pages there are: free ones, tables and data pages. */
    ghost function Supply(): set<u64>
      reads this, tables
    {
      tables.pool + tables.space.tags.Keys + outstanding
    }

    /** What every operation leaves alone: the firmware translation and the one supply of pages. */
    twostate predicate Kept()
      reads this, tables
    {
      && Paging.SameGround(old(tables.space), tables.space)
      && Supply() == old(Supply())
      && refused >= old(refused) && tables.refused >= old(tables.refused)
    }

    /** allocate_page of the data allocator: the allocator of the page tables, called for data. */
    method AllocateData() returns (ok: bool, physical: u64, hasAlias: bool)
      requires Ready()
      modifies this`outstanding, tables`pool, tables`answers
      ensures Ready() && Kept()
      ensures tables.answers == old(tables.answers) + [Paging.PageAnswer(ok, physical, hasAlias)]
      ensures outstanding == if physical == 0 then old(outstanding) else old(outstanding) + {physical}
      ensures physical != 0 ==> physical !in old(outstanding) && Aligned({physical})
    {
      hide Paging.PageTables.Valid;
      Paging.TableMemory(tables);
      ok, physical, hasAlias := tables.LendPage();
      if physical != 0 {
        outstanding := outstanding + {physical};
      }
    }

    /** free_page of the data allocator: only an outstanding page may be returned. */
    method FreeData(physical: u64)
      requires Ready() && (physical != 0 ==> physical in outstanding)
      modifies this`outstanding, tables`pool
      ensures Ready() && Kept()
      ensures outstanding == if physical == 0 then old(outstanding) else old(outstanding) - {physical}
    {
      hide Paging.PageTables.Valid;
      if physical != 0 {
        Paging.TableMemory(tables);
        assert physical in outstanding;
        tables.ReturnPage(physical);
        outstanding := outstanding - {physical};
      }
    }

    /** A data page with an alias, or 0 with nothing outstanding. */
    method TakeData() returns (physical: u64)
      requires Ready()
      modifies this`outstanding, this`refused, tables`pool, tables`answers
      ensures |tables.answers| == |old(tables.answers)| + 1
      ensures physical == tables.answers[|old(tables.answers)|].Usable()
      ensures refused == old(refused) + (if physical == 0 then 1 else 0)
      ensures Ready() && Kept()
      ensures outstanding == if physical == 0 then old(outstanding) else old(outstanding) + {physical}
      ensures physical != 0 ==> physical !in old(outstanding) && Aligned({physical})
    {
      hide Paging.PageTables.Valid;
      var ok, page, hasAlias := AllocateData();
      if !ok || page == 0 || !hasAlias {
        if page != 0 || hasAlias {
          FreeData(page);
        }
        refused := refused + 1;
        return 0;
      }
      return page;
    }

    /** The page is committed already: the tables must agree with the commitment. */
    method CheckExisting(page: u64, slot: nat) returns (outcome: CommitOutcome)
      requires Valid() && slot < |arena.books.commitments| && Arena.Backs(arena.books.commitments[slot], page)
      requires page % 0x1000 == 0
      ensures outcome == Existing && page in tables.pages
    {
      hide Paging.PageTables.Valid, Paging.PageTables.Query, View.Coherent;
      var existing := arena.books.commitments[slot];
      ExistingIsMapped(Now(), page, slot);
      Paging.MappedAddress(tables, page);
      var answer := tables.Query(page);
      if existing.base != page || existing.physical == 0 || !answer.Mapped?
         || answer.mapping.pageSize != 0x1000 || answer.mapping.physicalBase != existing.physical {
        outcome := Mismatch;
        return;
      }
      return Existing;
    }

    /** Map a fresh data page and enter it in the books, or change nothing. */
    method InstallPage(page: u64, physical: u64, writable: bool, executable: bool, ghost before: View)
      returns (made: bool, ghost step: Step)
      requires Ready() && before.Coherent() && page % 0x1000 == 0 && !Arena.HasPage(before.books, page)
      requires Aligned({physical}) && physical !in before.outstanding
      requires Now() == before.(outstanding := before.outstanding + {physical})
      modifies arena, tables`space, tables`pool, tables`refused, tables`answers, tables`owned, tables`pages
      ensures Ready() && Kept()
      ensures !made ==> Now() == old(Now())
      ensures !made ==> tables.Shortage(old(tables.refused)) || !Committable(before.books, page)
      ensures made ==>
                && step.before == before && Undoable(step)
                && Now() == step.before.Commit(step.index, step.c, step.entry)
                && Now().Coherent()
                && step.c.base == page && step.c.physical == physical
                && Arena.InReservation(before.books, page)
                && Grants(step.entry, Access(writable, !executable && tables.nxEnabled))
    {
      hide Paging.PageTables.Valid, View.Coherent, Books.Sound, MakeEntry, CanCommit, Arena.HasPage,
        Arena.InReservation, Aligned, Paging.ArenaContainsPage, Grants;
      InstallFacts(before, page, physical, writable, !executable && tables.nxEnabled);
      CommittableInArena(before.books, tables, page);
      step := Step(before, 0, NO_COMMITMENT, ABSENT);
      var status := tables.MapPage(page, physical, writable, executable);
      if !status.Ok? {
        return false, step;
      }
      var booked, already, slot, index := arena.CommitPage(page, physical, generation);
      if !booked.Ok? {
        var unmapped, frame := tables.UnmapPage(page);
        assert tables.pages == before.pages;
        return false, step;
      }
      step := Step(before, index, Arena.PageCommitment(slot, page, physical, generation),
      MakeEntry(physical, writable, !executable && tables.nxEnabled));
      CommitCoherent(before, index, step.c, step.entry);
      return true, step;
    }

    /** zero_bytes through the alias of a data page: no table changes. */
    method ZeroData(physical: u64)
      requires Ready() && physical in outstanding
      modifies tables`space
      ensures tables.space == old(tables.space) && Ready()
    {
      Paging.TableMemory(tables);
      hide Paging.PageTables.Valid;
      tables.ZeroPage(physical);
    }

    /** Commit one page that has no commitment: allocate, map, enter in the books; or change nothing. */
    method CreatePage(page: u64, writable: bool, executable: bool)
      returns (made: bool, physical: u64, ghost step: Step)
      requires Valid() && page % 0x1000 == 0 && !Arena.HasPage(arena.books, page)
      modifies this`outstanding, this`refused, arena,
        tables`space, tables`pool, tables`refused, tables`answers, tables`owned, tables`pages
      ensures Valid() && Kept()
      ensures !made ==> Now() == old(Now())
      ensures !made ==> Starved() || !Committable(old(arena.books), page)
      ensures made ==>
                && step.before == old(Now()) && Undoable(step)
                && Now() == step.before.Commit(step.index, step.c, step.entry)
                && step.c.base == page && step.c.physical == physical
                && Grants(step.entry, Access(writable, !executable && tables.nxEnabled))
    {
      hide Paging.PageTables.Valid, View.Coherent, Undoable, Grants;
      step := Step(Now(), 0, NO_COMMITMENT, ABSENT);
      physical := TakeData();
      if physical == 0 {
        return false, 0, step;
      }
      ZeroData(physical);
      made, step := InstallPage(page, physical, writable, executable, old(Now()));
      if !made {
        FreeData(physical);
        assert Now() == old(Now());
      }
    }

    /** Unmap a committed page, strike it from the books and return its frame. */
    method DropPage(page: u64, physical: u64, ghost index: nat) returns (ok: bool)
      requires Valid() && index < |arena.books.commitments| && Arena.IsPage(arena.books.commitments[index], page)
      requires arena.books.commitments[index].physical == physical
      modifies this`outstanding, arena, tables`space, tables`pool, tables`pages
      ensures Valid() && Kept()
      ensures ok && old(arena.books.commitments)[index].slot < |old(arena.books.reservations)|
      ensures Now() == old(Now()).Drop(index)
    {
      hide Paging.PageTables.Valid, View.Coherent, Books.Sound, Arena.HasPage;
      ghost var before := Now();
      DropFacts(before, page, index);
      var unmapped, frame := tables.UnmapPage(page);
      ghost var at;
      var struck, released;
      struck, released, at := arena.DecommitPage(page);
      ok := unmapped.Ok? && frame == physical && struck.Ok?;
      DropIndex(before, page, index, at);
      FreeData(physical);
      assert Now() == before.Drop(index);
    }

    /** The undo loop of gxos_vm_commit_range. */
    method Rollback(created: seq<Created>, ghost first: View, ghost steps: seq<Step>)
      requires Valid() && Chain(first, steps, Now()) && Listed(created, steps)
      modifies this`outstanding, arena, tables`space, tables`pool, tables`pages
      ensures Valid() && Kept()
      ensures Now() == first
    {
      hide Valid, Undoable, View.Coherent;
      var count := |created|;
      assert steps[..count] == steps;
      while count != 0
        invariant 0 <= count <= |created|
        invariant Valid() && Kept()
        invariant Chain(first, steps[..count], Now())
      {
        count := count - 1;
        ghost var s := steps[count];
        assert steps[..count + 1][count] == s && steps[..count + 1][..count] == steps[..count];
        UndoFacts(s);
        var ok := DropPage(created[count].page, created[count].physical, s.index);
      }
    }

    /** Page `k` of a range, as gxos_vm_commit_range visits it. */
    method VisitPage(page: u64, writable: bool, executable: bool)
      returns (outcome: CommitOutcome, physical: u64, ghost step: Step)
      requires Valid() && page % 0x1000 == 0
      modifies this`outstanding, this`refused, arena,
        tables`space, tables`pool, tables`refused, tables`answers, tables`owned, tables`pages
      ensures Valid() && Kept()
      ensures outcome != Mismatch
      ensures outcome == Existing <==> page in old(tables.pages)
      ensures outcome != Made ==> Now() == old(Now())
      ensures outcome == Refused ==> Starved() || !Committable(old(arena.books), page)
      ensures outcome == Made ==>
                && step.before == old(Now()) && Undoable(step)
                && Now() == step.before.Commit(step.index, step.c, step.entry)
                && step.c.base == page && step.c.physical == physical
                && Grants(step.entry, Access(writable, !executable && tables.nxEnabled))
    {
      hide Paging.PageTables.Valid, View.Coherent, Books.Sound, Arena.HasPage, Undoable, Grants;
      VisitFacts(Now(), page);
      physical, step := 0, Step(Now(), 0, NO_COMMITMENT, ABSENT);
      var found, slot := arena.FindCommitment(page);
      if found {
        outcome := CheckExisting(page, slot);
        return;
      }
      NotBacked(Now(), page);
      var made;
      made, physical, step := CreatePage(page, writable, executable);
      outcome := if made then Made else Refused;
    }

    /** gxos_vm_commit_range after its argument checks: every page of the range, or no change. */
    method CommitPages(start: u64, count: nat, writable: bool, executable: bool)
      returns (status: CommitStatus, newCount: nat)
      requires Valid() && start % 0x1000 == 0 && start + 0x1000 * count <= MAX_U64
      modifies this`outstanding, this`refused, arena,
        tables`space, tables`pool, tables`refused, tables`answers, tables`owned, tables`pages
      ensures Valid() && Kept()
      ensures status == CommitStatus.Ok || status == CommitStatus.Allocation
      ensures status != CommitStatus.Ok ==> Now() == old(Now())
      ensures status == CommitStatus.Ok ==>
                && Filled(old(tables.pages), tables.pages, start, count)
                && Granted(old(tables.pages), tables.pages, Access(writable, !executable && tables.nxEnabled))
                && newCount + CountMapped(old(tables.pages), start, count) == count
                && SameReservations(old(arena.books), arena.books)
                && OnlyAdds(old(arena.books), arena.books, start, count)
                && arena.books.commitmentCount == old(arena.books).commitmentCount + newCount
      ensures CountMapped(old(tables.pages), start, count) == count ==> status == CommitStatus.Ok
      ensures status != CommitStatus.Ok ==>
                Starved() || !AllReserved(old(arena.books), start, count) || !RoomFor(old(Now()), start, count)
    {
      hide Valid, Filled, SameReservations, CountMapped, Committable, AllReserved, RoomFor, Progress, Undoable,
        Granted, Grants, OnlyAdds;
      ghost var access := Access(writable, !executable && tables.nxEnabled);
      var created: seq<Created> := [];
      ghost var steps: seq<Step> := [];
      ghost var first := Now();
      var index := 0;
      ProgressStart(first, start, access);
      while index != count
        invariant 0 <= index <= count
        invariant Valid() && Kept() && Progress(first, Now(), start, index, created, steps, access)
      {
        var page := start + 0x1000 * index;
        ghost var before := Now();
        ghost var step;
        var outcome, physical;
        outcome, physical, step := VisitPage(page, writable, executable);
        if outcome == Refused || outcome == Mismatch {
          ProgressRefused(first, before, start, index, created, steps, count, access);
          Rollback(created, first, steps);
          return if outcome == Refused then CommitStatus.Allocation else CommitStatus.Inconsistent, 0;
        }
        if outcome == Made {
          ProgressMade(first, start, index, created, steps, step, access);
          created, steps := created + [Created(page, physical)], steps + [step];
        } else {
          ProgressExisting(first, before, start, index, created, steps, access);
        }
        index := index + 1;
      }
      ProgressEnd(first, Now(), start, index, created, steps, access);
      return CommitStatus.Ok, |created|;
    }

    /** gxos_vm_commit_range */
    method CommitRange(slot: nat, start: u64, bytes: u64, writable: bool, executable: bool)
      returns (status: CommitStatus, newCount: nat)
      requires Valid()
      modifies this`outstanding, this`refused, arena,
        tables`space, tables`pool, tables`refused, tables`answers, tables`owned, tables`pages
      ensures Valid() && Kept()
      ensures status != CommitStatus.Ok ==> Now() == old(Now())
      ensures status == CommitStatus.Ok ==>
                && start + bytes <= MAX_U64 - 0xFFF
                && RangeCommitted(old(Now()), Now(), start, bytes, newCount,
                                  Access(writable, !executable && tables.nxEnabled))
      ensures status != CommitStatus.Inconsistent
      ensures status == CommitStatus.InvalidArgument <==> bytes == 0 || slot >= MAX_RESERVATIONS
      ensures status in {CommitStatus.Ok, CommitStatus.Allocation}
         <==> CanCommitRange(old(arena.books), slot, start, bytes)
      ensures status in {CommitStatus.Ok, CommitStatus.Allocation, CommitStatus.Capacity}
         <==> FitsReservation(old(arena.books), slot, start, bytes)
      ensures CanCommitRange(old(arena.books), slot, start, bytes) && AllCommitted(old(tables.pages), start, bytes) ==>
                status == CommitStatus.Ok
      ensures status == CommitStatus.Allocation ==> Starved() || !RoomForRange(old(Now()), start, bytes)
    {
      hide View.Coherent, Paging.PageTables.Valid, Filled, Granted, SameReservations, OnlyAdds, PageOf, PageCeiling,
        PageCount;
      newCount := 0;
      CoherentSound(Now());
      if bytes == 0 || slot >= MAX_RESERVATIONS {
        return CommitStatus.InvalidArgument, 0;
      }
      var reservation := arena.books.reservations[slot];
      if !reservation.live || start > MAX_U64 - bytes || start + bytes > MAX_U64 - 0xFFF {
        return CommitStatus.Overflow, 0;
      }
      var startPage, endPage := PageOf(start), PageCeiling(start + bytes);
      if startPage < reservation.base || endPage > reservation.base + reservation.bytes {
        return CommitStatus.OutsideReservation, 0;
      }
      var count := PageCount(start, bytes);
      if count > MAX_COMMITMENTS {
        return CommitStatus.Capacity, 0;
      }
      RangeReserved(arena.books, slot, start, bytes);
      status, newCount := CommitPages(startPage, count, writable, executable);
    }

    /** count_existing_pages */
    method CountExisting(start: u64, count: nat) returns (existing: nat)
      requires Valid() && start % 0x1000 == 0 && start + 0x1000 * count <= MAX_U64
      ensures existing == CountMapped(tables.pages, start, count)
    {
      hide View.Coherent, Paging.PageTables.Valid, Arena.HasPage;
      existing := 0;
      var index := 0;
      while index != count
        invariant 0 <= index <= count
        invariant existing == CountMapped(tables.pages, start, index)
      {
        var page := start + 0x1000 * index;
        VisitFacts(Now(), page);
        var found, slot := arena.FindCommitment(page);
        if found {
          ExistingIsMapped(Now(), page, slot);
          existing := existing + 1;
        } else {
          NotBacked(Now(), page);
        }
        index := index + 1;
      }
    }

    /** Drop every commitment of one reservation: the release pass. */
    method TakeDown(slot: nat) returns (ok: bool, dropped: nat)
      requires Valid()
      modifies this`outstanding, arena, tables`space, tables`pool, tables`pages
      ensures Valid() && Kept()
      ensures ok && Now() == DropSlot(old(Now()), slot, MAX_COMMITMENTS)
    {
      hide View.Coherent, Paging.PageTables.Valid;
      ghost var first := Now();
      ok, dropped := true, 0;
      var index := 0;
      CoherentSound(first);
      while index != MAX_COMMITMENTS
        invariant 0 <= index <= MAX_COMMITMENTS && ok
        invariant Valid() && Kept()
        invariant Now() == DropSlot(first, slot, index)
      {
        CoherentSound(Now());
        var c := arena.books.commitments[index];
        if c.live && c.slot == slot {
          LiveIsPage(Now(), index);
          ok := DropPage(c.base, c.physical, index);
          if !ok {
            return;
          }
          dropped := dropped + 1;
        }
        index := index + 1;
      }
    }

    /** PAGE_READWRITE: writable, and not executable where the processor can tell. */
    function ReadWrite(): Access
      reads tables
    {
      Access(true, tables.nxEnabled)
    }

    /** commit_range of the public layer */
    method PublicCommit(slot: nat, start: u64, bytes: u64) returns (status: PublicStatus, result: AllocResult)
      requires Valid() && bytes != 0
      modifies this`outstanding, this`refused, arena,
        tables`space, tables`pool, tables`refused, tables`answers, tables`owned, tables`pages
      ensures Valid() && Kept()
      ensures status != PublicStatus.Ok ==> Now() == old(Now())
      ensures status == PublicStatus.Ok ==>
                && start + bytes <= MAX_U64 - 0xFFF
                && RangeCommitted(old(Now()), Now(), start, bytes, result.newPages, ReadWrite())
                && result.slot == slot && result.effectiveBase == PageOf(start)
                && result.effectiveBase + result.roundedBytes == PageCeiling(start + bytes)
                && 0x1000 * (result.newPages + result.existingPages) == result.roundedBytes
      ensures status != PublicStatus.Inconsistent
      ensures start != 0 && CanCommitRange(old(arena.books), slot, start, bytes) ==>
                && (status == PublicStatus.Ok || status == PublicStatus.Allocation)
                && (AllCommitted(old(tables.pages), start, bytes) ==> status == PublicStatus.Ok)
                && (status != PublicStatus.Ok ==> Starved() || !RoomForRange(old(Now()), start, bytes))
      ensures status in {PublicStatus.Ok, PublicStatus.InvalidArgument, PublicStatus.Allocation}
      ensures status == PublicStatus.Ok ==> start != 0 && CanCommitRange(old(arena.books), slot, start, bytes)
      ensures status == PublicStatus.InvalidArgument
         <==> start == 0 || !FitsReservation(old(arena.books), slot, start, bytes)
    {
      hide View.Coherent, Paging.PageTables.Valid, Filled, Granted, SameReservations, OnlyAdds, PageOf, PageCeiling,
        PageCount;
      result := NoResult(bytes);
      if start > MAX_U64 - bytes || start + bytes > MAX_U64 - 0xFFF || start == 0 {
        return PublicStatus.InvalidArgument, result;
      }
      var startPage, end := PageOf(start), PageCeiling(start + bytes);
      CoherentSound(Now());
      if slot < MAX_RESERVATIONS && arena.books.reservations[slot].live {
        ReservationInside(Now(), slot);
      }
      if !arena.Covers(startPage, end - startPage) || slot >= MAX_RESERVATIONS
         || !arena.books.reservations[slot].live
         || !RangeContains(arena.books.reservations[slot].base, arena.books.reservations[slot].bytes, startPage,
              end - startPage) {
        return PublicStatus.InvalidArgument, result;
      }
      var count := PageCount(start, bytes);
      var existing := CountExisting(startPage, count);
      var committed, newCount := CommitRange(slot, start, bytes, true, false);
      status := MapCommitStatus(committed);
      if status != PublicStatus.Ok {
        return;
      }
      result := result.(roundedBytes := end - startPage, effectiveBase := startPage, slot := slot,
                        newPages := newCount, existingPages := existing, committed := true);
    }

    /** Release a new reservation whose pages could not be committed. */
    method CleanUp(slot: nat, ghost before: View, ghost r: Reservation) returns (ok: bool)
      requires Valid() && before.Coherent() && slot < |before.books.reservations|
      requires !before.books.reservations[slot].live && r.live
      requires Now() == before.(books := before.books.AddReservation(slot, r))
      modifies this`outstanding, arena, tables`space, tables`pool, tables`pages
      ensures ok && Valid() && Kept() && Now() == before
    {
      hide View.Coherent, Paging.PageTables.Valid, Books.Sound;
      ghost var middle := Now();
      CoherentSound(middle);
      var taken, dropped := TakeDown(slot);
      CleanUpFacts(before, slot, r, middle);
      var released := arena.Release(slot);
      ok := released.Ok?;
    }

    /** VirtualAlloc with MEM_RESERVE, or MEM_RESERVE and MEM_COMMIT, and no address. */
    method ReserveNew(size: u64, commit: bool) returns (status: PublicStatus, result: AllocResult, address: u64)
      requires Valid() && size != 0
      modifies this`outstanding, this`refused, arena,
        tables`space, tables`pool, tables`refused, tables`answers, tables`owned, tables`pages
      ensures Valid() && Kept()
      ensures status != PublicStatus.Ok ==> Now() == old(Now()) && address == 0
      ensures status == PublicStatus.Ok ==>
                && size <= MAX_U64 - 0xFFF && Arena.FirstFit(old(arena.books), PageCeiling(size), address)
                && NewlyReserved(old(Now()), Now(), address, size, generation, commit, result, ReadWrite())
      ensures status != PublicStatus.Inconsistent
      ensures !commit ==> (status == PublicStatus.Ok <==> Arena.CanReserveAny(old(arena.books), size, generation))
      ensures status == PublicStatus.InvalidArgument <==>
                || Arena.SearchOverflows(old(arena.books), size)
                || (commit && ZeroFits(old(arena.books), size, generation))
      ensures status == PublicStatus.Capacity <==>
                && !Arena.SearchOverflows(old(arena.books), size)
                && !Arena.CanReserveAny(old(arena.books), size, generation)
      ensures status != PublicStatus.Unsupported
      ensures commit && Arena.CanReserveAny(old(arena.books), size, generation) && status != PublicStatus.Ok ==>
                || ZeroFits(old(arena.books), size, generation) || Starved()
                || !RoomForNew(old(arena.books), size)
      ensures status == PublicStatus.Ok ==> Arena.CanReserveAny(old(arena.books), size, generation)
    {
      hide View.Coherent, Paging.PageTables.Valid, Books.Sound, Filled, Granted, SameReservations, OnlyAdds,
        Arena.FirstFit, Arena.Fits,
        Arena.SearchOverflows, Arena.CanReserveAny, FitsReservation, CanCommitRange, RoomForRange, RoomForNew,
        AllCommitted;
      result, address := NoResult(size), 0;
      ghost var before := Now();
      CoherentSound(before);
      ghost var rounds;
      var reserved, base, slot;
      reserved, base, slot, rounds := arena.ReserveAny(size, VM_DATA, NATIVEAOT, generation);
      status := MapReserveStatus(reserved);
      if status != PublicStatus.Ok {
        return;
      }
      ghost var r := Arena.NewReservation(base, PageCeiling(size), size, VM_DATA, NATIVEAOT, generation);
      ReserveFacts(before, slot, r, arena.books);
      if !commit {
        result := result.(roundedBytes := arena.books.reservations[slot].bytes, effectiveBase := base,
                          slot := slot, reserved := true);
        address := base;
        return;
      }
      ghost var middle := Now();
      NewIsCommittable(before, slot, base, size, generation);
      FirstFitIsOne(before.books, PageCeiling(size), base);
      var committed;
      status, committed := PublicCommit(slot, base, size);
      if status != PublicStatus.Ok {
        var released := CleanUp(slot, before, r);
        if !released {
          status := PublicStatus.Inconsistent;
        }
        return;
      }
      FreshFacts(before, base, size);
      result := committed.(reserved := true);
      address := base;
    }

    /** gxos_vm_public_virtual_alloc */
    method VirtualAlloc(address: u64, size: u64, allocationType: nat, protection: nat)
      returns (status: PublicStatus, result: AllocResult, out: u64)
      requires Valid()
      modifies this`outstanding, this`refused, arena,
        tables`space, tables`pool, tables`refused, tables`answers, tables`owned, tables`pages
      ensures Valid() && Kept()
      ensures status != PublicStatus.Ok ==> Now() == old(Now()) && out == 0
      ensures status != PublicStatus.Inconsistent
      ensures status == PublicStatus.Ok ==>
                0 < size <= MAX_U64 - 0xFFF && protection == PAGE_READWRITE
                    && allocationType in {MEM_RESERVE, MEM_RESERVE + MEM_COMMIT, MEM_COMMIT}
      ensures status == PublicStatus.Ok && address == 0 ==>
                && Arena.FirstFit(old(arena.books), PageCeiling(size), out)
                && NewlyReserved(old(Now()), Now(), out, size, generation, allocationType != MEM_RESERVE, result,
                                 ReadWrite())
      ensures status == PublicStatus.Ok && address != 0 ==>
                && allocationType == MEM_COMMIT && out == PageOf(address)
                && address + size <= MAX_U64 - 0xFFF
                && RangeCommitted(old(Now()), Now(), address, size, result.newPages, ReadWrite())
                && 0x1000 * (result.newPages + result.existingPages) == result.roundedBytes
      ensures status == PublicStatus.Unsupported <==> size != 0 && protection == 4 && Exotic(allocationType)
      ensures status == PublicStatus.Capacity <==>
                && size != 0 && protection == 4 && address == 0
                && (allocationType == 0x2000 || allocationType == 0x3000)
                && !Arena.SearchOverflows(old(arena.books), size)
                && !Arena.CanReserveAny(old(arena.books), size, generation)
      ensures allocationType == MEM_RESERVE && address == 0 && protection == PAGE_READWRITE ==>
                (status == PublicStatus.Ok <==> Arena.CanReserveAny(old(arena.books), size, generation))
      ensures allocationType == MEM_RESERVE && address == 0 && protection == PAGE_READWRITE && size != 0 ==>
                (status == PublicStatus.InvalidArgument <==> Arena.SearchOverflows(old(arena.books), size))
      ensures && allocationType == MEM_RESERVE + MEM_COMMIT && address == 0 && protection == PAGE_READWRITE
              && Arena.CanReserveAny(old(arena.books), size, generation) && status != PublicStatus.Ok ==>
                || ZeroFits(old(arena.books), size, generation) || Starved()
                || !RoomForNew(old(arena.books), size)
      ensures && allocationType == MEM_RESERVE + MEM_COMMIT && address == 0
              && protection == PAGE_READWRITE && size != 0 ==>
                (status == PublicStatus.InvalidArgument <==>
                 Arena.SearchOverflows(old(arena.books), size) || ZeroFits(old(arena.books), size, generation))
      ensures allocationType == MEM_COMMIT && protection == PAGE_READWRITE && address != 0 && Canonical48(address) ==>
                (status == PublicStatus.InvalidArgument <==>
                 forall slot | 0 <= slot < MAX_RESERVATIONS :: !FitsReservation(old(arena.books), slot, address, size))
      ensures allocationType == MEM_COMMIT && protection == PAGE_READWRITE && address != 0 && Canonical48(address) ==>
                forall slot | 0 <= slot < MAX_RESERVATIONS && CanCommitRange(old(arena.books), slot, address, size) ::
                  && (status == PublicStatus.Ok || status == PublicStatus.Allocation)
                  && (AllCommitted(old(tables.pages), address, size) ==> status == PublicStatus.Ok)
                  && (status != PublicStatus.Ok ==> Starved() || !RoomForRange(old(Now()), address, size))
    {
      hide View.Coherent, Paging.PageTables.Valid, Books.Sound, RangeCommitted, NewlyReserved, Arena.FirstFit,
        Arena.CanReserveAny, ZeroFits, Arena.SearchOverflows, AllCommitted,
        FitsReservation, CanCommitRange, RoomForNew, RoomForRange;
      CoherentSound(Now());
      SizeFacts(arena.books, address, size, generation);
      result, out := NoResult(size), 0;
      if size == 0 {
        return PublicStatus.InvalidArgument, result, 0;
      }
      if protection != PAGE_READWRITE {
        return PublicStatus.InvalidArgument, result, 0;
      }
      if Wants(allocationType, MEM_WRITE_WATCH) || Wants(allocationType, MEM_RESET)
         || Wants(allocationType, MEM_LARGE_PAGES)
         || Wants(allocationType, MEM_PHYSICAL) || Wants(allocationType, MEM_TOP_DOWN) {
        return PublicStatus.Unsupported, result, 0;
      }
      if allocationType !in {0, MEM_RESERVE, MEM_COMMIT, MEM_RESERVE + MEM_COMMIT} || size > MAX_U64 - 0xFFF {
        return PublicStatus.InvalidArgument, result, 0;
      }
      if address == 0 && (allocationType == MEM_RESERVE || allocationType == MEM_RESERVE + MEM_COMMIT) {
        status, result, out := ReserveNew(size, allocationType != MEM_RESERVE);
        return;
      }
      if allocationType != MEM_COMMIT || address == 0 || !Canonical48(address) {
        return PublicStatus.InvalidArgument, result, 0;
      }
      var found, slot := arena.FindReservation(address);
      forall k | 0 <= k < MAX_RESERVATIONS && FitsReservation(arena.books, k, address, size)
        ensures found && slot == k
      {
        CommitHolder(Now(), address, size, found, slot, k);
      }
      if !found {
        return PublicStatus.InvalidArgument, result, 0;
      }
      status, result := PublicCommit(slot, address, size);
      out := if status == PublicStatus.Ok then result.effectiveBase else 0;
    }

    /** The checking pass of VirtualFree over the commitments of one reservation. */
    method CheckReservation(slot: nat) returns (consistent: bool, count: nat)
      requires Valid() && slot < |arena.books.reservations| && arena.books.reservations[slot].base != 0
      ensures consistent
      ensures 0x1000 * count == LiveBytes(SpansIn(arena.books.commitments, slot))
    {
      hide View.Coherent, Paging.PageTables.Valid, Paging.PageTables.Query;
      consistent, count := true, 0;
      var index := 0;
      CoherentSound(Now());
      ghost var spans := SpansIn(arena.books.commitments, slot);
      assert spans[..0] == [];
      while index != MAX_COMMITMENTS
        invariant 0 <= index <= MAX_COMMITMENTS && consistent
        invariant 0x1000 * count == LiveBytes(spans[..index])
      {
        assert spans[..index + 1] == spans[..index] + [spans[index]];
        var c := arena.books.commitments[index];
        if c.live && c.slot == slot {
          CommitmentFacts(Now(), index);
          Paging.MappedAddress(tables, c.base);
          var answer := tables.Query(c.base);
          if c.base == 0 || c.bytes != 0x1000 || c.physical == 0 || !answer.Mapped? || answer.mapping.pageSize != 0x1000
             || answer.mapping.physicalBase != c.physical || c.physical !in outstanding {
            consistent := false;
            return;
          }
          count := count + 1;
        }
        index := index + 1;
      }
      assert spans[..MAX_COMMITMENTS] == spans;
    }

    /** gxos_vm_public_virtual_free */
    method VirtualFree(address: u64, size: u64, freeType: nat)
      returns (status: PublicStatus, result: AllocResult)
      requires Valid()
      modifies this`outstanding, arena, tables`space, tables`pool, tables`pages
      ensures Valid() && Kept()
      ensures status != PublicStatus.Ok ==> Now() == old(Now())
      ensures status != PublicStatus.Inconsistent
      ensures status == PublicStatus.Ok ==>
                && result.slot < |old(arena.books.reservations)|
                && IsReservation(old(arena.books), result.slot, address)
                && Freed(old(Now()), Now(), result.slot)
                && result.roundedBytes == old(arena.books).reservations[result.slot].committedBytes
      ensures status == PublicStatus.Ok <==> (
                && address != 0 && size == 0 && Canonical48(address) && freeType == MEM_RELEASE
                && exists k | 0 <= k < |old(arena.books.reservations)| :: IsReservation(old(arena.books), k, address))
      ensures status == PublicStatus.Unsupported <==>
                address != 0 && size == 0 && Canonical48(address) && freeType / 0x4000 % 2 == 1
      ensures status in {PublicStatus.Ok, PublicStatus.InvalidArgument, PublicStatus.Unsupported}
    {
      hide View.Coherent, Paging.PageTables.Valid, Books.Sound;
      result := NoResult(0);
      if address == 0 || size != 0 || !Canonical48(address) {
        return PublicStatus.InvalidArgument, result;
      }
      if Wants(freeType, MEM_DECOMMIT) {
        return PublicStatus.Unsupported, result;
      }
      if freeType != MEM_RELEASE {
        return PublicStatus.InvalidArgument, result;
      }
      ghost var before := Now();
      CoherentSound(before);
      var found, slot := arena.FindReservation(address);
      if !found || arena.books.reservations[slot].base != address {
        NotABase(before.books, address, found, slot);
        return PublicStatus.InvalidArgument, result;
      }
      var consistent, count := CheckReservation(slot);
      if !consistent {
        status := PublicStatus.Inconsistent;
        return;
      }
      var ok, dropped := TakeDown(slot);
      if !ok {
        status := PublicStatus.Inconsistent;
        return;
      }
      FreeFacts(before, slot);
      assert IsReservation(before.books, slot, address);
      ghost var stripped := Now();
      var released := arena.Release(slot);
      if !released.Ok? {
        status := PublicStatus.Inconsistent;
        return;
      }
      SameCommitmentsCoherent(stripped, arena.books);
      result := result.(effectiveBase := address, slot := slot, existingPages := count, roundedBytes := 0x1000 * count,
                        reserved := true, committed := count != 0);
      return PublicStatus.Ok, result;
    }

    /** What an address translates to, and the commitment that backs it. */
    method Look(probe: u64) returns (seen: QueryResult, backed: bool, frame: u64)
      requires Valid()
      ensures seen == tables.Query(probe)
      ensures Translates(arena.books, tables.space.firmware, tables.space.cr3, probe, seen)
      ensures backed <==>
                exists i :: 0 <= i < |arena.books.commitments| && Arena.Backs(arena.books.commitments[i], probe)
      ensures backed ==>
                exists i ::
                  && 0 <= i < |arena.books.commitments| && Arena.Backs(arena.books.commitments[i], probe)
                  && arena.books.commitments[i].physical == frame
      ensures !(arena.books.base <= probe < arena.books.base + arena.books.length) ==>
                seen == QueryRoot(tables.space.firmware, tables.space.cr3, probe) && !backed
      ensures backed ==>
                && seen.Mapped? && seen.mapping.level == 1 && seen.mapping.physicalBase == frame + probe % 0x1000
                && frame in outstanding
      ensures !backed && arena.books.base <= probe < arena.books.base + arena.books.length ==>
                seen == Unmapped(NotPresent)
    {
      hide View.Coherent, Paging.PageTables.Valid, Paging.PageTables.Query, Books.Sound, QueryRoot, Translates;
      CoherentSound(Now());
      seen, frame := tables.Query(probe), 0;
      var slot;
      backed, slot := arena.FindCommitment(probe);
      if backed {
        frame := arena.books.commitments[slot].physical;
        BackedFacts(Now(), probe, slot);
        Paging.MappedAddress(tables, probe);
      } else {
        NotBackedFacts(Now(), probe);
        if arena.books.base <= probe < arena.books.base + arena.books.length {
          Paging.UnmappedInArena(tables, probe);
        }
      }
      Paging.FirmwareOutsideArena(tables, probe);
      QueryMeaning(this, probe);
    }

    /** Any run of VirtualAlloc and VirtualFree, whatever the allocators answer. */
    method Perform(calls: seq<Call>)
      requires Valid()
      modifies this`outstanding, this`refused, arena,
        tables`space, tables`pool, tables`refused, tables`answers, tables`owned, tables`pages
      ensures Valid() && Kept()
    {
      hide View.Coherent, Paging.PageTables.Valid;
      for i := 0 to |calls|
        invariant Valid() && Kept()
      {
        var status, result, out;
        match calls[i] {
          case Alloc(address, size, allocationType, protection) =>
            status, result, out := VirtualAlloc(address, size, allocationType, protection);
          case Release(address, size, freeType) =>
            status, result := VirtualFree(address, size, freeType);
        }
      }
    }
  }

  /**
   * How creation ends, by what a caller can check first and by the page `root` that the allocator
   * gives for the private root, 0 if it gives none.
   */
  function BootStatus(firmware: Memory, cr3: u64, base: u64, length: u64, root: u64): PagingStatus {
    if cr3 == 0 || length == 0 || !Canonical48(base) || base + length > MAX_U64
       || Pml4Index(base) != Pml4Index(base + length - 1) then PagingStatus.InvalidArgument
    else if DecodeEntry(cr3).address !in firmware then PagingStatus.InvalidTable
    else if root == 0 then PagingStatus.Allocation
    else if firmware[DecodeEntry(cr3).address][Pml4Index(base)].present then PagingStatus.ArenaConflict
    else PagingStatus.Ok
  }

  /** From nothing: the page tables, the arena and the context over them, with one supply of pages. */
  method Boot(firmware: Memory, cr3: u64, pages: set<u64>, base: u64, length: u64, generation: u64, noExecute: bool)
    returns (status: PagingStatus, context: Context?, ghost root: u64)
    requires Aligned(pages) && Separated(firmware, cr3, pages)
    requires generation != 0 && length <= 0x80_0000_0000 && 0x1000 <= base + length
    ensures status == BootStatus(firmware, cr3, base, length, root)
    ensures status.Ok? <==> context != null
    ensures context != null ==>
              && fresh(context) && fresh(context.arena) && fresh(context.tables) && context.Valid()
              && context.Now() == View(EmptyBooks(base, length, generation), map[], {})
              && context.generation == generation && context.tables.nxEnabled == noExecute
              && context.tables.space.firmware == firmware && context.tables.space.cr3 == cr3
              && context.Supply() == pages
  {
    hide Paging.PageTables.Valid, Separated, QueryRoot, DecodeEntry, Canonical48, Pml4Index, Arena.VmArena.Valid,
      View.Coherent, Aligned;
    context, root := null, 0;
    var tables := new Paging.PageTables(firmware, pages);
    status := tables.Create(cr3, base, length, noExecute);
    if |tables.answers| == 1 {
      root := tables.answers[0].Usable();
    }
    if !status.Ok? {
      return;
    }
    var arena := new Arena.VmArena(base, length, generation);
    context := new Context(arena, tables, generation);
  }

  /**
   * From nothing: create everything, let any run of VirtualAlloc and VirtualFree go by, and look.
   * Every address then translates by the books: outside the arena as under the firmware root; inside,
   * to the frame of the commitment that backs it, and without one not at all. `probe` is one of them.
   */
  method Launch(firmware: Memory, cr3: u64, pages: set<u64>, base: u64, length: u64, generation: u64,
                 noExecute: bool, calls: seq<Call>, probe: u64)
    returns (status: PagingStatus, context: Context?, seen: QueryResult, backed: bool, frame: u64, ghost root: u64)
    requires Aligned(pages) && Separated(firmware, cr3, pages)
    requires generation != 0 && length <= 0x80_0000_0000 && 0x1000 <= base + length
    ensures status == BootStatus(firmware, cr3, base, length, root)
    ensures status.Ok? <==> context != null
    ensures context != null ==>
              && context.Valid() && context.arena.books.base == base && context.arena.books.length == length
              && context.Supply() == pages
              && forall va: u64 :: Translates(context.arena.books, firmware, cr3, va, context.tables.Query(va))
    ensures context != null ==>
              (backed <==> exists i ::
                 0 <= i < |context.arena.books.commitments| && Arena.Backs(context.arena.books.commitments[i], probe))
    ensures context != null && backed ==>
              exists i ::
                && 0 <= i < |context.arena.books.commitments| && Arena.Backs(context.arena.books.commitments[i], probe)
                && context.arena.books.commitments[i].physical == frame
    ensures status.Ok? && !(base <= probe < base + length) ==> seen == QueryRoot(firmware, cr3, probe) && !backed
    ensures status.Ok? && base <= probe < base + length && backed ==>
              && seen.Mapped? && seen.mapping.level == 1 && seen.mapping.physicalBase == frame + probe % 0x1000
              && frame in pages
    ensures status.Ok? && base <= probe < base + length && !backed ==> seen == Unmapped(NotPresent)
  {
    hide Paging.PageTables.Valid, Separated, QueryRoot, View.Coherent, Aligned, Translates, Paging.PageTables.Query;
    seen, backed, frame := Unmapped(NotPresent), false, 0;
    status, context, root := Boot(firmware, cr3, pages, base, length, generation, noExecute);
    if context == null {
      return;
    }
    context.Perform(calls);
    seen, backed, frame := context.Look(probe);
    forall va: u64
      ensures Translates(context.arena.books, firmware, cr3, va, context.tables.Query(va))
    {
      QueryMeaning(context, va);
    }
  }

  /** In an arena that starts at 0 the first request to reserve and commit is refused as a bad argument. */
  method ZeroBaseRefuses(firmware: Memory, cr3: u64, pages: set<u64>, length: u64, generation: u64, noExecute: bool)
    returns (booted: PagingStatus, status: PublicStatus, ghost root: u64)
    requires Aligned(pages) && Separated(firmware, cr3, pages)
    requires generation != 0 && 0x1000 <= length <= 0x80_0000_0000
    ensures booted == BootStatus(firmware, cr3, 0, length, root)
    ensures booted.Ok? ==> status == PublicStatus.InvalidArgument
  {
    hide Paging.PageTables.Valid, Separated, View.Coherent, Aligned, ZeroFits;
    status := PublicStatus.Ok;
    var context;
    booted, context, root := Boot(firmware, cr3, pages, 0, length, generation, noExecute);
    if context == null {
      return;
    }
    ZeroFitsAtFirst(length, generation);
    var result, address;
    status, result, address := context.VirtualAlloc(0, 1, MEM_RESERVE + MEM_COMMIT, PAGE_READWRITE);
  }
  /**
   * What VirtualAlloc hands out can be freed, and that undoes it in all three views; at base 0, where a
   * reservation can lie, VirtualFree takes the address for none.
   */
  method AllocThenFree(c: Context, size: u64, commit: bool)
    returns (given: PublicStatus, address: u64, freed: PublicStatus)
    requires c.Valid()
    modifies c, c.arena, c.tables
    ensures c.Valid()
    ensures given == PublicStatus.Ok && address != 0 ==> freed == PublicStatus.Ok && c.Now() == old(c.Now())
    ensures given == PublicStatus.Ok && address == 0 ==> freed == PublicStatus.InvalidArgument
  {
    hide View.Coherent, Paging.PageTables.Valid, Freed, NewlyReserved, Arena.FirstFit, Canonical48;
    ghost var before := c.Now();
    var result, undone;
    given, result, address := c.VirtualAlloc(0, size, if commit then 0x3000 else 0x2000, 4);
    ghost var now := c.Now();
    if given == PublicStatus.Ok {
      NewReservationStands(before, now, address, size, c.generation, commit, result, c.ReadWrite());
      InArenaCanonical(c, address, result.slot);
    }
    freed, undone := c.VirtualFree(address, 0, 0x8000);
    if given == PublicStatus.Ok && address != 0 {
      FreeUndoesAlloc(before, now, c.Now(), address, size, c.generation, commit, result, c.ReadWrite(), undone.slot);
    }
  }

  lemma InArenaCanonical(c: Context, address: u64, slot: nat)
    requires c.Valid() && IsReservation(c.arena.books, slot, address)
    ensures Canonical48(address)
  {
    hide View.Coherent;
    CoherentSound(c.Now());
    assert c.arena.books.ReservationOk(slot);
    Paging.ArenaAddress(c.tables.arenaBase, c.tables.arenaLength, address);
  }

  /** The page of every address of what was reserved and committed is new and mapped as asked. */
  lemma NewAddress(before: View, now: View, address: u64, size: u64, generation: u64, result: AllocResult,
                   access: Access, va: u64)
    requires before.Coherent() && 0 < size <= MAX_U64 - 0xFFF
        && Arena.FirstFit(before.books, PageCeiling(size), address)
    requires NewlyReserved(before, now, address, size, generation, true, result, access)
    requires address <= va < address + size
    ensures PageOf(va) in now.pages && Grants(now.pages[PageOf(va)], access)
  {
    hide View.Coherent, SameReservations, OnlyAdds, Arena.FirstFit, Grants, PageCount;
    NewRange(before.books, address, size, true);
    FreshFacts(before, address, size);
    var k := PageAt(address, va);
    UnmappedPage(before.pages, address, PageCount(address, size), k);
  }

  /** How many pages above `start` the page of `va` is. */
  function PageAt(start: u64, va: u64): (k: nat)
    requires start % 0x1000 == 0 && start <= va
    ensures PageOf(va) == start + 0x1000 * k
  {
    (va - start) / 0x1000
  }

  /** No page of a range is mapped, if none is counted. */
  lemma {:induction false} UnmappedPage(pages: map<u64, Entry>, start: u64, count: nat, k: nat)
    requires start + 0x1000 * count <= MAX_U64 && k < count && CountMapped(pages, start, count) == 0
    ensures start + 0x1000 * k !in pages
  {
    if k < count - 1 {
      UnmappedPage(pages, start, count - 1, k);
    }
  }

  lemma MappedIsBacked(v: View, va: u64)
    requires v.Coherent() && PageOf(va) in v.pages
    ensures exists i :: 0 <= i < |v.books.commitments| && Arena.Backs(v.books.commitments[i], va)
  {
    CommittedBacks(v.books, va);
  }

  /** Every address of what was reserved and committed is backed and translates, writable and as executable as asked. */
  method AllocThenLook(c: Context, size: u64, offset: u64)
    returns (given: PublicStatus, address: u64, seen: QueryResult, backed: bool)
    requires c.Valid() && offset < size
    modifies c, c.arena, c.tables
    ensures c.Valid()
    ensures given == PublicStatus.Ok ==>
              && backed && seen.Mapped? && seen.mapping.pageSize == 0x1000
              && seen.mapping.entry.writable && seen.mapping.entry.noExecute == c.tables.nxEnabled
  {
    hide View.Coherent, Paging.PageTables.Valid, Arena.FirstFit, Paging.PageTables.Query, Translates, NewlyReserved;
    ghost var before := c.Now();
    var result, frame;
    seen, backed := Unmapped(NotPresent), false;
    given, result, address := c.VirtualAlloc(0, size, 0x3000, 4);
    if given == PublicStatus.Ok {
      ResultInRange(before, c.Now(), address, size, c.generation, result, c.ReadWrite());
      NewAddress(before, c.Now(), address, size, c.generation, result, c.ReadWrite(), address + offset);
      MappedIsBacked(c.Now(), address + offset);
      Paging.MappedAddress(c.tables, address + offset);
      seen, backed, frame := c.Look(address + offset);
    }
  }

  lemma ResultInRange(before: View, now: View, address: u64, size: u64, generation: u64, result: AllocResult,
                      access: Access)
    requires size <= MAX_U64 - 0xFFF
    requires NewlyReserved(before, now, address, size, generation, true, result, access)
    ensures address + size <= MAX_U64 - 0xFFF
  {
  }
}
