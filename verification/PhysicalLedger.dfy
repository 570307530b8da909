/**
 * GXOS_PHYSICAL_LEDGER: the table of physical allocations that the memory snapshots are charged
 * with, its running totals, and the check that recomputes them.
 */
module PhysicalLedger {
  import opened Words
  import opened Packing
  import opened ArenaCheck

  const CAPACITY: nat := 4096
  const CLASS_COUNT: nat := 15
  const OWNER_COUNT: nat := 10

  datatype LedgerStatus = Ok | InvalidArgument | ZeroLength | Overflow | Overlapping | Full | InvalidState

  /** An allocation and what it is charged to; base 0 means that its place is not recorded. */
  datatype Allocation = Allocation(live: bool, base: u64, bytes: u64, pages: u64, kind: nat, owner: nat,
                                   physical: u64, commit: u64, reservation: u64, generation: u64)

  const NO_ALLOCATION: Allocation := Allocation(false, 0, 0, 0, 0, 0, 0, 0, 0, 0)

  function Place(a: Allocation): Span {
    Span(a.live && a.base != 0, a.base, a.bytes)
  }

  function Places(es: seq<Allocation>): (spans: seq<Span>)
    ensures |spans| == |es|
  {
    seq(|es|, i requires 0 <= i < |es| => Place(es[i]))
  }

  /** The three totals, each as the weights of the live entries. */
  datatype Charge = Physical | Committed | Reserved

  function Impact(a: Allocation, c: Charge): u64 {
    match c
    case Physical => a.physical
    case Committed => a.commit
    case Reserved => a.reservation
  }

  function Charged(a: Allocation, c: Charge): Span {
    Span(a.live, 0, Impact(a, c))
  }

  function Charges(es: seq<Allocation>, c: Charge): (spans: seq<Span>)
    ensures |spans| == |es|
  {
    seq(|es|, i requires 0 <= i < |es| => Charged(es[i], c))
  }

  predicate EntryOk(a: Allocation) {
    a.live ==>
      && a.bytes != 0 && a.generation != 0 && a.kind < CLASS_COUNT && a.owner < OWNER_COUNT
      && (a.base != 0 ==> a.base + a.bytes <= MAX_U64)
  }

  datatype Ledger = Ledger(entries: seq<Allocation>, liveCount: int, exhausted: bool,
                           physical: int, commit: int, reservation: int, generation: u64)
  {
    function Total(c: Charge): int {
      match c
      case Physical => physical
      case Committed => commit
      case Reserved => reservation
    }

    ghost predicate Table()
    {
      && |entries| == CAPACITY
      && (forall k | 0 <= k < |entries| :: EntryOk(entries[k]))
      && Disjoint(Places(entries))
    }

    ghost predicate Totals()
    {
      && liveCount == LiveCount(Charges(entries, Physical))
      && forall c: Charge :: Total(c) == LiveBytes(Charges(entries, c)) <= MAX_U64
    }

    /** What gxos_physical_ledger_validate accepts. */
    ghost predicate Validates()
    {
      generation != 0 && Table() && Totals()
    }

    /** Dead entries are zeroed. */
    ghost predicate Sound()
    {
      Validates() && forall k | 0 <= k < |entries| :: !entries[k].live ==> entries[k] == NO_ALLOCATION
    }

    function Add(k: nat, a: Allocation): Ledger
      requires k < |entries|
    {
      this.(entries := entries[k := a], liveCount := liveCount + 1, physical := physical + a.physical,
            commit := commit + a.commit, reservation := reservation + a.reservation)
    }

    function Take(k: nat): Ledger
      requires k < |entries|
    {
      this.(entries := entries[k := NO_ALLOCATION], liveCount := liveCount - 1,
          physical := physical - entries[k].physical,
            commit := commit - entries[k].commit, reservation := reservation - entries[k].reservation)
    }
  }

  // ---- What an insertion is asked for ----

  predicate WellFormed(a: Allocation) {
    a.generation != 0 && a.kind < CLASS_COUNT && a.owner < OWNER_COUNT
  }

  /** Its end is an address, and its pages, if given, hold its bytes. */
  predicate Representable(a: Allocation) {
    && (a.base != 0 ==> a.base + a.bytes <= MAX_U64)
    && (a.pages != 0 ==> a.bytes <= a.pages * 0x1000 <= MAX_U64)
  }

  /** It touches a recorded live allocation. */
  ghost predicate Clashes(l: Ledger, a: Allocation) {
    exists k | 0 <= k < |l.entries| :: !Apart(Place(a.(live := true)), Place(l.entries[k]))
  }

  predicate TotalsFit(l: Ledger, a: Allocation) {
    l.physical + a.physical <= MAX_U64 && l.commit + a.commit <= MAX_U64 && l.reservation + a.reservation <= MAX_U64
  }

  /** The totals change by what one allocation is charged with. */
  ghost predicate TotalsMove(before: Ledger, after: Ledger, a: Allocation, sign: int) {
    && after.liveCount == before.liveCount + sign && after.physical == before.physical + sign * a.physical
    && after.commit == before.commit + sign * a.commit && after.reservation == before.reservation + sign * a.reservation
  }

  lemma UpdateCharges(l: Ledger, k: nat, a: Allocation, c: Charge)
    requires k < |l.entries|
    ensures LiveBytes(Charges(l.entries[k := a], c))
         == LiveBytes(Charges(l.entries, c)) - Weight(Charged(l.entries[k], c)) + Weight(Charged(a, c))
    ensures LiveCount(Charges(l.entries[k := a], c))
         == LiveCount(Charges(l.entries, c)) - (if l.entries[k].live then 1 else 0) + (if a.live then 1 else 0)
  {
    assert Charges(l.entries[k := a], c) == Charges(l.entries, c)[k := Charged(a, c)];
    UpdateBytes(Charges(l.entries, c), k, Charged(a, c));
    UpdateCount(Charges(l.entries, c), k, Charged(a, c));
  }

  /** An accepted allocation in a dead entry keeps the ledger valid. */
  lemma AddSound(l: Ledger, k: nat, a: Allocation)
    requires l.Sound() && k < |l.entries| && !l.entries[k].live && a.live && a.bytes != 0
    requires WellFormed(a) && Representable(a) && !Clashes(l, a) && TotalsFit(l, a)
    ensures l.Add(k, a).Sound()
  {
    hide LiveBytes, LiveCount;
    var m := l.Add(k, a);
    assert Places(m.entries) == Places(l.entries)[k := Place(a)];
    assert a.(live := true) == a;
    forall i, j | 0 <= i < j < |m.entries|
      ensures Apart(Places(m.entries)[i], Places(m.entries)[j])
    {
      assert Apart(Places(l.entries)[i], Places(l.entries)[j]);
      assert Apart(Place(a), Place(l.entries[i])) && Apart(Place(a), Place(l.entries[j]));
    }
    forall c: Charge
      ensures m.Total(c) == LiveBytes(Charges(m.entries, c)) <= MAX_U64
    {
      UpdateCharges(l, k, a, c);
      assert l.Total(c) == LiveBytes(Charges(l.entries, c));
    }
    UpdateCharges(l, k, a, Physical);
  }

  /** Removing a live entry keeps the ledger valid, and no total can fall short. */
  lemma TakeSound(l: Ledger, k: nat)
    requires l.Sound() && k < |l.entries| && l.entries[k].live
    ensures l.Take(k).Sound() && l.liveCount > 0
    ensures forall c: Charge :: l.Total(c) >= Impact(l.entries[k], c)
  {
    hide LiveBytes, LiveCount;
    var m := l.Take(k);
    assert Places(m.entries) == Places(l.entries)[k := Place(NO_ALLOCATION)];
    forall i, j | 0 <= i < j < |m.entries|
      ensures Apart(Places(m.entries)[i], Places(m.entries)[j])
    {
      assert Apart(Places(l.entries)[i], Places(l.entries)[j]);
    }
    forall c: Charge
      ensures m.Total(c) == LiveBytes(Charges(m.entries, c)) <= MAX_U64 && l.Total(c) >= Impact(l.entries[k], c)
    {
      UpdateCharges(l, k, NO_ALLOCATION, c);
      LiveIsCounted(Charges(l.entries, c), k);
      assert l.Total(c) == LiveBytes(Charges(l.entries, c));
    }
    UpdateCharges(l, k, NO_ALLOCATION, Physical);
    LiveIsCounted(Charges(l.entries, Physical), k);
  }

  /** Removing what was just inserted takes the ledger back to where it was. */
  lemma TakeUndoesAdd(l: Ledger, k: nat, a: Allocation)
    requires l.Sound() && k < |l.entries| && !l.entries[k].live
    ensures l.Add(k, a).Take(k) == l
  {
    assert l.entries[k := a][k := NO_ALLOCATION] == l.entries;
  }

  /** ranges_overlap of two recorded places is exactly that they touch. */
  lemma CollideIsTouch(a: Allocation, b: Allocation)
    requires a.bytes != 0 && b.bytes != 0 && a.live && b.live && a.base != 0 && b.base != 0
    requires a.base + a.bytes <= MAX_U64 && b.base + b.bytes <= MAX_U64
    ensures Collide(a.base, a.bytes, b.base, b.bytes) <==> !Apart(Place(a), Place(b))
  {
  }

  function EmptyLedger(generation: u64): Ledger {
    Ledger(seq(CAPACITY, _ => NO_ALLOCATION), 0, false, 0, 0, 0, generation)
  }

  /** Every live entry of a valid ledger has a size, a generation, a known class and owner, and an end. */
  lemma ValidEntry(l: Ledger, k: nat)
    requires l.Validates() && k < |l.entries| && l.entries[k].live
    ensures l.entries[k].bytes != 0 && l.entries[k].generation != 0 && l.entries[k].kind < 15 && l.entries[k].owner < 10
    ensures l.entries[k].base == 0 || l.entries[k].base + l.entries[k].bytes <= MAX_U64
  {
    assert EntryOk(l.entries[k]);
  }

  lemma OnePlace(l: Ledger, slot: nat)
    requires l.Table() && slot < CAPACITY && l.entries[slot].live && l.entries[slot].base != 0
    ensures forall k | 0 <= k < CAPACITY && l.entries[k].live && l.entries[k].base == l.entries[slot].base :: k == slot
  {
    var spans := Places(l.entries);
    forall k | 0 <= k < CAPACITY && l.entries[k].live && l.entries[k].base == l.entries[slot].base
      ensures k == slot
    {
      assert k < slot ==> Apart(spans[k], spans[slot]);
      assert slot < k ==> Apart(spans[slot], spans[k]);
    }
  }

  /** multiply_u64 by the page size fails exactly when the product does not fit. */
  lemma PagesFit(pages: u64)
    ensures pages != 0 ==> (0x1000 > MAX_U64 / pages <==> pages * 0x1000 > MAX_U64)
  {
    if pages != 0 {
      var q := MAX_U64 / pages;
      assert q * pages <= MAX_U64 < q * pages + pages;
      if q < 0x1000 {
        Scale(q + 1, 0x1000, pages);
      } else {
        Scale(0x1000, q, pages);
      }
    }
  }

  lemma MarkFull(l: Ledger)
    requires l.Sound()
    ensures l.(exhausted := true).Sound()
  {
    var m := l.(exhausted := true);
    assert forall c: Charge :: m.Total(c) == l.Total(c);
  }

  lemma SameClash(l: Ledger, a: Allocation)
    requires l.Sound()
    ensures Clashes(l, a) <==> Clashes(l, a.(live := true))
    ensures |l.entries| == CAPACITY
  {
    assert a.(live := true).(live := true) == a.(live := true);
  }

  class LedgerTable {
    var l: Ledger

    ghost predicate Valid()
      reads this
    {
      l.Sound()
    }

    /** gxos_physical_ledger_init */
    constructor (generation: u64)
      ensures l == EmptyLedger(generation) && (Valid() <==> generation != 0)
    {
      l := EmptyLedger(generation);
      new;
      forall c: Charge
        ensures LiveBytes(Charges(l.entries, c)) == 0 && LiveCount(Charges(l.entries, c)) == 0
      {
        NoneLive(Charges(l.entries, c));
      }
    }

    /** The overlap scan of gxos_physical_ledger_insert. */
    method FindClash(a: Allocation) returns (clash: bool)
      requires Valid() && a.bytes != 0 && Representable(a)
      ensures clash <==> Clashes(l, a)
    {
      hide Ledger.Totals, Disjoint;
      var index := 0;
      while index != CAPACITY
        invariant 0 <= index <= CAPACITY
        invariant forall k | 0 <= k < index :: Apart(Place(a.(live := true)), Place(l.entries[k]))
      {
        var existing := l.entries[index];
        if existing.live && a.base != 0 && existing.base != 0 {
          CollideIsTouch(a.(live := true), existing);
          if Collide(a.base, a.bytes, existing.base, existing.bytes) {
            return true;
          }
        }
        index := index + 1;
      }
      return false;
    }

    /** The scan for a dead entry. */
    method DeadEntry() returns (slot: nat)
      requires Valid()
      ensures slot <= CAPACITY && (slot < CAPACITY ==> !l.entries[slot].live)
      ensures slot == CAPACITY <==> l.liveCount >= CAPACITY
    {
      hide Disjoint, LiveBytes, LiveCount;
      slot := 0;
      while slot != CAPACITY && l.entries[slot].live
        invariant slot <= CAPACITY
        invariant forall k | 0 <= k < slot :: l.entries[k].live
      {
        slot := slot + 1;
      }
      var spans := Charges(l.entries, Physical);
      CountBound(spans);
      assert slot < CAPACITY ==> !spans[slot].live;
    }

    /** gxos_physical_ledger_insert: which answer, and that a refused allocation changes at most the full mark. */
    method Insert(a: Allocation) returns (status: LedgerStatus, slot: nat)
      requires Valid()
      modifies this
      ensures Valid()
      ensures status == ZeroLength <==> a.bytes == 0
      ensures status == InvalidArgument <==> a.bytes != 0 && !WellFormed(a)
      ensures status == InvalidArgument <==> a.bytes != 0 && (a.generation == 0 || a.kind >= 15 || a.owner >= 10)
      ensures status == Overlapping <==> a.bytes != 0 && WellFormed(a) && Representable(a) && Clashes(old(l), a)
      ensures status == Full <==>
                && a.bytes != 0 && WellFormed(a) && Representable(a) && !Clashes(old(l), a)
                && old(l).liveCount >= CAPACITY
      ensures status == Ok <==>
                && a.bytes != 0 && WellFormed(a) && Representable(a) && !Clashes(old(l), a)
                && old(l).liveCount < CAPACITY
                && TotalsFit(old(l), a)
      ensures status in {Ok, InvalidArgument, ZeroLength, Overflow, Overlapping, Full}
      ensures status in {Ok, Overlapping, Full} ==>
                && (a.base == 0 || a.base + a.bytes <= MAX_U64)
                && (a.pages == 0 || a.bytes <= 0x1000 * a.pages <= MAX_U64)
      ensures status == Overflow ==>
                || (a.base != 0 && a.base + a.bytes > MAX_U64)
                || (a.pages != 0 && (0x1000 * a.pages < a.bytes || 0x1000 * a.pages > MAX_U64))
                || old(l).physical + a.physical > MAX_U64 || old(l).commit + a.commit > MAX_U64
                || old(l).reservation + a.reservation > MAX_U64
      ensures status == Ok ==> slot < CAPACITY && !old(l).entries[slot].live && l == old(l).Add(slot, a.(live := true))
      ensures status == Ok ==> TotalsMove(old(l), l, a, 1) && l.entries[slot] == a.(live := true)
      ensures status != Ok ==> l == if status == Full then old(l).(exhausted := true) else old(l)
    {
      hide Ledger.Sound, Clashes;
      slot := 0;
      if a.bytes == 0 {
        return ZeroLength, 0;
      }
      if !WellFormed(a) {
        return InvalidArgument, 0;
      }
      if a.base != 0 && a.base > MAX_U64 - a.bytes {
        return Overflow, 0;
      }
      if a.pages != 0 && (0x1000 > MAX_U64 / a.pages || a.pages * 0x1000 < a.bytes) {
        PagesFit(a.pages);
        return Overflow, 0;
      }
      PagesFit(a.pages);
      var clash := FindClash(a);
      if clash {
        return Overlapping, 0;
      }
      MarkFull(l);
      if l.liveCount >= CAPACITY {
        l := l.(exhausted := true);
        return Full, 0;
      }
      if l.physical > MAX_U64 - a.physical || l.commit > MAX_U64 - a.commit || l.reservation > MAX_U64 - a.reservation {
        return Overflow, 0;
      }
      slot := DeadEntry();
      SameClash(l, a);
      AddSound(l, slot, a.(live := true));
      l := l.Add(slot, a.(live := true));
      return Ok, slot;
    }

    /** gxos_physical_ledger_remove: a live entry can always be removed. */
    method Remove(slot: nat) returns (status: LedgerStatus)
      requires Valid()
      modifies this
      ensures Valid()
      ensures status == InvalidArgument <==> slot >= CAPACITY
      ensures status == Ok <==> slot < CAPACITY && old(l).entries[slot].live
      ensures status in {Ok, InvalidArgument, InvalidState}
      ensures l == if status == Ok then old(l).Take(slot) else old(l)
      ensures status == Ok ==> TotalsMove(old(l), l, old(l).entries[slot], -1) && !l.entries[slot].live
    {
      hide Ledger.Totals, Disjoint;
      if slot >= CAPACITY {
        return InvalidArgument;
      }
      var a := l.entries[slot];
      if a.live {
        TakeSound(l, slot);
        assert l.Total(Physical) >= Impact(a, Physical) && l.Total(Committed) >= Impact(a, Committed);
        assert l.Total(Reserved) >= Impact(a, Reserved);
      }
      if !a.live || l.liveCount == 0 || l.physical < a.physical || l.commit < a.commit
         || l.reservation < a.reservation {
        return InvalidState;
      }
      l := l.Take(slot);
      return Ok;
    }

    /** gxos_physical_ledger_find: places do not overlap, so there is at most one such entry. */
    method Find(base: u64, bytes: u64) returns (found: bool, slot: nat)
      requires Valid()
      ensures found ==>
                && base != 0 && slot < CAPACITY && l.entries[slot].live && l.entries[slot].base == base
                && l.entries[slot].bytes == bytes
                && forall k | 0 <= k < CAPACITY && l.entries[k].live && l.entries[k].base == base :: k == slot
      ensures !found ==>
                || base == 0
                || forall k | 0 <= k < CAPACITY && l.entries[k].live ::
                     l.entries[k].base != base || l.entries[k].bytes != bytes
    {
      hide Ledger.Totals, Disjoint;
      slot := 0;
      if base == 0 || bytes == 0 {
        return false, 0;
      }
      while slot != CAPACITY
        invariant slot <= CAPACITY
        invariant forall k | 0 <= k < slot && l.entries[k].live ::
                    l.entries[k].base != base || l.entries[k].bytes != bytes
      {
        if l.entries[slot].live && l.entries[slot].base == base && l.entries[slot].bytes == bytes {
          OnePlace(l, slot);
          return true, slot;
        }
        slot := slot + 1;
      }
      return false, 0;
    }
  }

  // ---- gxos_physical_ledger_validate ----

  /** The recorded places of two entries, if both have one, do not collide. */
  predicate PlacesPass(a: Allocation, b: Allocation) {
    b.live && a.base != 0 && b.base != 0 ==> !Collide(a.base, a.bytes, b.base, b.bytes)
  }

  /** One row of the overlap test. */
  method PlaceRow(l: Ledger, index: nat) returns (ok: bool)
    requires |l.entries| == CAPACITY && index < CAPACITY
    ensures ok <==> forall j | index < j < CAPACITY :: PlacesPass(l.entries[index], l.entries[j])
  {
    var other := index + 1;
    while other != CAPACITY
      invariant index < other <= CAPACITY
      invariant forall j | index < j < other :: PlacesPass(l.entries[index], l.entries[j])
    {
      if !PlacesPass(l.entries[index], l.entries[other]) {
        return false;
      }
      other := other + 1;
    }
    return true;
  }

  /** Rows that pass say the same as disjoint places. */
  lemma RowsAreDisjoint(l: Ledger)
    requires |l.entries| == CAPACITY && forall k | 0 <= k < CAPACITY :: EntryOk(l.entries[k])
    ensures Disjoint(Places(l.entries)) <==>
              forall i, j | 0 <= i < j < CAPACITY && l.entries[i].live :: PlacesPass(l.entries[i], l.entries[j])
  {
    var spans := Places(l.entries);
    forall i, j | 0 <= i < j < CAPACITY && l.entries[i].live
      ensures PlacesPass(l.entries[i], l.entries[j]) <==> Apart(spans[i], spans[j])
    {
      var a, b := l.entries[i], l.entries[j];
      if b.live && a.base != 0 && b.base != 0 {
        CollideIsTouch(a, b);
      }
    }
    if Disjoint(spans) {
      assert forall i, j | 0 <= i < j < |spans| :: Apart(spans[i], spans[j]);
    }
  }

  /** The running sums over the first `n` entries. */
  ghost predicate SummedUp(l: Ledger, n: nat, count: nat, physical: nat, commit: nat, reservation: nat)
    requires |l.entries| == CAPACITY && n <= CAPACITY
  {
    && count == LiveCount(Charges(l.entries, Physical)[..n]) && physical == LiveBytes(Charges(l.entries, Physical)[..n])
    && commit == LiveBytes(Charges(l.entries, Committed)[..n])
    && reservation == LiveBytes(Charges(l.entries, Reserved)[..n])
  }

  /** One more entry in the sums; if they no longer fit 64 bits, the ledger is not valid. */
  lemma SumUp(l: Ledger, n: nat, count: nat, physical: nat, commit: nat, reservation: nat)
    requires |l.entries| == CAPACITY && n < CAPACITY && SummedUp(l, n, count, physical, commit, reservation)
    ensures var a := l.entries[n];
            if a.live
            then SummedUp(l, n + 1, count + 1, physical + a.physical, commit + a.commit, reservation + a.reservation)
            else SummedUp(l, n + 1, count, physical, commit, reservation)
    ensures l.entries[n].live && l.Validates() ==>
              var a := l.entries[n];
              physical + a.physical <= MAX_U64 && commit + a.commit <= MAX_U64 && reservation + a.reservation <= MAX_U64
  {
    hide LiveBytes, LiveCount, Ledger.Table;
    PrefixBytes(Charges(l.entries, Physical), n);
    PrefixBytes(Charges(l.entries, Committed), n);
    PrefixBytes(Charges(l.entries, Reserved), n);
    if l.Validates() {
      assert l.Total(Physical) == LiveBytes(Charges(l.entries, Physical)) <= MAX_U64;
      assert l.Total(Committed) == LiveBytes(Charges(l.entries, Committed)) <= MAX_U64;
      assert l.Total(Reserved) == LiveBytes(Charges(l.entries, Reserved)) <= MAX_U64;
    }
  }

  lemma SumsDecide(l: Ledger, count: nat, physical: nat, commit: nat, reservation: nat)
    requires |l.entries| == CAPACITY && SummedUp(l, CAPACITY, count, physical, commit, reservation)
    requires physical <= MAX_U64 && commit <= MAX_U64 && reservation <= MAX_U64
    ensures l.Totals() <==>
              count == l.liveCount && physical == l.physical && commit == l.commit && reservation == l.reservation
  {
    hide LiveBytes, LiveCount;
    forall c: Charge
      ensures Charges(l.entries, c)[..CAPACITY] == Charges(l.entries, c)
    {
    }
    assert l.Total(Physical) == l.physical && l.Total(Committed) == l.commit && l.Total(Reserved) == l.reservation;
  }

  lemma NothingSummed(l: Ledger)
    requires |l.entries| == CAPACITY
    ensures SummedUp(l, 0, 0, 0, 0, 0)
  {
  }

  /** gxos_physical_ledger_validate: accepts exactly the valid ledgers. */
  method Validate(l: Ledger) returns (ok: bool)
    requires |l.entries| == CAPACITY
    ensures ok <==> l.Validates()
  {
    hide SummedUp, Collide, Disjoint, Ledger.Totals, PlacesPass;
    if l.generation == 0 {
      return false;
    }
    var count: nat, physical: nat, commit: nat, reservation: nat := 0, 0, 0, 0;
    NothingSummed(l);
    var index := 0;
    while index != CAPACITY
      invariant 0 <= index <= CAPACITY && physical <= MAX_U64 && commit <= MAX_U64 && reservation <= MAX_U64
      invariant forall k | 0 <= k < index :: EntryOk(l.entries[k])
      invariant forall i, j | 0 <= i < index && i < j < CAPACITY
          && l.entries[i].live :: PlacesPass(l.entries[i], l.entries[j])
      invariant SummedUp(l, index, count, physical, commit, reservation)
    {
      var a := l.entries[index];
      SumUp(l, index, count, physical, commit, reservation);
      if a.live {
        if !EntryOk(a) {
          return false;
        }
        var row := PlaceRow(l, index);
        if !row {
          if l.Validates() {
            RowsAreDisjoint(l);
          }
          return false;
        }
        if physical > MAX_U64 - a.physical || commit > MAX_U64 - a.commit || reservation > MAX_U64 - a.reservation {
          return false;
        }
        physical, commit, reservation := physical + a.physical, commit + a.commit, reservation + a.reservation;
        count := count + 1;
      }
      index := index + 1;
    }
    RowsAreDisjoint(l);
    SumsDecide(l, count, physical, commit, reservation);
    return count == l.liveCount && physical == l.physical && commit == l.commit && reservation == l.reservation;
  }

  /** Any run of insertions and removals. */
  datatype LedgerCall = InsertCall(a: Allocation) | RemoveCall(slot: nat)

  method Perform(t: LedgerTable, calls: seq<LedgerCall>) returns (passes: bool)
    requires t.Valid()
    modifies t
    ensures t.Valid() && passes
  {
    for i := 0 to |calls|
      invariant t.Valid()
    {
      var status;
      match calls[i] {
        case InsertCall(a) =>
          var slot;
          status, slot := t.Insert(a);
        case RemoveCall(slot) =>
          status := t.Remove(slot);
      }
    }
    passes := Validate(t.l);
  }

  /** What was inserted at a recorded place is found there, keeps others out, and is gone after its removal. */
  method InsertFindRemove(t: LedgerTable, a: Allocation)
    returns (inserted: LedgerStatus, found: bool, again: LedgerStatus, removed: LedgerStatus, left: bool)
    requires t.Valid() && a.base != 0
    modifies t
    ensures t.Valid()
    ensures inserted == Ok ==> found && again == Overlapping && removed == Ok && !left
    ensures inserted == Ok ==> t.l.liveCount == old(t.l.liveCount)
    ensures inserted == Ok ==> t.l.physical == old(t.l.physical)
  {
    found, again, removed, left := false, Ok, Ok, false;
    var slot, place;
    inserted, slot := t.Insert(a);
    if inserted != Ok {
      return;
    }
    PlacedClash(t.l, slot, a);
    found, place := t.Find(a.base, a.bytes);
    again, place := t.Insert(a);
    removed := t.Remove(slot);
    left, place := t.Find(a.base, a.bytes);
  }

  lemma PlacedClash(l: Ledger, slot: nat, a: Allocation)
    requires slot < |l.entries| && l.entries[slot] == a.(live := true) && a.base != 0 && a.bytes != 0
    ensures Clashes(l, a)
  {
    assert !Apart(Place(a.(live := true)), Place(l.entries[slot]));
  }
}
