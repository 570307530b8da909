/**
 * Memory snapshots: physical, commit and virtual figures put together from one reading, and the
 * load percentage computed without overflow.
 */
module Snapshot {
  import opened Words
  import opened ArenaBooks
  import opened ArenaCheck
  import PhysicalLedger

  datatype Status = Ok | InvalidArgument | InvalidPhysical | InvalidVirtual | InvalidCommit | Overflow

  /** What the firmware memory map was classified into. */
  datatype Classification = Classification(valid: bool, totalRamLike: u64, conventional: u64)

  datatype Physical = Physical(total: u64, available: u64, used: u64)

  datatype Commit = Commit(limit: u64, committed: u64, available: u64)

  datatype Memory = Memory(
    valid: bool, generation: u64, totalPhysical: u64, availablePhysical: u64, load: nat,
    commitLimit: u64, availableCommit: u64, virtualTotal: u64, virtualAvailable: u64,
    accountedUsage: u64, reservedVirtual: u64, committedVirtual: u64)

  const NOTHING: Memory := Memory(false, 0, 0, 0, 0, 0, 0, 0, 0, 0, 0, 0)

  /** Whole percents of `total` that `used` makes up. */
  function Percent(used: u64, total: u64): nat
    requires 0 < total
  {
    100 * used / total
  }

  lemma Quotient(a: nat, b: nat, q: nat, r: nat)
    requires b > 0 && a == q * b + r && r < b
    ensures a / b == q
  {
    var p := a / b;
    assert p * b <= a < p * b + b;
    assert (p + 1) * b == p * b + b && (q + 1) * b == q * b + b;
    if p < q {
      Scale(p + 1, q, b);
    } else if q < p {
      Scale(q + 1, p, b);
    }
  }

  /**
   * percentage_100: a hundred additions of `used` modulo `total`, no intermediate value of which
   * reaches `total`.
   */
  method Percentage(used: u64, total: u64) returns (percent: nat)
    ensures total == 0 || used > total ==> percent == 0
    ensures 0 < total && used <= total ==> percent == Percent(used, total) <= 100
  {
    if total == 0 || used > total {
      return 0;
    }
    if used == total {
      Quotient(100 * used, total, 100, 0);
      return 100;
    }
    var quotient, remainder: u64 := 0, 0;
    var index := 0;
    while index != 100
      invariant 0 <= index <= 100 && 0 <= quotient <= index && 0 <= remainder < total
      invariant quotient * total + remainder == index * used
    {
      var threshold := total - used;
      if remainder >= threshold {
        assert (quotient + 1) * total == quotient * total + total;
        remainder := remainder - threshold;
        quotient := quotient + 1;
      } else {
        remainder := remainder + used;
      }
      index := index + 1;
    }
    Quotient(100 * used, total, quotient, remainder);
    if quotient > 100 {
      quotient := 100;
    }
    return quotient;
  }

  /** memory_snapshot_is_coherent */
  ghost predicate Coherent(m: Memory) {
    && m.valid && m.generation != 0 && m.totalPhysical != 0 && m.availablePhysical <= m.totalPhysical
    && m.load <= 100 && m.availableCommit <= m.commitLimit && m.committedVirtual <= m.commitLimit
    && m.virtualAvailable <= m.virtualTotal && m.reservedVirtual <= m.virtualTotal
    && m.committedVirtual <= m.reservedVirtual
    && m.accountedUsage == m.totalPhysical - m.availablePhysical
    && m.availableCommit == m.commitLimit - m.committedVirtual
    && m.load == Percent(m.totalPhysical - m.availablePhysical, m.totalPhysical)
  }

  method IsCoherent(m: Memory) returns (ok: bool)
    ensures ok <==> Coherent(m)
  {
    if !m.valid || m.generation == 0 || m.totalPhysical == 0 || m.availablePhysical > m.totalPhysical || m.load > 100
       || m.availableCommit > m.commitLimit || m.committedVirtual > m.commitLimit || m.virtualAvailable > m.virtualTotal
       || m.reservedVirtual > m.virtualTotal || m.committedVirtual > m.reservedVirtual {
      return false;
    }
    var used := m.totalPhysical - m.availablePhysical;
    var percent := Percentage(used, m.totalPhysical);
    return m.accountedUsage == used && m.availableCommit == m.commitLimit - m.committedVirtual && m.load == percent;
  }

  /** gxos_physical_snapshot_create */
  method PhysicalCreate(classification: Classification, ledger: PhysicalLedger.Ledger, generation: u64)
    returns (status: Status, p: Physical)
    requires |ledger.entries| == PhysicalLedger.CAPACITY
    ensures status == Ok <==>
              && generation != 0 && classification.valid && ledger.Validates() && classification.totalRamLike != 0
              && ledger.physical <= classification.conventional
              && classification.conventional - ledger.physical <= classification.totalRamLike
    ensures status == Ok ==>
              && p.total == classification.totalRamLike && p.used + p.available == p.total
              && p.available == classification.conventional - ledger.physical
  {
    p := Physical(0, 0, 0);
    if generation == 0 {
      return InvalidArgument, p;
    }
    var validates := PhysicalLedger.Validate(ledger);
    if !classification.valid || !validates || classification.totalRamLike == 0
       || ledger.physical > classification.conventional {
      return InvalidPhysical, p;
    }
    var available := classification.conventional - ledger.physical;
    if available > classification.totalRamLike {
      return InvalidPhysical, p;
    }
    return Ok, Physical(classification.totalRamLike, available, classification.totalRamLike - available);
  }

  /** gxos_commit_model_create_no_pagefile, with gxos_commit_model_create */
  method CommitCreate(total: u64, available: u64, committed: u64, generation: u64) returns (status: Status, c: Commit)
    ensures status == Overflow <==> total != 0 && available <= total && available + committed > MAX_U64
    ensures status == Ok <==>
              total != 0 && available <= total && available + committed <= MAX_U64 && committed <= total
                  && generation != 0
    ensures status == Ok ==> c.committed == committed <= c.limit && c.available == c.limit - committed
    ensures status == Ok ==> c.limit == if available + committed <= total then available + committed else total
  {
    c := Commit(0, 0, 0);
    if total == 0 || available > total {
      return InvalidCommit, c;
    }
    if available > MAX_U64 - committed {
      return Overflow, c;
    }
    var limit := available + committed;
    if limit > total {
      limit := total;
    }
    if generation == 0 || committed > limit {
      return InvalidCommit, c;
    }
    return Ok, Commit(limit, committed, limit - committed);
  }

  /** gxos_memory_snapshot_create */
  method MemoryCreate(p: Physical, arena: Books, c: Commit, generation: u64) returns (status: Status, m: Memory)
    requires Shaped(arena) && 0 <= arena.totalReserved <= MAX_U64 && 0 <= arena.totalCommitted <= MAX_U64
    ensures status == Ok <==>
              && generation != 0 && p.total != 0 && p.available <= p.total && arena.Validates()
              && c.committed <= c.limit && c.available == c.limit - c.committed
    ensures status == Ok ==>
              && m.valid && m.generation == generation && m.totalPhysical == p.total
              && m.availablePhysical == p.available
              && m.load == Percent(p.total - p.available, p.total) && m.accountedUsage == p.used
              && m.commitLimit == c.limit && m.availableCommit == c.available
              && m.virtualTotal == arena.length && m.virtualAvailable == arena.length - arena.totalReserved
              && m.reservedVirtual == arena.totalReserved && m.committedVirtual == arena.totalCommitted
    ensures status != Ok ==> m == NOTHING
  {
    if generation == 0 {
      return InvalidArgument, NOTHING;
    }
    if p.total == 0 || p.available > p.total {
      return InvalidPhysical, NOTHING;
    }
    var validates := Validate(arena);
    if validates {
      PackedTotals(arena);
    }
    if !validates || arena.totalReserved > arena.length || arena.totalCommitted > arena.length {
      return InvalidVirtual, NOTHING;
    }
    if c.committed > c.limit || c.available != c.limit - c.committed {
      return InvalidCommit, NOTHING;
    }
    var load := Percentage(p.total - p.available, p.total);
    return Ok, Memory(true, generation, p.total, p.available, load, c.limit, c.available,
                      arena.length, arena.length - arena.totalReserved, p.used, arena.totalReserved,
                      arena.totalCommitted);
  }

  /** gxos_memory_snapshot_query_current: whatever it answers Ok for is coherent. */
  method QueryCurrent(classification: Classification, startup: Memory, ledger: PhysicalLedger.Ledger,
                      arena: Books, generation: u64)
    returns (status: Status, view: Memory)
    requires |ledger.entries| == PhysicalLedger.CAPACITY
    requires Shaped(arena) && 0 <= arena.totalReserved <= MAX_U64 && 0 <= arena.totalCommitted <= MAX_U64
    ensures status == Ok ==> Coherent(view) && view.generation == generation >= startup.generation
    ensures status == Ok ==>
              && view.totalPhysical == startup.totalPhysical == classification.totalRamLike
              && view.availablePhysical + ledger.physical == classification.conventional
              && view.committedVirtual == arena.totalCommitted && view.reservedVirtual == arena.totalReserved
              && view.virtualTotal == arena.length && view.virtualAvailable + view.reservedVirtual == arena.length
    ensures status == Ok <==>
              && generation != 0 && generation >= startup.generation && classification.valid && Coherent(startup)
              && startup.totalPhysical == classification.totalRamLike && ledger.Validates()
              && ledger.physical <= classification.conventional
              && classification.conventional - ledger.physical <= classification.totalRamLike
              && arena.Validates() && arena.totalCommitted <= classification.totalRamLike
              && classification.conventional - ledger.physical + arena.totalCommitted <= MAX_U64
  {
    var coherent := IsCoherent(startup);
    if generation == 0 || generation < startup.generation || !classification.valid || classification.totalRamLike == 0
       || !coherent || startup.totalPhysical != classification.totalRamLike {
      return InvalidArgument, NOTHING;
    }
    var physicalStatus, p := PhysicalCreate(classification, ledger, generation);
    if physicalStatus != Ok {
      return physicalStatus, NOTHING;
    }
    var commitStatus, c := CommitCreate(p.total, p.available, arena.totalCommitted, generation);
    if commitStatus == Overflow {
      return Overflow, NOTHING;
    }
    if commitStatus != Ok {
      return InvalidCommit, NOTHING;
    }
    status, view := MemoryCreate(p, arena, c, generation);
    if status == Ok {
      PackedTotals(arena);
      LoadBound(p.total - p.available, p.total);
    }
  }

  lemma LoadBound(used: u64, total: u64)
    requires 0 < total && used <= total
    ensures Percent(used, total) <= 100
  {
  }

  /** In a coherent snapshot three figures follow from the others, and what is used or committed fits what there is. */
  lemma CoherentFigures(m: Memory)
    requires Coherent(m)
    ensures m.accountedUsage + m.availablePhysical == m.totalPhysical
    ensures m.availableCommit + m.committedVirtual == m.commitLimit
    ensures m.committedVirtual <= m.reservedVirtual <= m.virtualTotal && m.virtualAvailable <= m.virtualTotal
    ensures m.load * m.totalPhysical <= 100 * m.accountedUsage < (m.load + 1) * m.totalPhysical
  {
    var used, total := m.totalPhysical - m.availablePhysical, m.totalPhysical;
    PercentMeaning(used, total);
  }

  lemma PercentMeaning(used: u64, total: u64)
    requires 0 < total
    ensures Percent(used, total) * total <= 100 * used < (Percent(used, total) + 1) * total
  {
    var q := 100 * used / total;
    assert 100 * used == q * total + 100 * used % total;
    assert (q + 1) * total == q * total + total;
  }
}
