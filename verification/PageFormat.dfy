/**
 * x64 four-level paging structures: the entry word, the address decomposition and the table walk.
 *
 * Physical memory is a finite heap of 512-entry tables. A page that is not in the heap has no
 * alias, so a walk that reaches it stops with `InvalidTable`. Tables hold entries by field;
 * `EntryRoundTrip` shows that this loses nothing of the stored 64-bit word.
 */
module PageFormat {
  import opened Words

  datatype PagingStatus =
    | Ok
    | InvalidArgument
    | NonCanonical
    | Alignment
    | OutsideArena
    | NotPresent
    | Conflict
    | LargePage
    | ArenaConflict
    | Allocation
    | InvalidTable
    | Capacity

  // ---- The entry word ----

  /** `low`, `mid` and `high` are the bits between the named fields: 2-6, 8-11 and 52-62. */
  datatype Entry = Entry(present: bool, writable: bool, low: nat, large: bool, mid: nat,
                         address: u64, high: nat, noExecute: bool)

  function Bit(b: bool): nat {
    if b then 1 else 0
  }

  function DecodeEntry(word: u64): (e: Entry)
    ensures e.address % 0x1000 == 0 && e.address < 0x10_0000_0000_0000
    ensures e.low < 32 && e.mid < 16 && e.high < 2048
  {
    Entry(word % 2 == 1, word / 2 % 2 == 1, word / 4 % 32, word / 0x80 % 2 == 1, word / 0x100 % 16,
          word / 0x1000 % 0x100_0000_0000 * 0x1000, word / 0x10_0000_0000_0000 % 2048,
          word / 0x8000_0000_0000_0000 == 1)
  }

  function EncodeEntry(e: Entry): int {
    Bit(e.present) + 2 * Bit(e.writable) + 4 * e.low + 0x80 * Bit(e.large) + 0x100 * e.mid
    + e.address + 0x10_0000_0000_0000 * e.high + 0x8000_0000_0000_0000 * Bit(e.noExecute)
  }

  lemma EntryRoundTrip(word: u64)
    ensures EncodeEntry(DecodeEntry(word)) == word
  {
    assert word / 4 == word / 2 / 2 && word / 0x80 == word / 4 / 32;
    assert word / 0x100 == word / 0x80 / 2 && word / 0x1000 == word / 0x100 / 16;
    assert word / 0x10_0000_0000_0000 == word / 0x1000 / 0x100_0000_0000;
    assert word / 0x8000_0000_0000_0000 == word / 0x10_0000_0000_0000 / 2048;
  }

  /** Bit 0 is present, bit 1 writable, bit 7 large, bits 12 to 51 the frame and bit 63 no-execute. */
  lemma EntryBits()
    ensures DecodeEntry(1) == Entry(true, false, 0, false, 0, 0, 0, false)
    ensures DecodeEntry(2) == Entry(false, true, 0, false, 0, 0, 0, false)
    ensures DecodeEntry(0x80) == Entry(false, false, 0, true, 0, 0, 0, false)
    ensures DecodeEntry(0xF_FFFF_FFFF_F000) == Entry(false, false, 0, false, 0, 0xF_FFFF_FFFF_F000, 0, false)
    ensures DecodeEntry(0x8000_0000_0000_0000) == Entry(false, false, 0, false, 0, 0, 0, true)
  {
  }

  const ABSENT: Entry := Entry(false, false, 0, false, 0, 0, 0, false)

  /** The zero word that unmapping writes is the absent entry. */
  lemma ZeroIsAbsent()
    ensures DecodeEntry(0) == ABSENT
  {
  }

  /** `physical | PRESENT | WRITABLE? | NO_EXECUTE?` for a page-aligned `physical`. */
  function EntryWord(physical: u64, writable: bool, noExecute: bool): u64
    requires physical % 0x1000 == 0
  {
    var low := physical + 1 + (if writable then 2 else 0);
    if noExecute && low < 0x8000_0000_0000_0000 then low + 0x8000_0000_0000_0000 else low
  }

  function MakeEntry(physical: u64, writable: bool, noExecute: bool): (e: Entry)
    requires physical % 0x1000 == 0
  {
    DecodeEntry(EntryWord(physical, writable, noExecute))
  }

  lemma EntryWordShape(physical: u64, writable: bool, noExecute: bool) returns (k: nat, top: nat)
    requires physical % 0x1000 == 0
    ensures physical == 0x1000 * k && (top == 0 || top == 0x8_0000_0000_0000)
    ensures EntryWord(physical, writable, noExecute) == 0x1000 * (k + top) + (if writable then 3 else 1)
  {
    k := physical / 0x1000;
    top := if EntryWord(physical, writable, noExecute) == physical + (if writable then 3 else 1)
    then 0 else 0x8_0000_0000_0000;
  }

  /** The flags are stored as asked; a frame with bit 63 set sets the no-execute bit as well. */
  lemma MadeFlags(physical: u64, writable: bool, noExecute: bool)
    requires physical % 0x1000 == 0
    ensures MakeEntry(physical, writable, noExecute).present
    ensures MakeEntry(physical, writable, noExecute).writable == writable
    ensures MakeEntry(physical, writable, noExecute).noExecute <==> noExecute || physical >= 0x8000_0000_0000_0000
    ensures !MakeEntry(physical, writable, noExecute).large
  {
    var k, top := EntryWordShape(physical, writable, noExecute);
    WordFlags(k + top, if writable then 3 else 1);
  }

  /** The stored frame is the requested one exactly when it fits the 52-bit physical mask. */
  lemma MadeAddress(physical: u64, writable: bool, noExecute: bool)
    requires physical % 0x1000 == 0
    ensures MakeEntry(physical, writable, noExecute).address == physical % 0x10_0000_0000_0000
    ensures MakeEntry(physical, writable, noExecute).address == physical <==> physical < 0x10_0000_0000_0000
  {
    var k, top := EntryWordShape(physical, writable, noExecute);
    var flags := if writable then 3 else 1;
    WordFrame(k + top, flags);
    TopBit(k, top);
    PageMod(k);
  }

  /** The no-execute bit does not reach the frame number. */
  lemma TopBit(k: nat, top: nat)
    requires top == 0 || top == 0x8_0000_0000_0000
    ensures (k + top) % 0x100_0000_0000 == k % 0x100_0000_0000
  {
  }

  lemma PageMod(k: nat)
    ensures (0x1000 * k) % 0x10_0000_0000_0000 == k % 0x100_0000_0000 * 0x1000
  {
    var q, r := k / 0x100_0000_0000, k % 0x100_0000_0000;
    assert 0x1000 * k == q * 0x10_0000_0000_0000 + r * 0x1000;
  }

  lemma WordFrame(k: nat, flags: nat)
    requires flags < 4
    ensures (0x1000 * k + flags) / 0x1000 == k
  {
  }

  lemma Parity(m: nat, bit: nat)
    requires bit < 2
    ensures (2 * m + bit) % 2 == bit
  {
  }

  lemma WordHalf(k: nat, flags: nat)
    requires flags < 4
    ensures (0x1000 * k + flags) / 2 == 2 * (0x400 * k) + flags / 2
    ensures 0x1000 * k + flags == 2 * (0x800 * k + flags / 2) + flags % 2
  {
  }

  lemma WordLarge(k: nat, flags: nat)
    requires flags < 4
    ensures (0x1000 * k + flags) / 0x80 == 2 * (0x10 * k) + 0
  {
  }

  lemma WordFlags(k: nat, flags: nat)
    requires flags < 4
    ensures (0x1000 * k + flags) % 2 == flags % 2
    ensures (0x1000 * k + flags) / 2 % 2 == flags / 2
    ensures (0x1000 * k + flags) / 0x80 % 2 == 0
  {
    WordHalf(k, flags);
    WordLarge(k, flags);
    Parity(0x800 * k + flags / 2, flags % 2);
    Parity(0x400 * k, flags / 2);
    Parity(0x10 * k, 0);
  }

  // ---- The address decomposition ----

  predicate Canonical48(address: u64) {
    var upper := address / 0x1_0000_0000_0000;
    var bit47 := address / 0x8000_0000_0000 % 2;
    (bit47 == 0 && upper == 0) || (bit47 != 0 && upper == 0xFFFF)
  }

  /** The two halves of the canonical address space. */
  lemma CanonicalHalves(address: u64)
    ensures Canonical48(address) <==> address < 0x8000_0000_0000 || address >= 0xFFFF_8000_0000_0000
  {
    assert address / 0x8000_0000_0000 == 2 * (address / 0x1_0000_0000_0000) + address / 0x8000_0000_0000 % 2;
  }

  type Index = i: nat | i < 512

  datatype Path = Path(pml4: Index, pdpt: Index, pd: Index, pt: Index)

  function Pml4Index(address: u64): Index {
    address / 0x80_0000_0000 % 512
  }

  function PathOf(address: u64): Path {
    Path(Pml4Index(address), address / 0x4000_0000 % 512, address / 0x20_0000 % 512, address / 0x1000 % 512)
  }

  lemma PathDigits(a: u64)
    requires Canonical48(a)
    ensures PageOf(a) == (if Pml4Index(a) < 256 then 0 else 0xFFFF_0000_0000_0000)
      + PathOf(a).pml4 * 0x80_0000_0000 + PathOf(a).pdpt * 0x4000_0000
      + PathOf(a).pd * 0x20_0000 + PathOf(a).pt * 0x1000
  {
    assert a / 0x20_0000 == a / 0x1000 / 512;
    assert a / 0x4000_0000 == a / 0x20_0000 / 512;
    assert a / 0x80_0000_0000 == a / 0x4000_0000 / 512;
    assert a / 0x1_0000_0000_0000 == a / 0x80_0000_0000 / 512;
    assert a / 0x8000_0000_0000 == a / 0x80_0000_0000 / 256;
  }

  /** Canonical addresses share a page exactly when the walk takes the same path for them. */
  lemma PathDeterminesPage(a: u64, b: u64)
    requires Canonical48(a) && Canonical48(b)
    ensures PathOf(a) == PathOf(b) <==> PageOf(a) == PageOf(b)
  {
    PathDigits(a);
    PathDigits(b);
    if PageOf(a) == PageOf(b) {
      SamePageSamePath(a, b);
    }
  }

  lemma SamePageSamePath(a: u64, b: u64)
    requires PageOf(a) == PageOf(b)
    ensures Canonical48(a) == Canonical48(b) && PathOf(a) == PathOf(b)
  {
    assert a / 0x1000 == b / 0x1000;
    assert a / 0x20_0000 == a / 0x1000 / 512 && b / 0x20_0000 == b / 0x1000 / 512;
    assert a / 0x4000_0000 == a / 0x20_0000 / 512 && b / 0x4000_0000 == b / 0x20_0000 / 512;
    assert a / 0x80_0000_0000 == a / 0x4000_0000 / 512 && b / 0x80_0000_0000 == b / 0x4000_0000 / 512;
    assert a / 0x8000_0000_0000 == a / 0x80_0000_0000 / 256 && b / 0x8000_0000_0000 == b / 0x80_0000_0000 / 256;
    assert a / 0x1_0000_0000_0000 == a / 0x80_0000_0000 / 512 && b / 0x1_0000_0000_0000 == b / 0x80_0000_0000 / 512;
  }

  // ---- The walk ----

  type Table = t: seq<Entry> | |t| == 512 witness seq(512, _ => ABSENT)

  type Memory = map<u64, Table>

  /** Where a walk ends: at a level-1, level-2 or level-3 translation, or at a fault. */
  datatype Walk = Leaf(entry: Entry, level: nat) | Fault(status: PagingStatus)

  function WalkPml4(mem: Memory, table: u64, path: Path): Walk {
    if table !in mem then Fault(InvalidTable) else
    var entry := mem[table][path.pml4];
    if !entry.present then Fault(NotPresent) else WalkPdpt(mem, entry.address, path)
  }

  function WalkPdpt(mem: Memory, table: u64, path: Path): Walk {
    if table !in mem then Fault(InvalidTable) else
    var entry := mem[table][path.pdpt];
    if !entry.present then Fault(NotPresent)
    else if entry.large then Leaf(entry, 3)
    else WalkPd(mem, entry.address, path)
  }

  function WalkPd(mem: Memory, table: u64, path: Path): Walk {
    if table !in mem then Fault(InvalidTable) else
    var entry := mem[table][path.pd];
    if !entry.present then Fault(NotPresent)
    else if entry.large then Leaf(entry, 2)
    else WalkPt(mem, entry.address, path)
  }

  function WalkPt(mem: Memory, table: u64, path: Path): Walk {
    if table !in mem then Fault(InvalidTable) else
    var entry := mem[table][path.pt];
    if !entry.present then Fault(NotPresent) else Leaf(entry, 1)
  }

  datatype Mapping = Mapping(physicalBase: int, pageSize: int, entry: Entry, level: nat)

  datatype QueryResult = Mapped(mapping: Mapping) | Unmapped(status: PagingStatus)

  function Answer(walk: Walk, va: u64): QueryResult {
    match walk
    case Fault(status) => Unmapped(status)
    case Leaf(entry, level) =>
      if level == 1 then Mapped(Mapping(entry.address + va % 0x1000, 0x1000, entry, 1)) else
      var size := if level == 2 then 0x20_0000 else 0x4000_0000;
      Mapped(Mapping(entry.address - entry.address % size + va % size, size, entry, level))
  }

  /** gxos_vm_paging_query_root; the root word is a CR3 value, so its address field is used. */
  function QueryRoot(mem: Memory, rootPhysical: u64, va: u64): QueryResult {
    if rootPhysical == 0 then Unmapped(InvalidArgument)
    else if !Canonical48(va) then Unmapped(NonCanonical)
    else Answer(WalkPml4(mem, DecodeEntry(rootPhysical).address, PathOf(va)), va)
  }

  /** The tables that a walk of `va` from `rootPhysical` reads, and the entries it meets in them. */
  datatype Trail = Trail(pdpt: u64, pd: u64, pt: u64, e4: Entry, e3: Entry, e2: Entry, e1: Entry)

  /** The root entry of `va` is there and leads to a third-level table. */
  ghost predicate ToPdpt(mem: Memory, rootPhysical: u64, va: u64, t: Trail) {
    && rootPhysical != 0 && Canonical48(va)
    && DecodeEntry(rootPhysical).address in mem && t.pdpt in mem
    && t.e4 == mem[DecodeEntry(rootPhysical).address][PathOf(va).pml4] && t.e4.present && t.e4.address == t.pdpt
    && t.e3 == mem[t.pdpt][PathOf(va).pdpt] && t.e3.present
  }

  ghost predicate ToPd(mem: Memory, rootPhysical: u64, va: u64, t: Trail) {
    && ToPdpt(mem, rootPhysical, va, t) && !t.e3.large && t.e3.address == t.pd && t.pd in mem
    && t.e2 == mem[t.pd][PathOf(va).pd] && t.e2.present
  }

  ghost predicate ToPt(mem: Memory, rootPhysical: u64, va: u64, t: Trail) {
    && ToPd(mem, rootPhysical, va, t) && !t.e2.large && t.e2.address == t.pt && t.pt in mem
    && t.e1 == mem[t.pt][PathOf(va).pt] && t.e1.present
  }

  /** A 1 GiB page: the frame rounded down to 1 GiB, plus the offset of 30 bits. */
  lemma HugePage(mem: Memory, rootPhysical: u64, va: u64, t: Trail)
    requires ToPdpt(mem, rootPhysical, va, t) && t.e3.large
    ensures QueryRoot(mem, rootPhysical, va) == Mapped(
              Mapping(t.e3.address / 0x4000_0000 * 0x4000_0000 + va % 0x4000_0000, 0x4000_0000, t.e3, 3))
  {
  }

  /** A 2 MiB page: the frame rounded down to 2 MiB, plus the offset of 21 bits. */
  lemma LargePageAnswer(mem: Memory, rootPhysical: u64, va: u64, t: Trail)
    requires ToPd(mem, rootPhysical, va, t) && t.e2.large
    ensures QueryRoot(mem, rootPhysical, va) == Mapped(
              Mapping(t.e2.address / 0x20_0000 * 0x20_0000 + va % 0x20_0000, 0x20_0000, t.e2, 2))
  {
  }

  /** A 4 KiB page: the frame plus the offset of 12 bits. */
  lemma SmallPage(mem: Memory, rootPhysical: u64, va: u64, t: Trail)
    requires ToPt(mem, rootPhysical, va, t)
    ensures QueryRoot(mem, rootPhysical, va) == Mapped(Mapping(t.e1.address + va % 0x1000, 0x1000, t.e1, 1))
  {
  }
}
