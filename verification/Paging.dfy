/**
 * GXOS_VM_PAGING: a private root, lazily allocated tables for one arena, and map, unmap and
 * destroy. The class is shown to implement a finite map from arena pages to leaf entries on top
 * of the unchanged firmware translation.
 */
module Paging {
  import opened Words
  import opened PageFormat
  import opened PageTree

  const MAX_OWNED_TABLE_PAGES: nat := 64

  /** The abstract meaning: `pages` overrides the firmware translation and nothing else differs. */
  ghost function Translation(firmware: Memory, cr3: u64, pages: map<u64, Entry>, va: u64): QueryResult {
    if PageOf(va) in pages then Answer(Leaf(pages[PageOf(va)], 1), va) else QueryRoot(firmware, cr3, va)
  }

  ghost predicate Refines(h: Hierarchy, pages: map<u64, Entry>) {
    forall va: u64 :: h.Query(va) == Translation(h.firmware, h.cr3, pages, va)
  }

  ghost predicate SlotWasAbsent(h: Hierarchy)
    requires h.Tree()
  {
    !h.firmware[DecodeEntry(h.cr3).address][h.slot].present
  }

  lemma RootDecodes(root: u64)
    requires root % 0x1000 == 0 && root < 0x10_0000_0000_0000
    ensures DecodeEntry(root).address == root
  {
  }

  lemma QueryIsWalk(h: Hierarchy, va: u64)
    requires h.Tree()
    ensures h.Query(va) == if Canonical48(va) then Answer(h.Walk(PathOf(va)), va) else Unmapped(NonCanonical)
  {
    RootDecodes(h.root);
  }

  lemma LinkRefines(h: Hierarchy, pages: map<u64, Entry>, parent: u64, index: nat, child: u64, entry: Entry)
    requires h.Tree() && Separated(h.firmware, h.cr3, {child}) && h.CanLink(parent, index, child, entry)
        && Refines(h, pages)
    ensures Refines(h.Link(parent, index, child, entry), pages)
  {
    var h' := h.Link(parent, index, child, entry);
    LinkKeepsTree(h, parent, index, child, entry);
    forall va: u64
      ensures h'.Query(va) == Translation(h.firmware, h.cr3, pages, va)
    {
      assert h.Query(va) == Translation(h.firmware, h.cr3, pages, va);
      QueryIsWalk(h, va);
      QueryIsWalk(h', va);
      LinkKeepsWalk(h, parent, index, child, entry, PathOf(va));
    }
  }

  function SetLeaf(pages: map<u64, Entry>, page: u64, entry: Entry): map<u64, Entry> {
    if entry.present then pages[page := entry] else pages - {page}
  }

  /** A leaf store is an update of the abstract map at that one page. */
  lemma StoreRefines(h: Hierarchy, pages: map<u64, Entry>, page: u64, pt: u64, entry: Entry)
    requires h.Tree() && SlotWasAbsent(h) && h.PageTable(pt) && Refines(h, pages)
    requires page % 0x1000 == 0 && Canonical48(page) && Pml4Index(page) == h.slot
    requires h.Reaches(PathOf(page), pt)
    ensures Refines(h.Store(pt, PathOf(page).pt, entry), SetLeaf(pages, page, entry))
  {
    var h' := h.Store(pt, PathOf(page).pt, entry);
    var pages' := SetLeaf(pages, page, entry);
    StoreLeafKeepsTree(h, pt, PathOf(page).pt, entry);
    forall va: u64
      ensures h'.Query(va) == Translation(h.firmware, h.cr3, pages', va)
    {
      assert h.Query(va) == Translation(h.firmware, h.cr3, pages, va);
      QueryIsWalk(h, va);
      QueryIsWalk(h', va);
      StoreLeaf(h, PathOf(page), pt, entry, PathOf(va));
      if Canonical48(va) {
        PathDeterminesPage(va, page);
      } else if PageOf(va) == page {
        SamePageSamePath(va, page);
      }
    }
  }

  /** The tables are a tree and mean `pages`. */
  ghost predicate Sound(h: Hierarchy, pages: map<u64, Entry>) {
    h.Tree() && SlotWasAbsent(h) && Refines(h, pages)
  }

  ghost predicate SameGround(h: Hierarchy, h': Hierarchy) {
    h'.root == h.root && h'.slot == h.slot && h'.firmware == h.firmware && h'.cr3 == h.cr3
  }

  /** Owned tables stay owned and their present entries stay as they are. */
  ghost predicate Grows(h: Hierarchy, h': Hierarchy) {
    && SameGround(h, h')
    && (forall t | t in h.tags :: t in h'.tags && h'.tags[t] == h.tags[t])
    && (forall t, i | t in h.tags && t in h.mem && 0 <= i < 512 && h.mem[t][i].present ::
          t in h'.mem && h'.mem[t][i] == h.mem[t][i])
  }

  lemma GrowsReflexive(h: Hierarchy)
    ensures Grows(h, h)
  {
  }

  lemma GrowsTransitive(h: Hierarchy, h': Hierarchy, h'': Hierarchy)
    requires Grows(h, h') && Grows(h', h'')
    ensures Grows(h, h'')
  {
  }

  lemma GrowsRoot(h: Hierarchy, h': Hierarchy)
    requires Grows(h, h')
    ensures h'.root == h.root
  {
  }

  lemma RootLevel(h: Hierarchy)
    requires h.Tree()
    ensures h.root in h.tags && Level(h.tags[h.root]) == 4
  {
  }

  /** Entry `index` of the owned table `parent` points to the owned table `child`. */
  ghost predicate Child(h: Hierarchy, parent: u64, index: Index, child: u64) {
    && parent in h.tags && parent in h.mem && h.mem[parent][index].present && h.mem[parent][index].address == child
    && child in h.tags && Level(h.tags[child]) == Level(h.tags[parent]) - 1
  }

  ghost predicate Occupied(h: Hierarchy, table: u64, index: nat) {
    table in h.mem && index < 512 && h.mem[table][index].present
  }

  /** The page table at the end of `path` is there. */
  ghost predicate Reached(h: Hierarchy, path: Path) {
    exists pt :: h.Reaches(path, pt)
  }

  lemma ReachedEntries(h: Hierarchy, path: Path)
    requires Reached(h, path)
    ensures Occupied(h, h.root, path.pml4)
    ensures Occupied(h, h.mem[h.root][path.pml4].address, path.pdpt)
    ensures Occupied(h, h.mem[h.mem[h.root][path.pml4].address][path.pdpt].address, path.pd)
  {
  }

  lemma ChildGrows(h: Hierarchy, h': Hierarchy, parent: u64, index: Index, child: u64)
    requires Grows(h, h') && Child(h, parent, index, child)
    ensures Child(h', parent, index, child)
  {
  }

  lemma ChildrenReach(h: Hierarchy, path: Path, pdpt: u64, pd: u64, pt: u64)
    requires h.Tree() && Child(h, h.root, path.pml4, pdpt) && Child(h, pdpt, path.pdpt, pd) && Child(h, pd, path.pd, pt)
    ensures h.PageTable(pt) && h.Reaches(path, pt)
  {
  }

  lemma LinkGrows(h: Hierarchy, parent: u64, index: nat, child: u64, entry: Entry)
    requires h.Grounded() && Separated(h.firmware, h.cr3, {child}) && h.CanLink(parent, index, child, entry)
    ensures Grows(h, h.Link(parent, index, child, entry))
  {
  }

  /** In sound tables the leaf entry of a reached page is its entry in the abstract map. */
  lemma LeafIsPage(h: Hierarchy, pages: map<u64, Entry>, page: u64, pt: u64)
    requires Sound(h, pages) && page % 0x1000 == 0 && Canonical48(page) && PathOf(page).pml4 == h.slot
    requires h.Reaches(PathOf(page), pt)
    ensures h.PageTable(pt) && (h.mem[pt][PathOf(page).pt].present <==> page in pages)
    ensures page in pages ==> h.mem[pt][PathOf(page).pt] == pages[page]
  {
    assert h.Query(page) == Translation(h.firmware, h.cr3, pages, page);
    QueryIsWalk(h, page);
    InsideSlot(h, PathOf(page));
  }

  lemma StoreSound(h: Hierarchy, pages: map<u64, Entry>, page: u64, pt: u64, entry: Entry)
    requires Sound(h, pages) && h.PageTable(pt)
    requires page % 0x1000 == 0 && Canonical48(page) && Pml4Index(page) == h.slot
    requires h.Reaches(PathOf(page), pt)
    ensures Sound(h.Store(pt, PathOf(page).pt, entry), SetLeaf(pages, page, entry))
    ensures h.Store(pt, PathOf(page).pt, entry).mem.Keys == h.mem.Keys
  {
    StoreRefines(h, pages, page, pt, entry);
    StoreLeafKeepsTree(h, pt, PathOf(page).pt, entry);
    assert pt in h.mem;
  }

  lemma LinkSound(h: Hierarchy, pages: map<u64, Entry>, parent: u64, index: nat, child: u64, entry: Entry)
    requires Sound(h, pages) && Separated(h.firmware, h.cr3, {child}) && h.CanLink(parent, index, child, entry)
    ensures Sound(h.Link(parent, index, child, entry), pages)
    ensures Grows(h, h.Link(parent, index, child, entry)) && child !in h.tags
  {
    LinkRefines(h, pages, parent, index, child, entry);
    LinkKeepsTree(h, parent, index, child, entry);
    LinkGrows(h, parent, index, child, entry);
  }

  /** A page the walk does not end at with a 4 KiB leaf is not in the abstract map. */
  lemma NoLeafNoPage(h: Hierarchy, pages: map<u64, Entry>, page: u64)
    requires Sound(h, pages) && page % 0x1000 == 0 && Canonical48(page)
    requires h.Walk(PathOf(page)).Fault? || h.Walk(PathOf(page)).level != 1
    ensures page !in pages
  {
    assert h.Query(page) == Translation(h.firmware, h.cr3, pages, page);
    QueryIsWalk(h, page);
  }

  /** A private copy of the firmware root, with the arena slot absent, changes no translation. */
  lemma FreshRoot(firmware: Memory, cr3: u64, root: u64, slot: Index)
    requires cr3 != 0 && DecodeEntry(cr3).address in firmware
    requires !firmware[DecodeEntry(cr3).address][slot].present
    requires Aligned({root}) && Separated(firmware, cr3, {root})
    ensures Sound(Hierarchy(firmware[root := firmware[DecodeEntry(cr3).address]], map[root := Root],
                            root, slot, firmware, cr3), map[])
  {
    var h := Hierarchy(firmware[root := firmware[DecodeEntry(cr3).address]], map[root := Root],
                       root, slot, firmware, cr3);
    assert root in {root} && h.tags.Keys == {root};
    assert h.Tree();
    forall va: u64
      ensures h.Query(va) == QueryRoot(firmware, cr3, va)
    {
      QueryIsWalk(h, va);
      if Pml4Index(va) != slot {
        OutsideSlot(h, PathOf(va));
      }
    }
  }

  /** Every table that a walk from the firmware root reads is in the firmware's table memory. */
  ghost predicate Closed(firmware: Memory, cr3: u64) {
    forall path: Path, p: u64 | Enters(firmware, DecodeEntry(cr3).address, path, p) :: p in firmware
  }

  /**
   * Whatever such a firmware maps to what, a pool meets the demand exactly if none of its pages is a
   * firmware table.
   */
  lemma ClosedIsSeparated(firmware: Memory, cr3: u64, pool: set<u64>)
    requires Closed(firmware, cr3)
    ensures Separated(firmware, cr3, pool) <==> firmware.Keys !! pool
  {
  }

  /** A present entry without other flags. */
  function Plain(address: u64, large: bool): Entry {
    Entry(true, true, 0, large, 0, address, 0, false)
  }

  lemma LowPath(va: u64)
    ensures 0x5000 <= va < 0x6000 ==> Canonical48(va) && PathOf(va) == Path(0, 0, 0, 5) && va % 0x1000 == va - 0x5000
    ensures 0x20_0000 <= va < 0x40_0000 ==> Canonical48(va) && va % 0x20_0000 == va - 0x20_0000
    ensures 0x20_0000 <= va < 0x40_0000 ==> PathOf(va).pml4 == 0 && PathOf(va).pdpt == 0 && PathOf(va).pd == 1
  {
  }

  /**
   * A firmware root that maps the whole pool to itself, as the program's own table allocator asks:
   * one page by a 4 KiB entry, one by a 2 MiB entry.
   */
  lemma IdentityMapIsSeparated() returns (firmware: Memory, pool: set<u64>)
    ensures pool == {0x5000, 0x20_0000} && Aligned(pool) && Separated(firmware, 0x1000, pool)
    ensures Closed(firmware, 0x1000)
    ensures forall va: u64 | 0x5000 <= va < 0x6000 || 0x20_0000 <= va < 0x40_0000 ::
              QueryRoot(firmware, 0x1000, va).Mapped? && QueryRoot(firmware, 0x1000, va).mapping.physicalBase == va
  {
    var root, pdpt := EmptyTable()[0 := Plain(0x2000, false)], EmptyTable()[0 := Plain(0x3000, false)];
    var pd: Table := EmptyTable()[0 := Plain(0x4000, false)][1 := Plain(0x20_0000, true)];
    var pt: Table := EmptyTable()[5 := Plain(0x5000, false)];
    firmware := map[0x1000 := root, 0x2000 := pdpt, 0x3000 := pd, 0x4000 := pt];
    pool := {0x5000, 0x20_0000};
    RootDecodes(0x1000);
    forall va: u64 | 0x5000 <= va < 0x6000 || 0x20_0000 <= va < 0x40_0000
      ensures QueryRoot(firmware, 0x1000, va).Mapped? && QueryRoot(firmware, 0x1000, va).mapping.physicalBase == va
    {
      LowPath(va);
      var t := Trail(0x2000, 0x3000, 0x4000, root[0], pdpt[0], pd[if va < 0x20_0000 then 0 else 1], pt[5]);
      if va < 0x20_0000 {
        SmallPage(firmware, 0x1000, va, t);
      } else {
        LargePageAnswer(firmware, 0x1000, va, t);
      }
    }
  }

  /** Consecutive pages mapped to consecutive frames, from `page` and `physical` on. */
  datatype Run = Run(page: u64, physical: u64, writable: bool, noExecute: bool) {
    predicate Fits(count: nat) {
      page + 0x1000 * count <= MAX_U64 && physical + 0x1000 * count <= MAX_U64 && physical % 0x1000 == 0
    }

    function PageAt(k: nat): u64
      requires Fits(k)
    {
      page + 0x1000 * k
    }

    function EntryAt(k: nat): Entry
      requires Fits(k)
    {
      MakeEntry(physical + 0x1000 * k, writable, noExecute)
    }

    ghost function Apply(pages: map<u64, Entry>, count: nat): map<u64, Entry>
      requires Fits(count)
    {
      if count == 0 then pages else Apply(pages, count - 1)[PageAt(count - 1) := EntryAt(count - 1)]
    }

    /** No page of the run was mapped before its turn came. */
    ghost predicate Fresh(pages: map<u64, Entry>, count: nat)
      requires Fits(count)
    {
      count == 0 || (Fresh(pages, count - 1) && PageAt(count - 1) !in Apply(pages, count - 1))
    }
  }

  lemma RunStart(run: Run, pages: map<u64, Entry>)
    requires run.Fits(0)
    ensures run.Apply(pages, 0) == pages && run.Fresh(pages, 0)
  {
  }

  lemma RunStep(run: Run, pages: map<u64, Entry>, k: nat)
    requires run.Fits(k + 1)
    ensures run.Apply(pages, k + 1) == run.Apply(pages, k)[run.PageAt(k) := run.EntryAt(k)]
    ensures run.Fresh(pages, k + 1) <==> run.Fresh(pages, k) && run.PageAt(k) !in run.Apply(pages, k)
  {
  }

  /** A run that is new as a whole is new up to any point. */
  lemma {:induction false} FreshSoFar(run: Run, pages: map<u64, Entry>, k: nat, count: nat)
    requires k <= count && run.Fits(count)
    ensures run.Fresh(pages, count) ==> run.Fresh(pages, k)
  {
    if k < count {
      FreshSoFar(run, pages, k, count - 1);
    }
  }

  /** The argument checks of gxos_vm_paging_map_range. */
  predicate RunAllowed(page: u64, physical: u64, count: u64) {
    && 0 < count <= MAX_COMMITMENTS && page % 0x1000 == 0 && physical % 0x1000 == 0
    && page + 0x1000 * count <= MAX_U64 && physical + 0x1000 * count <= MAX_U64
  }

  lemma StripOwned(h: Hierarchy)
    requires h.Tree()
    ensures h.mem - h.tags.Keys == h.firmware && h.tags.Keys <= h.mem.Keys && 0 !in h.tags
  {
  }

  // ---- The arena lies in one top-level slot ----

  ghost predicate InOneSlot(base: u64, length: u64) {
    length > 0 && base / 0x80_0000_0000 == (base + length - 1) / 0x80_0000_0000
  }

  /** The check made at creation compares nine-bit indices only: it is exact up to 512 GiB. */
  lemma SlotCheckIsExact(base: u64, length: u64)
    requires 0 < length && base + length <= MAX_U64
    ensures InOneSlot(base, length)
       <==> Pml4Index(base) == Pml4Index(base + length - 1) && length <= 0x80_0000_0000
  {
    var first, last := base / 0x80_0000_0000, (base + length - 1) / 0x80_0000_0000;
    if length <= 0x80_0000_0000 {
      assert first <= last <= first + 1;
    }
  }

  /** A longer arena can pass the check and still reach into another slot. */
  lemma SlotCheckCanWrap()
    ensures Canonical48(0) && Pml4Index(0) == Pml4Index(0x1_0000_0000_0001 - 1)
    ensures Canonical48(0x80_0000_0000) && Pml4Index(0x80_0000_0000) != Pml4Index(0)
    ensures 0 <= 0x80_0000_0000 && 0x80_0000_0000 + 0x1000 <= 0x1_0000_0000_0001
  {
  }

  lemma ArenaAddress(base: u64, length: u64, va: u64)
    requires Canonical48(base) && InOneSlot(base, length) && base <= va < base + length
    ensures Canonical48(va) && Pml4Index(va) == Pml4Index(base)
  {
    assert va / 0x80_0000_0000 == base / 0x80_0000_0000;
    assert va / 0x8000_0000_0000 == va / 0x80_0000_0000 / 256;
    assert base / 0x8000_0000_0000 == base / 0x80_0000_0000 / 256;
    assert va / 0x1_0000_0000_0000 == va / 0x80_0000_0000 / 512;
    assert base / 0x1_0000_0000_0000 == base / 0x80_0000_0000 / 512;
  }

  /** arena_contains_page; the subtraction wraps when the arena ends inside the first page. */
  predicate ArenaContainsPage(base: u64, length: u64, page: u64) {
    && length != 0 && base <= MAX_U64 - length && page % 0x1000 == 0
    && base <= page
    && page <= (base + length - 0x1000) % 0x1_0000_0000_0000_0000
  }

  /** The page lies in the arena. */
  predicate InArena(base: u64, length: u64, page: u64) {
    page % 0x1000 == 0 && base <= page && page + 0x1000 <= base + length
  }

  /** The test is right about every page exactly for the arenas that end at or after the first page. */
  lemma ArenaPageIsExact(base: u64, length: u64)
    requires 0 < length && base + length <= MAX_U64
    ensures (forall page: u64 :: ArenaContainsPage(base, length, page) <==> InArena(base, length, page)) <==>
        0x1000 <= base + length
  {
    if base + length < 0x1000 {
      ArenaPageWraps(base, length);
    }
  }

  /** An arena that ends inside the first page is taken to hold the second one. */
  lemma ArenaPageWraps(base: u64, length: u64)
    requires 0 < length && base + length < 0x1000
    ensures ArenaContainsPage(base, length, 0x1000) && !InArena(base, length, 0x1000)
  {
  }

  lemma ArenaPage(base: u64, length: u64, page: u64)
    requires 0x1000 <= base + length
    ensures ArenaContainsPage(base, length, page)
       <==> InArena(base, length, page) && base + length <= MAX_U64 && length != 0
  {
  }

  lemma ArenaPagePath(base: u64, length: u64, page: u64)
    requires Canonical48(base) && InOneSlot(base, length) && 0x1000 <= base + length
    requires ArenaContainsPage(base, length, page)
    ensures page % 0x1000 == 0 && Canonical48(page) && PathOf(page).pml4 == Pml4Index(page) == Pml4Index(base)
  {
    ArenaPage(base, length, page);
    ArenaAddress(base, length, page);
  }

  /** A mapped page has its page table. */
  lemma MappedIsReached(tables: PageTables, page: u64)
    requires tables.Valid() && page in tables.pages
    ensures Reached(tables.space, PathOf(page)) && ArenaContainsPage(tables.arenaBase, tables.arenaLength, page)
  {
    ArenaPagePath(tables.arenaBase, tables.arenaLength, page);
    InsideSlot(tables.space, PathOf(page));
    QueryIsWalk(tables.space, page);
    assert PageOf(page) == page;
    MappedAddress(tables, page);
  }

  lemma MapFacts(tables: PageTables, page: u64)
    requires tables.Valid()
    ensures page in tables.pages ==>
              Reached(tables.space, PathOf(page)) && ArenaContainsPage(tables.arenaBase, tables.arenaLength, page)
    ensures ArenaContainsPage(tables.arenaBase, tables.arenaLength, page) ==> Canonical48(page) && page % 0x1000 == 0
  {
    if page in tables.pages {
      MappedIsReached(tables, page);
    }
    if ArenaContainsPage(tables.arenaBase, tables.arenaLength, page) {
      ArenaPagePath(tables.arenaBase, tables.arenaLength, page);
    }
  }

  lemma LeafFacts(tables: PageTables, page: u64, pt: u64)
    requires tables.Valid() && ArenaContainsPage(tables.arenaBase, tables.arenaLength, page)
    requires tables.space.Reaches(PathOf(page), pt)
    ensures tables.space.PageTable(pt) && (tables.space.mem[pt][PathOf(page).pt].present <==> page in tables.pages)
  {
    ArenaPagePath(tables.arenaBase, tables.arenaLength, page);
    LeafIsPage(tables.space, tables.pages, page, pt);
  }

  /** The copy loop of gxos_vm_paging_create. */
  method CopyTable(source: Table) returns (copy: Table)
    ensures copy == source
  {
    copy := EmptyTable();
    for i := 0 to 512
      invariant copy[..i] == source[..i]
    {
      copy := copy[i := source[i]];
    }
    assert copy[..512] == copy && source[..512] == source;
  }

  lemma StripTables(tables: PageTables)
    requires tables.Valid()
    ensures tables.space.mem - (set t | t in tables.owned) == tables.space.firmware
  {
    OwnedFacts(tables);
    StripOwned(tables.space);
  }

  /** The table memory is the firmware's and the owned tables. */
  lemma TableMemory(tables: PageTables)
    requires tables.Valid()
    ensures tables.space.mem.Keys == tables.space.firmware.Keys + tables.space.tags.Keys
  {
    StripOwned(tables.space);
  }

  lemma OwnedFacts(tables: PageTables)
    requires tables.Valid()
    ensures NoRepeats(tables.owned) && tables.space.tags.Keys == set t | t in tables.owned
    ensures forall t | t in tables.owned :: t !in tables.pool && t != 0
  {
    hide Refines, Separated, PageTree.Hierarchy.Linked;
    StripOwned(tables.space);
  }

  datatype Command =
    | Map(page: u64, physical: u64, writable: bool, executable: bool)
    | MapMany(page: u64, physical: u64, count: u64, writable: bool, executable: bool)
    | Unmap(page: u64)

  /** Whatever is mapped, an address outside the arena translates as under the firmware root. */
  lemma FirmwareOutsideArena(tables: PageTables, va: u64)
    requires tables.Valid()
    ensures !(tables.arenaBase <= va < tables.arenaBase + tables.arenaLength) ==>
              tables.Query(va) == QueryRoot(tables.space.firmware, tables.space.cr3, va)
  {
    assert tables.space.Query(va) == Translation(tables.space.firmware, tables.space.cr3, tables.pages, va);
    if PageOf(va) in tables.pages {
      ArenaPage(tables.arenaBase, tables.arenaLength, PageOf(va));
    }
  }

  /** An arena address whose page is not mapped does not translate at all. */
  lemma UnmappedInArena(tables: PageTables, va: u64)
    requires tables.Valid() && tables.arenaBase <= va < tables.arenaBase + tables.arenaLength
    ensures PageOf(va) !in tables.pages ==> tables.Query(va) == Unmapped(NotPresent)
  {
    ArenaAddress(tables.arenaBase, tables.arenaLength, va);
    assert tables.space.Query(va) == Translation(tables.space.firmware, tables.space.cr3, tables.pages, va);
  }

  /** A mapped address translates to its frame plus the offset in the page. */
  lemma MappedAddress(tables: PageTables, va: u64)
    requires tables.Valid()
    ensures PageOf(va) in tables.pages ==>
              && tables.Query(va).Mapped? && tables.Query(va).mapping.level == 1
              && tables.Query(va).mapping.pageSize == 0x1000
              && tables.Query(va).mapping.physicalBase == tables.pages[PageOf(va)].address + va % 0x1000
              && tables.Query(va).mapping.entry == tables.pages[PageOf(va)]
  {
    assert tables.space.Query(va) == Translation(tables.space.firmware, tables.space.cr3, tables.pages, va);
  }

  /** What the table allocator returned: success, a page or 0, and whether there is an alias for it. */
  datatype PageAnswer = PageAnswer(ok: bool, page: u64, hasAlias: bool) {
    /** The page that the answer gives, or 0 if it is not good for anything. */
    function Usable(): u64 {
      if ok && hasAlias then page else 0
    }
  }

  class PageTables {
    /** Table memory, and the pages the table allocator may still hand out. */
    var space: Hierarchy
    var pool: set<u64>

    var arenaBase: u64
    var arenaLength: u64
    var nxEnabled: bool
    var owned: seq<u64>

    /** The finite map that the tables implement. */
    ghost var pages: map<u64, Entry>

    /** History: how often the table allocator gave no usable page. */
    ghost var refused: nat

    /** History: all answers of the allocator. */
    ghost var answers: seq<PageAnswer>

    /** Tables not yet created, over the firmware's table memory and the pages that may be allocated. */
    constructor (firmware: Memory, free: set<u64>)
      ensures space.mem == firmware && pool == free && refused == 0 && answers == []
    {
      space := Hierarchy(firmware, map[], 0, 0, map[], 0);
      pool := free;
      arenaBase, arenaLength, nxEnabled, owned, pages, refused, answers := 0, 0, false, [], map[], 0, [];
    }

    /** gxos_vm_paging_query */
    function Query(va: u64): QueryResult
      reads this
    {
      space.Query(va)
    }

    ghost predicate Valid()
      reads this
    {
      && Sound(space, pages)
      && ArenaOk()
      && |owned| <= MAX_OWNED_TABLE_PAGES && NoRepeats(owned)
      && (forall t :: t in owned <==> t in space.tags)
      && PoolOk()
    }

    ghost predicate ArenaOk()
      reads this
    {
      && space.slot == Pml4Index(arenaBase)
      && Canonical48(arenaBase) && InOneSlot(arenaBase, arenaLength)
      && 0x1000 <= arenaBase + arenaLength <= MAX_U64
      && (forall p | p in pages :: pages[p].present && ArenaContainsPage(arenaBase, arenaLength, p))
    }

    /** What the table allocator promises about the pages it has not handed out. */
    ghost predicate PoolOk()
      reads this
    {
      Usable(pool)
    }

    /** Pages that may become tables: aligned, not table memory yet, and not entered from the firmware root. */
    ghost predicate Usable(free: set<u64>)
      reads this
    {
      Aligned(free) && free !! space.mem.Keys && Separated(space.firmware, space.cr3, free)
    }

    /** allocate_page of the table allocator: any answer, but a nonzero page is a fresh one. */
    method AllocatePage() returns (ok: bool, physical: u64, hasAlias: bool)
      modifies this`pool, this`answers
      ensures answers == old(answers) + [PageAnswer(ok, physical, hasAlias)]
      ensures physical == 0 ==> pool == old(pool)
      ensures physical != 0 ==> physical in old(pool) && pool == old(pool) - {physical}
      ensures !ok ==> physical == 0
    {
      ok, physical, hasAlias := *, 0, *;
      if ok && exists p :: p in pool && p != 0 {
        physical :| physical in pool && physical != 0;
        pool := pool - {physical};
      }
      answers := answers + [PageAnswer(ok, physical, hasAlias)];
    }

    /** free_page: only a page that is outstanding may be returned. */
    method FreePage(physical: u64)
      requires physical != 0 ==> physical !in pool
      modifies this`pool
      ensures pool == if physical == 0 then old(pool) else old(pool) + {physical}
    {
      if physical != 0 {
        pool := pool + {physical};
      }
    }

    /** An allocator answer without a page or without an alias is handed back as a failure. */
    method TakePage() returns (physical: u64)
      modifies this`pool, this`refused, this`answers
      ensures |answers| == |old(answers)| + 1 && answers[..|old(answers)|] == old(answers)
      ensures physical == answers[|old(answers)|].Usable()
      ensures physical == 0 ==> pool == old(pool) && refused == old(refused) + 1
      ensures physical != 0 ==> physical in old(pool) && pool == old(pool) - {physical} && refused == old(refused)
    {
      var ok, page, hasAlias := AllocatePage();
      if !ok {
        refused := refused + 1;
        return 0;
      }
      if page == 0 || !hasAlias {
        FreePage(page);
        refused := refused + 1;
        return 0;
      }
      return page;
    }

    /** allocate_page called for a page that will not be a table: what is lent is fit to become one later. */
    method LendPage() returns (ok: bool, physical: u64, hasAlias: bool)
      requires Valid()
      modifies this`pool, this`answers
      ensures Valid()
      ensures answers == old(answers) + [PageAnswer(ok, physical, hasAlias)]
      ensures physical == 0 ==> pool == old(pool)
      ensures physical != 0 ==> physical in old(pool) && pool == old(pool) - {physical} && Usable({physical})
    {
      hide Sound;
      ok, physical, hasAlias := AllocatePage();
    }

    /** free_page for a page that was lent: it is free for tables again. */
    method ReturnPage(physical: u64)
      requires Valid() && physical != 0 && physical !in pool && Usable({physical})
      modifies this`pool
      ensures Valid() && pool == old(pool) + {physical}
    {
      hide Sound;
      FreePage(physical);
    }

    /** Zero a fresh page, point the parent entry at it and record its ownership. */
    method LinkPage(parent: u64, index: Index, physical: u64, entry: Entry)
      requires Valid() && |owned| < MAX_OWNED_TABLE_PAGES
      requires space.CanLink(parent, index, physical, entry)
      requires physical !in pool && Separated(space.firmware, space.cr3, {physical})
      modifies this`space, this`owned
      ensures Valid() && Grows(old(space), space)
      ensures space == old(space).Link(parent, index, physical, entry)
    {
      hide Sound, Grows;
      LinkSound(space, pages, parent, index, physical, entry);
      space := space.Link(parent, index, physical, entry);
      owned := owned + [physical];
    }

    /** allocate_table, absent entry: hang a fresh empty table below it. */
    method GrowTable(parent: u64, index: Index) returns (status: PagingStatus, child: u64)
      requires Valid() && parent in space.tags && Level(space.tags[parent]) > 1
      requires parent == space.root ==> index == Pml4Index(arenaBase)
      requires parent in space.mem && !space.mem[parent][index].present
      modifies this`space, this`pool, this`refused, this`answers, this`owned
      ensures Valid() && Grows(old(space), space)
      ensures pool + space.tags.Keys == old(pool + space.tags.Keys)
      ensures status.Ok? ==> Child(space, parent, index, child)
      ensures status.Ok? || status.Allocation? || status.Capacity?
      ensures status.Allocation? ==> refused > old(refused)
      ensures status.Capacity? ==> |owned| >= MAX_OWNED_TABLE_PAGES
      ensures refused >= old(refused)
      ensures !status.Ok? ==> space == old(space) && pool == old(pool) && owned == old(owned)
    {
      GrowsReflexive(space);
      hide Grows, MakeEntry, Refines, PageTree.Hierarchy.Linked;
      if |owned| >= MAX_OWNED_TABLE_PAGES {
        return Capacity, 0;
      }
      var physical := TakePage();
      if physical == 0 {
        return Allocation, 0;
      }
      MadeFlags(physical, true, false);
      MadeAddress(physical, true, false);
      LinkPage(parent, index, physical, MakeEntry(physical, true, false));
      return Ok, physical;
    }

    /** allocate_table: follow a present entry, or grow. */
    method AllocateTable(parent: u64, index: Index) returns (status: PagingStatus, child: u64)
      requires Valid() && parent in space.tags && Level(space.tags[parent]) > 1
      requires parent == space.root ==> index == Pml4Index(arenaBase)
      modifies this`space, this`pool, this`refused, this`answers, this`owned
      ensures Valid() && Grows(old(space), space)
      ensures pool + space.tags.Keys == old(pool + space.tags.Keys)
      ensures status.Ok? ==> Child(space, parent, index, child)
      ensures status.Ok? || status.Allocation? || status.Capacity?
      ensures status.Allocation? ==> refused > old(refused)
      ensures status.Capacity? ==> |owned| >= MAX_OWNED_TABLE_PAGES
      ensures refused >= old(refused)
      ensures !status.Ok? ==> space == old(space) && pool == old(pool) && owned == old(owned)
      ensures old(Occupied(space, parent, index)) ==> status.Ok? && space == old(space)
    {
      assert space.DownLink(parent, index);
      var entry := space.mem[parent][index];
      if entry.present {
        return if entry.large then LargePage else Ok, entry.address;
      }
      status, child := GrowTable(parent, index);
    }

    /** The page table of an arena page, growing the three upper levels as needed. */
    method FindOrGrow(page: u64) returns (status: PagingStatus, pt: u64)
      requires Valid() && ArenaContainsPage(arenaBase, arenaLength, page)
      modifies this`space, this`pool, this`refused, this`answers, this`owned
      ensures Valid() && Grows(old(space), space)
      ensures pool + space.tags.Keys == old(pool + space.tags.Keys)
      ensures status.Ok? ==> space.PageTable(pt) && space.Reaches(PathOf(page), pt)
      ensures status.Ok? || status.Allocation? || status.Capacity?
      ensures status.Allocation? ==> refused > old(refused)
      ensures status.Capacity? ==> |owned| >= MAX_OWNED_TABLE_PAGES
      ensures refused >= old(refused)
      ensures old(Reached(space, PathOf(page))) ==> status.Ok?
    {
      var path := PathOf(page);
      ArenaPagePath(arenaBase, arenaLength, page);
      hide PageTree.Hierarchy.Tree, Grows, Refines, PathOf, ArenaContainsPage, Pml4Index;
      var pdpt, pd;
      ghost var start := space;
      if Reached(start, path) {
        ReachedEntries(start, path);
      }
      RootLevel(start);
      status, pdpt := AllocateTable(space.root, path.pml4);
      if !status.Ok? {
        return status, 0;
      }
      ghost var first := space;
      RootLevel(first);
      GrowsRoot(start, first);
      status, pd := AllocateTable(pdpt, path.pdpt);
      GrowsTransitive(start, first, space);
      if !status.Ok? {
        return status, 0;
      }
      ghost var second := space;
      ChildGrows(first, second, first.root, path.pml4, pdpt);
      RootLevel(second);
      GrowsRoot(first, second);
      status, pt := AllocateTable(pd, path.pd);
      GrowsTransitive(start, second, space);
      if status.Ok? {
        ChildGrows(second, space, first.root, path.pml4, pdpt);
        ChildGrows(second, space, pdpt, path.pdpt, pd);
        GrowsRoot(start, space);
        ChildrenReach(space, path, pdpt, pd, pt);
      }
    }

    /** zero_bytes through the alias of a page; if the page is a table, its entries are gone. */
    method ZeroPage(physical: u64)
      modifies this`space
      ensures space == if physical in old(space).mem then old(space).(mem := old(space).mem[physical := EmptyTable()])
                       else old(space)
    {
      if physical in space.mem {
        space := space.(mem := space.mem[physical := EmptyTable()]);
      }
    }

    /** Storing a leaf entry of an arena page updates the abstract map. */
    method StoreEntry(page: u64, pt: u64, entry: Entry)
      requires Valid() && ArenaContainsPage(arenaBase, arenaLength, page)
      requires space.Reaches(PathOf(page), pt)
      modifies this`space, this`pages
      ensures Valid()
      ensures pages == SetLeaf(old(pages), page, entry)
      ensures space.tags == old(space.tags) && SameGround(old(space), space)
    {
      hide Sound, PathOf, PageTree.Hierarchy.Reaches;
      ArenaPagePath(arenaBase, arenaLength, page);
      LeafIsPage(space, pages, page, pt);
      StoreSound(space, pages, page, pt, entry);
      space := space.Store(pt, PathOf(page).pt, entry);
      pages := SetLeaf(pages, page, entry);
    }

    /** gxos_vm_paging_map_page */
    method MapPage(page: u64, physical: u64, writable: bool, executable: bool) returns (status: PagingStatus)
      requires Valid()
      modifies this`space, this`pool, this`refused, this`answers, this`owned, this`pages
      ensures Valid() && SameGround(old(space), space)
      ensures pool + space.tags.Keys == old(pool + space.tags.Keys)
      ensures status.Ok? ==>
                && page !in old(pages) && physical % 0x1000 == 0
                && pages == old(pages)[page := MakeEntry(physical, writable, !executable && nxEnabled)]
      ensures !status.Ok? ==> pages == old(pages)
      ensures status.Conflict? <==> page in old(pages) && physical != 0 && physical % 0x1000 == 0
      ensures status.Ok? || status.Conflict? || status.Allocation? || status.Capacity? <==>
                physical != 0 && physical % 0x1000 == 0 && ArenaContainsPage(arenaBase, arenaLength, page)
      ensures status.Allocation? || status.Capacity? ==> !Reached(old(space), PathOf(page))
      ensures status.Allocation? ==> refused > old(refused)
      ensures status.Capacity? ==> |owned| >= MAX_OWNED_TABLE_PAGES
      ensures refused >= old(refused)
    {
      hide Valid, Reached, PathOf, MakeEntry, ArenaContainsPage;
      MapFacts(this, page);
      if physical == 0 || !Canonical48(page) {
        return if !Canonical48(page) then NonCanonical else InvalidArgument;
      }
      if page % 0x1000 != 0 || physical % 0x1000 != 0 {
        return Alignment;
      }
      if !ArenaContainsPage(arenaBase, arenaLength, page) {
        return OutsideArena;
      }
      var pt;
      status, pt := FindOrGrow(page);
      if !status.Ok? {
        return;
      }
      LeafFacts(this, page, pt);
      if space.mem[pt][PathOf(page).pt].present {
        return Conflict;
      }
      MadeFlags(physical, writable, !executable && nxEnabled);
      StoreEntry(page, pt, MakeEntry(physical, writable, !executable && nxEnabled));
      return Ok;
    }

    /** gxos_vm_paging_unmap_page */
    method UnmapPage(page: u64) returns (status: PagingStatus, physical: u64)
      requires Valid()
      modifies this`space, this`pages
      ensures Valid() && space.tags == old(space.tags) && SameGround(old(space), space)
      ensures pages == old(pages) - {page}
      ensures status.Ok? <==> page in old(pages)
      ensures physical == if status.Ok? then old(pages)[page].address else 0
    {
      if page in pages {
        ArenaPagePath(arenaBase, arenaLength, page);
      }
      hide Sound, PathOf;
      if !Canonical48(page) {
        return NonCanonical, 0;
      }
      if page % 0x1000 != 0 {
        return Alignment, 0;
      }
      if !ArenaContainsPage(arenaBase, arenaLength, page) {
        return OutsideArena, 0;
      }
      var path := PathOf(page);
      ArenaPagePath(arenaBase, arenaLength, page);
      var pt;
      status, pt := FindPageTable(path);
      if !status.Ok? {
        NoLeafNoPage(space, pages, page);
        return status, 0;
      }
      LeafIsPage(space, pages, page, pt);
      var entry := space.mem[pt][path.pt];
      if !entry.present {
        return NotPresent, 0;
      }
      StoreEntry(page, pt, ABSENT);
      return Ok, entry.address;
    }

    /** The table walk of gxos_vm_paging_unmap_page, down to the page table. */
    method FindPageTable(path: Path) returns (status: PagingStatus, pt: u64)
      requires Valid()
      ensures status.Ok? ==> space.Reaches(path, pt)
      ensures !status.Ok? ==> space.Walk(path).Fault? || space.Walk(path).level != 1
    {
      var entry := space.mem[space.root][path.pml4];
      if !entry.present {
        return NotPresent, 0;
      }
      var pdpt := entry.address;
      if pdpt !in space.mem {
        return InvalidTable, 0;
      }
      entry := space.mem[pdpt][path.pdpt];
      if !entry.present {
        return NotPresent, 0;
      }
      if entry.large {
        return LargePage, 0;
      }
      var pd := entry.address;
      if pd !in space.mem {
        return InvalidTable, 0;
      }
      entry := space.mem[pd][path.pd];
      if !entry.present {
        return NotPresent, 0;
      }
      if entry.large {
        return LargePage, 0;
      }
      pt := entry.address;
      if pt !in space.mem {
        return InvalidTable, 0;
      }
      return Ok, pt;
    }

    /**
     * gxos_vm_paging_map_range: all pages, or none. A run of new arena pages fails only if the table
     * allocator refused or the limit of owned tables was met.
     */
    method MapRange(page: u64, physical: u64, count: u64, writable: bool, executable: bool)
      returns (status: PagingStatus)
      requires Valid()
      modifies this`space, this`pool, this`refused, this`answers, this`owned, this`pages
      ensures Valid() && SameGround(old(space), space)
      ensures pool + space.tags.Keys == old(pool + space.tags.Keys)
      ensures status.Ok? ==>
                var run := Run(page, physical, writable, !executable && nxEnabled);
                && RunAllowed(page, physical, count) && run.Fits(count) && run.Fresh(old(pages), count)
                && Inside(run, count) && pages == run.Apply(old(pages), count)
      ensures !status.Ok? ==> pages == old(pages)
      ensures !status.Ok? && RunAllowed(page, physical, count) ==>
                var run := Run(page, physical, writable, !executable && nxEnabled);
                run.Fits(count) && (!run.Fresh(old(pages), count) || !Inside(run, count) || Shortage(old(refused)))
    {
      if count == 0 || count > MAX_COMMITMENTS || page % 0x1000 != 0 || physical % 0x1000 != 0
         || count > (MAX_U64 - page) / 0x1000 || count > (MAX_U64 - physical) / 0x1000 {
        return InvalidArgument;
      }
      status := MapRun(Run(page, physical, writable, !executable && nxEnabled), count, executable);
    }

    /** Every page of the run lies in the arena and gets a frame. */
    ghost predicate Inside(run: Run, count: nat)
      requires run.Fits(count)
      reads this
    {
      forall k | 0 <= k < count ::
        ArenaContainsPage(arenaBase, arenaLength, run.PageAt(k)) && run.physical + 0x1000 * k != 0
    }

    /** The table allocator has refused since, or no more tables may be owned. */
    ghost predicate Shortage(before: nat)
      reads this
    {
      refused > before || |owned| >= MAX_OWNED_TABLE_PAGES
    }

    /** The loop of gxos_vm_paging_map_range. */
    method MapRun(run: Run, count: nat, executable: bool) returns (status: PagingStatus)
      requires Valid() && run.Fits(count) && run.noExecute == (!executable && nxEnabled)
      modifies this`space, this`pool, this`refused, this`answers, this`owned, this`pages
      ensures Valid() && SameGround(old(space), space)
      ensures pool + space.tags.Keys == old(pool + space.tags.Keys)
      ensures status.Ok? ==> run.Fresh(old(pages), count) && Inside(run, count) && pages == run.Apply(old(pages), count)
      ensures !status.Ok? ==> pages == old(pages)
      ensures !status.Ok? ==> !run.Fresh(old(pages), count) || !Inside(run, count) || Shortage(old(refused))
    {
      hide Valid, MakeEntry, Run.Apply, Run.Fresh, ArenaContainsPage, Reached, PathOf;
      var index: nat := 0;
      RunStart(run, pages);
      while index != count
        invariant index <= count
        invariant Valid() && SameGround(old(space), space)
        invariant pool + space.tags.Keys == old(pool + space.tags.Keys)
        invariant run.Fresh(old(pages), index) && Inside(run, index) && pages == run.Apply(old(pages), index)
        invariant refused >= old(refused)
      {
        status := MapPage(run.PageAt(index), run.physical + 0x1000 * index, run.writable, executable);
        RunStep(run, old(pages), index);
        if !status.Ok? {
          FreshSoFar(run, old(pages), index + 1, count);
          UnmapRun(run, index, old(pages));
          return;
        }
        index := index + 1;
      }
      return Ok;
    }

    /** The undo loop of gxos_vm_paging_map_range. */
    method UnmapRun(run: Run, count: nat, ghost before: map<u64, Entry>)
      requires Valid() && run.Fits(count)
      requires run.Fresh(before, count) && pages == run.Apply(before, count)
      modifies this`space, this`pages
      ensures Valid() && space.tags == old(space.tags) && SameGround(old(space), space)
      ensures pages == before
    {
      hide Valid, MakeEntry;
      var index: nat := count;
      while index != 0
        invariant index <= count
        invariant Valid() && space.tags == old(space.tags) && SameGround(old(space), space)
        invariant run.Fresh(before, index) && pages == run.Apply(before, index)
      {
        index := index - 1;
        var status, frame := UnmapPage(run.PageAt(index));
      }
    }

    /** gxos_vm_paging_create: `space.mem` is the firmware's table memory. */
    method Create(currentCr3: u64, base: u64, length: u64, noExecute: bool) returns (status: PagingStatus)
      requires Aligned(pool) && Separated(space.mem, currentCr3, pool)
      modifies this
      ensures status.Ok? ==>
                && space.firmware == old(space.mem) && space.cr3 == currentCr3
                && arenaBase == base && arenaLength == length && nxEnabled == noExecute
                && pages == map[] && pool + space.tags.Keys == old(pool)
      ensures status.Ok? && length <= 0x80_0000_0000 && 0x1000 <= base + length ==> Valid()
      ensures !status.Ok? ==> pool == old(pool) && space.mem == old(space.mem)
      ensures status.InvalidArgument? <==>
                || currentCr3 == 0 || length == 0 || !Canonical48(base) || base + length > MAX_U64
                || Pml4Index(base) != Pml4Index(base + length - 1)
      ensures status.InvalidArgument? || (status.InvalidTable? <==> DecodeEntry(currentCr3).address !in old(space.mem))
      ensures status.Ok? ==> !old(space.mem)[DecodeEntry(currentCr3).address][Pml4Index(base)].present
      ensures status.ArenaConflict? ==> old(space.mem)[DecodeEntry(currentCr3).address][Pml4Index(base)].present
      ensures status.Ok? || status.Allocation? || status.ArenaConflict? || status.InvalidTable?
          || status.InvalidArgument?
      ensures status.Allocation? <==> refused > old(refused)
      ensures status.InvalidArgument? || status.InvalidTable? <==> answers == old(answers)
      ensures !status.InvalidArgument? && !status.InvalidTable? ==>
                && |answers| == |old(answers)| + 1
                && var root := answers[|old(answers)|].Usable();
                   var present := old(space.mem)[DecodeEntry(currentCr3).address][Pml4Index(base)].present;
                   && (status.Allocation? <==> root == 0)
                   && (status.ArenaConflict? <==> root != 0 && present)
                   && (status.Ok? <==> root != 0 && !present)
                   && (status.Ok? ==> space.root == root)
    {
      hide Sound, DecodeEntry, Pml4Index, QueryRoot;
      if currentCr3 == 0 || length == 0 || !Canonical48(base) || base > MAX_U64 - length
         || Pml4Index(base) != Pml4Index(base + length - 1) {
        return InvalidArgument;
      }
      var firmware := space.mem;
      var currentRoot := DecodeEntry(currentCr3).address;
      if currentRoot !in firmware {
        return InvalidTable;
      }
      var root := TakePage();
      if root == 0 {
        return Allocation;
      }
      var copy := CopyTable(firmware[currentRoot]);
      var slot := Pml4Index(base);
      if copy[slot].present {
        FreePage(root);
        return ArenaConflict;
      }
      assert root in old(pool);
      Install(root, copy, currentCr3, base, length, noExecute);
      return Ok;
    }

    /** The last part of gxos_vm_paging_create: `root` is the private copy of the firmware root. */
    method Install(root: u64, copy: Table, currentCr3: u64, base: u64, length: u64, noExecute: bool)
      requires currentCr3 != 0 && DecodeEntry(currentCr3).address in space.mem
      requires copy == space.mem[DecodeEntry(currentCr3).address] && !copy[Pml4Index(base)].present
      requires Aligned(pool + {root}) && root !in pool && Separated(space.mem, currentCr3, pool + {root})
      requires 0 < length && base + length <= MAX_U64 && Canonical48(base)
      requires Pml4Index(base) == Pml4Index(base + length - 1)
      modifies this`space, this`arenaBase, this`arenaLength, this`nxEnabled, this`owned, this`pages
      ensures space.firmware == old(space.mem) && space.cr3 == currentCr3
      ensures space.root == root && space.tags.Keys == {root}
      ensures arenaBase == base && arenaLength == length && nxEnabled == noExecute && pages == map[]
      ensures length <= 0x80_0000_0000 && 0x1000 <= base + length ==> Valid()
    {
      hide Sound, DecodeEntry, Pml4Index;
      var firmware, slot := space.mem, Pml4Index(base);
      SlotCheckIsExact(base, length);
      FreshRoot(firmware, currentCr3, root, slot);
      space := Hierarchy(firmware[root := copy], map[root := Root], root, slot, firmware, currentCr3);
      arenaBase, arenaLength, nxEnabled := base, length, noExecute;
      owned := [root];
      pages := map[];
    }

    /** The loop of gxos_vm_paging_destroy: each owned page is outstanding when it is returned. */
    method FreeTables()
      requires Valid()
      modifies this`pool
      ensures pool == old(pool) + space.tags.Keys
    {
      hide Valid;
      var index := |owned|;
      OwnedFacts(this);
      while index != 0
        invariant 0 <= index <= |owned|
        invariant pool == old(pool) + (set t | t in owned[index..])
      {
        index := index - 1;
        assert owned[index..] == [owned[index]] + owned[index + 1..];
        FreePage(owned[index]);
      }
      assert owned[0..] == owned;
    }

    /** gxos_vm_paging_destroy on an inactive root; freed pages leave the table memory. */
    method Destroy() returns (status: PagingStatus)
      requires Valid()
      modifies this
      ensures status.Ok?
      ensures pool == old(pool + space.tags.Keys)
      ensures space.mem == old(space.firmware) && space.root == 0 && owned == [] && pages == map[]
    {
      hide Valid;
      StripTables(this);
      FreeTables();
      space := Hierarchy(space.mem - (set t | t in owned), map[], 0, 0, map[], 0);
      arenaBase, arenaLength, nxEnabled := 0, 0, false;
      owned, pages := [], map[];
      return Ok;
    }

    /** Any run of maps and unmaps. */
    method Perform(commands: seq<Command>)
      requires Valid()
      modifies this`space, this`pool, this`refused, this`answers, this`owned, this`pages
      ensures Valid() && SameGround(old(space), space)
      ensures pool + space.tags.Keys == old(pool + space.tags.Keys)
    {
      hide Sound;
      for i := 0 to |commands|
        invariant Valid() && SameGround(old(space), space)
        invariant pool + space.tags.Keys == old(pool + space.tags.Keys)
      {
        var status;
        match commands[i] {
          case Map(page, physical, writable, executable) =>
            status := MapPage(page, physical, writable, executable);
          case MapMany(page, physical, count, writable, executable) =>
            status := MapRange(page, physical, count, writable, executable);
          case Unmap(page) =>
            var frame;
            status, frame := UnmapPage(page);
        }
      }
    }

    /**
     * Create, any run of maps and unmaps, destroy: while the tables live, an address outside the
     * arena translates as under the firmware root, and afterwards every page is back in the pool.
     */
    method LifeCycle(currentCr3: u64, base: u64, length: u64, noExecute: bool, commands: seq<Command>, probe: u64)
      returns (status: PagingStatus, seen: QueryResult)
      requires Aligned(pool) && Separated(space.mem, currentCr3, pool)
      requires length <= 0x80_0000_0000 && 0x1000 <= base + length
      modifies this
      ensures status.Ok? && !(base <= probe < base + length) ==> seen == QueryRoot(old(space.mem), currentCr3, probe)
      ensures pool == old(pool) && space.mem == old(space.mem)
    {
      seen := Unmapped(NotPresent);
      status := Create(currentCr3, base, length, noExecute);
      if !status.Ok? {
        return;
      }
      Perform(commands);
      FirmwareOutsideArena(this, probe);
      hide Sound;
      seen := Query(probe);
      status := Destroy();
    }
  }
}
