/**
 * The shape of the owned part of a page-table hierarchy, and what one store into it does to
 * every translation.
 *
 * `tags` names the owned tables. Every owned table below the root records the one entry that
 * points to it, so no table is reachable along two paths.
 */
module PageTree {
  import opened Words
  import opened PageFormat

  datatype Tag = Root | Node(level: nat, parent: u64, index: nat)

  function Level(tag: Tag): nat {
    if tag.Root? then 4 else tag.level
  }

  /**
   * Table memory seen from a root of our own: `root` is a private copy of the firmware root at
   * `cr3`, and `slot` is the one top-level entry it may change. The code uses `mem` and `root`;
   * `tags`, `slot`, `firmware` and `cr3` record how the memory came about.
   */
  datatype Hierarchy = Hierarchy(mem: Memory, tags: map<u64, Tag>, root: u64, slot: nat,
                                 firmware: Memory, cr3: u64)
  {
    ghost predicate UpLink(c: u64)
      requires c in tags
    {
      tags[c].Node? ==>
        var Node(level, p, i) := tags[c];
        && i < 512 && p in tags && p in mem && Level(tags[p]) == level + 1 && level >= 1
        && mem[p][i].present && mem[p][i].address == c
        && (p == root ==> i == slot)
    }

    ghost predicate DownLink(t: u64, i: nat)
      requires t in tags && t in mem && i < 512
    {
      Level(tags[t]) > 1 && mem[t][i].present ==>
        && !mem[t][i].large
        && mem[t][i].address in tags
        && tags[mem[t][i].address] == Node(Level(tags[t]) - 1, t, i)
    }

    /** Table memory is the untouched firmware tables plus the owned ones. */
    ghost predicate Grounded()
    {
      && slot < 512
      && root in tags && cr3 != 0 && DecodeEntry(cr3).address in firmware
      && (forall t | t in tags :: tags[t].Root? <==> t == root)
      && mem.Keys == firmware.Keys + tags.Keys
      && Aligned(tags.Keys)
      && Separated(firmware, cr3, tags.Keys)
      && (forall t | t in firmware :: mem[t] == firmware[t])
      && (forall i | 0 <= i < 512 && i != slot :: mem[root][i] == firmware[DecodeEntry(cr3).address][i])
    }

    ghost predicate Linked()
      requires tags.Keys <= mem.Keys
    {
      && (forall c | c in tags :: UpLink(c))
      && (forall t, i | t in tags && 0 <= i < 512 && (t == root ==> i == slot) :: DownLink(t, i))
    }

    /** Everything below entry `slot` of the root is a tree of owned tables. */
    ghost predicate Tree()
    {
      Grounded() && Linked()
    }

    function Query(va: u64): QueryResult {
      QueryRoot(mem, root, va)
    }

    function Walk(path: Path): Walk {
      WalkPml4(mem, root, path)
    }

    /** `pt` is the page table at the end of `path`: the three upper levels are present. */
    ghost predicate Reaches(path: Path, pt: u64) {
      && root in mem && mem[root][path.pml4].present
      && var pdpt := mem[root][path.pml4].address;
      && pdpt in mem && mem[pdpt][path.pdpt].present
      && var pd := mem[pdpt][path.pdpt].address;
      && pd in mem && mem[pd][path.pd].present
      && pt == mem[pd][path.pd].address
      && pt in mem
    }

    ghost predicate PageTable(t: u64) {
      t in tags && t in mem && Level(tags[t]) == 1
    }

    function Store(table: u64, index: nat, entry: Entry): Hierarchy
      requires table in mem && index < 512
    {
      this.(mem := mem[table := mem[table][index := entry]])
    }

    /** A fresh empty table `child` may be hung below the absent entry `index` of `parent`. */
    predicate CanLink(parent: u64, index: nat, child: u64, entry: Entry) {
      && parent in tags && parent in mem && index < 512 && Level(tags[parent]) > 1
      && (parent == root ==> index == slot)
      && !mem[parent][index].present
      && child !in mem && child % 0x1000 == 0 && 0 < child < 0x10_0000_0000_0000
      && entry.present && !entry.large && entry.address == child
    }

    function Link(parent: u64, index: nat, child: u64, entry: Entry): Hierarchy
      requires CanLink(parent, index, child, entry)
    {
      this.(mem := mem[child := EmptyTable()][parent := mem[parent][index := entry]],
            tags := tags[child := Node(Level(tags[parent]) - 1, parent, index)])
    }
  }

  function EmptyTable(): Table {
    seq(512, _ => ABSENT)
  }

  /** The walk from `root` along `path` reads page `p` as a table below the root. */
  predicate Enters(mem: Memory, root: u64, path: Path, p: u64) {
    && root in mem && mem[root][path.pml4].present
    && var pdpt := mem[root][path.pml4].address;
       || p == pdpt
       || (pdpt in mem && mem[pdpt][path.pdpt].present && !mem[pdpt][path.pdpt].large
           && var pd := mem[pdpt][path.pdpt].address;
              || p == pd
              || (pd in mem && mem[pd][path.pd].present && !mem[pd][path.pd].large && p == mem[pd][path.pd].address))
  }

  /**
   * No page of `pages` is a firmware table, and no walk from the firmware root goes on to one as a
   * table. Firmware entries that end a walk may well map them.
   */
  ghost predicate Separated(firmware: Memory, cr3: u64, pages: set<u64>) {
    && firmware.Keys !! pages
    && forall path: Path, p | p in pages :: !Enters(firmware, DecodeEntry(cr3).address, path, p)
  }

  ghost predicate Aligned(pages: set<u64>) {
    forall p | p in pages :: p % 0x1000 == 0 && 0 < p < 0x10_0000_0000_0000
  }

  function LeafOf(entry: Entry): Walk {
    if entry.present then Leaf(entry, 1) else Fault(NotPresent)
  }

  /** Outside the arena slot the walk never leaves the firmware tables. */
  lemma OutsideSlot(h: Hierarchy, path: Path)
    requires h.Tree() && path.pml4 != h.slot
    ensures h.Walk(path) == WalkPml4(h.firmware, DecodeEntry(h.cr3).address, path)
  {
    var root := DecodeEntry(h.cr3).address;
    assert h.mem[h.root][path.pml4] == h.firmware[root][path.pml4];
    assert forall p | p in h.tags :: !Enters(h.firmware, root, path, p);
  }

  /** Inside the slot a walk faults as absent, or reads the page table it reaches. */
  lemma InsideSlot(h: Hierarchy, path: Path)
    requires h.Tree() && path.pml4 == h.slot
    ensures (forall pt :: !h.Reaches(path, pt)) ==> h.Walk(path) == Fault(NotPresent)
    ensures forall pt | h.Reaches(path, pt) :: h.PageTable(pt) && h.Walk(path) == LeafOf(h.mem[pt][path.pt])
  {
    assert h.DownLink(h.root, h.slot);
    if h.mem[h.root][h.slot].present {
      var pdpt := h.mem[h.root][h.slot].address;
      assert h.DownLink(pdpt, path.pdpt);
      if h.mem[pdpt][path.pdpt].present {
        var pd := h.mem[pdpt][path.pdpt].address;
        assert h.DownLink(pd, path.pd);
        if h.mem[pd][path.pd].present {
          assert h.Reaches(path, h.mem[pd][path.pd].address);
        }
      }
    }
  }

  /** The tags above a reached page table spell out the path, so no table has two paths. */
  lemma ReachedOnce(h: Hierarchy, path: Path, other: Path, pt: u64)
    requires h.Tree() && path.pml4 == h.slot && other.pml4 == h.slot
    requires h.Reaches(path, pt) && h.Reaches(other, pt)
    ensures path.pdpt == other.pdpt && path.pd == other.pd
  {
    ReachedTags(h, path, pt);
    ReachedTags(h, other, pt);
  }

  lemma ReachedTags(h: Hierarchy, path: Path, pt: u64)
    requires h.Tree() && path.pml4 == h.slot && h.Reaches(path, pt)
    ensures h.PageTable(pt) && h.tags[pt].Node? && h.tags[pt].index == path.pd
    ensures h.tags[pt].parent in h.tags && h.tags[h.tags[pt].parent].Node?
    ensures h.tags[h.tags[pt].parent].index == path.pdpt
  {
    assert h.DownLink(h.root, h.slot);
    var pdpt := h.mem[h.root][h.slot].address;
    assert h.DownLink(pdpt, path.pdpt);
    var pd := h.mem[pdpt][path.pdpt].address;
    assert h.DownLink(pd, path.pd);
  }

  // ---- Writing a leaf ----

  lemma StoreLeafKeepsTree(h: Hierarchy, pt: u64, index: nat, entry: Entry)
    requires h.Tree() && h.PageTable(pt) && index < 512
    ensures h.Store(pt, index, entry).Tree()
  {
    var h' := h.Store(pt, index, entry);
    forall c | c in h.tags
      ensures h'.UpLink(c)
    {
      assert h.UpLink(c);
    }
    forall t, i | t in h.tags && 0 <= i < 512 && (t == h.root ==> i == h.slot)
      ensures h'.DownLink(t, i)
    {
      assert h.DownLink(t, i);
    }
  }

  /** The upper three levels of a walk do not read page tables. */
  lemma StoreLeafKeepsReach(h: Hierarchy, leaf: u64, index: nat, entry: Entry, path: Path, pt: u64)
    requires h.Tree() && h.PageTable(leaf) && index < 512 && path.pml4 == h.slot
    ensures h.Store(leaf, index, entry).Reaches(path, pt) <==> h.Reaches(path, pt)
  {
    var h' := h.Store(leaf, index, entry);
    assert h.DownLink(h.root, h.slot);
    assert h'.mem[h.root] == h.mem[h.root];
    if h.mem[h.root][h.slot].present {
      var pdpt := h.mem[h.root][h.slot].address;
      assert h'.mem[pdpt] == h.mem[pdpt];
      assert h.DownLink(pdpt, path.pdpt);
      if h.mem[pdpt][path.pdpt].present {
        var pd := h.mem[pdpt][path.pdpt].address;
        assert h'.mem[pd] == h.mem[pd];
      }
    }
  }

  /** Writing one leaf entry changes the walk of that path and of no other. */
  lemma StoreLeaf(h: Hierarchy, path: Path, pt: u64, entry: Entry, other: Path)
    requires h.Tree() && h.PageTable(pt) && path.pml4 == h.slot && h.Reaches(path, pt)
    ensures h.Store(pt, path.pt, entry).Walk(other)
         == if other == path then LeafOf(entry) else h.Walk(other)
  {
    var h' := h.Store(pt, path.pt, entry);
    StoreLeafKeepsTree(h, pt, path.pt, entry);
    if other.pml4 != h.slot {
      OutsideSlot(h, other);
      OutsideSlot(h', other);
    } else {
      InsideSlot(h, other);
      InsideSlot(h', other);
      forall found ensures h'.Reaches(other, found) <==> h.Reaches(other, found) {
        StoreLeafKeepsReach(h, pt, path.pt, entry, other, found);
      }
      if h.Reaches(other, pt) {
        ReachedOnce(h, path, other, pt);
      }
    }
  }

  // ---- Linking a fresh, empty table ----

  lemma LinkKeepsGround(h: Hierarchy, parent: u64, index: nat, child: u64, entry: Entry)
    requires h.Grounded() && Separated(h.firmware, h.cr3, {child}) && h.CanLink(parent, index, child, entry)
    ensures h.Link(parent, index, child, entry).Grounded()
  {
    var h' := h.Link(parent, index, child, entry);
    assert h'.tags.Keys == h.tags.Keys + {child};
    assert h'.mem.Keys == h.mem.Keys + {child};
  }

  lemma LinkKeepsUpLink(h: Hierarchy, parent: u64, index: nat, child: u64, entry: Entry, c: u64)
    requires h.Tree() && Separated(h.firmware, h.cr3, {child}) && h.CanLink(parent, index, child, entry)
    requires c in h.Link(parent, index, child, entry).tags
    ensures h.Link(parent, index, child, entry).UpLink(c)
  {
    if c != child {
      assert h.UpLink(c);
    }
  }

  lemma LinkKeepsDownLink(h: Hierarchy, parent: u64, index: nat, child: u64, entry: Entry, t: u64, i: nat)
    requires h.Tree() && Separated(h.firmware, h.cr3, {child}) && h.CanLink(parent, index, child, entry)
    requires t in h.Link(parent, index, child, entry).tags && i < 512 && (t == h.root ==> i == h.slot)
    ensures h.Link(parent, index, child, entry).DownLink(t, i)
  {
    if t != child {
      assert h.DownLink(t, i);
    }
  }

  lemma LinkKeepsTree(h: Hierarchy, parent: u64, index: nat, child: u64, entry: Entry)
    requires h.Tree() && Separated(h.firmware, h.cr3, {child}) && h.CanLink(parent, index, child, entry)
    ensures h.Link(parent, index, child, entry).Tree()
  {
    var h' := h.Link(parent, index, child, entry);
    LinkKeepsGround(h, parent, index, child, entry);
    forall c | c in h'.tags
      ensures h'.UpLink(c)
    {
      LinkKeepsUpLink(h, parent, index, child, entry, c);
    }
    forall t, i | t in h'.tags && 0 <= i < 512 && (t == h'.root ==> i == h'.slot)
      ensures h'.DownLink(t, i)
    {
      LinkKeepsDownLink(h, parent, index, child, entry, t, i);
    }
  }

  /** An empty table below an absent entry leaves every walk as it was. */
  lemma LinkKeepsWalk(h: Hierarchy, parent: u64, index: nat, child: u64, entry: Entry, path: Path)
    requires h.Tree() && Separated(h.firmware, h.cr3, {child}) && h.CanLink(parent, index, child, entry)
    ensures h.Link(parent, index, child, entry).Walk(path) == h.Walk(path)
  {
    var h' := h.Link(parent, index, child, entry);
    LinkKeepsTree(h, parent, index, child, entry);
    if path.pml4 != h.slot {
      OutsideSlot(h, path);
      OutsideSlot(h', path);
    } else {
      InsideSlot(h, path);
      InsideSlot(h', path);
      if pt :| h.Reaches(path, pt) {
        LinkKeepsReach(h, parent, index, child, entry, path, pt);
      } else if pt :| h'.Reaches(path, pt) {
        LinkReachesEmpty(h, parent, index, child, entry, path, pt);
      }
    }
  }

  /** Linking only fills absent entries, so a reached page table stays reached and unchanged. */
  lemma LinkKeepsReach(h: Hierarchy, parent: u64, index: nat, child: u64, entry: Entry, path: Path, pt: u64)
    requires h.Tree() && Separated(h.firmware, h.cr3, {child}) && h.CanLink(parent, index, child, entry)
        && path.pml4 == h.slot && h.Reaches(path, pt)
    ensures h.Link(parent, index, child, entry).Reaches(path, pt)
    ensures h.Link(parent, index, child, entry).mem[pt] == h.mem[pt]
  {
    ReachedTags(h, path, pt);
  }

  /** A page table reached only after the link is the new empty one. */
  lemma LinkReachesEmpty(h: Hierarchy, parent: u64, index: nat, child: u64, entry: Entry, path: Path, pt: u64)
    requires h.Tree() && Separated(h.firmware, h.cr3, {child}) && h.CanLink(parent, index, child, entry)
        && path.pml4 == h.slot
    requires h.Link(parent, index, child, entry).Reaches(path, pt) && !h.Reaches(path, pt)
    ensures pt == child
  {
    var h' := h.Link(parent, index, child, entry);
    var pdpt := h'.mem[h.root][h.slot].address;
    if parent != h.root {
      assert h.DownLink(h.root, h.slot);
      assert pdpt != child;
      var pd := h'.mem[pdpt][path.pdpt].address;
      assert h.DownLink(pdpt, path.pdpt);
      if parent != pdpt {
        assert h.DownLink(pd, path.pd);
      }
    }
  }
}
