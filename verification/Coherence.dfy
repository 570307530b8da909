/**
 * Three views of committed memory that must agree: the commitment table, the page tables and the
 * data pages taken from the allocator.
 */
module Coherence {
  import opened Words
  import opened PageFormat
  import opened Packing
  import opened ArenaBooks
  import opened Arena

  datatype View = View(books: Books, pages: map<u64, Entry>, outstanding: set<u64>) {

    /** Commit `c` in slot `i`, mapped by `entry`. */
    function Commit(i: nat, c: Commitment, entry: Entry): View
      requires i < |books.commitments| && c.slot < |books.reservations|
    {
      View(books.AddCommitment(i, c), pages[c.base := entry], outstanding + {c.physical})
    }

    /** Decommit slot `i`, unmap its page and return its frame. */
    function Drop(i: nat): View
      requires i < |books.commitments| && books.commitments[i].slot < |books.reservations|
    {
      View(books.DropCommitment(i), pages - {books.commitments[i].base},
           outstanding - {books.commitments[i].physical})
    }

    ghost predicate Backed(i: nat)
      requires i < |books.commitments|
    {
      var c := books.commitments[i];
      c.live ==> c.base in pages && pages[c.base].address == c.physical && c.physical in outstanding
    }

    /** A page is mapped iff it has a live commitment, to that frame, and the frames are the outstanding pages. */
    ghost predicate Coherent()
    {
      && books.Sound()
      && (forall i | 0 <= i < |books.commitments| :: Backed(i))
      && (forall p | p in pages :: HasPage(books, p))
      && (forall f | f in outstanding :: HasFrame(books, f))
      && (forall i, j | 0 <= i < j < |books.commitments| && books.commitments[i].live && books.commitments[j].live ::
            books.commitments[i].physical != books.commitments[j].physical)
    }
  }

  ghost predicate HasFrame(b: Books, frame: u64) {
    exists i | 0 <= i < |b.commitments| :: b.commitments[i].live && b.commitments[i].physical == frame
  }

  /**
   * In a coherent view a page is mapped exactly when it is committed, to the committed frame, and a
   * frame is outstanding exactly when a live commitment holds it.
   */
  lemma MappedIffCommitted(v: View, page: u64, frame: u64)
    requires v.Coherent()
    ensures page in v.pages <==> HasPage(v.books, page)
    ensures forall i | 0 <= i < |v.books.commitments| && IsPage(v.books.commitments[i], page) ::
              page in v.pages && v.pages[page].address == v.books.commitments[i].physical
    ensures frame in v.outstanding <==> HasFrame(v.books, frame)
  {
    if HasPage(v.books, page) {
      var i :| 0 <= i < |v.books.commitments| && IsPage(v.books.commitments[i], page);
      assert v.Backed(i);
    }
    if HasFrame(v.books, frame) {
      var i :| 0 <= i < |v.books.commitments| && v.books.commitments[i].live
          && v.books.commitments[i].physical == frame;
      assert v.Backed(i);
    }
    forall i | 0 <= i < |v.books.commitments| && IsPage(v.books.commitments[i], page)
      ensures page in v.pages && v.pages[page].address == v.books.commitments[i].physical
    {
      assert v.Backed(i);
    }
  }

  lemma CoherentSound(v: View)
    requires v.Coherent()
    ensures v.books.Sound() && |v.books.commitments| == MAX_COMMITMENTS && |v.books.reservations| == MAX_RESERVATIONS
  {
  }

  /** A new commitment leaves the others backed, by other frames. */
  lemma CommitBacked(v: View, i: nat, c: Commitment, entry: Entry, j: nat)
    requires v.Coherent() && CanCommit(v.books, i, c) && entry.address == c.physical && c.physical !in v.outstanding
    requires j < |v.books.commitments|
    ensures v.Commit(i, c, entry).Backed(j)
    ensures j != i && v.books.commitments[j].live ==> v.books.commitments[j].physical != c.physical
  {
    hide Books.Sound;
    assert v.Backed(j);
    if j != i && v.books.commitments[j].live {
      assert Apart(CommitmentSpan(c), CommitmentSpan(v.books.commitments[j]));
      LiveHasBytes(v.books, j);
    }
  }

  lemma LiveHasBytes(b: Books, j: nat)
    requires b.Sound() && j < |b.commitments| && b.commitments[j].live
    ensures b.commitments[j].bytes == 0x1000
  {
  }

  lemma CommitCoherent(v: View, i: nat, c: Commitment, entry: Entry)
    requires v.Coherent() && CanCommit(v.books, i, c) && entry.address == c.physical && c.physical !in v.outstanding
    ensures v.Commit(i, c, entry).Coherent()
  {
    hide Books.Sound;
    var v' := v.Commit(i, c, entry);
    AddCommitmentSound(v.books, i, c);
    assert IsPage(v'.books.commitments[i], c.base);
    forall j | 0 <= j < |v.books.commitments|
      ensures v'.Backed(j) && (j != i && v.books.commitments[j].live ==> v.books.commitments[j].physical != c.physical)
    {
      CommitBacked(v, i, c, entry, j);
    }
    forall p | p in v'.pages
      ensures HasPage(v'.books, p)
    {
      if p != c.base {
        var j :| 0 <= j < |v.books.commitments| && IsPage(v.books.commitments[j], p);
        assert IsPage(v'.books.commitments[j], p);
      }
    }
    forall f | f in v'.outstanding
      ensures HasFrame(v'.books, f)
    {
      if f != c.physical {
        var j :| 0 <= j < |v.books.commitments| && v.books.commitments[j].live && v.books.commitments[j].physical == f;
        assert v'.books.commitments[j] == v.books.commitments[j];
      } else {
        assert v'.books.commitments[i].physical == f;
      }
    }
  }

  lemma DropCoherent(v: View, i: nat)
    requires v.Coherent() && i < |v.books.commitments| && v.books.commitments[i].live
    requires v.books.commitments[i].slot < |v.books.reservations|
    ensures v.Drop(i).Coherent()
  {
    var v' := v.Drop(i);
    var c := v.books.commitments[i];
    DropCommitmentSound(v.books, i);
    forall j | 0 <= j < |v.books.commitments|
      ensures v'.Backed(j)
    {
      assert v.Backed(j);
      if j != i && v.books.commitments[j].live && v.books.commitments[j].base == c.base {
        SamePageSameSlot(v.books, i, j);
      }
    }
    forall p | p in v'.pages
      ensures HasPage(v'.books, p)
    {
      var j :| 0 <= j < |v.books.commitments| && IsPage(v.books.commitments[j], p);
      assert IsPage(v'.books.commitments[j], p);
    }
    forall f | f in v'.outstanding
      ensures HasFrame(v'.books, f)
    {
      var j :| 0 <= j < |v.books.commitments| && v.books.commitments[j].live && v.books.commitments[j].physical == f;
      assert v'.books.commitments[j] == v.books.commitments[j];
    }
  }

  /** Undoing a commitment restores all three views exactly. */
  lemma DropUndoesCommit(v: View, i: nat, c: Commitment, entry: Entry)
    requires v.Coherent() && CanCommit(v.books, i, c) && c.physical !in v.outstanding && !HasPage(v.books, c.base)
    ensures v.Commit(i, c, entry).Drop(i) == v
  {
    DropUndoesAdd(v.books, i, c);
    MappedIffCommitted(v, c.base, 0);
    assert v.pages[c.base := entry] - {c.base} == v.pages;
    assert v.outstanding + {c.physical} - {c.physical} == v.outstanding;
  }

  /** Reserving and releasing do not touch committed pages. */
  lemma SameCommitmentsCoherent(v: View, b: Books)
    requires v.Coherent() && b.Sound() && b.commitments == v.books.commitments
    ensures View(b, v.pages, v.outstanding).Coherent()
  {
    var v' := View(b, v.pages, v.outstanding);
    forall i | 0 <= i < |b.commitments|
      ensures v'.Backed(i)
    {
      assert v.Backed(i);
    }
    forall p | p in v.pages
      ensures HasPage(b, p)
    {
      assert HasPage(v.books, p);
    }
    forall f | f in v.outstanding
      ensures HasFrame(b, f)
    {
      assert HasFrame(v.books, f);
    }
  }

  // ---- A run of commitments, and how to take it back ----

  datatype Step = Step(before: View, index: nat, c: Commitment, entry: Entry)

  ghost predicate Undoable(s: Step) {
    && s.before.Coherent() && CanCommit(s.before.books, s.index, s.c)
    && s.c.physical !in s.before.outstanding && !HasPage(s.before.books, s.c.base)
  }

  /** `now` is `first` after the commitments `steps`. */
  ghost predicate Chain(first: View, steps: seq<Step>, now: View) {
    if steps == [] then now == first else
    var s := steps[|steps| - 1];
    && Undoable(s) && now == s.before.Commit(s.index, s.c, s.entry)
    && Chain(first, steps[..|steps| - 1], s.before)
  }

  lemma ChainExtend(first: View, steps: seq<Step>, s: Step)
    requires Chain(first, steps, s.before) && Undoable(s)
    ensures Chain(first, steps + [s], s.before.Commit(s.index, s.c, s.entry))
  {
    assert (steps + [s])[..|steps|] == steps;
  }

  // ---- Taking down one reservation ----

  lemma LiveDrop(v: View, i: nat)
    requires v.Coherent() && i < |v.books.commitments| && v.books.commitments[i].live
    ensures v.books.commitments[i].slot < |v.books.reservations| && v.Drop(i).Coherent()
  {
    assert v.books.CommitmentOk(i);
    DropCoherent(v, i);
  }

  /** Drop every commitment of reservation `slot` among the first `n` table entries. */
  ghost function DropSlot(v: View, slot: nat, n: nat): (r: View)
    requires v.Coherent() && n <= |v.books.commitments|
    ensures r.Coherent()
    ensures |r.books.commitments| == |v.books.commitments| && |r.books.reservations| == |v.books.reservations|
  {
    if n == 0 then v else
    var w := DropSlot(v, slot, n - 1);
    var c := w.books.commitments[n - 1];
    if c.live && c.slot == slot then LiveDrop(w, n - 1); w.Drop(n - 1) else w
  }

  /** Exactly the commitments of the slot go; reservations keep their place and extent. */
  lemma {:induction false} DropSlotCommitments(v: View, slot: nat, n: nat, i: nat)
    requires v.Coherent() && n <= |v.books.commitments| && i < |v.books.commitments|
    ensures DropSlot(v, slot, n).books.commitments[i]
         == if i < n && v.books.commitments[i].live && v.books.commitments[i].slot == slot
            then NO_COMMITMENT else v.books.commitments[i]
  {
    hide View.Coherent;
    if n > 0 {
      DropSlotCommitments(v, slot, n - 1, i);
    }
  }

  lemma {:induction false} DropSlotReservations(v: View, slot: nat, n: nat, k: nat)
    requires v.Coherent() && n <= |v.books.commitments| && k < |v.books.reservations|
    ensures k != slot ==> DropSlot(v, slot, n).books.reservations[k] == v.books.reservations[k]
    ensures DropSlot(v, slot, n).books.reservations[k].live == v.books.reservations[k].live
    ensures DropSlot(v, slot, n).books.reservations[k].bytes == v.books.reservations[k].bytes
  {
    hide View.Coherent;
    if n > 0 {
      DropSlotReservations(v, slot, n - 1, k);
    }
  }

  /** Dropping maps no page and changes no entry, and the arena stays where it is. */
  lemma {:induction false} DropSlotKeeps(v: View, slot: nat, n: nat)
    requires v.Coherent() && n <= |v.books.commitments|
    ensures var w := DropSlot(v, slot, n);
            && w.books.valid == v.books.valid && w.books.base == v.books.base && w.books.length == v.books.length
            && w.books.generation == v.books.generation
            && forall p | p in w.pages :: p in v.pages && w.pages[p] == v.pages[p]
  {
    hide View.Coherent;
    if n > 0 {
      DropSlotKeeps(v, slot, n - 1);
    }
  }

  /** Coherent views over the same tables are the same, if their entries agree. */
  lemma SameTablesSameView(a: View, b: View)
    requires a.Coherent() && b.Coherent()
    requires a.books.commitments == b.books.commitments && a.books.reservations == b.books.reservations
    requires a.books.valid == b.books.valid && a.books.base == b.books.base && a.books.length == b.books.length
    requires a.books.generation == b.books.generation
    requires forall p | p in a.pages && p in b.pages :: a.pages[p] == b.pages[p]
    ensures a == b
  {
    assert a.books == b.books;
    forall p: u64
      ensures p in a.pages <==> p in b.pages
    {
      MappedIffCommitted(a, p, 0);
      MappedIffCommitted(b, p, 0);
    }
    forall f: u64
      ensures f in a.outstanding <==> f in b.outstanding
    {
      MappedIffCommitted(a, 0, f);
      MappedIffCommitted(b, 0, f);
    }
    assert a.pages == b.pages && a.outstanding == b.outstanding;
  }

  /** A slot without commitments has nothing to drop. */
  lemma {:induction false} DropSlotNothing(v: View, slot: nat, n: nat)
    requires v.Coherent() && n <= |v.books.commitments|
    requires forall i | 0 <= i < |v.books.commitments| :: v.books.commitments[i].live ==>
        v.books.commitments[i].slot != slot
    ensures DropSlot(v, slot, n) == v
  {
    hide View.Coherent;
    if n > 0 {
      DropSlotNothing(v, slot, n - 1);
    }
  }

  // ---- Counting mapped pages of a range ----

  ghost function CountMapped(pages: map<u64, Entry>, start: u64, n: nat): (count: nat)
    requires start + 0x1000 * n <= MAX_U64
    ensures count <= n
  {
    if n == 0 then 0
    else CountMapped(pages, start, n - 1) + (if start + 0x1000 * (n - 1) in pages then 1 else 0)
  }
}
