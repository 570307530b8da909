/**
 * The books of a GXOS_VM_ARENA: reservation table, commitment table and running totals, with the
 * four elementary updates and what each keeps.
 */
module ArenaBooks {
  import opened Words
  import opened Packing

  const MAX_RESERVATIONS: nat := 256

  datatype State = Free | Reserved | Committed

  datatype Reservation = Reservation(live: bool, base: u64, bytes: u64, requestedBytes: u64, kind: nat,
                                     owner: nat, state: State, generation: u64, committedBytes: int)

  datatype Commitment = Commitment(live: bool, slot: nat, base: u64, bytes: u64, physical: u64,
                                   pageCount: nat, state: State, generation: u64)

  const NO_RESERVATION: Reservation := Reservation(false, 0, 0, 0, 0, 0, Free, 0, 0)
  const NO_COMMITMENT: Commitment := Commitment(false, 0, 0, 0, 0, 0, Free, 0)

  function ReservationSpan(r: Reservation): Span {
    Span(r.live, r.base, r.bytes)
  }

  function CommitmentSpan(c: Commitment): Span {
    Span(c.live, c.base, c.bytes)
  }

  function SpanIn(c: Commitment, slot: nat): Span {
    Span(c.live && c.slot == slot, c.base, c.bytes)
  }

  function ReservationSpans(rs: seq<Reservation>): (spans: seq<Span>)
    ensures |spans| == |rs|
  {
    seq(|rs|, i requires 0 <= i < |rs| => ReservationSpan(rs[i]))
  }

  function CommitmentSpans(cs: seq<Commitment>): (spans: seq<Span>)
    ensures |spans| == |cs|
  {
    seq(|cs|, i requires 0 <= i < |cs| => CommitmentSpan(cs[i]))
  }

  function SpansIn(cs: seq<Commitment>, slot: nat): (spans: seq<Span>)
    ensures |spans| == |cs|
  {
    seq(|cs|, i requires 0 <= i < |cs| => SpanIn(cs[i], slot))
  }

  datatype Books = Books(
    valid: bool, base: u64, length: u64, generation: u64,
    reservations: seq<Reservation>, commitments: seq<Commitment>,
    reservationCount: int, commitmentCount: int, totalReserved: int, totalCommitted: int)
  {
    ghost predicate ReservationOk(k: nat)
      requires k < |reservations|
    {
      var r := reservations[k];
      r.live ==>
        && RangeContains(base, length, r.base, r.bytes) && r.bytes != 0 && r.generation != 0
        && 0 < r.requestedBytes <= r.bytes
        && 0 <= r.committedBytes <= r.bytes
        && r.state == (if r.committedBytes == 0 then Reserved else Committed)
    }

    ghost predicate CommitmentOk(i: nat)
      requires i < |commitments|
    {
      var c := commitments[i];
      c.live ==>
        && c.slot < |reservations| && reservations[c.slot].live
        && c.generation != 0 && c.state == Committed && c.bytes != 0
        && (c.physical != 0 ==> c.pageCount != 0)
        && RangeContains(reservations[c.slot].base, reservations[c.slot].bytes, c.base, c.bytes)
    }

    ghost predicate Tables()
    {
      && |reservations| == MAX_RESERVATIONS && |commitments| == MAX_COMMITMENTS
      && (forall k | 0 <= k < |reservations| :: ReservationOk(k))
      && Disjoint(ReservationSpans(reservations))
      && (forall i | 0 <= i < |commitments| :: CommitmentOk(i))
      && Disjoint(CommitmentSpans(commitments))
    }

    ghost predicate Totals()
    {
      && reservationCount == LiveCount(ReservationSpans(reservations))
      && totalReserved == LiveBytes(ReservationSpans(reservations))
      && commitmentCount == LiveCount(CommitmentSpans(commitments))
      && totalCommitted == LiveBytes(CommitmentSpans(commitments))
      && (forall k | 0 <= k < |reservations| && reservations[k].live ::
            reservations[k].committedBytes == LiveBytes(SpansIn(commitments, k)))
    }

    /** What gxos_vm_arena_validate accepts. */
    ghost predicate Validates()
    {
      valid && length != 0 && base + length <= MAX_U64 && generation != 0 && Tables() && Totals()
    }

    /** Live commitments are single pages with a frame; dead slots are zeroed. */
    ghost predicate SinglePages()
    {
      && (forall i | 0 <= i < |commitments| ::
            if commitments[i].live
            then commitments[i].bytes == 0x1000 && commitments[i].base % 0x1000 == 0
              && commitments[i].physical != 0 && commitments[i].pageCount == 1
            else commitments[i] == NO_COMMITMENT)
      && (forall k | 0 <= k < |reservations| :: !reservations[k].live ==> reservations[k] == NO_RESERVATION)
    }

    ghost predicate Sound()
    {
      Validates() && SinglePages()
    }

    // ---- The four updates ----

    function AddReservation(k: nat, r: Reservation): Books
      requires k < |reservations|
    {
      this.(reservations := reservations[k := r], reservationCount := reservationCount + 1,
            totalReserved := totalReserved + r.bytes)
    }

    function DropReservation(k: nat): Books
      requires k < |reservations|
    {
      this.(reservations := reservations[k := NO_RESERVATION], reservationCount := reservationCount - 1,
            totalReserved := totalReserved - reservations[k].bytes)
    }

    function AddCommitment(i: nat, c: Commitment): Books
      requires i < |commitments| && c.slot < |reservations|
    {
      var r := reservations[c.slot];
      this.(commitments := commitments[i := c], commitmentCount := commitmentCount + 1,
            totalCommitted := totalCommitted + c.bytes,
            reservations := reservations[c.slot := r.(committedBytes := r.committedBytes + c.bytes,
                                                      state := Committed)])
    }

    function DropCommitment(i: nat): Books
      requires i < |commitments| && commitments[i].slot < |reservations|
    {
      var c := commitments[i];
      var r := reservations[c.slot];
      var left := r.committedBytes - c.bytes;
      this.(commitments := commitments[i := NO_COMMITMENT], commitmentCount := commitmentCount - 1,
            totalCommitted := totalCommitted - c.bytes,
            reservations := reservations[c.slot := r.(committedBytes := left,
                                                      state := if left == 0 then Reserved else r.state)])
    }
  }

  /** The books that gxos_vm_arena_init leaves. */
  function EmptyBooks(base: u64, length: u64, generation: u64): Books {
    Books(true, base, length, generation, seq(MAX_RESERVATIONS, _ => NO_RESERVATION),
          seq(MAX_COMMITMENTS, _ => NO_COMMITMENT), 0, 0, 0, 0)
  }

  lemma EmptySound(base: u64, length: u64, generation: u64)
    requires generation != 0 && length != 0 && base + length <= MAX_U64
    ensures EmptyBooks(base, length, generation).Sound()
  {
    var b := EmptyBooks(base, length, generation);
    NoneLive(ReservationSpans(b.reservations));
    NoneLive(CommitmentSpans(b.commitments));
    forall k | 0 <= k < MAX_RESERVATIONS
      ensures LiveBytes(SpansIn(b.commitments, k)) == 0
    {
      NoneLive(SpansIn(b.commitments, k));
    }
  }

  /** By disjoint packing, committed bytes never exceed reserved bytes, nor these the arena. */
  lemma PackedTotals(b: Books)
    requires b.Validates()
    ensures 0 <= b.totalCommitted <= b.totalReserved <= b.length
  {
    var rs, cs := ReservationSpans(b.reservations), CommitmentSpans(b.commitments);
    forall k | 0 <= k < |rs| && rs[k].live
      ensures b.base <= rs[k].base && rs[k].base + rs[k].bytes <= b.base + b.length
    {
      assert b.ReservationOk(k);
    }
    PackedInWindow(rs, b.base, b.base + b.length);
    forall i | 0 <= i < |cs| && cs[i].live
      ensures exists j | 0 <= j < |rs| ::
                rs[j].live && rs[j].base <= cs[i].base && cs[i].base + cs[i].bytes <= rs[j].base + rs[j].bytes
    {
      assert b.CommitmentOk(i);
      assert rs[b.commitments[i].slot].live;
    }
    PackedInTable(cs, rs);
  }

  lemma DisjointUpdate(spans: seq<Span>, k: nat, span: Span)
    requires k < |spans| && Disjoint(spans)
    requires forall j | 0 <= j < |spans| && j != k :: Apart(span, spans[j])
    ensures Disjoint(spans[k := span])
  {
  }

  // ---- Reservations ----

  ghost predicate CanReserve(b: Books, k: nat, r: Reservation) {
    && k < |b.reservations| && !b.reservations[k].live
    && r.live && r.bytes != 0 && r.generation != 0 && 0 < r.requestedBytes <= r.bytes
    && r.state == Reserved && r.committedBytes == 0
    && RangeContains(b.base, b.length, r.base, r.bytes)
    && forall j | 0 <= j < |b.reservations| :: Apart(ReservationSpan(r), ReservationSpan(b.reservations[j]))
  }

  /** A dead reservation slot has no live commitment, so its bytes are not counted anywhere. */
  lemma {:induction false} NothingCommitted(b: Books, k: nat)
    requires b.Tables() && k < |b.reservations|
    requires forall i | 0 <= i < |b.commitments| :: b.commitments[i].live ==> b.commitments[i].slot != k
    ensures LiveBytes(SpansIn(b.commitments, k)) == 0
  {
    NoneLive(SpansIn(b.commitments, k));
  }

  lemma AddReservationTables(b: Books, k: nat, r: Reservation)
    requires b.Sound() && CanReserve(b, k, r)
    ensures b.AddReservation(k, r).Tables()
  {
    var b' := b.AddReservation(k, r);
    var spans := ReservationSpans(b.reservations);
    assert ReservationSpans(b'.reservations) == spans[k := ReservationSpan(r)];
    DisjointUpdate(spans, k, ReservationSpan(r));
    forall j | 0 <= j < |b.reservations|
      ensures b'.ReservationOk(j)
    {
      assert b.ReservationOk(j);
    }
    forall i | 0 <= i < |b.commitments|
      ensures b'.CommitmentOk(i)
    {
      assert b.CommitmentOk(i);
    }
  }

  lemma AddReservationSound(b: Books, k: nat, r: Reservation)
    requires b.Sound() && CanReserve(b, k, r)
    ensures b.AddReservation(k, r).Sound()
  {
    var b' := b.AddReservation(k, r);
    AddReservationTables(b, k, r);
    var spans := ReservationSpans(b.reservations);
    assert ReservationSpans(b'.reservations) == spans[k := ReservationSpan(r)];
    UpdateBytes(spans, k, ReservationSpan(r));
    UpdateCount(spans, k, ReservationSpan(r));
    forall i | 0 <= i < |b.commitments| && b.commitments[i].live
      ensures b.commitments[i].slot != k
    {
      assert b.CommitmentOk(i);
    }
    NothingCommitted(b, k);
  }

  lemma DropReservationSound(b: Books, k: nat)
    requires b.Sound() && k < |b.reservations| && b.reservations[k].live && b.reservations[k].committedBytes == 0
    ensures b.DropReservation(k).Sound()
    ensures forall i | 0 <= i < |b.commitments| :: b.commitments[i].live ==> b.commitments[i].slot != k
  {
    var b' := b.DropReservation(k);
    var spans := ReservationSpans(b.reservations);
    var none := ReservationSpan(NO_RESERVATION);
    assert ReservationSpans(b'.reservations) == spans[k := none];
    DisjointUpdate(spans, k, none);
    UpdateBytes(spans, k, none);
    UpdateCount(spans, k, none);
    forall i | 0 <= i < |b.commitments|
      ensures b.commitments[i].live ==> b.commitments[i].slot != k
      ensures b'.CommitmentOk(i)
    {
      assert b.CommitmentOk(i);
      if b.commitments[i].live && b.commitments[i].slot == k {
        LiveIsCounted(SpansIn(b.commitments, k), i);
      }
    }
    forall j | 0 <= j < |b.reservations|
      ensures b'.ReservationOk(j)
    {
      assert b.ReservationOk(j);
    }
  }

  // ---- Commitments ----

  ghost predicate CanCommit(b: Books, i: nat, c: Commitment) {
    && i < |b.commitments| && !b.commitments[i].live
    && c.live && c.slot < |b.reservations| && b.reservations[c.slot].live
    && c.bytes == 0x1000 && c.base % 0x1000 == 0 && c.physical != 0 && c.pageCount == 1
    && c.generation != 0 && c.state == Committed
    && RangeContains(b.reservations[c.slot].base, b.reservations[c.slot].bytes, c.base, c.bytes)
    && forall j | 0 <= j < |b.commitments| :: Apart(CommitmentSpan(c), CommitmentSpan(b.commitments[j]))
  }

  lemma SpansInUpdate(cs: seq<Commitment>, i: nat, c: Commitment, slot: nat)
    requires i < |cs|
    ensures LiveBytes(SpansIn(cs[i := c], slot))
         == LiveBytes(SpansIn(cs, slot)) - Weight(SpanIn(cs[i], slot)) + Weight(SpanIn(c, slot))
  {
    assert SpansIn(cs[i := c], slot) == SpansIn(cs, slot)[i := SpanIn(c, slot)];
    UpdateBytes(SpansIn(cs, slot), i, SpanIn(c, slot));
  }

  lemma CommitmentsPacked(b: Books, k: nat)
    requires |b.reservations| == MAX_RESERVATIONS && k < |b.reservations|
    requires forall i | 0 <= i < |b.commitments| :: b.CommitmentOk(i)
    requires Disjoint(CommitmentSpans(b.commitments))
    ensures LiveBytes(SpansIn(b.commitments, k)) <= b.reservations[k].bytes
  {
    var spans := SpansIn(b.commitments, k);
    var all := CommitmentSpans(b.commitments);
    forall i, j | 0 <= i < j < |spans|
      ensures Apart(spans[i], spans[j])
    {
      assert Apart(all[i], all[j]);
    }
    var r := b.reservations[k];
    forall i | 0 <= i < |spans| && spans[i].live
      ensures r.base <= spans[i].base && spans[i].base + spans[i].bytes <= r.base + r.bytes
    {
      assert b.CommitmentOk(i);
    }
    PackedInWindow(spans, r.base, r.base + r.bytes);
  }

  lemma AddCommitmentTables(b: Books, i: nat, c: Commitment)
    requires b.Sound() && CanCommit(b, i, c)
    ensures b.AddCommitment(i, c).Tables()
  {
    var b' := b.AddCommitment(i, c);
    var spans := CommitmentSpans(b.commitments);
    assert CommitmentSpans(b'.commitments) == spans[i := CommitmentSpan(c)];
    DisjointUpdate(spans, i, CommitmentSpan(c));
    assert ReservationSpans(b'.reservations) == ReservationSpans(b.reservations);
    forall j | 0 <= j < |b.commitments|
      ensures b'.CommitmentOk(j)
    {
      assert b.CommitmentOk(j);
    }
    SpansInUpdate(b.commitments, i, c, c.slot);
    CommitmentsPacked(b', c.slot);
    forall k | 0 <= k < |b.reservations|
      ensures b'.ReservationOk(k)
    {
      assert b.ReservationOk(k);
    }
  }

  lemma AddCommitmentSound(b: Books, i: nat, c: Commitment)
    requires b.Sound() && CanCommit(b, i, c)
    ensures b.AddCommitment(i, c).Sound()
  {
    var b' := b.AddCommitment(i, c);
    AddCommitmentTables(b, i, c);
    var spans := CommitmentSpans(b.commitments);
    assert CommitmentSpans(b'.commitments) == spans[i := CommitmentSpan(c)];
    assert ReservationSpans(b'.reservations) == ReservationSpans(b.reservations);
    UpdateBytes(spans, i, CommitmentSpan(c));
    UpdateCount(spans, i, CommitmentSpan(c));
    forall k | 0 <= k < |b.reservations| && b.reservations[k].live
      ensures b'.reservations[k].committedBytes == LiveBytes(SpansIn(b'.commitments, k))
    {
      SpansInUpdate(b.commitments, i, c, k);
    }
  }

  lemma DropCommitmentTables(b: Books, i: nat)
    requires b.Sound() && i < |b.commitments| && b.commitments[i].live && b.commitments[i].slot < |b.reservations|
    ensures b.DropCommitment(i).Tables()
    ensures b.reservations[b.commitments[i].slot].live
    ensures b.reservations[b.commitments[i].slot].committedBytes >= b.commitments[i].bytes
  {
    var b' := b.DropCommitment(i);
    var c := b.commitments[i];
    assert b.CommitmentOk(i);
    var spans := CommitmentSpans(b.commitments);
    var none := CommitmentSpan(NO_COMMITMENT);
    assert CommitmentSpans(b'.commitments) == spans[i := none];
    DisjointUpdate(spans, i, none);
    assert ReservationSpans(b'.reservations) == ReservationSpans(b.reservations);
    LiveIsCounted(SpansIn(b.commitments, c.slot), i);
    forall j | 0 <= j < |b.commitments|
      ensures b'.CommitmentOk(j)
    {
      assert b.CommitmentOk(j);
    }
    forall k | 0 <= k < |b.reservations|
      ensures b'.ReservationOk(k)
    {
      assert b.ReservationOk(k);
    }
  }

  lemma DropCommitmentSound(b: Books, i: nat)
    requires b.Sound() && i < |b.commitments| && b.commitments[i].live && b.commitments[i].slot < |b.reservations|
    ensures b.DropCommitment(i).Sound()
  {
    var b' := b.DropCommitment(i);
    DropCommitmentTables(b, i);
    var spans := CommitmentSpans(b.commitments);
    var none := CommitmentSpan(NO_COMMITMENT);
    assert CommitmentSpans(b'.commitments) == spans[i := none];
    assert ReservationSpans(b'.reservations) == ReservationSpans(b.reservations);
    UpdateBytes(spans, i, none);
    UpdateCount(spans, i, none);
    forall k | 0 <= k < |b.reservations| && b.reservations[k].live
      ensures b'.reservations[k].committedBytes == LiveBytes(SpansIn(b'.commitments, k))
    {
      SpansInUpdate(b.commitments, i, NO_COMMITMENT, k);
    }
  }

  /** Decommitting what was just committed restores the books exactly. */
  lemma DropUndoesAdd(b: Books, i: nat, c: Commitment)
    requires b.Sound() && CanCommit(b, i, c)
    ensures b.AddCommitment(i, c).DropCommitment(i) == b
  {
    assert b.ReservationOk(c.slot);
    var b' := b.AddCommitment(i, c).DropCommitment(i);
    assert b'.commitments == b.commitments;
    assert b'.reservations == b.reservations;
  }

  /** Pages identify live commitments. */
  lemma SamePageSameSlot(b: Books, i: nat, j: nat)
    requires b.Tables() && i < |b.commitments| && j < |b.commitments|
    requires b.commitments[i].live && b.commitments[j].live && b.commitments[i].base == b.commitments[j].base
    ensures i == j
  {
    var spans := CommitmentSpans(b.commitments);
    assert b.CommitmentOk(i) && b.CommitmentOk(j);
    assert spans[i].base == spans[j].base && spans[i].bytes != 0 && spans[j].bytes != 0;
  }
}
