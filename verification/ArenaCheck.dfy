/**
 * gxos_vm_arena_validate as the program runs it: it accepts exactly the valid books.
 */
module ArenaCheck {
  import opened Words
  import opened Packing
  import opened ArenaBooks

  /** ranges_overlap; an empty range, or one that passes the end of the address space, collides. */
  predicate Collide(leftBase: u64, leftBytes: u64, rightBase: u64, rightBytes: u64) {
    || leftBytes == 0 || leftBase > MAX_U64 - leftBytes || rightBytes == 0 || rightBase > MAX_U64 - rightBytes
    || RangesOverlap(leftBase, leftBytes, rightBase, rightBytes)
  }

  /** The tables have their fixed sizes and their byte counts are unsigned. */
  ghost predicate Shaped(b: Books) {
    && |b.reservations| == MAX_RESERVATIONS && |b.commitments| == MAX_COMMITMENTS
    && forall k | 0 <= k < |b.reservations| :: 0 <= b.reservations[k].committedBytes
  }

  ghost predicate ReservationsOk(b: Books) {
    && (forall k | 0 <= k < |b.reservations| :: b.ReservationOk(k))
    && Disjoint(ReservationSpans(b.reservations))
  }

  ghost predicate CommitmentsOk(b: Books) {
    && (forall i | 0 <= i < |b.commitments| :: b.CommitmentOk(i))
    && Disjoint(CommitmentSpans(b.commitments))
  }

  lemma {:induction false} PrefixBytes(spans: seq<Span>, k: nat)
    requires k < |spans|
    ensures LiveBytes(spans[..k]) + Weight(spans[k]) <= LiveBytes(spans)
    ensures LiveBytes(spans[..k + 1]) == LiveBytes(spans[..k]) + Weight(spans[k])
    ensures LiveCount(spans[..k + 1]) == LiveCount(spans[..k]) + (if spans[k].live then 1 else 0)
  {
    assert spans[..k + 1][..k] == spans[..k];
    if k == |spans| - 1 {
      assert spans[..k + 1] == spans;
    } else {
      var init := spans[..|spans| - 1];
      PrefixBytes(init, k);
      assert init[..k] == spans[..k];
    }
  }

  // ---- Reservations ----

  /** One row of the overlap test between reservations. */
  method ReservationRow(b: Books, index: nat) returns (ok: bool)
    requires Shaped(b) && index < MAX_RESERVATIONS
    ensures ok <==> forall j | index < j < MAX_RESERVATIONS && b.reservations[j].live ::
                      !Collide(b.reservations[index].base, b.reservations[index].bytes,
                               b.reservations[j].base, b.reservations[j].bytes)
  {
    var r := b.reservations[index];
    var other := index + 1;
    while other != MAX_RESERVATIONS
      invariant index < other <= MAX_RESERVATIONS
      invariant forall j | index < j < other && b.reservations[j].live ::
                  !Collide(r.base, r.bytes, b.reservations[j].base, b.reservations[j].bytes)
    {
      if b.reservations[other].live
         && Collide(r.base, r.bytes, b.reservations[other].base, b.reservations[other].bytes) {
        return false;
      }
      other := other + 1;
    }
    return true;
  }

  /** The tests on one live reservation. */
  predicate ReservationPasses(b: Books, r: Reservation) {
    && Contains(b.base, b.length, r.base, r.bytes) && r.generation != 0
    && r.requestedBytes != 0 && r.requestedBytes <= r.bytes && r.state != Free
    && !(r.committedBytes == 0 && r.state != Reserved) && !(r.committedBytes != 0 && r.state != Committed)
    && r.committedBytes <= r.bytes
  }

  lemma PassesIsOk(b: Books, k: nat)
    requires Shaped(b) && k < |b.reservations| && b.length != 0 && b.base + b.length <= MAX_U64
        && b.reservations[k].live
    ensures ReservationPasses(b, b.reservations[k]) <==> b.ReservationOk(k)
  {
  }

  /** Rows that pass say the same as disjoint spans. */
  lemma RowsDisjoint(b: Books)
    requires forall k | 0 <= k < |b.reservations| :: b.ReservationOk(k)
    requires b.base + b.length <= MAX_U64
    ensures Disjoint(ReservationSpans(b.reservations)) <==>
              forall i, j | 0 <= i < j < |b.reservations| && b.reservations[i].live && b.reservations[j].live ::
                !Collide(b.reservations[i].base, b.reservations[i].bytes,
                         b.reservations[j].base, b.reservations[j].bytes)
  {
    var spans := ReservationSpans(b.reservations);
    forall i, j | 0 <= i < j < |b.reservations| && b.reservations[i].live && b.reservations[j].live
      ensures Collide(b.reservations[i].base, b.reservations[i].bytes, b.reservations[j].base, b.reservations[j].bytes)
         <==> !Apart(spans[i], spans[j])
    {
      assert b.ReservationOk(i) && b.ReservationOk(j);
    }
    if Disjoint(spans) {
      assert forall i, j | 0 <= i < j < |spans| :: Apart(spans[i], spans[j]);
    }
  }

  lemma ReservedFits(b: Books)
    requires ReservationsOk(b) && b.base + b.length <= MAX_U64
    ensures LiveBytes(ReservationSpans(b.reservations)) <= b.length
  {
    var rs := ReservationSpans(b.reservations);
    forall k | 0 <= k < |rs| && rs[k].live
      ensures b.base <= rs[k].base && rs[k].base + rs[k].bytes <= b.base + b.length
    {
      assert b.ReservationOk(k);
    }
    PackedInWindow(rs, b.base, b.base + b.length);
  }

  /** The first loop of the check. */
  method CheckReservations(b: Books) returns (ok: bool, count: nat, bytes: nat)
    requires Shaped(b) && b.length != 0 && b.base + b.length <= MAX_U64
    ensures ok <==> ReservationsOk(b)
    ensures ok ==>
              && count == LiveCount(ReservationSpans(b.reservations))
              && bytes == LiveBytes(ReservationSpans(b.reservations))
  {
    hide Disjoint, LiveBytes, LiveCount, Collide;
    ghost var spans := ReservationSpans(b.reservations);
    ok, count, bytes := true, 0, 0;
    EmptySums(spans);
    var index := 0;
    while index != MAX_RESERVATIONS
      invariant 0 <= index <= MAX_RESERVATIONS && |spans| == MAX_RESERVATIONS
      invariant forall k | 0 <= k < index :: b.ReservationOk(k)
      invariant forall i, j | 0 <= i < index && i < j < MAX_RESERVATIONS && b.reservations[i].live
          && b.reservations[j].live ::
                  !Collide(b.reservations[i].base, b.reservations[i].bytes,
                           b.reservations[j].base, b.reservations[j].bytes)
      invariant count == LiveCount(spans[..index]) && bytes == LiveBytes(spans[..index])
    {
      var r := b.reservations[index];
      PrefixBytes(spans, index);
      if r.live {
        PassesIsOk(b, index);
        if !ReservationPasses(b, r) {
          return false, 0, 0;
        }
        if bytes > MAX_U64 - r.bytes {
          if ReservationsOk(b) {
            ReservedFits(b);
          }
          return false, 0, 0;
        }
        bytes := bytes + r.bytes;
        var row := ReservationRow(b, index);
        if !row {
          if ReservationsOk(b) {
            RowsDisjoint(b);
          }
          return false, 0, 0;
        }
        count := count + 1;
      } else {
        assert b.ReservationOk(index);
      }
      index := index + 1;
    }
    RowsDisjoint(b);
    assert spans[..index] == spans;
  }

  lemma EmptySums(spans: seq<Span>)
    ensures LiveBytes(spans[..0]) == 0 && LiveCount(spans[..0]) == 0
  {
  }

  // ---- Commitments ----

  method CommitmentRow(b: Books, index: nat) returns (ok: bool)
    requires Shaped(b) && index < MAX_COMMITMENTS
    ensures ok <==> forall j | index < j < MAX_COMMITMENTS && b.commitments[j].live ::
                      !Collide(b.commitments[index].base, b.commitments[index].bytes,
                               b.commitments[j].base, b.commitments[j].bytes)
  {
    var c := b.commitments[index];
    var other := index + 1;
    while other != MAX_COMMITMENTS
      invariant index < other <= MAX_COMMITMENTS
      invariant forall j | index < j < other && b.commitments[j].live ::
                  !Collide(c.base, c.bytes, b.commitments[j].base, b.commitments[j].bytes)
    {
      if b.commitments[other].live && Collide(c.base, c.bytes, b.commitments[other].base, b.commitments[other].bytes) {
        return false;
      }
      other := other + 1;
    }
    return true;
  }

  /** The tests on one live commitment. */
  predicate CommitmentPasses(b: Books, c: Commitment)
    requires |b.reservations| == MAX_RESERVATIONS
  {
    && c.slot < MAX_RESERVATIONS && b.reservations[c.slot].live && c.generation != 0 && c.state == Committed
    && !(c.physical != 0 && c.pageCount == 0)
    && Contains(b.reservations[c.slot].base, b.reservations[c.slot].bytes, c.base, c.bytes)
  }

  lemma CommitmentPassesIsOk(b: Books, i: nat)
    requires Shaped(b) && ReservationsOk(b) && b.base + b.length <= MAX_U64
    requires i < |b.commitments| && b.commitments[i].live
    ensures CommitmentPasses(b, b.commitments[i]) <==> b.CommitmentOk(i)
  {
    var c := b.commitments[i];
    if c.slot < MAX_RESERVATIONS {
      assert b.ReservationOk(c.slot);
    }
  }

  lemma CommitmentInside(b: Books, i: nat)
    requires Shaped(b) && ReservationsOk(b) && b.base + b.length <= MAX_U64
    requires i < |b.commitments| && b.commitments[i].live && b.CommitmentOk(i)
    ensures b.commitments[i].bytes != 0 && b.commitments[i].base + b.commitments[i].bytes <= MAX_U64
  {
    assert b.ReservationOk(b.commitments[i].slot);
  }

  lemma CommitmentRowsDisjoint(b: Books)
    requires Shaped(b) && ReservationsOk(b) && b.base + b.length <= MAX_U64
    requires forall i | 0 <= i < |b.commitments| :: b.CommitmentOk(i)
    ensures Disjoint(CommitmentSpans(b.commitments)) <==>
              forall i, j | 0 <= i < j < |b.commitments| && b.commitments[i].live && b.commitments[j].live ::
                !Collide(b.commitments[i].base, b.commitments[i].bytes, b.commitments[j].base, b.commitments[j].bytes)
  {
    hide ReservationsOk;
    var spans := CommitmentSpans(b.commitments);
    forall i, j | 0 <= i < j < |b.commitments| && b.commitments[i].live && b.commitments[j].live
      ensures Collide(b.commitments[i].base, b.commitments[i].bytes, b.commitments[j].base, b.commitments[j].bytes)
         <==> !Apart(spans[i], spans[j])
    {
      CommitmentInside(b, i);
      CommitmentInside(b, j);
    }
    if Disjoint(spans) {
      assert forall i, j | 0 <= i < j < |spans| :: Apart(spans[i], spans[j]);
    }
  }

  lemma CommittedFits(b: Books)
    requires ReservationsOk(b) && CommitmentsOk(b) && b.base + b.length <= MAX_U64
    ensures LiveBytes(CommitmentSpans(b.commitments)) <= b.length
  {
    var rs, cs := ReservationSpans(b.reservations), CommitmentSpans(b.commitments);
    forall i | 0 <= i < |cs| && cs[i].live
      ensures exists j | 0 <= j < |rs| ::
                rs[j].live && rs[j].base <= cs[i].base && cs[i].base + cs[i].bytes <= rs[j].base + rs[j].bytes
    {
      assert b.CommitmentOk(i);
      assert rs[b.commitments[i].slot].live;
    }
    PackedInTable(cs, rs);
    ReservedFits(b);
  }

  /** The commitments of one reservation have no more bytes than all commitments. */
  lemma {:induction false} PartWithinWhole(cs: seq<Commitment>, slot: nat)
    ensures LiveBytes(SpansIn(cs, slot)) <= LiveBytes(CommitmentSpans(cs))
  {
    if cs != [] {
      var n := |cs| - 1;
      PartWithinWhole(cs[..n], slot);
      assert SpansIn(cs, slot)[..n] == SpansIn(cs[..n], slot);
      assert CommitmentSpans(cs)[..n] == CommitmentSpans(cs[..n]);
    }
  }

  /** The running sums take in one more commitment. */
  lemma SumsStep(cs: seq<Commitment>, index: nat, slot: nat)
    requires index < |cs|
    ensures LiveBytes(SpansIn(cs[..index + 1], slot))
         == LiveBytes(SpansIn(cs[..index], slot)) + Weight(SpanIn(cs[index], slot))
    ensures LiveBytes(CommitmentSpans(cs[..index + 1]))
         == LiveBytes(CommitmentSpans(cs[..index])) + Weight(CommitmentSpan(cs[index]))
    ensures LiveCount(CommitmentSpans(cs[..index + 1]))
         == LiveCount(CommitmentSpans(cs[..index])) + (if cs[index].live then 1 else 0)
  {
    assert SpansIn(cs[..index + 1], slot)[..index] == SpansIn(cs[..index], slot);
    assert CommitmentSpans(cs[..index + 1])[..index] == CommitmentSpans(cs[..index]);
  }

  /** What the second loop has added up over the first `n` commitments. */
  ghost predicate Summed(cs: seq<Commitment>, n: nat, count: nat, bytes: nat, sums: seq<nat>) {
    && n <= |cs| && |sums| == MAX_RESERVATIONS
    && count == LiveCount(CommitmentSpans(cs[..n])) && bytes == LiveBytes(CommitmentSpans(cs[..n]))
    && forall k | 0 <= k < MAX_RESERVATIONS :: sums[k] == LiveBytes(SpansIn(cs[..n], k))
  }

  lemma SummedStep(cs: seq<Commitment>, n: nat, count: nat, bytes: nat, sums: seq<nat>)
    requires n < |cs| && Summed(cs, n, count, bytes, sums) && (cs[n].live ==> cs[n].slot < MAX_RESERVATIONS)
    ensures !cs[n].live ==> Summed(cs, n + 1, count, bytes, sums)
    ensures cs[n].live ==>
              Summed(cs, n + 1, count + 1, bytes + cs[n].bytes, sums[cs[n].slot := sums[cs[n].slot] + cs[n].bytes])
  {
    SumsStep(cs, n, 0);
    forall k | 0 <= k < MAX_RESERVATIONS
      ensures LiveBytes(SpansIn(cs[..n + 1], k)) == sums[k] + Weight(SpanIn(cs[n], k))
    {
      SumsStep(cs, n, k);
    }
  }

  lemma SumsFit(b: Books, n: nat, count: nat, bytes: nat, sums: seq<nat>)
    requires ReservationsOk(b) && CommitmentsOk(b) && b.base + b.length <= MAX_U64
    requires n < |b.commitments| && Summed(b.commitments, n, count, bytes, sums)
    requires b.commitments[n].live && b.commitments[n].slot < MAX_RESERVATIONS
    ensures bytes + b.commitments[n].bytes <= MAX_U64
    ensures sums[b.commitments[n].slot] + b.commitments[n].bytes <= MAX_U64
  {
    var cs, k := b.commitments, b.commitments[n].slot;
    CommittedFits(b);
    var spans := CommitmentSpans(cs);
    PrefixBytes(spans, n);
    assert spans[..n] == CommitmentSpans(cs[..n]);
    PartWithinWhole(cs[..n], k);
  }

  /** The second loop of the check. */
  method CheckCommitments(b: Books) returns (ok: bool, count: nat, bytes: nat, sums: seq<nat>)
    requires Shaped(b) && ReservationsOk(b) && b.base + b.length <= MAX_U64
    ensures ok <==> CommitmentsOk(b)
    ensures ok ==> Summed(b.commitments, MAX_COMMITMENTS, count, bytes, sums)
  {
    hide ReservationsOk, Disjoint, LiveBytes, LiveCount, Collide, Summed, Books.CommitmentOk;
    ok, count, bytes, sums := true, 0, 0, seq(MAX_RESERVATIONS, _ => 0);
    SummedNothing(b.commitments, sums);
    var index := 0;
    while index != MAX_COMMITMENTS
      invariant 0 <= index <= MAX_COMMITMENTS && |sums| == MAX_RESERVATIONS
      invariant forall i | 0 <= i < index :: b.CommitmentOk(i)
      invariant forall i, j | 0 <= i < index && i < j < MAX_COMMITMENTS && b.commitments[i].live
          && b.commitments[j].live ::
                  !Collide(b.commitments[i].base, b.commitments[i].bytes, b.commitments[j].base, b.commitments[j].bytes)
      invariant Summed(b.commitments, index, count, bytes, sums)
    {
      var c := b.commitments[index];
      if c.live {
        CommitmentPassesIsOk(b, index);
        if !CommitmentPasses(b, c) {
          return false, count, bytes, sums;
        }
        if CommitmentsOk(b) {
          SumsFit(b, index, count, bytes, sums);
        }
        if bytes > MAX_U64 - c.bytes {
          return false, count, bytes, sums;
        }
        if sums[c.slot] > MAX_U64 - c.bytes {
          return false, count, bytes, sums;
        }
        SummedStep(b.commitments, index, count, bytes, sums);
        bytes := bytes + c.bytes;
        sums := sums[c.slot := sums[c.slot] + c.bytes];
        var row := CommitmentRow(b, index);
        if !row {
          if CommitmentsOk(b) {
            CommitmentRowsDisjoint(b);
          }
          return false, count, bytes, sums;
        }
        count := count + 1;
      } else {
        DeadCommitmentOk(b, index);
        SummedStep(b.commitments, index, count, bytes, sums);
      }
      index := index + 1;
    }
    CommitmentRowsDisjoint(b);
  }

  lemma DeadCommitmentOk(b: Books, i: nat)
    requires i < |b.commitments| && !b.commitments[i].live
    ensures b.CommitmentOk(i)
  {
  }

  lemma SummedNothing(cs: seq<Commitment>, sums: seq<nat>)
    requires |sums| == MAX_RESERVATIONS && forall k | 0 <= k < |sums| :: sums[k] == 0
    ensures Summed(cs, 0, 0, 0, sums)
  {
  }

  /** gxos_vm_arena_validate */
  method Validate(b: Books) returns (ok: bool)
    requires Shaped(b)
    ensures ok <==> b.Validates()
  {
    hide ReservationsOk, CommitmentsOk, Summed, LiveBytes, LiveCount, Disjoint;
    Parts(b);
    if !b.valid || b.length == 0 || b.base > MAX_U64 - b.length || b.generation == 0 {
      return false;
    }
    var reservationsOk, reservations, reserved := CheckReservations(b);
    if !reservationsOk {
      return false;
    }
    var commitmentsOk, commitments, committed, sums := CheckCommitments(b);
    if !commitmentsOk {
      return false;
    }
    SummedAll(b.commitments, commitments, committed, sums);
    var index := 0;
    while index != MAX_RESERVATIONS
      invariant 0 <= index <= MAX_RESERVATIONS
      invariant forall k | 0 <= k < index && b.reservations[k].live :: sums[k] == b.reservations[k].committedBytes
    {
      if b.reservations[index].live && sums[index] != b.reservations[index].committedBytes {
        return false;
      }
      index := index + 1;
    }
    return reservations == b.reservationCount && commitments == b.commitmentCount
        && reserved == b.totalReserved && committed == b.totalCommitted;
  }

  lemma SummedAll(cs: seq<Commitment>, count: nat, bytes: nat, sums: seq<nat>)
    requires Summed(cs, |cs|, count, bytes, sums)
    ensures count == LiveCount(CommitmentSpans(cs)) && bytes == LiveBytes(CommitmentSpans(cs))
        && |sums| == MAX_RESERVATIONS
    ensures forall k | 0 <= k < MAX_RESERVATIONS :: sums[k] == LiveBytes(SpansIn(cs, k))
  {
    assert cs[..|cs|] == cs;
  }

  lemma Parts(b: Books)
    requires Shaped(b)
    ensures b.Tables() <==> ReservationsOk(b) && CommitmentsOk(b)
  {
  }
}
