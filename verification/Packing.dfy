/**
 * Sums and counts over tables of live byte ranges, and the packing bound: disjoint ranges inside
 * a window cannot have more bytes than the window.
 */
module Packing {
  import opened Words

  datatype Span = Span(live: bool, base: int, bytes: nat)

  predicate Apart(a: Span, b: Span) {
    a.live && b.live ==> a.base + a.bytes <= b.base || b.base + b.bytes <= a.base
  }

  ghost predicate Disjoint(spans: seq<Span>) {
    forall i, j | 0 <= i < j < |spans| :: Apart(spans[i], spans[j])
  }

  ghost predicate Inside(spans: seq<Span>, lo: int, hi: int) {
    forall i | 0 <= i < |spans| && spans[i].live :: lo <= spans[i].base && spans[i].base + spans[i].bytes <= hi
  }

  ghost function Weight(span: Span): nat {
    if span.live then span.bytes else 0
  }

  ghost function LiveBytes(spans: seq<Span>): nat {
    if spans == [] then 0 else LiveBytes(spans[..|spans| - 1]) + Weight(spans[|spans| - 1])
  }

  ghost function LiveCount(spans: seq<Span>): nat {
    if spans == [] then 0 else LiveCount(spans[..|spans| - 1]) + (if spans[|spans| - 1].live then 1 else 0)
  }

  lemma {:induction false} UpdateBytes(spans: seq<Span>, k: nat, span: Span)
    requires k < |spans|
    ensures LiveBytes(spans[k := span]) == LiveBytes(spans) - Weight(spans[k]) + Weight(span)
  {
    var n := |spans| - 1;
    if k == n {
      assert spans[k := span][..n] == spans[..n];
    } else {
      assert spans[k := span][..n] == spans[..n][k := span];
      UpdateBytes(spans[..n], k, span);
    }
  }

  lemma {:induction false} UpdateCount(spans: seq<Span>, k: nat, span: Span)
    requires k < |spans|
    ensures LiveCount(spans[k := span])
         == LiveCount(spans) - (if spans[k].live then 1 else 0) + (if span.live then 1 else 0)
  {
    var n := |spans| - 1;
    if k == n {
      assert spans[k := span][..n] == spans[..n];
    } else {
      assert spans[k := span][..n] == spans[..n][k := span];
      UpdateCount(spans[..n], k, span);
    }
  }

  /** A table is full exactly when its count says so. */
  lemma {:induction false} CountBound(spans: seq<Span>)
    ensures LiveCount(spans) <= |spans|
    ensures LiveCount(spans) == |spans| <==> forall i | 0 <= i < |spans| :: spans[i].live
  {
    if spans != [] {
      CountBound(spans[..|spans| - 1]);
      assert forall i | 0 <= i < |spans| - 1 :: spans[..|spans| - 1][i] == spans[i];
    }
  }

  lemma {:induction false} NoneLive(spans: seq<Span>)
    requires forall i | 0 <= i < |spans| :: !spans[i].live
    ensures LiveBytes(spans) == 0 && LiveCount(spans) == 0
  {
    if spans != [] {
      NoneLive(spans[..|spans| - 1]);
    }
  }

  lemma {:induction false} LiveIsCounted(spans: seq<Span>, k: nat)
    requires k < |spans| && spans[k].live
    ensures LiveBytes(spans) >= spans[k].bytes && LiveCount(spans) >= 1
  {
    if k < |spans| - 1 {
      LiveIsCounted(spans[..|spans| - 1], k);
    }
  }

  // ---- The packing bound ----

  ghost function Interval(lo: int, n: nat): (r: set<int>)
    ensures forall x :: x in r <==> lo <= x < lo + n
    ensures |r| == n
  {
    if n == 0 then {} else Interval(lo, n - 1) + {lo + n - 1}
  }

  ghost function Bytes(span: Span): set<int> {
    if span.live then Interval(span.base, span.bytes) else {}
  }

  ghost function Cover(spans: seq<Span>): set<int> {
    if spans == [] then {} else Cover(spans[..|spans| - 1]) + Bytes(spans[|spans| - 1])
  }

  lemma {:induction false} CoverMembers(spans: seq<Span>, x: int)
    ensures x in Cover(spans) <==> exists i | 0 <= i < |spans| :: x in Bytes(spans[i])
  {
    hide Bytes;
    if spans != [] {
      var init := spans[..|spans| - 1];
      CoverMembers(init, x);
      if i :| 0 <= i < |init| && x in Bytes(init[i]) {
        assert spans[i] == init[i];
      }
      if i :| 0 <= i < |spans| && x in Bytes(spans[i]) {
        assert i < |init| ==> init[i] == spans[i];
      }
    }
  }

  /** Disjoint ranges cover as many bytes as their sizes add up to. */
  lemma {:induction false} CoverSize(spans: seq<Span>)
    requires Disjoint(spans)
    ensures |Cover(spans)| == LiveBytes(spans)
  {
    if spans != [] {
      var init, last := spans[..|spans| - 1], spans[|spans| - 1];
      CoverSize(init);
      forall x | x in Cover(init)
        ensures x !in Bytes(last)
      {
        CoverMembers(init, x);
        var i :| 0 <= i < |init| && x in Bytes(init[i]);
        assert Apart(spans[i], spans[|spans| - 1]);
      }
      assert Cover(init) !! Bytes(last);
      assert |Cover(init) + Bytes(last)| == |Cover(init)| + |Bytes(last)|;
    }
  }

  lemma PackedInWindow(spans: seq<Span>, lo: int, hi: int)
    requires Disjoint(spans) && Inside(spans, lo, hi) && lo <= hi
    ensures LiveBytes(spans) <= hi - lo
  {
    CoverSize(spans);
    var window := Interval(lo, hi - lo);
    forall x | x in Cover(spans)
      ensures x in window
    {
      CoverMembers(spans, x);
    }
    SubsetSize(Cover(spans), window);
  }

  /** Disjoint ranges that each lie inside one of other disjoint ranges have no more bytes. */
  lemma PackedInTable(inner: seq<Span>, outer: seq<Span>)
    requires Disjoint(inner) && Disjoint(outer)
    requires forall i | 0 <= i < |inner| && inner[i].live ::
               exists j | 0 <= j < |outer| :: outer[j].live
                 && outer[j].base <= inner[i].base && inner[i].base + inner[i].bytes <= outer[j].base + outer[j].bytes
    ensures LiveBytes(inner) <= LiveBytes(outer)
  {
    CoverSize(inner);
    CoverSize(outer);
    forall x | x in Cover(inner)
      ensures x in Cover(outer)
    {
      CoverMembers(inner, x);
      CoverMembers(outer, x);
      var i :| 0 <= i < |inner| && x in Bytes(inner[i]);
      var j :| 0 <= j < |outer| && outer[j].live
        && outer[j].base <= inner[i].base && inner[i].base + inner[i].bytes <= outer[j].base + outer[j].bytes;
      assert x in Bytes(outer[j]);
    }
    SubsetSize(Cover(inner), Cover(outer));
  }
}
