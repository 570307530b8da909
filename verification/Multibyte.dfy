/**
 * MultiByteToWideChar for UTF-8: argument and memory checks, a counting pass and a writing pass over
 * one byte-addressed memory that holds both the source and the destination.
 */
module Multibyte {
  import opened Words
  import opened Utf

  const CP_UTF8: nat := 65001
  const MB_ERR_INVALID_CHARS: nat := 8
  const ERROR_INSUFFICIENT_BUFFER: nat := 122
  const ERROR_NO_UNICODE_TRANSLATION: nat := 1113
  const MAX_NUL_SCAN: nat := 0x1_0000
  const MAX_REGIONS: nat := 128

  datatype Status = Ok | InvalidContext | InvalidCodePage | InvalidFlags | InvalidByteCount | Source(why: Coverage)
    | UnterminatedSource | NullDestination | Destination(why: Coverage) | Overlapping | InvalidUtf8 | SizeOverflow
    | InsufficientBuffer

  datatype Coverage = Covered | NullStart | NoncanonicalStart | RangeOverflow | Inaccessible

  /** The last error that goes with a failure. */
  function ErrorOf(status: Status): nat {
    match status
    case InvalidUtf8 => ERROR_NO_UNICODE_TRANSLATION
    case InsufficientBuffer => ERROR_INSUFFICIENT_BUFFER
    case _ => ERROR_INVALID_PARAMETER
  }

  // ---- Regions of memory ----

  datatype Region = Region(base: u64, end: u64, readable: bool, writable: bool) {
    predicate Holds(a: int) {
      base <= a < end
    }

    predicate Permits(write: bool) {
      readable && (write ==> writable)
    }
  }

  predicate Canonical(a: u64) {
    a / 0x8000_0000_0000 == 0 || a / 0x8000_0000_0000 == 0x1_FFFF
  }

  ghost predicate ContextOk(regions: seq<Region>) {
    && 0 < |regions| <= MAX_REGIONS
    && forall i | 0 <= i < |regions| ::
         && 0 != regions[i].base < regions[i].end
         && Canonical(regions[i].base) && Canonical(regions[i].end - 1)
  }

  /** Some region that holds the address permits the access. */
  ghost predicate Accessible(regions: seq<Region>, a: int, write: bool) {
    exists i :: 0 <= i < |regions| && regions[i].Holds(a) && regions[i].Permits(write)
  }

  /** No region holds the address, or one that holds it forbids the access. */
  ghost predicate Refused(regions: seq<Region>, a: int, write: bool) {
    Accessible(regions, a, write) ==>
      exists i :: 0 <= i < |regions| && regions[i].Holds(a) && !regions[i].Permits(write)
  }

  /** Canonical addresses are the two halves; access needs a region that is readable, and writable for writing. */
  lemma AccessMeaning(regions: seq<Region>, a: u64, write: bool)
    ensures Canonical(a) <==> a < 0x8000_0000_0000 || a >= 0xFFFF_8000_0000_0000
    ensures Accessible(regions, a, write) <==> exists i ::
              && 0 <= i < |regions| && regions[i].base <= a < regions[i].end
              && regions[i].readable && (!write || regions[i].writable)
    ensures |regions| == 1 ==> (Refused(regions, a, write) <==> !Accessible(regions, a, write))
  {
    if exists i ::
         && 0 <= i < |regions| && regions[i].base <= a < regions[i].end
         && regions[i].readable && (!write || regions[i].writable)
    {
      var i :| && 0 <= i < |regions| && regions[i].base <= a < regions[i].end
               && regions[i].readable && (!write || regions[i].writable);
      assert regions[i].Holds(a) && regions[i].Permits(write);
    }
  }

  /** Where regions do not overlap, an address is refused exactly when it is not accessible. */
  lemma DisjointRegions(regions: seq<Region>, a: int, write: bool)
    requires forall i, j | 0 <= i < j < |regions| :: !(regions[i].Holds(a) && regions[j].Holds(a))
    ensures Refused(regions, a, write) <==> !Accessible(regions, a, write)
  {
  }

  method CheckContext(regions: seq<Region>) returns (ok: bool)
    ensures ok <==> ContextOk(regions)
  {
    if |regions| == 0 || |regions| > MAX_REGIONS {
      return false;
    }
    var index := 0;
    while index != |regions|
      invariant 0 <= index <= |regions|
      invariant forall i | 0 <= i < index ::
                  && 0 != regions[i].base < regions[i].end
                  && Canonical(regions[i].base) && Canonical(regions[i].end - 1)
    {
      var region := regions[index];
      if region.base == 0 || region.base >= region.end || !Canonical(region.base) || !Canonical(region.end - 1) {
        return false;
      }
      index := index + 1;
    }
    return true;
  }

  /** find_region: the first region that holds the address. */
  method FindRegion(regions: seq<Region>, address: int) returns (found: Option<Region>)
    ensures found.Some? ==> found.value in regions && found.value.Holds(address)
    ensures found == None ==> forall i | 0 <= i < |regions| :: !regions[i].Holds(address)
  {
    var index := 0;
    while index != |regions|
      invariant 0 <= index <= |regions|
      invariant forall i | 0 <= i < index :: !regions[i].Holds(address)
    {
      if regions[index].Holds(address) {
        return Some(regions[index]);
      }
      index := index + 1;
    }
    return None;
  }

  /** range_covered: goes from the region of the first address to the region after it, and so on. */
  method RangeCovered(regions: seq<Region>, address: u64, length: nat, write: bool) returns (c: Coverage)
    ensures c == NullStart <==> length != 0 && address == 0
    ensures c == NoncanonicalStart <==> length != 0 && address != 0 && !Canonical(address)
    ensures c == RangeOverflow <==> length != 0 && address != 0 && Canonical(address) && address + length > MAX_U64
    ensures c == Covered ==> forall a | address <= a < address + length :: Accessible(regions, a, write)
    ensures c == Inaccessible ==> exists a :: address <= a < address + length && Refused(regions, a, write)
  {
    if length == 0 {
      return Covered;
    }
    if address == 0 {
      return NullStart;
    }
    if !Canonical(address) {
      return NoncanonicalStart;
    }
    if length > MAX_U64 - address {
      return RangeOverflow;
    }
    var current: int, remaining := address, length;
    while remaining != 0
      invariant current + remaining == address + length && 0 <= remaining && address <= current
      invariant forall a | address <= a < current :: Accessible(regions, a, write)
    {
      var region := FindRegion(regions, current);
      if region == None || !region.value.Permits(write) {
        assert Refused(regions, current, write);
        return Inaccessible;
      }
      var available := region.value.end - current;
      forall a | current <= a < region.value.end
        ensures Accessible(regions, a, write)
      {
        var i :| 0 <= i < |regions| && regions[i] == region.value;
        assert regions[i].Holds(a);
      }
      if available >= remaining {
        return Covered;
      }
      current := current + available;
      remaining := remaining - available;
    }
    return Covered;
  }

  predicate Within(a: int, start: int, length: nat) {
    start <= a < start + length
  }

  /** ranges_overlap; a range that would pass the end of the address space counts as overlapping. */
  function Overlap(left: u64, leftLength: nat, right: u64, rightLength: nat): (r: bool)
    ensures !r ==> forall a :: !(Within(a, left, leftLength) && Within(a, right, rightLength))
    ensures r && left + leftLength <= MAX_U64 && right + rightLength <= MAX_U64 ==>
              exists a :: Within(a, left, leftLength) && Within(a, right, rightLength)
  {
    if leftLength == 0 || rightLength == 0 then false
    else if left > MAX_U64 - leftLength || right > MAX_U64 - rightLength then true
    else
      var first: int := if left < right then right else left;
      assert left < right + rightLength && right < left + leftLength ==>
          Within(first, left, leftLength) && Within(first, right, rightLength);
      left < right + rightLength && right < left + leftLength
  }

  /** The three checks that come first. */
  ghost predicate Asked(regions: seq<Region>, codePage: nat, flags: nat) {
    ContextOk(regions) && codePage == CP_UTF8 && (flags == 0 || flags == MB_ERR_INVALID_CHARS)
  }

  // ---- Why an argument is refused ----

  /** Why a range is not covered, when it has bytes and does not start at 0. */
  ghost predicate RangeRefused(regions: seq<Region>, address: u64, length: nat, write: bool, why: Coverage) {
    match why
    case Covered => false
    case NullStart => false
    case NoncanonicalStart => !Canonical(address)
    case RangeOverflow => Canonical(address) && address + length > MAX_U64
    case Inaccessible => exists a :: address <= a < address + length && Refused(regions, a, write)
  }

  /** The scan for a zero byte reads `n` bytes that are not zero and cannot read the next one. */
  ghost predicate ScanStops(cells: map<int, byte>, regions: seq<Region>, source: u64, n: nat, why: Coverage) {
    && n < MAX_NUL_SCAN
    && (forall a | source <= a < source + n :: Accessible(regions, a, false) && a in cells && cells[a] != 0)
    && match why
       case Covered => false
       case NullStart => false
       case NoncanonicalStart => source + n <= MAX_U64 && !Canonical(source + n)
       case RangeOverflow => source + n >= MAX_U64
       case Inaccessible => Refused(regions, source + n, false)
  }

  ghost predicate SourceRefused(cells: map<int, byte>, regions: seq<Region>, source: u64, count: int, why: Coverage) {
    if why == NullStart then source == 0
    else if count > 0 then source != 0 && RangeRefused(regions, source, count, false, why)
    else source != 0 && (exists n :: ScanStops(cells, regions, source, n, why))
  }

  // ---- Bytes in memory ----

  ghost predicate Mapped(cells: map<int, byte>, start: int, length: nat) {
    forall a | start <= a < start + length :: a in cells
  }

  ghost function BytesAt(cells: map<int, byte>, start: int, length: nat): (s: seq<byte>)
    requires Mapped(cells, start, length)
    ensures |s| == length && forall i | 0 <= i < length :: s[i] == cells[start + i]
  {
    seq(length, i requires 0 <= i < length && start + i in cells => cells[start + i])
  }

  /** The caller's regions describe memory that is there. */
  ghost predicate Backed(cells: map<int, byte>, regions: seq<Region>) {
    forall a | Accessible(regions, a, false) :: a in cells
  }

  lemma BackedRange(cells: map<int, byte>, regions: seq<Region>, start: int, length: nat, write: bool)
    requires Backed(cells, regions)
    requires forall a | start <= a < start + length :: Accessible(regions, a, write)
    ensures Mapped(cells, start, length)
  {
    forall a | start <= a < start + length
      ensures a in cells
    {
      assert Accessible(regions, a, write);
      var i :| 0 <= i < |regions| && regions[i].Holds(a) && regions[i].Permits(write);
      assert regions[i].Permits(false);
      assert Accessible(regions, a, false);
    }
  }

  /** A UTF-16 unit stored low byte first. */
  ghost predicate UnitAt(cells: map<int, byte>, a: int, u: unit) {
    a in cells && a + 1 in cells && cells[a] == u as int % 0x100 && cells[a + 1] == u as int / 0x100
  }

  lemma LowByteFirst(cells: map<int, byte>, a: int, u: unit)
    requires a in cells && a + 1 in cells
    ensures UnitAt(cells, a, u) <==> cells[a] as int + 0x100 * cells[a + 1] as int == u as int
  {
  }

  ghost predicate Written(cells: map<int, byte>, destination: int, units: seq<unit>) {
    forall i | 0 <= i < |units| :: UnitAt(cells, destination + 2 * i, units[i])
  }

  ghost predicate SameOutside(before: map<int, byte>, after: map<int, byte>, low: int, high: int) {
    before.Keys == after.Keys && forall a | a in before && !(low <= a < high) :: after[a] == before[a]
  }

  // ---- The conversion ----

  /** What decode_one answers: a character number and how many bytes it took. */
  datatype Char = Char(value: int, consumed: nat)

  /** Units written after those already there leave them as they are. */
  lemma WrittenMore(before: map<int, byte>, after: map<int, byte>, destination: int, units: seq<unit>, more: seq<unit>)
    requires Written(before, destination, units) && Written(after, destination + 2 * |units|, more)
    requires SameOutside(before, after, destination + 2 * |units|, destination + 2 * (|units| + |more|))
    ensures Written(after, destination, units + more)
  {
  }

  /** Bytes outside the range written keep their values. */
  lemma SameBytes(before: map<int, byte>, after: map<int, byte>, start: int, length: nat, low: int, high: int)
    requires Mapped(before, start, length) && SameOutside(before, after, low, high)
    requires forall a | low <= a < high :: !Within(a, start, length)
    ensures Mapped(after, start, length) && BytesAt(after, start, length) == BytesAt(before, start, length)
  {
    forall a | start <= a < start + length
      ensures a in after && after[a] == before[a]
    {
      assert Within(a, start, length);
    }
  }

  lemma CharWidth(cp: int)
    requires Scalar(cp)
    ensures |Utf16(cp)| == (if cp > 0xFFFF then 2 else 1) <= |Encode(cp)|
  {
  }

  /** One more decoded character extends the text by it. */
  lemma NextChar(s: seq<byte>, text: seq<int>, c: Char)
    requires Scalars(text) && |EncodeAll(text)| < |s| && EncodeAll(text) == s[..|EncodeAll(text)|]
    requires |EncodeAll(text)| + c.consumed <= |s| && Utf8Char(s[|EncodeAll(text)|..][..c.consumed])
    requires c.value == Value(s[|EncodeAll(text)|..][..c.consumed])
    ensures c.consumed > 0 && Scalar(c.value) && Scalars(text + [c.value])
    ensures EncodeAll(text + [c.value]) == s[..|EncodeAll(text)| + c.consumed]
    ensures Utf16All(text + [c.value]) == Utf16All(text) + Utf16(c.value)
    ensures |Utf16(c.value)| == (if c.value > 0xFFFF then 2 else 1) <= c.consumed
  {
    hide Utf8Char, Encode, Utf16, EncodeAll, Utf16All, Value;
    var k := |EncodeAll(text)|;
    var piece := s[k..][..c.consumed];
    CharIsEncoded(piece);
    CharWidth(c.value);
    AppendOne(text, c.value);
    assert s[..k] + piece == s[..k + c.consumed];
  }

  lemma {:induction false} PrefixUnits(a: seq<int>, b: seq<int>)
    requires Scalars(a) && Scalars(b) && a <= b
    ensures |Utf16All(a)| <= |Utf16All(b)|
  {
    if a != [] {
      assert a[1..] <= b[1..];
      PrefixUnits(a[1..], b[1..]);
    }
  }

  /** The limits that the first byte sets for the second. */
  predicate SecondFits(first: int, second: byte) {
    && (first == 0xE0 ==> second >= 0xA0) && (first == 0xED ==> second <= 0x9F)
    && (first == 0xF0 ==> second >= 0x90) && (first == 0xF4 ==> second <= 0x8F)
  }

  /** The first byte of a UTF8-char gives its length, and a char needs its tails and second byte right. */
  lemma FirstByte(rest: seq<byte>)
    requires rest != []
    ensures forall n | 0 <= n <= |rest| && Utf8Char(rest[..n]) ::
              && n == (if rest[0] <= 0x7F then 1 else if rest[0] <= 0xDF then 2 else if rest[0] <= 0xEF then 3 else 4)
              && (rest[0] <= 0x7F || 0xC2 <= rest[0] <= 0xF4)
              && (forall k | 1 <= k < n :: Tail(rest[k])) && (n > 1 ==> SecondFits(rest[0], rest[1]))
    ensures rest[0] <= 0x7F ==> Utf8Char(rest[..1]) && Value(rest[..1]) == rest[0]
  {
  }

  lemma IsChar(rest: seq<byte>, n: nat)
    requires 2 <= n <= 4 && n <= |rest|
    requires n == if rest[0] <= 0xDF then 2 else if rest[0] <= 0xEF then 3 else 4
    requires 0xC2 <= rest[0] <= 0xF4 && SecondFits(rest[0], rest[1])
    requires forall k | 1 <= k < n :: Tail(rest[k])
    ensures Utf8Char(rest[..n])
    ensures Scalar(Value(rest[..n]))
    ensures Value(rest[..n]) >= if n == 2 then 0x80 else if n == 3 then 0x800 else 0x1_0000
    ensures var lead: int := rest[0];
            Value(rest[..n]) ==
              if n == 2 then lead % 0x20 * 0x40 + Six(rest[1])
              else if n == 3 then (lead % 0x10 * 0x40 + Six(rest[1])) * 0x40 + Six(rest[2])
              else ((lead % 8 * 0x40 + Six(rest[1])) * 0x40 + Six(rest[2])) * 0x40 + Six(rest[3])
  {
    CharIsEncoded(rest[..n]);
  }

  class Machine {
    var cells: map<int, byte>
    var lastError: nat

    constructor (memory: map<int, byte>, error: nat)
      ensures cells == memory && lastError == error
    {
      cells, lastError := memory, error;
    }

    /** decode_one: the UTF8-char that starts at `offset`, if one does. */
    method DecodeOne(source: int, length: nat, offset: nat) returns (r: Option<Char>)
      requires Mapped(cells, source, length)
      ensures offset >= length ==> r == None
      ensures offset < length && r == None ==>
                forall n | 0 <= n <= length - offset :: !Utf8Char(BytesAt(cells, source, length)[offset..][..n])
      ensures r.Some? ==>
                && offset < length && offset + r.value.consumed <= length
                && Utf8Char(BytesAt(cells, source, length)[offset..][..r.value.consumed])
                && r.value.value == Value(BytesAt(cells, source, length)[offset..][..r.value.consumed])
    {
      hide Utf8Char, Value;
      ghost var s := BytesAt(cells, source, length);
      if offset >= length {
        return None;
      }
      ghost var rest := s[offset..];
      var first: int := cells[source + offset];
      FirstByte(rest);
      if first <= 0x7F {
        return Some(Char(first, 1));
      }
      var count, value := 0, 0;
      if 0xC2 <= first <= 0xDF {
        count, value := 2, first % 0x20;
      } else if 0xE0 <= first <= 0xEF {
        count, value := 3, first % 0x10;
      } else if 0xF0 <= first <= 0xF4 {
        count, value := 4, first % 8;
      } else {
        return None;
      }
      if count > length - offset {
        return None;
      }
      ghost var lead := value;
      var index := 1;
      while index != count
        invariant 1 <= index <= count <= |rest|
        invariant forall k | 1 <= k < index :: Tail(rest[k])
        invariant index > 1 ==> SecondFits(first, rest[1])
        invariant index == 1 ==> value == lead
        invariant index == 2 ==> value == lead * 0x40 + Six(rest[1])
        invariant index == 3 ==> value == (lead * 0x40 + Six(rest[1])) * 0x40 + Six(rest[2])
        invariant index == 4 ==> value == ((lead * 0x40 + Six(rest[1])) * 0x40 + Six(rest[2])) * 0x40 + Six(rest[3])
      {
        var continuation: int := cells[source + offset + index];
        assert rest[index] == continuation;
        if continuation / 0x40 != 2 {
          return None;
        }
        if index == 1 && ((first == 0xE0 && continuation < 0xA0) || (first == 0xED && continuation > 0x9F)
                          || (first == 0xF0 && continuation < 0x90) || (first == 0xF4 && continuation > 0x8F)) {
          return None;
        }
        value := value * 0x40 + continuation % 0x40;
        index := index + 1;
      }
      IsChar(rest, count);
      if value < (if count == 2 then 0x80 else if count == 3 then 0x800 else 0x1_0000)
         || value > 0x10_FFFF || 0xD800 <= value <= 0xDFFF {
        return None;
      }
      return Some(Char(value, count));
    }

    /**
     * source_byte_range: `count` bytes, or up to and including the first zero byte when `count` is
     * not positive.
     */
    method SourceRange(regions: seq<Region>, source: u64, count: int) returns (status: Status, length: nat)
      requires Backed(cells, regions)
      ensures status == Ok ==>
                && source != 0 && Canonical(source) && 0 < length
                && Mapped(cells, source, length) && source + length <= MAX_U64 + 1
                && (forall a | source <= a < source + length :: Accessible(regions, a, false))
      ensures status == Ok && count > 0 ==> length == count && source + length <= MAX_U64
      ensures status == Ok && count <= 0 ==>
                && length <= MAX_NUL_SCAN && cells[source + length - 1] == 0
                && forall a | source <= a < source + length - 1 :: cells[a] != 0
      ensures status == Source(NullStart) <==> source == 0
      ensures source != 0 && !Canonical(source) ==> status == Source(NoncanonicalStart)
      ensures status.Source? ==> SourceRefused(cells, regions, source, count, status.why)
      ensures status == UnterminatedSource ==>
                && count <= 0
                && forall a | source <= a < source + MAX_NUL_SCAN :: a in cells && cells[a] != 0
      ensures status.Ok? || status.UnterminatedSource? || (status.Source? && status.why != Covered)
    {
      length := 0;
      if source == 0 {
        return Source(NullStart), 0;
      }
      if !Canonical(source) {
        assert ScanStops(cells, regions, source, 0, NoncanonicalStart);
        return Source(NoncanonicalStart), 0;
      }
      if count > 0 {
        var covered := RangeCovered(regions, source, count, false);
        if covered != Covered {
          return Source(covered), 0;
        }
        BackedRange(cells, regions, source, count, false);
        return Ok, count;
      }
      var index := 0;
      while index != MAX_NUL_SCAN
        invariant 0 <= index <= MAX_NUL_SCAN
        invariant forall a | source <= a < source + index :: Accessible(regions, a, false)
        invariant forall a | source <= a < source + index :: a in cells && cells[a] != 0
      {
        if index > MAX_U64 - source {
          assert ScanStops(cells, regions, source, index, RangeOverflow);
          return Source(RangeOverflow), 0;
        }
        var address: u64 := source + index;
        var covered := RangeCovered(regions, address, 1, false);
        if covered != Covered {
          assert ScanStops(cells, regions, source, index, covered);
          return Source(covered), 0;
        }
        BackedRange(cells, regions, address, 1, false);
        if cells[address] == 0 {
          return Ok, index + 1;
        }
        index := index + 1;
      }
      return UnterminatedSource, 0;
    }

    /** The counting pass. */
    method CountUnits(source: int, length: nat) returns (status: Status, units: nat, ghost text: seq<int>)
      requires Mapped(cells, source, length) && length <= MAX_U64
      ensures status == Ok || status == InvalidUtf8
      ensures status == Ok <==> Utf8Octets(BytesAt(cells, source, length))
      ensures status == Ok ==>
                && Scalars(text) && EncodeAll(text) == BytesAt(cells, source, length)
                && units == |Utf16All(text)| <= length
    {
      hide Utf8Char, Encode, Utf16, Value, Utf8Octets;
      ghost var s := BytesAt(cells, source, length);
      var offset := 0;
      units, text := 0, [];
      while offset != length
        invariant 0 <= offset <= length && Scalars(text)
        invariant EncodeAll(text) == s[..offset] && units == |Utf16All(text)| <= offset
      {
        var r := DecodeOne(source, length, offset);
        if r == None {
          StuckIsIllFormed(s, text);
          return InvalidUtf8, units, text;
        }
        NextChar(s, text, r.value);
        var width := if r.value.value > 0xFFFF then 2 else 1;
        if units > MAX_U64 - width {
          status := SizeOverflow;
          return;
        }
        units := units + width;
        offset := offset + r.value.consumed;
        text := text + [r.value.value];
      }
      assert s[..offset] == s;
      WellFormedIsEncoded(s);
      status := Ok;
    }

    /** The writing pass: two bytes for each unit, from the destination on. */
    method WriteUnits(source: int, length: nat, destination: int, capacity: nat, ghost text: seq<int>)
      returns (status: Status, units: nat)
      requires Mapped(cells, source, length) && Mapped(cells, destination, 2 * capacity)
      requires Scalars(text) && EncodeAll(text) == BytesAt(cells, source, length) && |Utf16All(text)| <= capacity
      requires forall a :: !(Within(a, source, length) && Within(a, destination, 2 * capacity))
      modifies `cells
      ensures status == Ok && units == |Utf16All(text)|
      ensures Written(cells, destination, Utf16All(text))
      ensures SameOutside(old(cells), cells, destination, destination + 2 * units)
    {
      hide Utf8Char, Encode, Utf16, Value, Utf8Octets;
      ghost var s := BytesAt(cells, source, length);
      var offset := 0;
      units := 0;
      ghost var done: seq<int> := [];
      while offset != length
        invariant 0 <= offset <= length && Scalars(done)
        invariant EncodeAll(done) == s[..offset] && units == |Utf16All(done)| <= capacity
        invariant Written(cells, destination, Utf16All(done))
        invariant SameOutside(old(cells), cells, destination, destination + 2 * units)
        invariant Mapped(cells, source, length) && BytesAt(cells, source, length) == s
      {
        var r := DecodeOne(source, length, offset);
        if r == None {
          WellFormedIsEncoded(s);
          StuckIsIllFormed(s, done);
          status := InvalidUtf8;
          return;
        }
        NextChar(s, done, r.value);
        ghost var longer := done + [r.value.value];
        assert s[..offset + r.value.consumed] <= s;
        PrefixCode(longer, text);
        PrefixUnits(longer, text);
        ghost var before := cells;
        var stored := StoreChar(destination + 2 * units, r.value.value);
        WrittenMore(before, cells, destination, Utf16All(done), Utf16(r.value.value));
        SameBytes(before, cells, source, length, destination + 2 * units, destination + 2 * (units + stored));
        units := units + stored;
        offset := offset + r.value.consumed;
        done := longer;
      }
      assert s[..offset] == s;
      UniqueText(done, text);
      status := Ok;
    }

    /** One unit, or a surrogate pair. */
    method StoreChar(a: int, cp: int) returns (stored: nat)
      requires Scalar(cp) && Mapped(cells, a, 2 * |Utf16(cp)|)
      modifies `cells
      ensures stored == |Utf16(cp)|
      ensures Written(cells, a, Utf16(cp)) && SameOutside(old(cells), cells, a, a + 2 * stored)
    {
      if cp <= 0xFFFF {
        StoreUnit(a, cp);
        stored := 1;
      } else {
        var adjusted := cp - 0x1_0000;
        StoreUnit(a, 0xD800 + adjusted / 0x400);
        StoreUnit(a + 2, 0xDC00 + adjusted % 0x400);
        stored := 2;
      }
    }

    method StoreUnit(a: int, u: unit)
      requires a in cells && a + 1 in cells
      modifies `cells
      ensures UnitAt(cells, a, u) && SameOutside(old(cells), cells, a, a + 2)
    {
      cells := cells[a := u as int % 0x100][a + 1 := u as int / 0x100];
    }

    /** The checks on the destination arguments. */
    method CheckDestination(regions: seq<Region>, destination: u64, capacity: int) returns (status: Status)
      requires Backed(cells, regions)
      ensures status == Ok <==> status != NullDestination && status != InvalidByteCount && !status.Destination?
      ensures status == NullDestination <==> destination == 0 && capacity != 0
      ensures status == InvalidByteCount <==> destination != 0 && capacity <= 0
      ensures status == Ok && destination != 0 ==> Mapped(cells, destination, 2 * capacity)
      ensures status.Destination? ==>
                destination != 0 && capacity > 0 && RangeRefused(regions, destination, 2 * capacity, true, status.why)
      ensures destination != 0 && capacity > 0 && (!Canonical(destination) || destination + 2 * capacity > MAX_U64) ==>
                status.Destination?
    {
      if destination == 0 {
        return if capacity != 0 then NullDestination else Ok;
      }
      if capacity <= 0 {
        return InvalidByteCount;
      }
      var covered := RangeCovered(regions, destination, 2 * capacity, true);
      if covered != Covered {
        return Destination(covered);
      }
      BackedRange(cells, regions, destination, 2 * capacity, true);
      return Ok;
    }

    /**
     * gxos_multibyte_to_wide_char_checked. On success the source bytes are well formed, the units are
     * those of the text they encode, and nothing else in memory has changed; on failure nothing has.
     */
    method Convert(codePage: nat, flags: nat, source: u64, count: int, destination: u64, capacity: int,
                   regions: seq<Region>, previousError: nat)
      returns (status: Status, units: nat, length: nat, ghost text: seq<int>)
      requires Backed(cells, regions) && count < 0x8000_0000 && capacity < 0x8000_0000
      modifies this
      ensures status == Ok ==> lastError == previousError
      ensures status != Ok ==> lastError == ErrorOf(status) && units == 0 && cells == old(cells)
      ensures status == InvalidUtf8 ==> lastError == 1113
      ensures status == InsufficientBuffer ==> lastError == 122
      ensures status != Ok && status != InvalidUtf8 && status != InsufficientBuffer ==> lastError == 87
      ensures status == InvalidContext <==> !ContextOk(regions)
      ensures status == InvalidCodePage <==> ContextOk(regions) && codePage != CP_UTF8
      ensures status == InvalidFlags <==>
                ContextOk(regions) && codePage == CP_UTF8 && flags != 0 && flags != MB_ERR_INVALID_CHARS
      ensures status == InvalidByteCount <==>
                Asked(regions, codePage, flags) && (count == 0 || count < -1 || (destination != 0 && capacity <= 0))
      ensures status == NullDestination <==>
                Asked(regions, codePage, flags) && (count > 0 || count == -1) && destination == 0 && capacity != 0
      ensures status.Destination? ==>
                && destination != 0 && capacity > 0 && (count > 0 || count == -1)
                && RangeRefused(regions, destination, 2 * capacity, true, status.why)
      ensures status.Source? ==>
                && (count > 0 || count == -1) && (destination == 0 ==> capacity == 0)
                && SourceRefused(old(cells), regions, source, count, status.why)
      ensures status == UnterminatedSource ==>
                && count == -1 && source != 0
                && forall a | source <= a < source + MAX_NUL_SCAN :: a in old(cells) && old(cells)[a] != 0
      ensures status == Ok ==> count > 0 || count == -1
      ensures status == Ok || status == InvalidUtf8 || status == InsufficientBuffer || status == Overlapping ==>
                && Mapped(old(cells), source, length) && 0 < length
                && (count > 0 ==> length == count)
                && (count <= 0 ==> old(cells)[source + length - 1] == 0
                                   && forall a | source <= a < source + length - 1 :: old(cells)[a] != 0)
      ensures status == Ok || status == InsufficientBuffer ==>
                && Utf8Octets(BytesAt(old(cells), source, length))
                && Scalars(text) && EncodeAll(text) == BytesAt(old(cells), source, length)
      ensures status == InvalidUtf8 ==> !Utf8Octets(BytesAt(old(cells), source, length))
      ensures status == InsufficientBuffer ==> destination != 0 && |Utf16All(text)| > capacity
      ensures status == Ok ==> units == |Utf16All(text)| <= length && Utf16Decode(Utf16All(text)) == text
      ensures status == Ok && destination == 0 ==> cells == old(cells) && capacity == 0
      ensures status == Ok && destination != 0 ==>
                && units <= capacity && Written(cells, destination, Utf16All(text))
                && SameOutside(old(cells), cells, destination, destination + 2 * units)
      ensures status == Overlapping ==>
                destination != 0 && capacity > 0 && Overlap(source, length, destination, 2 * capacity)
      ensures status != SizeOverflow
    {
      hide Utf8Octets, EncodeAll, Utf16All, SourceRefused, RangeRefused;
      units, length, text := 0, 0, [];
      var valid := CheckContext(regions);
      if !valid {
        status := InvalidContext;
      } else if codePage != CP_UTF8 {
        status := InvalidCodePage;
      } else if flags != 0 && flags != MB_ERR_INVALID_CHARS {
        status := InvalidFlags;
      } else if count == 0 || count < -1 {
        status := InvalidByteCount;
      } else {
        status := CheckDestination(regions, destination, capacity);
        if status == Ok {
          status, length := SourceRange(regions, source, count);
        }
        if status == Ok && destination != 0 && Overlap(source, length, destination, 2 * capacity) {
          status := Overlapping;
        } else if status == Ok {
          status, units, text := CountUnits(source, length);
          if status == Ok {
            Utf16RoundTrip(text);
            if units > 0x7FFF_FFFF {
              status := SizeOverflow;
            } else if destination != 0 && units > capacity {
              status := InsufficientBuffer;
            } else if destination != 0 {
              status, units := WriteUnits(source, length, destination, capacity, text);
            }
          }
        }
      }
      if status == Ok {
        lastError := previousError;
      } else {
        units, lastError := 0, ErrorOf(status);
      }
    }
  }
}
