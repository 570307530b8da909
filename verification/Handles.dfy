/**
 * Scheduler handles: the 64-bit code of (type, slot, generation), and how long a stale handle
 * stays harmless when a slot is reused.
 */
module Handles {
  import opened Words

  const MAX_OBJECTS: nat := 16

  datatype Kind = NoKind | ThreadKind | EventKind

  function TypeCode(kind: Kind): nat {
    match kind
    case NoKind => 0
    case ThreadKind => 1
    case EventKind => 2
  }

  datatype Decoded = Invalid | Reference(slot: nat, generation: nat)

  /** make_handle: magic in bits 56-63, type in 48-55, generation in 16-31, slot plus one in 0-15. */
  function MakeHandle(kind: Kind, slot: nat, generation: nat): u64
    requires slot < 0xFFFF && generation < 0x1_0000
  {
    0xA7 * 0x100_0000_0000_0000 + TypeCode(kind) * 0x1_0000_0000_0000 + generation * 0x1_0000 + (slot + 1)
  }

  /** decode_handle; bits 32-47 are not looked at. */
  function DecodeHandle(handle: u64, expected: Kind): (d: Decoded)
    ensures d.Reference? ==> d.slot < MAX_OBJECTS && 0 < d.generation < 0x1_0000
  {
    var magic := handle / 0x100_0000_0000_0000;
    var kind := handle / 0x1_0000_0000_0000 % 0x100;
    var slot := handle % 0x1_0000;
    var generation := handle / 0x1_0000 % 0x1_0000;
    if magic != 0xA7 || kind != TypeCode(expected) || slot == 0 || slot > MAX_OBJECTS || generation == 0
    then Invalid
    else Reference(slot - 1, generation)
  }

  lemma HandleRoundTrip(kind: Kind, slot: nat, generation: nat, expected: Kind)
    requires slot < MAX_OBJECTS && 0 < generation < 0x1_0000
    ensures DecodeHandle(MakeHandle(kind, slot, generation), expected)
         == if kind == expected then Reference(slot, generation) else Invalid
  {
    var h := MakeHandle(kind, slot, generation);
    var t := TypeCode(kind);
    assert h / 0x1_0000 == 0xA7 * 0x100_0000_0000 + t * 0x1_0000_0000 + generation;
    assert h / 0x1_0000_0000_0000 == 0xA700 + t;
    assert h / 0x100_0000_0000_0000 == 0xA7;
  }

  /** The code in bits: magic 0xA7, the type, the generation, and the slot counted from one. */
  lemma HandleBits()
    ensures MakeHandle(ThreadKind, 0, 1) == 0xA701_0000_0001_0001
    ensures MakeHandle(EventKind, 15, 0xFFFF) == 0xA702_0000_FFFF_0010
    ensures DecodeHandle(0xA702_0000_0003_0005, EventKind) == Reference(4, 3)
    ensures DecodeHandle(0xA602_0000_0003_0005, EventKind) == DecodeHandle(0xA702_0000_0003_0011, EventKind) == Invalid
  {
  }

  // ---- Generations ----

  /** The generation after the 16-bit increment that skips zero. */
  function NextGeneration(generation: nat): nat {
    var next := (generation + 1) % 0x1_0000;
    if next == 0 then 1 else next
  }

  /** The generation of the n-th object allocated in a slot; 0 before the first. */
  function GenerationOf(births: nat): (g: nat)
    ensures g < 0x1_0000 && (births > 0 ==> g > 0)
  {
    if births == 0 then 0 else (births - 1) % 0xFFFF + 1
  }

  lemma GenerationStep(births: nat)
    ensures NextGeneration(GenerationOf(births)) == GenerationOf(births + 1)
  {
  }

  /** Two allocations of a slot share a generation exactly when they are a multiple of 65535 apart. */
  lemma GenerationRepeats(a: nat, b: nat)
    requires 0 < a <= b
    ensures GenerationOf(a) == GenerationOf(b) <==> (b - a) % 0xFFFF == 0
  {
    var qa, ra := (a - 1) / 0xFFFF, (a - 1) % 0xFFFF;
    var qb, rb := (b - 1) / 0xFFFF, (b - 1) % 0xFFFF;
    assert b - a == 0xFFFF * (qb - qa) + (rb - ra);
    if ra <= rb {
      assert (b - a) % 0xFFFF == rb - ra;
    } else {
      assert b - a == 0xFFFF * (qb - qa - 1) + (0xFFFF + rb - ra);
      assert (b - a) % 0xFFFF == 0xFFFF + rb - ra;
    }
  }
}
