/** Guest addresses: 512 MiB segments that mirror one physical space. */
module Segments {
  const SEGMENT_SIZE := 0x2000_0000

  /** The physical part of a guest address. */
  function Phys(a: nat): nat {
    a % SEGMENT_SIZE
  }

  /** The address is spelled in the segment that starts at `seg`. */
  predicate InSegment(seg: nat, a: nat) {
    seg % SEGMENT_SIZE == 0 && seg <= a < seg + SEGMENT_SIZE
  }

  lemma SegmentAligned(seg: nat)
    requires seg % SEGMENT_SIZE == 0
    ensures seg % 4 == 0
  {
    assert seg == 4 * (seg / SEGMENT_SIZE * (SEGMENT_SIZE / 4));
  }

  lemma PhysIs(seg: nat, a: nat)
    requires InSegment(seg, a)
    ensures Phys(a) == a - seg
  {
    assert a == seg / SEGMENT_SIZE * SEGMENT_SIZE + (a - seg);
  }

  /** Distinct addresses of one segment have distinct physical parts. */
  lemma PhysInjective(seg: nat, a: nat, b: nat)
    requires InSegment(seg, a) && InSegment(seg, b) && Phys(a) == Phys(b)
    ensures a == b
  {
    PhysIs(seg, a);
    PhysIs(seg, b);
  }
}
