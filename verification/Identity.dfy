/** Function identities: the checksum of the guarded bytes and the delay-slot audit decide
    whether compiled code may run over an image. */
module Identity {
  import opened Options
  import opened Manifest
  import opened Segments
  import Control
  import Crc32
  import Mips

  /** A captured image; `size` is the extent it is said to have. */
  datatype Image = Image(data: seq<bv8>, load: nat, size: nat)

  function Base(image: Image): nat {
    Phys(image.load)
  }

  // ----- The chained checksum --------------------------------------------------------------------

  /** Bytes from `off`, as many of `length` as there are. */
  function Clip(data: seq<bv8>, off: nat, length: nat): seq<bv8> {
    if off >= |data| then [] else if off + length > |data| then data[off..] else data[off..off + length]
  }

  /** A checksum taken further. */
  function Continue(crc: bv32, bytes: seq<bv8>): bv32 {
    Crc32.Complement(Crc32.Fold(Crc32.Complement(crc), bytes))
  }

  /** Every range starts at or after the image. */
  predicate Starts(image: Image, ss: seq<Span>) {
    forall i :: 0 <= i < |ss| ==> Base(image) <= Phys(ss[i].start)
  }

  function Bytes(image: Image, s: Span): seq<bv8>
    requires Base(image) <= Phys(s.start)
  {
    Clip(image.data, Phys(s.start) - Base(image), s.length)
  }

  function Parts(image: Image, ss: seq<Span>): (r: seq<seq<bv8>>)
    requires Starts(image, ss)
    ensures |r| == |ss| && forall i :: 0 <= i < |ss| ==> r[i] == Bytes(image, ss[i])
  {
    seq(|ss|, i requires 0 <= i < |ss| && Base(image) <= Phys(ss[i].start) => Bytes(image, ss[i]))
  }

  function Joined<D>(parts: seq<seq<D>>): seq<D> {
    if parts == [] then [] else parts[0] + Joined(parts[1..])
  }

  /** The bytes an identity guards, range after range. */
  function Guarded(image: Image, ss: seq<Span>): seq<bv8>
    requires Starts(image, ss)
  {
    Joined(Parts(image, ss))
  }

  /** The checksum taken over one range after another. */
  function Chained(image: Image, ss: seq<Span>): bv32
    requires Starts(image, ss)
  {
    Crc32.FoldLeft(Continue, 0, Parts(image, ss))
  }

  lemma EmptyCrc()
    ensures Crc32.Crc([]) == 0
  {
    assert Crc32.FoldLeft(Crc32.Feed, Crc32.ONES, []) == Crc32.ONES;
    assert Crc32.Complement(Crc32.ONES) == 0;
  }

  /** Folding a step that extends a hash hashes everything. */
  lemma {:induction false} FoldExtends<T, D>(step: (T, seq<D>) -> T, hash: seq<D> -> T, done: seq<D>, parts: seq<seq<D>>)
    requires forall x, y :: step(hash(x), y) == hash(x + y)
    ensures Crc32.FoldLeft(step, hash(done), parts) == hash(done + Joined(parts))
    decreases |parts|
  {
    if parts == [] {
      assert done + Joined(parts) == done;
    } else {
      FoldExtends(step, hash, done + parts[0], parts[1..]);
      assert done + parts[0] + Joined(parts[1..]) == done + Joined(parts);
    }
  }

  lemma ChainIsCrc(parts: seq<seq<bv8>>)
    ensures Crc32.FoldLeft(Continue, 0, parts) == Crc32.Crc(Joined(parts))
  {
    EmptyCrc();
    forall x, y
      ensures Continue(Crc32.Crc(x), y) == Crc32.Crc(x + y)
    {
      Crc32.CrcContinues(x, y);
    }
    FoldExtends(Continue, Crc32.Crc, [], parts);
    assert [] + Joined(parts) == Joined(parts);
  }

  /** Chaining over the ranges is the checksum of their bytes. */
  lemma ChainedIsCrc(image: Image, ss: seq<Span>)
    requires Starts(image, ss)
    ensures Chained(image, ss) == Crc32.Crc(Guarded(image, ss))
  {
    ChainIsCrc(Parts(image, ss));
  }

  /** A checksum as the manifest carries it. */
  function Number(c: bv32): nat {
    c as nat
  }

  lemma NumberBound(c: bv32)
    ensures Number(c) < ADDRESSES
  {
  }

  lemma Back(c: bv32)
    ensures (c as nat) as bv32 == c
  {
  }

  lemma NumberInjective(a: bv32, b: bv32)
    requires Number(a) == Number(b)
    ensures a == b
  {
    Back(a);
    Back(b);
  }

  // ----- The delay-slot audit ------------------------------------------------------------------

  /** 1 for a supported delayed transfer, 0 for an ordinary word, -1 for the rest. */
  function ControlKind(w: nat): int {
    var op, funct, rt, rs := w / 0x400_0000 % 64, w % 64, w / 0x1_0000 % 32, w / 0x20_0000 % 32;
    if op == 0 then if funct == 8 || funct == 9 then 1 else 0
    else if op == 1 then if rt == 0 || rt == 1 || rt == 16 || rt == 17 then 1 else -1
    else if op == 2 || op == 3 || 4 <= op <= 7 then 1
    else if 20 <= op <= 23 then -1
    else if 16 <= op <= 19 && rs == 8 then -1
    else 0
  }

  function WordAt(data: seq<bv8>, off: nat): nat
    requires off + 4 <= |data|
  {
    data[off] as nat + 256 * (data[off + 1] as nat) + 0x1_0000 * (data[off + 2] as nat)
    + 0x100_0000 * (data[off + 3] as nat)
  }

  lemma WordBound(data: seq<bv8>, off: nat)
    requires off + 4 <= |data|
    ensures WordAt(data, off) < Mips.TWO32
  {
  }

  /** The audit's classes against the CPU's transfers: a supported word is a transfer of the
      instruction set that no coprocessor decides, an ordinary word transfers nothing, and
      every other transfer is refused. */
  lemma ControlKindMeans(w: Mips.Word)
    ensures var i := Mips.Decode(w);
            var transfers := !Control.TransferOf(i).NoTransfer?;
            && (ControlKind(w) == 1 <==> transfers && Mips.IsValid(i) && i.op != 0x12)
            && (ControlKind(w) == 0 <==> !transfers && !((i.op == 0x10 || i.op == 0x13) && i.rs == 8))
            && (ControlKind(w) == -1 || ControlKind(w) == 0 || ControlKind(w) == 1)
  {
  }

  /** Aligned, at least one word, inside the capture. */
  predicate Placed(image: Image, s: Span) {
    && Phys(s.start) % 4 == 0 && s.length % 4 == 0 && s.length >= 4
    && Base(image) <= Phys(s.start) && Phys(s.start) - Base(image) + s.length <= |image.data|
  }

  predicate AllPlaced(image: Image, ss: seq<Span>) {
    forall i :: 0 <= i < |ss| ==> Placed(image, ss[i])
  }

  predicate InSpan(s: Span, pc: nat) {
    Phys(s.start) <= pc && pc + 4 <= Phys(s.start) + s.length
  }

  /** A whole word at `pc` lies in some range. */
  predicate HasWord(ss: seq<Span>, pc: nat) {
    exists i :: 0 <= i < |ss| && InSpan(ss[i], pc)
  }

  /** A word of the identity's code. */
  predicate IsCode(ss: seq<Span>, pc: nat) {
    pc % 4 == 0 && HasWord(ss, pc)
  }

  /** What the word at an address is; ordinary where the capture has none. */
  type Kinds = nat -> int

  function KindsOf(image: Image): Kinds {
    (pc: nat) =>
      if pc >= Base(image) && pc - Base(image) + 4 <= |image.data|
      then ControlKind(WordAt(image.data, pc - Base(image)))
      else 0
  }

  /** Supported, and a transfer has its delay slot guarded. */
  predicate SafeWord(kind: Kinds, ss: seq<Span>, pc: nat) {
    kind(pc) >= 0 && (kind(pc) > 0 ==> HasWord(ss, pc + 4))
  }

  /** The word after a transfer is not another transfer of the code. */
  predicate NotNested(kind: Kinds, ss: seq<Span>, pc: nat) {
    kind(pc) > 0 && HasWord(ss, pc + 4) ==> kind(pc + 4) <= 0
  }

  ghost predicate CleanWords(kind: Kinds, ss: seq<Span>) {
    forall pc: nat :: IsCode(ss, pc) ==> SafeWord(kind, ss, pc) && NotNested(kind, ss, pc)
  }

  /** No unsupported branch, every delay slot guarded, and no transfer in a delay slot. */
  ghost predicate AuditClean(image: Image, ss: seq<Span>) {
    |ss| <= MAX_RANGES && AllPlaced(image, ss) && CleanWords(KindsOf(image), ss)
  }

  // ----- Computing and accepting identities ------------------------------------------------------

  predicate InCapture(image: Image, s: Span) {
    Base(image) <= Phys(s.start) && Phys(s.start) - Base(image) + s.length <= |image.data|
  }

  /** The identity of code compiled from this image. */
  function Compute(image: Image, entry: nat, ss: seq<Span>): Option<Func> {
    if ss == [] || !(forall i :: 0 <= i < |ss| ==> InCapture(image, ss[i])) then None
    else Some(Func(Phys(entry) + SegmentOf(image.load), Number(Chained(image, ss)), ss))
  }

  predicate InExtent(image: Image, s: Span) {
    s.length > 0 && Base(image) <= Phys(s.start) && Phys(s.start) + s.length <= Base(image) + image.size
  }

  /** The identity may be used over this image. */
  ghost predicate Accepts(image: Image, f: Func) {
    && (forall i :: 0 <= i < |f.ranges| ==> InExtent(image, f.ranges[i]))
    && Number(Chained(image, f.ranges)) == f.crc % ADDRESSES
    && AuditClean(image, f.ranges)
  }

  // ----- Spelling does not matter ------------------------------------------------------------------

  /** Two lists of ranges over the same bytes. */
  predicate SameExtents(ss: seq<Span>, ts: seq<Span>) {
    |ss| == |ts| && forall i :: 0 <= i < |ss| ==> SameExtent(ss[i], ts[i])
  }

  predicate SameExtent(s: Span, t: Span) {
    Phys(t.start) == Phys(s.start) && t.length == s.length
  }

  lemma SpelledSame(ss: seq<Span>)
    ensures SameExtents(ss, SpelledAll(ss))
  {
    forall i | 0 <= i < |ss|
      ensures SameExtent(ss[i], SpelledAll(ss)[i])
    {
      assert (Phys(ss[i].start) + KSEG0) % SEGMENT_SIZE == Phys(ss[i].start);
    }
  }

  lemma SameParts(image: Image, ss: seq<Span>, ts: seq<Span>)
    requires SameExtents(ss, ts) && Starts(image, ss)
    ensures Starts(image, ts) && Parts(image, ts) == Parts(image, ss)
  {
    forall i | 0 <= i < |ts|
      ensures Base(image) <= Phys(ts[i].start) && Bytes(image, ts[i]) == Bytes(image, ss[i])
    {
      assert SameExtent(ss[i], ts[i]);
    }
  }

  lemma SameWords(ss: seq<Span>, ts: seq<Span>, pc: nat)
    requires SameExtents(ss, ts)
    ensures HasWord(ss, pc) == HasWord(ts, pc)
  {
    if HasWord(ss, pc) {
      var i :| 0 <= i < |ss| && InSpan(ss[i], pc);
      assert SameExtent(ss[i], ts[i]) && InSpan(ts[i], pc);
    }
    if HasWord(ts, pc) {
      var i :| 0 <= i < |ts| && InSpan(ts[i], pc);
      assert SameExtent(ss[i], ts[i]) && InSpan(ss[i], pc);
    }
  }

  lemma SamePlaced(image: Image, ss: seq<Span>, ts: seq<Span>)
    requires SameExtents(ss, ts) && AllPlaced(image, ss)
    ensures AllPlaced(image, ts)
  {
    forall i | 0 <= i < |ts|
      ensures Placed(image, ts[i])
    {
      assert SameExtent(ss[i], ts[i]) && Placed(image, ss[i]);
    }
  }

  lemma SameClean(kind: Kinds, ss: seq<Span>, ts: seq<Span>)
    requires SameExtents(ss, ts) && CleanWords(kind, ss)
    ensures CleanWords(kind, ts)
  {
    forall pc: nat | IsCode(ts, pc)
      ensures SafeWord(kind, ts, pc) && NotNested(kind, ts, pc)
    {
      SameWords(ss, ts, pc);
      SameWords(ss, ts, pc + 4);
      assert IsCode(ss, pc);
    }
  }

  lemma SameAudit(image: Image, ss: seq<Span>, ts: seq<Span>)
    requires SameExtents(ss, ts) && AuditClean(image, ss)
    ensures AuditClean(image, ts)
  {
    SamePlaced(image, ss, ts);
    SameClean(KindsOf(image), ss, ts);
  }

  // ----- From compilation to acceptance ------------------------------------------------------------

  /** An identity computed from an audited image is accepted over that image after its
      manifest was written and read. */
  lemma AcceptedAfterRoundTrip(image: Image, entry: nat, ss: seq<Span>, fs: seq<Func>, at: nat, pair: Option<nat>,
                               p: Option<string>, needPair: bool, expected: Option<nat>, seg: nat)
    requires image.size == |image.data| && Compute(image, entry, ss).Some? && AuditClean(image, ss)
    requires at < |fs| && fs[at] == Compute(image, entry, ss).value
    requires Representable(fs) && InOneSegment(fs, seg) && NamedSegment(seg) && KnownProvenance(p)
    requires forall i :: 0 <= i < |fs| ==> fs[i].entry < ADDRESSES
    requires (needPair ==> pair.Some?) && (expected.Some? ==> expected.value == seg)
    ensures Print(fs, pair, p).Some? && Parse(Print(fs, pair, p).value, needPair, expected).Some?
    ensures var read := Parse(Print(fs, pair, p).value, needPair, expected).value.funcs;
            |read| == |fs| && Accepts(image, read[at])
  {
    ParsePrint(fs, pair, p, needPair, expected, seg);
    CanonicalAccepted(image, entry, ss);
  }

  lemma CanonicalAccepted(image: Image, entry: nat, ss: seq<Span>)
    requires image.size == |image.data| && Compute(image, entry, ss).Some? && AuditClean(image, ss)
    ensures Accepts(image, Canonical(Compute(image, entry, ss).value))
  {
    var ts := SpelledAll(ss);
    SpelledSame(ss);
    SameAudit(image, ss, ts);
    forall i | 0 <= i < |ss|
      ensures InExtent(image, ts[i]) && Base(image) <= Phys(ss[i].start)
    {
      assert SameExtent(ss[i], ts[i]) && Placed(image, ss[i]);
    }
    SameParts(image, ss, ts);
    NumberBound(Chained(image, ss));
    Reduced(Number(Chained(image, ss)));
  }

  lemma Reduced(n: nat)
    requires n < ADDRESSES
    ensures n % ADDRESSES == n
  {
  }

  /** Over any image, acceptance of a computed identity means equal checksums of the guarded
      bytes, and a clean audit there. */
  lemma AcceptedOnlyIfEqual(image: Image, other: Image, entry: nat, ss: seq<Span>)
    requires Compute(image, entry, ss).Some? && Accepts(other, Canonical(Compute(image, entry, ss).value))
    ensures Starts(image, ss) && Starts(other, ss) && AuditClean(other, ss)
    ensures Crc32.Crc(Guarded(other, ss)) == Crc32.Crc(Guarded(image, ss))
  {
    var ts := SpelledAll(ss);
    SpelledSame(ss);
    SameBack(ss, ts);
    SameAudit(other, ts, ss);
    forall i | 0 <= i < |ss|
      ensures Base(image) <= Phys(ss[i].start) && Base(other) <= Phys(ts[i].start)
    {
      assert InCapture(image, ss[i]) && InExtent(other, ts[i]);
    }
    SameParts(other, ts, ss);
    SameNumbers(Chained(other, ss), Chained(image, ss));
    ChainedIsCrc(other, ss);
    ChainedIsCrc(image, ss);
  }

  lemma SameNumbers(a: bv32, b: bv32)
    requires Number(a) == Number(b) % ADDRESSES % ADDRESSES
    ensures a == b
  {
    NumberBound(b);
    Reduced(Number(b));
    NumberInjective(a, b);
  }

  lemma SameBack(ss: seq<Span>, ts: seq<Span>)
    requires SameExtents(ss, ts)
    ensures SameExtents(ts, ss)
  {
    forall i | 0 <= i < |ts|
      ensures SameExtent(ts[i], ss[i])
    {
      assert SameExtent(ss[i], ts[i]);
    }
  }

  /** ... and those, with the ranges inside the image's extent, are enough. */
  lemma AcceptedIfEqual(image: Image, other: Image, entry: nat, ss: seq<Span>)
    requires Compute(image, entry, ss).Some? && Starts(image, ss)
    requires (forall i :: 0 <= i < |ss| ==> InExtent(other, ss[i])) && Starts(other, ss) && AuditClean(other, ss)
    requires Crc32.Crc(Guarded(other, ss)) == Crc32.Crc(Guarded(image, ss))
    ensures Accepts(other, Canonical(Compute(image, entry, ss).value))
  {
    var ts := SpelledAll(ss);
    SpelledSame(ss);
    SameAudit(other, ss, ts);
    forall i | 0 <= i < |ts|
      ensures InExtent(other, ts[i])
    {
      assert SameExtent(ss[i], ts[i]) && InExtent(other, ss[i]);
    }
    SameParts(other, ss, ts);
    ChainedIsCrc(other, ss);
    ChainedIsCrc(image, ss);
    NumberBound(Chained(image, ss));
    Reduced(Number(Chained(image, ss)));
  }

  /** An image whose guarded bytes differ in one place only, up to four bytes wide, is
      refused. */
  lemma ChangedIsRefused(image: Image, other: Image, entry: nat, ss: seq<Span>, a: seq<bv8>, v: seq<bv8>, w: seq<bv8>,
                         b: seq<bv8>)
    requires Compute(image, entry, ss).Some? && Starts(image, ss) && Starts(other, ss)
    requires Guarded(image, ss) == a + v + b && Guarded(other, ss) == a + w + b
    requires |v| == 4 && |w| == 4 && v != w
    ensures !Accepts(other, Canonical(Compute(image, entry, ss).value))
  {
    if Accepts(other, Canonical(Compute(image, entry, ss).value)) {
      AcceptedOnlyIfEqual(image, other, entry, ss);
      Crc32.BurstDetected(a, v, w, b);
    }
  }

  // ----- The loops -------------------------------------------------------------------------------

  /** What a scan of the words `seen` knows: whether one was unsafe, and where the
      transfers are. */
  ghost predicate Reports(kind: Kinds, ss: seq<Span>, seen: set<nat>, errors: nat, controls: set<nat>) {
    && (errors == 0 <==> forall q :: q in seen ==> SafeWord(kind, ss, q))
    && forall q :: q in controls <==> q in seen && kind(q) > 0
  }

  lemma ReportsNext(kind: Kinds, ss: seq<Span>, seen: set<nat>, errors: nat, controls: set<nat>, pc: nat)
    requires Reports(kind, ss, seen, errors, controls)
    ensures Reports(kind, ss, seen + {pc}, if SafeWord(kind, ss, pc) then errors else errors + 1,
                    if kind(pc) > 0 then controls + {pc} else controls)
  {
  }

  /** One word. */
  method ScanWord(image: Image, ss: seq<Span>, pc: nat, errors0: nat, controls0: set<nat>, ghost seen: set<nat>,
                  ghost kinds: Kinds)
    returns (errors: nat, controls: set<nat>)
    requires kinds == KindsOf(image) && Reports(kinds, ss, seen, errors0, controls0)
    requires Base(image) <= pc && pc - Base(image) + 4 <= |image.data|
    ensures Reports(kinds, ss, seen + {pc}, errors, controls)
  {
    ReportsNext(kinds, ss, seen, errors0, controls0, pc);
    errors, controls := errors0, controls0;
    var kind := ControlKind(WordAt(image.data, pc - Base(image)));
    assert kind == kinds(pc);
    if kind < 0 {
      errors := errors + 1;
    } else if kind > 0 {
      controls := controls + {pc};
      if !HasWord(ss, pc + 4) {
        errors := errors + 1;
      }
    }
  }

  /** The words from `lo` on, `n` of them. */
  ghost function Words(lo: nat, n: nat): set<nat> {
    if n == 0 then {} else Words(lo, n - 1) + {lo + 4 * (n - 1)}
  }

  lemma {:induction false} WordsExact(lo: nat, n: nat, q: nat)
    requires lo % 4 == 0
    ensures q in Words(lo, n) <==> q % 4 == 0 && lo <= q < lo + 4 * n
    decreases n
  {
    if n > 0 {
      WordsExact(lo, n - 1, q);
    }
  }

  lemma SpanWords(image: Image, s: Span, q: nat)
    requires Placed(image, s)
    ensures q in Words(Phys(s.start), s.length / 4) <==> q % 4 == 0 && InSpan(s, q)
  {
    WordsExact(Phys(s.start), s.length / 4, q);
  }

  /** Word `k` of a range lies in the capture. */
  lemma WordPlaced(image: Image, ss: seq<Span>, i: nat, k: nat, pc: nat)
    requires i < |ss| && AllPlaced(image, ss) && k < ss[i].length / 4 && pc == Phys(ss[i].start) + 4 * k
    ensures HasWord(ss, pc) && Base(image) <= pc && pc - Base(image) + 4 <= |image.data|
  {
    assert Placed(image, ss[i]);
    assert InSpan(ss[i], pc);
  }

  lemma WordsSnoc(seen0: set<nat>, lo: nat, k: nat, pc: nat)
    requires pc == lo + 4 * k
    ensures seen0 + Words(lo, k) + {pc} == seen0 + Words(lo, k + 1)
  {
  }

  /** The words of one range, in order. */
  method ScanRange(image: Image, ss: seq<Span>, i: nat, errors0: nat, controls0: set<nat>, ghost seen0: set<nat>,
                   ghost kinds: Kinds)
    returns (errors: nat, controls: set<nat>, ghost seen: set<nat>)
    requires i < |ss| && AllPlaced(image, ss) && kinds == KindsOf(image)
    requires Reports(kinds, ss, seen0, errors0, controls0)
    ensures Reports(kinds, ss, seen, errors, controls)
    ensures forall q :: q in seen <==> q in seen0 || (q % 4 == 0 && InSpan(ss[i], q))
  {
    errors, controls, seen := errors0, controls0, seen0;
    var s := ss[i];
    var lo := Phys(s.start);
    for k := 0 to s.length / 4
      invariant Reports(kinds, ss, seen, errors, controls) && seen == seen0 + Words(lo, k)
    {
      var pc := lo + 4 * k;
      WordPlaced(image, ss, i, k, pc);
      errors, controls := ScanWord(image, ss, pc, errors, controls, seen, kinds);
      WordsSnoc(seen0, lo, k, pc);
      seen := seen + {pc};
    }
    RangeSeen(image, ss, i, seen0);
  }

  lemma RangeSeen(image: Image, ss: seq<Span>, i: nat, seen0: set<nat>)
    requires i < |ss| && AllPlaced(image, ss)
    ensures forall q :: q in seen0 + Words(Phys(ss[i].start), ss[i].length / 4)
                        <==> q in seen0 || (q % 4 == 0 && InSpan(ss[i], q))
  {
    assert Placed(image, ss[i]);
    forall q: nat
      ensures q in Words(Phys(ss[i].start), ss[i].length / 4) <==> q % 4 == 0 && InSpan(ss[i], q)
    {
      SpanWords(image, ss[i], q);
    }
  }

  lemma WordsNext(ss: seq<Span>, i: nat, q: nat)
    requires i < |ss|
    ensures IsCode(ss[..i + 1], q) <==> IsCode(ss[..i], q) || (q % 4 == 0 && InSpan(ss[i], q))
  {
    var longer, shorter := ss[..i + 1], ss[..i];
    if HasWord(shorter, q) {
      var j :| 0 <= j < i && InSpan(shorter[j], q);
      assert InSpan(longer[j], q);
    }
    if InSpan(ss[i], q) {
      assert InSpan(longer[i], q);
    }
    if HasWord(longer, q) {
      var j :| 0 <= j < i + 1 && InSpan(longer[j], q);
      assert j < i ==> InSpan(shorter[j], q);
    }
  }

  method ScanRanges(image: Image, ss: seq<Span>, ghost kinds: Kinds)
    returns (errors: nat, controls: set<nat>, ghost seen: set<nat>)
    requires AllPlaced(image, ss) && kinds == KindsOf(image)
    ensures Reports(kinds, ss, seen, errors, controls) && forall q :: q in seen <==> IsCode(ss, q)
  {
    errors, controls, seen := 0, {}, {};
    for i := 0 to |ss|
      invariant Reports(kinds, ss, seen, errors, controls)
      invariant forall q :: q in seen <==> IsCode(ss[..i], q)
    {
      errors, controls, seen := ScanRange(image, ss, i, errors, controls, seen, kinds);
      forall q: nat
        ensures IsCode(ss[..i + 1], q) <==> IsCode(ss[..i], q) || (q % 4 == 0 && InSpan(ss[i], q))
      {
        WordsNext(ss, i, q);
      }
    }
    assert ss[..|ss|] == ss;
  }

  predicate Followed(controls: set<nat>, pc: nat) {
    pc + 4 in controls
  }

  /** Count what makes the identity unsafe. */
  method AuditDelaySlots(image: Image, ss: seq<Span>) returns (errors: nat)
    ensures errors == 0 <==> AuditClean(image, ss)
  {
    if |ss| > MAX_RANGES {
      return 1;
    }
    for i := 0 to |ss|
      invariant forall j :: 0 <= j < i ==> Placed(image, ss[j])
    {
      if !Placed(image, ss[i]) {
        return 1;
      }
    }
    var controls: set<nat>;
    ghost var seen: set<nat>;
    errors, controls, seen := ScanRanges(image, ss, KindsOf(image));
    var nested := set pc | pc in controls && Followed(controls, pc);
    WordsDecided(KindsOf(image), ss, seen, errors, controls, nested);
    errors := errors + |nested|;
  }

  lemma WordsDecided(kind: Kinds, ss: seq<Span>, seen: set<nat>, errors: nat, controls: set<nat>, nested: set<nat>)
    requires Reports(kind, ss, seen, errors, controls)
    requires (forall q :: q in seen <==> IsCode(ss, q)) && nested == set pc | pc in controls && Followed(controls, pc)
    ensures errors + |nested| == 0 <==> CleanWords(kind, ss)
  {
    forall pc: nat | IsCode(ss, pc)
      ensures pc !in nested <==> NotNested(kind, ss, pc)
    {
      assert HasWord(ss, pc + 4) <==> IsCode(ss, pc + 4);
    }
    if CleanWords(kind, ss) {
      forall pc: nat
        ensures pc !in nested
      {
        assert pc in controls ==> IsCode(ss, pc) && NotNested(kind, ss, pc);
      }
      assert nested == {};
    }
  }

  /** `sum` is the value over the ranges `ss`. */
  ghost predicate Folded<T(!new)>(step: (T, seq<bv8>) -> T, zero: T, image: Image, ss: seq<Span>, sum: T) {
    Starts(image, ss) && sum == Crc32.FoldLeft(step, zero, Parts(image, ss))
  }

  lemma FoldSnoc<T(!new)>(step: (T, seq<bv8>) -> T, zero: T, image: Image, ss: seq<Span>, s: Span, sum: T)
    requires Folded(step, zero, image, ss, sum) && Base(image) <= Phys(s.start)
    ensures Folded(step, zero, image, ss + [s], step(sum, Bytes(image, s)))
  {
    var a, b := Parts(image, ss), [Bytes(image, s)];
    assert Parts(image, ss + [s]) == a + b;
    Crc32.FoldLeftConcat(step, zero, a, b);
    Crc32.OneLeft(step, Crc32.FoldLeft(step, zero, a), Bytes(image, s));
  }

  /** Take a value over the ranges in turn, while they stay inside the image. */
  method FoldRanges<T(!new)>(step: (T, seq<bv8>) -> T, zero: T, image: Image, ss: seq<Span>) returns (inside: bool, sum: T)
    ensures inside <==> forall i :: 0 <= i < |ss| ==> InExtent(image, ss[i])
    ensures inside ==> Starts(image, ss) && sum == Crc32.FoldLeft(step, zero, Parts(image, ss))
  {
    sum := zero;
    for i := 0 to |ss|
      invariant forall j :: 0 <= j < i ==> InExtent(image, ss[j])
      invariant Folded(step, zero, image, ss[..i], sum)
    {
      if !InExtent(image, ss[i]) {
        return false, zero;
      }
      FoldSnoc(step, zero, image, ss[..i], ss[i], sum);
      assert ss[..i + 1] == ss[..i] + [ss[i]];
      sum := step(sum, Bytes(image, ss[i]));
    }
    assert ss[..|ss|] == ss;
    inside := true;
  }

  /** Check one identity against an image. */
  method CheckIdentity(image: Image, f: Func) returns (ok: bool)
    ensures ok == Accepts(image, f)
  {
    var inside, crc := FoldRanges(Continue, 0, image, f.ranges);
    if !inside || Number(crc) != f.crc % ADDRESSES {
      return false;
    }
    var errors := AuditDelaySlots(image, f.ranges);
    ok := errors == 0;
  }

  /** The identities that hold over this image, in order. */
  ghost function Current(image: Image, fs: seq<Func>): seq<Func> {
    if fs == [] then []
    else Current(image, fs[..|fs| - 1]) + if Accepts(image, fs[|fs| - 1]) then [fs[|fs| - 1]] else []
  }

  method CurrentVariants(image: Image, fs: seq<Func>) returns (valid: seq<Func>)
    ensures valid == Current(image, fs)
  {
    valid := [];
    for i := 0 to |fs|
      invariant valid == Current(image, fs[..i])
    {
      assert fs[..i + 1][..i] == fs[..i];
      var ok := CheckIdentity(image, fs[i]);
      if ok {
        valid := valid + [fs[i]];
      }
    }
    assert fs[..|fs|] == fs;
  }
}
