/** What an identity stands for: the bytes of its ranges in the capture, and code that the
    machine runs without leaving those bytes at a delay slot. */
module AuditRules {
  import opened Options
  import opened Manifest
  import opened Identity
  import Control
  import Crc32
  import Mips

  const PHYSICAL := 0x2000_0000

  /** The range lies in the capture. */
  predicate Inside(image: Image, s: Span) {
    var base, start := image.load % PHYSICAL, s.start % PHYSICAL;
    base <= start && start + s.length <= base + |image.data|
  }

  /** The guarded bytes of a range are those that the capture has at its addresses. */
  lemma BytesExact(image: Image, s: Span)
    requires Inside(image, s)
    ensures var bytes := Bytes(image, s);
            && |bytes| == s.length
            && forall k :: 0 <= k < s.length ==> bytes[k] == image.data[s.start % PHYSICAL - image.load % PHYSICAL + k]
  {
  }

  /** An identity is made exactly of ranges in the capture, and names the entry in the image's
      segment and the checksum of the bytes. */
  lemma ComputeExact(image: Image, entry: nat, ss: seq<Span>)
    requires image.load < 0x1_0000_0000
    ensures Compute(image, entry, ss).Some? <==> ss != [] && forall s :: s in ss ==> Inside(image, s)
    ensures Compute(image, entry, ss).Some? ==>
              var f := Compute(image, entry, ss).value;
              && f.ranges == ss && Starts(image, ss) && f.crc == Crc32.Crc(Guarded(image, ss)) as nat
              && f.entry % PHYSICAL == entry % PHYSICAL && f.entry / PHYSICAL == image.load / PHYSICAL
  {
    assert forall i :: 0 <= i < |ss| ==> (InCapture(image, ss[i]) <==> Inside(image, ss[i]));
    assert forall i :: 0 <= i < |ss| ==> ss[i] in ss;
    if Compute(image, entry, ss).Some? {
      ChainedIsCrc(image, ss);
      EntrySpelled(image.load, entry);
    }
  }

  lemma EntrySpelled(load: nat, entry: nat)
    requires load < 0x1_0000_0000
    ensures var e := entry % PHYSICAL + (load - load % PHYSICAL); e % PHYSICAL == entry % PHYSICAL && e / PHYSICAL == load / PHYSICAL
  {
    assert load - load % PHYSICAL == load / PHYSICAL * PHYSICAL;
  }

  // ----- The audit ---------------------------------------------------------------------------------

  function Raw(data: seq<bv8>): (r: seq<Mips.Byte>)
    ensures |r| == |data|
  {
    seq(|data|, k requires 0 <= k < |data| => data[k] as nat)
  }

  /** The word that the machine finds at a physical address. */
  function WordOf(image: Image, pc: nat): Option<Mips.Instr> {
    Mips.Captured(Raw(image.data), image.load % PHYSICAL)(pc)
  }

  predicate Transfers(i: Mips.Instr) {
    !Control.TransferOf(i).NoTransfer?
  }

  /** A transfer that recompiled code supports, or no branch at all. */
  predicate Supported(i: Mips.Instr) {
    if Transfers(i) then Mips.IsValid(i) && i.op != 0x12 else !((i.op == 0x10 || i.op == 0x13) && i.rs == 8)
  }

  lemma KindMeans(w: Mips.Word)
    ensures ControlKind(w) >= 0 <==> Supported(Mips.Decode(w))
    ensures ControlKind(w) > 0 <==> Supported(Mips.Decode(w)) && Transfers(Mips.Decode(w))
  {
    ControlKindMeans(w);
  }

  lemma SameWord(data: seq<bv8>, off: nat, w: Mips.Word)
    requires off + 4 <= |data|
    requires var raw := Raw(data); w == Mips.LittleEndian(raw[off], raw[off + 1], raw[off + 2], raw[off + 3])
    ensures WordAt(data, off) == w
  {
  }

  lemma WordRead(image: Image, pc: nat) returns (off: nat, w: Mips.Word)
    requires WordOf(image, pc).Some?
    ensures pc == image.load % PHYSICAL + off && off + 4 <= |image.data| && WordOf(image, pc) == Some(Mips.Decode(w))
    ensures var raw := Raw(image.data); w == Mips.LittleEndian(raw[off], raw[off + 1], raw[off + 2], raw[off + 3])
  {
    var raw := Raw(image.data);
    off := pc - image.load % PHYSICAL;
    w := Mips.LittleEndian(raw[off], raw[off + 1], raw[off + 2], raw[off + 3]);
  }

  lemma KindRead(image: Image, pc: nat, off: nat)
    requires pc == image.load % PHYSICAL + off && off + 4 <= |image.data|
    ensures KindsOf(image)(pc) == ControlKind(WordAt(image.data, off))
  {
    assert pc - Base(image) == off;
  }

  /** The audit's class of a word is what the machine makes of it. */
  lemma KindFound(image: Image, pc: nat)
    ensures var w := WordOf(image, pc);
            w.Some? ==>
              && (KindsOf(image)(pc) >= 0 <==> Supported(w.value))
              && (KindsOf(image)(pc) > 0 <==> Supported(w.value) && Transfers(w.value))
  {
    if WordOf(image, pc).Some? {
      var off, w := WordRead(image, pc);
      SameWord(image.data, off, w);
      KindRead(image, pc, off);
      KindMeans(w);
    }
  }

  /** A word of the ranges, starting at an aligned address. */
  ghost predicate CodeAt(ss: seq<Span>, pc: nat) {
    pc % 4 == 0 && exists s :: s in ss && Holds(s, pc)
  }

  predicate Holds(s: Span, pc: nat) {
    s.start % PHYSICAL <= pc && pc + 4 <= s.start % PHYSICAL + s.length
  }

  lemma CodeFound(ss: seq<Span>, pc: nat)
    ensures IsCode(ss, pc) <==> CodeAt(ss, pc)
  {
    if IsCode(ss, pc) {
      var i :| 0 <= i < |ss| && InSpan(ss[i], pc);
      assert ss[i] in ss && Holds(ss[i], pc);
    }
    if CodeAt(ss, pc) {
      var s :| s in ss && Holds(s, pc);
      var i :| 0 <= i < |ss| && ss[i] == s;
      assert InSpan(ss[i], pc);
    }
  }

  /** Every word is supported, and a transfer has a slot of the same code that does not transfer. */
  ghost predicate Sound(image: Image, ss: seq<Span>, pc: nat) {
    var w, slot := WordOf(image, pc), WordOf(image, pc + 4);
    && w.Some? && Supported(w.value)
    && (Transfers(w.value) ==> CodeAt(ss, pc + 4) && slot.Some? && !Transfers(slot.value))
  }

  ghost predicate WholeWords(image: Image, s: Span) {
    s.start % PHYSICAL % 4 == 0 && s.length % 4 == 0 && s.length > 0 && Inside(image, s)
  }

  lemma CodeCaptured(image: Image, ss: seq<Span>, pc: nat)
    requires AllPlaced(image, ss) && CodeAt(ss, pc)
    ensures WordOf(image, pc).Some?
  {
    var s :| s in ss && Holds(s, pc);
    var i :| 0 <= i < |ss| && ss[i] == s;
    assert Placed(image, ss[i]);
  }

  lemma WordDecided(image: Image, ss: seq<Span>, pc: nat)
    requires AllPlaced(image, ss) && CodeAt(ss, pc)
    requires CodeAt(ss, pc + 4) ==> KindsOf(image)(pc + 4) >= 0
    ensures SafeWord(KindsOf(image), ss, pc) && NotNested(KindsOf(image), ss, pc) <==> Sound(image, ss, pc)
  {
    CodeCaptured(image, ss, pc);
    KindFound(image, pc);
    KindFound(image, pc + 4);
    CodeFound(ss, pc + 4);
    if CodeAt(ss, pc + 4) {
      CodeCaptured(image, ss, pc + 4);
    }
  }

  lemma CleanIsSound(image: Image, ss: seq<Span>)
    requires AllPlaced(image, ss)
    ensures CleanWords(KindsOf(image), ss) <==> forall pc: nat :: CodeAt(ss, pc) ==> Sound(image, ss, pc)
  {
    var kind := KindsOf(image);
    if CleanWords(kind, ss) {
      forall pc: nat | CodeAt(ss, pc)
        ensures Sound(image, ss, pc)
      {
        CodeFound(ss, pc);
        CodeFound(ss, pc + 4);
        assert CodeAt(ss, pc + 4) ==> SafeWord(kind, ss, pc + 4);
        WordDecided(image, ss, pc);
      }
    }
    if forall pc: nat :: CodeAt(ss, pc) ==> Sound(image, ss, pc) {
      forall pc: nat | IsCode(ss, pc)
        ensures SafeWord(kind, ss, pc) && NotNested(kind, ss, pc)
      {
        CodeFound(ss, pc);
        assert CodeAt(ss, pc + 4) ==> Sound(image, ss, pc + 4);
        KindFound(image, pc + 4);
        WordDecided(image, ss, pc);
      }
    }
  }

  /** The audit passes exactly the ranges of whole captured words, at most sixteen, in which the
      machine never meets an unsupported branch, leaves at a delay slot or transfers in one. */
  lemma AuditExact(image: Image, ss: seq<Span>)
    ensures AuditClean(image, ss) <==>
              && |ss| <= 16 && (forall s :: s in ss ==> WholeWords(image, s))
              && forall pc: nat :: CodeAt(ss, pc) ==> Sound(image, ss, pc)
  {
    assert forall i :: 0 <= i < |ss| ==> (Placed(image, ss[i]) <==> WholeWords(image, ss[i]));
    assert forall i :: 0 <= i < |ss| ==> ss[i] in ss;
    assert AllPlaced(image, ss) <==> forall s :: s in ss ==> WholeWords(image, s);
    if AllPlaced(image, ss) {
      CleanIsSound(image, ss);
    }
  }
}
