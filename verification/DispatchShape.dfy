/** The words that spell a bounded dispatch, instruction by instruction, and that the matcher
    finds exactly those. */
module DispatchShape {
  import opened Options
  import opened Mips
  import opened JumpTable
  import Control
  import Dominance

  // ----- Instructions --------------------------------------------------------------------------------

  function SignExtended(h: Half): int {
    if h < 0x8000 then h else h - 0x1_0000
  }

  predicate Lui(w: Option<Instr>, rt: Reg) {
    w.Some? && w.value.op == 0x0F && w.value.rs == 0 && w.value.rt == rt
  }

  predicate Addiu(w: Option<Instr>, rt: Reg, rs: Reg) {
    w.Some? && w.value.op == 0x09 && w.value.rt == rt && w.value.rs == rs
  }

  predicate Sltiu(w: Option<Instr>, rt: Reg, rs: Reg, count: nat) {
    w.Some? && w.value.op == 0x0B && w.value.rt == rt && w.value.rs == rs && w.value.imm == count
  }

  /** `beq a, b, target` at `pc`. */
  predicate Beq(w: Option<Instr>, a: Reg, b: Reg, pc: int, target: int) {
    w.Some? && w.value.op == 0x04 && w.value.rs == a && w.value.rt == b && target == pc + 4 + 4 * SignExtended(w.value.imm)
  }

  predicate Sll(w: Option<Instr>, rd: Reg, rt: Reg, amount: nat) {
    w.Some? && w.value.op == 0 && w.value.fn == 0 && w.value.rs == 0 && w.value.rd == rd && w.value.rt == rt && w.value.sa == amount
  }

  predicate Addu(w: Option<Instr>, rd: Reg, rs: Reg, rt: Reg) {
    w.Some? && w.value.op == 0 && w.value.fn == 0x21 && w.value.sa == 0 && w.value.rd == rd && w.value.rs == rs && w.value.rt == rt
  }

  predicate Lw(w: Option<Instr>, rt: Reg, offset: int, rs: Reg) {
    w.Some? && w.value.op == 0x23 && w.value.rt == rt && w.value.rs == rs && SignExtended(w.value.imm) == offset
  }

  predicate IsZero(w: Option<Instr>) {
    w == Some(Instr(0, 0, 0, 0, 0, 0, 0, 0))
  }

  predicate Passive(w: Option<Instr>) {
    w.Some? ==> Control.TransferOf(w.value).NoTransfer?
  }

  // ----- The parts of a dispatch -----------------------------------------------------------------------

  /** Scale the index, add the table, load, and jump after at most one NOP. */
  predicate TailSpelled(image: Image, jrPc: int, jrRs: Reg, t: Tail) {
    && t.lwPc == (if IsZero(image(jrPc - 4)) then jrPc - 8 else jrPc - 4) && t.sllPc == t.lwPc - 8
    && Lw(image(t.lwPc), jrRs, t.offset, t.address) && t.address != 0
    && (Addu(image(t.lwPc - 4), t.address, t.scaled, t.table) || Addu(image(t.lwPc - 4), t.address, t.table, t.scaled))
    && Sll(image(t.sllPc), t.scaled, t.index, 2)
    && t.scaled != 0 && t.index != 0 && t.table != 0 && t.table != t.scaled
  }

  /** A LUI in the delay slot of the branch and an ADDIU behind it, which leave the index alone. */
  predicate PairScheduled(image: Image, jrPc: int, t: Tail) {
    && t.lwPc == jrPc - 8 && image(t.sllPc - 8).Some?
    && var half := image(t.sllPc - 8).value.rt;
       && half != 0 && Lui(image(t.sllPc - 8), half) && Addiu(image(t.sllPc - 4), t.table, half)
       && t.index != t.table && t.index != half
  }

  /** Compare the index with the count, and branch out of the suffix unless it is below. */
  predicate BoundSpelled(image: Image, entry: int, hardCap: int, jrPc: int, t: Tail, b: Bound) {
    && b.scheduled == !IsZero(image(t.sllPc - 4))
    && b.sltiuPc == t.sllPc - (if b.scheduled then 16 else 12) && b.branchPc == b.sltiuPc + 4
    && (b.scheduled ==> PairScheduled(image, jrPc, t))
    && Sltiu(image(b.sltiuPc), b.guard, t.index, b.count) && 1 <= b.count <= 511 && b.guard != 0 && b.guard != t.index
    && (Beq(image(b.branchPc), b.guard, 0, b.branchPc, b.reject) || Beq(image(b.branchPc), 0, b.guard, b.branchPc, b.reject))
    && entry <= b.sltiuPc && (entry + 4 <= b.sltiuPc ==> Passive(image(b.sltiuPc - 4)))
    && entry <= b.reject < hardCap
    && !((if b.scheduled then b.sltiuPc + 1 else t.sllPc) <= b.reject <= jrPc + 7)
  }

  /** The last word before `before` that writes the register, of the thirty-two there. */
  ghost predicate LastWriter(image: Image, entry: int, reg: Reg, before: int, pc: int) {
    && entry <= pc && before - 128 <= pc < before && (before - pc) % 4 == 0
    && image(pc).Some? && WritesGpr(image(pc).value, reg)
    && forall q :: pc < q < before && (before - q) % 4 == 0 ==> image(q).Some? && !WritesGpr(image(q).value, reg)
  }

  /** The table register is last written by a LUI, or by an ADDIU to what a LUI wrote last. */
  ghost predicate BaseSpelled(image: Image, entry: int, t: Tail, b: Base) {
    && LastWriter(image, entry, t.table, t.sllPc + 4, b.defPc) && image(b.constantPc).Some?
    && var high := 0x1_0000 * image(b.constantPc).value.imm;
       || (b.constantPc == b.defPc && Lui(image(b.defPc), t.table) && b.value == high)
       || (&& var half := image(b.defPc).value.rs;
           && half != 0 && Addiu(image(b.defPc), t.table, half)
           && LastWriter(image, entry, half, b.defPc, b.constantPc) && Lui(image(b.constantPc), half)
           && b.value == (high + SignExtended(image(b.defPc).value.imm)) % 0x1_0000_0000)
  }

  /** From the constant on only the bounds branch transfers, and nothing right before it does. */
  ghost predicate QuietSpelled(image: Image, entry: int, t: Tail, bound: Bound, base: Base) {
    && (bound.scheduled ==> base.constantPc == t.sllPc - 8 && base.defPc == t.sllPc - 4)
    && (forall q :: base.constantPc < q < t.sllPc && (q - base.constantPc) % 4 == 0 ==>
          image(q).Some? && (q == bound.branchPc || Passive(image(q))))
    && (!bound.scheduled && entry + 4 <= base.constantPc ==> Passive(image(base.constantPc - 4)))
  }

  // ----- The matcher finds them ------------------------------------------------------------------------

  lemma TailExactly(image: Image, jrPc: int, jrRs: Reg, t: Tail)
    ensures MatchTail(image, jrPc, jrRs) == Some(t) <==> TailSpelled(image, jrPc, jrRs, t)
  {
    if TailSpelled(image, jrPc, jrRs, t) {
      var addu := image(t.lwPc - 4).value;
      assert IsSum(addu, t.address) && IsLoad(image(t.lwPc).value, jrRs) && IsScale(image(t.sllPc).value);
    }
  }

  lemma PairExactly(image: Image, t: Tail, jrPc: int)
    ensures PairScheduled(image, jrPc, t) <==> t.lwPc == jrPc - 8 && IsScheduledBase(image, t)
  {
  }

  lemma PassiveExactly(i: Option<Instr>)
    ensures Passive(i) <==> (i.Some? ==> !IsControlFlow(i.value))
  {
    if i.Some? {
      Control.FlowWords(i.value);
    }
  }

  lemma BoundExactly(image: Image, entry: int, hardCap: int, jrPc: int, t: Tail, b: Bound)
    ensures MatchBound(image, entry, hardCap, jrPc, t) == Some(b) <==> BoundSpelled(image, entry, hardCap, jrPc, t, b)
  {
    PairExactly(image, t, jrPc);
    PassiveExactly(image(b.sltiuPc - 4));
  }

  lemma {:induction false} NearestExactly(image: Image, floor: int, from: int, reg: Reg, pc: int)
    ensures Nearest(image, floor, from, reg) == Some(pc) <==>
              && floor <= pc <= from && (from - pc) % 4 == 0 && image(pc).Some? && WritesGpr(image(pc).value, reg)
              && forall q :: pc < q <= from && (from - q) % 4 == 0 ==> image(q).Some? && !WritesGpr(image(q).value, reg)
    decreases from - floor
  {
    if from >= floor && image(from).Some? && !WritesGpr(image(from).value, reg) {
      NearestExactly(image, floor, from - 4, reg, pc);
    }
  }

  lemma WriterExactly(image: Image, entry: int, reg: Reg, before: int, pc: int)
    ensures Nearest(image, Floor(entry, before), before - 4, reg) == Some(pc) <==> LastWriter(image, entry, reg, before, pc)
  {
    NearestExactly(image, Floor(entry, before), before - 4, reg, pc);
  }

  lemma BaseExactly(image: Image, entry: int, t: Tail, b: Base)
    ensures BaseOf(image, entry, t) == Some(b) <==> BaseSpelled(image, entry, t, b)
  {
    WriterExactly(image, entry, t.table, t.sllPc + 4, b.defPc);
    if image(b.defPc).Some? {
      WriterExactly(image, entry, image(b.defPc).value.rs, b.defPc, b.constantPc);
    }
  }

  lemma ByFours(a: int, b: int)
    ensures Reaches(a, b) <==> a - 4 < b && (b - a + 4) % 4 == 0
  {
    if Reaches(a, b) {
      ReachesByFours(a, b);
    } else if a <= b && (b - a) % 4 == 0 {
      Dominance.FoursReach(a, b);
    }
  }

  lemma QuietExactly(image: Image, entry: int, t: Tail, bound: Bound, base: Base)
    requires bound.branchPc == t.sllPc - if bound.scheduled then 12 else 8
    ensures Undisturbed(image, entry, t, bound, base) <==> QuietSpelled(image, entry, t, bound, base)
  {
    PassiveExactly(image(base.constantPc - 4));
    forall q
      ensures PlainWord(image, q, bound.branchPc) <==> image(q).Some? && (q == bound.branchPc || Passive(image(q)))
    {
      PassiveExactly(image(q));
    }
    var first := base.constantPc + 4;
    forall q: int
      ensures Reaches(first, q) <==> base.constantPc < q && (q - base.constantPc) % 4 == 0
    {
      ByFours(first, q);
    }
  }

  /** All of it. */
  ghost predicate Spelled(image: Image, entry: int, hardCap: int, jrPc: int, jrRs: Reg, t: Tail, bound: Bound, base: Base) {
    && entry <= jrPc < hardCap && 1 <= jrRs <= 30 && image(jrPc) == Some(Decode(0x20_0000 * jrRs + 8))
    && TailSpelled(image, jrPc, jrRs, t) && BoundSpelled(image, entry, hardCap, jrPc, t, bound)
    && BaseSpelled(image, entry, t, base) && QuietSpelled(image, entry, t, bound, base)
  }

  lemma DispatchParts(image: Image, entry: int, hardCap: int, jrPc: int, jrRs: Reg, t: Tail, bound: Bound, base: Base)
    ensures DispatchOf(image, entry, hardCap, jrPc, jrRs) == Some((t, bound, base)) <==>
              && entry <= jrPc < hardCap && 1 <= jrRs <= 30 && image(jrPc) == Some(Decode(0x20_0000 * jrRs + 8))
              && MatchTail(image, jrPc, jrRs) == Some(t) && MatchBound(image, entry, hardCap, jrPc, t) == Some(bound)
              && BaseOf(image, entry, t) == Some(base) && Undisturbed(image, entry, t, bound, base)
  {
  }

  /** The matcher finds a dispatch exactly where the words spell it. */
  lemma DispatchExactly(image: Image, entry: int, hardCap: int, jrPc: int, jrRs: Reg, t: Tail, bound: Bound, base: Base)
    ensures DispatchOf(image, entry, hardCap, jrPc, jrRs) == Some((t, bound, base)) <==>
              Spelled(image, entry, hardCap, jrPc, jrRs, t, bound, base)
  {
    DispatchParts(image, entry, hardCap, jrPc, jrRs, t, bound, base);
    TailExactly(image, jrPc, jrRs, t);
    BoundExactly(image, entry, hardCap, jrPc, t, bound);
    BaseExactly(image, entry, t, base);
    if BoundSpelled(image, entry, hardCap, jrPc, t, bound) {
      QuietExactly(image, entry, t, bound, base);
    }
  }
}
