/** Bounded switch dispatch: the suffix matcher that proves which addresses a `jr` through
    a jump table can reach. */
module JumpTable {
  import opened Options
  import opened Mips
  import Control

  // ----- The suffix ------------------------------------------------------------------

  /** `sll scaled,index,2; addu address,scaled,table; lw target,offset(address); [nop;] jr` */
  datatype Tail = Tail(sllPc: int, lwPc: int, address: Reg, scaled: Reg, index: Reg, table: Reg, offset: int)

  const NOP := Instr(0, 0, 0, 0, 0, 0, 0, 0)   // the decoding of the zero word

  predicate IsNop(i: Option<Instr>) {
    i.Some? && i.value == NOP
  }

  function MatchTail(image: Image, jrPc: int, jrRs: Reg): Option<Tail> {
    var lwPc := if IsNop(image(jrPc - 4)) then jrPc - 8 else jrPc - 4;
    var lw, addu, sll := image(lwPc), image(lwPc - 4), image(lwPc - 8);
    if lw.None? || addu.None? || sll.None? then None
    else if !IsLoad(lw.value, jrRs) || !IsSum(addu.value, lw.value.rs) || !IsScale(sll.value) then None
    else
      var scaled := sll.value.rd;
      var table := if addu.value.rs == scaled then addu.value.rt else addu.value.rs;
      if (scaled != addu.value.rs && scaled != addu.value.rt) || table == 0 || table == scaled then None
      else Some(Tail(lwPc - 8, lwPc, lw.value.rs, scaled, sll.value.rt, table, Signed(lw.value)))
  }

  predicate IsLoad(i: Instr, target: Reg) {
    i.op == 0x23 && i.rt == target && i.rs != 0
  }

  predicate IsSum(i: Instr, address: Reg) {
    i.op == 0 && i.fn == 0x21 && i.sa == 0 && i.rd == address
  }

  predicate IsScale(i: Instr) {
    i.op == 0 && i.fn == 0 && i.rs == 0 && i.sa == 2 && i.rd != 0 && i.rt != 0
  }

  /** `sltiu guard,index,count; beq guard,zero,reject`, then a NOP or, when the base is
      scheduled into the delay slot, `lui; addiu`. */
  datatype Bound = Bound(sltiuPc: int, branchPc: int, scheduled: bool, count: nat, guard: Reg, reject: int)

  function MatchBound(image: Image, entry: int, hardCap: int, jrPc: int, t: Tail): Option<Bound> {
    var scheduled := !IsNop(image(t.sllPc - 4));
    var sltiuPc := t.sllPc - if scheduled then 16 else 12;
    var sltiu, branch, before := image(sltiuPc), image(sltiuPc + 4), image(sltiuPc - 4);
    if scheduled && !(t.lwPc == jrPc - 8 && IsScheduledBase(image, t)) then None
    else if sltiuPc < entry || (sltiuPc >= entry + 4 && before.Some? && IsControlFlow(before.value)) then None
    else if sltiu.None? || branch.None? || !IsCompare(sltiu.value, t.index) || !IsGuard(branch.value, sltiu.value.rt)
      then None
    else
      var reject := BranchTarget(sltiuPc + 4, branch.value);
      if entry <= reject < hardCap && !(t.sllPc <= reject < jrPc + 8)
         && !(scheduled && sltiuPc < reject < jrPc + 8)
      then Some(Bound(sltiuPc, sltiuPc + 4, scheduled, sltiu.value.imm, sltiu.value.rt, reject))
      else None
  }

  predicate IsScheduledBase(image: Image, t: Tail) {
    var upper, lower := image(t.sllPc - 8), image(t.sllPc - 4);
    && upper.Some? && lower.Some?
    && upper.value.op == 0x0F && upper.value.rs == 0 && upper.value.rt != 0
    && lower.value.op == 0x09 && lower.value.rt == t.table && upper.value.rt == lower.value.rs
    && t.index != t.table && t.index != upper.value.rt
  }

  predicate IsCompare(i: Instr, index: Reg) {
    i.op == 0x0B && i.rs == index && i.rt != 0 && i.rt != index && 1 <= i.imm < 512
  }

  predicate IsGuard(i: Instr, guard: Reg) {
    i.op == 0x04 && ((i.rs == 0 && i.rt == guard) || (i.rs == guard && i.rt == 0))
  }

  // ----- The table base --------------------------------------------------------------

  /** LUI at `constantPc`, completed by an ADDIU at `defPc` unless the two coincide. */
  datatype Base = Base(constantPc: int, defPc: int, value: Word)

  ghost predicate IsNearestWriter(image: Image, reg: Reg, before: int, pc: int) {
    && Reaches(pc + 4, before)
    && image(pc).Some? && WritesGpr(image(pc).value, reg)
    && Untouched(image, pc + 4, before, reg)
  }

  /** Searching back from `pc` to `floor`; a word outside the image ends the search. */
  function Nearest(image: Image, floor: int, pc: int, reg: Reg): Option<int>
    decreases pc - floor
  {
    if pc < floor || image(pc).None? then None
    else if WritesGpr(image(pc).value, reg) then Some(pc)
    else Nearest(image, floor, pc - 4, reg)
  }

  /** The search covers thirty-two words. */
  function Floor(entry: int, before: int): int {
    if entry < before - 0x80 then before - 0x80 else entry
  }

  /** The nearest of the last thirty-two words that writes `reg`. */
  method NearestWriter(image: Image, entry: int, reg: Reg, before: int) returns (at: Option<int>)
    ensures at == Nearest(image, Floor(entry, before), before - 4, reg)
    ensures at.Some? ==> IsNearestWriter(image, reg, before, at.value) && entry <= at.value
  {
    var floor := Floor(entry, before);
    var pc := before - 4;
    ReachesForward(before, before);
    while pc >= floor
      invariant Reaches(pc + 4, before) && Untouched(image, pc + 4, before, reg)
      invariant Nearest(image, floor, before - 4, reg) == Nearest(image, floor, pc, reg)
      decreases pc - floor
    {
      if image(pc).None? {
        return None;
      }
      if WritesGpr(image(pc).value, reg) {
        return Some(pc);
      }
      pc := pc - 4;
    }
    at := None;
  }

  /** The definition of the table register: a LUI, or an ADDIU of a LUI. */
  function BaseOf(image: Image, entry: int, t: Tail): Option<Base> {
    var def := Nearest(image, Floor(entry, t.sllPc + 4), t.sllPc, t.table);
    if def.None? || image(def.value).None? then None
    else
      var d := image(def.value).value;
      if d.op == 0x0F && d.rs == 0 && d.rt == t.table then Some(Base(def.value, def.value, Upper(d)))
      else if !(d.op == 0x09 && d.rt == t.table && d.rs != 0) then None
      else
        var upper := Nearest(image, Floor(entry, def.value), def.value - 4, d.rs);
        if upper.None? || image(upper.value).None? then None
        else
          var u := image(upper.value).value;
          if u.op == 0x0F && u.rs == 0 && u.rt == d.rs
          then Some(Base(upper.value, def.value, Wrap(Upper(u) as int + Signed(d))))
          else None
  }

  ghost predicate IsBase(image: Image, t: Tail, b: Base) {
    && IsNearestWriter(image, t.table, t.sllPc + 4, b.defPc)
    && image(b.constantPc).Some? && image(b.constantPc).value.op == 0x0F
    && (if b.defPc == b.constantPc then
          image(b.defPc).value.rt == t.table && b.value == Upper(image(b.constantPc).value)
        else
          var def := image(b.defPc).value;
          && def.op == 0x09 && def.rt == t.table && def.rs != 0
          && image(b.constantPc).value.rt == def.rs && IsNearestWriter(image, def.rs, b.defPc, b.constantPc)
          && b.value == Wrap(Upper(image(b.constantPc).value) as int + Signed(def)))
  }

  method FindBase(image: Image, entry: int, t: Tail) returns (base: Option<Base>)
    requires t.table != 0
    ensures base == BaseOf(image, entry, t)
    ensures base.Some? ==> IsBase(image, t, base.value) && entry <= base.value.constantPc
  {
    var def := NearestWriter(image, entry, t.table, t.sllPc + 4);
    if def.None? {
      return None;
    }
    var d := image(def.value).value;
    if d.op == 0x0F && d.rs == 0 && d.rt == t.table {
      return Some(Base(def.value, def.value, Upper(d)));
    }
    if !(d.op == 0x09 && d.rt == t.table && d.rs != 0) {
      return None;
    }
    var upper := NearestWriter(image, entry, d.rs, def.value);
    if upper.None? {
      return None;
    }
    var u := image(upper.value).value;
    if !(u.op == 0x0F && u.rs == 0 && u.rt == d.rs) {
      return None;
    }
    ReachesForward(upper.value + 4, def.value);
    base := Some(Base(upper.value, def.value, Wrap(Upper(u) as int + Signed(d))));
  }

  // ----- What the suffix computes ------------------------------------------------------

  /** What MatchBound established about the words it looked at. */
  ghost predicate IsBound(image: Image, t: Tail, b: Bound) {
    && b.branchPc == b.sltiuPc + 4 && t.sllPc == b.sltiuPc + (if b.scheduled then 16 else 12)
    && image(b.sltiuPc).Some? && IsCompare(image(b.sltiuPc).value, t.index)
    && image(b.sltiuPc).value.imm == b.count && image(b.sltiuPc).value.rt == b.guard
    && image(b.branchPc).Some? && IsGuard(image(b.branchPc).value, b.guard)
    && (if b.scheduled then IsScheduledBase(image, t) else IsNop(image(t.sllPc - 4)))
  }

  lemma BoundShape(image: Image, entry: int, hardCap: int, jrPc: int, t: Tail, b: Bound)
    requires MatchBound(image, entry, hardCap, jrPc, t) == Some(b)
    ensures IsBound(image, t, b) && entry <= b.sltiuPc
  {
  }

  /** The guard's words do not touch the index, whichever form it takes. */
  lemma IndexUntouched(image: Image, t: Tail, b: Bound)
    requires t.index != 0 && IsBound(image, t, b)
    ensures Untouched(image, b.sltiuPc, t.sllPc, t.index)
  {
    var pc := t.sllPc;
    assert Untouched(image, pc, pc, t.index);
    assert Untouched(image, pc - 4, pc, t.index);
    assert Untouched(image, pc - 8, pc, t.index);
    assert Untouched(image, pc - 12, pc, t.index);
  }

  lemma GuardPasses(sltiu: Instr, beq: Instr, s0: Cpu, s1: Cpu, s2: Cpu, index: Reg)
    requires IsCompare(sltiu, index) && IsGuard(beq, sltiu.rt)
    requires Executes(sltiu, s0, s1) && Executes(beq, s1, s2)
    ensures s0.regs[index] < sltiu.imm
  {
    assert Destination(sltiu) == Some(sltiu.rt);
    assert Result(sltiu, s0) == Some(if s0.regs[index] < Wrap(Signed(sltiu)) then 1 else 0);
    assert beq.rs == 0 || beq.rt == 0;
    assert s1.regs[sltiu.rt] != 0;
  }

  /** Falling through the bounds branch leaves the index below the table count. */
  lemma IndexBounded(image: Image, t: Tail, b: Bound, run: int -> Cpu)
    requires t.index != 0 && IsBound(image, t, b)
    requires Straight(image, b.sltiuPc, t.sllPc, run)
    ensures run(t.sllPc).regs[t.index] < b.count
  {
    IndexUntouched(image, t, b);
    assert Straight(image, b.branchPc, t.sllPc, run);
    GuardPasses(image(b.sltiuPc).value, image(b.branchPc).value,
                run(b.sltiuPc), run(b.branchPc), run(b.branchPc + 4), t.index);
    Keeps(image, b.sltiuPc, t.sllPc, run, t.index);
  }

  lemma LuiValue(i: Instr, s: Cpu, s': Cpu)
    requires Executes(i, s, s') && i.op == 0x0F && i.rt != 0
    ensures s'.regs[i.rt] == Upper(i)
  {
  }

  lemma AddiuValue(i: Instr, s: Cpu, s': Cpu)
    requires Executes(i, s, s') && i.op == 0x09 && i.rt != 0
    ensures s'.regs[i.rt] == Wrap(s.regs[i.rs] as int + Signed(i))
  {
  }

  /** What a LUI loads is still there where nothing has written the register since. */
  lemma LuiArrives(image: Image, pc: int, end: int, reg: Reg, run: int -> Cpu)
    requires reg != 0 && IsNearestWriter(image, reg, end, pc) && Straight(image, pc, end, run)
    requires image(pc).value.op == 0x0F && image(pc).value.rt == reg
    ensures run(end).regs[reg] == Upper(image(pc).value)
  {
    ReachesForward(pc + 4, end);
    LuiValue(image(pc).value, run(pc), run(pc + 4));
    Keeps(image, pc + 4, end, run, reg);
  }

  /** So is what an ADDIU makes of it. */
  lemma AddiuArrives(image: Image, pc: int, end: int, reg: Reg, run: int -> Cpu)
    requires reg != 0 && IsNearestWriter(image, reg, end, pc) && Straight(image, pc, end, run)
    requires image(pc).value.op == 0x09 && image(pc).value.rt == reg
    ensures run(end).regs[reg] == Wrap(run(pc).regs[image(pc).value.rs] as int + Signed(image(pc).value))
  {
    ReachesForward(pc + 4, end);
    AddiuValue(image(pc).value, run(pc), run(pc + 4));
    Keeps(image, pc + 4, end, run, reg);
  }

  lemma BaseSplits(image: Image, constantPc: int, defPc: int, end: int, run: int -> Cpu)
    requires Reaches(constantPc + 4, defPc) && Reaches(defPc + 4, end) && Straight(image, constantPc, end, run)
    ensures Straight(image, constantPc, defPc, run) && Straight(image, defPc, end, run)
  {
    ReachesForward(constantPc + 4, defPc);
    ReachesForward(defPc + 4, end);
    assert Reaches(constantPc, defPc);
    Split(image, constantPc, defPc, end, run);
  }

  lemma LowHalfArrives(image: Image, constantPc: int, defPc: int, end: int, reg: Reg, run: int -> Cpu)
    requires reg != 0 && IsNearestWriter(image, reg, end, defPc) && Straight(image, constantPc, end, run)
    requires image(defPc).value.op == 0x09 && image(defPc).value.rt == reg && image(defPc).value.rs != 0
    requires IsNearestWriter(image, image(defPc).value.rs, defPc, constantPc)
    requires image(constantPc).value.op == 0x0F && image(constantPc).value.rt == image(defPc).value.rs
    ensures run(end).regs[reg] == Wrap(Upper(image(constantPc).value) as int + Signed(image(defPc).value))
  {
    BaseSplits(image, constantPc, defPc, end, run);
    LuiArrives(image, constantPc, defPc, image(defPc).value.rs, run);
    AddiuArrives(image, defPc, end, reg, run);
  }

  /** The table register holds the matched base where it is added to the scaled index. */
  lemma BaseArrives(image: Image, t: Tail, b: Base, run: int -> Cpu)
    requires t.table != 0 && IsBase(image, t, b)
    requires Straight(image, b.constantPc, t.sllPc + 4, run)
    ensures run(t.sllPc + 4).regs[t.table] == b.value
  {
    var end := t.sllPc + 4;
    if b.defPc == b.constantPc {
      LuiArrives(image, b.constantPc, end, t.table, run);
    } else {
      LowHalfArrives(image, b.constantPc, b.defPc, end, t.table, run);
    }
  }

  lemma ShiftTwo(x: Word)
    requires x < 512
    ensures ShiftLeft(x, 2) == 4 * x as int
  {
    var y: Word := Wrap(2 * x as int);
    assert y == 2 * x as int;
    var z: Word := Wrap(2 * y as int);
    assert ShiftLeft(x, 2) == ShiftLeft(y, 1) == ShiftLeft(z, 0) == z;
  }

  lemma ScaleValue(i: Instr, s: Cpu, s': Cpu)
    requires Executes(i, s, s') && IsScale(i) && s.regs[i.rt] < 512
    ensures s'.regs[i.rd] == 4 * s.regs[i.rt] as int
  {
    assert Destination(i) == Some(i.rd);
    assert Result(i, s) == Some(ShiftLeft(s.regs[i.rt], 2));
    ShiftTwo(s.regs[i.rt]);
  }

  lemma SumValue(i: Instr, s: Cpu, s': Cpu, address: Reg)
    requires Executes(i, s, s') && IsSum(i, address) && address != 0
    ensures s'.regs[address] == Wrap(s.regs[i.rs] as int + s.regs[i.rt] as int)
  {
    assert Destination(i) == Some(address);
  }

  lemma LoadValue(i: Instr, s: Cpu, s': Cpu, target: Reg)
    requires Executes(i, s, s') && IsLoad(i, target) && target != 0
    ensures s'.regs[target] == s.mem(Wrap(s.regs[i.rs] as int + Signed(i)))
  {
    assert Destination(i) == Some(target);
  }

  lemma NopKeeps(i: Instr, s: Cpu, s': Cpu, reg: Reg)
    requires Executes(i, s, s') && i == NOP
    ensures s'.regs[reg] == s.regs[reg]
  {
    assert Destination(i) == Some(0);
  }

  predicate AddsBoth(i: Instr, a: Reg, b: Reg) {
    (i.rs == a && i.rt == b) || (i.rs == b && i.rt == a)
  }

  /** What MatchTail established about the words it looked at. */
  ghost predicate IsTail(image: Image, jrPc: int, jrRs: Reg, t: Tail) {
    && t.lwPc == t.sllPc + 8
    && image(t.sllPc).Some? && IsScale(image(t.sllPc).value)
    && image(t.sllPc).value.rd == t.scaled && image(t.sllPc).value.rt == t.index
    && image(t.sllPc + 4).Some? && IsSum(image(t.sllPc + 4).value, t.address)
    && AddsBoth(image(t.sllPc + 4).value, t.scaled, t.table)
    && image(t.lwPc).Some? && IsLoad(image(t.lwPc).value, jrRs)
    && image(t.lwPc).value.rs == t.address && Signed(image(t.lwPc).value) == t.offset
    && (jrPc == t.lwPc + 4 || (jrPc == t.lwPc + 8 && IsNop(image(t.lwPc + 4))))
    && t.table != 0 && t.index != 0 && t.scaled != t.table
  }

  lemma TailShape(image: Image, jrPc: int, jrRs: Reg, t: Tail)
    requires MatchTail(image, jrPc, jrRs) == Some(t)
    ensures IsTail(image, jrPc, jrRs, t)
  {
  }

  /** The scaled index added to the base. */
  function Indexed(k: nat, base: Word): Word {
    Wrap(4 * k + base as int)
  }

  /** The address the tail loads from for index `k`. */
  function Slot(k: nat, base: Word, offset: int): Word {
    Wrap(Indexed(k, base) as int + offset)
  }

  /** From a bounded index and a known base, the load address is a table slot. */
  lemma TailAddress(image: Image, jrPc: int, jrRs: Reg, t: Tail, base: Word, run: int -> Cpu)
    requires IsTail(image, jrPc, jrRs, t) && Straight(image, t.sllPc, jrPc, run)
    requires run(t.sllPc).regs[t.index] < 512 && run(t.sllPc + 4).regs[t.table] == base
    ensures run(t.lwPc).regs[t.address] == Indexed(run(t.sllPc).regs[t.index], base)
  {
    assert Straight(image, t.sllPc + 4, jrPc, run);
    ScaleValue(image(t.sllPc).value, run(t.sllPc), run(t.sllPc + 4));
    SumValue(image(t.sllPc + 4).value, run(t.sllPc + 4), run(t.lwPc), t.address);
  }

  /** The loaded word is what `jr` jumps to. */
  lemma LoadJumps(image: Image, jrPc: int, jrRs: Reg, lwPc: int, run: int -> Cpu)
    requires jrRs != 0 && image(lwPc).Some? && IsLoad(image(lwPc).value, jrRs)
    requires jrPc == lwPc + 4 || (jrPc == lwPc + 8 && IsNop(image(lwPc + 4)))
    requires Straight(image, lwPc, jrPc, run)
    ensures run(jrPc).regs[jrRs]
            == run(lwPc).mem(Wrap(run(lwPc).regs[image(lwPc).value.rs] as int + Signed(image(lwPc).value)))
  {
    LoadValue(image(lwPc).value, run(lwPc), run(lwPc + 4), jrRs);
    if jrPc == lwPc + 8 {
      assert Straight(image, lwPc + 4, jrPc, run);
      NopKeeps(NOP, run(lwPc + 4), run(jrPc), jrRs);
    }
  }

  // ----- The matcher ---------------------------------------------------------------------

  /** Where the protected suffix starts: its first proved definition. */
  function Start(bound: Bound, base: Base): int {
    if bound.scheduled then bound.sltiuPc else base.constantPc
  }

  /** Everything the matcher proved about one dispatch. */
  ghost predicate Proved(image: Image, jrPc: int, jrRs: Reg, t: Tail, bound: Bound, base: Base) {
    && 0 < jrRs && IsTail(image, jrPc, jrRs, t) && IsBound(image, t, bound) && IsBase(image, t, base)
    && (bound.scheduled ==> base.constantPc == bound.branchPc + 4 && base.defPc == t.sllPc - 4)
  }

  /** In the plain form the whole base definition comes before the comparison. */
  lemma BaseBeforeBound(image: Image, t: Tail, bound: Bound, base: Base)
    requires t.table != 0 && IsBound(image, t, bound) && IsBase(image, t, base) && !bound.scheduled
    requires image(t.sllPc).Some? && !WritesGpr(image(t.sllPc).value, t.table)
    ensures Reaches(base.constantPc, bound.sltiuPc)
  {
    var pc := t.sllPc;
    assert base.defPc != pc && base.defPc != pc - 4 && base.defPc != pc - 8 && base.defPc != pc - 12;
    BackTo(base.defPc + 4, pc + 4, pc - 12);
    if base.defPc != base.constantPc {
      ReachesOn(base.constantPc + 4, base.defPc, pc - 12);
    }
  }

  /** A word before the suffix, but not one of its last four, is a whole number of words
      before its first. */
  lemma {:induction false} BackTo(a: int, end: int, first: int)
    requires Reaches(a, end) && first == end - 16
    requires a != end && a != end - 4 && a != end - 8 && a != end - 12
    ensures Reaches(a - 4, first)
    decreases end - a
  {
    ReachesByFours(a, end);
    if a < first {
      BackTo(a + 4, end, first);
    } else {
      assert Reaches(first, first);
    }
  }

  lemma {:induction false} ReachesByFours(a: int, b: int)
    requires Reaches(a, b)
    ensures a <= b && (b - a) % 4 == 0
    decreases b - a
  {
    if a < b {
      ReachesByFours(a + 4, b);
    }
  }

  /** The suffix runs from its start through both definitions to the tail. */
  lemma StartFirst(image: Image, jrPc: int, jrRs: Reg, t: Tail, bound: Bound, base: Base)
    requires Proved(image, jrPc, jrRs, t, bound, base)
    ensures
      var start := Start(bound, base);
      Reaches(start, base.constantPc) && Reaches(start, bound.sltiuPc) && Reaches(bound.sltiuPc, t.sllPc)
  {
    assert Reaches(t.sllPc, t.sllPc) && Reaches(t.sllPc - 4, t.sllPc) && Reaches(t.sllPc - 8, t.sllPc);
    assert Reaches(t.sllPc - 12, t.sllPc);
    if bound.scheduled {
      var pc := base.constantPc;
      assert Reaches(pc, pc) && Reaches(pc - 4, pc);
    } else {
      assert !WritesGpr(image(t.sllPc).value, t.table);
      BaseBeforeBound(image, t, bound, base);
    }
  }

  /** Slot arithmetic: no wrap-around inside a table that fits the address space. */
  lemma SlotAddress(k: nat, base: Word, offset: int, count: nat)
    requires k < count < 512 && -0x8000 <= offset < 0x8000
    requires Wrap(base as int + offset) as int + 4 * count <= TWO32
    ensures Slot(k, base, offset) == Wrap(base as int + offset) as int + 4 * k
  {
    WrapAdd(4 * k + base as int, offset);
    WrapAdd(base as int + offset, 4 * k);
    assert 4 * k + base as int + offset == base as int + offset + 4 * k;
  }

  lemma WrapAdd(a: int, b: int)
    ensures Wrap(Wrap(a) as int + b) == Wrap(a + b)
  {
    var q := a / TWO32;
    assert a + b == a % TWO32 + b + q * TWO32;
  }

  /** The table slot the tail loads, given the index and base it arrives with. */
  lemma TailReads(image: Image, jrPc: int, jrRs: Reg, t: Tail, k: nat, base: Word, run: int -> Cpu)
    requires jrRs != 0 && IsTail(image, jrPc, jrRs, t) && Straight(image, t.sllPc, jrPc, run)
    requires run(t.sllPc).regs[t.index] == k < 512 && run(t.sllPc + 4).regs[t.table] == base
    ensures run(jrPc).regs[jrRs] == run(t.lwPc).mem(Slot(k, base, t.offset))
  {
    TailAddress(image, jrPc, jrRs, t, base, run);
    TailLoads(image, jrPc, jrRs, t, run);
    LoadFrom(image, jrPc, jrRs, t.lwPc, run, t.address, k, base, t.offset);
  }

  lemma TailLoads(image: Image, jrPc: int, jrRs: Reg, t: Tail, run: int -> Cpu)
    requires IsTail(image, jrPc, jrRs, t) && Straight(image, t.sllPc, jrPc, run)
    ensures Straight(image, t.lwPc, jrPc, run)
  {
    assert Straight(image, t.sllPc + 4, jrPc, run);
  }

  lemma LoadFrom(image: Image, jrPc: int, jrRs: Reg, lwPc: int, run: int -> Cpu, from: Reg, k: nat, base: Word, offset: int)
    requires jrRs != 0 && image(lwPc).Some? && IsLoad(image(lwPc).value, jrRs)
    requires jrPc == lwPc + 4 || (jrPc == lwPc + 8 && IsNop(image(lwPc + 4)))
    requires Straight(image, lwPc, jrPc, run) && run(lwPc).regs[from] == Indexed(k, base)
    requires image(lwPc).value.rs == from && Signed(image(lwPc).value) == offset
    ensures run(jrPc).regs[jrRs] == run(lwPc).mem(Slot(k, base, offset))
  {
    LoadJumps(image, jrPc, jrRs, lwPc, run);
  }

  /** `value` is what memory holds at one of the first `count` slots. */
  ghost predicate ReadsSlot(value: Word, s: Cpu, base: Word, offset: int, count: nat) {
    exists k: nat :: k < count && value == s.mem(Slot(k, base, offset))
  }

  /** The runs the proof needs, cut out of the whole suffix. */
  lemma SuffixRuns(image: Image, jrPc: int, jrRs: Reg, t: Tail, bound: Bound, base: Base, run: int -> Cpu)
    requires Proved(image, jrPc, jrRs, t, bound, base)
    requires Straight(image, Start(bound, base), jrPc, run)
    ensures Straight(image, bound.sltiuPc, t.sllPc, run)
    ensures Straight(image, base.constantPc, t.sllPc + 4, run)
    ensures Straight(image, t.sllPc, jrPc, run)
  {
    var start := Start(bound, base);
    StartFirst(image, jrPc, jrRs, t, bound, base);
    ReachesOn(start, bound.sltiuPc, t.sllPc);
    Split(image, start, t.sllPc, jrPc, run);
    Split(image, start, bound.sltiuPc, t.sllPc, run);
    FromConstant(image, jrPc, t, base, start, run);
  }

  lemma FromConstant(image: Image, jrPc: int, t: Tail, base: Base, start: int, run: int -> Cpu)
    requires IsBase(image, t, base) && Straight(image, start, jrPc, run)
    requires Reaches(start, base.constantPc) && t.sllPc + 4 <= jrPc
    ensures Straight(image, base.constantPc, t.sllPc + 4, run)
  {
    assert Reaches(base.constantPc + 4, base.constantPc + 4) && Reaches(base.defPc + 4, base.defPc + 4);
    if base.defPc != base.constantPc {
      ReachesOn(base.constantPc + 4, base.defPc, base.defPc + 4);
      ReachesOn(base.constantPc + 4, base.defPc + 4, t.sllPc + 4);
    }
    ReachesOn(base.constantPc, base.constantPc + 4, t.sllPc + 4);
    Split(image, start, base.constantPc, jrPc, run);
    Split(image, base.constantPc, t.sllPc + 4, jrPc, run);
  }

  /** Every straight-line execution of a proved dispatch, for all register contents and all
      intervening instructions, jumps to a word memory holds in one of the table's slots. */
  lemma DispatchReadsTable(image: Image, jrPc: int, jrRs: Reg, t: Tail, bound: Bound, base: Base, run: int -> Cpu)
    requires Proved(image, jrPc, jrRs, t, bound, base)
    requires Straight(image, Start(bound, base), jrPc, run)
    ensures ReadsSlot(run(jrPc).regs[jrRs], run(t.lwPc), base.value, t.offset, bound.count)
  {
    SuffixRuns(image, jrPc, jrRs, t, bound, base, run);
    IndexBounded(image, t, bound, run);
    BaseArrives(image, t, base, run);
    var k: nat := run(t.sllPc).regs[t.index];
    TailReads(image, jrPc, jrRs, t, k, base.value, run);
  }

  /** The words of a table inside `[lo, hi)` that could all be case labels of the function. */
  ghost predicate IsCaseLabel(image: Image, entry: int, hardCap: int, jrPc: int, bound: Bound, lo: int, hi: int, target: int) {
    && target % 4 == 0 && entry <= target < hardCap && lo <= target < hi
    && !(bound.scheduled && bound.sltiuPc < target < jrPc + 8)
    && image(target).Some? && IsValid(image(target).value)
  }

  /** Entry `k` of the table is a case label. */
  ghost predicate GoodSlot(image: Image, entry: int, hardCap: int, jrPc: int, bound: Bound, table: Word, lo: int, hi: int, k: nat) {
    && image(table + 4 * k).Some?
    && IsCaseLabel(image, entry, hardCap, jrPc, bound, lo, hi, image(table + 4 * k).value.raw)
  }

  /** The words of the first `count` entries are among the targets. */
  ghost predicate SlotsIn(image: Image, table: Word, count: nat, targets: set<int>) {
    forall k :: 0 <= k < count ==> image(table + 4 * k).Some? && image(table + 4 * k).value.raw in targets
  }

  /** The first `n` words of a table. */
  function TableWords(image: Image, table: Word, n: nat): seq<int> {
    if n == 0 then []
    else
      var at := image(table + 4 * (n - 1));
      TableWords(image, table, n - 1) + [if at.Some? then at.value.raw else 0]
  }

  /** Read the table: every word must be a case label, and then the targets are its words. */
  method ReadTable(image: Image, entry: int, hardCap: int, jrPc: int, bound: Bound, table: Word, lo: int, hi: int)
    returns (targets: set<int>, order: seq<int>)
    requires bound.count > 0
    ensures forall x :: x in order ==> x in targets
    ensures targets != {} <==> forall k :: 0 <= k < bound.count ==> GoodSlot(image, entry, hardCap, jrPc, bound, table, lo, hi, k)
    ensures targets != {} ==> SlotsIn(image, table, bound.count, targets)
    ensures forall x :: x in targets ==> IsCaseLabel(image, entry, hardCap, jrPc, bound, lo, hi, x)
    ensures targets != {} ==> order == TableWords(image, table, bound.count) && targets == set x | x in order
  {
    targets, order := {}, [];
    for k := 0 to bound.count
      invariant k > 0 ==> targets != {}
      invariant forall j :: 0 <= j < k ==> GoodSlot(image, entry, hardCap, jrPc, bound, table, lo, hi, j)
      invariant WordsRead(image, table, k, targets, order)
      invariant forall x :: x in targets ==> IsCaseLabel(image, entry, hardCap, jrPc, bound, lo, hi, x)
    {
      var at := image(table + 4 * k);
      if at.None? {
        assert !GoodSlot(image, entry, hardCap, jrPc, bound, table, lo, hi, k);
        return {}, [];
      }
      var target: int := at.value.raw;
      if target % 4 != 0 || !(entry <= target < hardCap) || !(lo <= target < hi)
         || (bound.scheduled && bound.sltiuPc < target < jrPc + 8)
         || image(target).None? || !IsValid(image(target).value) {
        assert !GoodSlot(image, entry, hardCap, jrPc, bound, table, lo, hi, k);
        return {}, [];
      }
      WordsNext(image, table, k, targets, order, target);
      targets, order := targets + {target}, order + [target];
      assert target in targets;
    }
  }

  /** The order and the set of the first `n` words. */
  ghost predicate WordsRead(image: Image, table: Word, n: nat, targets: set<int>, order: seq<int>) {
    SlotsIn(image, table, n, targets) && order == TableWords(image, table, n) && targets == set x | x in order
  }

  lemma WordsNext(image: Image, table: Word, n: nat, targets: set<int>, order: seq<int>, word: int)
    requires WordsRead(image, table, n, targets, order)
    requires image(table + 4 * n).Some? && image(table + 4 * n).value.raw == word
    ensures WordsRead(image, table, n + 1, targets + {word}, order + [word])
  {
  }

  // ----- Inbound edges -----------------------------------------------------------------

  predicate IsDirect(kind: Kind) {
    kind == Branch || kind == J || kind == Jal
  }

  /** Control can pass from the word at `pc` to `q` without an indirect jump. */
  predicate Edge(image: Image, pc: int, q: int) {
    && image(pc).Some? && IsValid(image(pc).value)
    && var (kind, target) := Classify(pc, image(pc).value);
       match kind
       case Normal => q == pc + 4
       case Branch => q == pc + 4 || q == pc + 8 || q == target
       case BranchNever => q == pc + 4 || q == pc + 8
       case BranchNeverLikely => q == pc + 8
       case J => q == pc + 4 || q == target
       case Jal => q == pc + 4 || q == pc + 8
       case Jalr => q == pc + 4 || q == pc + 8
       case Jr => q == pc + 4
       case JrRa => q == pc + 4
  }

  ghost predicate ReachedIn(image: Image, targets: set<int>, pc: int, n: nat)
    decreases n
  {
    if n == 0 then pc in targets else exists p :: ReachedIn(image, targets, p, n - 1) && Edge(image, p, pc)
  }

  /** Some path of edges leads from a case label to `pc`. */
  ghost predicate CaseReached(image: Image, targets: set<int>, pc: int) {
    exists n: nat :: ReachedIn(image, targets, pc, n)
  }

  lemma CaseStep(image: Image, targets: set<int>, pc: int)
    requires CaseReached(image, targets, pc)
    ensures forall q :: Edge(image, pc, q) ==> CaseReached(image, targets, q)
  {
    var n: nat :| ReachedIn(image, targets, pc, n);
    forall q | Edge(image, pc, q)
      ensures CaseReached(image, targets, q)
    {
      assert ReachedIn(image, targets, q, n + 1);
    }
  }

  /** A word that the walk from the case labels expands. */
  predicate Expands(image: Image, entry: int, hardCap: int, lo: int, hi: int, pc: int) {
    entry <= pc < hardCap && lo <= pc < hi && image(pc).Some? && IsValid(image(pc).value)
  }

  function WithDelay(image: Image, pc: int, reached: set<int>): set<int>
    requires image(pc).Some?
  {
    reached + {pc} + if HasDelaySlot(pc, image(pc).value) then {pc + 4} else {}
  }

  /** Words that a walk from the case labels meets, cut off at 2048. */
  function CaseWalk(image: Image, entry: int, hardCap: int, lo: int, hi: int, work: seq<int>, reached: set<int>): set<int>
    decreases 2048 - |reached|, |work|
  {
    if work == [] || |reached| >= 2048 then reached
    else
      var pc, rest := work[0], work[1..];
      if pc in reached || !Expands(image, entry, hardCap, lo, hi, pc) then
        CaseWalk(image, entry, hardCap, lo, hi, rest, reached)
      else
        MoreReached(image, pc, reached);
        CaseWalk(image, entry, hardCap, lo, hi, rest + Successors(pc, image(pc).value), WithDelay(image, pc, reached))
  }

  lemma MoreReached(image: Image, pc: int, reached: set<int>)
    requires image(pc).Some? && pc !in reached
    ensures |WithDelay(image, pc, reached)| > |reached|
  {
    var next := WithDelay(image, pc, reached);
    assert next == (reached + {pc}) + (next - (reached + {pc}));
    assert |reached + {pc}| == |reached| + 1;
  }

  method CaseReachable(image: Image, entry: int, hardCap: int, lo: int, hi: int, ghost targets: set<int>,
                       order: seq<int>)
    returns (reached: set<int>)
    requires forall x :: x in order ==> x in targets
    ensures reached == CaseWalk(image, entry, hardCap, lo, hi, order, {})
    ensures forall pc :: pc in reached ==> CaseReached(image, targets, pc)
  {
    reached := {};
    var work := order;
    forall pc | pc in work
      ensures CaseReached(image, targets, pc)
    {
      assert ReachedIn(image, targets, pc, 0);
    }
    while work != [] && |reached| < 2048
      invariant forall pc :: pc in reached ==> CaseReached(image, targets, pc)
      invariant forall pc :: pc in work ==> CaseReached(image, targets, pc)
      invariant CaseWalk(image, entry, hardCap, lo, hi, order, {}) == CaseWalk(image, entry, hardCap, lo, hi, work, reached)
      decreases 2048 - |reached|, |work|
    {
      var pc := work[0];
      assert CaseReached(image, targets, pc);
      var rest := work[1..];
      if pc !in reached && Expands(image, entry, hardCap, lo, hi, pc) {
        CaseStep(image, targets, pc);
        WalkEdges(image, pc);
        MoreReached(image, pc, reached);
        reached := WithDelay(image, pc, reached);
        rest := rest + Successors(pc, image(pc).value);
      }
      work := rest;
    }
  }

  predicate HasDelaySlot(pc: int, i: Instr) {
    Classify(pc, i).0 != Normal && Classify(pc, i).0 != BranchNeverLikely
  }

  /** Where the walk goes on from a word. */
  function Successors(pc: int, i: Instr): seq<int> {
    var (kind, target) := Classify(pc, i);
    match kind
    case Normal => [pc + 4]
    case Branch => [pc + 8, target]
    case J => [target]
    case Jr => []
    case JrRa => []
    case _ => [pc + 8]
  }

  lemma WalkEdges(image: Image, pc: int)
    requires image(pc).Some? && IsValid(image(pc).value)
    ensures forall q :: q in Successors(pc, image(pc).value) ==> Edge(image, pc, q)
    ensures HasDelaySlot(pc, image(pc).value) ==> Edge(image, pc, pc + 4)
  {
  }

  /** A direct edge of the function into the protected suffix from outside it. */
  ghost predicate StrayEdge(image: Image, start: int, jrPc: int, source: int) {
    && image(source).Some? && IsDirect(Classify(source, image(source).value).0)
    && start < Classify(source, image(source).value).1 <= jrPc
    && !(start <= source <= jrPc)
  }

  /** The word at `source` lies outside the suffix and some state of the CPU takes it to a word
      of the suffix behind the first. */
  ghost predicate Enters(image: Image, start: int, jrPc: int, source: int) {
    && image(source).Some? && !(start <= source <= jrPc) && !Control.TransferOf(image(source).value).ThroughRegister?
    && exists s, flag :: Control.Taken(image(source).value, s, flag)
                         && start < Control.Target(source, image(source).value, s) <= jrPc
  }

  /** The edges that the scan looks at are those the machine can take. */
  lemma StrayIsEntering(image: Image, start: int, jrPc: int, source: int)
    ensures StrayEdge(image, start, jrPc, source) <==> Enters(image, start, jrPc, source)
  {
    if image(source).Some? {
      Control.ClassMeans(source, image(source).value);
      if StrayEdge(image, start, jrPc, source) {
        var s, flag :| Control.Taken(image(source).value, s, flag);
        assert Control.Target(source, image(source).value, s) == Classify(source, image(source).value).1;
      }
    }
  }

  /** The word is in the image, and if it is a stray edge, the dispatch itself leads there. */
  ghost predicate Tolerated(image: Image, start: int, jrPc: int, scheduled: bool, cases: set<int>, source: int) {
    image(source).Some? && (StrayEdge(image, start, jrPc, source) ==> !scheduled && source in cases)
  }

  /** Reject a suffix some direct edge enters, unless only from behind the dispatch. */
  method EdgesAllowed(image: Image, entry: int, hardCap: int, start: int, jrPc: int, scheduled: bool, cases: set<int>)
    returns (ok: bool)
    ensures ok <==> forall source :: Reaches(entry, source) && source < hardCap ==>
                                       Tolerated(image, start, jrPc, scheduled, cases, source)
  {
    var source := entry;
    while source < hardCap
      invariant Reaches(entry, source)
      invariant forall p :: Reaches(entry, p) && p < hardCap ==>
                  Reaches(source, p) || Tolerated(image, start, jrPc, scheduled, cases, p)
      decreases hardCap - source
    {
      if image(source).None? {
        assert !Tolerated(image, start, jrPc, scheduled, cases, source);
        return false;
      }
      var (kind, target) := Classify(source, image(source).value);
      if IsDirect(kind) && start < target <= jrPc && !(start <= source <= jrPc) && (scheduled || source !in cases) {
        assert !Tolerated(image, start, jrPc, scheduled, cases, source);
        return false;
      }
      assert Reaches(source, source + 4);
      ReachesOn(entry, source, source + 4);
      source := source + 4;
    }
    forall p | Reaches(source, p)
      ensures source <= p
    {
      ReachesForward(source, p);
    }
    ok := true;
  }

  // ----- The whole matcher ----------------------------------------------------------------

  /** Memory holds the image's own table. */
  ghost predicate TableIntact(image: Image, s: Cpu, table: Word, count: nat) {
    forall k :: 0 <= k < count && table + 4 * k < TWO32 && image(table + 4 * k).Some? ==>
                  s.mem(table + 4 * k) == image(table + 4 * k).value.raw
  }

  lemma SlotIsTarget(image: Image, value: Word, s: Cpu, base: Word, offset: int, count: nat, table: Word, targets: set<int>)
    requires ReadsSlot(value, s, base, offset, count) && count < 512 && -0x8000 <= offset < 0x8000
    requires table == Wrap(base as int + offset) && table + 4 * count <= TWO32
    requires TableIntact(image, s, table, count)
    requires SlotsIn(image, table, count, targets)
    ensures value as int in targets
  {
    var k: nat :| k < count && value == s.mem(Slot(k, base, offset));
    SlotAddress(k, base, offset, count);
    assert image(table + 4 * k).value.raw in targets;
  }

  /** The table address and size a proved dispatch reads. */
  function TableAt(t: Tail, base: Base): Word {
    Wrap(base.value as int + t.offset)
  }

  /** The dispatch that the words before a `jr` spell, if they spell one. */
  ghost function DispatchOf(image: Image, entry: int, hardCap: int, jrPc: int, jrRs: Reg): Option<(Tail, Bound, Base)> {
    if !(entry <= jrPc < hardCap && 0 < jrRs < 31) || image(jrPc) != Some(Decode(jrRs * 0x20_0000 + 8)) then None
    else
      var t := MatchTail(image, jrPc, jrRs);
      if t.None? then None
      else
        var bound, base := MatchBound(image, entry, hardCap, jrPc, t.value), BaseOf(image, entry, t.value);
        if bound.None? || base.None? || !Undisturbed(image, entry, t.value, bound.value, base.value) then None
        else Some((t.value, bound.value, base.value))
  }

  /** The constant is where the form puts it and nothing else transfers control after it. */
  ghost predicate Undisturbed(image: Image, entry: int, t: Tail, bound: Bound, base: Base) {
    && (bound.scheduled ==> base.constantPc == bound.branchPc + 4 && base.defPc == t.sllPc - 4)
    && PlainBetween(image, base.constantPc, t.sllPc, bound.branchPc)
    && (!bound.scheduled && base.constantPc >= entry + 4 && image(base.constantPc - 4).Some? ==>
          !IsControlFlow(image(base.constantPc - 4).value))
  }

  /** Match the words of the dispatch and the definition of its base. */
  method MatchDispatch(image: Image, entry: int, hardCap: int, jrPc: int, jrRs: Reg)
    returns (found: Option<(Tail, Bound, Base)>)
    ensures found == DispatchOf(image, entry, hardCap, jrPc, jrRs)
    ensures found.Some? ==>
              && Proved(image, jrPc, jrRs, found.value.0, found.value.1, found.value.2)
              && entry <= Start(found.value.1, found.value.2) && found.value.1.count > 0
  {
    if !(entry <= jrPc < hardCap && 0 < jrRs < 31) || image(jrPc) != Some(Decode(jrRs * 0x20_0000 + 8)) {
      return None;
    }
    var tail := MatchTail(image, jrPc, jrRs);
    if tail.None? {
      return None;
    }
    var t := tail.value;
    TailShape(image, jrPc, jrRs, t);
    var guard := MatchBound(image, entry, hardCap, jrPc, t);
    if guard.None? {
      return None;
    }
    var bound := guard.value;
    BoundShape(image, entry, hardCap, jrPc, t, bound);
    var def := FindBase(image, entry, t);
    if def.None? {
      return None;
    }
    var ok := CheckDefinition(image, entry, t, bound, def.value);
    found := if ok then Some((t, bound, def.value)) else None;
  }

  method CheckDefinition(image: Image, entry: int, t: Tail, bound: Bound, base: Base) returns (ok: bool)
    ensures ok == Undisturbed(image, entry, t, bound, base)
  {
    if bound.scheduled && (base.constantPc != bound.branchPc + 4 || base.defPc != t.sllPc - 4) {
      return false;
    }
    var plain := NoOtherControl(image, base.constantPc, t.sllPc, bound.branchPc);
    var before := image(base.constantPc - 4);
    ok := plain && !(!bound.scheduled && base.constantPc >= entry + 4 && before.Some? && IsControlFlow(before.value));
  }

  /** What a nonempty answer promises: every straight-line execution through the not-taken
      bounds branch, with the table intact in memory, jumps to one of the targets. */
  ghost predicate CoversDispatch(image: Image, jrPc: int, jrRs: Reg, t: Tail, bound: Bound, base: Base, targets: set<int>) {
    forall run: int -> Cpu ::
      (Straight(image, Start(bound, base), jrPc, run) && TableIntact(image, run(t.lwPc), TableAt(t, base), bound.count))
      ==> run(jrPc).regs[jrRs] as int in targets
  }

  lemma TableCovers(image: Image, jrPc: int, jrRs: Reg, t: Tail, bound: Bound, base: Base, targets: set<int>)
    requires Proved(image, jrPc, jrRs, t, bound, base)
    requires TableAt(t, base) + 4 * bound.count <= TWO32
    requires SlotsIn(image, TableAt(t, base), bound.count, targets)
    ensures CoversDispatch(image, jrPc, jrRs, t, bound, base, targets)
  {
    forall run: int -> Cpu | Straight(image, Start(bound, base), jrPc, run)
                             && TableIntact(image, run(t.lwPc), TableAt(t, base), bound.count)
      ensures run(jrPc).regs[jrRs] as int in targets
    {
      var value, s := run(jrPc).regs[jrRs], run(t.lwPc);
      DispatchReadsTable(image, jrPc, jrRs, t, bound, base, run);
      ReadCovers(image, jrPc, jrRs, t, bound, base, targets, value, s);
    }
  }

  /** What a load from an intact table gives is a target. */
  lemma ReadCovers(image: Image, jrPc: int, jrRs: Reg, t: Tail, bound: Bound, base: Base, targets: set<int>, value: Word,
                   s: Cpu)
    requires Proved(image, jrPc, jrRs, t, bound, base)
    requires TableAt(t, base) + 4 * bound.count <= TWO32
    requires SlotsIn(image, TableAt(t, base), bound.count, targets)
    requires ReadsSlot(value, s, base.value, t.offset, bound.count)
    requires TableIntact(image, s, TableAt(t, base), bound.count)
    ensures value as int in targets
  {
    var table := TableAt(t, base);
    ProvedRanges(image, jrPc, jrRs, t, bound, base);
    SlotIsTarget(image, value, s, base.value, t.offset, bound.count, table, targets);
  }

  lemma ProvedRanges(image: Image, jrPc: int, jrRs: Reg, t: Tail, bound: Bound, base: Base)
    requires Proved(image, jrPc, jrRs, t, bound, base)
    ensures bound.count < 512 && -0x8000 <= t.offset < 0x8000
  {
  }

  /** The order in which a set is iterated that these words were added to: any list with the
      same members. */
  type Iteration = seq<int> -> seq<int>

  ghost predicate Iterates(iterate: Iteration) {
    forall words, x :: x in iterate(words) <==> x in words
  }

  /** What the walk from a table's words meets. */
  function Cases(image: Image, iterate: Iteration, entry: int, hardCap: int, lo: int, hi: int, table: Word,
                 count: nat): set<int> {
    CaseWalk(image, entry, hardCap, lo, hi, iterate(TableWords(image, table, count)), {})
  }

  /** The aligned table lies in the range and holds only case labels, and every word of the
      function is tolerated. */
  ghost predicate TableAccepted(image: Image, iterate: Iteration, entry: int, hardCap: int, jrPc: int, t: Tail,
                                bound: Bound, base: Base, lo: int, hi: int) {
    var table := TableAt(t, base);
    && table % 4 == 0 && lo <= table && table + 4 * bound.count <= hi
    && (forall k :: 0 <= k < bound.count ==> GoodSlot(image, entry, hardCap, jrPc, bound, table, lo, hi, k))
    && AllTolerated(image, entry, hardCap, jrPc, bound, base,
                    Cases(image, iterate, entry, hardCap, lo, hi, table, bound.count))
  }

  ghost predicate AllTolerated(image: Image, entry: int, hardCap: int, jrPc: int, bound: Bound, base: Base, cases: set<int>) {
    forall source :: Reaches(entry, source) && source < hardCap ==>
                       Tolerated(image, Start(bound, base), jrPc, bound.scheduled, cases, source)
  }

  /** The words of the table, if the table is accepted. */
  ghost function TableTargets(image: Image, iterate: Iteration, entry: int, hardCap: int, jrPc: int, t: Tail,
                              bound: Bound, base: Base, lo: int, hi: int): set<int> {
    if TableAccepted(image, iterate, entry, hardCap, jrPc, t, bound, base, lo, hi)
    then set x | x in TableWords(image, TableAt(t, base), bound.count)
    else {}
  }

  /** Read and check the table of a matched dispatch. */
  method ResolveTable(image: Image, iterate: Iteration, entry: int, hardCap: int, jrPc: int, t: Tail, bound: Bound,
                      base: Base, lo: int, hi: int)
    returns (targets: set<int>)
    requires bound.count > 0 && Iterates(iterate)
    ensures targets == TableTargets(image, iterate, entry, hardCap, jrPc, t, bound, base, lo, hi)
    ensures targets != {} ==> SlotsIn(image, TableAt(t, base), bound.count, targets)
    ensures forall x :: x in targets ==> IsCaseLabel(image, entry, hardCap, jrPc, bound, lo, hi, x)
    ensures targets != {} ==>
              forall pc :: pc in Cases(image, iterate, entry, hardCap, lo, hi, TableAt(t, base), bound.count) ==>
                             CaseReached(image, targets, pc)
  {
    targets := {};
    var table := TableAt(t, base);
    if table % 4 != 0 || !(lo <= table && table + 4 * bound.count <= hi) {
      return;
    }
    var labels, order := ReadTable(image, entry, hardCap, jrPc, bound, table, lo, hi);
    if labels == {} {
      return;
    }
    var reached := CaseReachable(image, entry, hardCap, lo, hi, labels, iterate(order));
    var ok := EdgesAllowed(image, entry, hardCap, Start(bound, base), jrPc, bound.scheduled, reached);
    if ok {
      targets := labels;
    }
  }

  /** What the matcher answers. */
  ghost function TargetsOf(image: Image, iterate: Iteration, entry: int, hardCap: int, jrPc: int, jrRs: Reg, lo: int,
                           hi: int): set<int> {
    var d := DispatchOf(image, entry, hardCap, jrPc, jrRs);
    if d.None? then {} else TableTargets(image, iterate, entry, hardCap, jrPc, d.value.0, d.value.1, d.value.2, lo, hi)
  }

  /** Only words that the walk from the case labels met may enter the suffix from outside, and
      in the scheduled form none. */
  ghost predicate Guarded(image: Image, entry: int, hardCap: int, jrPc: int, bound: Bound, base: Base, cases: set<int>) {
    forall source :: Reaches(entry, source) && source < hardCap && Enters(image, Start(bound, base), jrPc, source) ==>
                       !bound.scheduled && source in cases
  }

  lemma ToleratedGuards(image: Image, entry: int, hardCap: int, jrPc: int, bound: Bound, base: Base, cases: set<int>)
    requires AllTolerated(image, entry, hardCap, jrPc, bound, base, cases)
    ensures Guarded(image, entry, hardCap, jrPc, bound, base, cases)
  {
    forall source | Reaches(entry, source) && source < hardCap && Enters(image, Start(bound, base), jrPc, source)
      ensures !bound.scheduled && source in cases
    {
      StrayIsEntering(image, Start(bound, base), jrPc, source);
      assert Tolerated(image, Start(bound, base), jrPc, bound.scheduled, cases, source);
    }
  }

  /** What a nonempty answer is worth: the dispatch is proved word by word, every
      straight-line execution of it jumps to a target, every target is a case label, and
      the words that may enter the suffix are reached from the case labels. */
  ghost predicate Worth(image: Image, iterate: Iteration, entry: int, hardCap: int, jrPc: int, jrRs: Reg, lo: int,
                        hi: int, t: Tail, bound: Bound, base: Base, targets: set<int>) {
    && Proved(image, jrPc, jrRs, t, bound, base) && entry <= Start(bound, base)
    && CoversDispatch(image, jrPc, jrRs, t, bound, base, targets)
    && (forall x :: x in targets ==> IsCaseLabel(image, entry, hardCap, jrPc, bound, lo, hi, x))
    && Guarded(image, entry, hardCap, jrPc, bound, base,
               Cases(image, iterate, entry, hardCap, lo, hi, TableAt(t, base), bound.count))
    && forall pc :: pc in Cases(image, iterate, entry, hardCap, lo, hi, TableAt(t, base), bound.count) ==>
                      CaseReached(image, targets, pc)
  }

  /** Resolve one bounded `sltiu`/`jr` switch: the words of the table when the code spells a
      dispatch and its table is accepted, and nothing otherwise. */
  method FindJumpTableTargets(image: Image, iterate: Iteration, entry: int, hardCap: int, jrPc: int, jrRs: Reg, lo: int,
                              hi: int)
    returns (targets: set<int>)
    requires hi <= TWO32 && Iterates(iterate)
    ensures targets == TargetsOf(image, iterate, entry, hardCap, jrPc, jrRs, lo, hi)
    ensures targets != {} ==>
              var d := DispatchOf(image, entry, hardCap, jrPc, jrRs);
              d.Some? && Worth(image, iterate, entry, hardCap, jrPc, jrRs, lo, hi, d.value.0, d.value.1, d.value.2, targets)
  {
    targets := {};
    var found := MatchDispatch(image, entry, hardCap, jrPc, jrRs);
    if found.None? {
      return;
    }
    var (t, bound, base) := found.value;
    targets := ResolveTable(image, iterate, entry, hardCap, jrPc, t, bound, base, lo, hi);
    if targets != {} {
      TableCovers(image, jrPc, jrRs, t, bound, base, targets);
      ToleratedGuards(image, entry, hardCap, jrPc, bound, base,
                      Cases(image, iterate, entry, hardCap, lo, hi, TableAt(t, base), bound.count));
    }
  }

  // ----- The same for the functions ---------------------------------------------------------

  lemma {:induction false} NearestShape(image: Image, floor: int, pc: int, reg: Reg, before: int)
    requires Reaches(pc + 4, before) && Untouched(image, pc + 4, before, reg) && Nearest(image, floor, pc, reg).Some?
    ensures IsNearestWriter(image, reg, before, Nearest(image, floor, pc, reg).value)
    decreases pc - floor
  {
    if !WritesGpr(image(pc).value, reg) {
      var back := pc - 4;
      ReachesForward(pc + 4, before);
      NearestShape(image, floor, back, reg, before);
    }
  }

  lemma BaseShape(image: Image, entry: int, t: Tail, b: Base)
    requires BaseOf(image, entry, t) == Some(b)
    ensures IsBase(image, t, b)
  {
    var end := t.sllPc + 4;
    assert Reaches(end, end) && Untouched(image, end, end, t.table);
    NearestShape(image, Floor(entry, end), t.sllPc, t.table, end);
    if b.defPc != b.constantPc {
      var rs := image(b.defPc).value.rs;
      assert Reaches(b.defPc, b.defPc) && Untouched(image, b.defPc, b.defPc, rs);
      NearestShape(image, Floor(entry, b.defPc), b.defPc - 4, rs, b.defPc);
      ReachesForward(b.constantPc + 4, b.defPc);
    }
  }

  lemma DispatchProved(image: Image, entry: int, hardCap: int, jrPc: int, jrRs: Reg, t: Tail, bound: Bound, base: Base)
    requires DispatchOf(image, entry, hardCap, jrPc, jrRs) == Some((t, bound, base))
    ensures Proved(image, jrPc, jrRs, t, bound, base)
  {
    TailShape(image, jrPc, jrRs, t);
    BoundShape(image, entry, hardCap, jrPc, t, bound);
    BaseShape(image, entry, t, base);
  }

  lemma {:induction false} WordsHeld(image: Image, table: Word, n: nat, k: nat)
    requires k < n && image(table + 4 * k).Some?
    ensures image(table + 4 * k).value.raw in TableWords(image, table, n)
    decreases n
  {
    if k < n - 1 {
      WordsHeld(image, table, n - 1, k);
    }
  }

  lemma AcceptedSlots(image: Image, entry: int, hardCap: int, jrPc: int, bound: Bound, table: Word, lo: int, hi: int,
                      targets: set<int>)
    requires forall k :: 0 <= k < bound.count ==> GoodSlot(image, entry, hardCap, jrPc, bound, table, lo, hi, k)
    requires targets == set x | x in TableWords(image, table, bound.count)
    ensures SlotsIn(image, table, bound.count, targets)
  {
    forall k | 0 <= k < bound.count
      ensures image(table + 4 * k).Some? && image(table + 4 * k).value.raw in targets
    {
      assert GoodSlot(image, entry, hardCap, jrPc, bound, table, lo, hi, k);
      WordsHeld(image, table, bound.count, k);
    }
  }

  /** The straight-line executions of a dispatch whose table is accepted jump to its words. */
  lemma AcceptedCovers(image: Image, iterate: Iteration, entry: int, hardCap: int, jrPc: int, jrRs: Reg, t: Tail,
                       bound: Bound, base: Base, lo: int, hi: int)
    requires hi <= TWO32 && DispatchOf(image, entry, hardCap, jrPc, jrRs) == Some((t, bound, base))
    requires TableAccepted(image, iterate, entry, hardCap, jrPc, t, bound, base, lo, hi)
    ensures CoversDispatch(image, jrPc, jrRs, t, bound, base, set x | x in TableWords(image, TableAt(t, base), bound.count))
  {
    var table := TableAt(t, base);
    var targets := set x | x in TableWords(image, table, bound.count);
    DispatchProved(image, entry, hardCap, jrPc, jrRs, t, bound, base);
    AcceptedSlots(image, entry, hardCap, jrPc, bound, table, lo, hi, targets);
    TableCovers(image, jrPc, jrRs, t, bound, base, targets);
  }

  /** No control transfer between the constant and the tail but the bounds branch. */
  ghost predicate PlainBetween(image: Image, constantPc: int, sllPc: int, branchPc: int) {
    forall pc :: Reaches(constantPc + 4, pc) && pc < sllPc ==> PlainWord(image, pc, branchPc)
  }

  predicate PlainWord(image: Image, pc: int, branchPc: int) {
    image(pc).Some? && (IsControlFlow(image(pc).value) ==> pc == branchPc)
  }

  method NoOtherControl(image: Image, constantPc: int, sllPc: int, branchPc: int) returns (ok: bool)
    ensures ok == PlainBetween(image, constantPc, sllPc, branchPc)
  {
    var pc := constantPc + 4;
    while pc < sllPc
      invariant Reaches(constantPc + 4, pc)
      invariant forall q :: Reaches(constantPc + 4, q) && q < sllPc ==> Reaches(pc, q) || PlainWord(image, q, branchPc)
      decreases sllPc - pc
    {
      if image(pc).None? || (IsControlFlow(image(pc).value) && pc != branchPc) {
        assert !PlainWord(image, pc, branchPc);
        return false;
      }
      assert Reaches(pc, pc + 4);
      ReachesOn(constantPc + 4, pc, pc + 4);
      pc := pc + 4;
    }
    forall q | Reaches(pc, q)
      ensures pc <= q
    {
      ReachesForward(pc, q);
    }
    ok := true;
  }
}
