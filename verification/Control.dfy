/** Where the CPU is after a word and its delay slot: the transfers of the instruction set,
    read off the fields of the word and decided by the registers.  Branch-likely words follow
    the MIPS II manual. */
module Control {
  import opened Mips

  /** What a conditional transfer tests.  A coprocessor's flag is outside the registers, and an
      encoding that the manual leaves open may go either way like one. */
  datatype Test = Equal | Differ | AtMostZero | AboveZero | BelowZero | AtLeastZero | Flag

  datatype Transfer =
    | NoTransfer
    | Conditional(test: Test, likely: bool, links: bool)
    | Absolute(links: bool)
    | ThroughRegister(links: bool)

  function TransferOf(i: Instr): Transfer {
    match i.op
    case 0x00 => if i.fn == 8 then ThroughRegister(false) else if i.fn == 9 then ThroughRegister(true) else NoTransfer
    case 0x01 => SignTransfer(i.rt)
    case 0x02 => Absolute(false)
    case 0x03 => Absolute(true)
    case 0x04 => Conditional(Equal, false, false)
    case 0x05 => Conditional(Differ, false, false)
    case 0x06 => Conditional(AtMostZero, false, false)
    case 0x07 => Conditional(AboveZero, false, false)
    case 0x11 => if i.rs == 8 then Conditional(Flag, false, false) else NoTransfer
    case 0x12 => if i.rs == 8 then Conditional(Flag, false, false) else NoTransfer
    case 0x14 => Conditional(Equal, true, false)
    case 0x15 => Conditional(Differ, true, false)
    case 0x16 => Conditional(AtMostZero, true, false)
    case 0x17 => Conditional(AboveZero, true, false)
    case _ => NoTransfer
  }

  /** The branches on a sign: the low bit of the field is the test, the next makes it likely,
      and the highest makes it a call. */
  function SignTransfer(field: Reg): Transfer {
    var test := if field % 2 == 0 then BelowZero else AtLeastZero;
    if field < 4 then Conditional(test, field >= 2, false)
    else if 16 <= field < 20 then Conditional(test, field >= 18, true)
    else Conditional(Flag, false, false)
  }

  predicate Negative(w: Word) { w >= 0x8000_0000 }

  predicate Holds(test: Test, a: Word, b: Word, flag: bool) {
    match test
    case Equal => a == b
    case Differ => a != b
    case AtMostZero => a == 0 || Negative(a)
    case AboveZero => a != 0 && !Negative(a)
    case BelowZero => Negative(a)
    case AtLeastZero => !Negative(a)
    case Flag => flag
  }

  predicate Taken(i: Instr, s: Cpu, flag: bool) {
    match TransferOf(i)
    case NoTransfer => false
    case Conditional(test, _, _) => Holds(test, s.regs[i.rs], s.regs[i.rt], flag)
    case _ => true
  }

  /** Where a taken transfer goes: a word offset from the delay slot, a word of the delay slot's
      256 MiB region, or the address in the register. */
  function Target(pc: int, i: Instr, s: Cpu): int {
    match TransferOf(i)
    case ThroughRegister(_) => s.regs[i.rs]
    case Absolute(_) => var slot := (pc + 4) % 0x1_0000_0000; slot - slot % 0x1000_0000 + 4 * (i.raw % 0x400_0000)
    case _ => pc + 4 + (if i.imm < 0x8000 then 4 * i.imm else 4 * i.imm - 0x4_0000)
  }

  /** Where the CPU is after the word at `pc`, and after the delay slot if it has one. */
  function After(pc: int, i: Instr, s: Cpu, flag: bool): int {
    if TransferOf(i).NoTransfer? then pc + 4 else if Taken(i, s, flag) then Target(pc, i, s) else pc + 8
  }

  /** The delay slot runs, except after a branch-likely that is not taken. */
  predicate SlotRuns(i: Instr, s: Cpu, flag: bool) {
    var t := TransferOf(i);
    !t.NoTransfer? && (t.Conditional? && t.likely ==> Taken(i, s, flag))
  }

  ghost predicate CanTake(i: Instr) {
    exists s: Cpu, flag :: Taken(i, s, flag)
  }

  ghost predicate CanFall(i: Instr) {
    exists s: Cpu, flag :: !Taken(i, s, flag)
  }

  predicate Links(i: Instr) {
    var t := TransferOf(i);
    !t.NoTransfer? && t.links
  }

  /** A call, whatever the registers hold: the callee is another function, which returns behind
      the delay slot. */
  ghost predicate AlwaysCalls(i: Instr) {
    Links(i) && !CanFall(i)
  }

  /** The word jumps to an address from a register and does not come back. */
  predicate JumpsAway(i: Instr) {
    TransferOf(i) == ThroughRegister(false)
  }

  // ----- The same as the discovery code classifies it ----------------------------------------------

  /** A state in which one register holds `w`. */
  function Holding(r: Reg, w: Word): (s: Cpu)
    ensures r != 0 ==> s.regs[r] == w
    ensures forall q: Reg :: q != r ==> s.regs[q] == 0
  {
    var zeros := seq(32, _ => 0 as Word);
    Cpu(if r == 0 then zeros else zeros[r := w], (_: Word) => 0)
  }

  /** A branch can go both ways unless its test compares a register with itself, or `$zero`
      with zero. */
  lemma BothWays(i: Instr)
    requires TransferOf(i).Conditional?
    requires var test := TransferOf(i).test;
             test == Flag || (if test == Equal || test == Differ then i.rs != i.rt else i.rs != 0)
    ensures CanTake(i) && CanFall(i)
  {
    var test := TransferOf(i).test;
    var r := if i.rs != 0 then i.rs else i.rt;
    var zero, one, minus := Holding(r, 0), Holding(r, 1), Holding(r, 0x8000_0000);
    assert Taken(i, zero, true) || Taken(i, one, true) || Taken(i, minus, true);
    assert !Taken(i, zero, false) || !Taken(i, one, false) || !Taken(i, minus, false);
  }

  lemma FlowWords(i: Instr)
    ensures IsControlFlow(i) <==> !TransferOf(i).NoTransfer?
  {
  }

  /** The class of a word is what its transfer can do, and its target is where it goes. */
  lemma ClassMeans(pc: int, i: Instr)
    ensures
      var (kind, target) := Classify(pc, i);
      && (kind == Normal <==> TransferOf(i).NoTransfer?)
      && (kind == Jr || kind == JrRa <==> TransferOf(i) == ThroughRegister(false))
      && (kind == JrRa <==> TransferOf(i) == ThroughRegister(false) && i.rs == 31)
      && (kind == Jalr <==> TransferOf(i) == ThroughRegister(true))
      && (kind == Branch <==> CanTake(i) && CanFall(i))
      && (kind == J <==> !TransferOf(i).ThroughRegister? && !CanFall(i) && !Links(i))
      && (kind == Jal <==> !TransferOf(i).ThroughRegister? && AlwaysCalls(i))
      && (kind == BranchNever || kind == BranchNeverLikely <==> !TransferOf(i).NoTransfer? && !CanTake(i))
      && (kind == BranchNeverLikely ==> TransferOf(i).likely)
      && (kind == BranchNever ==> !TransferOf(i).likely)
      && (kind == Branch || kind == J || kind == Jal ==> forall s :: Target(pc, i, s) == target)
  {
    var s := Holding(0, 0);
    var kind := Classify(pc, i).0;
    assert Taken(i, s, true) || !Taken(i, s, true);
    if kind == Branch {
      BothWays(i);
    }
    assert kind == J || kind == Jal || kind == Jalr || kind == Jr || kind == JrRa ==> Taken(i, s, true);
    assert kind == Normal || kind == BranchNever || kind == BranchNeverLikely ==> !Taken(i, s, true);
  }
}
