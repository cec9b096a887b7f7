/** The constant feeding an indirect jump: a backward scan for LUI, optionally completed
    by one ADDIU or ORI, inside one basic block. */
module ConstantTransfer {
  import opened Options
  import opened Mips
  import Control

  /** The completing instruction a scan has met. */
  datatype Low = NoLow | Low(i: Instr)

  function Constant(upper: Word, low: Low): Word {
    match low
    case NoLow => upper
    case Low(i) => if i.op == 0x09 then Wrap(upper as int + Signed(i)) else OrLow(upper, i.imm)
  }

  predicate Completes(i: Instr, reg: Reg) {
    (i.op == 0x09 || i.op == 0x0D) && i.rs == reg && i.rt == reg
  }

  predicate LoadsUpper(i: Instr, reg: Reg) {
    i.op == 0x0F && i.rt == reg
  }

  /** Scan back from `pc` to `limit`: the LUI found and the constant it completes to. */
  function Scan(image: Image, limit: int, pc: int, reg: Reg, low: Low): Option<(int, Word)>
    decreases pc - limit
  {
    if pc < limit || image(pc).None? then None
    else
      var i := image(pc).value;
      if low.NoLow? && Completes(i, reg) then Scan(image, limit, pc - 4, reg, Low(i))
      else if LoadsUpper(i, reg) then Some((pc, Constant(Upper(i), low)))
      else if WritesGpr(i, reg) || IsControlFlow(i) then None
      else Scan(image, limit, pc - 4, reg, low)
  }

  /** The scan looks at sixteen words and stays inside the function. */
  function Limit(entry: int, transfer: int): int {
    if entry < transfer - 64 then transfer - 64 else entry
  }

  function Candidate(image: Image, entry: int, transfer: int, reg: Reg): Option<(int, Word)> {
    Scan(image, Limit(entry, transfer), transfer - 4, reg, NoLow)
  }

  /** A direct edge from `source` or a later word lands after the LUI. */
  predicate EntersBetween(image: Image, source: int, transfer: int, lui: int)
    decreases transfer - source
  {
    if source >= transfer then false
    else
      || (image(source).Some? && Classify(source, image(source).value).0 in {Branch, J, Jal}
          && lui < Classify(source, image(source).value).1 <= transfer)
      || EntersBetween(image, source + 4, transfer, lui)
  }

  /** A LUI in a delay slot, or one an edge skips, proves nothing. */
  predicate Trusted(image: Image, entry: int, transfer: int, lui: int) {
    && !(lui >= entry + 4 && image(lui - 4).Some? && IsControlFlow(image(lui - 4).value))
    && !EntersBetween(image, entry, transfer, lui)
  }

  /** The constant resolved for a transfer through `reg`, if any. */
  function Resolve(image: Image, entry: int, transfer: int, reg: Reg): Option<Word> {
    var found := Candidate(image, entry, transfer, reg);
    if found.Some? && Trusted(image, entry, transfer, found.value.0) then Some(found.value.1) else None
  }

  /** Words from `hi` to the transfer leave `reg` alone, but for the completing one. */
  ghost predicate Scanned(image: Image, hi: int, transfer: int, reg: Reg, low: Low, lowPc: int) {
    match low
    case NoLow => Untouched(image, hi, transfer, reg)
    case Low(i) =>
      && lowPc < transfer && Reaches(hi, lowPc)
      && image(lowPc) == Some(i) && Completes(i, reg)
      && Untouched(image, hi, lowPc, reg) && Untouched(image, lowPc + 4, transfer, reg)
  }

  lemma LuiLoads(i: Instr, s: Cpu, s': Cpu, reg: Reg)
    requires Executes(i, s, s') && LoadsUpper(i, reg) && reg != 0
    ensures s'.regs[reg] == Upper(i)
  {
  }

  lemma LowCompletes(i: Instr, s: Cpu, s': Cpu, reg: Reg)
    requires Executes(i, s, s') && Completes(i, reg) && reg != 0
    ensures s'.regs[reg] == Constant(s.regs[reg], Low(i))
  {
    assert Destination(i) == Some(reg);
    assert Result(i, s) == Some(Constant(s.regs[reg], Low(i)));
  }

  /** From the LUI on, every straight-line execution arrives with the constant. */
  lemma LuiReaches(image: Image, lui: int, transfer: int, reg: Reg, low: Low, lowPc: int, run: int -> Cpu)
    requires Straight(image, lui, transfer, run) && lui < transfer && reg != 0
    requires image(lui).Some? && LoadsUpper(image(lui).value, reg)
    requires Scanned(image, lui + 4, transfer, reg, low, lowPc)
    ensures run(transfer).regs[reg] == Constant(Upper(image(lui).value), low)
  {
    var after := lui + 4;
    LuiLoads(image(lui).value, run(lui), run(after), reg);
    match low
    case NoLow =>
      Keeps(image, after, transfer, run, reg);
    case Low(i) =>
      Split(image, after, lowPc, transfer, run);
      Keeps(image, after, lowPc, run, reg);
      LowReaches(image, lowPc, transfer, i, run, reg);
  }

  lemma LowReaches(image: Image, lowPc: int, transfer: int, i: Instr, run: int -> Cpu, reg: Reg)
    requires Straight(image, lowPc, transfer, run) && lowPc < transfer && image(lowPc) == Some(i)
    requires Completes(i, reg) && reg != 0 && Untouched(image, lowPc + 4, transfer, reg)
    ensures run(transfer).regs[reg] == Constant(run(lowPc).regs[reg], Low(i))
  {
    LowCompletes(i, run(lowPc), run(lowPc + 4), reg);
    Keeps(image, lowPc + 4, transfer, run, reg);
  }

  lemma ScannedBack(image: Image, pc: int, transfer: int, reg: Reg, low: Low, lowPc: int)
    requires image(pc).Some? && !WritesGpr(image(pc).value, reg)
    requires Scanned(image, pc + 4, transfer, reg, low, lowPc)
    ensures Scanned(image, pc, transfer, reg, low, lowPc)
  {
    if low.Low? {
      ReachesOn(pc + 4, lowPc, lowPc);
    }
  }

  lemma {:induction false} ScanSound(image: Image, limit: int, pc: int, transfer: int, reg: Reg,
                                     low: Low, lowPc: int, run: int -> Cpu)
    requires reg != 0 && pc < transfer
    requires Scanned(image, pc + 4, transfer, reg, low, lowPc)
    requires Scan(image, limit, pc, reg, low).Some?
    requires Straight(image, Scan(image, limit, pc, reg, low).value.0, transfer, run)
    ensures run(transfer).regs[reg] == Scan(image, limit, pc, reg, low).value.1
    decreases pc - limit
  {
    var i := image(pc).value;
    if low.NoLow? && Completes(i, reg) {
      ScanSound(image, limit, pc - 4, transfer, reg, Low(i), pc, run);
    } else if LoadsUpper(i, reg) {
      LuiReaches(image, pc, transfer, reg, low, lowPc, run);
    } else {
      ScannedBack(image, pc, transfer, reg, low, lowPc);
      ScanSound(image, limit, pc - 4, transfer, reg, low, lowPc, run);
    }
  }

  /** On every straight-line execution from the LUI the scan found, for every starting
      state and every intervening instruction, the resolved constant is the register's
      value exactly when the register is not $zero (or the constant happens to be 0). */
  lemma ResolveSound(image: Image, entry: int, transfer: int, reg: Reg, run: int -> Cpu)
    requires Resolve(image, entry, transfer, reg).Some?
    requires Straight(image, Candidate(image, entry, transfer, reg).value.0, transfer, run)
    ensures run(transfer).regs[reg] == Resolve(image, entry, transfer, reg).value
            <==> reg != 0 || Resolve(image, entry, transfer, reg).value == 0
  {
    if reg != 0 {
      assert Untouched(image, transfer, transfer, reg);
      ScanSound(image, Limit(entry, transfer), transfer - 4, transfer, reg, NoLow, 0, run);
    }
  }

  // ----- When the resolver answers -----------------------------------------------------------------

  /** A word that neither defines the register nor ends the block. */
  predicate Passive(i: Instr, reg: Reg, completed: bool) {
    !WritesGpr(i, reg) && !IsControlFlow(i) && !LoadsUpper(i, reg) && (completed || !Completes(i, reg))
  }

  /** The whole words from `from` to `end` are all passive. */
  ghost predicate AllPassive(image: Image, from: int, end: int, reg: Reg, completed: bool)
    decreases end - from
  {
    || from == end
    || (from < end && image(end - 4).Some? && Passive(image(end - 4).value, reg, completed)
        && AllPassive(image, from, end - 4, reg, completed))
  }

  /** A LUI of the function, at most sixteen words before the transfer, and the completing word
      after it if there is one, with only passive words between. */
  ghost predicate Feeds(image: Image, entry: int, transfer: int, reg: Reg, lui: int, low: Low, lowPc: int) {
    && entry <= lui && transfer - 64 <= lui < transfer && image(lui).Some? && LoadsUpper(image(lui).value, reg)
    && match low
       case NoLow => AllPassive(image, lui + 4, transfer, reg, false)
       case Low(i) =>
         && lui < lowPc < transfer && image(lowPc) == Some(i) && Completes(i, reg)
         && AllPassive(image, lowPc + 4, transfer, reg, false) && AllPassive(image, lui + 4, lowPc, reg, true)
  }

  lemma {:induction false} ScanFinds(image: Image, limit: int, pc: int, reg: Reg, low: Low, lui: int)
    requires limit <= lui <= pc && image(lui).Some? && LoadsUpper(image(lui).value, reg)
    requires AllPassive(image, lui + 4, pc + 4, reg, low.Low?)
    ensures Scan(image, limit, pc, reg, low) == Some((lui, Constant(Upper(image(lui).value), low)))
    decreases pc - lui
  {
    if lui < pc {
      ScanFinds(image, limit, pc - 4, reg, low, lui);
    }
  }

  lemma {:induction false} ScanFindsLow(image: Image, limit: int, pc: int, reg: Reg, lowPc: int, lui: int)
    requires limit <= lui < lowPc <= pc && image(lui).Some? && LoadsUpper(image(lui).value, reg)
    requires image(lowPc).Some? && Completes(image(lowPc).value, reg)
    requires AllPassive(image, lowPc + 4, pc + 4, reg, false) && AllPassive(image, lui + 4, lowPc, reg, true)
    ensures Scan(image, limit, pc, reg, NoLow) == Some((lui, Constant(Upper(image(lui).value), Low(image(lowPc).value))))
    decreases pc - lowPc
  {
    if lowPc < pc {
      ScanFindsLow(image, limit, pc - 4, reg, lowPc, lui);
    } else {
      PassiveForward(image, lui + 4, lowPc, reg, true);
      ScanFinds(image, limit, pc - 4, reg, Low(image(lowPc).value), lui);
    }
  }

  lemma PassiveForward(image: Image, from: int, end: int, reg: Reg, completed: bool)
    requires AllPassive(image, from, end, reg, completed)
    ensures from <= end
  {
  }

  /** What a scan that succeeds came by; `hi` is where the words it has passed begin. */
  lemma {:induction false} ScanShape(image: Image, limit: int, pc: int, reg: Reg, low: Low, hi: int)
    returns (lui: int, last: Low, lowPc: int)
    requires Scan(image, limit, pc, reg, low).Some? && AllPassive(image, pc + 4, hi, reg, low.Low?)
    ensures limit <= lui <= pc && image(lui).Some? && LoadsUpper(image(lui).value, reg)
    ensures Scan(image, limit, pc, reg, low) == Some((lui, Constant(Upper(image(lui).value), last)))
    ensures last == low ==> AllPassive(image, lui + 4, hi, reg, low.Low?)
    ensures last != low ==>
              && low.NoLow? && last.Low? && lui < lowPc <= pc && image(lowPc) == Some(last.i) && Completes(last.i, reg)
              && AllPassive(image, lowPc + 4, hi, reg, false) && AllPassive(image, lui + 4, lowPc, reg, true)
    decreases pc - limit
  {
    var i := image(pc).value;
    if low.NoLow? && Completes(i, reg) {
      var inner: int;
      lui, last, inner := ScanShape(image, limit, pc - 4, reg, Low(i), pc);
      lowPc := pc;
    } else if LoadsUpper(i, reg) {
      lui, last, lowPc := pc, low, pc;
    } else {
      PassiveBefore(image, pc, hi, reg, low.Low?);
      lui, last, lowPc := ScanShape(image, limit, pc - 4, reg, low, hi);
    }
  }

  lemma {:induction false} PassiveBefore(image: Image, pc: int, hi: int, reg: Reg, completed: bool)
    requires AllPassive(image, pc + 4, hi, reg, completed) && image(pc).Some? && Passive(image(pc).value, reg, completed)
    ensures AllPassive(image, pc, hi, reg, completed)
    decreases hi - pc
  {
    if hi == pc + 4 {
      assert AllPassive(image, pc, hi - 4, reg, completed);
    } else {
      PassiveBefore(image, pc, hi - 4, reg, completed);
    }
  }

  ghost predicate FedBy(image: Image, entry: int, transfer: int, reg: Reg, lui: int, constant: Word) {
    exists low, lowPc :: Feeds(image, entry, transfer, reg, lui, low, lowPc)
                         && constant == Constant(Upper(image(lui).value), low)
  }

  lemma CandidateExactly(image: Image, entry: int, transfer: int, reg: Reg, lui: int, constant: Word)
    ensures Candidate(image, entry, transfer, reg) == Some((lui, constant)) <==> FedBy(image, entry, transfer, reg, lui, constant)
  {
    var limit, pc := Limit(entry, transfer), transfer - 4;
    if Candidate(image, entry, transfer, reg) == Some((lui, constant)) {
      var _, low, lowPc := ScanShape(image, limit, pc, reg, NoLow, transfer);
      assert Feeds(image, entry, transfer, reg, lui, low, lowPc);
    }
    forall low, lowPc | Feeds(image, entry, transfer, reg, lui, low, lowPc)
      ensures Candidate(image, entry, transfer, reg) == Some((lui, Constant(Upper(image(lui).value), low)))
    {
      FeedsFound(image, entry, transfer, reg, lui, low, lowPc);
    }
  }

  lemma FeedsFound(image: Image, entry: int, transfer: int, reg: Reg, lui: int, low: Low, lowPc: int)
    requires Feeds(image, entry, transfer, reg, lui, low, lowPc)
    ensures Candidate(image, entry, transfer, reg) == Some((lui, Constant(Upper(image(lui).value), low)))
  {
    var limit, pc := Limit(entry, transfer), transfer - 4;
    if low.NoLow? {
      PassiveForward(image, lui + 4, transfer, reg, false);
      ScanFinds(image, limit, pc, reg, NoLow, lui);
    } else {
      PassiveForward(image, lowPc + 4, transfer, reg, false);
      ScanFindsLow(image, limit, pc, reg, lowPc, lui);
    }
  }

  /** Some state of the CPU takes the word at `source` past the LUI, up to the transfer. */
  ghost predicate Skips(image: Image, source: int, transfer: int, lui: int) {
    && image(source).Some? && !Control.TransferOf(image(source).value).ThroughRegister?
    && exists s, flag :: Control.Taken(image(source).value, s, flag)
                         && lui < Control.Target(source, image(source).value, s) <= transfer
  }

  lemma SkipsIsEdge(image: Image, source: int, transfer: int, lui: int)
    ensures Skips(image, source, transfer, lui) <==>
            (image(source).Some? && Classify(source, image(source).value).0 in {Branch, J, Jal}
             && lui < Classify(source, image(source).value).1 <= transfer)
  {
    if image(source).Some? {
      Control.ClassMeans(source, image(source).value);
      if Classify(source, image(source).value).0 in {Branch, J, Jal} {
        var s, flag :| Control.Taken(image(source).value, s, flag);
      }
    }
  }

  lemma {:induction false} EntersExactly(image: Image, from: int, transfer: int, lui: int)
    ensures EntersBetween(image, from, transfer, lui) <==>
              exists source :: Reaches(from, source) && source < transfer && Skips(image, source, transfer, lui)
    decreases transfer - from
  {
    if from < transfer {
      SkipsIsEdge(image, from, transfer, lui);
      EntersExactly(image, from + 4, transfer, lui);
      assert Reaches(from, from);
    } else {
      forall source | Reaches(from, source)
        ensures from <= source
      {
        ReachesForward(from, source);
      }
    }
  }

  /** The resolver answers exactly when a LUI, completed or not, feeds the transfer through
      passive words, is not in a delay slot, and no word before the transfer can skip it. */
  lemma ResolvesExactly(image: Image, entry: int, transfer: int, reg: Reg, constant: Word)
    ensures Resolve(image, entry, transfer, reg) == Some(constant) <==>
              exists lui ::
                && FedBy(image, entry, transfer, reg, lui, constant)
                && !(lui >= entry + 4 && image(lui - 4).Some? && !Control.TransferOf(image(lui - 4).value).NoTransfer?)
                && !exists source :: Reaches(entry, source) && source < transfer && Skips(image, source, transfer, lui)
  {
    forall lui: int
      ensures Candidate(image, entry, transfer, reg) == Some((lui, constant)) <==> FedBy(image, entry, transfer, reg, lui, constant)
      ensures Trusted(image, entry, transfer, lui) <==>
                && !(lui >= entry + 4 && image(lui - 4).Some? && !Control.TransferOf(image(lui - 4).value).NoTransfer?)
                && !exists source :: Reaches(entry, source) && source < transfer && Skips(image, source, transfer, lui)
    {
      CandidateExactly(image, entry, transfer, reg, lui, constant);
      EntersExactly(image, entry, transfer, lui);
      if image(lui - 4).Some? {
        Control.FlowWords(image(lui - 4).value);
      }
    }
    var found := Candidate(image, entry, transfer, reg);
    assert found.Some? ==> found == Some((found.value.0, found.value.1));
  }

  /** `lui reg, hi; addiu reg, reg, lo; jr reg`, and the same with ORI: the halves side by side
      for ORI, and with the low one sign-extended for ADDIU. */
  lemma PairResolves(image: Image, entry: int, lui: int, reg: Reg, hi: Half, lo: Half, adds: bool)
    requires entry <= lui && image(lui).Some? && image(lui + 4).Some? && Trusted(image, entry, lui + 8, lui)
    requires var i := image(lui).value; i.op == 0x0F && i.rt == reg && i.imm == hi
    requires var i := image(lui + 4).value; i.op == (if adds then 0x09 else 0x0D) && i.rs == i.rt == reg && i.imm == lo
    ensures Resolve(image, entry, lui + 8, reg)
            == Some(if !adds then 0x1_0000 * hi + lo
                    else if lo < 0x8000 then 0x1_0000 * hi + lo
                    else if hi > 0 then 0x1_0000 * (hi - 1) + lo
                    else 0xFFFF_0000 + lo)
  {
    var low := Low(image(lui + 4).value);
    assert Feeds(image, entry, lui + 8, reg, lui, low, lui + 4);
    FeedsFound(image, entry, lui + 8, reg, lui, low, lui + 4);
  }

  /** `lui reg, hi; jr reg` */
  lemma UpperResolves(image: Image, entry: int, lui: int, reg: Reg, hi: Half)
    requires entry <= lui && image(lui).Some? && Trusted(image, entry, lui + 4, lui)
    requires var i := image(lui).value; i.op == 0x0F && i.rt == reg && i.imm == hi
    ensures Resolve(image, entry, lui + 4, reg) == Some(0x1_0000 * hi)
  {
    assert Feeds(image, entry, lui + 4, reg, lui, NoLow, lui);
    FeedsFound(image, entry, lui + 4, reg, lui, NoLow, lui);
  }

  /** `lui $zero, 0x8001; jr $zero` resolves to 0x80010000 although $zero reads as 0. */
  lemma ZeroRegisterMisresolved()
    ensures
      var image := Captured([0x01, 0x80, 0x00, 0x3C, 0x08, 0x00, 0x00, 0x00], 0x8000_0000);
      Resolve(image, 0x8000_0000, 0x8000_0004, 0) == Some(0x8001_0000)
  {
    var image := Captured([0x01, 0x80, 0x00, 0x3C, 0x08, 0x00, 0x00, 0x00], 0x8000_0000);
    var at := 0x8000_0000;
    assert image(at) == Some(Decode(LittleEndian(0x01, 0x80, 0x00, 0x3C)));
    assert LittleEndian(0x01, 0x80, 0x00, 0x3C) == 0x3C00_8001;
    assert Classify(at, Decode(0x3C00_8001)) == (Normal, 0);
    assert EntersBetween(image, at, at + 4, at) == EntersBetween(image, at + 4, at + 4, at);
  }

  /** Whether a direct edge of the function enters between the LUI and the transfer. */
  method FindEdge(image: Image, entry: int, transfer: int, lui: int) returns (crossed: bool)
    ensures crossed == EntersBetween(image, entry, transfer, lui)
  {
    var source := entry;
    while source < transfer
      invariant EntersBetween(image, entry, transfer, lui) == EntersBetween(image, source, transfer, lui)
      decreases transfer - source
    {
      if image(source).Some? {
        var (kind, target) := Classify(source, image(source).value);
        if kind in {Branch, J, Jal} && lui < target <= transfer {
          return true;
        }
      }
      source := source + 4;
    }
    crossed := false;
  }

  /** Resolve a same-basic-block LUI + ADDIU/ORI constant feeding an indirect jump. */
  method ResolveConstantTransfer(image: Image, entry: int, transfer: int, reg: Reg) returns (constant: Option<Word>)
    ensures constant == Resolve(image, entry, transfer, reg)
  {
    ghost var limit := Limit(entry, transfer);
    var low := NoLow;
    for count := 1 to 17
      invariant Candidate(image, entry, transfer, reg) == Scan(image, limit, transfer - 4 * count, reg, low)
    {
      var pc := transfer - 4 * count;
      if pc < entry || image(pc).None? {
        return None;
      }
      var i := image(pc).value;
      if low.NoLow? && Completes(i, reg) {
        low := Low(i);
      } else if LoadsUpper(i, reg) {
        if pc >= entry + 4 && image(pc - 4).Some? && IsControlFlow(image(pc - 4).value) {
          return None;
        }
        var crossed := FindEdge(image, entry, transfer, pc);
        return if crossed then None else Some(Constant(Upper(i), low));
      } else if WritesGpr(i, reg) || IsControlFlow(i) {
        return None;
      }
    }
    constant := None;
  }
}
