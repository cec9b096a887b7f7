/** MIPS I words as the overlay discovery code decodes them, and the register effects of
    straight-line execution on the console's CPU, with interlocked loads. */
module Mips {
  import opened Options
  import opened Powers

  const TWO32: nat := 0x1_0000_0000

  type Byte = b: nat | b < 256
  type Word = w: nat | w < TWO32
  type Reg = r: nat | r < 32
  type Half = h: nat | h < 0x1_0000

  /** A word and its fields. */
  datatype Instr = Instr(raw: Word, op: nat, rs: Reg, rt: Reg, rd: Reg, sa: Reg, fn: nat, imm: Half)

  function Decode(w: Word): Instr {
    Instr(w, w / 0x400_0000, w / 0x20_0000 % 32, w / 0x1_0000 % 32, w / 0x800 % 32, w / 0x40 % 32,
          w % 64, w % 0x1_0000)
  }

  /** The fields put together are the word: an opcode, two registers and an immediate, which is
      a third register, a shift amount and a function code. */
  lemma FieldsMakeWord(w: Word)
    ensures var i := Decode(w);
            && i.raw == w && i.op < 64 && i.fn < 64
            && w == 0x400_0000 * i.op + 0x20_0000 * i.rs + 0x1_0000 * i.rt + i.imm
            && i.imm == 0x800 * i.rd + 0x40 * i.sa + i.fn
  {
    UpperFields(w);
    LowerFields(w % 0x1_0000);
    SameLow(w);
  }

  lemma UpperFields(w: Word)
    ensures w == 0x400_0000 * (w / 0x400_0000) + 0x20_0000 * (w / 0x20_0000 % 32) + 0x1_0000 * (w / 0x1_0000 % 32) + w % 0x1_0000
    ensures w / 0x400_0000 < 64
  {
    var u := w / 0x1_0000;
    var v := u / 32;
    assert w / 0x20_0000 == v;
    assert w / 0x400_0000 == v / 32;
  }

  lemma LowerFields(h: Half)
    ensures h == 0x800 * (h / 0x800) + 0x40 * (h / 0x40 % 32) + h % 64 && h / 0x800 < 32
  {
    var u := h / 0x40;
    assert h / 0x800 == u / 32;
  }

  lemma SameLow(w: Word)
    ensures var h := w % 0x1_0000; w / 0x800 % 32 == h / 0x800 && w / 0x40 % 32 == h / 0x40 % 32 && w % 64 == h % 64
  {
    var u, h := w / 0x1_0000, w % 0x1_0000;
    assert w == 0x1_0000 * u + h;
    Shifted(32 * u, h, 0x800);
    Shifted(1024 * u, h, 0x40);
  }

  lemma Shifted(k: nat, h: Half, unit: nat)
    requires unit == 0x800 || unit == 0x40
    ensures (unit * k + h) / unit == k + h / unit && (unit * k + h) % unit == h % unit
  {
  }

  /** A captured image: the decoded word at each address, where there is one. */
  type Image = int -> Option<Instr>

  /** The image of raw little-endian bytes loaded at `load`. */
  function Captured(data: seq<Byte>, load: int): Image {
    (addr: int) =>
      var off := addr - load;
      if off < 0 || off + 4 > |data| then None
      else Some(Decode(LittleEndian(data[off], data[off + 1], data[off + 2], data[off + 3])))
  }

  function LittleEndian(a: Byte, b: Byte, c: Byte, d: Byte): Word {
    a as int + 0x100 * b as int + 0x1_0000 * c as int + 0x100_0000 * d as int
  }

  function WordBytes(w: Word): (r: seq<Byte>)
    ensures |r| == 4 && LittleEndian(r[0], r[1], r[2], r[3]) == w
  {
    var a := w / 256;
    var b := a / 256;
    [w % 256, a % 256, b % 256, b / 256]
  }

  /** Words as they lie in memory. */
  function Stored(words: seq<Word>): (r: seq<Byte>)
    ensures |r| == 4 * |words|
  {
    if words == [] then [] else WordBytes(words[0]) + Stored(words[1..])
  }

  lemma {:induction false} StoredAt(words: seq<Word>, k: nat)
    requires k < |words|
    ensures Stored(words)[4 * k..4 * k + 4] == WordBytes(words[k])
    decreases |words|
  {
    if k > 0 {
      var n := k - 1;
      StoredAt(words[1..], n);
      assert Stored(words)[4 * k..4 * k + 4] == Stored(words[1..])[4 * n..4 * n + 4];
    }
  }

  /** Capturing stored words gives the words back. */
  lemma CapturedStored(words: seq<Word>, load: int, k: nat)
    requires k < |words|
    ensures Captured(Stored(words), load)(load + 4 * k) == Some(Decode(words[k]))
  {
    var data, at, pc := Stored(words), 4 * k, load + 4 * k;
    StoredAt(words, k);
    var bytes := data[at..at + 4];
    WordRead(data, load, at, pc, bytes, words[k]);
  }

  lemma WordRead(data: seq<Byte>, load: int, at: nat, pc: int, bytes: seq<Byte>, w: Word)
    requires at + 4 <= |data| && pc == load + at && bytes == data[at..at + 4] && bytes == WordBytes(w)
    ensures Captured(data, load)(pc) == Some(Decode(w))
  {
    assert bytes[0] == data[at] && bytes[1] == data[at + 1] && bytes[2] == data[at + 2] && bytes[3] == data[at + 3];
  }

  /** The immediate, sign-extended. */
  function Signed(i: Instr): (r: int)
    ensures -0x8000 <= r < 0x8000 && (r - i.imm) % 0x1_0000 == 0
  {
    if i.imm >= 0x8000 then i.imm - 0x1_0000 else i.imm
  }

  function Wrap(x: int): Word { x % TWO32 }

  // ----- Decoding, as the discovery code does it ------------------------------------

  predicate IsControlFlow(i: Instr) {
    || 0x01 <= i.op <= 0x07 || 0x14 <= i.op <= 0x17
    || (i.op == 0 && 0x08 <= i.fn <= 0x09)
    || (0x11 <= i.op <= 0x12 && i.rs == 0x08)
  }

  predicate IsValid(i: Instr) {
    && i.raw != 0xFFFF_FFFF && i.raw != 0xFFFF_FFFD
    && (if i.op == 0 then
          || i.fn == 0x00 || 0x02 <= i.fn <= 0x04 || 0x06 <= i.fn <= 0x09 || 0x0C <= i.fn <= 0x0D
          || 0x10 <= i.fn <= 0x13 || 0x18 <= i.fn <= 0x1B || 0x20 <= i.fn <= 0x27 || 0x2A <= i.fn <= 0x2B
        else if i.op == 1 then i.rt <= 0x01 || 0x10 <= i.rt <= 0x11
        else
          || 0x02 <= i.op <= 0x10 || i.op == 0x12 || 0x20 <= i.op <= 0x26 || 0x28 <= i.op <= 0x2B
          || i.op == 0x2E || i.op == 0x30 || i.op == 0x32 || i.op == 0x38 || i.op == 0x3A)
  }

  /** The R3000A's codes under opcode 0: shifts, jumps and traps, the multiply unit, arithmetic. */
  const SPECIAL: set<nat> := {
    0x00, 0x02, 0x03, 0x04, 0x06, 0x07, 0x08, 0x09, 0x0C, 0x0D, 0x10, 0x11, 0x12, 0x13, 0x18, 0x19, 0x1A, 0x1B,
    0x20, 0x21, 0x22, 0x23, 0x24, 0x25, 0x26, 0x27, 0x2A, 0x2B}

  /** The sign branches under opcode 1. */
  const REGIMM: set<nat> := {0x00, 0x01, 0x10, 0x11}

  /** The other opcodes: jumps and branches, immediates, coprocessors 0 and 2, loads and stores. */
  const PRIMARY: set<nat> := {
    0x02, 0x03, 0x04, 0x05, 0x06, 0x07, 0x08, 0x09, 0x0A, 0x0B, 0x0C, 0x0D, 0x0E, 0x0F, 0x10, 0x12,
    0x20, 0x21, 0x22, 0x23, 0x24, 0x25, 0x26, 0x28, 0x29, 0x2A, 0x2B, 0x2E, 0x30, 0x32, 0x38, 0x3A}

  /** A word counts as an instruction exactly when its code is listed, two filler patterns apart. */
  lemma ValidExactly(i: Instr)
    ensures IsValid(i) <==>
            && i.raw != 0xFFFF_FFFF && i.raw != 0xFFFF_FFFD
            && (if i.op == 0 then i.fn in SPECIAL else if i.op == 1 then i.rt in REGIMM else i.op in PRIMARY)
  {
  }

  function JumpTarget(pc: int, i: Instr): int {
    (pc + 4) % TWO32 / 0x1000_0000 * 0x1000_0000 + i.raw % 0x400_0000 * 4
  }

  function BranchTarget(pc: int, i: Instr): int {
    pc + 4 + Signed(i) * 4
  }

  datatype Kind = Normal | Branch | BranchNever | BranchNeverLikely | J | Jal | Jalr | Jr | JrRa

  /** The control-flow class of a word and its direct target, if it has one. */
  function Classify(pc: int, i: Instr): (Kind, int) {
    if i.op == 0 && i.fn == 0x08 then (if i.rs == 31 then JrRa else Jr, 0)
    else if i.op == 0 && i.fn == 0x09 then (Jalr, 0)
    else if i.op == 0x02 then (J, JumpTarget(pc, i))
    else if i.op == 0x03 then (Jal, JumpTarget(pc, i))
    else if (i.op == 0x04 || i.op == 0x14) && i.rs == i.rt then (J, BranchTarget(pc, i))
    else if i.op == 0x05 && i.rs == i.rt then (BranchNever, 0)
    else if i.op == 0x15 && i.rs == i.rt then (BranchNeverLikely, 0)
    else if (i.op == 0x06 || i.op == 0x16) && i.rs == 0 then (J, BranchTarget(pc, i))
    else if i.op == 0x07 && i.rs == 0 then (BranchNever, 0)
    else if i.op == 0x17 && i.rs == 0 then (BranchNeverLikely, 0)
    else if i.op == 0x01 && i.rs == 0 && (i.rt == 0x00 || i.rt == 0x10) then (BranchNever, 0)
    else if i.op == 0x01 && i.rs == 0 && (i.rt == 0x02 || i.rt == 0x12) then (BranchNeverLikely, 0)
    else if i.op == 0x01 && i.rs == 0 && (i.rt == 0x01 || i.rt == 0x03) then (J, BranchTarget(pc, i))
    else if i.op == 0x01 && i.rs == 0 && (i.rt == 0x11 || i.rt == 0x13) then (Jal, BranchTarget(pc, i))
    else if (i.op == 0x11 || i.op == 0x12) && i.rs == 0x08 then (Branch, BranchTarget(pc, i))
    else if i.op == 0x01 || 0x04 <= i.op <= 0x07 || 0x14 <= i.op <= 0x17 then (Branch, BranchTarget(pc, i))
    else (Normal, 0)
  }

  predicate WritesGpr(i: Instr, reg: nat) {
    if reg == 0 then false
    else if i.op == 0 then
      && i.fn != 0x08 && i.fn != 0x0C && i.fn != 0x0D && i.fn != 0x11 && i.fn != 0x13
      && !(0x18 <= i.fn <= 0x1B) && i.rd == reg
    else if i.op == 0x03 then reg == 31
    else if i.op == 0x01 && 0x10 <= i.rt <= 0x11 then reg == 31
    else if 0x08 <= i.op < 0x10 || 0x20 <= i.op < 0x27 || i.op == 0x30 || i.op == 0x32 then i.rt == reg
    else (i.op == 0x10 || i.op == 0x12) && (i.rs == 0 || i.rs == 2) && i.rt == reg
  }

  // ----- The CPU -----------------------------------------------------------------

  /** The register an instruction of the R3000A instruction set delivers a result to.
      Reserved encodings, and coprocessors the console does not have, trap instead. */
  function Destination(i: Instr): Option<Reg> {
    if i.op == 0 then
      if i.fn == 0x00 || 0x02 <= i.fn <= 0x04 || 0x06 <= i.fn <= 0x07   // shifts
         || i.fn == 0x09                                                 // jalr
         || i.fn == 0x10 || i.fn == 0x12                                 // mfhi, mflo
         || 0x20 <= i.fn <= 0x27 || 0x2A <= i.fn <= 0x2B                 // arithmetic, logic, slt
      then Some(i.rd) else None
    else if i.op == 0x01 then if 0x10 <= i.rt <= 0x11 then Some(31) else None
    else if i.op == 0x03 then Some(31)
    else if 0x08 <= i.op <= 0x0F then Some(i.rt)               // immediate arithmetic, lui
    else if (i.op == 0x10 || i.op == 0x12) && (i.rs == 0x00 || i.rs == 0x02) then Some(i.rt)  // mfc, cfc
    else if 0x20 <= i.op <= 0x26 then Some(i.rt)               // loads
    else None
  }

  /** The discovery code never misses a register an instruction writes. */
  lemma WritesGprCoversDestination(i: Instr, reg: Reg)
    ensures Destination(i) == Some(reg) && reg != 0 ==> WritesGpr(i, reg)
  {
  }

  /** And for the words that the discovery code takes for instructions it reports no other,
      but for the target register of a coprocessor load. */
  lemma WritesGprExact(i: Instr, reg: Reg)
    requires IsValid(i)
    ensures WritesGpr(i, reg) <==>
              reg != 0 && (Destination(i) == Some(reg) || ((i.op == 0x30 || i.op == 0x32) && i.rt == reg))
  {
  }

  /** The general registers; $zero reads as 0. */
  type Regs = s: seq<Word> | |s| == 32 && s[0] == 0 
    witness [0, 0, 0, 0, 0, 0, 0, 0, 0, 0, 0, 0, 0, 0, 0, 0, 0, 0, 0, 0, 0, 0, 0, 0, 0, 0, 0, 0, 0, 0, 0, 0]

  datatype Cpu = Cpu(regs: Regs, mem: Word -> Word)

  /** Bit by bit, from the low end. */
  function Or(a: nat, b: nat): nat {
    if a == 0 then b else (if a % 2 == 1 || b % 2 == 1 then 1 else 0) + 2 * Or(a / 2, b / 2)
  }

  function BitOf(a: nat, k: nat): nat {
    if k == 0 then a % 2 else BitOf(a / 2, k - 1)
  }

  lemma {:induction false} NoBits(k: nat)
    ensures BitOf(0, k) == 0
    decreases k
  {
    if k > 0 {
      NoBits(k - 1);
    }
  }

  /** A bit is set in the result exactly where it is set in one of the two. */
  lemma {:induction false} OrBits(a: nat, b: nat, k: nat)
    ensures BitOf(Or(a, b), k) == 1 <==> BitOf(a, k) == 1 || BitOf(b, k) == 1
    decreases k
  {
    NoBits(k);
    if k > 0 {
      OrBits(a / 2, b / 2, k - 1);
    }
  }

  lemma {:induction false} OrBound(a: nat, b: nat, n: nat)
    requires a < Pow2(n) && b < Pow2(n)
    ensures Or(a, b) < Pow2(n)
    decreases n
  {
    if n > 0 && a > 0 {
      OrBound(a / 2, b / 2, n - 1);
    }
  }

  lemma OrHalf(a: Half, b: Half)
    ensures Or(a, b) < 0x1_0000
  {
    assert Pow2(4) == 16;
    assert Pow2(8) == 0x100;
    assert Pow2(12) == 0x1000;
    assert Pow2(16) == 0x1_0000;
    OrBound(a, b, 16);
  }

  /** OR with a sixteen-bit immediate. */
  function OrLow(x: Word, imm: Half): (r: Word)
    ensures x % 0x1_0000 == 0 ==> r == x + imm
    ensures r / 0x1_0000 == x / 0x1_0000 && r % 0x1_0000 == Or(x % 0x1_0000, imm)
  {
    OrHalf(x % 0x1_0000, imm);
    x / 0x1_0000 * 0x1_0000 + Or(x % 0x1_0000, imm)
  }

  /** What LUI loads. */
  function Upper(i: Instr): Word {
    i.imm * 0x1_0000
  }

  /** Shift by the amounts the discovery code looks at. */
  function ShiftLeft(x: Word, n: Reg): Word
    decreases n
  {
    if n == 0 then x else ShiftLeft(Wrap(2 * x as int), n - 1)
  }

  /** The result of an instruction whose result matters here. */
  function Result(i: Instr, s: Cpu): Option<Word>
  {
    if i.op == 0x0F then Some(Upper(i))
    else if i.op == 0x09 then Some(Wrap(s.regs[i.rs] as int + Signed(i)))
    else if i.op == 0x0D then Some(OrLow(s.regs[i.rs], i.imm))
    else if i.op == 0x0B then Some(if s.regs[i.rs] < Wrap(Signed(i)) then 1 else 0)
    else if i.op == 0 && i.fn == 0x00 then Some(ShiftLeft(s.regs[i.rt], i.sa))
    else if i.op == 0 && i.fn == 0x21 then Some(Wrap(s.regs[i.rs] as int + s.regs[i.rt] as int))
    else if i.op == 0x23 then Some(s.mem(Wrap(s.regs[i.rs] as int + Signed(i))))
    else None
  }

  /** One instruction executes and the next one in sequence follows: only its destination
      changes, exactly where the result matters here and arbitrarily otherwise. */
  ghost predicate Executes(i: Instr, s: Cpu, s': Cpu) {
    && (forall r: Reg :: Destination(i) != Some(r) ==> s'.regs[r] == s.regs[r])
    && (Destination(i).Some? && Destination(i).value != 0 && Result(i, s).Some? ==>
          s'.regs[Destination(i).value] == Result(i, s).value)
    && (i.op == 0x04 ==> s.regs[i.rs] != s.regs[i.rt])   // beq not taken
  }

  // ----- Straight-line runs --------------------------------------------------------

  /** `end` is a whole number of words at or after `from`. */
  predicate Reaches(from: int, end: int)
    decreases end - from
  {
    from == end || (from < end && Reaches(from + 4, end))
  }

  /** `run(pc)` is the state in which the word at `pc` starts, along the straight-line
      execution of the image from `from` up to `end`. */
  ghost predicate Straight(image: Image, from: int, end: int, run: int -> Cpu)
    decreases end - from
  {
    from == end || (&& from < end && image(from).Some? && Executes(image(from).value, run(from), run(from + 4))
                   && Straight(image, from + 4, end, run))
  }

  /** No word from `from` up to `end` writes `reg`. */
  ghost predicate Untouched(image: Image, from: int, end: int, reg: Reg)
    decreases end - from
  {
    from >= end || ((image(from).Some? ==> !WritesGpr(image(from).value, reg)) && Untouched(image, from + 4, end, reg))
  }

  lemma StepKeeps(i: Instr, s: Cpu, s': Cpu, reg: Reg)
    requires Executes(i, s, s') && !WritesGpr(i, reg)
    ensures s'.regs[reg] == s.regs[reg]
  {
    WritesGprCoversDestination(i, reg);
  }

  /** A register nothing writes keeps its value along the run. */
  lemma {:induction false} Keeps(image: Image, from: int, end: int, run: int -> Cpu, reg: Reg)
    requires Straight(image, from, end, run) && Untouched(image, from, end, reg)
    ensures run(end).regs[reg] == run(from).regs[reg]
    decreases end - from
  {
    if from < end {
      StepKeeps(image(from).value, run(from), run(from + 4), reg);
      Keeps(image, from + 4, end, run, reg);
    }
  }

  /** A run splits at any word in it. */
  lemma {:induction false} Split(image: Image, from: int, mid: int, end: int, run: int -> Cpu)
    requires Straight(image, from, end, run) && Reaches(from, mid) && mid <= end
    ensures Straight(image, from, mid, run) && Straight(image, mid, end, run)
    decreases mid - from
  {
    if from < mid {
      Split(image, from + 4, mid, end, run);
    }
  }

  lemma {:induction false} ReachesOn(a: int, b: int, c: int)
    requires Reaches(a, b) && Reaches(b, c)
    ensures Reaches(a, c) && a <= b <= c
    decreases b - a
  {
    if a < b {
      ReachesOn(a + 4, b, c);
    } else {
      ReachesForward(b, c);
    }
  }

  lemma {:induction false} ReachesForward(a: int, b: int)
    requires Reaches(a, b)
    ensures a <= b
    decreases b - a
  {
    if a < b {
      ReachesForward(a + 4, b);
    }
  }
}
