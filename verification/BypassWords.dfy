/** Words whose dispatch is accepted although the entry has a way around its bound. */
module BypassWords {
  import opened Options
  import opened Mips
  import opened JumpTable
  import opened Dominance
  import Control

  const LOAD := 0x1_0000
  const CAP := 0x1_0040   // the code ends where its table starts
  const JR := 0x1_0024

  /** A branch at the entry leads behind a case label, to a jump back to the shift. */
  const WORDS: seq<Word> := [
    0x1085_000B,  // 00 beq a0, a1, 30
    0,            // 04 nop
    0x3C02_0001,  // 08 lui v0, 1
    0x2C83_0001,  // 0C sltiu v1, a0, 1
    0x1060_0008,  // 10 beq v1, zero, 34
    0,            // 14 nop
    0x0004_2880,  // 18 sll a1, a0, 2
    0x00A2_2821,  // 1C addu a1, a1, v0
    0x8CA5_0040,  // 20 lw a1, 40(a1)
    0x00A0_0008,  // 24 jr a1
    0,            // 28 nop
    0,            // 2C nop, the case label
    0x0800_4006,  // 30 j 18
    0,            // 34 nop
    0x03E0_0008,  // 38 jr ra
    0,            // 3C nop
    0x0001_002C   // 40 the table: 2C
  ]

  const BEQ := Instr(0x1085_000B, 0x04, 4, 5, 0, 0, 0x0B, 0x000B)
  const LUI := Instr(0x3C02_0001, 0x0F, 0, 2, 0, 0, 0x01, 0x0001)
  const SLTIU := Instr(0x2C83_0001, 0x0B, 4, 3, 0, 0, 0x01, 0x0001)
  const GUARD := Instr(0x1060_0008, 0x04, 3, 0, 0, 0, 0x08, 0x0008)
  const SLL := Instr(0x0004_2880, 0x00, 0, 4, 5, 2, 0x00, 0x2880)
  const ADDU := Instr(0x00A2_2821, 0x00, 5, 2, 5, 0, 0x21, 0x2821)
  const LW := Instr(0x8CA5_0040, 0x23, 5, 5, 0, 1, 0x00, 0x0040)
  const JUMP := Instr(0x0800_4006, 0x02, 0, 0, 8, 0, 0x06, 0x4006)

  const TAIL := Tail(0x1_0018, 0x1_0020, 5, 5, 4, 2, 0x40)
  const BOUND := Bound(0x1_000C, 0x1_0010, false, 1, 3, 0x1_0034)
  const BASE := Base(0x1_0008, 0x1_0008, 0x1_0000)

  /** The words before the `jr`. */
  ghost predicate Dispatching(image: Image) {
    && image(0x1_0000) == Some(BEQ) && image(0x1_0004) == Some(NOP) && image(0x1_0008) == Some(LUI)
    && image(0x1_000C) == Some(SLTIU) && image(0x1_0010) == Some(GUARD) && image(0x1_0014) == Some(NOP)
    && image(0x1_0018) == Some(SLL) && image(0x1_001C) == Some(ADDU) && image(0x1_0020) == Some(LW)
    && image(0x1_0024) == Some(Decode(5 * 0x20_0000 + 8))
  }

  /** The words behind it. */
  ghost predicate Returning(image: Image) {
    && image(0x1_0028) == Some(NOP) && image(0x1_002C) == Some(NOP) && image(0x1_0030) == Some(JUMP)
    && image(0x1_0034) == Some(NOP) && image(0x1_0038) == Some(Decode(0x03E0_0008)) && image(0x1_003C) == Some(NOP)
    && image(0x1_0040).Some? && image(0x1_0040).value.raw == 0x1_002C
  }

  lemma WordsDecode()
    ensures Decode(0x1085_000B) == BEQ && Decode(0x3C02_0001) == LUI && Decode(0x2C83_0001) == SLTIU
    ensures Decode(0x1060_0008) == GUARD && Decode(0x0004_2880) == SLL && Decode(0x00A2_2821) == ADDU
    ensures Decode(0x8CA5_0040) == LW && Decode(0x0800_4006) == JUMP && Decode(0) == NOP
  {
  }

  /** The words, one by one. */
  ghost predicate Spells(words: seq<Word>) {
    && |words| == 17 && words[0] == 0x1085_000B && words[1] == 0 && words[2] == 0x3C02_0001
    && words[3] == 0x2C83_0001 && words[4] == 0x1060_0008 && words[5] == 0 && words[6] == 0x0004_2880
    && words[7] == 0x00A2_2821 && words[8] == 0x8CA5_0040 && words[9] == 0x00A0_0008 && words[10] == 0
    && words[11] == 0 && words[12] == 0x0800_4006 && words[13] == 0
    && words[14] == 0x03E0_0008 && words[15] == 0 && words[16] == 0x0001_002C
  }

  lemma WordsSpell()
    ensures Spells(WORDS)
  {
  }

  /** The image holds the words from `LOAD` on. */
  ghost predicate Holds(image: Image, words: seq<Word>) {
    forall k :: 0 <= k < |words| ==> image(LOAD + 4 * k) == Some(Decode(words[k]))
  }

  lemma CaptureHolds(words: seq<Word>, image: Image)
    requires image == Captured(Stored(words), LOAD)
    ensures Holds(image, words)
  {
    forall k | 0 <= k < |words|
      ensures image(LOAD + 4 * k) == Some(Decode(words[k]))
    {
      CapturedStored(words, LOAD, k);
    }
  }

  lemma WordAt(words: seq<Word>, image: Image, k: nat, w: Word, i: Instr)
    requires Holds(image, words) && k < |words| && words[k] == w && Decode(w) == i
    ensures image(LOAD + 4 * k) == Some(i)
  {
  }

  lemma DispatchingWords(words: seq<Word>, image: Image)
    requires Spells(words) && Holds(image, words)
    ensures Dispatching(image)
  {
    WordsDecode();
    WordAt(words, image, 0, 0x1085_000B, BEQ);
    WordAt(words, image, 1, 0, NOP);
    WordAt(words, image, 2, 0x3C02_0001, LUI);
    WordAt(words, image, 3, 0x2C83_0001, SLTIU);
    WordAt(words, image, 4, 0x1060_0008, GUARD);
    WordAt(words, image, 5, 0, NOP);
    WordAt(words, image, 6, 0x0004_2880, SLL);
    WordAt(words, image, 7, 0x00A2_2821, ADDU);
    WordAt(words, image, 8, 0x8CA5_0040, LW);
    WordAt(words, image, 9, 0x00A0_0008, Decode(5 * 0x20_0000 + 8));
  }

  lemma ReturningWords(words: seq<Word>, image: Image)
    requires Spells(words) && Holds(image, words)
    ensures Returning(image)
  {
    WordsDecode();
    WordAt(words, image, 10, 0, NOP);
    WordAt(words, image, 11, 0, NOP);
    WordAt(words, image, 12, 0x0800_4006, JUMP);
    WordAt(words, image, 13, 0, NOP);
    WordAt(words, image, 14, 0x03E0_0008, Decode(0x03E0_0008));
    WordAt(words, image, 15, 0, NOP);
    WordAt(words, image, 16, 0x0001_002C, Decode(0x0001_002C));
  }

  // ----- The dispatch ----------------------------------------------------------------------------------

  lemma BypassTail(image: Image)
    requires Dispatching(image)
    ensures MatchTail(image, JR, 5) == Some(TAIL)
  {
  }

  lemma BypassBound(image: Image)
    requires Dispatching(image)
    ensures MatchBound(image, LOAD, CAP, JR, TAIL) == Some(BOUND)
  {
  }

  lemma NearestBack(image: Image, floor: int, pc: int, reg: Reg, i: Instr)
    requires pc >= floor && image(pc) == Some(i)
    ensures Nearest(image, floor, pc, reg) == if WritesGpr(i, reg) then Some(pc) else Nearest(image, floor, pc - 4, reg)
  {
  }

  lemma BypassBase(image: Image)
    requires Dispatching(image)
    ensures BaseOf(image, LOAD, TAIL) == Some(BASE)
  {
    var floor := LOAD;
    assert Floor(LOAD, TAIL.sllPc + 4) == floor;
    NearestBack(image, floor, 0x1_0018, 2, SLL);
    NearestBack(image, floor, 0x1_0014, 2, NOP);
    NearestBack(image, floor, 0x1_0010, 2, GUARD);
    NearestBack(image, floor, 0x1_000C, 2, SLTIU);
    NearestBack(image, floor, 0x1_0008, 2, LUI);
  }

  lemma BypassPlain(image: Image)
    requires Dispatching(image)
    ensures Undisturbed(image, LOAD, TAIL, BOUND, BASE)
  {
    forall pc | Reaches(BASE.constantPc + 4, pc) && pc < TAIL.sllPc
      ensures PlainWord(image, pc, BOUND.branchPc)
    {
      ReachesByFours(BASE.constantPc + 4, pc);
      assert pc == 0x1_000C || pc == 0x1_0010 || pc == 0x1_0014;
    }
  }

  lemma BypassDispatch(image: Image)
    requires Dispatching(image)
    ensures DispatchOf(image, LOAD, CAP, JR, 5) == Some((TAIL, BOUND, BASE))
  {
    BypassTail(image);
    BypassBound(image);
    BypassBase(image);
    BypassPlain(image);
  }

  // ----- The table -----------------------------------------------------------------------------------

  /** The only iteration of a set with one member. */
  const ITERATE: Iteration := words => words

  lemma {:induction false} CaseWalkKeeps(image: Image, entry: int, hardCap: int, lo: int, hi: int, work: seq<int>, reached: set<int>)
    ensures reached <= CaseWalk(image, entry, hardCap, lo, hi, work, reached)
    decreases 2048 - |reached|, |work|
  {
    if work != [] && |reached| < 2048 {
      var pc, rest := work[0], work[1..];
      if pc in reached || !Expands(image, entry, hardCap, lo, hi, pc) {
        CaseWalkKeeps(image, entry, hardCap, lo, hi, rest, reached);
      } else {
        MoreReached(image, pc, reached);
        CaseWalkKeeps(image, entry, hardCap, lo, hi, rest + Successors(pc, image(pc).value), WithDelay(image, pc, reached));
      }
    }
  }

  lemma CaseWalkOn(image: Image, entry: int, hardCap: int, lo: int, hi: int, pc: int, reached: set<int>)
    requires |reached| < 2048 && pc !in reached && Expands(image, entry, hardCap, lo, hi, pc)
    ensures CaseWalk(image, entry, hardCap, lo, hi, [pc], reached)
            == CaseWalk(image, entry, hardCap, lo, hi, Successors(pc, image(pc).value), WithDelay(image, pc, reached))
  {
    assert [pc][1..] + Successors(pc, image(pc).value) == Successors(pc, image(pc).value);
  }

  lemma JumpIsMet(image: Image, hi: int, start: set<int>)
    requires image(0x1_0030) == Some(JUMP) && hi == 0x1_0044 && start == {0x1_002C}
    ensures 0x1_0030 in CaseWalk(image, LOAD, CAP, LOAD, hi, [0x1_0030], start)
  {
    CaseWalkOn(image, LOAD, CAP, LOAD, hi, 0x1_0030, start);
    CaseWalkKeeps(image, LOAD, CAP, LOAD, hi, Successors(0x1_0030, JUMP), WithDelay(image, 0x1_0030, start));
  }

  /** The jump behind the case label is met from it. */
  lemma JumpIsCase(image: Image, hi: int)
    requires image(0x1_002C) == Some(NOP) && image(0x1_0030) == Some(JUMP) && hi == 0x1_0044
    ensures 0x1_0030 in CaseWalk(image, LOAD, CAP, LOAD, hi, [0x1_002C], {})
  {
    CaseWalkOn(image, LOAD, CAP, LOAD, hi, 0x1_002C, {});
    LabelMet(image);
    JumpIsMet(image, hi, {0x1_002C});
  }

  lemma LabelMet(image: Image)
    requires image(0x1_002C) == Some(NOP)
    ensures WithDelay(image, 0x1_002C, {}) == {0x1_002C} && Successors(0x1_002C, NOP) == [0x1_0030]
  {
  }

  lemma FewSources(source: int)
    requires Reaches(LOAD, source) && source < CAP
    ensures exists k :: 0 <= k < 16 && source == LOAD + 4 * k
  {
    ReachesByFours(LOAD, source);
    var k := (source - LOAD) / 4;
    assert source == LOAD + 4 * k;
  }

  lemma EarlySources(image: Image, cases: set<int>, k: int)
    requires Dispatching(image) && 0 <= k < 10
    ensures Tolerated(image, 0x1_0008, JR, false, cases, LOAD + 4 * k)
  {
  }

  lemma LateSources(image: Image, cases: set<int>, k: int)
    requires Returning(image) && 10 <= k < 16 && 0x1_0030 in cases
    ensures Tolerated(image, 0x1_0008, JR, false, cases, LOAD + 4 * k)
  {
  }

  lemma BypassTolerated(image: Image, cases: set<int>)
    requires Dispatching(image) && Returning(image) && 0x1_0030 in cases
    ensures AllTolerated(image, LOAD, CAP, JR, BOUND, BASE, cases)
  {
    forall source | Reaches(LOAD, source) && source < CAP
      ensures Tolerated(image, Start(BOUND, BASE), JR, BOUND.scheduled, cases, source)
    {
      FewSources(source);
      var k :| 0 <= k < 16 && source == LOAD + 4 * k;
      if k < 10 {
        EarlySources(image, cases, k);
      } else {
        LateSources(image, cases, k);
      }
    }
  }

  lemma BypassSlot(image: Image, table: Word, hi: int)
    requires Returning(image) && hi == 0x1_0044 && table == 0x1_0040
    ensures GoodSlot(image, LOAD, CAP, JR, BOUND, table, LOAD, hi, 0)
  {
  }

  lemma OneWord(image: Image, table: Word, n: nat)
    requires n == 1 && image(table).Some?
    ensures TableWords(image, table, n) == [image(table).value.raw]
  {
    assert TableWords(image, table, n - 1) == [];
  }

  lemma BypassCases(image: Image, table: Word, n: nat, hi: int)
    requires Returning(image) && hi == 0x1_0044 && table == 0x1_0040 && n == 1
    ensures 0x1_0030 in Cases(image, ITERATE, LOAD, CAP, LOAD, hi, table, n)
  {
    OneWord(image, table, n);
    JumpIsCase(image, hi);
  }

  lemma BypassTable(image: Image, t: Tail, bound: Bound, base: Base, table: Word, hi: int)
    requires Dispatching(image) && Returning(image) && hi == 0x1_0044 && table == 0x1_0040
    requires bound == BOUND && base == BASE && TableAt(t, base) == table
    ensures TableAccepted(image, ITERATE, LOAD, CAP, JR, t, bound, base, LOAD, hi)
  {
    BypassSlot(image, table, hi);
    BypassCases(image, table, bound.count, hi);
    BypassTolerated(image, Cases(image, ITERATE, LOAD, CAP, LOAD, hi, table, bound.count));
  }

  lemma BypassAccepted(image: Image, hi: int)
    requires Dispatching(image) && Returning(image) && hi == 0x1_0044
    ensures Accepted(image, ITERATE, LOAD, CAP, JR, 5, LOAD, hi, TAIL, BOUND, BASE)
  {
    BypassDispatch(image);
    BypassTable(image, TAIL, BOUND, BASE, 0x1_0040, hi);
  }

  // ----- The way around ----------------------------------------------------------------------------------

  lemma BypassPasses(image: Image)
    requires Dispatching(image) && Returning(image)
    ensures Passes(image, LOAD, 0x1_0030) && Passes(image, 0x1_0030, 0x1_0018)
  {
    assert Control.After(LOAD, BEQ, Control.Holding(0, 0), false) == 0x1_0030;
    assert Control.After(0x1_0030, JUMP, Control.Holding(0, 0), false) == 0x1_0018;
  }

  lemma ShiftPasses(image: Image)
    requires Dispatching(image)
    ensures Passes(image, 0x1_0018, 0x1_001C) && Passes(image, 0x1_001C, 0x1_0020) && Passes(image, 0x1_0020, JR)
  {
    PlainPasses(image, 0x1_0018);
    PlainPasses(image, 0x1_001C);
    PlainPasses(image, 0x1_0020);
  }

  lemma BypassWay(image: Image, p: seq<int>)
    requires Dispatching(image) && Returning(image) && p == [LOAD, 0x1_0030, 0x1_0018, 0x1_001C, 0x1_0020, JR]
    ensures WayTo(image, LOAD, CAP, p, JR)
  {
    BypassPasses(image);
    ShiftPasses(image);
    assert forall pc :: pc in p ==> InBody(image, LOAD, CAP, pc);
  }

  lemma BypassAvoids(image: Image, p: seq<int>, start: int)
    requires WayTo(image, LOAD, CAP, p, JR) && start == Start(BOUND, BASE)
    requires p == [LOAD, 0x1_0030, 0x1_0018, 0x1_001C, 0x1_0020, JR]
    ensures !Dominates(image, LOAD, CAP, start, JR)
  {
    assert start !in p;
  }

  lemma WordsSpelled(words: seq<Word>, image: Image)
    requires words == WORDS && image == Captured(Stored(words), LOAD)
    ensures Dispatching(image) && Returning(image)
  {
    WordsSpell();
    CaptureHolds(words, image);
    DispatchingWords(words, image);
    ReturningWords(words, image);
  }

  /** In the plain form an accepted dispatch need not be dominated by its start: these words
      are accepted, and a way from the entry to the `jr` avoids the bound and the base. */
  lemma AcceptedYetBypassed(words: seq<Word>, image: Image, hi: int, start: int)
    requires words == WORDS && image == Captured(Stored(words), LOAD) && hi == LOAD + |Stored(words)|
    requires start == Start(BOUND, BASE)
    ensures Accepted(image, ITERATE, LOAD, CAP, JR, 5, LOAD, hi, TAIL, BOUND, BASE)
    ensures !Dominates(image, LOAD, CAP, start, JR)
  {
    WordsSpelled(words, image);
    assert |words| == 17 && hi == 0x1_0044;
    BypassAccepted(image, hi);
    BypassNotDominated(image, start);
  }

  lemma BypassNotDominated(image: Image, start: int)
    requires Dispatching(image) && Returning(image) && start == Start(BOUND, BASE)
    ensures !Dominates(image, LOAD, CAP, start, JR)
  {
    var p := [LOAD, 0x1_0030, 0x1_0018, 0x1_001C, 0x1_0020, JR];
    BypassWay(image, p);
    BypassAvoids(image, p, start);
  }
}
