/** Ways to a dispatch: the control flow of the function that holds it, and when every way from
    the entry to the `jr` comes through the start of its proved suffix. */
module Dominance {
  import opened Options
  import opened Mips
  import opened JumpTable
  import Control

  // ----- Ways --------------------------------------------------------------------------------------

  /** An aligned word of the function. */
  predicate InBody(image: Image, entry: int, hardCap: int, pc: int) {
    entry <= pc < hardCap && pc % 4 == 0 && image(pc).Some?
  }

  /** Control can pass from the word at `pc` and its delay slot to `q` without a jump through a
      register: where some state of the CPU leads, or behind a call that returned. */
  ghost predicate Passes(image: Image, pc: int, q: int) {
    && image(pc).Some?
    && var i := image(pc).value;
       || (Control.Links(i) && q == pc + 8)
       || (!Control.TransferOf(i).ThroughRegister? && exists s, flag :: Control.After(pc, i, s, flag) == q)
  }

  /** A way through the function from `p[0]`. */
  ghost predicate IsWay(image: Image, entry: int, hardCap: int, p: seq<int>) {
    && p != [] && (forall pc :: pc in p ==> InBody(image, entry, hardCap, pc))
    && forall k :: 0 <= k < |p| - 1 ==> Passes(image, p[k], p[k + 1])
  }

  ghost predicate WayTo(image: Image, entry: int, hardCap: int, p: seq<int>, end: int) {
    IsWay(image, entry, hardCap, p) && p[0] == entry && p[|p| - 1] == end
  }

  lemma WayOn(image: Image, entry: int, hardCap: int, p: seq<int>, q: int)
    requires IsWay(image, entry, hardCap, p) && InBody(image, entry, hardCap, q) && Passes(image, p[|p| - 1], q)
    ensures IsWay(image, entry, hardCap, p + [q])
  {
    var r := p + [q];
    forall k | 0 <= k < |r| - 1
      ensures Passes(image, r[k], r[k + 1])
    {
      assert k < |p| - 1 ==> Passes(image, p[k], p[k + 1]);
    }
  }

  lemma WayJoin(image: Image, entry: int, hardCap: int, p: seq<int>, r: seq<int>)
    requires IsWay(image, entry, hardCap, p) && IsWay(image, entry, hardCap, r) && Passes(image, p[|p| - 1], r[0])
    ensures IsWay(image, entry, hardCap, p + r)
  {
    var w := p + r;
    forall k | 0 <= k < |w| - 1
      ensures Passes(image, w[k], w[k + 1])
    {
      if k < |p| - 1 {
        assert Passes(image, p[k], p[k + 1]);
      } else if k >= |p| {
        var j := k - |p|;
        assert Passes(image, r[j], r[j + 1]);
      }
    }
  }

  lemma PartOfWay(image: Image, entry: int, hardCap: int, p: seq<int>, n: nat)
    requires IsWay(image, entry, hardCap, p) && 0 < n <= |p|
    ensures IsWay(image, entry, hardCap, p[..n])
  {
    forall k | 0 <= k < n - 1
      ensures Passes(image, p[..n][k], p[..n][k + 1])
    {
      assert Passes(image, p[k], p[k + 1]);
    }
  }

  lemma WayEnds(image: Image, entry: int, hardCap: int, p: seq<int>)
    requires IsWay(image, entry, hardCap, p)
    ensures InBody(image, entry, hardCap, p[0]) && InBody(image, entry, hardCap, p[|p| - 1])
  {
    assert p[0] in p && p[|p| - 1] in p;
  }

  lemma WayStep(image: Image, entry: int, hardCap: int, p: seq<int>, k: nat)
    requires IsWay(image, entry, hardCap, p) && k < |p| - 1
    ensures Passes(image, p[k], p[k + 1]) && InBody(image, entry, hardCap, p[k]) && InBody(image, entry, hardCap, p[k + 1])
  {
    assert p[k] in p && p[k + 1] in p;
  }

  // ----- Entering the suffix -----------------------------------------------------------------------

  /** A dispatch that was matched and whose table was accepted. */
  ghost predicate Accepted(image: Image, iterate: Iteration, entry: int, hardCap: int, jrPc: int, jrRs: Reg, lo: int,
                           hi: int, t: Tail, bound: Bound, base: Base) {
    && DispatchOf(image, entry, hardCap, jrPc, jrRs) == Some((t, bound, base))
    && TableAccepted(image, iterate, entry, hardCap, jrPc, t, bound, base, lo, hi)
  }

  lemma {:induction false} FoursReach(a: int, b: int)
    requires a <= b && (b - a) % 4 == 0
    ensures Reaches(a, b)
    decreases b - a
  {
    if a < b {
      FoursReach(a + 4, b);
    }
  }

  /** What a suffix looks like from outside: whole words of the function up to the `jr`, no
      transfer right before it, and none inside but the bounds branch. */
  ghost predicate Suffix(image: Image, entry: int, hardCap: int, start: int, jrPc: int, branchPc: int) {
    && entry <= start < jrPc < hardCap && (jrPc - start) % 4 == 0 && image(jrPc).Some?
    && (start >= entry + 4 && image(start - 4).Some? ==> !IsControlFlow(image(start - 4).value))
    && forall q :: start < q < jrPc && (jrPc - q) % 4 == 0 ==> SuffixWord(image, jrPc, branchPc, q)
  }

  predicate SuffixWord(image: Image, jrPc: int, branchPc: int, q: int) {
    && image(q).Some?
    && if q == branchPc then q + 8 <= jrPc && GuardsOn(image(q).value) else !IsControlFlow(image(q).value)
  }

  /** A branch on whether two registers are equal. */
  predicate GuardsOn(i: Instr) {
    Control.TransferOf(i) == Control.Conditional(Control.Equal, false, false) && i.rs != i.rt
  }

  lemma TailWords(image: Image, jrPc: int, jrRs: Reg, t: Tail, branchPc: int, q: int)
    requires IsTail(image, jrPc, jrRs, t) && t.sllPc <= q < jrPc && (jrPc - q) % 4 == 0 && branchPc < t.sllPc
    ensures SuffixWord(image, jrPc, branchPc, q)
  {
    assert q == t.sllPc || q == t.sllPc + 4 || q == t.sllPc + 8 || q == t.sllPc + 12;
  }

  lemma GuardWord(image: Image, jrPc: int, t: Tail, bound: Bound)
    requires IsBound(image, t, bound) && t.sllPc < jrPc
    ensures SuffixWord(image, jrPc, bound.branchPc, bound.branchPc)
  {
    assert IsGuard(image(bound.branchPc).value, bound.guard);
  }

  lemma MiddleWord(image: Image, jrPc: int, t: Tail, bound: Bound, base: Base, q: int)
    requires PlainBetween(image, base.constantPc, t.sllPc, bound.branchPc)
    requires base.constantPc < q < t.sllPc && (q - base.constantPc) % 4 == 0 && q != bound.branchPc
    ensures SuffixWord(image, jrPc, bound.branchPc, q)
  {
    FoursReach(base.constantPc + 4, q);
    assert PlainWord(image, q, bound.branchPc);
  }

  /** What was matched, part by part. */
  lemma DispatchParts(image: Image, entry: int, hardCap: int, jrPc: int, jrRs: Reg, t: Tail, bound: Bound, base: Base)
    requires DispatchOf(image, entry, hardCap, jrPc, jrRs) == Some((t, bound, base))
    ensures image(jrPc).Some? && jrPc < hardCap && Undisturbed(image, entry, t, bound, base)
    ensures MatchBound(image, entry, hardCap, jrPc, t) == Some(bound) && BaseOf(image, entry, t) == Some(base)
  {
  }

  lemma BeforeCompare(image: Image, entry: int, hardCap: int, jrPc: int, t: Tail, bound: Bound)
    requires MatchBound(image, entry, hardCap, jrPc, t) == Some(bound)
    ensures entry <= bound.sltiuPc
    ensures bound.sltiuPc >= entry + 4 && image(bound.sltiuPc - 4).Some? ==> !IsControlFlow(image(bound.sltiuPc - 4).value)
  {
  }

  lemma StartPlace(image: Image, jrPc: int, jrRs: Reg, t: Tail, bound: Bound, base: Base)
    requires Proved(image, jrPc, jrRs, t, bound, base)
    ensures var start := Start(bound, base);
            && start <= base.constantPc && start <= bound.sltiuPc && bound.branchPc < t.sllPc < jrPc
            && (jrPc - start) % 4 == 0 && (t.sllPc - base.constantPc) % 4 == 0 && (jrPc - t.sllPc) % 4 == 0
            && (bound.scheduled ==> base.constantPc == start + 8)
  {
    var start := Start(bound, base);
    StartFirst(image, jrPc, jrRs, t, bound, base);
    ReachesByFours(start, bound.sltiuPc);
    ReachesByFours(start, base.constantPc);
    ReachesByFours(bound.sltiuPc, t.sllPc);
    assert jrPc == t.sllPc + 12 || jrPc == t.sllPc + 16;
  }

  lemma SuffixWords(image: Image, entry: int, jrPc: int, jrRs: Reg, t: Tail, bound: Bound, base: Base, q: int)
    requires Proved(image, jrPc, jrRs, t, bound, base) && Undisturbed(image, entry, t, bound, base)
    requires Start(bound, base) < q < jrPc && (jrPc - q) % 4 == 0
    ensures SuffixWord(image, jrPc, bound.branchPc, q)
  {
    StartPlace(image, jrPc, jrRs, t, bound, base);
    if q >= t.sllPc {
      TailWords(image, jrPc, jrRs, t, bound.branchPc, q);
    } else if q == bound.branchPc {
      GuardWord(image, jrPc, t, bound);
    } else if q > base.constantPc {
      MiddleWord(image, jrPc, t, bound, base, q);
    } else {
      assert bound.scheduled && q == base.constantPc;
    }
  }

  lemma DispatchSuffix(image: Image, entry: int, hardCap: int, jrPc: int, jrRs: Reg, t: Tail, bound: Bound, base: Base)
    requires DispatchOf(image, entry, hardCap, jrPc, jrRs) == Some((t, bound, base))
    ensures Suffix(image, entry, hardCap, Start(bound, base), jrPc, bound.branchPc)
  {
    DispatchParts(image, entry, hardCap, jrPc, jrRs, t, bound, base);
    DispatchProved(image, entry, hardCap, jrPc, jrRs, t, bound, base);
    ProvedSuffix(image, entry, hardCap, jrPc, jrRs, t, bound, base);
  }

  lemma ProvedSuffix(image: Image, entry: int, hardCap: int, jrPc: int, jrRs: Reg, t: Tail, bound: Bound, base: Base)
    requires Proved(image, jrPc, jrRs, t, bound, base) && Undisturbed(image, entry, t, bound, base)
    requires MatchBound(image, entry, hardCap, jrPc, t) == Some(bound) && BaseOf(image, entry, t) == Some(base)
    requires image(jrPc).Some? && jrPc < hardCap
    ensures Suffix(image, entry, hardCap, Start(bound, base), jrPc, bound.branchPc)
  {
    StartPlace(image, jrPc, jrRs, t, bound, base);
    BeforeCompare(image, entry, hardCap, jrPc, t, bound);
    BaseAfterEntry(image, entry, t, base);
    forall q | Start(bound, base) < q < jrPc && (jrPc - q) % 4 == 0
      ensures SuffixWord(image, jrPc, bound.branchPc, q)
    {
      SuffixWords(image, entry, jrPc, jrRs, t, bound, base, q);
    }
  }

  lemma BaseAfterEntry(image: Image, entry: int, t: Tail, base: Base)
    requires BaseOf(image, entry, t) == Some(base)
    ensures entry <= base.constantPc
  {
    var def := Nearest(image, Floor(entry, t.sllPc + 4), t.sllPc, t.table);
    NearestAbove(image, Floor(entry, t.sllPc + 4), t.sllPc, t.table);
    if base.defPc != base.constantPc {
      var rs := image(def.value).value.rs;
      NearestAbove(image, Floor(entry, def.value), def.value - 4, rs);
    }
  }

  lemma {:induction false} NearestAbove(image: Image, floor: int, pc: int, reg: Reg)
    requires Nearest(image, floor, pc, reg).Some?
    ensures floor <= Nearest(image, floor, pc, reg).value <= pc
    decreases pc - floor
  {
    if !WritesGpr(image(pc).value, reg) {
      NearestAbove(image, floor, pc - 4, reg);
    }
  }

  /** A step from outside the suffix to a word behind its first is a transfer that enters it. */
  lemma StepEnters(image: Image, entry: int, hardCap: int, start: int, jrPc: int, branchPc: int, pc: int, q: int)
    requires Suffix(image, entry, hardCap, start, jrPc, branchPc) && Passes(image, pc, q)
    requires pc % 4 == 0 && q % 4 == 0 && jrPc % 4 == 0 && entry <= pc
    requires !(start <= pc <= jrPc) && start < q <= jrPc
    ensures Enters(image, start, jrPc, pc)
  {
    var i := image(pc).value;
    Control.FlowWords(i);
    assert q != pc + 4 && q != pc + 8;
    var s, flag :| Control.After(pc, i, s, flag) == q;
    assert Control.Taken(i, s, flag) && Control.Target(pc, i, s) == q;
  }

  /** Where a way first gets behind the start of the suffix without having come through it. */
  lemma {:induction false} FirstInside(p: seq<int>, start: int, jrPc: int) returns (k: nat)
    requires |p| >= 2 && p[0] < start && start < p[|p| - 1] <= jrPc && start !in p
    ensures k < |p| - 1 && !(start <= p[k] <= jrPc) && start < p[k + 1] <= jrPc
    decreases |p|
  {
    var before := p[..|p| - 1];
    k := |p| - 2;
    if start <= p[k] <= jrPc {
      assert p[k] in p && start !in before;
      k := FirstInside(before, start, jrPc);
    }
  }

  /** The step of a way at which a stray word, met by the walk from the case labels, enters the
      suffix. */
  ghost predicate StraysAt(image: Image, start: int, jrPc: int, cases: set<int>, p: seq<int>, k: nat) {
    k < |p| - 1 && Enters(image, start, jrPc, p[k]) && p[k] in cases && start < p[k + 1] <= jrPc
  }

  /** A way around the start enters the suffix somewhere. */
  lemma EntryPoint(image: Image, entry: int, hardCap: int, start: int, jrPc: int, branchPc: int, p: seq<int>) returns (k: nat)
    requires Suffix(image, entry, hardCap, start, jrPc, branchPc)
    requires WayTo(image, entry, hardCap, p, jrPc) && start !in p
    ensures k < |p| - 1 && Enters(image, start, jrPc, p[k]) && start < p[k + 1] <= jrPc
    ensures Reaches(entry, p[k]) && p[k] < hardCap
  {
    k := EntryStep(image, entry, hardCap, start, jrPc, p);
    var pc, q := p[k], p[k + 1];
    WayEnds(image, entry, hardCap, p);
    StepEnters(image, entry, hardCap, start, jrPc, branchPc, pc, q);
    AlignedReach(entry, pc);
  }

  lemma EntryStep(image: Image, entry: int, hardCap: int, start: int, jrPc: int, p: seq<int>) returns (k: nat)
    requires WayTo(image, entry, hardCap, p, jrPc) && start !in p && entry <= start < jrPc
    ensures k < |p| - 1 && !(start <= p[k] <= jrPc) && start < p[k + 1] <= jrPc
    ensures Passes(image, p[k], p[k + 1]) && InBody(image, entry, hardCap, p[k]) && InBody(image, entry, hardCap, p[k + 1])
  {
    assert p[0] in p;
    k := FirstInside(p, start, jrPc);
    WayStep(image, entry, hardCap, p, k);
  }

  lemma AlignedReach(a: int, b: int)
    requires a <= b && a % 4 == 0 && b % 4 == 0
    ensures Reaches(a, b)
  {
    FoursReach(a, b);
  }

  /** Every way from the entry to the `jr` of an accepted dispatch comes through its start, or
      enters the suffix from a word that the walk from the case labels met; in the scheduled
      form it always comes through the start. */
  lemma WaysComeThrough(image: Image, iterate: Iteration, entry: int, hardCap: int, jrPc: int, jrRs: Reg, lo: int, hi: int,
                        t: Tail, bound: Bound, base: Base, p: seq<int>)
    requires Accepted(image, iterate, entry, hardCap, jrPc, jrRs, lo, hi, t, bound, base)
    requires WayTo(image, entry, hardCap, p, jrPc)
    ensures var cases := Cases(image, iterate, entry, hardCap, lo, hi, TableAt(t, base), bound.count);
            || Start(bound, base) in p
            || (!bound.scheduled && exists k :: StraysAt(image, Start(bound, base), jrPc, cases, p, k))
  {
    var start := Start(bound, base);
    if start !in p {
      DispatchSuffix(image, entry, hardCap, jrPc, jrRs, t, bound, base);
      var k := EntryPoint(image, entry, hardCap, start, jrPc, bound.branchPc, p);
      var cases := Cases(image, iterate, entry, hardCap, lo, hi, TableAt(t, base), bound.count);
      ToleratedGuards(image, entry, hardCap, jrPc, bound, base, cases);
      assert StraysAt(image, start, jrPc, cases, p, k);
    }
  }

  // ----- The words that may enter ------------------------------------------------------------------

  lemma {:induction false} CaseWalkReached(image: Image, entry: int, hardCap: int, lo: int, hi: int, work: seq<int>,
                                           reached: set<int>, targets: set<int>)
    requires forall pc :: pc in work ==> CaseReached(image, targets, pc)
    requires forall pc :: pc in reached ==> CaseReached(image, targets, pc)
    ensures forall pc :: pc in CaseWalk(image, entry, hardCap, lo, hi, work, reached) ==> CaseReached(image, targets, pc)
    decreases 2048 - |reached|, |work|
  {
    if work != [] && |reached| < 2048 {
      var pc, rest := work[0], work[1..];
      if pc in reached || !Expands(image, entry, hardCap, lo, hi, pc) {
        CaseWalkReached(image, entry, hardCap, lo, hi, rest, reached, targets);
      } else {
        CaseStep(image, targets, pc);
        WalkEdges(image, pc);
        MoreReached(image, pc, reached);
        CaseWalkReached(image, entry, hardCap, lo, hi, rest + Successors(pc, image(pc).value),
                        WithDelay(image, pc, reached), targets);
      }
    }
  }

  /** A word that enters the suffix of an accepted dispatch is reached from a case label. */
  lemma EnteringIsCase(image: Image, iterate: Iteration, entry: int, hardCap: int, jrPc: int, jrRs: Reg, lo: int, hi: int,
                       t: Tail, bound: Bound, base: Base, source: int)
    requires Iterates(iterate) && Accepted(image, iterate, entry, hardCap, jrPc, jrRs, lo, hi, t, bound, base)
    requires Reaches(entry, source) && source < hardCap && Enters(image, Start(bound, base), jrPc, source)
    ensures !bound.scheduled
    ensures CaseReached(image, (set x | x in TableWords(image, TableAt(t, base), bound.count)), source)
  {
    var words := TableWords(image, TableAt(t, base), bound.count);
    var targets := set x | x in words;
    var cases := Cases(image, iterate, entry, hardCap, lo, hi, TableAt(t, base), bound.count);
    ToleratedGuards(image, entry, hardCap, jrPc, bound, base, cases);
    forall pc | pc in iterate(words)
      ensures CaseReached(image, targets, pc)
    {
      assert ReachedIn(image, targets, pc, 0);
    }
    CaseWalkReached(image, entry, hardCap, lo, hi, iterate(words), {}, targets);
  }

  // ----- Exactly when every way comes through the start -----------------------------------------------

  /** Some way to a word that enters the suffix avoids its start. */
  ghost predicate Bypassed(image: Image, entry: int, hardCap: int, start: int, jrPc: int) {
    exists p, source :: WayTo(image, entry, hardCap, p, source) && start !in p && Enters(image, start, jrPc, source)
  }

  ghost predicate Dominates(image: Image, entry: int, hardCap: int, start: int, jrPc: int) {
    forall p :: WayTo(image, entry, hardCap, p, jrPc) ==> start in p
  }

  lemma GuardFalls(image: Image, pc: int)
    requires image(pc).Some? && GuardsOn(image(pc).value)
    ensures Passes(image, pc, pc + 8)
  {
    var i := image(pc).value;
    Control.BothWays(i);
    var s, flag :| !Control.Taken(i, s, flag);
    assert Control.After(pc, i, s, flag) == pc + 8;
  }

  lemma PlainPasses(image: Image, pc: int)
    requires image(pc).Some? && !IsControlFlow(image(pc).value)
    ensures Passes(image, pc, pc + 4)
  {
    Control.FlowWords(image(pc).value);
    assert Control.After(pc, image(pc).value, Control.Holding(0, 0), false) == pc + 4;
  }

  /** The suffix goes on from each of its words to a later one. */
  lemma DownStep(image: Image, jrPc: int, branchPc: int, q: int) returns (next: int)
    requires SuffixWord(image, jrPc, branchPc, q) && q < jrPc && jrPc % 4 == 0 && q % 4 == 0
    ensures Passes(image, q, next) && q < next <= jrPc && next % 4 == 0
  {
    if q == branchPc {
      GuardFalls(image, q);
      next := q + 8;
    } else {
      PlainPasses(image, q);
      next := q + 4;
    }
  }

  lemma WayOfOne(image: Image, entry: int, hardCap: int, q: int)
    requires InBody(image, entry, hardCap, q)
    ensures IsWay(image, entry, hardCap, [q])
  {
  }

  /** From any word behind the start, a way inside the suffix leads to the `jr`. */
  lemma {:induction false} WayDown(image: Image, entry: int, hardCap: int, start: int, jrPc: int, branchPc: int, q: int)
    returns (p: seq<int>)
    requires Suffix(image, entry, hardCap, start, jrPc, branchPc)
    requires start < q <= jrPc && jrPc % 4 == 0 && q % 4 == 0
    ensures IsWay(image, entry, hardCap, p) && p[0] == q && p[|p| - 1] == jrPc && start !in p
    decreases jrPc - q
  {
    if q == jrPc {
      WayOfOne(image, entry, hardCap, q);
      p := [q];
    } else {
      assert SuffixWord(image, jrPc, branchPc, q);
      var next := DownStep(image, jrPc, branchPc, q);
      var rest := WayDown(image, entry, hardCap, start, jrPc, branchPc, next);
      WayOfOne(image, entry, hardCap, q);
      WayJoin(image, entry, hardCap, [q], rest);
      p := [q] + rest;
    }
  }

  /** An entering word passes to an aligned word of the suffix. */
  lemma EnteringPasses(image: Image, start: int, jrPc: int, source: int) returns (q: int)
    requires Enters(image, start, jrPc, source) && source % 4 == 0
    ensures Passes(image, source, q) && start < q <= jrPc && q % 4 == 0
  {
    var i := image(source).value;
    var s, flag :| Control.Taken(i, s, flag) && start < Control.Target(source, i, s) <= jrPc;
    q := Control.Target(source, i, s);
    assert Control.After(source, i, s, flag) == q;
    TargetAligned(source, i, s);
  }

  lemma TargetAligned(pc: int, i: Instr, s: Cpu)
    requires pc % 4 == 0 && !Control.TransferOf(i).ThroughRegister?
    ensures Control.Target(pc, i, s) % 4 == 0
  {
  }

  /** A way to an entering word around the start goes on to the `jr`. */
  lemma BypassGoesOn(image: Image, entry: int, hardCap: int, start: int, jrPc: int, branchPc: int, p: seq<int>, source: int)
    requires Suffix(image, entry, hardCap, start, jrPc, branchPc) && jrPc % 4 == 0
    requires WayTo(image, entry, hardCap, p, source) && start !in p && Enters(image, start, jrPc, source)
    ensures !Dominates(image, entry, hardCap, start, jrPc)
  {
    WayEnds(image, entry, hardCap, p);
    var q := EnteringPasses(image, start, jrPc, source);
    var rest := WayDown(image, entry, hardCap, start, jrPc, branchPc, q);
    WayJoin(image, entry, hardCap, p, rest);
    assert WayTo(image, entry, hardCap, p + rest, jrPc) && start !in p + rest;
  }

  /** A way around the start has come by an entering word. */
  lemma AroundIsBypass(image: Image, entry: int, hardCap: int, start: int, jrPc: int, branchPc: int, p: seq<int>)
    requires Suffix(image, entry, hardCap, start, jrPc, branchPc)
    requires WayTo(image, entry, hardCap, p, jrPc) && start !in p
    ensures Bypassed(image, entry, hardCap, start, jrPc)
  {
    var k := EntryPoint(image, entry, hardCap, start, jrPc, branchPc, p);
    PartOfWay(image, entry, hardCap, p, k + 1);
    assert WayTo(image, entry, hardCap, p[..k + 1], p[k]) && start !in p[..k + 1];
  }

  /** The start of a matched dispatch dominates its `jr` exactly when no word that enters the
      suffix can be reached around the start. */
  lemma DominatesExactly(image: Image, entry: int, hardCap: int, jrPc: int, jrRs: Reg, t: Tail, bound: Bound, base: Base)
    requires DispatchOf(image, entry, hardCap, jrPc, jrRs) == Some((t, bound, base)) && jrPc % 4 == 0
    ensures Dominates(image, entry, hardCap, Start(bound, base), jrPc)
            <==> !Bypassed(image, entry, hardCap, Start(bound, base), jrPc)
  {
    var start := Start(bound, base);
    DispatchSuffix(image, entry, hardCap, jrPc, jrRs, t, bound, base);
    if p, source :| WayTo(image, entry, hardCap, p, source) && start !in p && Enters(image, start, jrPc, source) {
      BypassGoesOn(image, entry, hardCap, start, jrPc, bound.branchPc, p, source);
    }
    forall p | WayTo(image, entry, hardCap, p, jrPc) && start !in p
      ensures Bypassed(image, entry, hardCap, start, jrPc)
    {
      AroundIsBypass(image, entry, hardCap, start, jrPc, bound.branchPc, p);
    }
  }

  /** In the scheduled form it always does. */
  lemma ScheduledDominates(image: Image, iterate: Iteration, entry: int, hardCap: int, jrPc: int, jrRs: Reg, lo: int, hi: int,
                           t: Tail, bound: Bound, base: Base)
    requires Accepted(image, iterate, entry, hardCap, jrPc, jrRs, lo, hi, t, bound, base) && bound.scheduled
    ensures Dominates(image, entry, hardCap, Start(bound, base), jrPc)
  {
    forall p | WayTo(image, entry, hardCap, p, jrPc)
      ensures Start(bound, base) in p
    {
      WaysComeThrough(image, iterate, entry, hardCap, jrPc, jrRs, lo, hi, t, bound, base, p);
    }
  }
}
