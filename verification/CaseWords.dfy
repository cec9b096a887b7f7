/** The words behind a dispatch: what the walk from the case labels meets, against the machine. */
module CaseWords {
  import opened Options
  import opened Mips
  import opened JumpTable
  import Control

  /** Control that stays in the function can be at `q` after the word at `pc` and its delay slot,
      without a jump through a register; a called function returns behind the slot. */
  ghost predicate GoesTo(pc: int, i: Instr, q: int) {
    if Control.AlwaysCalls(i) then q == pc + 8
    else !Control.JumpsAway(i) && exists s, flag :: Control.After(pc, i, s, flag) == q
  }

  lemma SuccessorsReached(pc: int, i: Instr, q: int)
    requires q in Successors(pc, i)
    ensures GoesTo(pc, i, q)
  {
    Control.ClassMeans(pc, i);
    var kind, s := Classify(pc, i).0, Control.Holding(0, 0);
    if kind == Branch {
      var taken, on :| Control.Taken(i, taken, on);
      var fallen, off :| !Control.Taken(i, fallen, off);
      assert q == Control.After(pc, i, taken, on) || q == Control.After(pc, i, fallen, off);
    } else if !Control.AlwaysCalls(i) {
      assert Control.After(pc, i, s, false) == q;
    }
  }

  /** The walk goes on exactly where the machine can. */
  lemma SuccessorsExactly(pc: int, i: Instr, q: int)
    ensures q in Successors(pc, i) <==> GoesTo(pc, i, q)
  {
    Control.ClassMeans(pc, i);
    if q in Successors(pc, i) {
      SuccessorsReached(pc, i, q);
    }
  }

  /** Some state of the CPU runs the delay slot. */
  ghost predicate RunsSlot(i: Instr) {
    exists s, flag :: Control.SlotRuns(i, s, flag)
  }

  lemma DelayExactly(pc: int, i: Instr)
    ensures HasDelaySlot(pc, i) <==> RunsSlot(i)
  {
    Control.ClassMeans(pc, i);
    var s := Control.Holding(0, 0);
    assert Control.SlotRuns(i, s, true) || !Control.SlotRuns(i, s, true);
    if Classify(pc, i).0 == Branch {
      var taken, flag :| Control.Taken(i, taken, flag);
      assert Control.SlotRuns(i, taken, flag);
    }
  }

  /** The part of the function that the walk may enter. */
  datatype Area = Area(image: Image, entry: int, hardCap: int, lo: int, hi: int)

  predicate Enterable(a: Area, pc: int) {
    && a.entry <= pc < a.hardCap && a.lo <= pc < a.hi
    && a.image(pc).Some? && IsValid(a.image(pc).value)
  }

  ghost predicate SlotOf(a: Area, expanded: set<int>, pc: int) {
    pc - 4 in expanded && a.image(pc - 4).Some? && RunsSlot(a.image(pc - 4).value)
  }

  /** `pc` was met or is still waiting, unless it cannot be entered. */
  predicate Seen(a: Area, reached: set<int>, work: seq<int>, pc: int) {
    Enterable(a, pc) ==> pc in reached || pc in work
  }

  /** Every label was seen, and so was every word the machine can be at next after a word that
      was expanded; the other words met are delay slots of those. */
  ghost predicate Walks(a: Area, labels: set<int>, expanded: set<int>, reached: set<int>, work: seq<int>) {
    && expanded <= reached && (forall pc :: pc in expanded ==> Enterable(a, pc))
    && (forall pc :: pc in labels ==> Seen(a, reached, work, pc))
    && (forall pc, q :: pc in expanded && GoesTo(pc, a.image(pc).value, q) ==> Seen(a, reached, work, q))
    && forall pc :: pc in reached ==> pc in expanded || SlotOf(a, expanded, pc)
  }

  lemma WalksOn(a: Area, labels: set<int>, expanded: set<int>, reached: set<int>, work: seq<int>)
    requires Walks(a, labels, expanded, reached, work) && work != []
    requires work[0] in reached || !Enterable(a, work[0])
    ensures Walks(a, labels, expanded, reached, work[1..])
  {
    forall pc | Seen(a, reached, work, pc)
      ensures Seen(a, reached, work[1..], pc)
    {
    }
  }

  lemma WalksInto(a: Area, labels: set<int>, expanded: set<int>, reached: set<int>, work: seq<int>)
    requires Walks(a, labels, expanded, reached, work) && work != [] && Enterable(a, work[0])
    ensures var pc := work[0];
            Walks(a, labels, expanded + {pc}, WithDelay(a.image, pc, reached), work[1..] + Successors(pc, a.image(pc).value))
  {
    var pc := work[0];
    var i := a.image(pc).value;
    var later, more := work[1..] + Successors(pc, i), WithDelay(a.image, pc, reached);
    DelayExactly(pc, i);
    forall q | Seen(a, reached, work, q)
      ensures Seen(a, more, later, q)
    {
    }
    forall q | GoesTo(pc, i, q)
      ensures Seen(a, more, later, q)
    {
      SuccessorsExactly(pc, i, q);
    }
    forall q | q in more
      ensures q in expanded + {pc} || SlotOf(a, expanded + {pc}, q)
    {
    }
  }

  /** A walk that is not cut off has nothing waiting. */
  lemma {:induction false} WalkCloses(a: Area, labels: set<int>, expanded: set<int>, reached: set<int>, work: seq<int>)
    returns (all: set<int>)
    requires Walks(a, labels, expanded, reached, work)
    ensures var met := CaseWalk(a.image, a.entry, a.hardCap, a.lo, a.hi, work, reached);
            |met| < 2048 ==> Walks(a, labels, all, met, [])
    decreases 2048 - |reached|, |work|
  {
    all := expanded;
    if work != [] && |reached| < 2048 {
      if work[0] in reached || !Enterable(a, work[0]) {
        WalksOn(a, labels, expanded, reached, work);
        all := WalkCloses(a, labels, expanded, reached, work[1..]);
      } else {
        WalksInto(a, labels, expanded, reached, work);
        MoreReached(a.image, work[0], reached);
        all := WalkCloses(a, labels, expanded + {work[0]}, WithDelay(a.image, work[0], reached),
                          work[1..] + Successors(work[0], a.image(work[0]).value));
      }
    }
  }

  /** The words that count as reached from the case labels: unless the walk is cut off, every
      label and every word the machine can be at next, and only their delay slots besides. */
  lemma CasesClosed(a: Area, iterate: Iteration, table: Word, count: nat) returns (expanded: set<int>)
    requires Iterates(iterate)
    ensures var met := Cases(a.image, iterate, a.entry, a.hardCap, a.lo, a.hi, table, count);
            |met| < 2048 ==> Walks(a, (set x | x in TableWords(a.image, table, count)), expanded, met, [])
  {
    var labels := set x | x in TableWords(a.image, table, count);
    var work := iterate(TableWords(a.image, table, count));
    assert forall x :: x in labels ==> x in work;
    expanded := WalkCloses(a, labels, {}, {}, work);
  }
}
