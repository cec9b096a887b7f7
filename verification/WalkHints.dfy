/** What the hints of a walk say about the machine: each kind of hint is shown by exactly the
    words whose transfers mean it. */
module WalkHints {
  import opened Options
  import opened WalkedImage
  import opened Walk
  import Control
  import JumpTable
  import Mips
  import Ownership

  /** Some state of the CPU takes the word at `pc` to an address that is not from a register and
      that the walk calls `t`. */
  ghost predicate Aims(c: Capture, pc: nat, i: Mips.Instr, t: nat) {
    && !Control.TransferOf(i).ThroughRegister?
    && exists s, flag :: Control.Taken(i, s, flag) && Address(c, Control.Target(pc, i, s)) == t
  }

  lemma AimsAt(c: Capture, pc: nat, i: Mips.Instr, t: nat)
    ensures var (kind, target) := Mips.Classify(pc, i);
            Aims(c, pc, i, t) <==> (kind == Mips.Branch || kind == Mips.J || kind == Mips.Jal) && t == Address(c, target)
  {
    var (kind, target) := Mips.Classify(pc, i);
    Control.ClassMeans(pc, i);
    if kind == Mips.Branch || kind == Mips.J || kind == Mips.Jal {
      var s0 := Control.Holding(0, 0);
      assert kind != Mips.Branch ==> Control.Taken(i, s0, false);
      var s, flag :| Control.Taken(i, s, flag);
    }
  }

  /** A transfer through a register other than a return, resolved to a word of the region. */
  ghost predicate Resolves(s: Scope, c: Capture, pc: nat, i: Mips.Instr, t: nat) {
    && Control.TransferOf(i).ThroughRegister? && !IsReturn(i)
    && Resolved(c, s.entry, pc, i.rs) == Some(t) && InRegion(s.image, t)
  }

  predicate IsReturn(i: Mips.Instr) {
    Control.JumpsAway(i) && i.rs == 31
  }

  /** The word calls `t`, directly or through a register, or leaves the function for it through
      a register. */
  ghost predicate Leaves(s: Scope, c: Capture, pc: nat, i: Mips.Instr, t: nat) {
    || (Control.AlwaysCalls(i) && Aims(c, pc, i, t) && InRegion(s.image, t) && s.image.valid(t))
    || (Resolves(s, c, pc, i, t) && (Control.Links(i) || !InFunction(s, t)))
  }

  /** The word is a `jr`, not a return, that no constant explains, with this table behind it. */
  predicate Switched(s: Scope, c: Capture, pc: nat, i: Mips.Instr, table: Option<Table>) {
    Control.JumpsAway(i) && !IsReturn(i) && !Known(s.image, Resolved(c, s.entry, pc, i.rs)) && table.Some?
  }

  function HintsOf(s: Scope, c: Capture, pc: nat, i: Mips.Instr, table: Option<Table>): set<Hint> {
    Hints(s, pc, Kinded(c, s.entry, pc, i, table))
  }

  /** What the class of a word says of it. */
  lemma KindSays(i: Mips.Instr, pc: nat, kind: Mips.Kind)
    requires kind == Mips.Classify(pc, i).0
    ensures kind.Normal? <==> Control.TransferOf(i).NoTransfer?
    ensures kind.Jr? || kind.JrRa? <==> Control.JumpsAway(i)
    ensures kind.JrRa? <==> IsReturn(i)
    ensures kind.Jr? || kind.JrRa? || kind.Jalr? <==> Control.TransferOf(i).ThroughRegister?
    ensures kind.Jal? || kind.Jalr? <==> Control.AlwaysCalls(i)
    ensures kind.Branch? || kind.BranchNever? || kind.BranchNeverLikely? <==>
              Control.CanFall(i) && !Control.TransferOf(i).NoTransfer?
    ensures kind.Jalr? ==> Control.Links(i)
    ensures Control.JumpsAway(i) ==> !Control.Links(i)
  {
    Control.ClassMeans(pc, i);
  }

  lemma CallShown(s: Scope, c: Capture, pc: nat, i: Mips.Instr, table: Option<Table>, t: nat)
    ensures CallsTo(t) in HintsOf(s, c, pc, i, table) <==>
              && Control.AlwaysCalls(i) && Aims(c, pc, i, t) && InRegion(s.image, t) && s.image.valid(t)
              && s.image.callable(pc, t) != Refused
  {
    KindSays(i, pc, Mips.Classify(pc, i).0);
    AimsAt(c, pc, i, t);
  }

  lemma IndirectShown(s: Scope, c: Capture, pc: nat, i: Mips.Instr, table: Option<Table>, t: nat)
    ensures Indirectly(t) in HintsOf(s, c, pc, i, table) <==>
              && Resolves(s, c, pc, i, t) && (Control.Links(i) || !InFunction(s, t))
              && s.image.callable(pc, t) != Refused
  {
    KindSays(i, pc, Mips.Classify(pc, i).0);
  }

  lemma CrossingShown(s: Scope, c: Capture, pc: nat, i: Mips.Instr, table: Option<Table>, t: nat)
    ensures Crosses(t) in HintsOf(s, c, pc, i, table) <==> Leaves(s, c, pc, i, t) && s.image.callable(pc, t) == Crossing
  {
    KindSays(i, pc, Mips.Classify(pc, i).0);
    AimsAt(c, pc, i, t);
  }

  lemma RefusalShown(s: Scope, c: Capture, pc: nat, i: Mips.Instr, table: Option<Table>, t: nat)
    ensures Refuses(t) in HintsOf(s, c, pc, i, table) <==> Leaves(s, c, pc, i, t) && s.image.callable(pc, t) == Refused
  {
    KindSays(i, pc, Mips.Classify(pc, i).0);
    AimsAt(c, pc, i, t);
  }

  /** Calls and indirect targets: shown for other functions unless they are refused, and for
      another producer's with the crossing. */
  lemma CallHints(s: Scope, c: Capture, pc: nat, i: Mips.Instr, table: Option<Table>, t: nat)
    ensures var hints, standing := HintsOf(s, c, pc, i, table), s.image.callable(pc, t);
            && (CallsTo(t) in hints <==>
                  Control.AlwaysCalls(i) && Aims(c, pc, i, t) && InRegion(s.image, t) && s.image.valid(t) && standing != Refused)
            && (Indirectly(t) in hints <==>
                  Resolves(s, c, pc, i, t) && (Control.Links(i) || !InFunction(s, t)) && standing != Refused)
            && (Crosses(t) in hints <==> Leaves(s, c, pc, i, t) && standing == Crossing)
            && (Refuses(t) in hints <==> Leaves(s, c, pc, i, t) && standing == Refused)
  {
    CallShown(s, c, pc, i, table, t);
    IndirectShown(s, c, pc, i, table, t);
    CrossingShown(s, c, pc, i, table, t);
    RefusalShown(s, c, pc, i, table, t);
  }

  /** A place that control can get to: behind the delay slot, at the target of a direct
      transfer, or where a resolved `jr` goes. */
  ghost predicate Gets(s: Scope, c: Capture, pc: nat, i: Mips.Instr, t: nat) {
    || (!Control.TransferOf(i).NoTransfer? && t == pc + 8 && (Control.CanFall(i) || Control.AlwaysCalls(i)))
    || (!Control.AlwaysCalls(i) && Aims(c, pc, i, t))
    || (Control.JumpsAway(i) && Resolves(s, c, pc, i, t))
  }

  lemma BranchShown(s: Scope, c: Capture, pc: nat, i: Mips.Instr, table: Option<Table>, t: nat)
    ensures BranchesTo(t) in HintsOf(s, c, pc, i, table) <==>
              || (InFunction(s, t) && Gets(s, c, pc, i, t))
              || (Switched(s, c, pc, i, table) && t in table.value.targets)
  {
    KindSays(i, pc, Mips.Classify(pc, i).0);
    AimsAt(c, pc, i, t);
  }

  lemma PastShown(s: Scope, c: Capture, pc: nat, i: Mips.Instr, table: Option<Table>, t: nat)
    ensures Past(t) in HintsOf(s, c, pc, i, table) <==>
              !Control.AlwaysCalls(i) && Aims(c, pc, i, t) && InRegion(s.image, t) && t >= s.cap
  {
    KindSays(i, pc, Mips.Classify(pc, i).0);
    AimsAt(c, pc, i, t);
  }

  lemma ContinuationShown(s: Scope, c: Capture, pc: nat, i: Mips.Instr, table: Option<Table>, t: nat)
    ensures ContinuesAt(t) in HintsOf(s, c, pc, i, table) <==> Control.AlwaysCalls(i) && t == pc + 8 && InFunction(s, t)
  {
    KindSays(i, pc, Mips.Classify(pc, i).0);
  }

  /** Places of this function that control can get to, and the case labels. */
  lemma PlaceHints(s: Scope, c: Capture, pc: nat, i: Mips.Instr, table: Option<Table>, t: nat)
    ensures var hints := HintsOf(s, c, pc, i, table);
            && (BranchesTo(t) in hints <==>
                  || (InFunction(s, t) && Gets(s, c, pc, i, t))
                  || (Switched(s, c, pc, i, table) && t in table.value.targets))
            && (ContinuesAt(t) in hints <==> Control.AlwaysCalls(i) && t == pc + 8 && InFunction(s, t))
            && (Past(t) in hints <==>
                  !Control.AlwaysCalls(i) && Aims(c, pc, i, t) && InRegion(s.image, t) && t >= s.cap)
  {
    BranchShown(s, c, pc, i, table, t);
    ContinuationShown(s, c, pc, i, table, t);
    PastShown(s, c, pc, i, table, t);
  }

  lemma ProofShown(s: Scope, c: Capture, pc: nat, i: Mips.Instr, table: Option<Table>, q: nat, proof: Table)
    ensures Proves(q, proof) in HintsOf(s, c, pc, i, table) <==> Switched(s, c, pc, i, table) && q == pc && proof == table.value
  {
    KindSays(i, pc, Mips.Classify(pc, i).0);
  }

  lemma LabelShown(s: Scope, c: Capture, pc: nat, i: Mips.Instr, table: Option<Table>, t: nat)
    ensures SwitchesTo(t) in HintsOf(s, c, pc, i, table) <==> Switched(s, c, pc, i, table) && t in table.value.targets
  {
    KindSays(i, pc, Mips.Classify(pc, i).0);
  }

  lemma SwitchHints(s: Scope, c: Capture, pc: nat, i: Mips.Instr, table: Option<Table>, t: nat, q: nat, proof: Table)
    ensures var hints := HintsOf(s, c, pc, i, table);
            && (SwitchesTo(t) in hints <==> Switched(s, c, pc, i, table) && t in table.value.targets)
            && (Proves(q, proof) in hints <==> Switched(s, c, pc, i, table) && q == pc && proof == table.value)
  {
    LabelShown(s, c, pc, i, table, t);
    ProofShown(s, c, pc, i, table, q, proof);
  }

  // ----- The evidence of a walk ------------------------------------------------------------------------

  /** The word at `pc` of a captured function, and what it means there for an address `t`. */
  ghost predicate CallsFrom(c: Capture, s: Scope, pc: nat, t: nat) {
    var at := Words(c)(pc);
    && at.Some? && Control.AlwaysCalls(at.value) && Aims(c, pc, at.value, t)
    && InRegion(s.image, t) && ValidWord(c, t) && Callable(c, pc, t) != Refused
  }

  ghost predicate LeavesFrom(c: Capture, s: Scope, pc: nat, t: nat) {
    var at := Words(c)(pc);
    && at.Some? && Resolves(s, c, pc, at.value, t)
    && (Control.Links(at.value) || !InFunction(s, t)) && Callable(c, pc, t) != Refused
  }

  ghost predicate PassesFrom(c: Capture, s: Scope, pc: nat, t: nat) {
    var at := Words(c)(pc);
    at.Some? && !Control.AlwaysCalls(at.value) && Aims(c, pc, at.value, t) && InRegion(s.image, t) && t >= s.cap
  }

  /** What a word of a captured function shows of an address. */
  lemma WordShows(c: Capture, iterate: JumpTable.Iteration, entry: nat, cap: nat, pc: nat, t: nat)
    ensures var s := ScopeAt(c, iterate, entry, cap);
            && (HintAt(s, pc, CallsTo(t)) <==> CallsFrom(c, s, pc, t))
            && (HintAt(s, pc, Indirectly(t)) <==> LeavesFrom(c, s, pc, t))
            && (HintAt(s, pc, Past(t)) <==> PassesFrom(c, s, pc, t))
  {
    var s, at := ScopeAt(c, iterate, entry, cap), Words(c)(pc);
    if at.Some? {
      var table := TableOf(c, iterate, entry, cap, pc, at.value.rs);
      CallHints(s, c, pc, at.value, table, t);
      PlaceHints(s, c, pc, at.value, table, t);
    }
  }

  /** The words that a walk expanded call, leave for or pass to exactly the addresses of the
      trace that ownership works with. */
  ghost predicate Evidenced(c: Capture, s: Scope, expanded: set<nat>, trace: Ownership.Trace, t: nat) {
    && (t in trace.calls <==> exists pc :: pc in expanded && CallsFrom(c, s, pc, t))
    && (t in trace.indirect <==> exists pc :: pc in expanded && LeavesFrom(c, s, pc, t))
    && (t in trace.forward <==> exists pc :: pc in expanded && PassesFrom(c, s, pc, t))
  }

  lemma TraceEvidenced(c: Capture, iterate: JumpTable.Iteration, entry: nat, cap: nat) returns (expanded: set<nat>)
    ensures var s := ScopeAt(c, iterate, entry, cap);
            && Walking(s, Walked(s).visited, expanded, Walked(s).hints, [])
            && forall t :: Evidenced(c, s, expanded, TraceOf(Walked(s)), t)
  {
    var s := ScopeAt(c, iterate, entry, cap);
    var p := Walked(s);
    WalkedResult(s);
    expanded :| Walking(s, p.visited, expanded, p.hints, []);
    forall t: nat
      ensures Evidenced(c, s, expanded, TraceOf(p), t)
    {
      HintsEvidence(c, iterate, entry, cap, expanded, p, t);
    }
  }

  lemma HintsEvidence(c: Capture, iterate: JumpTable.Iteration, entry: nat, cap: nat, expanded: set<nat>, p: Progress, t: nat)
    requires Shown(ScopeAt(c, iterate, entry, cap), expanded, p.hints)
    ensures Evidenced(c, ScopeAt(c, iterate, entry, cap), expanded, TraceOf(p), t)
  {
    var s := ScopeAt(c, iterate, entry, cap);
    TraceMembers(p, t);
    assert CallsTo(t) in p.hints <==> ShownBy(s, expanded, CallsTo(t));
    assert Indirectly(t) in p.hints <==> ShownBy(s, expanded, Indirectly(t));
    assert Past(t) in p.hints <==> ShownBy(s, expanded, Past(t));
    forall pc: nat
      ensures HintAt(s, pc, CallsTo(t)) <==> CallsFrom(c, s, pc, t)
      ensures HintAt(s, pc, Indirectly(t)) <==> LeavesFrom(c, s, pc, t)
      ensures HintAt(s, pc, Past(t)) <==> PassesFrom(c, s, pc, t)
    {
      WordShows(c, iterate, entry, cap, pc, t);
    }
  }

  lemma TraceMembers(p: Progress, t: nat)
    ensures t in TraceOf(p).calls <==> CallsTo(t) in p.hints
    ensures t in TraceOf(p).indirect <==> Indirectly(t) in p.hints
    ensures t in TraceOf(p).forward <==> Past(t) in p.hints
  {
  }

  // ----- Producers and standing ------------------------------------------------------------------------

  predicate Covers(range: (nat, nat), a: nat) {
    range.0 <= a < range.1
  }

  /** `r` is the first producer that holds `a`. */
  ghost predicate FirstHolding(producers: seq<(nat, nat)>, a: nat, r: (nat, nat)) {
    exists i :: 0 <= i < |producers| && producers[i] == r && Covers(r, a) && forall j :: 0 <= j < i ==> !Covers(producers[j], a)
  }

  lemma {:induction false} ProducerExact(producers: seq<(nat, nat)>, a: nat)
    ensures ProducerOf(producers, a).None? <==> forall i :: 0 <= i < |producers| ==> !Covers(producers[i], a)
    ensures ProducerOf(producers, a).Some? ==> FirstHolding(producers, a, ProducerOf(producers, a).value)
    decreases |producers|
  {
    if producers != [] {
      var rest := producers[1..];
      ProducerExact(rest, a);
      if !Covers(producers[0], a) && ProducerOf(rest, a).Some? {
        var r := ProducerOf(rest, a).value;
        var i :| 0 <= i < |rest| && rest[i] == r && Covers(r, a) && forall j :: 0 <= j < i ==> !Covers(rest[j], a);
        assert producers[i + 1] == r && forall j :: 0 <= j < i + 1 ==> !Covers(producers[j], a);
      }
    }
  }

  lemma FirstHoldingUnique(producers: seq<(nat, nat)>, a: nat, r: (nat, nat))
    requires FirstHolding(producers, a, r)
    ensures ProducerOf(producers, a) == Some(r)
  {
    ProducerExact(producers, a);
  }

  /** Both addresses lie in one producer. */
  ghost predicate Together(producers: seq<(nat, nat)>, a: nat, b: nat) {
    exists r :: FirstHolding(producers, a, r) && FirstHolding(producers, b, r)
  }

  lemma TogetherExactly(producers: seq<(nat, nat)>, a: nat, b: nat)
    ensures Together(producers, a, b) <==> ProducerOf(producers, a).Some? && ProducerOf(producers, a) == ProducerOf(producers, b)
  {
    ProducerExact(producers, a);
    ProducerExact(producers, b);
    if r :| FirstHolding(producers, a, r) && FirstHolding(producers, b, r) {
      FirstHoldingUnique(producers, a, r);
      FirstHoldingUnique(producers, b, r);
    }
  }

  /** Three words from `a` on that are aligned addresses of the capture. */
  ghost predicate LooksLikeTable(c: Capture, a: nat) {
    forall k :: 0 <= k < 3 ==>
      var w := Words(c)(a + 4 * k); w.Some? && w.value.raw % 4 == 0 && c.load <= w.value.raw < c.load + |c.data|
  }

  ghost predicate Held(producers: seq<(nat, nat)>, a: nat) {
    exists i :: 0 <= i < |producers| && Covers(producers[i], a)
  }

  /** A function owns the words of its entry's producer, and a target can be called if it does
      not look like a table and lies in the caller's producer, or in another and crossing is
      allowed and evident. */
  lemma StandingExactly(c: Capture, source: nat, target: nat)
    ensures Owned(c, source, target) <==> c.producers == [] || Together(c.producers, source, target)
    ensures Callable(c, source, target) == Local <==>
              !LooksLikeTable(c, target) && (c.producers == [] || Together(c.producers, source, target))
    ensures Callable(c, source, target) == Crossing <==>
              && !LooksLikeTable(c, target) && c.producers != [] && !Together(c.producers, source, target)
              && Held(c.producers, source) && Held(c.producers, target) && c.crossing && c.evident(target)
  {
    TogetherExactly(c.producers, source, target);
    ProducerExact(c.producers, source);
    ProducerExact(c.producers, target);
    TableExactly(c, target);
  }

  lemma TableExactly(c: Capture, a: nat)
    ensures DensePointers(c, a) <==> LooksLikeTable(c, a)
  {
    if LooksLikeTable(c, a) {
      assert Words(c)(a + 4 * 0).Some? && Words(c)(a + 4 * 1).Some? && Words(c)(a + 4 * 2).Some?;
    }
  }

  /** Orphans are promoted in captures loaded in the lowest 64 KiB. */
  lemma KernelExactly(c: Capture, iterate: JumpTable.Iteration, accepts: (nat, nat, bool) -> bool, placed: nat -> bool)
    ensures ImageOf(c, iterate, accepts, placed).kernel <==> c.load % 0x2000_0000 < 0x1_0000
  {
  }
}
