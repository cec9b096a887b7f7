/** Captured bytes seen through their walks: the words with the resolvers' answers give the
    walk its code, and the walks give ownership its image. */
module WalkedImage {
  import opened Options
  import opened Segments
  import ConstantTransfer
  import Control
  import JumpTable
  import Mips
  import Ownership
  import Walk

  const KERNEL_WINDOW := 0x1_0000

  /** A captured overlay: its bytes, the producers linked into it, and which targets have the
      evidence of their own that a call from another producer needs. */
  datatype Capture = Capture(data: seq<Mips.Byte>, load: nat, size: nat, producers: seq<(nat, nat)>, crossing: bool,
                             evident: nat -> bool)

  function Words(c: Capture): Mips.Image {
    Mips.Captured(c.data, c.load)
  }

  function End(c: Capture): nat {
    c.load + c.size
  }

  /** The first producer that holds an address. */
  function ProducerOf(producers: seq<(nat, nat)>, a: nat): Option<(nat, nat)> {
    if producers == [] then None
    else if producers[0].0 <= a < producers[0].1 then Some(producers[0])
    else ProducerOf(producers[1..], a)
  }

  /** A function stays inside its entry's producer. */
  predicate Owned(c: Capture, entry: nat, a: nat) {
    || c.producers == []
    || (ProducerOf(c.producers, entry).Some? && ProducerOf(c.producers, a) == ProducerOf(c.producers, entry))
  }

  /** The range that the jump tables of a function and their targets lie in. */
  function TableRange(c: Capture, entry: nat): (nat, nat) {
    var p := ProducerOf(c.producers, entry);
    if p.Some? then p.value else (c.load, End(c))
  }

  predicate ValidWord(c: Capture, a: nat) {
    Words(c)(a).Some? && Mips.IsValid(Words(c)(a).value)
  }

  /** A word that could be a pointer into the image. */
  predicate PointsInside(c: Capture, a: nat) {
    var w := Words(c)(a);
    w.Some? && w.value.raw % 4 == 0 && c.load <= w.value.raw < c.load + |c.data|
  }

  predicate DensePointers(c: Capture, a: nat) {
    PointsInside(c, a) && PointsInside(c, a + 4) && PointsInside(c, a + 8)
  }

  function Callable(c: Capture, source: nat, target: nat): Walk.Standing {
    var from, to := ProducerOf(c.producers, source), ProducerOf(c.producers, target);
    if DensePointers(c, target) then Walk.Refused
    else if c.producers == [] then Walk.Local
    else if from.None? || to.None? then Walk.Refused
    else if from == to then Walk.Local
    else if c.crossing && c.evident(target) then Walk.Crossing
    else Walk.Refused
  }

  // ----- The words with the resolvers' answers --------------------------------------------------

  /** A target below zero is outside the image, as its end is. */
  function Address(c: Capture, target: int): nat {
    if target < 0 then End(c) else target
  }

  function Addresses(c: Capture, targets: seq<int>): (r: seq<nat>)
    ensures |r| == |targets| && forall i :: 0 <= i < |r| ==> r[i] == Address(c, targets[i])
  {
    seq(|targets|, i requires 0 <= i < |targets| => Address(c, targets[i]))
  }

  function Resolved(c: Capture, entry: nat, pc: nat, reg: Mips.Reg): Option<nat> {
    ConstantTransfer.Resolve(Words(c), entry, pc, reg)
  }

  /** The dispatch behind a `jr`, if its table is accepted. */
  ghost function Dispatch(c: Capture, iterate: JumpTable.Iteration, entry: nat, cap: nat, pc: nat, reg: Mips.Reg)
    : Option<(JumpTable.Tail, JumpTable.Bound, JumpTable.Base)>
  {
    var d, range := JumpTable.DispatchOf(Words(c), entry, cap, pc, reg), TableRange(c, entry);
    if d.Some? && JumpTable.TableAccepted(Words(c), iterate, entry, cap, pc, d.value.0, d.value.1, d.value.2, range.0, range.1)
    then d else None
  }

  ghost function TableWords(c: Capture, t: JumpTable.Tail, bound: JumpTable.Bound, base: JumpTable.Base): seq<int> {
    JumpTable.TableWords(Words(c), JumpTable.TableAt(t, base), bound.count)
  }

  ghost function TableOf(c: Capture, iterate: JumpTable.Iteration, entry: nat, cap: nat, pc: nat, reg: Mips.Reg)
    : Option<Walk.Table>
  {
    var d := Dispatch(c, iterate, entry, cap, pc, reg);
    if d.None? then None
    else
      var (t, bound, base) := d.value;
      Some(Walk.Table(JumpTable.TableAt(t, base), bound.count, Addresses(c, iterate(TableWords(c, t, bound, base)))))
  }

  /** An instruction as a walk from `entry` sees it, given the table behind a `jr`. */
  function Kinded(c: Capture, entry: nat, pc: nat, i: Mips.Instr, table: Option<Walk.Table>): Walk.Kind {
    var (kind, target) := Mips.Classify(pc, i);
    match kind
    case Normal => Walk.Normal
    case Branch => Walk.Branch(Address(c, target))
    case BranchNever => Walk.BranchNever
    case BranchNeverLikely => Walk.BranchNeverLikely
    case J => Walk.Jump(Address(c, target))
    case Jal => Walk.Call(Address(c, target))
    case Jalr => Walk.CallRegister(Resolved(c, entry, pc, i.rs))
    case Jr => Walk.JumpRegister(Resolved(c, entry, pc, i.rs), table)
    case JrRa => Walk.Return
  }

  ghost function KindAt(c: Capture, iterate: JumpTable.Iteration, entry: nat, cap: nat, pc: nat): Option<Walk.Kind> {
    var at := Words(c)(pc);
    if at.None? then None
    else Some(Kinded(c, entry, pc, at.value, TableOf(c, iterate, entry, cap, pc, at.value.rs)))
  }

  ghost function CodeAt(c: Capture, iterate: JumpTable.Iteration, entry: nat, cap: nat): Walk.Image {
    Walk.Image(c.load, End(c), (pc: nat) => KindAt(c, iterate, entry, cap, pc), (a: nat) => Owned(c, entry, a),
               (a: nat) => ValidWord(c, a), (source: nat, target: nat) => Callable(c, source, target))
  }

  ghost function ScopeAt(c: Capture, iterate: JumpTable.Iteration, entry: nat, cap: nat): Walk.Scope {
    Walk.Scope(CodeAt(c, iterate, entry, cap), entry, cap)
  }

  // ----- The flow is the machine's ------------------------------------------------------------------

  /** Control that stays in the function can be at `q` after the word `i` at `pc` and its delay
      slot: where some state of the CPU leads, or behind a call that returned. */
  ghost predicate Continues(pc: nat, i: Mips.Instr, q: int) {
    if Control.AlwaysCalls(i) then q == pc + 8 else exists s, flag :: Control.After(pc, i, s, flag) == q
  }

  /** For every word but a `jr` the walk's flow is exactly where control can be next. */
  lemma FlowIsMachine(c: Capture, image: Walk.Image, entry: nat, pc: nat, i: Mips.Instr, table: Option<Walk.Table>, a: nat)
    requires !Control.JumpsAway(i)
    ensures a in Walk.Flow(image, pc, Kinded(c, entry, pc, i, table)) <==>
              exists q :: Continues(pc, i, q) && a == Address(c, q)
  {
    var (kind, target) := Mips.Classify(pc, i);
    Control.ClassMeans(pc, i);
    var flow := Walk.Flow(image, pc, Kinded(c, entry, pc, i, table));
    if a in flow {
      var q := match kind
               case Normal => pc + 4
               case Branch => if a == pc + 8 then pc + 8 else target
               case J => target
               case _ => pc + 8;
      FlowReached(pc, i, q, kind, target);
      assert a == Address(c, q);
    }
    forall q | Continues(pc, i, q)
      ensures Address(c, q) in flow
    {
      MachineFlows(pc, i, q, kind, target);
    }
  }

  lemma MachineFlows(pc: nat, i: Mips.Instr, q: int, kind: Mips.Kind, target: int)
    requires !Control.JumpsAway(i) && Mips.Classify(pc, i) == (kind, target) && Continues(pc, i, q)
    ensures match kind
            case Normal => q == pc + 4
            case Branch => q == pc + 8 || q == target
            case J => q == target
            case _ => q == pc + 8
  {
    Control.ClassMeans(pc, i);
  }

  lemma FlowReached(pc: nat, i: Mips.Instr, q: int, kind: Mips.Kind, target: int)
    requires !Control.JumpsAway(i) && Mips.Classify(pc, i) == (kind, target)
    requires match kind
             case Normal => q == pc + 4
             case Branch => q == pc + 8 || q == target
             case J => q == target
             case _ => q == pc + 8
    ensures Continues(pc, i, q)
  {
    Control.ClassMeans(pc, i);
    var s0 := Control.Holding(0, 0);
    if Control.AlwaysCalls(i) {
      return;
    }
    assert kind != Mips.Branch ==> Control.After(pc, i, s0, false) == q;
    if kind == Mips.Branch {
      var s, flag :| Control.Taken(i, s, flag);
      var f, off :| !Control.Taken(i, f, off);
      assert Control.After(pc, i, s, flag) == target && Control.After(pc, i, f, off) == pc + 8;
    }
  }

  /** Behind a `jr` it is the constant resolved for the register, if that lies in the region,
      or else the case labels of an accepted table; behind a return it is nothing. */
  lemma RegisterFlow(c: Capture, image: Walk.Image, entry: nat, pc: nat, i: Mips.Instr, table: Option<Walk.Table>, a: nat)
    requires Control.JumpsAway(i)
    ensures a in Walk.Flow(image, pc, Kinded(c, entry, pc, i, table)) <==>
              && i.rs != 31
              && var known := Resolved(c, entry, pc, i.rs);
                 if known.Some? && image.lo <= known.value < image.hi && known.value % 4 == 0 then a == known.value
                 else table.Some? && a in table.value.targets
  {
    Control.ClassMeans(pc, i);
  }

  /** A word has a delay slot for the walk exactly when some state of the CPU runs it. */
  lemma DelayIsMachine(c: Capture, entry: nat, pc: nat, i: Mips.Instr, table: Option<Walk.Table>)
    ensures Walk.HasDelay(Kinded(c, entry, pc, i, table)) <==> exists s, flag :: Control.SlotRuns(i, s, flag)
  {
    Control.ClassMeans(pc, i);
    var s0 := Control.Holding(0, 0);
    assert Control.SlotRuns(i, s0, true) || !Control.SlotRuns(i, s0, true);
    if Mips.Classify(pc, i).0 == Mips.Branch {
      var s, flag :| Control.Taken(i, s, flag);
      assert Control.SlotRuns(i, s, flag);
    }
  }

  // ----- What the walk follows from a register jump -----------------------------------------------

  /** The word at `pc` is a `jr` through `reg`, and not a return. */
  predicate JumpsThrough(c: Capture, pc: nat, reg: Mips.Reg) {
    var at := Words(c)(pc);
    at.Some? && Mips.Classify(pc, at.value).0 == Mips.Jr && at.value.rs == reg
  }

  /** A straight-line execution up to the `jr` at `pc`, from the words that resolved it and,
      where a table did, with the table intact in memory. */
  ghost predicate Arrives(c: Capture, iterate: JumpTable.Iteration, entry: nat, cap: nat, pc: nat, reg: Mips.Reg,
                          run: int -> Mips.Cpu)
  {
    var words, t := Words(c), Resolved(c, entry, pc, reg);
    if Walk.Known(CodeAt(c, iterate, entry, cap), t) then
      Mips.Straight(words, ConstantTransfer.Candidate(words, entry, pc, reg).value.0, pc, run)
    else
      var d := Dispatch(c, iterate, entry, cap, pc, reg);
      && d.Some? && Mips.Straight(words, JumpTable.Start(d.value.1, d.value.2), pc, run)
      && JumpTable.TableIntact(words, run(d.value.0.lwPc), JumpTable.TableAt(d.value.0, d.value.2), d.value.1.count)
  }

  lemma TableFollowed(c: Capture, iterate: JumpTable.Iteration, entry: nat, cap: nat, pc: nat, reg: Mips.Reg,
                      run: int -> Mips.Cpu)
    requires JumpTable.Iterates(iterate) && TableRange(c, entry).1 <= Mips.TWO32
    requires Arrives(c, iterate, entry, cap, pc, reg, run)
    requires !Walk.Known(CodeAt(c, iterate, entry, cap), Resolved(c, entry, pc, reg))
    ensures TableOf(c, iterate, entry, cap, pc, reg).Some?
    ensures run(pc).regs[reg] as nat in TableOf(c, iterate, entry, cap, pc, reg).value.targets
  {
    var (t, bound, base) := Dispatch(c, iterate, entry, cap, pc, reg).value;
    var range, words := TableRange(c, entry), TableWords(c, t, bound, base);
    JumpTable.AcceptedCovers(Words(c), iterate, entry, cap, pc, reg, t, bound, base, range.0, range.1);
    var target := run(pc).regs[reg] as int;
    assert target in words && target in iterate(words);
    var i :| 0 <= i < |iterate(words)| && iterate(words)[i] == target;
    assert Addresses(c, iterate(words))[i] == target;
  }

  /** Where such an execution jumps is among the addresses that the walk follows; a constant
      for `$zero` is the exception. */
  lemma JumpFollowed(c: Capture, iterate: JumpTable.Iteration, entry: nat, cap: nat, pc: nat, reg: Mips.Reg,
                     run: int -> Mips.Cpu)
    requires JumpTable.Iterates(iterate) && TableRange(c, entry).1 <= Mips.TWO32
    requires JumpsThrough(c, pc, reg) && Arrives(c, iterate, entry, cap, pc, reg, run)
    ensures var code := CodeAt(c, iterate, entry, cap);
            run(pc).regs[reg] as nat in Walk.Flow(code, pc, code.word(pc).value)
            <==> reg != 0 || !Walk.Known(code, Resolved(c, entry, pc, reg)) || Resolved(c, entry, pc, reg) == Some(0)
  {
    var code, t := CodeAt(c, iterate, entry, cap), Resolved(c, entry, pc, reg);
    JumpKind(c, iterate, entry, cap, pc, reg);
    FlowOfJump(code, pc, t, TableOf(c, iterate, entry, cap, pc, reg), run(pc).regs[reg]);
    if Walk.Known(code, t) {
      ConstantArrives(c, entry, pc, reg, run);
    } else {
      TableFollowed(c, iterate, entry, cap, pc, reg, run);
    }
  }

  lemma ConstantArrives(c: Capture, entry: nat, pc: nat, reg: Mips.Reg, run: int -> Mips.Cpu)
    requires Resolved(c, entry, pc, reg).Some?
    requires Mips.Straight(Words(c), ConstantTransfer.Candidate(Words(c), entry, pc, reg).value.0, pc, run)
    ensures run(pc).regs[reg] == Resolved(c, entry, pc, reg).value <==> reg != 0 || Resolved(c, entry, pc, reg) == Some(0)
  {
    ConstantTransfer.ResolveSound(Words(c), entry, pc, reg, run);
  }

  lemma FlowOfJump(code: Walk.Image, pc: nat, t: Option<nat>, table: Option<Walk.Table>, x: nat)
    ensures x in Walk.Flow(code, pc, Walk.JumpRegister(t, table)) <==>
            if Walk.Known(code, t) then x == t.value else table.Some? && x in table.value.targets
  {
  }

  lemma JumpKind(c: Capture, iterate: JumpTable.Iteration, entry: nat, cap: nat, pc: nat, reg: Mips.Reg)
    requires JumpsThrough(c, pc, reg)
    ensures CodeAt(c, iterate, entry, cap).word(pc)
            == Some(Walk.JumpRegister(Resolved(c, entry, pc, reg), TableOf(c, iterate, entry, cap, pc, reg)))
  {
  }

  /** So a walk visits what such an execution jumps to, if it is a word of the function. */
  lemma JumpVisited(c: Capture, iterate: JumpTable.Iteration, s: Walk.Scope, expanded: set<nat>, visited: set<nat>,
                    hints: set<Walk.Hint>, pc: nat, reg: Mips.Reg, run: int -> Mips.Cpu)
    requires JumpTable.Iterates(iterate) && TableRange(c, s.entry).1 <= Mips.TWO32 && s == ScopeAt(c, iterate, s.entry, s.cap)
    requires Walk.Walking(s, visited, expanded, hints, []) && pc in expanded
    requires JumpsThrough(c, pc, reg) && reg != 0 && Arrives(c, iterate, s.entry, s.cap, pc, reg, run)
    ensures Walk.IsCode(s, run(pc).regs[reg]) ==> run(pc).regs[reg] as nat in visited
  {
    JumpFollowed(c, iterate, s.entry, s.cap, pc, reg, run);
    if Walk.IsCode(s, run(pc).regs[reg]) {
      assert Walk.Follows(s, pc, run(pc).regs[reg]);
    }
  }

  // ----- Executions inside a function ----------------------------------------------------------------

  /** An execution that is at `pc` can be at `q` next, without leaving the function; a `jr` goes
      where the register leads it, on the way that resolved it. */
  ghost predicate Moves(c: Capture, iterate: JumpTable.Iteration, entry: nat, cap: nat, pc: nat, q: nat) {
    var at := Words(c)(pc);
    && at.Some?
    && if Control.JumpsAway(at.value) then
         && at.value.rs != 0 && at.value.rs != 31
         && exists run :: Arrives(c, iterate, entry, cap, pc, at.value.rs, run) && run(pc).regs[at.value.rs] == q
       else Continues(pc, at.value, q)
  }

  lemma MoveFollows(c: Capture, iterate: JumpTable.Iteration, entry: nat, cap: nat, pc: nat, q: nat)
    requires JumpTable.Iterates(iterate) && TableRange(c, entry).1 <= Mips.TWO32
    requires var s := ScopeAt(c, iterate, entry, cap); Walk.IsCode(s, pc) && Walk.IsCode(s, q)
    requires Moves(c, iterate, entry, cap, pc, q)
    ensures Walk.Follows(ScopeAt(c, iterate, entry, cap), pc, q)
  {
    var i := Words(c)(pc).value;
    Control.ClassMeans(pc, i);
    if Control.JumpsAway(i) {
      var run :| Arrives(c, iterate, entry, cap, pc, i.rs, run) && run(pc).regs[i.rs] == q;
      JumpFollowed(c, iterate, entry, cap, pc, i.rs, run);
    } else {
      var table := TableOf(c, iterate, entry, cap, pc, i.rs);
      FlowIsMachine(c, CodeAt(c, iterate, entry, cap), entry, pc, i, table, q);
      assert Continues(pc, i, q) && q == Address(c, q);
    }
  }

  /** The addresses of an execution that starts at the entry and stays in the function. */
  ghost predicate Executed(c: Capture, iterate: JumpTable.Iteration, entry: nat, cap: nat, p: seq<nat>) {
    var s := ScopeAt(c, iterate, entry, cap);
    && p != [] && p[0] == entry && (forall a :: a in p ==> Walk.IsCode(s, a))
    && forall k :: 0 <= k < |p| - 1 ==> Moves(c, iterate, entry, cap, p[k], p[k + 1])
  }

  /** The walk visits every address of every such execution, if no transfer enters a delay
      slot. */
  lemma ExecutionVisited(c: Capture, iterate: JumpTable.Iteration, entry: nat, cap: nat, p: seq<nat>)
    requires JumpTable.Iterates(iterate) && TableRange(c, entry).1 <= Mips.TWO32
    requires Executed(c, iterate, entry, cap, p) && Walk.SlotsPrivate(ScopeAt(c, iterate, entry, cap))
    ensures p[|p| - 1] in Walk.Walked(ScopeAt(c, iterate, entry, cap)).visited
  {
    var s := ScopeAt(c, iterate, entry, cap);
    forall k | 0 <= k < |p| - 1
      ensures Walk.Follows(s, p[k], p[k + 1])
    {
      MoveFollows(c, iterate, entry, cap, p[k], p[k + 1]);
    }
    assert Walk.IsPath(s, p);
    Walk.WalkedResult(s);
    Walk.WalkComplete(s, Walk.Walked(s).visited, Walk.Walked(s).hints);
  }

  // ----- The image that ownership works on ------------------------------------------------------

  ghost function TraceOf(p: Walk.Progress): Ownership.Trace {
    Ownership.Trace(p.visited, set h | h in p.hints && h.CallsTo? :: h.target,
                    set h | h in p.hints && h.Indirectly? :: h.target, set h | h in p.hints && h.Past? :: h.target)
  }

  ghost function ImageOf(c: Capture, iterate: JumpTable.Iteration, accepts: (nat, nat, bool) -> bool,
                         placed: nat -> bool): Ownership.Image {
    Ownership.Image(End(c), Phys(c.load) < KERNEL_WINDOW,
                    (entry: nat, cap: nat) => TraceOf(Walk.Walked(ScopeAt(c, iterate, entry, cap))), accepts,
                    (a: nat) => ValidWord(c, a), placed)
  }

  /** Each walk of the image is the walk over the code that its entry and cap see. */
  ghost predicate WalksOver(image: Ownership.Image, code: (nat, nat) -> Walk.Image) {
    forall e, c :: code(e, c).hi == image.hi && image.walk(e, c).visited == Walk.Walked(Walk.Scope(code(e, c), e, c)).visited
  }

  ghost predicate AllPrivate(code: (nat, nat) -> Walk.Image) {
    forall e, c :: Walk.SlotsPrivate(Walk.Scope(code(e, c), e, c))
  }

  /** A later cap takes no flow away. */
  ghost predicate Steady(code: (nat, nat) -> Walk.Image) {
    forall e, c, d :: c <= d || d == code(e, c).hi ==> Walk.Extends(code(e, c), code(e, d))
  }

  lemma WalkedMonotone(image: Ownership.Image, code: (nat, nat) -> Walk.Image)
    requires WalksOver(image, code) && AllPrivate(code) && Steady(code)
    ensures Ownership.Monotone(image)
  {
    forall t, e, c, d | (c <= d || d == image.hi) && t in image.walk(e, c).visited
      ensures t in image.walk(e, d).visited
    {
      var s, wide := Walk.Scope(code(e, c), e, c), Walk.Scope(code(e, d), e, d);
      assert Walk.Extends(code(e, c), code(e, d));
      Walk.WalkMonotone(s, wide);
    }
  }

  /** The condition under which a kernel image keeps an address then always holds. */
  lemma WalkedKeeps(code: (nat, nat) -> Walk.Image, s: Ownership.Setup, known: set<nat>, derived: Ownership.Reasons, a: nat)
    requires WalksOver(s.image, code) && AllPrivate(code) && Steady(code) && Ownership.Settled(s, known, derived)
    ensures Ownership.Kept(s, known, derived, a)
  {
    WalkedMonotone(s.image, code);
    assert Ownership.StaysVisited(s.image, a);
    if a in derived {
      Ownership.DerivedRootOrHosted(s, known, derived, a);
    }
  }

  // ----- Captures in which only tables depend on the cap --------------------------------------------

  /** No table accepted under a cap is rejected under a later one. */
  ghost predicate TablesStay(c: Capture, iterate: JumpTable.Iteration) {
    forall entry, cap, later, pc, reg: Mips.Reg ::
      (cap <= later || later == End(c)) && Dispatch(c, iterate, entry, cap, pc, reg).Some?
      ==> Dispatch(c, iterate, entry, later, pc, reg).Some?
  }

  /** The dispatch that the words spell does not depend on the cap under which it is found. */
  lemma SameDispatch(words: Mips.Image, entry: int, cap: int, later: int, pc: int, reg: Mips.Reg)
    requires JumpTable.DispatchOf(words, entry, cap, pc, reg).Some? && JumpTable.DispatchOf(words, entry, later, pc, reg).Some?
    ensures JumpTable.DispatchOf(words, entry, cap, pc, reg) == JumpTable.DispatchOf(words, entry, later, pc, reg)
  {
  }

  lemma SameTable(c: Capture, iterate: JumpTable.Iteration, entry: nat, cap: nat, later: nat, pc: nat, reg: Mips.Reg)
    requires TablesStay(c, iterate) && (cap <= later || later == End(c))
    ensures TableOf(c, iterate, entry, cap, pc, reg).Some? ==>
              TableOf(c, iterate, entry, later, pc, reg) == TableOf(c, iterate, entry, cap, pc, reg)
  {
    if Dispatch(c, iterate, entry, cap, pc, reg).Some? {
      assert Dispatch(c, iterate, entry, later, pc, reg).Some?;
      SameDispatch(Words(c), entry, cap, later, pc, reg);
    }
  }

  lemma KindFlowsOn(c: Capture, entry: nat, pc: nat, i: Mips.Instr, table: Option<Walk.Table>, more: Option<Walk.Table>,
                    code: Walk.Image, wide: Walk.Image)
    requires table.Some? ==> more == table
    requires code.word(pc) == Some(Kinded(c, entry, pc, i, table)) && wide.word(pc) == Some(Kinded(c, entry, pc, i, more))
    requires code.lo == wide.lo && code.hi == wide.hi
    ensures Walk.FlowsOn(code, wide, pc)
  {
  }

  lemma WordFlowsOn(c: Capture, iterate: JumpTable.Iteration, entry: nat, cap: nat, later: nat, a: nat)
    requires TablesStay(c, iterate) && (cap <= later || later == End(c)) && Words(c)(a).Some?
    ensures Walk.FlowsOn(CodeAt(c, iterate, entry, cap), CodeAt(c, iterate, entry, later), a)
  {
    var i := Words(c)(a).value;
    SameTable(c, iterate, entry, cap, later, a, i.rs);
    KindFlowsOn(c, entry, a, i, TableOf(c, iterate, entry, cap, a, i.rs), TableOf(c, iterate, entry, later, a, i.rs),
                CodeAt(c, iterate, entry, cap), CodeAt(c, iterate, entry, later));
  }

  lemma CodeExtends(c: Capture, iterate: JumpTable.Iteration, entry: nat, cap: nat, later: nat)
    requires TablesStay(c, iterate) && (cap <= later || later == End(c))
    ensures Walk.Extends(CodeAt(c, iterate, entry, cap), CodeAt(c, iterate, entry, later))
  {
    forall a | CodeAt(c, iterate, entry, cap).word(a).Some?
      ensures Walk.FlowsOn(CodeAt(c, iterate, entry, cap), CodeAt(c, iterate, entry, later), a)
    {
      WordFlowsOn(c, iterate, entry, cap, later, a);
    }
  }

  /** Then nothing is lost from a captured kernel image either. */
  lemma CapturedKeeps(c: Capture, iterate: JumpTable.Iteration, accepts: (nat, nat, bool) -> bool, placed: nat -> bool,
                      s: Ownership.Setup, known: set<nat>, derived: Ownership.Reasons, a: nat)
    requires TablesStay(c, iterate) && s.image == ImageOf(c, iterate, accepts, placed)
    requires forall entry, cap :: Walk.SlotsPrivate(ScopeAt(c, iterate, entry, cap))
    requires Ownership.Settled(s, known, derived)
    ensures Ownership.Kept(s, known, derived, a)
  {
    var code := (entry: nat, cap: nat) => CodeAt(c, iterate, entry, cap);
    CapturedSteady(c, iterate, code);
    WalkedKeeps(code, s, known, derived, a);
  }

  lemma CapturedSteady(c: Capture, iterate: JumpTable.Iteration, code: (nat, nat) -> Walk.Image)
    requires TablesStay(c, iterate) && forall entry, cap :: code(entry, cap) == CodeAt(c, iterate, entry, cap)
    ensures Steady(code)
  {
    forall entry, cap, later | cap <= later || later == code(entry, cap).hi
      ensures Walk.Extends(code(entry, cap), code(entry, later))
    {
      CodeExtends(c, iterate, entry, cap, later);
    }
  }
}
