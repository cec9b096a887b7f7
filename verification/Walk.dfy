/** The walk over one function of a captured overlay: a work list over the control flow up
    to the next root.  What it visits is reachable, or the delay slot of something
    reachable. */
module Walk {
  import opened Options
  import opened SortedSets

  /** An accepted jump table: where it lies, its size, and its words in the order in which
      they are followed. */
  datatype Table = Table(base: nat, count: nat, targets: seq<nat>)

  /** An instruction as the walk sees it; register transfers carry what was resolved. */
  datatype Kind =
    | Normal
    | Branch(target: nat)
    | BranchNever
    | BranchNeverLikely
    | Jump(target: nat)
    | Call(target: nat)
    | CallRegister(resolved: Option<nat>)
    | JumpRegister(resolved: Option<nat>, table: Option<Table>)
    | Return

  /** What a call from one address to another is: inside one producer, a crossing that the
      target's own evidence supports, or refused. */
  datatype Standing = Local | Crossing | Refused

  datatype Image = Image(lo: nat, hi: nat, word: nat -> Option<Kind>, owned: nat -> bool, valid: nat -> bool,
                         callable: (nat, nat) -> Standing)

  /** One walk: from `entry` up to `cap`. */
  datatype Scope = Scope(image: Image, entry: nat, cap: nat)

  predicate InRegion(image: Image, a: nat) {
    image.lo <= a < image.hi && a % 4 == 0
  }

  predicate InFunction(s: Scope, a: nat) {
    InRegion(s.image, a) && s.entry <= a < s.cap && s.image.owned(a)
  }

  /** A register jump whose target is known and lies in the region. */
  predicate Known(image: Image, target: Option<nat>) {
    target.Some? && InRegion(image, target.value)
  }

  /** Where control may go, in the order the walk queues it. */
  function Flow(image: Image, pc: nat, k: Kind): seq<nat> {
    match k
    case Normal => [pc + 4]
    case Branch(t) => [pc + 8, t]
    case BranchNever => [pc + 8]
    case BranchNeverLikely => [pc + 8]
    case Jump(t) => [t]
    case Call(_) => [pc + 8]
    case CallRegister(_) => [pc + 8]
    case JumpRegister(t, table) =>
      if Known(image, t) then [t.value] else if table.Some? then table.value.targets else []
    case Return => []
  }

  predicate HasDelay(k: Kind) {
    !k.Normal? && !k.BranchNeverLikely?
  }

  /** A word inside the function. */
  predicate IsCode(s: Scope, a: nat) {
    InFunction(s, a) && s.image.word(a).Some?
  }

  ghost predicate Follows(s: Scope, pc: nat, a: nat) {
    IsCode(s, pc) && a in Flow(s.image, pc, s.image.word(pc).value) && IsCode(s, a)
  }

  ghost predicate IsPath(s: Scope, p: seq<nat>) {
    p != [] && p[0] == s.entry && IsCode(s, s.entry) && forall i :: 0 <= i < |p| - 1 ==> Follows(s, p[i], p[i + 1])
  }

  /** Some sequence of transfers inside the function leads from the entry to `a`. */
  ghost predicate Reachable(s: Scope, a: nat) {
    exists p :: IsPath(s, p) && p[|p| - 1] == a
  }

  /** `a` is the delay slot of a reachable transfer. */
  ghost predicate IsDelay(s: Scope, a: nat) {
    exists pc :: Reachable(s, pc) && DelayOf(s, pc, a)
  }

  predicate DelayOf(s: Scope, pc: nat, a: nat) {
    IsCode(s, pc) && HasDelay(s.image.word(pc).value) && a == pc + 4 && InFunction(s, a)
  }

  lemma ReachableEntry(s: Scope)
    requires IsCode(s, s.entry)
    ensures Reachable(s, s.entry)
  {
    assert IsPath(s, [s.entry]);
  }

  lemma ReachableStep(s: Scope, pc: nat, a: nat)
    requires Reachable(s, pc) && Follows(s, pc, a)
    ensures Reachable(s, a)
  {
    var p :| IsPath(s, p) && p[|p| - 1] == pc;
    var q := p + [a];
    assert IsPath(s, q);
    assert q[|q| - 1] == a;
  }

  // ----- The walk -----------------------------------------------------------------------------------

  /** What an instruction shows: targets for other functions, and places inside this one that
      control is known to reach. */
  datatype Hint =
    | CallsTo(target: nat) | Indirectly(target: nat) | Past(target: nat)
    | BranchesTo(target: nat) | ContinuesAt(target: nat)
    | SwitchesTo(target: nat) | Proves(pc: nat, table: Table)
    | Crosses(target: nat) | Refuses(target: nat)

  /** Control may pass the delay slot. */
  function FallsTo(s: Scope, pc: nat): set<Hint> {
    if InFunction(s, pc + 8) then {BranchesTo(pc + 8)} else {}
  }

  function Returns(s: Scope, pc: nat): set<Hint> {
    if InFunction(s, pc + 8) then {BranchesTo(pc + 8), ContinuesAt(pc + 8)} else {}
  }

  /** A direct transfer stays inside, or past the cap is evidence for a root there. */
  function Direct(s: Scope, t: nat): set<Hint> {
    if InFunction(s, t) then {BranchesTo(t)}
    else if InRegion(s.image, t) && t >= s.cap then {Past(t)}
    else {}
  }

  /** A transfer to another function, if it may be one. */
  function Judged(s: Scope, pc: nat, t: nat, h: Hint): set<Hint> {
    match s.image.callable(pc, t)
    case Local => {h}
    case Crossing => {h, Crosses(t)}
    case Refused => {Refuses(t)}
  }

  function Switches(pc: nat, table: Table): set<Hint> {
    (set x | x in table.targets :: SwitchesTo(x)) + (set x | x in table.targets :: BranchesTo(x)) + {Proves(pc, table)}
  }

  function Hints(s: Scope, pc: nat, k: Kind): set<Hint> {
    match k
    case Branch(t) => FallsTo(s, pc) + Direct(s, t)
    case BranchNever => FallsTo(s, pc)
    case BranchNeverLikely => FallsTo(s, pc)
    case Jump(t) => Direct(s, t)
    case Call(t) =>
      Returns(s, pc) + if InRegion(s.image, t) && s.image.valid(t) then Judged(s, pc, t, CallsTo(t)) else {}
    case CallRegister(t) =>
      Returns(s, pc) + if Known(s.image, t) then Judged(s, pc, t.value, Indirectly(t.value)) else {}
    case JumpRegister(t, table) =>
      if Known(s.image, t) then
        if InFunction(s, t.value) then {BranchesTo(t.value)} else Judged(s, pc, t.value, Indirectly(t.value))
      else if table.Some? then Switches(pc, table.value)
      else {}
    case _ => {}
  }

  /** The targets inside the function, in order. */
  function Inside(s: Scope, targets: seq<nat>): (r: seq<nat>)
    ensures forall a :: a in r <==> a in targets && InFunction(s, a)
  {
    if targets == [] then []
    else if InFunction(s, targets[0]) then [targets[0]] + Inside(s, targets[1..])
    else Inside(s, targets[1..])
  }

  /** Addresses the walk can ever visit. */
  function Span(entry: nat, cap: nat): (r: set<nat>)
    ensures forall a :: a in r <==> entry <= a < cap
    decreases cap - entry
  {
    if cap <= entry then {} else Span(entry, cap - 1) + {cap - 1}
  }

  /** Everything expanded is reachable, everything else visited is a delay slot. */
  ghost predicate Sound(s: Scope, visited: set<nat>, expanded: set<nat>) {
    && expanded <= visited <= Span(s.entry, s.cap)
    && (forall a :: a in expanded ==> Reachable(s, a) && IsCode(s, a))
    && forall a :: a in visited && a !in expanded ==> IsDelay(s, a)
  }

  /** Where an expanded word leads, the walk has been or will go. */
  ghost predicate Closed(s: Scope, visited: set<nat>, expanded: set<nat>, work: seq<nat>) {
    && (forall pc, a :: pc in expanded && Follows(s, pc, a) ==> a in visited || a in work)
    && (forall pc, a :: pc in expanded && DelayOf(s, pc, a) ==> a in visited)
    && (IsCode(s, s.entry) ==> s.entry in visited || s.entry in work)
  }

  /** Every address waiting is worth following. */
  ghost predicate Queued(s: Scope, work: seq<nat>) {
    forall a :: a in work && IsCode(s, a) ==> Reachable(s, a)
  }

  ghost predicate ShownBy(s: Scope, expanded: set<nat>, h: Hint) {
    exists pc :: pc in expanded && HintAt(s, pc, h)
  }

  predicate HintAt(s: Scope, pc: nat, h: Hint) {
    s.image.word(pc).Some? && h in Hints(s, pc, s.image.word(pc).value)
  }

  /** The hints are exactly those of the expanded words. */
  ghost predicate Shown(s: Scope, expanded: set<nat>, hints: set<Hint>) {
    forall h :: h in hints <==> ShownBy(s, expanded, h)
  }

  lemma ShownNext(s: Scope, expanded: set<nat>, hints: set<Hint>, pc: nat)
    requires Shown(s, expanded, hints) && s.image.word(pc).Some?
    ensures Shown(s, expanded + {pc}, hints + Hints(s, pc, s.image.word(pc).value))
  {
    forall h
      ensures ShownBy(s, expanded + {pc}, h) <==> ShownBy(s, expanded, h) || HintAt(s, pc, h)
    {
      if HintAt(s, pc, h) {
        assert pc in expanded + {pc};
      }
      if ShownBy(s, expanded, h) {
        var q :| q in expanded && HintAt(s, q, h);
        assert q in expanded + {pc};
      }
    }
  }

  function Delays(s: Scope, pc: nat, k: Kind): set<nat> {
    if HasDelay(k) && InFunction(s, pc + 4) then {pc + 4} else {}
  }

  lemma SoundNext(s: Scope, visited: set<nat>, expanded: set<nat>, pc: nat, k: Kind)
    requires Sound(s, visited, expanded) && pc !in visited && IsCode(s, pc) && Reachable(s, pc)
    requires s.image.word(pc) == Some(k)
    ensures Sound(s, visited + {pc} + Delays(s, pc, k), expanded + {pc})
  {
    forall a | a in Delays(s, pc, k)
      ensures IsDelay(s, a)
    {
      assert DelayOf(s, pc, a);
    }
  }

  lemma QueuedNext(s: Scope, rest: seq<nat>, pc: nat, k: Kind)
    requires Queued(s, rest) && IsCode(s, pc) && Reachable(s, pc) && s.image.word(pc) == Some(k)
    ensures Queued(s, rest + Inside(s, Flow(s.image, pc, k)))
  {
    forall a | a in Inside(s, Flow(s.image, pc, k)) && IsCode(s, a)
      ensures Reachable(s, a)
    {
      ReachableStep(s, pc, a);
    }
  }

  lemma ClosedNext(s: Scope, visited: set<nat>, expanded: set<nat>, rest: seq<nat>, pc: nat, k: Kind)
    requires Closed(s, visited, expanded, [pc] + rest) && s.image.word(pc) == Some(k)
    ensures Closed(s, visited + {pc} + Delays(s, pc, k), expanded + {pc}, rest + Inside(s, Flow(s.image, pc, k)))
  {
    var v, w := visited + {pc} + Delays(s, pc, k), rest + Inside(s, Flow(s.image, pc, k));
    forall q, a | q in expanded + {pc} && Follows(s, q, a)
      ensures a in v || a in w
    {
      if q != pc {
        assert a in visited || a in [pc] + rest;
      }
    }
  }

  lemma ClosedSkip(s: Scope, visited: set<nat>, expanded: set<nat>, rest: seq<nat>, pc: nat)
    requires Closed(s, visited, expanded, [pc] + rest) && (pc in visited || !IsCode(s, pc))
    ensures Closed(s, visited, expanded, rest)
  {
    forall q, a | q in expanded && Follows(s, q, a)
      ensures a in visited || a in rest
    {
      assert a in visited || a in [pc] + rest;
    }
  }

  lemma FewerLeft(all: set<nat>, visited: set<nat>, delays: set<nat>, pc: nat)
    requires pc in all && pc !in visited
    ensures |all - (visited + {pc} + delays)| < |all - visited|
  {
    var before, after := all - visited, all - (visited + {pc} + delays);
    assert after <= before - {pc};
    SubsetCard(after, before - {pc});
  }

  /** What holds whenever the walk takes up the next address. */
  ghost predicate Walking(s: Scope, visited: set<nat>, expanded: set<nat>, hints: set<Hint>, work: seq<nat>) {
    && Sound(s, visited, expanded) && Closed(s, visited, expanded, work)
    && Queued(s, work) && Shown(s, expanded, hints)
  }

  lemma WalkingStart(s: Scope)
    ensures Walking(s, {}, {}, {}, [s.entry])
  {
    if IsCode(s, s.entry) {
      ReachableEntry(s);
    }
  }

  lemma WalkingSkip(s: Scope, visited: set<nat>, expanded: set<nat>, hints: set<Hint>, rest: seq<nat>, pc: nat)
    requires Walking(s, visited, expanded, hints, [pc] + rest) && (pc in visited || !IsCode(s, pc))
    ensures Walking(s, visited, expanded, hints, rest)
  {
    ClosedSkip(s, visited, expanded, rest, pc);
    assert forall a :: a in rest ==> a in [pc] + rest;
  }

  lemma WalkingExpand(s: Scope, visited: set<nat>, expanded: set<nat>, hints: set<Hint>, rest: seq<nat>, pc: nat, k: Kind)
    requires Walking(s, visited, expanded, hints, [pc] + rest) && pc !in visited
    requires IsCode(s, pc) && s.image.word(pc) == Some(k)
    ensures Walking(s, visited + {pc} + Delays(s, pc, k), expanded + {pc}, hints + Hints(s, pc, k),
                    rest + Inside(s, Flow(s.image, pc, k)))
  {
    assert pc in [pc] + rest && forall a :: a in rest ==> a in [pc] + rest;
    SoundNext(s, visited, expanded, pc, k);
    QueuedNext(s, rest, pc, k);
    ClosedNext(s, visited, expanded, rest, pc, k);
    ShownNext(s, expanded, hints, pc);
  }

  /** How a walk ends: nothing is waiting, for the words that it expanded. */
  ghost predicate WalkResult(s: Scope, visited: set<nat>, hints: set<Hint>) {
    exists expanded :: Walking(s, visited, expanded, hints, [])
  }

  /** Where a walk stands. */
  datatype Progress = Progress(work: seq<nat>, visited: set<nat>, hints: set<Hint>)

  /** Take up the first address that waits; delay slots are marked, not expanded. */
  function Next(s: Scope, p: Progress): Progress
    requires p.work != []
  {
    var pc, rest := p.work[0], p.work[1..];
    if pc in p.visited || !IsCode(s, pc) then p.(work := rest)
    else
      var k := s.image.word(pc).value;
      Progress(rest + Inside(s, Flow(s.image, pc, k)), p.visited + {pc} + Delays(s, pc, k), p.hints + Hints(s, pc, k))
  }

  lemma NextSmaller(s: Scope, p: Progress)
    requires p.work != []
    ensures var n := Next(s, p);
            var left, left' := |Span(s.entry, s.cap) - p.visited|, |Span(s.entry, s.cap) - n.visited|;
            left' < left || (n.visited == p.visited && |n.work| < |p.work|)
  {
    var pc := p.work[0];
    if pc !in p.visited && IsCode(s, pc) {
      FewerLeft(Span(s.entry, s.cap), p.visited, Delays(s, pc, s.image.word(pc).value), pc);
    }
  }

  /** Go on until nothing waits. */
  function Finished(s: Scope, p: Progress): Progress
    decreases |Span(s.entry, s.cap) - p.visited|, |p.work|
  {
    if p.work == [] then p
    else
      NextSmaller(s, p);
      Finished(s, Next(s, p))
  }

  lemma FinishedNext(s: Scope, p: Progress, n: Progress)
    requires p.work != [] && n == Next(s, p)
    ensures Finished(s, p) == Finished(s, n)
  {
  }

  /** The whole walk, first come first served. */
  function Walked(s: Scope): Progress {
    Finished(s, Progress([s.entry], {}, {}))
  }

  /** Follow the flow from the entry. */
  method WalkFunction(s: Scope) returns (visited: set<nat>, hints: set<Hint>)
    ensures Walked(s) == Progress([], visited, hints)
    ensures WalkResult(s, visited, hints)
  {
    visited, hints := {}, {};
    var work := [s.entry];
    while work != []
      invariant Finished(s, Progress(work, visited, hints)) == Walked(s)
      decreases |Span(s.entry, s.cap) - visited|, |work|
    {
      ghost var p := Progress(work, visited, hints);
      NextSmaller(s, p);
      var pc, rest := work[0], work[1..];
      if pc !in visited && InFunction(s, pc) && s.image.word(pc).Some? {
        var k := s.image.word(pc).value;
        visited := visited + {pc} + Delays(s, pc, k);
        hints := hints + Hints(s, pc, k);
        rest := rest + Inside(s, Flow(s.image, pc, k));
      }
      work := rest;
      FinishedNext(s, p, Progress(work, visited, hints));
    }
    WalkedResult(s);
  }

  lemma WalkingNext(s: Scope, p: Progress, expanded: set<nat>) returns (expanded': set<nat>)
    requires p.work != [] && Walking(s, p.visited, expanded, p.hints, p.work)
    ensures var n := Next(s, p); Walking(s, n.visited, expanded', n.hints, n.work)
  {
    var pc, rest := p.work[0], p.work[1..];
    assert p.work == [pc] + rest;
    if pc in p.visited || !IsCode(s, pc) {
      WalkingSkip(s, p.visited, expanded, p.hints, rest, pc);
      expanded' := expanded;
    } else {
      WalkingExpand(s, p.visited, expanded, p.hints, rest, pc, s.image.word(pc).value);
      expanded' := expanded + {pc};
    }
  }

  lemma {:induction false} FinishedResult(s: Scope, p: Progress, expanded: set<nat>)
    requires Walking(s, p.visited, expanded, p.hints, p.work)
    ensures var r := Finished(s, p); r.work == [] && WalkResult(s, r.visited, r.hints)
    decreases |Span(s.entry, s.cap) - p.visited|, |p.work|
  {
    if p.work != [] {
      NextSmaller(s, p);
      var next := WalkingNext(s, p, expanded);
      FinishedResult(s, Next(s, p), next);
    }
  }

  /** The walk ends with a set of expanded words. */
  lemma WalkedResult(s: Scope)
    ensures Walked(s).work == [] && WalkResult(s, Walked(s).visited, Walked(s).hints)
  {
    WalkingStart(s);
    FinishedResult(s, Progress([s.entry], {}, {}), {});
  }

  // ----- When the walk is exact --------------------------------------------------------------------

  /** No transfer enters a delay slot. */
  ghost predicate SlotsPrivate(s: Scope) {
    forall a :: Reachable(s, a) ==> !IsDelay(s, a)
  }

  lemma {:induction false} PathExpanded(s: Scope, visited: set<nat>, expanded: set<nat>, p: seq<nat>, i: nat)
    requires Sound(s, visited, expanded) && Closed(s, visited, expanded, []) && SlotsPrivate(s)
    requires IsPath(s, p) && i < |p|
    ensures p[i] in expanded
    decreases i
  {
    assert Reachable(s, p[i]) by {
      var q := p[..i + 1];
      assert IsPath(s, q);
      assert q[|q| - 1] == p[i];
    }
    if i > 0 {
      PathExpanded(s, visited, expanded, p, i - 1);
      assert Follows(s, p[i - 1], p[i - 1 + 1]);
    }
  }

  /** Then the walk visits exactly what is reachable and its delay slots, and its hints are
      those of the reachable words. */
  lemma WalkComplete(s: Scope, visited: set<nat>, hints: set<Hint>)
    requires WalkResult(s, visited, hints) && SlotsPrivate(s)
    ensures forall a :: a in visited <==> Reachable(s, a) || IsDelay(s, a)
    ensures forall h :: h in hints <==> exists pc :: Reachable(s, pc) && HintAt(s, pc, h)
  {
    var expanded :| Walking(s, visited, expanded, hints, []);
    forall a: nat
      ensures a in visited <==> Reachable(s, a) || IsDelay(s, a)
      ensures a in expanded <==> Reachable(s, a)
    {
      ExpandedExactly(s, visited, expanded, a);
    }
    forall h
      ensures h in hints <==> exists pc :: Reachable(s, pc) && HintAt(s, pc, h)
    {
      assert h in hints <==> ShownBy(s, expanded, h);
    }
  }

  lemma ExpandedExactly(s: Scope, visited: set<nat>, expanded: set<nat>, a: nat)
    requires Sound(s, visited, expanded) && Closed(s, visited, expanded, []) && SlotsPrivate(s)
    ensures a in visited <==> Reachable(s, a) || IsDelay(s, a)
    ensures a in expanded <==> Reachable(s, a)
  {
    if Reachable(s, a) {
      var p :| IsPath(s, p) && p[|p| - 1] == a;
      PathExpanded(s, visited, expanded, p, |p| - 1);
    }
    if IsDelay(s, a) {
      var pc :| Reachable(s, pc) && DelayOf(s, pc, a);
      var p :| IsPath(s, p) && p[|p| - 1] == pc;
      PathExpanded(s, visited, expanded, p, |p| - 1);
    }
  }

  /** Without that, what is visited is still reachable or such a delay slot. */
  lemma WalkSound(s: Scope, visited: set<nat>, hints: set<Hint>, a: nat)
    requires WalkResult(s, visited, hints) && a in visited
    ensures Reachable(s, a) || IsDelay(s, a)
  {
    var expanded :| Walking(s, visited, expanded, hints, []);
    assert a in expanded || a !in expanded;
  }

  // ----- A wider cap -------------------------------------------------------------------------------

  /** The same words, with flow that may only grow. */
  ghost predicate Extends(image: Image, more: Image) {
    && more.lo == image.lo && more.hi == image.hi && (forall a :: more.owned(a) == image.owned(a))
    && forall a :: image.word(a).Some? ==> FlowsOn(image, more, a)
  }

  ghost predicate FlowsOn(image: Image, more: Image, a: nat)
    requires image.word(a).Some?
  {
    && more.word(a).Some? && HasDelay(more.word(a).value) == HasDelay(image.word(a).value)
    && forall x :: x in Flow(image, a, image.word(a).value) ==> x in Flow(more, a, more.word(a).value)
  }

  /** The same walk with a cap no lower; nothing lies beyond the image's end. */
  ghost predicate Widens(s: Scope, wide: Scope) {
    Extends(s.image, wide.image) && wide.entry == s.entry && (s.cap <= wide.cap || wide.cap == s.image.hi)
  }

  lemma FollowsWider(s: Scope, wide: Scope, pc: nat, a: nat)
    requires Widens(s, wide) && Follows(s, pc, a)
    ensures Follows(wide, pc, a)
  {
    assert FlowsOn(s.image, wide.image, pc) && FlowsOn(s.image, wide.image, a);
  }

  lemma ReachableWider(s: Scope, wide: Scope, a: nat)
    requires Widens(s, wide) && Reachable(s, a)
    ensures Reachable(wide, a)
  {
    var p :| IsPath(s, p) && p[|p| - 1] == a;
    forall i | 0 <= i < |p| - 1
      ensures Follows(wide, p[i], p[i + 1])
    {
      assert Follows(s, p[i], p[i + 1]);
      FollowsWider(s, wide, p[i], p[i + 1]);
    }
    assert FlowsOn(s.image, wide.image, s.entry);
    assert IsPath(wide, p);
  }

  lemma DelayWider(s: Scope, wide: Scope, a: nat)
    requires Widens(s, wide) && IsDelay(s, a)
    ensures IsDelay(wide, a)
  {
    var pc :| Reachable(s, pc) && DelayOf(s, pc, a);
    ReachableWider(s, wide, pc);
    assert FlowsOn(s.image, wide.image, pc);
    assert DelayOf(wide, pc, a);
  }

  /** A walk that may go further visits no less, when no transfer in its reach enters a delay
      slot. */
  lemma WalkMonotone(s: Scope, wide: Scope)
    requires Widens(s, wide) && SlotsPrivate(wide)
    ensures Walked(s).visited <= Walked(wide).visited
  {
    var w, more := Walked(s), Walked(wide);
    WalkedResult(s);
    WalkedResult(wide);
    WalkComplete(wide, more.visited, more.hints);
    forall a | a in w.visited
      ensures a in more.visited
    {
      WalkSound(s, w.visited, w.hints, a);
      if Reachable(s, a) {
        ReachableWider(s, wide, a);
      } else {
        DelayWider(s, wide, a);
      }
    }
  }
}
