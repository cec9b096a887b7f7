/** How a kernel image can lose an address it was given: an interior that the walk from the
    root before it visits under one cap, and not under the cap that it ends with. */
module LostEntry {
  import opened Ownership
  import opened SortedSets
  import Rounds

  predicate IsCalled(t: nat) {
    t == 48 || t == 56
  }

  /** The walk shows the two calls, and past its cap nothing else. */
  ghost predicate ShowsCalls(w: Trace) {
    && (forall t :: t in w.calls <==> IsCalled(t)) && (forall t :: t !in w.indirect)
    && forall t :: t in w.forward ==> IsCalled(t)
  }

  ghost predicate ShowsNothing(w: Trace) {
    forall t :: t !in w.calls && t !in w.indirect && t !in w.forward
  }

  /** Entry 0 calls 48 and 56; its walk visits 48 if it stops at 56, and 56 but not 48 if it
      goes on to the end. */
  ghost predicate LosesIt(image: Image) {
    && image.hi == 72 && image.kernel && image.validWord(48)
    && ShowsCalls(image.walk(0, 48)) && ShowsCalls(image.walk(0, 72)) && ShowsNothing(image.walk(48, 72))
    && 48 in image.walk(0, 56).visited && 56 in image.walk(0, 72).visited && 48 !in image.walk(0, 72).visited
  }

  // ----- The run -------------------------------------------------------------------------------------

  /** One round of discovery. */
  ghost predicate OneRound(s: Setup, known: set<nat>, derived: Reasons, next: set<nat>, found: Reasons) {
    found == Evidence(s, known, derived) && next == Normal(s, found)
  }

  ghost predicate OnlyZero(roots: seq<nat>) {
    Ascending(roots) && forall r :: r in roots <==> r == 0
  }

  ghost predicate ZeroAnd48(roots: seq<nat>) {
    Ascending(roots) && forall r :: r in roots <==> r == 0 || r == 48
  }

  lemma OnlyRoot(roots: seq<nat>)
    requires OnlyZero(roots)
    ensures roots == [0]
  {
    AscendingUnique(roots, [0]);
  }

  lemma BothRoots(roots: seq<nat>)
    requires ZeroAnd48(roots)
    ensures roots == [0, 48]
  {
    AscendingUnique(roots, [0, 48]);
  }

  lemma BothCalls(targets: seq<nat>)
    requires Ascending(targets) && forall t :: t in targets <==> IsCalled(t)
    ensures targets == [48, 56]
  {
    AscendingUnique(targets, [48, 56]);
  }

  lemma AllThree(roots: seq<nat>)
    requires Ascending(roots) && forall r :: r in roots <==> r == 0 || IsCalled(r)
    ensures roots == [0, 48, 56]
  {
    AscendingUnique(roots, [0, 48, 56]);
  }

  /** The evidence: the two calls. */
  ghost predicate TheCalls(derived: Reasons) {
    (forall t :: t in derived <==> IsCalled(t)) && forall t :: t in derived ==> derived[t] == DirectJal
  }

  ghost predicate Lets(s: Setup) {
    LosesIt(s.image) && forall t :: IsCalled(t) ==> Derivable(s, t)
  }

  lemma CallsFrom0(s: Setup, roots: seq<nat>, before: Reasons, derived: Reasons)
    requires Lets(s) && OnlyZero(roots) && TheCalls(derived)
    ensures Gather(s, roots, before, |roots|) == derived
  {
    OnlyRoot(roots);
    var found := Gather(s, roots, before, |roots|);
    forall t
      ensures t in found <==> t in derived
      ensures t in found ==> found[t] == derived[t]
    {
      GatherExact(s, roots, before, |roots|, t);
      assert IsCalled(t) <==> t in WalkAt(s.image, roots, 0).calls;
      assert Shows(s, roots, before, 0, t) <==> IsCalled(t);
    }
  }

  lemma CallsFromBoth(s: Setup, roots: seq<nat>, before: Reasons, derived: Reasons)
    requires Lets(s) && ZeroAnd48(roots) && TheCalls(derived)
    ensures Gather(s, roots, before, |roots|) == derived
  {
    BothRoots(roots);
    var found := Gather(s, roots, before, |roots|);
    forall t
      ensures t in found <==> t in derived
      ensures t in found ==> found[t] == derived[t]
    {
      GatherExact(s, roots, before, |roots|, t);
      assert IsCalled(t) <==> t in WalkAt(s.image, roots, 0).calls;
      assert Shows(s, roots, before, 0, t) <==> IsCalled(t);
      assert !Shows(s, roots, before, 1, t);
    }
  }

  lemma PruneOwned(image: Image, roots: seq<nat>, targets: seq<nat>, i: nat, after: seq<nat>)
    requires Ascending(roots) && targets != [] && Owned(image, roots, i, targets[0])
    requires after == roots[..i] + roots[i + 1..]
    ensures Prune(image, roots, targets) == Prune(image, after, targets[1..])
  {
    var j := Place(roots, targets[0]);
    assert j == i;
  }

  lemma PruneBoth(image: Image, roots: seq<nat>, targets: seq<nat>, mid: seq<nat>)
    requires Ascending(roots) && |roots| == 3 && |targets| == 2 && mid == roots[..1] + roots[2..]
    requires Owned(image, roots, 1, targets[0]) && Owned(image, mid, 1, targets[1])
    ensures Prune(image, roots, targets) == roots[..1]
  {
    var rest, one := targets[1..], roots[..1];
    assert one == mid[..1] + mid[2..] && rest[1..] == [];
    PruneOwned(image, roots, targets, 1, mid);
    PruneOwned(image, mid, rest, 1, one);
  }

  /** Both calls are pruned: 48 by the walk up to 56, and then 56 by the walk up to the end. */
  lemma PrunedToZero(image: Image, roots: seq<nat>, targets: seq<nat>)
    requires LosesIt(image) && Ascending(roots) && Ascending(targets)
    requires (forall r :: r in roots <==> r == 0 || IsCalled(r)) && forall t :: t in targets <==> IsCalled(t)
    ensures OnlyZero(Prune(image, roots, targets))
  {
    AllThree(roots);
    BothCalls(targets);
    var mid := roots[..1] + roots[2..];
    assert mid == [0, 56] && roots[..1] == [0];
    PruneBoth(image, roots, targets, mid);
  }

  lemma NormalZero(s: Setup, derived: Reasons)
    requires Lets(s) && TheCalls(derived) && forall r :: r in Candidates(s, derived) <==> r == 0 || IsCalled(r)
    ensures forall r :: r in Normal(s, derived) <==> r == 0
  {
    PrunedToZero(s.image, Sorted(Candidates(s, derived)), Sorted(derived.Keys));
  }

  lemma EvidenceFrom0(s: Setup, known: set<nat>, before: Reasons, derived: Reasons)
    requires Lets(s) && TheCalls(derived) && forall r :: r in known <==> r == 0
    ensures Evidence(s, known, before) == derived
  {
    var roots := Sorted(known);
    assert OnlyZero(roots);
    CallsFrom0(s, roots, before, derived);
  }

  lemma EvidenceFromBoth(s: Setup, known: set<nat>, before: Reasons, derived: Reasons)
    requires Lets(s) && TheCalls(derived) && forall r :: r in known <==> r == 0 || r == 48
    ensures Evidence(s, known, before) == derived
  {
    var roots := Sorted(known);
    assert ZeroAnd48(roots);
    CallsFromBoth(s, roots, before, derived);
  }

  /** A round from 0 alone, or from 0 and 48, ends at 0 with the two calls. */
  lemma RoundFrom0(s: Setup, before: Reasons, zero: set<nat>, derived: Reasons)
    requires Lets(s) && TheCalls(derived) && forall r :: r in Candidates(s, derived) <==> r == 0 || IsCalled(r)
    requires forall r :: r in zero <==> r == 0
    ensures OneRound(s, zero, before, zero, derived)
  {
    EvidenceFrom0(s, zero, before, derived);
    NormalZero(s, derived);
    assert zero == Normal(s, derived);
  }

  lemma RoundFromBoth(s: Setup, both: set<nat>, before: Reasons, zero: set<nat>, derived: Reasons)
    requires Lets(s) && TheCalls(derived) && forall r :: r in Candidates(s, derived) <==> r == 0 || IsCalled(r)
    requires (forall r :: r in zero <==> r == 0) && forall r :: r in both <==> r == 0 || r == 48
    ensures OneRound(s, both, before, zero, derived)
  {
    EvidenceFromBoth(s, both, before, derived);
    NormalZero(s, derived);
    assert zero == Normal(s, derived);
  }

  /** The only walk left does not visit 48. */
  lemma Hostless(image: Image, known: set<nat>)
    requires LosesIt(image) && forall r :: r in known <==> r == 0
    ensures !Hosted(image, known, 48)
  {
    var roots := Sorted(known);
    OnlyRoot(roots);
    assert WalkAt(image, roots, 0) == image.walk(0, 72);
  }

  /** The run over a capture that gives the root 0 and the dispatched interior 48: `first` is
      what it works from, and `second` what it works from once 48 is promoted. */
  ghost predicate LostRun(image: Image, included: Reasons, first: Setup, second: Setup, zero: set<nat>,
                          derived: Reasons)
  {
    && LosesIt(image) && TheCalls(derived) && (forall r :: r in zero <==> r == 0)
    && (forall a :: a in included <==> a == 0 || a == 48) && included[0] == Weak && included[48] == Interior
    && first == Setup(image, included, zero, {}, {})
    && second == Setup(image, included[48 := DispatchRoot], zero, {48}, {})
  }

  lemma RunLets(image: Image, included: Reasons, first: Setup, second: Setup, zero: set<nat>, derived: Reasons)
    requires LostRun(image, included, first, second, zero, derived)
    ensures Lets(first) && (forall r :: r in Candidates(first, derived) <==> r == 0 || IsCalled(r))
    ensures Lets(second) && (forall r :: r in Candidates(second, derived) <==> r == 0 || IsCalled(r))
    ensures Explicit(included) == zero && Promotes(image, included, first) && Promotes(image, included, second)
  {
  }

  lemma FirstRounds(image: Image, included: Reasons, first: Setup, second: Setup, zero: set<nat>, derived: Reasons)
    requires LostRun(image, included, first, second, zero, derived)
    ensures OneRound(first, zero, map[], zero, derived) && OneRound(first, zero, derived, zero, derived)
  {
    RunLets(image, included, first, second, zero, derived);
    RoundFrom0(first, map[], zero, derived);
    RoundFrom0(first, derived, zero, derived);
  }

  lemma SecondRounds(image: Image, included: Reasons, first: Setup, second: Setup, zero: set<nat>, derived: Reasons)
    requires LostRun(image, included, first, second, zero, derived)
    ensures OneRound(second, zero + {48}, derived, zero, derived) && OneRound(second, zero, derived, zero, derived)
  {
    RunLets(image, included, first, second, zero, derived);
    RoundFromBoth(second, zero + {48}, derived, zero, derived);
    RoundFrom0(second, derived, zero, derived);
  }

  lemma LostOrphans(image: Image, included: Reasons, first: Setup, second: Setup, zero: set<nat>, derived: Reasons)
    requires LostRun(image, included, first, second, zero, derived)
    ensures forall a :: Orphan(first, zero, a) <==> a == 48
    ensures forall a :: !Orphan(second, zero, a)
  {
    Hostless(image, zero);
  }

  /** The rounds of the run: to 0 and the two calls, which settle with 48 the one orphan; with
      48 promoted, back to 0 and the same calls, which settle with no orphan. */
  lemma LostRounds(image: Image, included: Reasons, first: Setup, second: Setup, zero: set<nat>, derived: Reasons)
    requires LostRun(image, included, first, second, zero, derived)
    ensures Explicit(included) == zero && Promotes(image, included, first) && Promotes(image, included, second)
    ensures OneRound(first, zero, map[], zero, derived) && OneRound(first, zero, derived, zero, derived)
    ensures forall a :: Orphan(first, zero, a) <==> a == 48
    ensures OneRound(second, zero + {48}, derived, zero, derived) && OneRound(second, zero, derived, zero, derived)
    ensures forall a :: !Orphan(second, zero, a)
  {
    RunLets(image, included, first, second, zero, derived);
    FirstRounds(image, included, first, second, zero, derived);
    SecondRounds(image, included, first, second, zero, derived);
    LostOrphans(image, included, first, second, zero, derived);
  }

  /** A discovery that agrees after one round. */
  lemma OneRoundAgrees(s: Setup, p: Point, q: Point)
    requires OneRound(s, p.known, p.derived, q.known, q.derived) && OneRound(s, q.known, q.derived, q.known, q.derived)
    requires p.known != q.known || p.derived.Keys != q.derived.Keys
    ensures Discovery(s, p, 0) == Outcome(q, s.suppressed, 0)
  {
    assert Step(s)(p) == q;
    Rounds.AgreesAfterOne(Step(s), StateOf, p, q);
    AgreementKept(s, p, 0, 1);
  }

  lemma FirstDiscovery(image: Image, included: Reasons, first: Setup, second: Setup, zero: set<nat>, derived: Reasons)
    requires LostRun(image, included, first, second, zero, derived)
    ensures Discovery(first, Point(zero, map[]), 0) == Outcome(Point(zero, derived), {}, 0)
  {
    FirstRounds(image, included, first, second, zero, derived);
    assert IsCalled(48) && 48 in derived.Keys;
    OneRoundAgrees(first, Point(zero, map[]), Point(zero, derived));
  }

  lemma SecondDiscovery(image: Image, included: Reasons, first: Setup, second: Setup, zero: set<nat>, derived: Reasons)
    requires LostRun(image, included, first, second, zero, derived)
    ensures Discovery(second, Point(zero + {48}, derived), 0) == Outcome(Point(zero, derived), {}, 0)
  {
    SecondRounds(image, included, first, second, zero, derived);
    assert 48 in zero + {48} && 48 !in zero;
    OneRoundAgrees(second, Point(zero + {48}, derived), Point(zero, derived));
  }

  lemma RunStarts(image: Image, included: Reasons, first: Setup, second: Setup, zero: set<nat>, derived: Reasons)
    requires LostRun(image, included, first, second, zero, derived)
    ensures first == Start(image, included) && Explicit(included) == zero
    ensures second == Promoted(first, 48) && first.image.kernel && first.suppressed == {}
  {
    RunLets(image, included, first, second, zero, derived);
  }

  /** Discovery, promotion of 48 and discovery again: the run is what the classification does. */
  lemma LostSettlement(image: Image, included: Reasons, first: Setup, second: Setup, zero: set<nat>, derived: Reasons)
    requires LostRun(image, included, first, second, zero, derived)
    ensures Settlement(Start(image, included), Point(Explicit(included), map[]), 0) == Settling(second, Point(zero, derived))
  {
    RunStarts(image, included, first, second, zero, derived);
    LostOrphans(image, included, first, second, zero, derived);
    FirstDiscovery(image, included, first, second, zero, derived);
    SecondDiscovery(image, included, first, second, zero, derived);
    SettlesAt48(first, second, Point(zero, map[]), Point(zero + {48}, derived), Point(zero, derived));
  }

  lemma SettlesAt48(first: Setup, second: Setup, bare: Point, both: Point, end: Point)
    requires first.image.kernel && first.suppressed == {} && second == Promoted(first, 48)
    requires both == Point(end.known + {48}, end.derived)
    requires (forall a :: Orphan(first, end.known, a) <==> a == 48) && forall a :: !Orphan(second, end.known, a)
    requires Discovery(first, bare, 0) == Outcome(end, {}, 0) && Discovery(second, both, 0) == Outcome(end, {}, 0)
    ensures Settlement(first, bare, 0) == Settling(second, end)
  {
    LowestPromoted(first, bare, 0, Outcome(end, {}, 0), 48);
    NothingPromoted(second, both, 0);
  }

  /** Where the run ends, the final reasons do not name 48, which holds an instruction. */
  lemma KernelLosesAddress(image: Image, included: Reasons, first: Setup, second: Setup, zero: set<nat>, derived: Reasons)
    requires LostRun(image, included, first, second, zero, derived)
    ensures Settlement(Start(image, included), Point(Explicit(included), map[]), 0) == Settling(second, Point(zero, derived))
    ensures Settled(second, zero, derived) && 48 in included && image.kernel && image.validWord(48)
    ensures !Survives(second, zero, derived, 48) && !Kept(second, zero, derived, 48)
  {
    LostSettlement(image, included, first, second, zero, derived);
    SecondRounds(image, included, first, second, zero, derived);
    Hostless(image, zero);
  }

  /** Every such image makes the run, from these reasons. */
  lemma RunExists(image: Image)
    requires LosesIt(image)
    ensures exists included, first, second, zero, derived :: LostRun(image, included, first, second, zero, derived)
  {
    var included: Reasons := map[0 := Weak, 48 := Interior];
    var derived: Reasons := map[48 := DirectJal, 56 := DirectJal];
    var first := Setup(image, included, {0}, {}, {});
    var second := Setup(image, included[48 := DispatchRoot], {0}, {48}, {});
    assert LostRun(image, included, first, second, {0}, derived);
  }
}
