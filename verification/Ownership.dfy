/** Function ownership in a captured overlay.  The roots of the walk and the evidence the
    walks give for further roots are recomputed from each other until they agree; cycles
    suppress the roots that keep changing, and a kernel image promotes interiors that no
    walk reaches.  What one walk visits is arbitrary. */
module Ownership {
  import opened Options
  import opened SortedSets
  import Rounds

  const ROUND_LIMIT := 64
  const SUPPRESSION_LIMIT := 64

  datatype Reason =
    | DirectJal | StaticIndirect | StaticBranch
    | StaticDiscovery | StaticDispatch | Declared | DispatchRoot
    | Interior          // dispatched to, but not a root
    | Weak              // a root on weaker evidence

  type Reasons = map<nat, Reason>

  datatype Trace = Trace(visited: set<nat>, calls: set<nat>, indirect: set<nat>, forward: set<nat>)

  /** The image seen through its walks.  `walk(entry, cap)` walks from an entry up to the
      next root; `accepts(entry, target, strong)` judges a branch past that cap. */
  datatype Image = Image(hi: nat, kernel: bool, walk: (nat, nat) -> Trace, accepts: (nat, nat, bool) -> bool,
                         validWord: nat -> bool, placed: nat -> bool)

  /** What a discovery works from. */
  datatype Setup = Setup(image: Image, included: Reasons, initial: set<nat>, promoted: set<nat>, suppressed: set<nat>)

  /** Where the walk from the `i`-th root must stop. */
  function HardCap(image: Image, roots: seq<nat>, i: nat): nat {
    if i + 1 < |roots| then roots[i + 1] else image.hi
  }

  function WalkAt(image: Image, roots: seq<nat>, i: nat): Trace
    requires i < |roots|
  {
    image.walk(roots[i], HardCap(image, roots, i))
  }

  // ----- Evidence ----------------------------------------------------------------------------

  predicate StrongReason(r: Reason) {
    r != Interior && r != Weak
  }

  /** Whether the root at `entry` has strong evidence of its own. */
  predicate Strong(s: Setup, derived: Reasons, entry: nat) {
    if entry in s.included then StrongReason(s.included[entry])
    else if entry in derived then StrongReason(derived[entry])
    else entry in s.promoted
  }

  /** Not an explicit root and not suppressed. */
  predicate Derivable(s: Setup, t: nat) {
    t !in s.initial && t !in s.suppressed
  }

  /** The reason for `t` once one more walk is in: a direct call overrides, the others only
      fill in. */
  function Reasoned(s: Setup, derived: Reasons, found: Reasons, entry: nat, w: Trace, t: nat): Option<Reason> {
    if t in w.calls && Derivable(s, t) then Some(DirectJal)
    else if t in found then Some(found[t])
    else if t in w.indirect && Derivable(s, t) then Some(StaticIndirect)
    else if t in w.forward && s.image.accepts(entry, t, Strong(s, derived, entry)) && Derivable(s, t) then Some(StaticBranch)
    else None
  }

  /** Add what one walk shows. */
  function Absorb(s: Setup, derived: Reasons, found: Reasons, entry: nat, w: Trace): Reasons {
    map t | t in found.Keys + w.calls + w.indirect + w.forward && Reasoned(s, derived, found, entry, w, t).Some?
      :: Reasoned(s, derived, found, entry, w, t).value
  }

  /** What the walks from the first `n` roots show. */
  function Gather(s: Setup, roots: seq<nat>, derived: Reasons, n: nat): Reasons
    requires n <= |roots|
  {
    if n == 0 then map[]
    else Absorb(s, derived, Gather(s, roots, derived, n - 1), roots[n - 1], WalkAt(s.image, roots, n - 1))
  }

  /** The evidence that a set of roots gives. */
  function Evidence(s: Setup, known: set<nat>, derived: Reasons): Reasons {
    Gather(s, Sorted(known), derived, |Sorted(known)|)
  }

  method GatherEvidence(s: Setup, roots: seq<nat>, derived: Reasons) returns (found: Reasons)
    ensures found == Gather(s, roots, derived, |roots|)
  {
    found := map[];
    for i := 0 to |roots|
      invariant found == Gather(s, roots, derived, i)
    {
      found := Absorb(s, derived, found, roots[i], WalkAt(s.image, roots, i));
    }
  }

  /** A walk from the `i`-th root shows `t`. */
  ghost predicate Shows(s: Setup, roots: seq<nat>, derived: Reasons, i: nat, t: nat)
    requires i < |roots|
  {
    var w := WalkAt(s.image, roots, i);
    t in w.calls || t in w.indirect || (t in w.forward && s.image.accepts(roots[i], t, Strong(s, derived, roots[i])))
  }

  ghost predicate ShownBefore(s: Setup, roots: seq<nat>, derived: Reasons, n: nat, t: nat)
    requires n <= |roots|
  {
    exists i :: 0 <= i < n && Shows(s, roots, derived, i, t)
  }

  ghost predicate CalledBefore(image: Image, roots: seq<nat>, n: nat, t: nat)
    requires n <= |roots|
  {
    exists i :: 0 <= i < n && t in WalkAt(image, roots, i).calls
  }

  /** Evidence never calls a target an interior. */
  ghost predicate NeverInterior(found: Reasons, t: nat) {
    t in found ==> found[t] != Interior
  }

  lemma AbsorbExact(s: Setup, derived: Reasons, found: Reasons, entry: nat, w: Trace, t: nat)
    ensures t in Absorb(s, derived, found, entry, w) <==>
              || t in found
              || (Derivable(s, t)
                  && (t in w.calls || t in w.indirect || (t in w.forward && s.image.accepts(entry, t, Strong(s, derived, entry)))))
    ensures t in Absorb(s, derived, found, entry, w) ==>
              (Absorb(s, derived, found, entry, w)[t] == DirectJal
               <==> (t in w.calls && Derivable(s, t)) || (t in found && found[t] == DirectJal))
    ensures NeverInterior(found, t) ==> NeverInterior(Absorb(s, derived, found, entry, w), t)
  {
  }

  /** `found` says of `t` exactly what the walks from the first `n` roots show, a direct call
      outranking the rest. */
  ghost predicate Exact(s: Setup, roots: seq<nat>, derived: Reasons, n: nat, found: Reasons, t: nat)
    requires n <= |roots|
  {
    && (t in found <==> Derivable(s, t) && ShownBefore(s, roots, derived, n, t))
    && (t in found ==> (found[t] == DirectJal <==> CalledBefore(s.image, roots, n, t)))
    && NeverInterior(found, t)
  }

  lemma ExactNext(s: Setup, roots: seq<nat>, derived: Reasons, n: nat, before: Reasons, t: nat)
    requires n < |roots| && Exact(s, roots, derived, n, before, t)
    ensures Exact(s, roots, derived, n + 1, Absorb(s, derived, before, roots[n], WalkAt(s.image, roots, n)), t)
  {
    AbsorbExact(s, derived, before, roots[n], WalkAt(s.image, roots, n), t);
    assert ShownBefore(s, roots, derived, n + 1, t) <==> ShownBefore(s, roots, derived, n, t) || Shows(s, roots, derived, n, t);
    assert CalledBefore(s.image, roots, n + 1, t)
           <==> CalledBefore(s.image, roots, n, t) || t in WalkAt(s.image, roots, n).calls;
    CalledShows(s, roots, derived, n, t);
  }

  /** Evidence is exactly what some walk shows. */
  lemma {:induction false} GatherExact(s: Setup, roots: seq<nat>, derived: Reasons, n: nat, t: nat)
    requires n <= |roots|
    ensures Exact(s, roots, derived, n, Gather(s, roots, derived, n), t)
    decreases n
  {
    if n > 0 {
      var m := n - 1;
      var before := Gather(s, roots, derived, m);
      GatherExact(s, roots, derived, m, t);
      ExactNext(s, roots, derived, m, before, t);
      assert Gather(s, roots, derived, n) == Absorb(s, derived, before, roots[m], WalkAt(s.image, roots, m));
    }
  }

  /** The first walk that shows `t`. */
  ghost predicate FirstShows(s: Setup, roots: seq<nat>, derived: Reasons, i: nat, t: nat)
    requires i < |roots|
  {
    Shows(s, roots, derived, i, t) && forall j :: 0 <= j < i ==> !Shows(s, roots, derived, j, t)
  }

  /** A target that no walk calls gets its reason from the first walk that shows it: a register
      that was resolved outranks a branch past the cap. */
  lemma {:induction false} GatherReason(s: Setup, roots: seq<nat>, derived: Reasons, n: nat, i: nat, t: nat)
    requires i < n <= |roots| && FirstShows(s, roots, derived, i, t) && Derivable(s, t)
    requires !CalledBefore(s.image, roots, n, t)
    ensures t in Gather(s, roots, derived, n)
    ensures Gather(s, roots, derived, n)[t] == if t in WalkAt(s.image, roots, i).indirect then StaticIndirect else StaticBranch
    decreases n
  {
    var m := n - 1;
    var before, w := Gather(s, roots, derived, m), WalkAt(s.image, roots, m);
    assert Gather(s, roots, derived, n) == Absorb(s, derived, before, roots[m], w);
    assert t !in w.calls && !CalledBefore(s.image, roots, m, t);
    if i < m {
      GatherReason(s, roots, derived, m, i, t);
    } else {
      GatherExact(s, roots, derived, m, t);
    }
    assert t in before.Keys + w.calls + w.indirect + w.forward && Reasoned(s, derived, before, roots[m], w, t).Some?;
  }

  /** The source of a branch past the cap is strong by its own reason, by the reason it was
      derived for, or because it was promoted. */
  lemma StrongSources(s: Setup, derived: Reasons, entry: nat)
    ensures Strong(s, derived, entry) <==>
              || (entry in s.included && s.included[entry] !in {Interior, Weak})
              || (entry !in s.included && entry in derived && derived[entry] !in {Interior, Weak})
              || (entry !in s.included && entry !in derived && entry in s.promoted)
  {
  }

  lemma CalledShows(s: Setup, roots: seq<nat>, derived: Reasons, n: nat, t: nat)
    requires n <= |roots|
    ensures CalledBefore(s.image, roots, n, t) ==> ShownBefore(s, roots, derived, n, t)
  {
    if CalledBefore(s.image, roots, n, t) {
      var i :| 0 <= i < n && t in WalkAt(s.image, roots, i).calls;
      assert Shows(s, roots, derived, i, t);
    }
  }

  // ----- Normalising the roots ---------------------------------------------------------------

  /** The first place whose root is not below `t`. */
  function Place(roots: seq<nat>, t: nat): (i: nat)
    ensures i <= |roots|
    ensures forall j :: 0 <= j < i ==> roots[j] < t
    ensures i < |roots| ==> roots[i] >= t
  {
    if roots == [] || roots[0] >= t then 0 else 1 + Place(roots[1..], t)
  }

  /** `t`, at place `i`, is visited by the root before it once `t` is no root. */
  predicate Owned(image: Image, roots: seq<nat>, i: nat, t: nat) {
    0 < i < |roots| && roots[i] == t && t in image.walk(roots[i - 1], HardCap(image, roots, i)).visited
  }

  /** Drop each target that the root before it owns, in ascending order. */
  function Prune(image: Image, roots: seq<nat>, targets: seq<nat>): seq<nat>
    decreases |targets|
  {
    if targets == [] then roots
    else
      var i := Place(roots, targets[0]);
      Prune(image, if Owned(image, roots, i, targets[0]) then roots[..i] + roots[i + 1..] else roots, targets[1..])
  }

  /** The explicit and promoted roots. */
  function Fixed(s: Setup): set<nat> {
    s.initial + s.promoted
  }

  function Candidates(s: Setup, found: Reasons): set<nat> {
    Fixed(s) + found.Keys
  }

  /** The roots that the evidence leads to. */
  function Normal(s: Setup, found: Reasons): set<nat> {
    set r | r in Prune(s.image, Sorted(Candidates(s, found)), Sorted(found.Keys))
  }

  method PruneRoots(image: Image, start: seq<nat>, targets: seq<nat>) returns (roots: seq<nat>)
    ensures roots == Prune(image, start, targets)
  {
    roots := start;
    for k := 0 to |targets|
      invariant Prune(image, roots, targets[k..]) == Prune(image, start, targets)
    {
      assert targets[k..][1..] == targets[k + 1..];
      var i := Place(roots, targets[k]);
      if Owned(image, roots, i, targets[k]) {
        roots := roots[..i] + roots[i + 1..];
      }
    }
  }

  /** Only targets go. */
  lemma {:induction false} PruneBounds(image: Image, roots: seq<nat>, targets: seq<nat>)
    requires Ascending(roots)
    ensures Ascending(Prune(image, roots, targets))
    ensures forall r :: r in Prune(image, roots, targets) ==> r in roots
    ensures forall r :: r in roots && r !in targets ==> r in Prune(image, roots, targets)
    decreases |targets|
  {
    if targets != [] {
      var i := Place(roots, targets[0]);
      if Owned(image, roots, i, targets[0]) {
        DropPlace(roots, i);
        PruneBounds(image, roots[..i] + roots[i + 1..], targets[1..]);
      } else {
        PruneBounds(image, roots, targets[1..]);
      }
    }
  }

  lemma DropPlace(roots: seq<nat>, i: nat)
    requires Ascending(roots) && i < |roots|
    ensures Ascending(roots[..i] + roots[i + 1..])
    ensures forall r :: r in roots[..i] + roots[i + 1..] <==> r in roots && r != roots[i]
  {
    var after := roots[..i] + roots[i + 1..];
    forall r | r in roots && r != roots[i]
      ensures r in after
    {
      var j :| 0 <= j < |roots| && roots[j] == r;
      assert j < i ==> after[j] == r;
      assert j > i ==> after[j - 1] == r;
    }
  }

  lemma NormalBounds(s: Setup, found: Reasons)
    ensures forall r :: r in Normal(s, found) ==> r in Fixed(s) || r in found
    ensures forall r :: r in Fixed(s) && r !in found ==> r in Normal(s, found)
  {
    PruneBounds(s.image, Sorted(Candidates(s, found)), Sorted(found.Keys));
  }

  // ----- Cycles --------------------------------------------------------------------------------

  /** What a discovery remembers of each round: the roots and the derived targets. */
  datatype State = State(known: set<nat>, derived: set<nat>)

  ghost predicate InSome(sets: seq<set<nat>>, x: nat) {
    exists s :: s in sets && x in s
  }

  ghost predicate InAll(sets: seq<set<nat>>, x: nat) {
    forall s :: s in sets ==> x in s
  }

  function UnionOf(sets: seq<set<nat>>): (u: set<nat>)
    ensures forall x :: x in u <==> InSome(sets, x)
  {
    if sets == [] then {} else sets[0] + UnionOf(sets[1..])
  }

  function InterOf(sets: seq<set<nat>>): (u: set<nat>)
    requires sets != []
    ensures forall x :: x in u <==> InAll(sets, x)
  {
    if |sets| == 1 then sets[0] else sets[0] * InterOf(sets[1..])
  }

  function KnownSets(states: seq<State>): (r: seq<set<nat>>)
    ensures |r| == |states|
  {
    seq(|states|, i requires 0 <= i < |states| => states[i].known)
  }

  function DerivedSets(states: seq<State>): (r: seq<set<nat>>)
    ensures |r| == |states|
  {
    seq(|states|, i requires 0 <= i < |states| => states[i].derived)
  }

  /** What some states of a cycle have and others lack. */
  function Unstable(states: seq<State>): (u: set<nat>)
    requires states != []
    ensures forall x :: x in u <==>
              || (InSome(KnownSets(states), x) && !InAll(KnownSets(states), x))
              || (InSome(DerivedSets(states), x) && !InAll(DerivedSets(states), x))
  {
    (UnionOf(KnownSets(states)) - InterOf(KnownSets(states)))
    + (UnionOf(DerivedSets(states)) - InterOf(DerivedSets(states)))
  }

  method FindState(history: seq<State>, state: State) returns (found: bool, k: nat)
    ensures found <==> state in history
    ensures found ==> k < |history| && history[k] == state && state !in history[..k]
  {
    k := 0;
    while k < |history|
      invariant k <= |history| && state !in history[..k]
    {
      if history[k] == state {
        return true, k;
      }
      k := k + 1;
    }
    found := false;
  }

  // ----- Discovery -------------------------------------------------------------------------------

  /** The roots and the evidence reproduce each other. */
  ghost predicate Reproduces(s: Setup, known: set<nat>, derived: Reasons) {
    derived == Evidence(s, known, derived) && known == Normal(s, derived)
  }

  /** How every discovery ends: a fixed point, or only the explicit and promoted roots. */
  ghost predicate Settled(s: Setup, known: set<nat>, derived: Reasons) {
    Reproduces(s, known, derived) || (known == Fixed(s) && derived == map[])
  }

  /** One round: the evidence of the roots, and the roots of that evidence. */
  method Round(s: Setup, known: set<nat>, derived: Reasons) returns (next: Reasons, normalized: set<nat>)
    ensures next == Evidence(s, known, derived) && normalized == Normal(s, next)
  {
    next := GatherEvidence(s, Sorted(known), derived);
    var roots := PruneRoots(s.image, Sorted(Candidates(s, next)), Sorted(next.Keys));
    normalized := set r | r in roots;
  }

  // ----- What a discovery comes to -----------------------------------------------------------------

  /** The roots and their evidence. */
  datatype Point = Point(known: set<nat>, derived: Reasons)

  /** One round further. */
  function Next(s: Setup, p: Point): Point {
    var found := Evidence(s, p.known, p.derived);
    Point(Normal(s, found), found)
  }

  function Step(s: Setup): Point -> Point {
    (p: Point) => Next(s, p)
  }

  const StateOf: Point -> State := (p: Point) => State(p.known, p.derived.Keys)

  /** The round at which an attempt from `p` ends. */
  function HaltOf(s: Setup, p: Point): (n: nat)
    ensures n <= ROUND_LIMIT && Rounds.Halts(Step(s), StateOf, ROUND_LIMIT, p, n)
  {
    Rounds.Halt(Step(s), StateOf, ROUND_LIMIT, p, 0)
  }

  predicate IsCyclic(s: Setup, p: Point, n: nat) {
    Rounds.Repeats(Step(s), StateOf, p, n)
  }

  /** The derived roots that keep changing along the cycle an attempt ended in. */
  function Wavering(s: Setup, p: Point, n: nat): set<nat> {
    if IsCyclic(s, p, n) then
      var h, last := Rounds.History(Step(s), StateOf, p, n), StateOf(Rounds.After(Step(s), p, n));
      Unstable(h[Rounds.FirstAt(h, last)..]) - Fixed(s)
    else {}
  }

  datatype Outcome = Outcome(point: Point, suppressed: set<nat>, passes: nat)

  /** The explicit and promoted roots alone. */
  function Bare(s: Setup): Point {
    Point(Fixed(s), map[])
  }

  /** Attempts from `p` on: agreement is kept, what wavers is suppressed and tried again, and
      otherwise only the explicit and promoted roots are left. */
  function Discovery(s: Setup, p: Point, passes: nat): Outcome
    decreases SUPPRESSION_LIMIT - passes
  {
    var n := HaltOf(s, p);
    if n < ROUND_LIMIT && !IsCyclic(s, p, n) then Outcome(Rounds.After(Step(s), p, n), s.suppressed, passes)
    else if Wavering(s, p, n) == {} || passes >= SUPPRESSION_LIMIT then Outcome(Bare(s), s.suppressed, passes)
    else Discovery(s.(suppressed := s.suppressed + Wavering(s, p, n)), Bare(s), passes + 1)
  }

  lemma StandsStill(s: Setup, p: Point)
    ensures Step(s)(p) == p <==> Reproduces(s, p.known, p.derived)
  {
  }

  lemma Resuppressed(s: Setup, a: set<nat>, b: set<nat>)
    ensures s.(suppressed := a).(suppressed := b) == s.(suppressed := b) && Fixed(s.(suppressed := a)) == Fixed(s)
    ensures s.(suppressed := s.suppressed) == s && Bare(s.(suppressed := a)) == Bare(s)
  {
  }

  lemma {:induction false} DiscoverySettles(s: Setup, p: Point, passes: nat)
    ensures var o := Discovery(s, p, passes);
            && s.suppressed <= o.suppressed && o.suppressed - s.suppressed !! Fixed(s)
            && Settled(s.(suppressed := o.suppressed), o.point.known, o.point.derived)
    decreases SUPPRESSION_LIMIT - passes
  {
    var n := HaltOf(s, p);
    var wavering := Wavering(s, p, n);
    var more := s.suppressed + wavering;
    Resuppressed(s, more, Discovery(s, p, passes).suppressed);
    if n < ROUND_LIMIT && !IsCyclic(s, p, n) {
      StandsStill(s, Rounds.After(Step(s), p, n));
    } else if wavering != {} && passes < SUPPRESSION_LIMIT {
      DiscoverySettles(s.(suppressed := more), Bare(s), passes + 1);
    }
  }

  /** Roots and evidence that agree within the rounds allowed are what a discovery gives. */
  lemma AgreementKept(s: Setup, p: Point, passes: nat, n: nat)
    requires n < 64 && Rounds.AllFresh(Step(s), StateOf, p, n)
    requires var q := Rounds.After(Step(s), p, n); Reproduces(s, q.known, q.derived)
    ensures Discovery(s, p, passes) == Outcome(Rounds.After(Step(s), p, n), s.suppressed, passes)
  {
    StandsStill(s, Rounds.After(Step(s), p, n));
    Rounds.HaltsAgreed(Step(s), StateOf, ROUND_LIMIT, p, n);
  }

  predicate Differs(a: State, b: State, x: nat) {
    (x in a.known && x !in b.known) || (x in a.derived && x !in b.derived)
  }

  lemma UnstableDiffers(states: seq<State>, x: nat)
    requires states != []
    ensures x in Unstable(states) <==> exists i, k :: 0 <= i < |states| && 0 <= k < |states| && Differs(states[i], states[k], x)
  {
    var known, derived := KnownSets(states), DerivedSets(states);
    if i, k :| 0 <= i < |states| && 0 <= k < |states| && Differs(states[i], states[k], x) {
      assert known[i] in known && known[k] in known && derived[i] in derived && derived[k] in derived;
    }
    if InSome(known, x) && !InAll(known, x) {
      var i, k :| 0 <= i < |known| && x in known[i] && 0 <= k < |known| && x !in known[k];
      assert Differs(states[i], states[k], x);
    }
    if InSome(derived, x) && !InAll(derived, x) {
      var i, k :| 0 <= i < |derived| && x in derived[i] && 0 <= k < |derived| && x !in derived[k];
      assert Differs(states[i], states[k], x);
    }
  }

  /** `x` is a root, or derived, after some rounds from `j` to `n` and not after others. */
  ghost predicate Changes(s: Setup, p: Point, j: nat, n: nat, x: nat) {
    exists i, k :: j <= i < n && j <= k < n
                   && Differs(StateOf(Rounds.After(Step(s), p, i)), StateOf(Rounds.After(Step(s), p, k)), x)
  }

  lemma UnstableFrom(h: seq<State>, j: nat, x: nat)
    requires j < |h|
    ensures x in Unstable(h[j..]) <==> exists i, k :: j <= i < |h| && j <= k < |h| && Differs(h[i], h[k], x)
  {
    var states := h[j..];
    UnstableDiffers(states, x);
    if i, k :| 0 <= i < |states| && 0 <= k < |states| && Differs(states[i], states[k], x) {
      assert Differs(h[j + i], h[j + k], x);
    }
    if i, k :| j <= i < |h| && j <= k < |h| && Differs(h[i], h[k], x) {
      assert Differs(states[i - j], states[k - j], x);
    }
  }

  lemma UnstableChanges(s: Setup, p: Point, h: seq<State>, j: nat, x: nat)
    requires j < |h| && h == Rounds.History(Step(s), StateOf, p, |h|)
    ensures x in Unstable(h[j..]) <==> Changes(s, p, j, |h|, x)
  {
    UnstableFrom(h, j, x);
  }

  lemma WaveringFrom(s: Setup, p: Point, j: nat, n: nat, h: seq<State>)
    requires IsCyclic(s, p, n) && h == Rounds.History(Step(s), StateOf, p, n)
    requires StateOf(Rounds.After(Step(s), p, n)) in h && Rounds.FirstAt(h, StateOf(Rounds.After(Step(s), p, n))) == j
    ensures Wavering(s, p, n) == Unstable(h[j..]) - Fixed(s)
  {
  }

  lemma WaveringChanges(s: Setup, p: Point, j: nat, h: seq<State>, wavering: set<nat>, changing: set<nat>)
    requires j < |h| && h == Rounds.History(Step(s), StateOf, p, |h|) && wavering == Unstable(h[j..]) - Fixed(s)
    requires forall x :: x in changing <==> x !in s.initial && x !in s.promoted && Changes(s, p, j, |h|, x)
    ensures wavering == changing
  {
    forall x: nat
      ensures x in wavering <==> x in changing
    {
      UnstableChanges(s, p, h, j, x);
    }
  }

  ghost predicate Agrees(s: Setup, p: Point, q: Point) {
    var n := HaltOf(s, p);
    n < ROUND_LIMIT && !IsCyclic(s, p, n) && q == Rounds.After(Step(s), p, n)
  }

  ghost predicate Sticks(s: Setup, p: Point, wavering: set<nat>) {
    var n := HaltOf(s, p);
    (n >= ROUND_LIMIT || IsCyclic(s, p, n)) && wavering == Wavering(s, p, n)
  }

  lemma DiscoveryAgreed(s: Setup, p: Point, passes: nat, q: Point)
    requires Agrees(s, p, q)
    ensures Discovery(s, p, passes) == Outcome(q, s.suppressed, passes)
  {
  }

  lemma DiscoveryStuck(s: Setup, p: Point, passes: nat, wavering: set<nat>)
    requires Sticks(s, p, wavering)
    ensures Discovery(s, p, passes)
            == if wavering == {} || passes >= SUPPRESSION_LIMIT then Outcome(Bare(s), s.suppressed, passes)
               else Discovery(s.(suppressed := s.suppressed + wavering), Bare(s), passes + 1)
  {
  }

  lemma StuckForGood(s: Setup, p: Point, passes: nat, wavering: set<nat>)
    requires Sticks(s, p, wavering) && (wavering == {} || passes >= SUPPRESSION_LIMIT)
    ensures Discovery(s, p, passes) == Outcome(Bare(s), s.suppressed, passes)
  {
    DiscoveryStuck(s, p, passes, wavering);
  }

  lemma StuckForNow(s: Setup, p: Point, passes: nat, wavering: set<nat>)
    requires Sticks(s, p, wavering) && wavering != {} && passes < SUPPRESSION_LIMIT
    ensures Discovery(s, p, passes) == Discovery(s.(suppressed := s.suppressed + wavering), Bare(s), passes + 1)
  {
    DiscoveryStuck(s, p, passes, wavering);
  }

  /** Without agreement or repetition in 64 rounds it gives the explicit and promoted roots. */
  lemma NoAgreement(s: Setup, p: Point, passes: nat)
    requires Rounds.AllFresh(Step(s), StateOf, p, 64)
    ensures Discovery(s, p, passes) == Outcome(Point(s.initial + s.promoted, map[]), s.suppressed, passes)
  {
    Rounds.HaltsAtLimit(Step(s), StateOf, ROUND_LIMIT, p);
    DiscoveryStuck(s, p, passes, {});
  }

  /** A cycle suppresses exactly the derived roots that change along it, up to 64 times, and
      starts over from the explicit and promoted roots; else it leaves only those. */
  lemma CycleSuppressed(s: Setup, p: Point, passes: nat, j: nat, n: nat, changing: set<nat>)
    requires n <= 64 && Rounds.Cycles(Step(s), StateOf, p, j, n)
    requires forall x :: x in changing <==> x !in s.initial && x !in s.promoted && Changes(s, p, j, n, x)
    ensures var bare := Point(s.initial + s.promoted, map[]);
            Discovery(s, p, passes)
            == if changing == {} || passes >= 64 then Outcome(bare, s.suppressed, passes)
               else Discovery(s.(suppressed := s.suppressed + changing), bare, passes + 1)
  {
    Rounds.HaltsInCycle(Step(s), StateOf, ROUND_LIMIT, p, j, n);
    var h := Rounds.History(Step(s), StateOf, p, n);
    WaveringFrom(s, p, j, n, h);
    WaveringChanges(s, p, j, h, Wavering(s, p, n), changing);
    DiscoveryStuck(s, p, passes, changing);
  }

  /** Where an attempt stands after `n` rounds. */
  ghost predicate Attempting(s: Setup, p: Point, n: nat, q: Point, history: seq<State>) {
    Rounds.Running(Step(s), StateOf, ROUND_LIMIT, p, n, q, history)
  }

  lemma AttemptStarts(s: Setup, p: Point)
    ensures Attempting(s, p, 0, p, [])
  {
  }

  lemma AttemptAgrees(s: Setup, p: Point, n: nat, q: Point, history: seq<State>)
    requires Attempting(s, p, n, q, history) && n < ROUND_LIMIT && State(q.known, q.derived.Keys) !in history
    requires q.derived == Evidence(s, q.known, q.derived) && q.known == Normal(s, q.derived)
    ensures HaltOf(s, p) == n && !IsCyclic(s, p, n) && q == Rounds.After(Step(s), p, n)
  {
    StandsStill(s, q);
    Rounds.HaltsFirst(Step(s), StateOf, ROUND_LIMIT, p, n);
  }

  lemma AttemptGoesOn(s: Setup, p: Point, n: nat, q: Point, history: seq<State>, found: Reasons, next: set<nat>)
    requires Attempting(s, p, n, q, history) && n < ROUND_LIMIT && State(q.known, q.derived.Keys) !in history
    requires found == Evidence(s, q.known, q.derived) && next == Normal(s, found)
    requires found != q.derived || next != q.known
    ensures Attempting(s, p, n + 1, Point(next, found), history + [State(q.known, q.derived.Keys)])
  {
    assert Step(s)(q) == Point(next, found);
    Rounds.GoesOn(Step(s), StateOf, ROUND_LIMIT, p, n, q, history);
  }

  lemma HaltsHere(s: Setup, p: Point, n: nat, q: Point, history: seq<State>)
    requires Attempting(s, p, n, q, history)
    ensures IsCyclic(s, p, n) <==> State(q.known, q.derived.Keys) in history
    ensures n >= ROUND_LIMIT || IsCyclic(s, p, n) ==> HaltOf(s, p) == n
  {
    if n >= ROUND_LIMIT || IsCyclic(s, p, n) {
      Rounds.HaltsFirst(Step(s), StateOf, ROUND_LIMIT, p, n);
    }
  }

  lemma WavesFrom(s: Setup, p: Point, n: nat, q: Point, history: seq<State>, start: nat)
    requires Attempting(s, p, n, q, history) && IsCyclic(s, p, n)
    requires start < |history| && history[start] == State(q.known, q.derived.Keys)
    requires State(q.known, q.derived.Keys) !in history[..start]
    ensures Wavering(s, p, n) == Unstable(history[start..]) - Fixed(s)
  {
    var k := Rounds.FirstAt(history, StateOf(q));
    assert k == start;
  }

  /** Whether the attempt is stuck, and on what. */
  method Stuck(s: Setup, round: nat, state: State, history: seq<State>, ghost p: Point, ghost n: nat, ghost q: Point)
    returns (stuck: bool, unstable: set<nat>)
    requires Attempting(s, p, n, q, history) && round == n + 1 && state == State(q.known, q.derived.Keys)
    ensures stuck <==> n >= ROUND_LIMIT || state in history
    ensures stuck ==> HaltOf(s, p) == n && (n >= ROUND_LIMIT || IsCyclic(s, p, n)) && unstable == Wavering(s, p, n)
  {
    var cyclic, start := FindState(history, state);
    HaltsHere(s, p, n, q, history);
    stuck, unstable := round > ROUND_LIMIT || cyclic, {};
    if cyclic {
      WavesFrom(s, p, n, q, history, start);
      unstable := Unstable(history[start..]) - Fixed(s);
    }
  }

  /** Rounds until the roots and the evidence agree, or the attempt is stuck. */
  method Attempt(s: Setup, known0: set<nat>, derived0: Reasons) returns (agreed: bool, point: Point, unstable: set<nat>)
    ensures if agreed then Agrees(s, Point(known0, derived0), point) else Sticks(s, Point(known0, derived0), unstable)
  {
    var known, derived := known0, derived0;
    var round := 0;
    var history: seq<State> := [];
    ghost var p := Point(known0, derived0);
    AttemptStarts(s, p);
    while true
      invariant Attempting(s, p, round, Point(known, derived), history)
      decreases ROUND_LIMIT - round
    {
      ghost var n := round;
      var q := Point(known, derived);
      round := round + 1;
      var state := State(known, derived.Keys);
      var stuck;
      stuck, unstable := Stuck(s, round, state, history, p, n, q);
      if stuck {
        return false, q, unstable;
      }
      var next, normalized := Round(s, known, derived);
      if normalized == known && next == derived {
        AttemptAgrees(s, p, n, q, history);
        return true, Point(known, derived), {};
      }
      AttemptGoesOn(s, p, n, q, history, next, normalized);
      history := history + [state];
      known, derived := normalized, next;
    }
  }

  /** One attempt: it is decided, or what wavered is suppressed for the next. */
  method AttemptOnce(s: Setup, known: set<nat>, derived: Reasons, passes: nat, ghost goal: Outcome)
    returns (decided: bool, o: Outcome)
    requires Discovery(s, Point(known, derived), passes) == goal
    ensures decided ==> o == goal
    ensures !decided ==> o.passes == passes + 1 <= SUPPRESSION_LIMIT
    ensures !decided ==> Discovery(s.(suppressed := o.suppressed), o.point, o.passes) == goal
  {
    ghost var p := Point(known, derived);
    var agreed, q, unstable := Attempt(s, known, derived);
    if agreed {
      DiscoveryAgreed(s, p, passes, q);
      return true, Outcome(q, s.suppressed, passes);
    }
    decided := unstable == {} || passes >= SUPPRESSION_LIMIT;
    if decided {
      StuckForGood(s, p, passes, unstable);
      o := Outcome(Bare(s), s.suppressed, passes);
    } else {
      StuckForNow(s, p, passes, unstable);
      o := Outcome(Bare(s), s.suppressed + unstable, passes + 1);
    }
  }

  /** Attempts, with what wavers suppressed, until one agrees or suppressing more is no use. */
  method Attempts(s: Setup, known0: set<nat>, derived0: Reasons, passes0: nat) returns (o: Outcome)
    ensures o == Discovery(s, Point(known0, derived0), passes0)
  {
    ghost var goal := Discovery(s, Point(known0, derived0), passes0);
    var t, decided := s, false;
    o := Outcome(Point(known0, derived0), s.suppressed, passes0);
    while !decided
      invariant if decided then o == goal else Discovery(t, o.point, o.passes) == goal
      decreases !decided, SUPPRESSION_LIMIT - o.passes
    {
      decided, o := AttemptOnce(t, o.point.known, o.point.derived, o.passes, goal);
      t := t.(suppressed := o.suppressed);
    }
  }

  method Discover(s: Setup, known0: set<nat>, derived0: Reasons, passes0: nat)
    returns (known: set<nat>, derived: Reasons, suppressed: set<nat>, passes: nat)
    ensures Outcome(Point(known, derived), suppressed, passes) == Discovery(s, Point(known0, derived0), passes0)
    ensures s.suppressed <= suppressed && suppressed - s.suppressed !! Fixed(s)
    ensures Settled(s.(suppressed := suppressed), known, derived)
  {
    var o := Attempts(s, known0, derived0, passes0);
    DiscoverySettles(s, Point(known0, derived0), passes0);
    known, derived, suppressed, passes := o.point.known, o.point.derived, o.suppressed, o.passes;
  }

  /** Explicit roots stay, every other root is promoted or derived, and nothing suppressed
      is derived. */
  lemma SettledRoots(s: Setup, known: set<nat>, derived: Reasons)
    requires Settled(s, known, derived)
    ensures forall t :: t in derived ==> Derivable(s, t)
    ensures forall r :: r in known ==> r in Fixed(s) || r in derived
    ensures forall r :: r in Fixed(s) && r !in derived ==> r in known
  {
    if Reproduces(s, known, derived) {
      forall t | t in derived
        ensures Derivable(s, t)
      {
        GatherExact(s, Sorted(known), derived, |Sorted(known)|, t);
      }
      NormalBounds(s, derived);
    }
  }

  // ----- Coverage and promotion -------------------------------------------------------------------

  /** Some walk of the partition visits `a`. */
  ghost predicate Visited(image: Image, roots: seq<nat>, n: nat, a: nat)
    requires n <= |roots|
  {
    exists i :: 0 <= i < n && a in WalkAt(image, roots, i).visited
  }

  /** A walk from one of the roots, up to the next root, visits `a`. */
  ghost predicate Hosted(image: Image, known: set<nat>, a: nat) {
    Visited(image, Sorted(known), |Sorted(known)|, a)
  }

  method Coverage(image: Image, roots: seq<nat>) returns (covered: set<nat>)
    ensures forall a :: a in covered <==> Visited(image, roots, |roots|, a)
  {
    covered := {};
    for i := 0 to |roots|
      invariant forall a :: a in covered <==> Visited(image, roots, i, a)
    {
      VisitedNext(image, roots, i);
      covered := covered + WalkAt(image, roots, i).visited;
    }
  }

  lemma VisitedNext(image: Image, roots: seq<nat>, i: nat)
    requires i < |roots|
    ensures forall a :: Visited(image, roots, i + 1, a) <==> Visited(image, roots, i, a) || a in WalkAt(image, roots, i).visited
  {
  }

  function Interiors(included: Reasons): set<nat> {
    set a | a in included && included[a] == Interior
  }

  /** The roots that the capture itself gives. */
  function Explicit(included: Reasons): set<nat> {
    set a | a in included && included[a] != Interior
  }

  /** The setup that promoting some interiors of `included` gives. */
  ghost predicate Promotes(image: Image, included: Reasons, s: Setup) {
    && s.image == image && s.initial == Explicit(included) && s.promoted <= Interiors(included)
    && s.included.Keys == included.Keys
    && forall a :: a in included ==> s.included[a] == if a in s.promoted then DispatchRoot else included[a]
  }

  function Promoted(s: Setup, a: nat): Setup {
    s.(included := s.included[a := DispatchRoot], promoted := s.promoted + {a})
  }

  lemma FewerInteriors(included: Reasons, a: nat)
    requires a in included && included[a] == Interior
    ensures |Interiors(included[a := DispatchRoot])| < |Interiors(included)|
  {
    assert Interiors(included) == Interiors(included[a := DispatchRoot]) + {a};
    assert a !in Interiors(included[a := DispatchRoot]);
  }

  lemma PromoteOne(image: Image, included: Reasons, s: Setup, a: nat)
    requires Promotes(image, included, s) && a in s.included && s.included[a] == Interior
    ensures Promotes(image, included, Promoted(s, a))
  {
  }

  /** Interiors with a valid word that no walk visits. */
  ghost predicate Orphan(s: Setup, known: set<nat>, a: nat) {
    a in s.included && s.included[a] == Interior && s.image.validWord(a) && !Hosted(s.image, known, a)
  }

  ghost function Orphans(s: Setup, known: set<nat>): set<nat> {
    set a | a in s.included && Orphan(s, known, a)
  }

  method FindOrphans(s: Setup, known: set<nat>) returns (orphans: set<nat>)
    ensures forall a :: a in orphans <==> Orphan(s, known, a)
  {
    var covered := Coverage(s.image, Sorted(known));
    orphans := set a | a in s.included && s.included[a] == Interior && a !in covered && s.image.validWord(a);
  }

  /** What discovery and promotion start from. */
  function Start(image: Image, included: Reasons): Setup {
    Setup(image, included, Explicit(included), {}, {})
  }

  /** The setup a discovery leaves. */
  function Left(s: Setup, o: Outcome): Setup {
    s.(suppressed := o.suppressed)
  }

  datatype Settling = Settling(setup: Setup, point: Point)

  /** Discovery, and in a kernel image promotion of the lowest orphan and discovery again,
      until there is none. */
  ghost function Settlement(s: Setup, p: Point, passes: nat): Settling
    decreases |Interiors(s.included)|
  {
    var o := Discovery(s, p, passes);
    var t := Left(s, o);
    var orphans := Orphans(t, o.point.known);
    if !s.image.kernel || orphans == {} then Settling(t, o.point)
    else
      var a := Least(orphans);
      FewerInteriors(s.included, a);
      Settlement(Promoted(t, a), Point(o.point.known + {a}, o.point.derived), o.passes)
  }

  /** Without orphans the first discovery stands, and nothing is promoted. */
  lemma NothingPromoted(s: Setup, p: Point, passes: nat)
    requires var o := Discovery(s, p, passes); !s.image.kernel || forall a :: !Orphan(Left(s, o), o.point.known, a)
    ensures var o := Discovery(s, p, passes); Settlement(s, p, passes) == Settling(Left(s, o), o.point)
  {
  }

  /** Otherwise the lowest is promoted, and discovery goes on with it among the roots. */
  lemma LowestPromoted(s: Setup, p: Point, passes: nat, o: Outcome, a: nat)
    requires o == Discovery(s, p, passes) && s.image.kernel
    requires Orphan(Left(s, o), o.point.known, a) && forall b :: Orphan(Left(s, o), o.point.known, b) ==> a <= b
    ensures Settlement(s, p, passes)
            == Settlement(Promoted(Left(s, o), a), Point(o.point.known + {a}, o.point.derived), o.passes)
  {
    LeastOrphan(Left(s, o), o.point.known, a);
  }

  lemma LeastOrphan(s: Setup, known: set<nat>, a: nat)
    requires Orphan(s, known, a) && forall b :: Orphan(s, known, b) ==> a <= b
    ensures Orphans(s, known) != {} && Least(Orphans(s, known)) == a
  {
    assert a in Orphans(s, known);
  }

  /** Discover; in a kernel image promote the lowest orphan and discover again. */
  method SettleRoots(image: Image, included: Reasons) returns (s: Setup, known: set<nat>, derived: Reasons)
    ensures Settling(s, Point(known, derived)) == Settlement(Start(image, included), Point(Explicit(included), map[]), 0)
    ensures Promotes(image, included, s) && Settled(s, known, derived)
    ensures image.kernel ==> forall a :: !Orphan(s, known, a)
    ensures !image.kernel ==> s.promoted == {}
  {
    s := Start(image, included);
    known, derived := s.initial, map[];
    var passes := 0;
    while true
      invariant Promotes(image, included, s) && (!image.kernel ==> s.promoted == {})
      invariant Settlement(Start(image, included), Point(Explicit(included), map[]), 0)
                == Settlement(s, Point(known, derived), passes)
      decreases |Interiors(s.included)|
    {
      ghost var before, p, was := s, Point(known, derived), passes;
      var suppressed;
      known, derived, suppressed, passes := Discover(s, known, derived, passes);
      s := s.(suppressed := suppressed);
      if !image.kernel {
        NothingPromoted(before, p, was);
        return;
      }
      var orphans := FindOrphans(s, known);
      if orphans == {} {
        NothingPromoted(before, p, was);
        return;
      }
      var a := Least(orphans);
      LowestPromoted(before, p, was, Outcome(Point(known, derived), suppressed, passes), a);
      FewerInteriors(s.included, a);
      PromoteOne(image, included, s, a);
      s := Promoted(s, a);
      known := known + {a};
    }
  }

  // ----- Targets that pruning removes stay hosted --------------------------------------------

  /** A walk that visits `t` still does when it may go further; nothing lies beyond the
      image's end. */
  ghost predicate StaysVisited(image: Image, t: nat) {
    forall e, c, d :: (c <= d || d == image.hi) && t in image.walk(e, c).visited ==> t in image.walk(e, d).visited
  }

  /** A walk that may go further visits no less. */
  ghost predicate Monotone(image: Image) {
    forall t :: StaysVisited(image, t)
  }

  /** Roots below every target keep their places. */
  lemma {:induction false} PrunePrefix(image: Image, roots: seq<nat>, targets: seq<nat>, k: nat)
    requires Ascending(roots) && k <= |roots|
    requires forall t :: t in targets ==> forall j :: 0 <= j < k ==> roots[j] < t
    ensures |Prune(image, roots, targets)| >= k && Prune(image, roots, targets)[..k] == roots[..k]
    decreases |targets|
  {
    if targets != [] {
      var i := Place(roots, targets[0]);
      var rest := targets[1..];
      assert targets[0] in targets;
      assert forall t :: t in rest ==> t in targets;
      if Owned(image, roots, i, targets[0]) {
        DropPlace(roots, i);
        assert i >= k;
        var after := roots[..i] + roots[i + 1..];
        assert after[..k] == roots[..k];
        PrunePrefix(image, after, rest, k);
      } else {
        PrunePrefix(image, roots, rest, k);
      }
    }
  }

  /** The root at place `k - 1` is capped no earlier after pruning. */
  lemma CapWidens(image: Image, before: seq<nat>, after: seq<nat>, k: nat)
    requires Ascending(before) && Ascending(after) && 0 < k <= |before| && k <= |after|
    requires after[..k] == before[..k] && forall r :: r in after ==> r in before
    ensures HardCap(image, before, k - 1) <= HardCap(image, after, k - 1) || HardCap(image, after, k - 1) == image.hi
  {
    if k < |after| {
      assert after[k] in after;
      var j :| 0 <= j < |before| && before[j] == after[k];
      assert after[k - 1] == after[..k][k - 1] == before[..k][k - 1] == before[k - 1];
      assert j >= k;
    }
  }

  /** A target dropped now is visited by the root before it in the end. */
  lemma DroppedIsHosted(image: Image, roots: seq<nat>, i: nat, t: nat, after: seq<nat>, rest: seq<nat>)
    requires StaysVisited(image, t) && Ascending(roots) && Owned(image, roots, i, t)
    requires after == roots[..i] + roots[i + 1..] && forall x :: x in rest ==> t < x
    ensures Visited(image, Prune(image, after, rest), |Prune(image, after, rest)|, t)
  {
    DropPlace(roots, i);
    var final := Prune(image, after, rest);
    PruneBounds(image, after, rest);
    PrunePrefix(image, after, rest, i);
    CapWidens(image, after, final, i);
    assert final[i - 1] == final[..i][i - 1] == after[..i][i - 1] == roots[i - 1];
    assert HardCap(image, after, i - 1) == HardCap(image, roots, i);
    assert t in WalkAt(image, final, i - 1).visited;
  }

  lemma TailAbove(targets: seq<nat>)
    requires Ascending(targets) && targets != []
    ensures Ascending(targets[1..]) && forall x :: x in targets[1..] ==> targets[0] < x
    ensures forall x :: x in targets ==> x == targets[0] || x in targets[1..]
  {
  }

  lemma {:induction false} PrunedIsHosted(image: Image, roots: seq<nat>, targets: seq<nat>, t: nat)
    requires StaysVisited(image, t) && Ascending(roots) && Ascending(targets)
    requires t in targets && t in roots && t !in Prune(image, roots, targets)
    ensures Visited(image, Prune(image, roots, targets), |Prune(image, roots, targets)|, t)
    decreases |targets|
  {
    var i := Place(roots, targets[0]);
    var rest := targets[1..];
    TailAbove(targets);
    if Owned(image, roots, i, targets[0]) {
      var after := roots[..i] + roots[i + 1..];
      DropPlace(roots, i);
      if t == targets[0] {
        DroppedIsHosted(image, roots, i, t, after, rest);
      } else {
        PrunedIsHosted(image, after, rest, t);
      }
    } else {
      PruneBounds(image, roots, rest);
      PrunedIsHosted(image, roots, rest, t);
    }
  }

  /** A derived target that walks keep visiting is a root or hosted by one. */
  lemma DerivedRootOrHosted(s: Setup, known: set<nat>, derived: Reasons, t: nat)
    requires StaysVisited(s.image, t) && Settled(s, known, derived) && t in derived
    ensures t in known || Hosted(s.image, known, t)
  {
    if t !in known {
      var roots, targets := Sorted(Candidates(s, derived)), Sorted(derived.Keys);
      var final := Prune(s.image, roots, targets);
      PrunedIsHosted(s.image, roots, targets, t);
      PruneBounds(s.image, roots, targets);
      AscendingUnique(final, Sorted(known));
    }
  }

  // ----- The final classification ---------------------------------------------------------------

  function Lookup(m: Reasons, a: nat): Option<Reason> {
    if a in m then Some(m[a]) else None
  }

  /** A derived target becomes a root, an interior, or nothing. */
  function Revised(s: Setup, known: set<nat>, derived: Reasons, covered: set<nat>, a: nat): Option<Reason> {
    if a !in derived then Lookup(s.included, a)
    else if a in known then if s.image.placed(a) then Some(derived[a]) else Lookup(s.included, a)
    else if a in covered then Some(Interior)
    else None
  }

  /** ... and no interior stays without a host. */
  function Verdict(s: Setup, known: set<nat>, derived: Reasons, covered: set<nat>, a: nat): Option<Reason> {
    var r := Revised(s, known, derived, covered, a);
    if r == Some(Interior) && a !in covered then None else r
  }

  method ReviseDerived(s: Setup, known: set<nat>, derived: Reasons, covered: set<nat>) returns (included: Reasons)
    ensures forall a :: Lookup(included, a) == Revised(s, known, derived, covered, a)
  {
    included := s.included;
    var rest := derived.Keys;
    while rest != {}
      invariant rest <= derived.Keys
      invariant forall a :: Lookup(included, a)
                            == if a in rest then Lookup(s.included, a) else Revised(s, known, derived, covered, a)
      decreases rest
    {
      var a :| a in rest;
      if a in known {
        if s.image.placed(a) {
          included := included[a := derived[a]];
        }
      } else if a in covered {
        included := included[a := Interior];
      } else {
        included := included - {a};
      }
      rest := rest - {a};
    }
  }

  method DropHostless(included: Reasons, covered: set<nat>) returns (kept: Reasons)
    ensures forall a :: Lookup(kept, a) == if Lookup(included, a) == Some(Interior) && a !in covered then None
                                           else Lookup(included, a)
  {
    kept := included;
    var rest := included.Keys;
    while rest != {}
      invariant rest <= included.Keys
      invariant forall a :: Lookup(kept, a)
                            == if a !in rest && Lookup(included, a) == Some(Interior) && a !in covered then None
                               else Lookup(included, a)
      decreases rest
    {
      var a :| a in rest;
      if included[a] == Interior && a !in covered {
        kept := kept - {a};
      }
      rest := rest - {a};
    }
  }

  /** Included, and not an interior without a host. */
  ghost predicate Housed(s: Setup, known: set<nat>, a: nat) {
    a in s.included && (s.included[a] == Interior ==> Hosted(s.image, known, a))
  }

  /** What the final reasons name: a derived target that is a root in place or has a host,
      and any other housed address. */
  ghost predicate Survives(s: Setup, known: set<nat>, derived: Reasons, a: nat) {
    if a in derived && a !in known then Hosted(s.image, known, a)
    else (a in derived && s.image.placed(a)) || Housed(s, known, a)
  }

  /** A target that was derived is a root or has a host. */
  ghost predicate Kept(s: Setup, known: set<nat>, derived: Reasons, a: nat) {
    a in derived ==> a in known || Hosted(s.image, known, a)
  }

  /** The final reasons: explicit roots unchanged, derived roots with their evidence, no
      interior without a host, and exactly the addresses that survive. */
  method Finalize(s: Setup, known: set<nat>, derived: Reasons) returns (final: Reasons)
    requires forall t :: NeverInterior(derived, t)
    requires s.initial !! derived.Keys && forall a :: a in s.initial ==> a in s.included && s.included[a] != Interior
    ensures forall a :: a in final <==> Survives(s, known, derived, a)
    ensures forall a :: Housed(s, known, a) ==> (a in final <==> Kept(s, known, derived, a))
    ensures forall a :: a in final && final[a] == Interior ==> Hosted(s.image, known, a)
    ensures forall a :: a in s.initial ==> a in final && final[a] == s.included[a]
    ensures forall a :: a in derived && a in known && s.image.placed(a) ==> a in final && final[a] == derived[a]
    ensures forall a :: a in final && a in derived && a !in known ==> final[a] == Interior
    ensures forall a :: a in final && (a !in derived || (a in known && !s.image.placed(a))) ==>
                          a in s.included && final[a] == s.included[a]
  {
    var covered := Coverage(s.image, Sorted(known));
    var revised := ReviseDerived(s, known, derived, covered);
    final := DropHostless(revised, covered);
    forall a
      ensures a in final <==> Survives(s, known, derived, a)
      ensures a in final && final[a] == Interior ==> Hosted(s.image, known, a)
      ensures a in s.initial ==> a in final && final[a] == s.included[a]
      ensures a in derived && a in known && s.image.placed(a) ==> a in final && final[a] == derived[a]
      ensures a in final && a in derived && a !in known ==> final[a] == Interior
      ensures a in final && (a !in derived || (a in known && !s.image.placed(a))) ==>
                a in s.included && final[a] == s.included[a]
    {
      assert Lookup(final, a) == Verdict(s, known, derived, covered, a);
      assert NeverInterior(derived, a) && (a in covered <==> Hosted(s.image, known, a));
    }
  }

  lemma SettledStrong(s: Setup, known: set<nat>, derived: Reasons, t: nat)
    requires Settled(s, known, derived)
    ensures NeverInterior(derived, t)
  {
    GatherExact(s, Sorted(known), derived, |Sorted(known)|, t);
  }

  /** What the settled state gives the final step. */
  lemma SettledReady(image: Image, included: Reasons, s: Setup, known: set<nat>, derived: Reasons)
    requires Promotes(image, included, s) && Settled(s, known, derived)
    requires image.kernel ==> forall a :: !Orphan(s, known, a)
    ensures s.initial !! derived.Keys && s.initial <= known
    ensures forall t :: NeverInterior(derived, t)
    ensures forall a :: a in Explicit(included) <==> a in s.initial
    ensures forall a :: a in s.initial ==> a in s.included && s.included[a] == included[a] != Interior
    ensures image.kernel ==> forall a :: a in included && image.validWord(a) ==> Housed(s, known, a)
  {
    SettledRoots(s, known, derived);
    forall t
      ensures NeverInterior(derived, t)
    {
      SettledStrong(s, known, derived, t);
    }
    forall a | image.kernel && a in included && image.validWord(a)
      ensures Housed(s, known, a)
    {
      assert !Orphan(s, known, a);
    }
  }

  /** The whole classification: explicit roots are kept as they are and every interior has a
      host among the final roots.  A kernel image keeps an included address that holds an
      instruction exactly when it was not derived, or ended as a root or with a host; walks
      that keep visiting the address ensure that. */
  method Classify(image: Image, included: Reasons) returns (final: Reasons, s: Setup, known: set<nat>, derived: Reasons)
    ensures Promotes(image, included, s) && Settled(s, known, derived)
    ensures forall a :: a in final <==> Survives(s, known, derived, a)
    ensures forall a :: a in final && final[a] == Interior ==> Hosted(image, known, a)
    ensures forall a :: a in Explicit(included) ==> a in known && a in final && final[a] == included[a]
    ensures Settling(s, Point(known, derived)) == Settlement(Start(image, included), Point(Explicit(included), map[]), 0)
    ensures forall a :: a in derived && a in known && image.placed(a) ==> a in final && final[a] == derived[a]
    ensures forall a :: a in final && a in derived && a !in known ==> final[a] == Interior
    ensures forall a :: a in final && (a !in derived || (a in known && !image.placed(a))) ==>
                          a in s.included && final[a] == s.included[a]
    ensures image.kernel ==> forall a :: a in included && image.validWord(a) ==> (a in final <==> Kept(s, known, derived, a))
    ensures image.kernel ==> forall a :: a in included && image.validWord(a) && StaysVisited(image, a) ==> a in final
  {
    s, known, derived := SettleRoots(image, included);
    SettledReady(image, included, s, known, derived);
    final := Finalize(s, known, derived);
    forall a | StaysVisited(image, a)
      ensures Kept(s, known, derived, a)
    {
      if a in derived {
        DerivedRootOrHosted(s, known, derived, a);
      }
    }
  }
}
