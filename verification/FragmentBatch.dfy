/** Supplemental fragment compilation: one batch of roots, bisected when it fails closed.
    The compiler is an oracle that may answer anything, differently at every attempt. */
module FragmentBatch {
  import opened SortedSets

  /** A compile attempt built the batch, or failed with a status that does or does not
      ask for bisection. */
  datatype Reply = Built | Failed(bisect: bool)

  datatype Event =
    | Dropped(root: nat)               // no longer needed, never compiled
    | Served(roots: seq<nat>)
    | Rejected(root: nat)              // reported alone
    | RejectedTogether(roots: seq<nat>)

  /** The world: the compiler's reply to the `n`-th attempt, and whether a root is still
      needed after `n` attempts. */
  datatype World = World(compile: (nat, seq<nat>) -> Reply, needed: (nat, nat) -> bool)

  datatype Outcome = Outcome(log: seq<Event>, attempts: nat, built: nat)

  function StillNeeded(w: World, now: nat, roots: seq<nat>): (r: seq<nat>)
    ensures |r| <= |roots|
  {
    if roots == [] then []
    else if w.needed(now, roots[0]) then [roots[0]] + StillNeeded(w, now, roots[1..])
    else StillNeeded(w, now, roots[1..])
  }

  function DropRest(w: World, now: nat, roots: seq<nat>): seq<Event> {
    if roots == [] then []
    else if w.needed(now, roots[0]) then DropRest(w, now, roots[1..])
    else [Dropped(roots[0])] + DropRest(w, now, roots[1..])
  }

  /** Compile whatever is still needed of a batch after `now` attempts. */
  function Compile(w: World, now: nat, entries: seq<nat>): Outcome
    decreases |entries|, 1
  {
    var roots := StillNeeded(w, now, entries);
    var dropped := DropRest(w, now, entries);
    if roots == [] then Outcome(dropped, now, 0)
    else
      var r := Attempt(w, now, roots);
      Outcome(dropped + r.log, r.attempts, r.built)
  }

  /** One compile attempt; a rejected batch is split in two. */
  function Attempt(w: World, now: nat, roots: seq<nat>): Outcome
    requires roots != []
    decreases |roots|, 0
  {
    match w.compile(now, roots)
    case Built => Outcome([Served(roots)], now + 1, 1)
    case Failed(bisect) =>
      if |roots| == 1 then Outcome([Rejected(roots[0])], now + 1, 0)
      else if !bisect then Outcome([RejectedTogether(roots)], now + 1, 0)
      else
        var middle := |roots| / 2;
        var left := Compile(w, now + 1, roots[..middle]);
        var right := Compile(w, left.attempts, roots[middle..]);
        Outcome(left.log + right.log, right.attempts, left.built + right.built)
  }

  /** The whole call: duplicates collapse and the roots are taken in ascending order. */
  function CompileBatched(w: World, entries: set<nat>): Outcome {
    Compile(w, 0, Sorted(entries))
  }

  // ----- Accounting ---------------------------------------------------------------------

  predicate Concerns(e: Event, root: nat) {
    match e
    case Dropped(r) => r == root
    case Served(rs) => root in rs
    case Rejected(r) => r == root
    case RejectedTogether(rs) => root in rs
  }

  /** How many events of a log concern `root`. */
  function Mentions(log: seq<Event>, root: nat): nat {
    if log == [] then 0 else (if Concerns(log[0], root) then 1 else 0) + Mentions(log[1..], root)
  }

  lemma {:induction false} MentionsAppend(a: seq<Event>, b: seq<Event>, root: nat)
    ensures Mentions(a + b, root) == Mentions(a, root) + Mentions(b, root)
    decreases |a|
  {
    if a == [] {
      assert a + b == b;
    } else {
      MentionsAppend(a[1..], b, root);
      assert (a + b)[1..] == a[1..] + b;
    }
  }

  predicate Distinct(roots: seq<nat>) {
    forall i, j :: 0 <= i < j < |roots| ==> roots[i] != roots[j]
  }

  function Once(present: bool): nat {
    if present then 1 else 0
  }

  /** Filtering splits the roots into those compiled and those dropped. */
  lemma {:induction false} FilterSplits(w: World, now: nat, roots: seq<nat>, root: nat)
    requires Distinct(roots)
    ensures Distinct(StillNeeded(w, now, roots))
    ensures root in StillNeeded(w, now, roots) <==> root in roots && w.needed(now, root)
    ensures Mentions(DropRest(w, now, roots), root) == Once(root in roots && !w.needed(now, root))
    decreases |roots|
  {
    if roots != [] {
      FilterSplits(w, now, roots[1..], root);
      FilterSplits(w, now, roots[1..], roots[0]);
      assert roots[0] !in roots[1..];
      assert root in roots <==> root == roots[0] || root in roots[1..];
      if !w.needed(now, roots[0]) {
        MentionsAppend([Dropped(roots[0])], DropRest(w, now, roots[1..]), root);
      }
    }
  }

  lemma HalvesSplit(roots: seq<nat>, middle: nat, root: nat)
    requires Distinct(roots) && middle <= |roots|
    ensures Distinct(roots[..middle]) && Distinct(roots[middle..])
    ensures Once(root in roots) == Once(root in roots[..middle]) + Once(root in roots[middle..])
  {
    assert roots == roots[..middle] + roots[middle..];
  }

  /** For any oracle at all, every root gets exactly one outcome: it is dropped because it
      is no longer needed, served, or reported as failed. */
  lemma {:induction false} EveryRootOnce(w: World, now: nat, entries: seq<nat>, root: nat)
    requires Distinct(entries)
    ensures Mentions(Compile(w, now, entries).log, root) == Once(root in entries)
    decreases |entries|, 1
  {
    FilterSplits(w, now, entries, root);
    var roots := StillNeeded(w, now, entries);
    if roots != [] {
      AttemptOnce(w, now, roots, root);
      MentionsAppend(DropRest(w, now, entries), Attempt(w, now, roots).log, root);
    }
  }

  lemma {:induction false} AttemptOnce(w: World, now: nat, roots: seq<nat>, root: nat)
    requires roots != [] && Distinct(roots)
    ensures Mentions(Attempt(w, now, roots).log, root) == Once(root in roots)
    decreases |roots|, 0
  {
    if w.compile(now, roots) == Failed(true) && |roots| > 1 {
      var middle := |roots| / 2;
      HalvesSplit(roots, middle, root);
      EveryRootOnce(w, now + 1, roots[..middle], root);
      var left := Compile(w, now + 1, roots[..middle]);
      EveryRootOnce(w, left.attempts, roots[middle..], root);
      MentionsAppend(left.log, Compile(w, left.attempts, roots[middle..]).log, root);
    }
  }

  /** For any oracle, `n` roots cost at most `2n - 1` compile attempts. */
  lemma {:induction false} AttemptsBounded(w: World, now: nat, entries: seq<nat>)
    ensures now <= Compile(w, now, entries).attempts
    ensures Compile(w, now, entries).attempts <= now + if entries == [] then 0 else 2 * |entries| - 1
    decreases |entries|, 1
  {
    if StillNeeded(w, now, entries) != [] {
      AttemptBounded(w, now, StillNeeded(w, now, entries));
    }
  }

  lemma {:induction false} AttemptBounded(w: World, now: nat, roots: seq<nat>)
    requires roots != []
    ensures now <= Attempt(w, now, roots).attempts <= now + 2 * |roots| - 1
    decreases |roots|, 0
  {
    if w.compile(now, roots) == Failed(true) && |roots| > 1 {
      var left, right, next, used := AttemptHalves(w, now, roots);
      AttemptsBounded(w, next, left);
      AttemptsBounded(w, used, right);
    }
  }

  /** What a split attempt compiles, and how many attempts came before each half. */
  lemma AttemptHalves(w: World, now: nat, roots: seq<nat>)
    returns (left: seq<nat>, right: seq<nat>, next: nat, used: nat)
    requires w.compile(now, roots) == Failed(true) && |roots| > 1
    ensures left != [] && right != [] && left + right == roots && next == now + 1
    ensures used == Compile(w, next, left).attempts && Attempt(w, now, roots).attempts == Compile(w, used, right).attempts
  {
    var middle := |roots| / 2;
    left, right, next := roots[..middle], roots[middle..], now + 1;
    used := Compile(w, next, left).attempts;
  }

  // ----- Causes ------------------------------------------------------------------------------

  /** What the world did to make an event true, at an attempt of this call. */
  ghost predicate Caused(w: World, e: Event) {
    match e
    case Dropped(root) => exists n :: !w.needed(n, root)
    case Served(roots) => exists n :: w.compile(n, roots) == Built && StillNeeded(w, n, roots) == roots
    case Rejected(root) => exists n :: w.compile(n, [root]).Failed?
    case RejectedTogether(roots) => |roots| > 1 && exists n :: w.compile(n, roots) == Failed(false)
  }

  ghost predicate AllCaused(w: World, log: seq<Event>) {
    forall e :: e in log ==> Caused(w, e)
  }

  lemma {:induction false} DropsCaused(w: World, now: nat, roots: seq<nat>)
    ensures AllCaused(w, DropRest(w, now, roots))
    decreases |roots|
  {
    if roots != [] {
      DropsCaused(w, now, roots[1..]);
    }
  }

  lemma {:induction false} NeededTwice(w: World, now: nat, roots: seq<nat>)
    ensures StillNeeded(w, now, StillNeeded(w, now, roots)) == StillNeeded(w, now, roots)
    decreases |roots|
  {
    if roots != [] {
      NeededTwice(w, now, roots[1..]);
    }
  }

  /** Every event has its cause in what the compiler answered and what was needed. */
  lemma {:induction false} EventsCaused(w: World, now: nat, entries: seq<nat>)
    ensures AllCaused(w, Compile(w, now, entries).log)
    decreases |entries|, 1
  {
    DropsCaused(w, now, entries);
    NeededTwice(w, now, entries);
    var roots := StillNeeded(w, now, entries);
    if roots != [] {
      AttemptCaused(w, now, roots);
    }
  }

  lemma {:induction false} AttemptCaused(w: World, now: nat, roots: seq<nat>)
    requires roots != [] && StillNeeded(w, now, roots) == roots
    ensures AllCaused(w, Attempt(w, now, roots).log)
    decreases |roots|, 0
  {
    if |roots| == 1 {
      assert roots == [roots[0]];
    } else if w.compile(now, roots) == Failed(true) {
      var middle := |roots| / 2;
      EventsCaused(w, now + 1, roots[..middle]);
      EventsCaused(w, Compile(w, now + 1, roots[..middle]).attempts, roots[middle..]);
    }
  }

  function Successes(log: seq<Event>): nat {
    if log == [] then 0 else (if log[0].Served? then 1 else 0) + Successes(log[1..])
  }

  lemma {:induction false} SuccessesAppend(a: seq<Event>, b: seq<Event>)
    ensures Successes(a + b) == Successes(a) + Successes(b)
    decreases |a|
  {
    if a == [] {
      assert a + b == b;
    } else {
      SuccessesAppend(a[1..], b);
      assert (a + b)[1..] == a[1..] + b;
    }
  }

  lemma {:induction false} DropsBuildNothing(w: World, now: nat, roots: seq<nat>)
    ensures Successes(DropRest(w, now, roots)) == 0
    decreases |roots|
  {
    if roots != [] {
      DropsBuildNothing(w, now, roots[1..]);
      SuccessesAppend([Dropped(roots[0])], DropRest(w, now, roots[1..]));
      assert [Dropped(roots[0])][1..] == [];
    }
  }

  /** The call returns how many batches were built. */
  lemma {:induction false} BuiltCounted(w: World, now: nat, entries: seq<nat>)
    ensures Compile(w, now, entries).built == Successes(Compile(w, now, entries).log)
    decreases |entries|, 1
  {
    DropsBuildNothing(w, now, entries);
    var roots := StillNeeded(w, now, entries);
    if roots != [] {
      AttemptCounted(w, now, roots);
      SuccessesAppend(DropRest(w, now, entries), Attempt(w, now, roots).log);
    }
  }

  lemma {:induction false} AttemptCounted(w: World, now: nat, roots: seq<nat>)
    requires roots != []
    ensures Attempt(w, now, roots).built == Successes(Attempt(w, now, roots).log)
    decreases |roots|, 0
  {
    if w.compile(now, roots) == Failed(true) && |roots| > 1 {
      var middle := |roots| / 2;
      var left := Compile(w, now + 1, roots[..middle]);
      BuiltCounted(w, now + 1, roots[..middle]);
      BuiltCounted(w, left.attempts, roots[middle..]);
      SuccessesAppend(left.log, Compile(w, left.attempts, roots[middle..]).log);
    } else {
      var log := Attempt(w, now, roots).log;
      assert log[1..] == [];
    }
  }

  // ----- A compiler that fails exactly on bad roots ------------------------------------------

  ghost predicate AnyBad(roots: seq<nat>, bad: set<nat>) {
    exists r :: r in roots && r in bad
  }

  /** Every batch with a bad root fails, bisectably, and no other; every root stays needed. */
  ghost predicate FailsOn(w: World, bad: set<nat>) {
    && (forall n, roots :: w.compile(n, roots) == if AnyBad(roots, bad) then Failed(true) else Built)
    && (forall n, r :: w.needed(n, r))
  }

  /** Good roots are served and bad roots are reported alone. */
  ghost predicate Settles(e: Event, bad: set<nat>) {
    match e
    case Served(roots) => !AnyBad(roots, bad)
    case Rejected(root) => root in bad
    case _ => false
  }

  lemma {:induction false} NothingDropped(w: World, bad: set<nat>, now: nat, roots: seq<nat>)
    requires FailsOn(w, bad)
    ensures DropRest(w, now, roots) == []
    decreases |roots|
  {
    if roots != [] {
      NothingDropped(w, bad, now, roots[1..]);
    }
  }

  /** Bisection serves every good root and reports every bad one alone: only those two kinds
      of event occur, and by `EveryRootOnce` each root is in exactly one of them. */
  lemma {:induction false} BisectionIsolatesBad(w: World, bad: set<nat>, now: nat, entries: seq<nat>)
    requires FailsOn(w, bad)
    ensures forall e :: e in Compile(w, now, entries).log ==> Settles(e, bad)
    decreases |entries|, 1
  {
    NothingDropped(w, bad, now, entries);
    if StillNeeded(w, now, entries) != [] {
      AttemptIsolatesBad(w, bad, now, StillNeeded(w, now, entries));
    }
  }

  lemma {:induction false} AttemptIsolatesBad(w: World, bad: set<nat>, now: nat, roots: seq<nat>)
    requires FailsOn(w, bad) && roots != []
    ensures forall e :: e in Attempt(w, now, roots).log ==> Settles(e, bad)
    decreases |roots|, 0
  {
    if w.compile(now, roots) == Failed(true) && |roots| > 1 {
      var middle := |roots| / 2;
      BisectionIsolatesBad(w, bad, now + 1, roots[..middle]);
      BisectionIsolatesBad(w, bad, Compile(w, now + 1, roots[..middle]).attempts, roots[middle..]);
    }
  }

  /** The whole call on a set of roots: one outcome each, at most `2n - 1` attempts, and with
      a compiler that fails exactly on bad roots, one success or one lone failure each. */
  lemma CompileBatchedCorrect(w: World, entries: set<nat>, root: nat, bad: set<nat>)
    ensures
      var r := CompileBatched(w, entries);
      && Mentions(r.log, root) == Once(root in entries)
      && r.attempts <= (if entries == {} then 0 else 2 * |entries| - 1)
      && (FailsOn(w, bad) ==> forall e :: e in r.log ==> Settles(e, bad))
  {
    EveryRootOnce(w, 0, Sorted(entries), root);
    AttemptsBounded(w, 0, Sorted(entries));
    if FailsOn(w, bad) {
      BisectionIsolatesBad(w, bad, 0, Sorted(entries));
    }
  }
}
