/** Hosted alias compilation: targets grouped by host, packed into bounded chunks, each
    compiled as one batch and split by host, then by target, when it fails.  The compiler
    may answer anything, including partial successes, differently at every attempt. */
module HostedBatch {
  import opened Options
  import opened SortedSets

  const BATCH_HOST_CAP := 64
  const BATCH_ALIAS_CAP := 256

  /** A host and the rest of what identifies its group: owner identity and reason. */
  datatype Key = Key(host: nat, owner: nat)

  datatype Group = Group(key: Key, targets: seq<nat>)

  predicate KeyLess(a: Key, b: Key) {
    a.host < b.host || (a.host == b.host && a.owner < b.owner)
  }

  /** How many targets a list of groups names. */
  function Total(gs: seq<Group>): nat {
    if gs == [] then 0 else |gs[0].targets| + Total(gs[1..])
  }

  lemma {:induction false} TotalAppend(a: seq<Group>, b: seq<Group>)
    ensures Total(a + b) == Total(a) + Total(b)
    decreases |a|
  {
    if a == [] {
      assert a + b == b;
    } else {
      TotalAppend(a[1..], b);
      assert (a + b)[1..] == a[1..] + b;
    }
  }

  function Occurs(targets: seq<nat>, t: nat): nat {
    if targets == [] then 0 else (if targets[0] == t then 1 else 0) + Occurs(targets[1..], t)
  }

  /** How often a list of groups names `t`. */
  function CountIn(gs: seq<Group>, t: nat): nat {
    if gs == [] then 0 else Occurs(gs[0].targets, t) + CountIn(gs[1..], t)
  }

  lemma {:induction false} OccursAppend(a: seq<nat>, b: seq<nat>, t: nat)
    ensures Occurs(a + b, t) == Occurs(a, t) + Occurs(b, t)
    decreases |a|
  {
    if a == [] {
      assert a + b == b;
    } else {
      OccursAppend(a[1..], b, t);
      assert (a + b)[1..] == a[1..] + b;
    }
  }

  lemma {:induction false} CountAppend(a: seq<Group>, b: seq<Group>, t: nat)
    ensures CountIn(a + b, t) == CountIn(a, t) + CountIn(b, t)
    decreases |a|
  {
    if a == [] {
      assert a + b == b;
    } else {
      CountAppend(a[1..], b, t);
      assert (a + b)[1..] == a[1..] + b;
    }
  }

  // ----- Packing groups into chunks --------------------------------------------------------

  function Flatten(chunks: seq<seq<Group>>): seq<Group> {
    if chunks == [] then [] else Flatten(chunks[..|chunks| - 1]) + chunks[|chunks| - 1]
  }

  predicate HostSorted(gs: seq<Group>) {
    forall i, j :: 0 <= i < j < |gs| ==> gs[i].key.host <= gs[j].key.host
  }

  /** Within every cap, and no host named twice. */
  predicate FitsChunk(c: seq<Group>) {
    && 1 <= |c| <= 64 && Total(c) <= 256
    && forall i, j :: 0 <= i < j < |c| ==> c[i].key.host < c[j].key.host
  }

  predicate ValidGroup(g: Group) {
    1 <= |g.targets| <= 256
  }

  /** The chunk has no room for the group: a cap would be passed, or its host repeated. */
  predicate NoRoom(c: seq<Group>, g: Group) {
    |c| >= 64 || Total(c) + |g.targets| > 256 || (c != [] && c[|c| - 1].key.host == g.key.host)
  }

  predicate Follows(c: seq<Group>, d: seq<Group>) {
    d != [] && NoRoom(c, d[0])
  }

  /** Every chunk was filled before the next was begun. */
  predicate Greedy(chunks: seq<seq<Group>>) {
    forall i, j :: 0 <= i && j == i + 1 < |chunks| ==> Follows(chunks[i], chunks[j])
  }

  lemma ExtendChunk(chunk: seq<Group>, g: Group)
    requires ValidGroup(g)
    requires chunk != [] ==>
               && FitsChunk(chunk) && |chunk| < BATCH_HOST_CAP && Total(chunk) + |g.targets| <= BATCH_ALIAS_CAP
               && chunk[|chunk| - 1].key.host < g.key.host
    ensures FitsChunk(chunk + [g]) && Total(chunk + [g]) == Total(chunk) + |g.targets|
  {
    TotalAppend(chunk, [g]);
    assert [g][1..] == [];
  }

  lemma FlattenSnoc(chunks: seq<seq<Group>>, chunk: seq<Group>)
    ensures Flatten(chunks + [chunk]) == Flatten(chunks) + chunk
  {
    assert (chunks + [chunk])[..|chunks|] == chunks;
  }

  lemma PrefixSnoc(groups: seq<Group>, i: nat, done: seq<Group>, chunk: seq<Group>)
    requires i < |groups| && done + chunk == groups[..i]
    ensures done + (chunk + [groups[i]]) == groups[..i + 1]
    ensures chunk != [] ==> chunk[|chunk| - 1] == groups[i - 1]
  {
    assert groups[..i + 1] == groups[..i] + [groups[i]];
    assert chunk != [] ==> (done + chunk)[i - 1] == chunk[|chunk| - 1];
  }

  /** Where the packing stands: closed chunks, each filled before the next, and an open one. */
  ghost predicate Packing(packed: seq<Group>, chunks: seq<seq<Group>>, chunk: seq<Group>) {
    && Flatten(chunks) + chunk == packed && (forall c :: c in chunks ==> FitsChunk(c)) && Greedy(chunks)
    && (chunk != [] ==> FitsChunk(chunk) && (chunks != [] ==> Follows(chunks[|chunks| - 1], chunk)))
  }

  lemma CloseChunk(packed: seq<Group>, chunks: seq<seq<Group>>, chunk: seq<Group>)
    requires Packing(packed, chunks, chunk) && chunk != []
    ensures Packing(packed, chunks + [chunk], [])
  {
    FlattenSnoc(chunks, chunk);
    assert Flatten(chunks + [chunk]) + [] == packed;
  }

  lemma OpenChunk(packed: seq<Group>, chunks: seq<seq<Group>>, chunk: seq<Group>, g: Group)
    requires Packing(packed, chunks, chunk) && ValidGroup(g)
    requires chunk == [] ==> chunks == [] || NoRoom(chunks[|chunks| - 1], g)
    requires chunk != [] ==> !NoRoom(chunk, g) && chunk[|chunk| - 1].key.host <= g.key.host
    ensures Packing(packed + [g], chunks, chunk + [g]) && Total(chunk + [g]) == Total(chunk) + |g.targets|
  {
    ExtendChunk(chunk, g);
    assert Flatten(chunks) + (chunk + [g]) == packed + [g];
  }

  /** Close the chunk when the next group would break a cap or repeat its host. */
  method Pack(groups: seq<Group>) returns (chunks: seq<seq<Group>>)
    requires HostSorted(groups) && forall g :: g in groups ==> ValidGroup(g)
    ensures Flatten(chunks) == groups
    ensures (forall c :: c in chunks ==> FitsChunk(c)) && Greedy(chunks)
  {
    chunks := [];
    var chunk: seq<Group> := [];
    var aliases := 0;
    for i := 0 to |groups|
      invariant Packing(groups[..i], chunks, chunk) && aliases == Total(chunk)
      invariant i > 0 ==> chunk != []
      invariant i == 0 ==> chunks == [] && chunk == []
    {
      var g := groups[i];
      PrefixSnoc(groups, i, Flatten(chunks), chunk);
      if chunk != [] && (|chunk| >= BATCH_HOST_CAP || aliases + |g.targets| > BATCH_ALIAS_CAP
                         || chunk[|chunk| - 1].key.host == g.key.host) {
        CloseChunk(groups[..i], chunks, chunk);
        assert NoRoom(chunk, g);
        chunks := chunks + [chunk];
        chunk, aliases := [], 0;
      }
      OpenChunk(groups[..i], chunks, chunk, g);
      chunk := chunk + [g];
      aliases := aliases + |g.targets|;
      assert groups[..i + 1] == groups[..i] + [g];
    }
    assert groups[..|groups|] == groups;
    if chunk != [] {
      CloseChunk(groups, chunks, chunk);
      chunks := chunks + [chunk];
    }
  }

  // ----- Grouping by host -------------------------------------------------------------------

  /** Pieces of at most `BATCH_ALIAS_CAP` targets. */
  function Slices(key: Key, targets: seq<nat>): (gs: seq<Group>)
    ensures forall g :: g in gs ==> ValidGroup(g) && g.key == key
    ensures Total(gs) == |targets|
    decreases |targets|
  {
    if targets == [] then []
    else if |targets| <= BATCH_ALIAS_CAP then [Group(key, targets)]
    else [Group(key, targets[..BATCH_ALIAS_CAP])] + Slices(key, targets[BATCH_ALIAS_CAP..])
  }

  ghost predicate IsLeastKey(keys: set<Key>, k: Key) {
    k in keys && forall x :: x in keys && x != k ==> KeyLess(k, x)
  }

  /** The next key in sorted order. */
  method LeastKey(keys: set<Key>) returns (k: Key)
    requires keys != {}
    ensures IsLeastKey(keys, k)
  {
    k :| k in keys;
    var rest := keys - {k};
    while rest != {}
      invariant k in keys && rest <= keys && k !in rest
      invariant forall x :: x in keys && x != k && x !in rest ==> KeyLess(k, x)
      decreases rest
    {
      var x :| x in rest;
      rest := rest - {x};
      if KeyLess(x, k) {
        k := x;
      }
    }
  }

  /** Host-sorted groups whose targets `hosted` assigns to their keys. */
  ghost predicate GroupsOf(hosted: map<nat, Key>, gs: seq<Group>) {
    HostSorted(gs) && forall g :: g in gs ==> ValidGroup(g) && HostsAll(hosted, g)
  }

  ghost predicate HostsAll(hosted: map<nat, Key>, g: Group) {
    forall t :: t in g.targets ==> t in hosted && hosted[t] == g.key
  }

  ghost predicate Precedes(gs: seq<Group>, k: Key) {
    forall g :: g in gs ==> Earlier(g.key, k)
  }

  lemma {:induction false} SlicesHosted(hosted: map<nat, Key>, key: Key, targets: seq<nat>)
    requires forall t :: t in targets ==> t in hosted && hosted[t] == key
    ensures GroupsOf(hosted, Slices(key, targets))
    decreases |targets|
  {
    var gs := Slices(key, targets);
    if |targets| > BATCH_ALIAS_CAP {
      var rest := targets[BATCH_ALIAS_CAP..];
      assert forall t :: t in rest ==> t in targets;
      SlicesHosted(hosted, key, rest);
      assert HostsAll(hosted, gs[0]);
    }
    assert forall i :: 0 <= i < |gs| ==> gs[i] in gs;
  }

  lemma AppendGroups(hosted: map<nat, Key>, gs: seq<Group>, pieces: seq<Group>, k: Key)
    requires GroupsOf(hosted, gs) && GroupsOf(hosted, pieces) && Precedes(gs, k)
    requires forall g :: g in pieces ==> g.key == k
    ensures GroupsOf(hosted, gs + pieces)
  {
    var all := gs + pieces;
    forall i, j | 0 <= i < j < |all|
      ensures all[i].key.host <= all[j].key.host
    {
      assert i < |gs| ==> all[i] in gs;
      assert i >= |gs| ==> all[i] in pieces;
      assert j >= |gs| ==> all[j] in pieces;
    }
  }

  /** By host, then by owner. */
  predicate Earlier(a: Key, b: Key) {
    a.host < b.host || (a.host == b.host && a.owner < b.owner)
  }

  /** A group before another: of an earlier key, or a full piece of the same with lower targets. */
  ghost predicate Ahead(a: Group, b: Group) {
    || Earlier(a.key, b.key)
    || (a.key == b.key && |a.targets| == 256 && forall x, y :: x in a.targets && y in b.targets ==> x < y)
  }

  ghost predicate Arranged(gs: seq<Group>) {
    (forall g :: g in gs ==> Ascending(g.targets)) && forall i, j :: 0 <= i < j < |gs| ==> Ahead(gs[i], gs[j])
  }

  lemma {:induction false} SlicesWithin(key: Key, targets: seq<nat>, g: Group)
    requires g in Slices(key, targets)
    ensures forall t :: t in g.targets ==> t in targets
    decreases |targets|
  {
    if |targets| > BATCH_ALIAS_CAP {
      var a, b := targets[..BATCH_ALIAS_CAP], targets[BATCH_ALIAS_CAP..];
      if g in Slices(key, b) {
        SlicesWithin(key, b, g);
      }
    }
  }

  lemma FirstSlice(key: Key, targets: seq<nat>, g: Group)
    requires Ascending(targets) && |targets| > BATCH_ALIAS_CAP && g in Slices(key, targets[BATCH_ALIAS_CAP..])
    ensures Ahead(Group(key, targets[..BATCH_ALIAS_CAP]), g)
  {
    var a, b := targets[..BATCH_ALIAS_CAP], targets[BATCH_ALIAS_CAP..];
    SlicesWithin(key, b, g);
    forall x, y | x in a && y in g.targets
      ensures x < y
    {
      assert y in b;
    }
  }

  lemma {:induction false} SlicesArranged(key: Key, targets: seq<nat>)
    requires Ascending(targets)
    ensures Arranged(Slices(key, targets))
    decreases |targets|
  {
    if |targets| > BATCH_ALIAS_CAP {
      var a, b := targets[..BATCH_ALIAS_CAP], targets[BATCH_ALIAS_CAP..];
      SlicesArranged(key, b);
      var first, rest := Group(key, a), Slices(key, b);
      forall g | g in rest
        ensures Ahead(first, g)
      {
        FirstSlice(key, targets, g);
      }
      assert Slices(key, targets) == [first] + rest;
    }
  }

  lemma ArrangedAppend(gs: seq<Group>, pieces: seq<Group>, k: Key)
    requires Arranged(gs) && Arranged(pieces)
    requires (forall g :: g in gs ==> Earlier(g.key, k)) && forall g :: g in pieces ==> g.key == k
    ensures Arranged(gs + pieces)
  {
    var all := gs + pieces;
    forall i, j | 0 <= i < j < |all|
      ensures Ahead(all[i], all[j])
    {
      assert i < |gs| ==> all[i] in gs;
      assert j >= |gs| ==> all[j] in pieces;
    }
  }

  /** Split off the targets of the least key. */
  method TakeLeast(rest: map<nat, Key>) returns (k: Key, mine: set<nat>, others: map<nat, Key>)
    requires rest != map[]
    ensures mine != {} && |rest| == |mine| + |others|
    ensures forall t :: t in mine <==> t in rest && rest[t] == k
    ensures forall t :: t in rest ==> (t in others <==> t !in mine)
    ensures forall t :: t in others ==> t in rest && rest[t] == others[t] && Earlier(k, others[t])
  {
    ghost var some :| some in rest;
    assert rest[some] in rest.Values;
    k := LeastKey(rest.Values);
    mine := set t | t in rest && rest[t] == k;
    others := rest - mine;
    assert rest.Keys == mine + others.Keys && mine !! others.Keys;
    assert |rest.Keys| == |mine| + |others.Keys|;
    ghost var t :| t in rest && rest[t] == k;
    assert t in mine;
    forall t | t in others
      ensures Earlier(k, others[t])
    {
      assert rest[t] in rest.Values;
    }
  }

  lemma {:induction false} OccursAscending(s: seq<nat>, t: nat)
    requires Ascending(s)
    ensures Occurs(s, t) == if t in s then 1 else 0
    decreases |s|
  {
    if s != [] {
      OccursAscending(s[1..], t);
      assert forall i :: 1 <= i < |s| ==> s[0] < s[i];
    }
  }

  lemma {:induction false} CountSlices(key: Key, targets: seq<nat>, t: nat)
    ensures CountIn(Slices(key, targets), t) == Occurs(targets, t)
    decreases |targets|
  {
    if |targets| > BATCH_ALIAS_CAP {
      var a, b := targets[..BATCH_ALIAS_CAP], targets[BATCH_ALIAS_CAP..];
      CountSlices(key, b, t);
      OccursAppend(a, b, t);
      assert targets == a + b;
      assert Slices(key, targets)[1..] == Slices(key, b);
    } else if targets != [] {
      assert [Group(key, targets)][1..] == [];
    }
  }

  lemma CountPieces(groups: seq<Group>, k: Key, mine: set<nat>)
    ensures forall t :: CountIn(groups + Slices(k, Sorted(mine)), t)
                        == CountIn(groups, t) + if t in mine then 1 else 0
  {
    forall t: nat
      ensures CountIn(groups + Slices(k, Sorted(mine)), t) == CountIn(groups, t) + if t in mine then 1 else 0
    {
      CountAppend(groups, Slices(k, Sorted(mine)), t);
      CountSlices(k, Sorted(mine), t);
      OccursAscending(Sorted(mine), t);
    }
  }

  /** Groups in key order, each naming the targets one key hosts, in ascending order. */
  method GroupByHost(hosted: map<nat, Key>) returns (groups: seq<Group>)
    ensures GroupsOf(hosted, groups) && Total(groups) == |hosted| && Arranged(groups)
    ensures forall t :: CountIn(groups, t) == if t in hosted then 1 else 0
  {
    groups := [];
    var rest := hosted;
    while rest != map[]
      invariant GroupsOf(hosted, groups)
      invariant Total(groups) + |rest| == |hosted|
      invariant forall t :: CountIn(groups, t) == if t in hosted && t !in rest then 1 else 0
      invariant forall t :: t in rest ==> t in hosted && hosted[t] == rest[t] && Precedes(groups, rest[t])
      invariant Arranged(groups)
      decreases |rest|
    {
      var k, mine, others := TakeLeast(rest);
      ghost var t :| t in mine;
      assert Precedes(groups, k);
      var pieces := Slices(k, Sorted(mine));
      SlicesHosted(hosted, k, Sorted(mine));
      SlicesArranged(k, Sorted(mine));
      AppendGroups(hosted, groups, pieces, k);
      ArrangedAppend(groups, pieces, k);
      TotalAppend(groups, pieces);
      CountPieces(groups, k, mine);
      groups := groups + pieces;
      rest := others;
    }
  }

  // ----- Running one batch --------------------------------------------------------------------

  /** A build may report which of the requested targets it serves. */
  datatype Reply = Built(served: Option<set<nat>>) | Failed(bisect: bool)

  /** What became of some targets, and at which moment. */
  datatype Event =
    | Stopped(at: nat, batch: seq<Group>)          // a stop request was seen first
    | Dropped(at: nat, batch: seq<Group>)          // no longer needed
    | Served(at: nat, batch: seq<Group>)
    | Vacuous(at: nat, batch: seq<Group>)          // built, but the report names none of it
    | Rejected(at: nat, batch: seq<Group>)         // reported as failed
    | Capped(at: nat, batch: seq<Group>)           // the attempt cap was reached
    | Unreported(at: nat, batch: seq<Group>)       // later hosts of a failure that may not be split

  /** The compiler's reply to the `n`-th attempt; whether a target is still needed, and
      whether a stop is requested, at a given moment. */
  datatype World = World(compile: (nat, seq<Group>) -> Reply, needed: (nat, nat) -> bool, stop: nat -> bool)

  /** How often the events of a log account for `t`. */
  function Mentions(log: seq<Event>, t: nat): nat {
    if log == [] then 0 else Mentions(log[..|log| - 1], t) + CountIn(log[|log| - 1].batch, t)
  }

  /** How many builds succeeded. */
  function Successes(log: seq<Event>): nat {
    if log == [] then 0
    else
      var e := log[|log| - 1];
      Successes(log[..|log| - 1]) + if e.Served? || e.Vacuous? then 1 else 0
  }

  /** The targets whose `p` is `want`. */
  function KeepTargets(targets: seq<nat>, p: nat -> bool, want: bool): (r: seq<nat>) {
    if targets == [] then []
    else if p(targets[0]) == want then [targets[0]] + KeepTargets(targets[1..], p, want)
    else KeepTargets(targets[1..], p, want)
  }

  /** The groups restricted to those targets; empty groups vanish. */
  function Keep(gs: seq<Group>, p: nat -> bool, want: bool): (r: seq<Group>)
    ensures forall g :: g in r ==> g.targets != []
  {
    if gs == [] then []
    else
      var mine := KeepTargets(gs[0].targets, p, want);
      if mine == [] then Keep(gs[1..], p, want) else [Group(gs[0].key, mine)] + Keep(gs[1..], p, want)
  }

  lemma {:induction false} OccursSplit(targets: seq<nat>, p: nat -> bool, t: nat)
    ensures Occurs(KeepTargets(targets, p, true), t) + Occurs(KeepTargets(targets, p, false), t) == Occurs(targets, t)
    ensures |KeepTargets(targets, p, true)| + |KeepTargets(targets, p, false)| == |targets|
    decreases |targets|
  {
    if targets != [] {
      OccursSplit(targets[1..], p, t);
    }
  }

  lemma KeepHead(gs: seq<Group>, p: nat -> bool, want: bool, t: nat)
    requires gs != []
    ensures CountIn(Keep(gs, p, want), t)
            == Occurs(KeepTargets(gs[0].targets, p, want), t) + CountIn(Keep(gs[1..], p, want), t)
    ensures Total(Keep(gs, p, want)) == |KeepTargets(gs[0].targets, p, want)| + Total(Keep(gs[1..], p, want))
  {
  }

  /** A predicate splits the groups in two. */
  lemma {:induction false} KeepSplits(gs: seq<Group>, p: nat -> bool, t: nat)
    ensures CountIn(Keep(gs, p, true), t) + CountIn(Keep(gs, p, false), t) == CountIn(gs, t)
    ensures Total(Keep(gs, p, true)) + Total(Keep(gs, p, false)) == Total(gs)
    decreases |gs|
  {
    if gs != [] {
      OccursSplit(gs[0].targets, p, t);
      KeepHead(gs, p, true, t);
      KeepHead(gs, p, false, t);
      KeepSplits(gs[1..], p, t);
    }
  }

  lemma {:induction false} OccursKept(targets: seq<nat>, p: nat -> bool, want: bool, t: nat)
    ensures Occurs(KeepTargets(targets, p, want), t) == if p(t) == want then Occurs(targets, t) else 0
    decreases |targets|
  {
    if targets != [] {
      OccursKept(targets[1..], p, want, t);
    }
  }

  lemma {:induction false} CountKept(gs: seq<Group>, p: nat -> bool, want: bool, t: nat)
    ensures CountIn(Keep(gs, p, want), t) == if p(t) == want then CountIn(gs, t) else 0
    decreases |gs|
  {
    if gs != [] {
      OccursKept(gs[0].targets, p, want, t);
      KeepHead(gs, p, want, t);
      CountKept(gs[1..], p, want, t);
    }
  }

  lemma {:induction false} KeptNamed(targets: seq<nat>, p: nat -> bool, want: bool)
    ensures forall t :: t in KeepTargets(targets, p, want) ==> t in targets && p(t) == want
    decreases |targets|
  {
    if targets != [] {
      KeptNamed(targets[1..], p, want);
    }
  }

  /** Every target named has `p` equal to `want`. */
  ghost predicate AllNamed(gs: seq<Group>, p: nat -> bool, want: bool) {
    forall g :: g in gs ==> forall t :: t in g.targets ==> p(t) == want
  }

  lemma {:induction false} KeptAllNamed(gs: seq<Group>, p: nat -> bool, want: bool)
    ensures AllNamed(Keep(gs, p, want), p, want)
    decreases |gs|
  {
    if gs != [] {
      KeptNamed(gs[0].targets, p, want);
      KeptAllNamed(gs[1..], p, want);
    }
  }

  /** One group per entry of `gs` that is not empty. */
  ghost predicate Filled(gs: seq<Group>) {
    forall g :: g in gs ==> g.targets != []
  }

  lemma FilledTotal(gs: seq<Group>)
    requires Filled(gs) && gs != []
    ensures Total(gs) >= |gs[0].targets| >= 1
  {
  }

  lemma HalvesFilled(gs: seq<Group>, m: nat)
    requires Filled(gs) && 0 < m < |gs|
    ensures Total(gs[..m]) >= 1 && Total(gs[m..]) >= 1 && Total(gs) == Total(gs[..m]) + Total(gs[m..])
    ensures forall t :: CountIn(gs, t) == CountIn(gs[..m], t) + CountIn(gs[m..], t)
  {
    assert gs == gs[..m] + gs[m..];
    TotalAppend(gs[..m], gs[m..]);
    FilledTotal(gs[..m]);
    FilledTotal(gs[m..]);
    forall t
      ensures CountIn(gs, t) == CountIn(gs[..m], t) + CountIn(gs[m..], t)
    {
      CountAppend(gs[..m], gs[m..], t);
    }
  }

  lemma HalveTargets(g: Group, m: nat)
    requires m <= |g.targets|
    ensures var a, b := [Group(g.key, g.targets[..m])], [Group(g.key, g.targets[m..])];
            && Total(a) == m && Total(b) == |g.targets| - m && Total([g]) == |g.targets|
            && forall t :: CountIn([g], t) == CountIn(a, t) + CountIn(b, t)
  {
    var a, b := [Group(g.key, g.targets[..m])], [Group(g.key, g.targets[m..])];
    assert a[1..] == [] && b[1..] == [] && [g][1..] == [];
    forall t
      ensures CountIn([g], t) == CountIn(a, t) + CountIn(b, t)
    {
      OccursAppend(g.targets[..m], g.targets[m..], t);
      assert g.targets == g.targets[..m] + g.targets[m..];
    }
  }

  lemma HeadAndTail(gs: seq<Group>)
    requires gs != []
    ensures forall t :: CountIn(gs, t) == CountIn(gs[..1], t) + CountIn(gs[1..], t)
    ensures |gs| == 1 ==> gs[1..] == []
  {
    forall t
      ensures CountIn(gs, t) == CountIn(gs[..1], t) + CountIn(gs[1..], t)
    {
      CountAppend(gs[..1], gs[1..], t);
      assert gs == gs[..1] + gs[1..];
    }
  }

  lemma LogSnoc(log: seq<Event>, e: Event)
    ensures Successes(log + [e]) == Successes(log) + if e.Served? || e.Vacuous? then 1 else 0
    ensures forall t :: Mentions(log + [e], t) == Mentions(log, t) + CountIn(e.batch, t)
  {
    assert (log + [e])[..|log|] == log;
  }

  lemma KeepSplitsAll(gs: seq<Group>, p: nat -> bool)
    ensures Total(Keep(gs, p, true)) + Total(Keep(gs, p, false)) == Total(gs)
    ensures forall t :: CountIn(Keep(gs, p, true), t) + CountIn(Keep(gs, p, false), t) == CountIn(gs, t)
    ensures Filled(Keep(gs, p, true)) && Filled(Keep(gs, p, false))
  {
    KeepSplits(gs, p, 0);
    forall t
      ensures CountIn(Keep(gs, p, true), t) + CountIn(Keep(gs, p, false), t) == CountIn(gs, t)
    {
      KeepSplits(gs, p, t);
    }
  }

  function InSet(s: set<nat>): nat -> bool {
    t => t in s
  }

  function NeededAt(w: World, n: nat): nat -> bool {
    (t: nat) => w.needed(n, t)
  }

  // ----- What each event says about the world ------------------------------------------------

  /** `b` is the part of `batch` that names the targets of `s`. */
  ghost predicate PartIn(batch: seq<Group>, s: set<nat>, b: seq<Group>) {
    Filled(b) && forall t :: CountIn(b, t) == if t in s then CountIn(batch, t) else 0
  }

  lemma KeptPart(batch: seq<Group>, s: set<nat>)
    ensures PartIn(batch, s, Keep(batch, InSet(s), true))
  {
    forall t
      ensures CountIn(Keep(batch, InSet(s), true), t) == if t in s then CountIn(batch, t) else 0
    {
      CountKept(batch, InSet(s), true, t);
    }
  }

  /** The `n`-th attempt built `batch` and its report covers exactly the part `b`. */
  ghost predicate ServedBy(w: World, n: nat, batch: seq<Group>, b: seq<Group>) {
    match w.compile(n, batch)
    case Built(None) => b == batch
    case Built(Some(s)) => b != [] && PartIn(batch, s, b)
    case Failed(_) => false
  }

  /** The `n`-th attempt built `batch` and its report names none of it. */
  ghost predicate VacuousBy(w: World, n: nat, batch: seq<Group>) {
    match w.compile(n, batch)
    case Built(Some(s)) => forall t :: t in s ==> CountIn(batch, t) == 0
    case _ => false
  }

  /** The `n`-th attempt, on `batch`, failed with `b` the first group and nothing left that
      may be split. */
  ghost predicate RejectedBy(w: World, n: nat, batch: seq<Group>, b: seq<Group>) {
    match w.compile(n, batch)
    case Built(_) => false
    case Failed(bisect) => batch != [] && b == batch[..1] && (bisect ==> |batch| == 1 && |batch[0].targets| == 1)
  }

  ghost predicate UnreportedBy(w: World, n: nat, batch: seq<Group>, b: seq<Group>) {
    w.compile(n, batch) == Failed(false) && |batch| > 1 && b == batch[1..]
  }

  ghost predicate NoneNeeded(w: World, n: nat, b: seq<Group>) {
    forall g, t :: g in b && t in g.targets ==> !w.needed(n, t)
  }

  ghost predicate AllNeeded(w: World, n: nat, b: seq<Group>) {
    forall g, t :: g in b && t in g.targets ==> w.needed(n, t)
  }

  lemma KeptNeeded(w: World, n: nat, batch: seq<Group>)
    ensures AllNeeded(w, n, Keep(batch, NeededAt(w, n), true)) && NoneNeeded(w, n, Keep(batch, NeededAt(w, n), false))
  {
    KeptAllNamed(batch, NeededAt(w, n), true);
    KeptAllNamed(batch, NeededAt(w, n), false);
  }

  /** Every event has its cause in the world's answers at its moment; only targets needed then
      were compiled. */
  ghost predicate Explained(w: World, e: Event) {
    match e
    case Stopped(at, _) => w.stop(at)
    case Dropped(at, b) => NoneNeeded(w, at, b)
    case Served(at, b) => exists n, batch :: AllNeeded(w, at, batch) && ServedBy(w, n, batch, b)
    case Vacuous(at, b) => AllNeeded(w, at, b) && exists n :: VacuousBy(w, n, b)
    case Rejected(at, b) => exists n, batch :: AllNeeded(w, at, batch) && RejectedBy(w, n, batch, b)
    case Unreported(at, b) => exists n, batch :: AllNeeded(w, at, batch) && UnreportedBy(w, n, batch, b)
    case Capped(at, b) => AllNeeded(w, at, b)
  }

  /** Every event is explained, in the order of their moments, none of which is yet to come. */
  ghost predicate Accounted(w: World, log: seq<Event>, now: nat) {
    && (forall e :: e in log ==> Explained(w, e) && e.at <= now)
    && forall i, j :: 0 <= i < j < |log| ==> log[i].at <= log[j].at
  }

  lemma AccountedOn(w: World, log: seq<Event>, now: nat, e: Event)
    requires Accounted(w, log, now) && Explained(w, e) && e.at == now
    ensures Accounted(w, log + [e], now)
  {
    forall i, j | 0 <= i < j < |log + [e]|
      ensures (log + [e])[i].at <= (log + [e])[j].at
    {
      assert i < |log| ==> log[i] in log;
    }
  }

  lemma AccountedLater(w: World, log: seq<Event>, now: nat, later: nat)
    requires Accounted(w, log, now) && now <= later
    ensures Accounted(w, log, later)
  {
  }

  ghost predicate Uncapped(log: seq<Event>) {
    forall e :: e in log ==> !e.Capped?
  }

  /** `later` extends `earlier` and accounts for what the batch names beyond it. */
  ghost predicate Settles(earlier: seq<Event>, later: seq<Event>, batch: seq<Group>) {
    forall t :: Mentions(later, t) == Mentions(earlier, t) + CountIn(batch, t)
  }

  /** Attempts that a batch of `n` targets may take. */
  function Allowance(n: nat): nat {
    if n == 0 then 0 else 2 * n - 1
  }

  class HostedBatcher {
    const world: World
    const cap: nat
    var attempts: nat
    var clock: nat
    var log: seq<Event>

    constructor (w: World, cap: nat)
      ensures world == w && this.cap == cap && attempts == 0 && log == []
    {
      world, this.cap := w, cap;
      attempts, clock, log := 0, 0, [];
    }

    /** The next moment. */
    method Tick()
      requires Accounted(world, log, clock)
      modifies this`clock
      ensures clock == old(clock) + 1 && Accounted(world, log, clock)
    {
      AccountedLater(world, log, clock, clock + 1);
      clock := clock + 1;
    }

    method Note(e: Event)
      requires Explained(world, e) && Accounted(world, log, clock) && e.at == clock
      modifies this`log
      ensures log == old(log) + [e] && Accounted(world, log, clock)
      ensures Uncapped(old(log)) && !e.Capped? ==> Uncapped(log)
      ensures Settles(old(log), log, e.batch)
      ensures Successes(log) == Successes(old(log)) + if e.Served? || e.Vacuous? then 1 else 0
    {
      LogSnoc(log, e);
      AccountedOn(world, log, clock, e);
      log := log + [e];
    }

    /** What is still needed; the rest is dropped. */
    method DropUnneeded(batch: seq<Group>) returns (filtered: seq<Group>)
      requires Accounted(world, log, clock)
      modifies this`log
      ensures Accounted(world, log, clock) && Filled(filtered) && AllNeeded(world, clock, filtered)
      ensures Total(filtered) <= Total(batch) && Successes(log) == Successes(old(log))
      ensures forall t :: Mentions(log, t) == Mentions(old(log), t) + CountIn(batch, t) - CountIn(filtered, t)
      ensures Uncapped(old(log)) ==> Uncapped(log)
    {
      var p := NeededAt(world, clock);
      KeepSplitsAll(batch, p);
      KeptNeeded(world, clock, batch);
      Note(Dropped(clock, Keep(batch, p, false)));
      filtered := Keep(batch, p, true);
    }

    /** Compile a batch, retrying what a partial success leaves and splitting what fails. */
    method Run(batch: seq<Group>) returns (built: nat)
      requires Accounted(world, log, clock)
      modifies this
      ensures Accounted(world, log, clock) && Settles(old(log), log, batch)
      ensures old(attempts) <= attempts <= old(attempts) + Allowance(Total(batch))
      ensures Uncapped(old(log)) && old(attempts) + Allowance(Total(batch)) <= cap ==> Uncapped(log)
      ensures Successes(log) == Successes(old(log)) + built
      ensures old(attempts) <= cap ==> attempts <= cap
      ensures Uncapped(old(log)) && attempts < cap ==> Uncapped(log)
      decreases Total(batch), 1
    {
      Tick();
      if world.stop(clock) {
        Note(Stopped(clock, batch));
        return 0;
      }
      var filtered := DropUnneeded(batch);
      if filtered == [] {
        return 0;
      }
      FilledTotal(filtered);
      if attempts >= cap {
        Note(Capped(clock, filtered));
        return 0;
      }
      built := Attempt(filtered);
    }

    method Attempt(filtered: seq<Group>) returns (built: nat)
      requires Accounted(world, log, clock) && Filled(filtered) && filtered != [] && attempts < cap
      requires AllNeeded(world, clock, filtered)
      modifies this
      ensures Accounted(world, log, clock) && Settles(old(log), log, filtered)
      ensures old(attempts) <= attempts <= old(attempts) + Allowance(Total(filtered))
      ensures Uncapped(old(log)) && old(attempts) + Allowance(Total(filtered)) <= cap ==> Uncapped(log)
      ensures Successes(log) == Successes(old(log)) + built
      ensures old(attempts) <= cap ==> attempts <= cap
      ensures Uncapped(old(log)) && attempts < cap ==> Uncapped(log)
      decreases Total(filtered), 0
    {
      FilledTotal(filtered);
      var n := attempts;
      attempts := attempts + 1;
      match world.compile(n, filtered) {
        case Built(None) =>
          assert ServedBy(world, n, filtered, filtered);
          Note(Served(clock, filtered));
          built := 1;
        case Built(Some(served)) =>
          built := Report(n, filtered, served);
        case Failed(bisect) =>
          built := Split(n, filtered, bisect);
      }
    }

    /** A successful build names what it serves; the remainder is tried again. */
    method Report(n: nat, filtered: seq<Group>, served: set<nat>) returns (built: nat)
      requires Accounted(world, log, clock) && Filled(filtered) && filtered != []
      requires world.compile(n, filtered) == Built(Some(served)) && AllNeeded(world, clock, filtered)
      modifies this
      ensures Accounted(world, log, clock) && Settles(old(log), log, filtered)
      ensures old(attempts) <= attempts <= old(attempts) + Allowance(Total(filtered)) - 1
      ensures Uncapped(old(log)) && old(attempts) + Allowance(Total(filtered)) - 1 <= cap ==> Uncapped(log)
      ensures Successes(log) == Successes(old(log)) + built
      ensures old(attempts) <= cap ==> attempts <= cap
      ensures Uncapped(old(log)) && attempts < cap ==> Uncapped(log)
      decreases Total(filtered), 0, 0
    {
      FilledTotal(filtered);
      var p := InSet(served);
      KeepSplitsAll(filtered, p);
      KeptPart(filtered, served);
      var hit := Keep(filtered, p, true);
      if hit == [] {
        assert VacuousBy(world, n, filtered);
        Note(Vacuous(clock, filtered));
        return 1;
      }
      FilledTotal(hit);
      assert ServedBy(world, n, filtered, hit);
      Note(Served(clock, hit));
      var missing := Keep(filtered, p, false);
      if missing == [] {
        return 1;
      }
      FilledTotal(missing);
      var more := Run(missing);
      built := 1 + more;
    }

    /** A failed build is split by host, then by target, while that is worth trying. */
    method Split(n: nat, filtered: seq<Group>, bisect: bool) returns (built: nat)
      requires Accounted(world, log, clock) && Filled(filtered) && filtered != []
      requires world.compile(n, filtered) == Failed(bisect) && AllNeeded(world, clock, filtered)
      modifies this
      ensures Accounted(world, log, clock) && Settles(old(log), log, filtered)
      ensures old(attempts) <= attempts <= old(attempts) + Allowance(Total(filtered)) - 1
      ensures Uncapped(old(log)) && old(attempts) + Allowance(Total(filtered)) - 1 <= cap ==> Uncapped(log)
      ensures Successes(log) == Successes(old(log)) + built
      ensures old(attempts) <= cap ==> attempts <= cap
      ensures Uncapped(old(log)) && attempts < cap ==> Uncapped(log)
      decreases Total(filtered), 0, 0
    {
      FilledTotal(filtered);
      var first := filtered[0];
      if |filtered| > 1 && bisect {
        var middle := |filtered| / 2;
        HalvesFilled(filtered, middle);
        built := RunHalves(filtered[..middle], filtered[middle..]);
      } else if |first.targets| > 1 && bisect {
        var middle := |first.targets| / 2;
        HalveTargets(first, middle);
        assert filtered == [first];
        built := RunHalves([Group(first.key, first.targets[..middle])], [Group(first.key, first.targets[middle..])]);
      } else {
        Refuse(n, filtered);
        built := 0;
      }
    }

    /** Only the first group of a failure that is not split is reported. */
    method Refuse(n: nat, filtered: seq<Group>)
      requires Accounted(world, log, clock) && filtered != [] && AllNeeded(world, clock, filtered)
      requires RejectedBy(world, n, filtered, filtered[..1])
      requires |filtered| > 1 ==> UnreportedBy(world, n, filtered, filtered[1..])
      modifies this`log
      ensures Accounted(world, log, clock) && Settles(old(log), log, filtered)
      ensures Uncapped(old(log)) ==> Uncapped(log)
      ensures Successes(log) == Successes(old(log))
    {
      HeadAndTail(filtered);
      Note(Rejected(clock, filtered[..1]));
      if |filtered| > 1 {
        Note(Unreported(clock, filtered[1..]));
      }
    }

    method RunHalves(a: seq<Group>, b: seq<Group>) returns (built: nat)
      requires Accounted(world, log, clock) && Total(a) >= 1 && Total(b) >= 1
      modifies this
      ensures Accounted(world, log, clock)
      ensures forall t :: Mentions(log, t) == Mentions(old(log), t) + CountIn(a, t) + CountIn(b, t)
      ensures old(attempts) <= attempts <= old(attempts) + Allowance(Total(a)) + Allowance(Total(b))
      ensures Uncapped(old(log)) && old(attempts) + Allowance(Total(a)) + Allowance(Total(b)) <= cap ==> Uncapped(log)
      ensures Successes(log) == Successes(old(log)) + built
      ensures old(attempts) <= cap ==> attempts <= cap
      ensures Uncapped(old(log)) && attempts < cap ==> Uncapped(log)
      decreases Total(a) + Total(b), 0, 0, 0
    {
      var left := Run(a);
      var right := Run(b);
      built := left + right;
    }

    /** The attempts since `a0` stay within what `done` of all targets allow, and the cap. */
    ghost predicate Affords(done: nat, all: nat, earlier: seq<Event>, a0: nat)
      reads this
    {
      && attempts <= a0 + Allowance(done) && (a0 <= cap ==> attempts <= cap)
      && (Uncapped(earlier) && (attempts < cap || a0 + Allowance(all) <= cap) ==> Uncapped(log))
    }

    /** The next chunk, unless a stop is requested. */
    method RunNext(chunks: seq<seq<Group>>, i: nat, ghost earlier: seq<Event>, ghost a0: nat)
      returns (stopped: bool, built: nat)
      requires i < |chunks| && Accounted(world, log, clock)
      requires Affords(Total(Flatten(chunks[..i])), Total(Flatten(chunks)), earlier, a0)
      modifies this
      ensures Accounted(world, log, clock) && Successes(log) == Successes(old(log)) + built
      ensures Settles(old(log), log, if stopped then Flatten(chunks[i..]) else chunks[i])
      ensures Affords(Total(Flatten(chunks[..if stopped then i else i + 1])), Total(Flatten(chunks)), earlier, a0)
    {
      Tick();
      stopped, built := world.stop(clock), 0;
      if stopped {
        Note(Stopped(clock, Flatten(chunks[i..])));
      } else {
        ChunkNext(chunks, i);
        built := Run(chunks[i]);
      }
    }

    /** Run the chunks in turn until a stop is requested. */
    method RunChunks(chunks: seq<seq<Group>>) returns (built: nat)
      requires Accounted(world, log, clock)
      modifies this
      ensures Accounted(world, log, clock) && Settles(old(log), log, Flatten(chunks))
      ensures attempts <= old(attempts) + Allowance(Total(Flatten(chunks)))
      ensures Uncapped(old(log)) && old(attempts) + Allowance(Total(Flatten(chunks))) <= cap ==> Uncapped(log)
      ensures Successes(log) == Successes(old(log)) + built
      ensures old(attempts) <= cap ==> attempts <= cap
      ensures Uncapped(old(log)) && attempts < cap ==> Uncapped(log)
    {
      built := 0;
      var i := 0;
      while i < |chunks|
        invariant i <= |chunks| && Accounted(world, log, clock) && Settles(old(log), log, Flatten(chunks[..i]))
        invariant Affords(Total(Flatten(chunks[..i])), Total(Flatten(chunks)), old(log), old(attempts))
        invariant Successes(log) == Successes(old(log)) + built
      {
        var stopped, n := RunNext(chunks, i, old(log), old(attempts));
        built := built + n;
        if stopped {
          FlattenSplit(chunks, i);
          FlattenGrows(chunks, i);
          return;
        }
        ChunkNext(chunks, i);
        i := i + 1;
      }
      assert chunks[..i] == chunks;
    }

    /** Group, pack and compile: every hosted target is accounted for once, and the cap is
        never reached while the aliases stay within the selection cap of 4096 and the attempt
        cap is the usual 8191. */
    method CompileHosted(hosted: map<nat, Key>) returns (built: nat)
      requires attempts == 0 && log == []
      modifies this
      ensures forall t :: Mentions(log, t) == if t in hosted then 1 else 0
      ensures Accounted(world, log, clock)
      ensures attempts <= Allowance(|hosted|)
      ensures Allowance(|hosted|) <= cap ==> Uncapped(log)
      ensures cap == 8191 && |hosted| <= 4096 ==> Uncapped(log)
      ensures built == Successes(log) && attempts <= cap
      ensures attempts < cap ==> Uncapped(log)
    {
      var groups := GroupByHost(hosted);
      var chunks := Pack(groups);
      built := RunChunks(chunks);
    }
  }

  lemma {:induction false} FlattenSplit(chunks: seq<seq<Group>>, i: nat)
    requires i <= |chunks|
    ensures forall t :: CountIn(Flatten(chunks), t) == CountIn(Flatten(chunks[..i]), t) + CountIn(Flatten(chunks[i..]), t)
    decreases |chunks|
  {
    if i == |chunks| {
      assert chunks[..i] == chunks && chunks[i..] == [];
    } else {
      var m := |chunks| - 1;
      FlattenSplit(chunks[..m], i);
      assert chunks[..m][..i] == chunks[..i];
      assert chunks[i..] == chunks[..m][i..] + [chunks[m]];
      FlattenSnoc(chunks[..m][i..], chunks[m]);
      forall t
        ensures CountIn(Flatten(chunks), t) == CountIn(Flatten(chunks[..i]), t) + CountIn(Flatten(chunks[i..]), t)
      {
        CountAppend(Flatten(chunks[..m]), chunks[m], t);
        CountAppend(Flatten(chunks[..m][i..]), chunks[m], t);
      }
    }
  }

  lemma FlattenNext(chunks: seq<seq<Group>>, i: nat)
    requires i < |chunks|
    ensures Flatten(chunks[..i + 1]) == Flatten(chunks[..i]) + chunks[i]
  {
    assert chunks[..i + 1] == chunks[..i] + [chunks[i]];
    FlattenSnoc(chunks[..i], chunks[i]);
  }

  lemma AllowanceAdds(a: nat, b: nat, whole: nat)
    requires a + b <= whole
    ensures Allowance(a) + Allowance(b) <= Allowance(a + b) <= Allowance(whole)
  {
  }

  lemma CountsAppend(a: seq<Group>, b: seq<Group>)
    ensures forall t :: CountIn(a + b, t) == CountIn(a, t) + CountIn(b, t)
  {
    forall t
      ensures CountIn(a + b, t) == CountIn(a, t) + CountIn(b, t)
    {
      CountAppend(a, b, t);
    }
  }

  lemma ChunkNext(chunks: seq<seq<Group>>, i: nat)
    requires i < |chunks|
    ensures var t, a := Total(Flatten(chunks[..i + 1])), Total(Flatten(chunks[..i]));
            && t == a + Total(chunks[i]) <= Total(Flatten(chunks))
            && Allowance(a) + Allowance(Total(chunks[i])) <= Allowance(t) <= Allowance(Total(Flatten(chunks)))
    ensures forall t :: CountIn(Flatten(chunks[..i + 1]), t) == CountIn(Flatten(chunks[..i]), t) + CountIn(chunks[i], t)
  {
    var done := Flatten(chunks[..i]);
    FlattenNext(chunks, i);
    TotalAppend(done, chunks[i]);
    FlattenGrows(chunks, i + 1);
    AllowanceAdds(Total(done), Total(chunks[i]), Total(Flatten(chunks)));
    CountsAppend(done, chunks[i]);
  }

  lemma {:induction false} FlattenGrows(chunks: seq<seq<Group>>, i: nat)
    requires i <= |chunks|
    ensures Total(Flatten(chunks[..i])) <= Total(Flatten(chunks))
    decreases |chunks|
  {
    if i == |chunks| {
      assert chunks[..i] == chunks;
    } else {
      var m := |chunks| - 1;
      FlattenGrows(chunks[..m], i);
      assert chunks[..m][..i] == chunks[..i];
      TotalAppend(Flatten(chunks[..m]), chunks[m]);
    }
  }
}
