/** Hosted interior demands: which nominated targets have exactly one local owner.  One
    sweep over owners sorted by start replaces a search of all owners for every target. */
module OwnerSweep {
  import opened Options
  import opened Segments
  import opened SortedSets

  const NOMINATION_CAP := 4096
  const ALIAS_CAP := 4096
  const HOST_CAP := 512
  const REASONS := 8      // the trusted root reasons, numbered by priority

  datatype Identity = Identity(entry: nat, crc: nat, ranges: seq<Span>)
  datatype Span = Span(start: nat, length: int)

  datatype Producer = Image(lo: nat, hi: int) | Part(index: nat, lo: nat, hi: int)

  /** The recipient: its segment, image, producer parts and local root evidence. */
  datatype Job = Job(seg: nat, load: nat, size: nat, parts: seq<(nat, int)>, reasons: map<nat, set<nat>>)

  datatype Owner = Owner(start: nat, end: int, producer: Producer, identity: Identity, reason: nat)

  function Canonical(seg: nat, a: nat): nat {
    seg + Phys(a)
  }

  function CanonicalSpans(seg: nat, spans: seq<Span>): seq<Span> {
    seq(|spans|, i requires 0 <= i < |spans| => spans[i].(start := Canonical(seg, spans[i].start)))
  }

  function Normalized(seg: nat, id: Identity): Identity {
    Identity(Canonical(seg, id.entry), id.crc % 0x1_0000_0000, CanonicalSpans(seg, id.ranges))
  }

  // ----- Producers, reasons and owners -------------------------------------------------------

  /** The first part that holds a physical address. */
  function FirstPart(parts: seq<(nat, int)>, i: nat, phys: nat): Option<Producer>
    requires i <= |parts|
    decreases |parts| - i
  {
    if i == |parts| then None
    else
      var lo := Phys(parts[i].0);
      var hi := lo + (parts[i].1 - parts[i].0);
      if lo <= phys < hi then Some(Part(i, lo, hi)) else FirstPart(parts, i + 1, phys)
  }

  function ProducerOf(job: Job, a: nat): Option<Producer> {
    if job.parts == [] then
      var lo := Phys(job.load);
      if lo <= Phys(a) < lo + job.size then Some(Image(lo, lo + job.size)) else None
    else FirstPart(job.parts, 0, Phys(a))
  }

  /** The trusted reason of highest priority, if any. */
  function Preferred(reasons: set<nat>): (r: Option<nat>)
    ensures r.None? <==> forall x :: x in reasons ==> x >= 8
    ensures r.Some? ==> r.value < 8 && r.value in reasons && forall x :: x in reasons ==> r.value <= x
  {
    var trusted := set x | x in reasons && x < REASONS;
    if trusted == {} then
      assert forall x :: x in reasons && x < REASONS ==> x in trusted;
      None
    else
      var best := Least(trusted);
      assert best in reasons && forall x :: x in reasons && x < REASONS ==> x in trusted;
      Some(best)
  }

  /** The owner an identity makes: locally rooted, one range from its entry, inside its
      producer. */
  function OwnerOf(job: Job, id: Identity): Option<Owner> {
    var reason := Preferred(if id.entry in job.reasons then job.reasons[id.entry] else {});
    if reason.None? || |id.ranges| != 1 then None
    else
      var span := id.ranges[0];
      if span.start != id.entry || span.length <= 0 then None
      else
        var producer, end := ProducerOf(job, id.entry), span.start + span.length;
        if producer.None? || Phys(end) > producer.value.hi then None
        else Some(Owner(span.start, end, producer.value, id, reason.value))
  }

  // ----- What these mean ----------------------------------------------------------------------

  predicate Within(part: (nat, int), a: nat) {
    part.0 % 0x2000_0000 <= a % 0x2000_0000 < part.0 % 0x2000_0000 + (part.1 - part.0)
  }

  /** The producer of an address is the whole image, or the first part that holds it. */
  lemma ProducerExact(job: Job, a: nat)
    ensures var p := ProducerOf(job, a);
            if job.parts == [] then
              && (p.Some? <==> Within((job.load, job.load + job.size), a))
              && (p.Some? ==> p.value.Image?)
            else
              && (p.None? <==> forall i :: 0 <= i < |job.parts| ==> !Within(job.parts[i], a))
              && (p.Some? ==>
                    && p.value.Part? && p.value.index < |job.parts| && Within(job.parts[p.value.index], a)
                    && forall j :: 0 <= j < p.value.index ==> !Within(job.parts[j], a))
    ensures var p := ProducerOf(job, a); p.Some? ==> p.value.lo <= a % 0x2000_0000 < p.value.hi
  {
    if job.parts != [] {
      FirstPartExact(job.parts, 0, a);
    }
  }

  lemma {:induction false} FirstPartExact(parts: seq<(nat, int)>, i: nat, a: nat)
    requires i <= |parts|
    ensures var p := FirstPart(parts, i, Phys(a));
            && (p.None? <==> forall j :: i <= j < |parts| ==> !Within(parts[j], a))
            && (p.Some? ==>
                  && p.value.Part? && i <= p.value.index < |parts| && Within(parts[p.value.index], a)
                  && (forall j :: i <= j < p.value.index ==> !Within(parts[j], a))
                  && p.value.lo <= Phys(a) < p.value.hi)
    decreases |parts| - i
  {
    if i < |parts| {
      FirstPartExact(parts, i + 1, a);
    }
  }

  /** A normalized identity is the same one, spelled in the segment. */
  lemma NormalizedMeans(seg: nat, id: Identity)
    requires seg % 0x2000_0000 == 0
    ensures var n := Normalized(seg, id);
            && SameIn(seg, id.entry, n.entry) && n.crc < 0x1_0000_0000 && (id.crc < 0x1_0000_0000 ==> n.crc == id.crc)
            && |n.ranges| == |id.ranges|
            && forall i :: 0 <= i < |id.ranges| ==>
                 SameIn(seg, id.ranges[i].start, n.ranges[i].start) && n.ranges[i].length == id.ranges[i].length
  {
    Respells(seg, id.entry);
    forall i | 0 <= i < |id.ranges|
      ensures SameIn(seg, id.ranges[i].start, Normalized(seg, id).ranges[i].start)
    {
      Respells(seg, id.ranges[i].start);
    }
  }

  predicate SameIn(seg: nat, a: nat, b: nat) {
    b % 0x2000_0000 == a % 0x2000_0000 && b / 0x2000_0000 == seg / 0x2000_0000
  }

  lemma Respells(seg: nat, a: nat)
    requires seg % 0x2000_0000 == 0
    ensures SameIn(seg, a, Canonical(seg, a))
  {
    assert seg == 0x2000_0000 * (seg / 0x2000_0000);
  }

  // ----- The definition ----------------------------------------------------------------------

  /** Aligned, inside the image and inside a producer. */
  predicate Placed(job: Job, t: nat) {
    && t % 4 == 0 && Phys(job.load) <= Phys(t) < Phys(job.load) + job.size
    && ProducerOf(job, t).Some?
  }

  /** The owner's range strictly contains the target and both have one producer. */
  predicate Contains(job: Job, o: Owner, t: nat) {
    o.start < t < o.end && ProducerOf(job, t) == Some(o.producer)
  }

  ghost predicate Claims(job: Job, id: Identity, t: nat) {
    OwnerOf(job, id).Some? && Contains(job, OwnerOf(job, id).value, t)
  }

  /** An identity claims a target exactly when it has a trusted local reason and one range,
      which starts at its entry, ends within its producer and strictly contains the target,
      and the target has the same producer. */
  lemma ClaimsExactly(job: Job, id: Identity, t: nat)
    ensures Claims(job, id, t) <==>
              && |id.ranges| == 1 && id.ranges[0].start == id.entry < t < id.entry + id.ranges[0].length
              && id.entry in job.reasons && (exists r :: r in job.reasons[id.entry] && r < 8)
              && ProducerOf(job, t) == ProducerOf(job, id.entry) && ProducerOf(job, t).Some?
              && (id.entry + id.ranges[0].length) % 0x2000_0000 <= ProducerOf(job, t).value.hi
  {
  }

  /** `o` is made by the only identity that claims `t`. */
  ghost predicate SoleOwner(job: Job, ids: set<Identity>, t: nat, o: Owner) {
    && o.identity in ids && OwnerOf(job, o.identity) == Some(o)
    && forall id :: id in ids ==> (Claims(job, id, t) <==> id == o.identity)
  }

  /** A nominated address that has a donor and lies in place, once spelled in the segment. */
  predicate Considered(job: Job, donors: map<nat, bool>, raw: nat) {
    raw in donors && donors[raw] && Placed(job, Canonical(job.seg, raw))
  }

  lemma ConsideredExactly(job: Job, donors: map<nat, bool>, raw: nat)
    requires job.seg % 0x2000_0000 == 0
    ensures Considered(job, donors, raw) <==>
              && raw in donors && donors[raw] && raw % 4 == 0
              && job.load % 0x2000_0000 <= raw % 0x2000_0000 < job.load % 0x2000_0000 + job.size
              && ProducerOf(job, raw).Some?
  {
    Respells(job.seg, raw);
    RespelledAligned(job.seg, raw);
    SameProducer(job, raw, Canonical(job.seg, raw));
  }

  lemma RespelledAligned(seg: nat, raw: nat)
    requires seg % 0x2000_0000 == 0
    ensures Canonical(seg, raw) % 4 == 0 <==> raw % 4 == 0
  {
    SegmentsAway(seg + Phys(raw), Phys(raw), seg / SEGMENT_SIZE);
    SegmentsAway(raw, Phys(raw), raw / SEGMENT_SIZE);
  }

  lemma SegmentsAway(a: nat, b: nat, k: nat)
    requires a == b + SEGMENT_SIZE * k
    ensures a % 4 == b % 4
  {
    FoursAway(a, b, 0x800_0000 * k);
  }

  lemma FoursAway(a: nat, b: nat, q: nat)
    requires a == b + 4 * q
    ensures a % 4 == b % 4
  {
  }

  lemma SameProducer(job: Job, a: nat, b: nat)
    requires Phys(a) == Phys(b)
    ensures ProducerOf(job, a) == ProducerOf(job, b)
  {
  }

  /** `t` is the spelling of a nominated address that is considered. */
  ghost predicate Wanted(job: Job, donors: map<nat, bool>, raws: seq<nat>, t: nat) {
    exists raw :: raw in raws && Considered(job, donors, raw) && Canonical(job.seg, raw) == t
  }

  ghost predicate Selected(job: Job, donors: map<nat, bool>, ids: set<Identity>, raws: seq<nat>, t: nat, o: Owner) {
    Wanted(job, donors, raws, t) && SoleOwner(job, ids, t, o)
  }

  /** Respelling keeps the order of what is considered. */
  predicate InOrder(job: Job, donors: map<nat, bool>, raws: seq<nat>) {
    forall i, j :: 0 <= i < j < |raws| && Considered(job, donors, raws[i]) && Considered(job, donors, raws[j]) ==>
                     Canonical(job.seg, raws[i]) <= Canonical(job.seg, raws[j])
  }

  /** Addresses that one segment spells are in order, whichever segment that is. */
  lemma OneSegmentInOrder(job: Job, donors: map<nat, bool>, raws: seq<nat>, seg: nat)
    requires Ascending(raws) && forall raw :: raw in raws ==> InSegment(seg, raw)
    ensures InOrder(job, donors, raws)
  {
    forall i, j | 0 <= i < j < |raws|
      ensures Canonical(job.seg, raws[i]) <= Canonical(job.seg, raws[j])
    {
      PhysIs(seg, raws[i]);
      PhysIs(seg, raws[j]);
    }
  }

  // ----- Lists of owners ----------------------------------------------------------------------

  predicate SortedByStart(os: seq<Owner>) {
    forall i, j :: 0 <= i < j < |os| ==> os[i].start <= os[j].start
  }

  predicate Distinct(os: seq<Owner>) {
    forall i, j :: 0 <= i < j < |os| ==> os[i] != os[j]
  }

  lemma FirstBefore(first: Owner, rest: seq<Owner>)
    requires SortedByStart(rest) && Distinct(rest) && forall x :: x in rest ==> first != x && first.start <= x.start
    ensures SortedByStart([first] + rest) && Distinct([first] + rest)
  {
    assert forall i :: 0 <= i < |rest| ==> rest[i] in rest;
  }

  function Insert(os: seq<Owner>, o: Owner): (r: seq<Owner>)
    requires SortedByStart(os) && Distinct(os) && o !in os
    ensures SortedByStart(r) && Distinct(r)
    ensures forall x :: x in r <==> x in os || x == o
  {
    if os == [] then [o]
    else if o.start <= os[0].start then [o] + os
    else
      var rest := Insert(os[1..], o);
      assert forall x :: x in os[1..] ==> os[0] != x && os[0].start <= x.start;
      FirstBefore(os[0], rest);
      [os[0]] + rest
  }

  /** The owners the identities make. */
  ghost predicate OwnersOf(job: Job, ids: set<Identity>, os: seq<Owner>) {
    forall o :: o in os <==> o.identity in ids && OwnerOf(job, o.identity) == Some(o)
  }

  method ListOwners(job: Job, ids: set<Identity>) returns (os: seq<Owner>)
    ensures SortedByStart(os) && Distinct(os) && OwnersOf(job, ids, os)
  {
    os := [];
    var rest := ids;
    while rest != {}
      invariant rest <= ids && SortedByStart(os) && Distinct(os) && OwnersOf(job, ids - rest, os)
      decreases rest
    {
      var id :| id in rest;
      var o := OwnerOf(job, id);
      if o.Some? {
        os := Insert(os, o.value);
      }
      rest := rest - {id};
    }
    assert ids - rest == ids;
  }

  /** Owners that reach beyond the target. */
  function Ending(os: seq<Owner>, t: nat): (r: seq<Owner>)
    ensures forall o :: o in r <==> o in os && o.end > t
    ensures Distinct(os) ==> Distinct(r)
  {
    if os == [] then []
    else
      var rest := Ending(os[1..], t);
      assert Distinct(os) ==> os[0] !in rest;
      if os[0].end > t then [os[0]] + rest else rest
  }

  function From(os: seq<Owner>, p: Producer): (r: seq<Owner>)
    ensures forall o :: o in r <==> o in os && o.producer == p
    ensures Distinct(os) ==> Distinct(r)
  {
    if os == [] then []
    else
      var rest := From(os[1..], p);
      assert Distinct(os) ==> os[0] !in rest;
      if os[0].producer == p then [os[0]] + rest else rest
  }

  // ----- The sweep -------------------------------------------------------------------------------

  /** The active list after handling target `bar`: started below it, and not yet ended. */
  ghost predicate Active(os: seq<Owner>, next: nat, active: seq<Owner>, bar: int) {
    && next <= |os| && Distinct(active)
    && (forall o :: o in active <==> o in os[..next] && o.end > bar)
    && forall o :: o in os[..next] ==> o.start < bar
  }

  /** Where the owners end that start below the target, from the `next`-th on. */
  function Starting(os: seq<Owner>, next: nat, t: nat): (end: nat)
    requires next <= |os|
    ensures next <= end <= |os| && (forall i :: next <= i < end ==> os[i].start < t)
    ensures end < |os| ==> os[end].start >= t
    decreases |os| - next
  {
    if next < |os| && os[next].start < t then Starting(os, next + 1, t) else next
  }

  function Brought(os: seq<Owner>, next: nat, active: seq<Owner>, t: nat): seq<Owner>
    requires next <= |os|
  {
    Ending(active + os[next..Starting(os, next, t)], t)
  }

  /** Bring the active list to a target. */
  method Advance(os: seq<Owner>, next: nat, active: seq<Owner>, t: nat) returns (next': nat, active': seq<Owner>)
    requires next <= |os|
    ensures next' == Starting(os, next, t) && active' == Brought(os, next, active, t)
  {
    next', active' := next, active;
    while next' < |os| && os[next'].start < t
      invariant next <= next' <= |os| && active' == active + os[next..next']
      invariant Starting(os, next, t) == Starting(os, next', t)
    {
      assert os[next..next' + 1] == os[next..next'] + [os[next']];
      active' := active' + [os[next']];
      next' := next' + 1;
    }
    active' := Ending(active', t);
  }

  /** For a target not below the last one, these are the owners whose range strictly contains
      it. */
  lemma AdvanceExact(os: seq<Owner>, next: nat, active: seq<Owner>, bar: int, t: nat)
    requires SortedByStart(os) && Distinct(os) && Active(os, next, active, bar) && bar <= t
    ensures Active(os, Starting(os, next, t), Brought(os, next, active, t), t)
    ensures forall o :: o in Brought(os, next, active, t) <==> o in os && o.start < t < o.end
  {
    var end := Starting(os, next, t);
    DistinctJoin(os, next, end, active);
    AllStarted(os, next, t, bar);
    LaterStart(os, end, t);
    forall o
      ensures o in Brought(os, next, active, t) <==> o in os[..end] && o.end > t
    {
      BroughtMember(os, next, active, bar, t, o);
    }
  }

  lemma AllStarted(os: seq<Owner>, next: nat, t: nat, bar: int)
    requires next <= |os| && bar <= t && forall o :: o in os[..next] ==> o.start < bar
    ensures forall o :: o in os[..Starting(os, next, t)] ==> o.start < t
  {
    var end := Starting(os, next, t);
    forall o | o in os[..end]
      ensures o.start < t
    {
      var i :| 0 <= i < end && os[i] == o;
      assert i < next ==> os[i] in os[..next];
    }
  }

  lemma BroughtMember(os: seq<Owner>, next: nat, active: seq<Owner>, bar: int, t: nat, o: Owner)
    requires next <= |os| && bar <= t && (forall x :: x in active <==> x in os[..next] && x.end > bar)
    ensures o in Brought(os, next, active, t) <==> o in os[..Starting(os, next, t)] && o.end > t
  {
    var end := Starting(os, next, t);
    assert os[..end] == os[..next] + os[next..end];
  }

  lemma DistinctJoin(os: seq<Owner>, next: nat, end: nat, active: seq<Owner>)
    requires Distinct(os) && Distinct(active) && next <= end <= |os| && forall o :: o in active ==> o in os[..next]
    ensures Distinct(active + os[next..end])
  {
    var added := os[next..end];
    forall i, j | 0 <= i < |active| && 0 <= j < |added|
      ensures active[i] != added[j]
    {
      assert active[i] in os[..next];
      var k :| 0 <= k < next && os[k] == active[i];
      assert added[j] == os[next + j];
    }
  }

  lemma LaterStart(os: seq<Owner>, i: nat, t: nat)
    requires SortedByStart(os) && i <= |os| && (i < |os| ==> os[i].start >= t)
    ensures forall o :: o in os && o.start < t ==> o in os[..i]
  {
    forall o | o in os && o.start < t
      ensures o in os[..i]
    {
      var j :| 0 <= j < |os| && os[j] == o;
      assert j < i;
      assert os[..i][j] == o;
    }
  }

  /** One candidate, exactly when one identity claims the target. */
  lemma CandidatesDecide(job: Job, ids: set<Identity>, os: seq<Owner>, cands: seq<Owner>, t: nat)
    requires OwnersOf(job, ids, os) && Distinct(cands)
    requires forall o :: o in cands <==> o in os && Contains(job, o, t)
    ensures |cands| == 1 ==> SoleOwner(job, ids, t, cands[0])
    ensures forall o :: SoleOwner(job, ids, t, o) ==> |cands| == 1 && o == cands[0]
  {
    if |cands| == 1 {
      assert cands[0] in cands;
      forall id | id in ids && Claims(job, id, t)
        ensures id == cands[0].identity
      {
        assert OwnerOf(job, id).value in cands;
      }
    }
    forall o | SoleOwner(job, ids, t, o)
      ensures |cands| == 1 && o == cands[0]
    {
      assert Claims(job, o.identity, t);
      assert o in cands;
      forall i | 0 <= i < |cands|
        ensures cands[i] == o
      {
        assert cands[i] in cands;
        assert Claims(job, cands[i].identity, t);
      }
      var last := cands[|cands| - 1];
      assert cands[0] == last;
    }
  }

  /** The map the sweep has built from the first nominations. */
  ghost predicate Built(job: Job, donors: map<nat, bool>, ids: set<Identity>, raws: seq<nat>, selected: map<nat, Owner>) {
    && (forall t :: t in selected ==> Selected(job, donors, ids, raws, t, selected[t]))
    && forall t, o :: Selected(job, donors, ids, raws, t, o) ==> t in selected
  }

  lemma WantedSnoc(job: Job, donors: map<nat, bool>, raws: seq<nat>, raw: nat, t: nat)
    ensures Wanted(job, donors, raws + [raw], t) <==>
              Wanted(job, donors, raws, t) || (Considered(job, donors, raw) && Canonical(job.seg, raw) == t)
  {
    assert forall x :: x in raws + [raw] <==> x in raws || x == raw;
  }

  lemma BuiltSnoc(job: Job, donors: map<nat, bool>, ids: set<Identity>, raws: seq<nat>, raw: nat,
                  selected: map<nat, Owner>, found: Option<Owner>)
    requires Built(job, donors, ids, raws, selected)
    requires found.Some? ==> Considered(job, donors, raw) && SoleOwner(job, ids, Canonical(job.seg, raw), found.value)
    requires found.None? && Considered(job, donors, raw) ==> forall o :: !SoleOwner(job, ids, Canonical(job.seg, raw), o)
    ensures Built(job, donors, ids, raws + [raw],
                  if found.Some? then selected[Canonical(job.seg, raw) := found.value] else selected)
  {
    forall t
      ensures Wanted(job, donors, raws + [raw], t) <==>
                Wanted(job, donors, raws, t) || (Considered(job, donors, raw) && Canonical(job.seg, raw) == t)
    {
      WantedSnoc(job, donors, raws, raw, t);
    }
    forall t, o | Selected(job, donors, ids, raws + [raw], t, o)
      ensures t in selected || (found.Some? && t == Canonical(job.seg, raw))
    {
      assert Wanted(job, donors, raws, t) ==> Selected(job, donors, ids, raws, t, o);
    }
  }

  /** No nomination still to come lies below the last one considered. */
  ghost predicate Ahead(job: Job, donors: map<nat, bool>, raws: seq<nat>, bar: int) {
    forall raw :: raw in raws && Considered(job, donors, raw) ==> bar <= Canonical(job.seg, raw)
  }

  lemma AheadOf(job: Job, donors: map<nat, bool>, raws: seq<nat>, k: nat)
    requires InOrder(job, donors, raws) && k < |raws| && Considered(job, donors, raws[k])
    ensures Ahead(job, donors, raws[k + 1..], Canonical(job.seg, raws[k]))
  {
    forall raw | raw in raws[k + 1..] && Considered(job, donors, raw)
      ensures Canonical(job.seg, raws[k]) <= Canonical(job.seg, raw)
    {
      var i :| 0 <= i < |raws[k + 1..]| && raws[k + 1..][i] == raw;
      var j := k + 1 + i;
      assert raws[j] == raw;
    }
  }

  /** Where a sweep stands. */
  datatype Pass = Pass(next: nat, active: seq<Owner>, selected: map<nat, Owner>)

  /** The one candidate for a target, if there is just one. */
  function Candidate(job: Job, active: seq<Owner>, t: nat): Option<Owner>
    requires ProducerOf(job, t).Some?
  {
    var cands := From(active, ProducerOf(job, t).value);
    if |cands| == 1 then Some(cands[0]) else None
  }

  function Visit(job: Job, donors: map<nat, bool>, os: seq<Owner>, p: Pass, raw: nat): (r: Pass)
    requires p.next <= |os|
    ensures r.next <= |os|
  {
    if !Considered(job, donors, raw) then p
    else
      var t := Canonical(job.seg, raw);
      var active := Brought(os, p.next, p.active, t);
      var found := Candidate(job, active, t);
      Pass(Starting(os, p.next, t), active, if found.Some? then p.selected[t := found.value] else p.selected)
  }

  /** The sweep over the nominations in turn. */
  function Swept(job: Job, donors: map<nat, bool>, os: seq<Owner>, raws: seq<nat>): (r: Pass)
    ensures r.next <= |os|
    decreases |raws|
  {
    if raws == [] then Pass(0, [], map[])
    else Visit(job, donors, os, Swept(job, donors, os, raws[..|raws| - 1]), raws[|raws| - 1])
  }

  lemma SweptSnoc(job: Job, donors: map<nat, bool>, os: seq<Owner>, raws: seq<nat>, k: nat)
    requires k < |raws|
    ensures raws[..k + 1] == raws[..k] + [raws[k]]
    ensures Swept(job, donors, os, raws[..k + 1]) == Visit(job, donors, os, Swept(job, donors, os, raws[..k]), raws[k])
  {
    assert raws[..k + 1][..k] == raws[..k];
  }

  /** Sweep the nominations over the owners in order of their start. */
  method Sweep(job: Job, donors: map<nat, bool>, raws: seq<nat>, os: seq<Owner>) returns (selected: map<nat, Owner>)
    ensures selected == Swept(job, donors, os, raws).selected
  {
    selected := map[];
    var active: seq<Owner>, next: nat := [], 0;
    for k := 0 to |raws|
      invariant Swept(job, donors, os, raws[..k]) == Pass(next, active, selected)
    {
      SweptSnoc(job, donors, os, raws, k);
      if Considered(job, donors, raws[k]) {
        var t := Canonical(job.seg, raws[k]);
        next, active := Advance(os, next, active, t);
        var cands := From(active, ProducerOf(job, t).value);
        if |cands| == 1 {
          selected := selected[t := cands[0]];
        }
      }
    }
    assert raws[..|raws|] == raws;
  }

  /** In order, the sweep keeps the active list and the map right. */
  lemma {:induction false} SweptInOrder(job: Job, donors: map<nat, bool>, ids: set<Identity>, raws: seq<nat>, os: seq<Owner>,
                                        k: nat) returns (bar: int)
    requires SortedByStart(os) && Distinct(os) && OwnersOf(job, ids, os) && InOrder(job, donors, raws) && k <= |raws|
    ensures var p := Swept(job, donors, os, raws[..k]);
            && Active(os, p.next, p.active, bar) && Ahead(job, donors, raws[k..], bar)
            && Built(job, donors, ids, raws[..k], p.selected)
    decreases k
  {
    if k == 0 {
      bar := -1;
    } else {
      var n := k - 1;
      bar := SweptInOrder(job, donors, ids, raws, os, n);
      SweptSnoc(job, donors, os, raws, n);
      assert raws[n..] == [raws[n]] + raws[k..];
      var p := Swept(job, donors, os, raws[..n]);
      VisitInOrder(job, donors, ids, raws[..n], raws[n], os, p, bar);
      if Considered(job, donors, raws[n]) {
        AheadOf(job, donors, raws, n);
        bar := Canonical(job.seg, raws[n]);
      }
    }
  }

  lemma VisitInOrder(job: Job, donors: map<nat, bool>, ids: set<Identity>, raws: seq<nat>, raw: nat, os: seq<Owner>, p: Pass,
                     bar: int)
    requires SortedByStart(os) && Distinct(os) && OwnersOf(job, ids, os) && Active(os, p.next, p.active, bar)
    requires Built(job, donors, ids, raws, p.selected)
    requires Considered(job, donors, raw) ==> bar <= Canonical(job.seg, raw)
    ensures var n := Visit(job, donors, os, p, raw);
            && Built(job, donors, ids, raws + [raw], n.selected)
            && Active(os, n.next, n.active, if Considered(job, donors, raw) then Canonical(job.seg, raw) else bar)
  {
    var found := None;
    if Considered(job, donors, raw) {
      var t := Canonical(job.seg, raw);
      var active := Brought(os, p.next, p.active, t);
      AdvanceExact(os, p.next, p.active, bar, t);
      CandidatesDecide(job, ids, os, From(active, ProducerOf(job, t).value), t);
      found := Candidate(job, active, t);
    }
    BuiltSnoc(job, donors, ids, raws, raw, p.selected, found);
  }

  /** The sweep maps exactly the targets that one identity claims. */
  ghost predicate SelectsExactly(job: Job, donors: map<nat, bool>, ids: set<Identity>, raws: seq<nat>) {
    forall os :: SortedByStart(os) && Distinct(os) && OwnersOf(job, ids, os) ==>
                   Built(job, donors, ids, raws, Swept(job, donors, os, raws).selected)
  }

  lemma InOrderExact(job: Job, donors: map<nat, bool>, ids: set<Identity>, raws: seq<nat>)
    requires InOrder(job, donors, raws)
    ensures SelectsExactly(job, donors, ids, raws)
  {
    forall os | SortedByStart(os) && Distinct(os) && OwnersOf(job, ids, os)
      ensures Built(job, donors, ids, raws, Swept(job, donors, os, raws).selected)
    {
      var bar := SweptInOrder(job, donors, ids, raws, os, |raws|);
      assert raws[..|raws|] == raws;
    }
  }

  // ----- Out of order ----------------------------------------------------------------------------

  lemma {:induction false} SweptKeeps(job: Job, donors: map<nat, bool>, os: seq<Owner>, raws: seq<nat>, k: nat, l: nat, t: nat)
    requires k <= l <= |raws| && t in Swept(job, donors, os, raws[..k]).selected
    ensures t in Swept(job, donors, os, raws[..l]).selected
    decreases l
  {
    if k < l {
      var n := l - 1;
      SweptKeeps(job, donors, os, raws, k, n, t);
      SweptSnoc(job, donors, os, raws, n);
    }
  }

  lemma OneStarts(o: Owner, next: nat, t: nat)
    requires next <= 1
    ensures Starting([o], next, t) == if next == 1 || o.start < t then 1 else 0
    ensures next == 0 ==> [o][0..1] == [o] && [o][0..0] == []
    ensures next == 1 ==> [o][1..1] == []
  {
  }

  /** A single owner that reaches beyond every target: active once a target passed its start. */
  lemma VisitOne(job: Job, donors: map<nat, bool>, o: Owner, p: Pass, raw: nat)
    requires p.next <= 1 && p.active == [o][..p.next] && o.end >= job.seg + SEGMENT_SIZE
    ensures var n := Visit(job, donors, [o], p, raw);
            && n.next <= 1 && p.next <= n.next && n.active == [o][..n.next]
            && (Considered(job, donors, raw) && o.start < Canonical(job.seg, raw) ==> n.next == 1)
  {
    if Considered(job, donors, raw) {
      var t := Canonical(job.seg, raw);
      OneStarts(o, p.next, t);
      var end := Starting([o], p.next, t);
      assert p.active + [o][p.next..end] == [o][..end];
      assert end == 1 ==> [o][..end] == [o];
      assert Ending([o][..end], t) == [o][..end];
    }
  }

  lemma {:induction false} SweptOne(job: Job, donors: map<nat, bool>, o: Owner, raws: seq<nat>, k: nat)
    requires k <= |raws| && o.end >= job.seg + SEGMENT_SIZE
    ensures var p := Swept(job, donors, [o], raws[..k]);
            && p.next <= 1 && p.active == [o][..p.next]
            && forall i :: 0 <= i < k && Considered(job, donors, raws[i]) && o.start < Canonical(job.seg, raws[i]) ==> p.next == 1
    decreases k
  {
    if k > 0 {
      var n := k - 1;
      SweptOne(job, donors, o, raws, n);
      SweptSnoc(job, donors, [o], raws, n);
      VisitOne(job, donors, o, Swept(job, donors, [o], raws[..n]), raws[n]);
    }
  }

  /** A target behind one already met takes an owner that starts at it. */
  lemma TakesWrongOwner(job: Job, donors: map<nat, bool>, o: Owner, raws: seq<nat>, i: nat, j: nat)
    requires i < j < |raws| && Considered(job, donors, raws[i]) && Considered(job, donors, raws[j])
    requires o.start == Canonical(job.seg, raws[j]) < Canonical(job.seg, raws[i])
    requires o.end >= job.seg + SEGMENT_SIZE && ProducerOf(job, o.start) == Some(o.producer)
    ensures o.start in Swept(job, donors, [o], raws).selected
  {
    var p, t := Swept(job, donors, [o], raws[..j]), o.start;
    SweptOne(job, donors, o, raws, j);
    SweptSnoc(job, donors, [o], raws, j);
    OneStarts(o, 1, t);
    assert p.active + [o][1..1] == [o];
    OneCandidate(job, o, t);
    SweptKeeps(job, donors, [o], raws, j + 1, |raws|, t);
    assert raws[..|raws|] == raws;
  }

  lemma OneCandidate(job: Job, o: Owner, t: nat)
    requires o.end > t && ProducerOf(job, t) == Some(o.producer)
    ensures Ending([o], t) == [o] && From([o], o.producer) == [o] && Candidate(job, [o], t) == Some(o)
  {
    assert [o][1..] == [];
  }

  /** An identity rooted at the target that reaches to the end of the segment. */
  function Straddler(seg: nat, t: nat): Identity {
    Identity(t, 0, [Span(t, seg + SEGMENT_SIZE - t)])
  }

  lemma {:induction false} PartHolds(parts: seq<(nat, int)>, i: nat, phys: nat)
    requires i <= |parts| && FirstPart(parts, i, phys).Some?
    ensures phys < FirstPart(parts, i, phys).value.hi
    decreases |parts| - i
  {
    var lo := Phys(parts[i].0);
    if !(lo <= phys < lo + (parts[i].1 - parts[i].0)) {
      PartHolds(parts, i + 1, phys);
    }
  }

  /** With local evidence for its root it is an owner. */
  lemma StraddlerOwns(job: Job, t: nat) returns (o: Owner)
    requires InSegment(job.seg, t) && ProducerOf(job, t).Some? && job.reasons == map[t := {0}]
    ensures OwnersOf(job, {Straddler(job.seg, t)}, [o]) && OwnerOf(job, Straddler(job.seg, t)) == Some(o)
    ensures o.start == t && o.end == job.seg + SEGMENT_SIZE && ProducerOf(job, t) == Some(o.producer)
  {
    if job.parts != [] {
      PartHolds(job.parts, 0, Phys(t));
    }
    assert Phys(job.seg + SEGMENT_SIZE) == 0;
    assert Preferred({0}) == Some(0);
    o := OwnerOf(job, Straddler(job.seg, t)).value;
  }

  /** Two targets out of order, and that identity alone: the sweep selects the lower target,
      which nothing contains. */
  lemma InversionMisleads(job: Job, donors: map<nat, bool>, raws: seq<nat>, i: nat, j: nat, t: nat)
    requires job.seg % SEGMENT_SIZE == 0 && i < j < |raws|
    requires Considered(job, donors, raws[i]) && Considered(job, donors, raws[j])
    requires t == Canonical(job.seg, raws[j]) < Canonical(job.seg, raws[i]) && job.reasons == map[t := {0}]
    ensures !SelectsExactly(job, donors, {Straddler(job.seg, t)}, raws)
  {
    var ids := {Straddler(job.seg, t)};
    var o := StraddlerOwns(job, t);
    var os := [o];
    TakesWrongOwner(job, donors, o, raws, i, j);
    assert !Claims(job, Straddler(job.seg, t), t);
    assert forall x :: !SoleOwner(job, ids, t, x);
    assert !Built(job, donors, ids, raws, Swept(job, donors, os, raws).selected);
    assert SortedByStart(os) && Distinct(os);
  }

  /** Whatever the local evidence and the identities, the sweep is exact if and only if
      respelling keeps the order of what is considered. */
  lemma SweepExactly(job: Job, donors: map<nat, bool>, raws: seq<nat>)
    requires job.seg % SEGMENT_SIZE == 0
    ensures InOrder(job, donors, raws) <==>
              forall reasons, ids :: SelectsExactly(job.(reasons := reasons), donors, ids, raws)
  {
    if InOrder(job, donors, raws) {
      forall reasons, ids
        ensures SelectsExactly(job.(reasons := reasons), donors, ids, raws)
      {
        SameOrder(job, donors, raws, reasons);
        InOrderExact(job.(reasons := reasons), donors, ids, raws);
      }
    } else {
      var i, j :| 0 <= i < j < |raws| && Considered(job, donors, raws[i]) && Considered(job, donors, raws[j])
                  && Canonical(job.seg, raws[j]) < Canonical(job.seg, raws[i]);
      var t := Canonical(job.seg, raws[j]);
      var reasons := map[t := {0}];
      InversionMisleads(job.(reasons := reasons), donors, raws, i, j, t);
    }
  }

  lemma SameOrder(job: Job, donors: map<nat, bool>, raws: seq<nat>, reasons: map<nat, set<nat>>)
    requires InOrder(job, donors, raws)
    ensures InOrder(job.(reasons := reasons), donors, raws)
  {
    forall raw
      ensures Considered(job.(reasons := reasons), donors, raw) == Considered(job, donors, raw)
    {
    }
  }

  // ----- The whole selection ----------------------------------------------------------------

  /** The targets considered: the first ones in ascending order. */
  function Nominated(donors: map<nat, bool>): (ts: seq<nat>)
    ensures Ascending(ts) && |ts| == (if |donors| <= 4096 then |donors| else 4096) && forall t :: t in ts ==> t in donors
    ensures forall t, u :: t in ts && u in donors && u !in ts ==> t < u
  {
    var all := Sorted(donors.Keys);
    if |all| <= NOMINATION_CAP then all else all[..NOMINATION_CAP]
  }

  ghost function Hosts(selected: map<nat, Owner>): set<nat> {
    set t | t in selected :: selected[t].start
  }

  /** Hosts of the targets below `p`. */
  ghost function HostsBefore(selected: map<nat, Owner>, p: nat): set<nat> {
    set t | t in selected && t < p :: selected[t].start
  }

  /** What the caps keep: every target of the hosts met before some point, the hosts
      numbering exactly the cap unless everything is kept. */
  ghost predicate Bounded(selected: map<nat, Owner>, kept: map<nat, Owner>, p: nat) {
    && Hosts(kept) == HostsBefore(selected, p) && |Hosts(kept)| <= 512
    && (forall t :: t in kept <==> t in selected && selected[t].start in Hosts(kept))
    && (forall t :: t in kept ==> kept[t] == selected[t])
    && (kept == selected || |Hosts(kept)| == 512)
  }

  lemma SoleUnique(job: Job, ids: set<Identity>, t: nat, a: Owner, b: Owner)
    requires SoleOwner(job, ids, t, a) && SoleOwner(job, ids, t, b)
    ensures a == b
  {
    assert Claims(job, a.identity, t);
  }

  ghost predicate Processed(selected: map<nat, Owner>, targets: seq<nat>, hosts: set<nat>, p: nat) {
    hosts == HostsBefore(selected, p) && forall t :: t in selected && t < p ==> t in targets
  }

  ghost predicate KeptOf(selected: map<nat, Owner>, targets: seq<nat>, hosts: set<nat>, kept: map<nat, Owner>) {
    && (forall t :: t in kept <==> t in targets && t in selected && selected[t].start in hosts)
    && forall t :: t in kept ==> kept[t] == selected[t]
  }

  lemma HostsOfKept(selected: map<nat, Owner>, targets: seq<nat>, hosts: set<nat>, p: nat, kept: map<nat, Owner>)
    requires Processed(selected, targets, hosts, p) && KeptOf(selected, targets, hosts, kept)
    ensures Hosts(kept) == hosts
  {
    forall h | h in hosts
      ensures h in Hosts(kept)
    {
      var t :| t in selected && t < p && selected[t].start == h;
      assert t in kept;
    }
  }

  lemma HostsNext(selected: map<nat, Owner>, t: nat, p: nat)
    requires t in selected && p <= t && forall x :: x in selected && p <= x ==> t <= x
    ensures HostsBefore(selected, t + 1) == HostsBefore(selected, p) + {selected[t].start}
  {
    forall h
      ensures h in HostsBefore(selected, t + 1) <==> h in HostsBefore(selected, p) + {selected[t].start}
    {
      if h in HostsBefore(selected, p) {
        var x :| x in selected && x < p && selected[x].start == h;
        assert x < t + 1;
      }
    }
  }

  /** The state of the caps after the targets `done`; `p` stays at the first host dropped. */
  ghost predicate Capping(selected: map<nat, Owner>, done: seq<nat>, hosts: set<nat>, kept: map<nat, Owner>, p: nat,
                          dropped: bool) {
    && Processed(selected, done, hosts, p) && KeptOf(selected, done, hosts, kept) && |hosts| <= HOST_CAP
    && (dropped ==> |hosts| == HOST_CAP)
    && (!dropped ==> forall t :: t in done ==> t < p && t in selected && selected[t].start in hosts)
    && (!dropped ==> forall t :: t in selected && t !in done ==> p <= t)
  }

  ghost predicate IsNext(selected: map<nat, Owner>, done: seq<nat>, t: nat) {
    t in selected && t !in done && forall x :: x in selected && x !in done ==> t <= x
  }

  lemma CapDrop(selected: map<nat, Owner>, done: seq<nat>, hosts: set<nat>, kept: map<nat, Owner>, p: nat,
                dropped: bool, t: nat)
    requires Capping(selected, done, hosts, kept, p, dropped) && IsNext(selected, done, t)
    requires selected[t].start !in hosts && |hosts| >= HOST_CAP
    ensures Capping(selected, done + [t], hosts, kept, p, true)
  {
  }

  lemma CapKeepLate(selected: map<nat, Owner>, done: seq<nat>, hosts: set<nat>, kept: map<nat, Owner>, p: nat, t: nat)
    requires Capping(selected, done, hosts, kept, p, true) && IsNext(selected, done, t)
    requires selected[t].start in hosts
    ensures Capping(selected, done + [t], hosts, kept[t := selected[t]], p, true)
  {
  }

  lemma CapKeepEarly(selected: map<nat, Owner>, done: seq<nat>, hosts: set<nat>, kept: map<nat, Owner>, p: nat, t: nat)
    requires Capping(selected, done, hosts, kept, p, false) && IsNext(selected, done, t)
    requires selected[t].start in hosts || |hosts| < HOST_CAP
    ensures Capping(selected, done + [t], hosts + {selected[t].start}, kept[t := selected[t]], t + 1, false)
  {
    HostsNext(selected, t, p);
    assert Processed(selected, done + [t], hosts + {selected[t].start}, t + 1);
    assert KeptOf(selected, done + [t], hosts + {selected[t].start}, kept[t := selected[t]]);
  }

  lemma CapDone(selected: map<nat, Owner>, done: seq<nat>, hosts: set<nat>, kept: map<nat, Owner>, p: nat, dropped: bool)
    requires Capping(selected, done, hosts, kept, p, dropped) && forall t :: t in done <==> t in selected
    ensures Bounded(selected, kept, p)
  {
    HostsOfKept(selected, done, hosts, p, kept);
    if !dropped {
      assert kept == selected;
    }
  }

  /** Keep the target if its host is known or there is room for another host. */
  method CapStep(selected: map<nat, Owner>, ghost done: seq<nat>, t: nat, hosts: set<nat>, kept: map<nat, Owner>,
                 ghost p: nat, ghost dropped: bool)
    returns (hosts': set<nat>, kept': map<nat, Owner>, ghost p': nat, ghost dropped': bool)
    requires Capping(selected, done, hosts, kept, p, dropped) && IsNext(selected, done, t)
    ensures Capping(selected, done + [t], hosts', kept', p', dropped') && |kept'| <= |kept| + 1
  {
    hosts', kept', p', dropped' := hosts, kept, p, true;
    var host := selected[t].start;
    if host !in hosts && |hosts| >= HOST_CAP {
      CapDrop(selected, done, hosts, kept, p, dropped, t);
      return;
    }
    kept' := kept[t := selected[t]];
    hosts' := hosts + {host};
    if dropped {
      assert hosts' == hosts by {
        assert host in hosts;
      }
      CapKeepLate(selected, done, hosts, kept, p, t);
    } else {
      CapKeepEarly(selected, done, hosts, kept, p, t);
      p', dropped' := t + 1, false;
    }
  }

  lemma CapStart(selected: map<nat, Owner>)
    ensures Capping(selected, [], {}, map[], 0, false)
  {
  }

  lemma NextInOrder(selected: map<nat, Owner>, order: seq<nat>, k: nat)
    requires Ascending(order) && k < |order| && forall t :: t in order <==> t in selected
    ensures IsNext(selected, order[..k], order[k]) && order[..k + 1] == order[..k] + [order[k]]
  {
    OrderNext(order, k);
  }

  /** The caps after the first `k` targets. */
  ghost predicate Capped(selected: map<nat, Owner>, order: seq<nat>, k: nat, hosts: set<nat>, kept: map<nat, Owner>,
                         p: nat, dropped: bool)
    requires k <= |order|
  {
    Capping(selected, order[..k], hosts, kept, p, dropped) && |kept| <= k
  }

  ghost predicate Orders(order: seq<nat>, selected: map<nat, Owner>) {
    |order| <= ALIAS_CAP && Ascending(order) && forall t :: t in order <==> t in selected
  }

  /** Take the next target; there is always room for another alias. */
  method CapNext(selected: map<nat, Owner>, order: seq<nat>, k: nat, hosts: set<nat>, kept: map<nat, Owner>,
                 ghost p: nat, ghost dropped: bool)
    returns (hosts': set<nat>, kept': map<nat, Owner>, aliasDropped: bool, ghost p': nat, ghost dropped': bool)
    requires Orders(order, selected) && k < |order| && Capped(selected, order, k, hosts, kept, p, dropped)
    ensures Capped(selected, order, k + 1, hosts', kept', p', dropped') && !aliasDropped
  {
    aliasDropped := |kept| >= ALIAS_CAP;
    hosts', kept', p', dropped' := hosts, kept, p, dropped;
    if !aliasDropped {
      NextInOrder(selected, order, k);
      hosts', kept', p', dropped' := CapStep(selected, order[..k], order[k], hosts, kept, p, dropped);
    }
  }

  /** Keep targets in order while their hosts fit; the alias cap never drops one. */
  method ApplyCaps(selected: map<nat, Owner>, order: seq<nat>)
    returns (kept: map<nat, Owner>, aliasDrops: int, ghost p: nat)
    requires Orders(order, selected)
    ensures Bounded(selected, kept, p) && aliasDrops == 0
  {
    kept, aliasDrops, p := map[], 0, 0;
    var hosts: set<nat> := {};
    ghost var dropped := false;
    CapStart(selected);
    for k := 0 to |order|
      invariant Capped(selected, order, k, hosts, kept, p, dropped) && aliasDrops == 0
    {
      var aliasDropped;
      hosts, kept, aliasDropped, p, dropped := CapNext(selected, order, k, hosts, kept, p, dropped);
      if aliasDropped {
        aliasDrops := aliasDrops + 1;
      }
    }
    assert order[..|order|] == order;
    CapDone(selected, order, hosts, kept, p, dropped);
  }

  lemma OrderNext(order: seq<nat>, k: nat)
    requires Ascending(order) && k < |order|
    ensures order[..k + 1] == order[..k] + [order[k]] && order[k] !in order[..k]
    ensures forall t :: t in order && t !in order[..k] ==> order[k] <= t
  {
    forall t | t in order && t !in order[..k]
      ensures order[k] <= t
    {
      var j :| 0 <= j < |order| && order[j] == t;
    }
  }

  function Respelled(seg: nat, raws: seq<nat>): seq<nat> {
    seq(|raws|, i requires 0 <= i < |raws| => Canonical(seg, raws[i]))
  }

  lemma {:induction false} SweptWanted(job: Job, donors: map<nat, bool>, os: seq<Owner>, raws: seq<nat>, t: nat)
    requires t in Swept(job, donors, os, raws).selected
    ensures t in Respelled(job.seg, raws)
    decreases |raws|
  {
    var n := |raws| - 1;
    var spelled, before := Respelled(job.seg, raws), Respelled(job.seg, raws[..n]);
    assert spelled == before + [Canonical(job.seg, raws[n])];
    if t in Swept(job, donors, os, raws[..n]).selected {
      SweptWanted(job, donors, os, raws[..n], t);
    }
  }

  /** No more targets are selected than were nominated. */
  lemma SelectedFew(job: Job, donors: map<nat, bool>, os: seq<Owner>, raws: seq<nat>)
    ensures |Swept(job, donors, os, raws).selected| <= |raws|
  {
    var selected := Swept(job, donors, os, raws).selected;
    forall t | t in selected
      ensures t in Respelled(job.seg, raws)
    {
      SweptWanted(job, donors, os, raws, t);
    }
    NoMoreThan(selected.Keys, Respelled(job.seg, raws));
  }

  /** Before the caps: exactly the nominated targets with one owner, mapped to it, if
      respelling keeps their order. */
  method SelectDemands(job: Job, donors: map<nat, bool>, current: set<Identity>)
    returns (selected: map<nat, Owner>, kept: map<nat, Owner>, ghost os: seq<Owner>, ghost p: nat)
    ensures var ids := set id | id in current :: Normalized(job.seg, id);
            && SortedByStart(os) && Distinct(os) && OwnersOf(job, ids, os)
            && selected == Swept(job, donors, os, Nominated(donors)).selected
            && (InOrder(job, donors, Nominated(donors)) ==>
                  forall t, o :: t in selected && selected[t] == o <==> Selected(job, donors, ids, Nominated(donors), t, o))
    ensures Bounded(selected, kept, p)
  {
    var ids := set id | id in current :: Normalized(job.seg, id);
    var owners := ListOwners(job, ids);
    os := owners;
    var raws := Nominated(donors);
    selected := Sweep(job, donors, raws, owners);
    if InOrder(job, donors, raws) {
      InOrderExact(job, donors, ids, raws);
      BuiltExact(job, donors, ids, raws, selected);
    }
    SelectedFew(job, donors, owners, raws);
    var drops;
    kept, drops, p := ApplyCaps(selected, Sorted(selected.Keys));
  }

  lemma BuiltExact(job: Job, donors: map<nat, bool>, ids: set<Identity>, raws: seq<nat>, selected: map<nat, Owner>)
    requires Built(job, donors, ids, raws, selected)
    ensures forall t, o :: t in selected && selected[t] == o <==> Selected(job, donors, ids, raws, t, o)
  {
    forall t, o | Selected(job, donors, ids, raws, t, o)
      ensures t in selected && selected[t] == o
    {
      SoleUnique(job, ids, t, selected[t], o);
    }
  }

  lemma {:induction false} NoMoreThan(keys: set<nat>, targets: seq<nat>)
    requires forall t :: t in keys ==> t in targets
    ensures |keys| <= |targets|
    decreases |targets|
  {
    if targets != [] {
      var rest := keys - {targets[0]};
      forall t | t in rest
        ensures t in targets[1..]
      {
      }
      NoMoreThan(rest, targets[1..]);
    }
  }
}
