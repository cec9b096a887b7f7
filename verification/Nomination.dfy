/** Sibling nomination: the donor streams of the other recipes are merged in ascending
    order, addresses the recipient already covers are skipped, and the first `limit`
    distinct survivors are nominated.  Streams are cut short beforehand; the cut never
    changes who is nominated. */
module Nomination {
  import opened Segments
  import opened SortedSets

  /** What each recipe offers. */
  type Donors = map<nat, seq<nat>>

  predicate SortedDonors(donors: Donors) {
    forall i :: i in donors ==> Ascending(donors[i])
  }

  /** Every address is spelled in the same segment. */
  predicate DonorsIn(seg: nat, donors: Donors) {
    forall i :: i in donors ==> forall e :: e in donors[i] ==> InSegment(seg, e)
  }

  predicate AllAscending(streams: seq<seq<nat>>) {
    forall s :: s in streams ==> Ascending(s)
  }

  ghost predicate Offers(streams: seq<seq<nat>>, e: nat) {
    exists s :: s in streams && e in s
  }

  /** Every address some stream holds. */
  function Union(streams: seq<seq<nat>>): (u: set<nat>)
    ensures forall e :: e in u <==> Offers(streams, e)
  {
    if streams == [] then {} else (set e | e in streams[0]) + Union(streams[1..])
  }

  ghost predicate OfferedTo(donors: Donors, recipient: nat, e: nat) {
    exists i :: i in donors && i != recipient && e in donors[i]
  }

  /** Every address that a recipe other than the recipient's offers. */
  ghost function Offered(donors: Donors, recipient: nat): (u: set<nat>)
    ensures forall e :: e in u <==> OfferedTo(donors, recipient, e)
  {
    set i, e | i in donors && i != recipient && e in donors[i] :: e
  }

  /** The addresses that are not covered already. */
  function Eligible(offered: set<nat>, authority: set<nat>): set<nat> {
    set e | e in offered && Phys(e) !in authority
  }

  function Take(xs: seq<nat>, limit: nat): seq<nat> {
    if |xs| <= limit then xs else xs[..limit]
  }

  /** The first `limit` of them, in ascending order. */
  function Nominees(offered: set<nat>, authority: set<nat>, limit: nat): seq<nat> {
    Take(Sorted(Eligible(offered, authority)), limit)
  }

  // ----- Prefixes of a sorted set ----------------------------------------------------------

  function Below(s: set<nat>, b: nat): set<nat> {
    set x | x in s && x < b
  }

  lemma AscendingAppend(low: seq<nat>, high: seq<nat>, b: nat)
    requires Ascending(low) && Ascending(high)
    requires (forall x :: x in low ==> x < b) && forall x :: x in high ==> b <= x
    ensures Ascending(low + high)
  {
    var all := low + high;
    forall i, j | 0 <= i < j < |all|
      ensures all[i] < all[j]
    {
      if i < |low| <= j {
        assert all[i] in low && all[j] in high;
      }
    }
  }

  lemma SortedSplit(s: set<nat>, b: nat)
    ensures Sorted(s) == Sorted(Below(s, b)) + Sorted(s - Below(s, b))
  {
    var low, high := Sorted(Below(s, b)), Sorted(s - Below(s, b));
    AscendingAppend(low, high, b);
    AscendingUnique(Sorted(s), low + high);
  }

  /** Exactly the elements below a bound, in order, are a prefix. */
  lemma PrefixOfSorted(xs: seq<nat>, s: set<nat>, b: nat)
    requires Ascending(xs) && forall x :: x in xs <==> x in s && x < b
    ensures |xs| <= |s| && xs == Sorted(s)[..|xs|] && |xs| == |Below(s, b)|
  {
    SortedSplit(s, b);
    AscendingUnique(xs, Sorted(Below(s, b)));
    assert |Sorted(s)| == |s|;
  }

  lemma TakeCommonStart(low: seq<nat>, a: seq<nat>, b: seq<nat>, limit: nat)
    requires |low| >= limit
    ensures Take(low + a, limit) == Take(low + b, limit)
  {
    assert (low + a)[..limit] == low[..limit] == (low + b)[..limit];
  }

  lemma TakeFromBelow(s: set<nat>, t: set<nat>, m: nat, limit: nat)
    requires Below(s, m) == Below(t, m) && |Below(t, m)| >= limit
    ensures Take(Sorted(s), limit) == Take(Sorted(t), limit)
  {
    SortedSplit(s, m);
    SortedSplit(t, m);
    TakeCommonStart(Sorted(Below(t, m)), Sorted(s - Below(s, m)), Sorted(t - Below(t, m)), limit);
  }

  ghost predicate LateOnly(s: set<nat>, t: set<nat>, limit: nat) {
    t <= s && forall x :: x in s && x !in t ==> |Below(t, x)| >= limit
  }

  lemma LeastMissing(s: set<nat>, t: set<nat>) returns (m: nat)
    requires t <= s && s != t
    ensures m in s && m !in t && Below(s, m) == Below(t, m)
  {
    assert forall x :: x in s ==> x in t || x in s - t;
    m := Least(s - t);
    forall y | y in s && y < m
      ensures y in t
    {
      assert y in t || y in s - t;
    }
  }

  /** Members that have `limit` smaller members in `t` do not influence the first `limit`. */
  lemma TakeIgnoresLate(s: set<nat>, t: set<nat>, limit: nat)
    requires LateOnly(s, t, limit)
    ensures Take(Sorted(s), limit) == Take(Sorted(t), limit)
  {
    if s != t {
      var m := LeastMissing(s, t);
      TakeFromBelow(s, t, m, limit);
    }
  }

  // ----- The merge -----------------------------------------------------------------------

  /** A nonempty stream that a recipe other than the recipient's gives. */
  ghost predicate Given(donors: Donors, recipient: nat, s: seq<nat>) {
    s != [] && exists i :: i in donors && i != recipient && donors[i] == s
  }

  /** ... and that one of the listed recipes gives. */
  ghost predicate GivenBy(donors: Donors, recipient: nat, recipes: seq<nat>, s: seq<nat>) {
    s != [] && exists i :: i in recipes && i in donors && i != recipient && donors[i] == s
  }

  lemma GivenNext(donors: Donors, recipient: nat, recipes: seq<nat>, i: nat, s: seq<nat>)
    requires i in donors
    ensures GivenBy(donors, recipient, recipes + [i], s)
            <==> GivenBy(donors, recipient, recipes, s) || (i != recipient && donors[i] == s && s != [])
  {
    assert forall j :: j in recipes + [i] <==> j in recipes || j == i;
  }

  /** Drop the empty streams and the recipient's own. */
  method Streams(donors: Donors, recipient: nat, order: seq<nat>) returns (streams: seq<seq<nat>>)
    requires forall i :: i in order ==> i in donors
    ensures forall s :: s in streams <==> GivenBy(donors, recipient, order, s)
  {
    streams := [];
    for k := 0 to |order|
      invariant forall s :: s in streams <==> GivenBy(donors, recipient, order[..k], s)
    {
      var i := order[k];
      forall s
        ensures GivenBy(donors, recipient, order[..k + 1], s)
                <==> GivenBy(donors, recipient, order[..k], s) || (i != recipient && donors[i] == s && s != [])
      {
        GivenNext(donors, recipient, order[..k], i, s);
        assert order[..k + 1] == order[..k] + [i];
      }
      if i != recipient && donors[i] != [] {
        streams := streams + [donors[i]];
      }
    }
    assert order[..|order|] == order;
  }

  method OtherStreams(donors: Donors, recipient: nat) returns (streams: seq<seq<nat>>)
    ensures forall s :: s in streams <==> Given(donors, recipient, s)
  {
    var order := Sorted(donors.Keys);
    streams := Streams(donors, recipient, order);
    assert forall s :: GivenBy(donors, recipient, order, s) <==> Given(donors, recipient, s);
  }

  ghost function Lengths(streams: seq<seq<nat>>): nat {
    if streams == [] then 0 else |streams[0]| + Lengths(streams[1..])
  }

  lemma {:induction false} LengthsUpdate(streams: seq<seq<nat>>, k: nat, s: seq<nat>)
    requires k < |streams|
    ensures Lengths(streams[k := s]) == Lengths(streams) - |streams[k]| + |s|
    decreases |streams|
  {
    if k > 0 {
      assert streams[k := s][1..] == streams[1..][k - 1 := s];
      LengthsUpdate(streams[1..], k - 1, s);
    } else {
      assert streams[k := s][1..] == streams[1..];
    }
  }

  /** The stream whose head comes next: the least head, the earliest stream on ties. */
  method NextStream(rest: seq<seq<nat>>) returns (found: bool, k: nat)
    requires AllAscending(rest)
    ensures IsNext(rest, found, k)
  {
    found, k := false, 0;
    for i := 0 to |rest|
      invariant found ==> k < i && rest[k] != []
      invariant forall j :: 0 <= j < i && rest[j] != [] ==> found && rest[k][0] <= rest[j][0]
    {
      if rest[i] != [] && (!found || rest[i][0] < rest[k][0]) {
        found, k := true, i;
      }
    }
    forall e | e in Union(rest)
      ensures found && rest[k][0] <= e
    {
      var s :| s in rest && e in s;
      assert s[0] <= e;
    }
  }

  lemma PopAscending(rest: seq<seq<nat>>, k: nat)
    requires AllAscending(rest) && k < |rest| && rest[k] != []
    ensures AllAscending(rest[k := rest[k][1..]]) && Lengths(rest[k := rest[k][1..]]) < Lengths(rest)
  {
    LengthsUpdate(rest, k, rest[k][1..]);
    assert Ascending(rest[k]);
    assert Ascending(rest[k][1..]);
  }

  /** Popping a head loses at most that address. */
  lemma PopOffers(rest: seq<seq<nat>>, k: nat, e: nat)
    requires k < |rest| && rest[k] != []
    ensures Offers(rest[k := rest[k][1..]], e) ==> Offers(rest, e)
    ensures Offers(rest, e) ==> Offers(rest[k := rest[k][1..]], e) || e == rest[k][0]
  {
    var after := rest[k := rest[k][1..]];
    if Offers(after, e) {
      var s :| s in after && e in s;
      var j :| 0 <= j < |after| && after[j] == s;
      assert rest[j] in rest && e in rest[j];
    }
    if Offers(rest, e) {
      var s :| s in rest && e in s;
      var j :| 0 <= j < |rest| && rest[j] == s;
      assert after[j] in after;
      assert s == [s[0]] + s[1..];
    }
  }

  lemma PopUnion(rest: seq<seq<nat>>, k: nat)
    requires k < |rest| && rest[k] != []
    ensures var after := rest[k := rest[k][1..]];
            Union(after) <= Union(rest) <= Union(after) + {rest[k][0]}
  {
    forall e
      ensures Offers(rest[k := rest[k][1..]], e) ==> Offers(rest, e)
      ensures Offers(rest, e) ==> Offers(rest[k := rest[k][1..]], e) || e == rest[k][0]
    {
      PopOffers(rest, k, e);
    }
  }

  /** What has been handled so far: everything up to `previous`, and nothing beyond. */
  ghost predicate Merged(all: set<nat>, left: set<nat>, previous: int, nominated: seq<nat>, authority: set<nat>) {
    && left <= all
    && (forall e :: e in all ==> e in left || e <= previous)
    && (forall e :: e in left ==> previous <= e)
    && Ascending(nominated)
    && forall e :: e in nominated <==> e in all && e <= previous && Phys(e) !in authority
  }

  lemma MergeStep(all: set<nat>, left: set<nat>, after: set<nat>, previous: int, entry: nat, nominated: seq<nat>,
                  authority: set<nat>)
    requires Merged(all, left, previous, nominated, authority)
    requires entry in left && (forall e :: e in left ==> entry <= e) && after <= left <= after + {entry}
    ensures entry == previous || Phys(entry) in authority ==> Merged(all, after, entry, nominated, authority)
    ensures entry != previous && Phys(entry) !in authority ==> Merged(all, after, entry, nominated + [entry], authority)
  {
    assert forall i :: 0 <= i < |nominated| ==> nominated[i] in nominated;
  }

  lemma MergeFull(all: set<nat>, good: set<nat>, left: set<nat>, previous: int, entry: nat, nominated: seq<nat>,
                  authority: set<nat>)
    requires Merged(all, left, previous, nominated, authority)
    requires forall e :: e in good <==> e in all && Phys(e) !in authority
    requires entry in left && (forall e :: e in left ==> entry <= e)
    requires entry != previous && Phys(entry) !in authority
    ensures |nominated| < |good| && nominated == Sorted(good)[..|nominated|]
  {
    PrefixOfSorted(nominated, good, entry);
    Smaller(Below(good, entry), good, entry);
  }

  lemma MergeDone(all: set<nat>, good: set<nat>, previous: int, nominated: seq<nat>, authority: set<nat>)
    requires Merged(all, {}, previous, nominated, authority)
    requires forall e :: e in good <==> e in all && Phys(e) !in authority
    ensures nominated == Sorted(good) && |nominated| == |good|
  {
    AscendingUnique(nominated, Sorted(good));
  }

  ghost predicate IsNext(rest: seq<seq<nat>>, found: bool, k: nat) {
    if found then k < |rest| && rest[k] != [] && forall e :: e in Union(rest) ==> rest[k][0] <= e
    else Union(rest) == {}
  }

  /** Popping the next head: it is the least address left, and only it may go. */
  lemma PopNext(rest: seq<seq<nat>>, k: nat, after: seq<seq<nat>>)
    requires AllAscending(rest) && IsNext(rest, true, k) && after == rest[k := rest[k][1..]]
    ensures AllAscending(after) && Lengths(after) < Lengths(rest)
    ensures rest[k][0] in Union(rest) && Union(after) <= Union(rest) <= Union(after) + {rest[k][0]}
  {
    PopUnion(rest, k);
    PopAscending(rest, k);
    assert rest[k] in rest && Offers(rest, rest[k][0]);
  }

  /** The first `limit` eligible addresses in ascending order, and whether more were left. */
  method Merge(streams: seq<seq<nat>>, authority: set<nat>, limit: nat) returns (nominated: seq<nat>, truncated: bool)
    requires AllAscending(streams)
    ensures nominated == Nominees(Union(streams), authority, limit)
    ensures truncated <==> |Eligible(Union(streams), authority)| > limit
  {
    ghost var all, good := Union(streams), Eligible(Union(streams), authority);
    var rest := streams;
    nominated := [];
    var previous: int := -1;      // no address yet
    var found: bool, k: nat := NextStream(rest);
    while found
      invariant AllAscending(rest) && |nominated| <= limit
      invariant Merged(all, Union(rest), previous, nominated, authority)
      invariant IsNext(rest, found, k)
      decreases Lengths(rest)
    {
      var entry, after := rest[k][0], rest[k := rest[k][1..]];
      PopNext(rest, k, after);
      MergeStep(all, Union(rest), Union(after), previous, entry, nominated, authority);
      if entry != previous && Phys(entry) !in authority {
        if |nominated| >= limit {
          MergeFull(all, good, Union(rest), previous, entry, nominated, authority);
          return nominated, true;
        }
        nominated := nominated + [entry];
      }
      previous := entry;
      rest := after;
      found, k := NextStream(rest);
    }
    MergeDone(all, good, previous, nominated, authority);
    truncated := false;
  }

  lemma Smaller(a: set<nat>, b: set<nat>, x: nat)
    requires a <= b && x in b && x !in a
    ensures |a| < |b|
  {
    assert b == (b - a) + a && x in b - a;
    assert |b| == |b - a| + |a|;
  }

  lemma StreamsOffer(donors: Donors, recipient: nat, streams: seq<seq<nat>>)
    requires forall s :: s in streams <==> Given(donors, recipient, s)
    ensures Union(streams) == Offered(donors, recipient)
  {
    forall e
      ensures Offers(streams, e) <==> OfferedTo(donors, recipient, e)
    {
      if Offers(streams, e) {
        var s :| s in streams && e in s;
        assert Given(donors, recipient, s);
      }
      if OfferedTo(donors, recipient, e) {
        var i :| i in donors && i != recipient && e in donors[i];
        assert Given(donors, recipient, donors[i]);
      }
    }
  }

  /** Nominate for a recipient; a limit that admits nothing reports whether anyone offered. */
  method SiblingProofs(donors: Donors, recipient: nat, authority: set<nat>, limit: int)
    returns (nominated: seq<nat>, truncated: bool)
    requires SortedDonors(donors)
    ensures limit > 0 ==> nominated == Nominees(Offered(donors, recipient), authority, limit)
    ensures limit > 0 ==> (truncated <==> |Eligible(Offered(donors, recipient), authority)| > limit)
    ensures limit <= 0 ==> nominated == [] && (truncated <==> Offered(donors, recipient) != {})
  {
    var streams := OtherStreams(donors, recipient);
    StreamsOffer(donors, recipient, streams);
    if streams == [] || limit <= 0 {
      nominated, truncated := [], streams != [];
      if streams == [] {
        assert Eligible(Offered(donors, recipient), authority) == {};
      } else {
        assert Given(donors, recipient, streams[0]);
        assert Offers(streams, streams[0][0]);
      }
    } else {
      nominated, truncated := Merge(streams, authority, limit);
    }
  }

  // ----- Cutting the streams ------------------------------------------------------------------

  function Cut(donors: Donors, keep: nat): Donors {
    map i | i in donors :: Take(donors[i], keep)
  }

  /** At most as many addresses are covered as the authority lists. */
  lemma {:induction false} CoveredBounded(seg: nat, xs: set<nat>, authority: set<nat>)
    requires forall x :: x in xs ==> InSegment(seg, x)
    requires forall x :: x in xs ==> Phys(x) in authority
    ensures |xs| <= |authority|
    decreases |xs|
  {
    if xs != {} {
      var x :| x in xs;
      var rest, others := xs - {x}, authority - {Phys(x)};
      forall y | y in rest
        ensures Phys(y) in others
      {
        if Phys(y) == Phys(x) {
          PhysInjective(seg, x, y);
        }
      }
      CoveredBounded(seg, rest, others);
    }
  }

  lemma {:induction false} AscendingCard(xs: seq<nat>)
    requires Ascending(xs)
    ensures |Elements(xs)| == |xs|
    decreases |xs|
  {
    if xs != [] {
      var n := |xs| - 1;
      AscendingCard(xs[..n]);
      assert Elements(xs) == Elements(xs[..n]) + {xs[n]};
    }
  }

  /** An ascending list of one segment has at most |authority| covered addresses. */
  lemma UncoveredCount(seg: nat, xs: seq<nat>, authority: set<nat>)
    requires Ascending(xs) && forall x :: x in xs ==> InSegment(seg, x)
    ensures |Uncovered(xs, authority)| + |authority| >= |xs|
  {
    var covered := set x | x in xs && Phys(x) in authority;
    var free := Uncovered(xs, authority);
    CoveredBounded(seg, covered, authority);
    AscendingCard(xs);
    assert Elements(xs) == covered + free && covered !! free;
  }

  /** The place of an address that the cut removes. */
  lemma FindLate(donors: Donors, recipient: nat, keep: nat, x: nat) returns (i: nat, n: nat)
    requires OfferedTo(donors, recipient, x) && !OfferedTo(Cut(donors, keep), recipient, x)
    ensures i in donors && i != recipient && keep <= n < |donors[i]| && donors[i][n] == x
  {
    i :| i in donors && i != recipient && x in donors[i];
    n :| 0 <= n < |donors[i]| && donors[i][n] == x;
    assert x !in Cut(donors, keep)[i];
  }

  function Uncovered(xs: seq<nat>, authority: set<nat>): set<nat> {
    set x | x in xs && Phys(x) !in authority
  }

  lemma EarlyEligible(donors: Donors, recipient: nat, authority: set<nat>, keep: nat, i: nat, x: nat)
    requires i in donors && i != recipient && keep < |donors[i]| && forall y :: y in donors[i][..keep] ==> y < x
    ensures |Below(Eligible(Offered(Cut(donors, keep), recipient), authority), x)|
            >= |Uncovered(donors[i][..keep], authority)|
  {
    var cut, early := Cut(donors, keep), donors[i][..keep];
    assert cut[i] == early;
    forall y | y in Uncovered(early, authority)
      ensures y in Below(Eligible(Offered(cut, recipient), authority), x)
    {
      assert OfferedTo(cut, recipient, y);
    }
    SubsetCard(Uncovered(early, authority), Below(Eligible(Offered(cut, recipient), authority), x));
  }

  /** An address that only the cut part offered has `limit` eligible ones before it. */
  lemma LateIsLate(seg: nat, donors: Donors, recipient: nat, authority: set<nat>, keep: nat, limit: nat, x: nat)
    requires SortedDonors(donors) && DonorsIn(seg, donors) && keep >= |authority| + limit
    requires OfferedTo(donors, recipient, x) && !OfferedTo(Cut(donors, keep), recipient, x)
    ensures |Below(Eligible(Offered(Cut(donors, keep), recipient), authority), x)| >= limit
  {
    var i, n := FindLate(donors, recipient, keep, x);
    var s, early := donors[i], donors[i][..keep];
    assert forall y :: y in early ==> y in s && y < x;
    UncoveredCount(seg, early, authority);
    EarlyEligible(donors, recipient, authority, keep, i, x);
  }

  lemma CutOffersLess(donors: Donors, recipient: nat, keep: nat, e: nat)
    requires OfferedTo(Cut(donors, keep), recipient, e)
    ensures OfferedTo(donors, recipient, e)
  {
    var i :| i in Cut(donors, keep) && i != recipient && e in Cut(donors, keep)[i];
    assert e in donors[i];
  }

  lemma CutLateOnly(seg: nat, donors: Donors, recipient: nat, authority: set<nat>, keep: nat, limit: nat)
    requires SortedDonors(donors) && DonorsIn(seg, donors) && keep >= |authority| + limit
    ensures LateOnly(Eligible(Offered(donors, recipient), authority),
                     Eligible(Offered(Cut(donors, keep), recipient), authority), limit)
  {
    var all, cut := Offered(donors, recipient), Offered(Cut(donors, keep), recipient);
    forall e | e in cut
      ensures e in all
    {
      CutOffersLess(donors, recipient, keep, e);
    }
    forall x | x in all && x !in cut
      ensures |Below(Eligible(cut, authority), x)| >= limit
    {
      LateIsLate(seg, donors, recipient, authority, keep, limit, x);
    }
  }

  lemma NomineesAgree(all: set<nat>, cut: set<nat>, authority: set<nat>, limit: nat)
    ensures LateOnly(Eligible(all, authority), Eligible(cut, authority), limit)
            ==> Nominees(cut, authority, limit) == Nominees(all, authority, limit)
  {
    if LateOnly(Eligible(all, authority), Eligible(cut, authority), limit) {
      TakeIgnoresLate(Eligible(all, authority), Eligible(cut, authority), limit);
    }
  }

  /** Keeping of each stream as many addresses as the recipient can cover, plus the
      nomination limit, changes nobody. */
  lemma CutKeepsNominations(seg: nat, donors: Donors, recipient: nat, authority: set<nat>, keep: nat, limit: nat)
    requires SortedDonors(donors) && DonorsIn(seg, donors) && keep >= |authority| + limit
    ensures Nominees(Offered(Cut(donors, keep), recipient), authority, limit)
            == Nominees(Offered(donors, recipient), authority, limit)
  {
    CutLateOnly(seg, donors, recipient, authority, keep, limit);
    NomineesAgree(Offered(donors, recipient), Offered(Cut(donors, keep), recipient), authority, limit);
  }

  lemma TakeLengths(xs: seq<nat>, ys: seq<nat>, limit: nat)
    requires Take(xs, limit + 1) == Take(ys, limit + 1)
    ensures |xs| > limit <==> |ys| > limit
  {
    assert |Take(xs, limit + 1)| == |Take(ys, limit + 1)|;
  }

  /** One more place also keeps the "more were left" verdict. */
  lemma RoomierCutKeepsVerdict(seg: nat, donors: Donors, recipient: nat, authority: set<nat>, keep: nat, limit: nat)
    requires SortedDonors(donors) && DonorsIn(seg, donors) && keep > |authority| + limit
    ensures |Eligible(Offered(Cut(donors, keep), recipient), authority)| > limit
            <==> |Eligible(Offered(donors, recipient), authority)| > limit
  {
    CutLateOnly(seg, donors, recipient, authority, keep, limit + 1);
    var all := Eligible(Offered(donors, recipient), authority);
    var cut := Eligible(Offered(Cut(donors, keep), recipient), authority);
    TakeIgnoresLate(all, cut, limit + 1);
    TakeLengths(Sorted(all), Sorted(cut), limit);
  }

  // ----- The verdict needs that place ---------------------------------------------------------

  /** Donors that list words of one segment, each list ascending. */
  predicate WordDonors(seg: nat, donors: Donors) {
    && SortedDonors(donors) && DonorsIn(seg, donors)
    && forall i :: i in donors ==> forall e :: e in donors[i] ==> e % 4 == 0
  }

  ghost predicate SameVerdict(donors: Donors, recipient: nat, authority: set<nat>, keep: nat, limit: nat) {
    |Eligible(Offered(Cut(donors, keep), recipient), authority)| > limit
    <==> |Eligible(Offered(donors, recipient), authority)| > limit
  }

  /** Keeping `keep` of each stream never changes the verdict at this coverage and limit. */
  ghost predicate VerdictKept(seg: nat, covered: nat, keep: nat, limit: nat) {
    forall donors, recipient, authority: set<nat> ::
      WordDonors(seg, donors) && |authority| == covered ==> SameVerdict(donors, recipient, authority, keep, limit)
  }

  /** A word from the `lo`-th to before the `hi`-th of a segment. */
  predicate WordOf(seg: nat, lo: nat, hi: nat, x: nat) {
    seg + 4 * lo <= x < seg + 4 * hi && (x - seg) % 4 == 0
  }

  lemma LastWord(seg: nat, lo: nat, hi: nat, x: nat)
    requires lo < hi
    ensures WordOf(seg, lo, hi, x) <==> WordOf(seg, lo, hi - 1, x) || x == seg + 4 * (hi - 1)
  {
  }

  function Words(seg: nat, lo: nat, hi: nat): (s: set<nat>)
    requires lo <= hi
    ensures |s| == hi - lo && forall x :: x in s <==> WordOf(seg, lo, hi, x)
    decreases hi
  {
    if lo == hi then {}
    else
      var n := hi - 1;
      var before, last := Words(seg, lo, n), seg + 4 * n;
      assert forall x {:trigger WordOf(seg, lo, hi, x)} :: WordOf(seg, lo, hi, x) <==> WordOf(seg, lo, n, x) || x == last by {
        forall x: nat
          ensures WordOf(seg, lo, hi, x) <==> WordOf(seg, lo, n, x) || x == last
        {
          LastWord(seg, lo, hi, x);
        }
      }
      before + {last}
  }

  function Run(seg: nat, n: nat): (r: seq<nat>)
    ensures |r| == n && forall i :: 0 <= i < n ==> r[i] == seg + 4 * i
  {
    seq(n, i => seg + 4 * i)
  }

  lemma RunMember(seg: nat, n: nat, x: nat)
    ensures x in Run(seg, n) <==> WordOf(seg, 0, n, x)
  {
    if WordOf(seg, 0, n, x) {
      assert Run(seg, n)[(x - seg) / 4] == x;
    }
  }

  /** A run that is the only donor offers itself. */
  lemma RunOffered(donors: Donors, seg: nat, n: nat, x: nat)
    requires donors == map[1 := Run(seg, n)]
    ensures x in Offered(donors, 0) <==> WordOf(seg, 0, n, x)
  {
    RunMember(seg, n, x);
    assert x in Run(seg, n) ==> x in donors[1];
  }

  /** What the first words cover of a run is its start. */
  lemma RunCovered(seg: nat, n: nat, covered: nat, first: nat, x: nat)
    requires seg % SEGMENT_SIZE == 0 && 4 * n <= SEGMENT_SIZE && first == if n <= covered then n else covered
    ensures WordOf(seg, 0, n, x) && !WordOf(0, 0, covered, Phys(x)) <==> WordOf(seg, first, n, x)
  {
    if seg <= x < seg + 4 * n {
      PhysIs(seg, x);
    }
  }

  lemma EligibleRun(donors: Donors, seg: nat, n: nat, covered: nat)
    requires seg % SEGMENT_SIZE == 0 && 4 * n <= SEGMENT_SIZE && donors == map[1 := Run(seg, n)]
    ensures |Eligible(Offered(donors, 0), Words(0, 0, covered))| == if n <= covered then 0 else n - covered
  {
    var first := if n <= covered then n else covered;
    var good, high := Eligible(Offered(donors, 0), Words(0, 0, covered)), Words(seg, first, n);
    forall x: nat
      ensures x in good <==> x in high
    {
      RunOffered(donors, seg, n, x);
      RunCovered(seg, n, covered, first, x);
    }
    assert good == high;
  }

  lemma RunIsWords(seg: nat, n: nat)
    requires seg % SEGMENT_SIZE == 0 && 4 * n <= SEGMENT_SIZE
    ensures WordDonors(seg, map[1 := Run(seg, n)])
  {
    var run := Run(seg, n);
    SegmentAligned(seg);
    forall x | x in run
      ensures InSegment(seg, x) && x % 4 == 0
    {
      RunMember(seg, n, x);
    }
  }

  /** With one word more than coverage and limit, a smaller cut loses the verdict. */
  lemma VerdictLost(seg: nat, covered: nat, keep: nat, limit: nat)
    requires seg % SEGMENT_SIZE == 0 && 4 * (covered + limit + 1) <= SEGMENT_SIZE && keep <= covered + limit
    ensures !VerdictKept(seg, covered, keep, limit)
  {
    var n := covered + limit + 1;
    var donors := map[1 := Run(seg, n)];
    EligibleRun(donors, seg, n, covered);
    assert Take(donors[1], keep) == Run(seg, keep);
    assert Cut(donors, keep) == map[1 := Run(seg, keep)];
    EligibleRun(Cut(donors, keep), seg, keep, covered);
    RunIsWords(seg, n);
    assert !SameVerdict(donors, 0, Words(0, 0, covered), keep, limit);
  }

  /** The verdict is kept for every input exactly when each stream keeps more than coverage
      plus limit; a segment must have that many words for the cut to matter. */
  lemma VerdictKeptExactly(seg: nat, covered: nat, keep: nat, limit: nat)
    requires seg % SEGMENT_SIZE == 0 && 4 * (covered + limit + 1) <= SEGMENT_SIZE
    ensures VerdictKept(seg, covered, keep, limit) <==> keep > covered + limit
  {
    if keep <= covered + limit {
      VerdictLost(seg, covered, keep, limit);
    } else {
      forall donors, recipient, authority: set<nat> | WordDonors(seg, donors) && |authority| == covered
        ensures SameVerdict(donors, recipient, authority, keep, limit)
      {
        RoomierCutKeepsVerdict(seg, donors, recipient, authority, keep, limit);
      }
    }
  }
}
