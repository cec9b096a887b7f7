/** Native producer ranges: what remains of an image's interval after its byte-verified
    exclusions are cut out. */
module EligibleRanges {

  datatype Range = Range(start: int, end: int)

  /** An exclusion as declared, and whether its reason and its bytes check out. */
  datatype Exclusion = Exclusion(range: Range, reasoned: bool, matches: bool)

  datatype Error = InvalidInterval | NoReason | BytesChanged | Overlapping

  datatype Result = Ok(ranges: seq<Range>) | Err(error: Error)

  predicate In(x: int, r: Range) {
    r.start <= x < r.end
  }

  ghost predicate InSome(x: int, rs: seq<Range>) {
    exists r :: r in rs && In(x, r)
  }

  /** Inside the image, not empty, aligned. */
  predicate Placed(r: Range, base: int, size: nat) {
    base <= r.start < r.end <= base + size && r.start % 4 == 0 && r.end % 4 == 0
  }

  predicate Sound(e: Exclusion, base: int, size: nat) {
    Placed(e.range, base, size) && e.reasoned && e.matches
  }

  /** Nonempty ranges in order, none touching the inside of another. */
  predicate Apart(rs: seq<Range>) {
    && (forall i :: 0 <= i < |rs| ==> rs[i].start < rs[i].end)
    && forall i, j :: 0 <= i < j < |rs| ==> rs[i].end <= rs[j].start
  }

  function Before(a: Range, b: Range): bool {
    a.start < b.start || (a.start == b.start && a.end <= b.end)
  }

  predicate SortedRanges(rs: seq<Range>) {
    forall i, j :: 0 <= i < j < |rs| ==> Before(rs[i], rs[j])
  }

  /** Where `r` belongs. */
  function Place(rs: seq<Range>, r: Range): (p: nat)
    requires SortedRanges(rs)
    ensures p <= |rs|
    ensures forall i :: 0 <= i < p ==> Before(rs[i], r)
    ensures forall i :: p <= i < |rs| ==> Before(r, rs[i])
  {
    if rs == [] || Before(r, rs[0]) then 0 else 1 + Place(rs[1..], r)
  }

  function InsertAt<T>(xs: seq<T>, p: nat, x: T): (r: seq<T>)
    requires p <= |xs|
    ensures |r| == |xs| + 1 && r[p] == x
    ensures forall i :: 0 <= i < p ==> r[i] == xs[i]
    ensures forall i :: p < i < |r| ==> r[i] == xs[i - 1]
  {
    xs[..p] + [x] + xs[p..]
  }

  /** The parts of a range on both sides of a cut. */
  function CutOne(r: Range, c: Range): (s: seq<Range>)
    ensures forall p :: p in s ==> r.start <= p.start < p.end <= r.end || r.start >= r.end || c.start >= c.end
  {
    Unless(LeftOf(r, c)) + Unless(RightOf(r, c))
  }

  function LeftOf(r: Range, c: Range): Range {
    Range(r.start, if r.end < c.start then r.end else c.start)
  }

  function RightOf(r: Range, c: Range): Range {
    Range(if r.start > c.end then r.start else c.end, r.end)
  }

  /** The range, unless it is empty. */
  function Unless(r: Range): seq<Range> {
    if r.start < r.end then [r] else []
  }

  lemma CutOneApart(r: Range, c: Range)
    requires r.start < r.end && c.start < c.end
    ensures Apart(CutOne(r, c))
  {
  }

  lemma InUnless(x: int, r: Range)
    ensures InSome(x, Unless(r)) <==> In(x, r)
  {
    if In(x, r) {
      assert r in Unless(r);
    }
  }

  lemma CutOneExact(r: Range, c: Range, x: int)
    requires c.start < c.end
    ensures InSome(x, CutOne(r, c)) <==> In(x, r) && !In(x, c)
  {
    InSomeAppend(x, Unless(LeftOf(r, c)), Unless(RightOf(r, c)));
    InUnless(x, LeftOf(r, c));
    InUnless(x, RightOf(r, c));
  }

  lemma InSomeAppend(x: int, a: seq<Range>, b: seq<Range>)
    ensures InSome(x, a + b) <==> InSome(x, a) || InSome(x, b)
  {
    if InSome(x, a) {
      var r :| r in a && In(x, r);
      assert r in a + b;
    }
    if InSome(x, b) {
      var r :| r in b && In(x, r);
      assert r in a + b;
    }
  }

  function CutAll(rs: seq<Range>, c: Range): seq<Range> {
    if rs == [] then [] else CutAll(rs[..|rs| - 1], c) + CutOne(rs[|rs| - 1], c)
  }

  lemma {:induction false} CutAllInside(rs: seq<Range>, c: Range)
    requires Apart(rs) && c.start < c.end
    ensures Apart(CutAll(rs, c))
    ensures forall p :: p in CutAll(rs, c) ==> exists r :: r in rs && r.start <= p.start < p.end <= r.end
    decreases |rs|
  {
    if rs != [] {
      var n := |rs| - 1;
      var front, last := rs[..n], rs[n];
      CutAllInside(front, c);
      var a, b := CutAll(front, c), CutOne(last, c);
      CutOneApart(last, c);
      forall p, q | p in a && q in b
        ensures p.end <= q.start
      {
        var r :| r in front && r.start <= p.start < p.end <= r.end;
        var i :| 0 <= i < n && rs[i] == r;
        assert rs[i].end <= rs[n].start;
      }
      ApartAppend(a, b);
      forall p | p in a + b
        ensures exists r :: r in rs && r.start <= p.start < p.end <= r.end
      {
        if p in a {
          var r :| r in front && r.start <= p.start < p.end <= r.end;
          assert r in rs;
        } else {
          assert last in rs;
        }
      }
    }
  }

  lemma ApartAppend(a: seq<Range>, b: seq<Range>)
    requires Apart(a) && Apart(b) && forall p, q :: p in a && q in b ==> p.end <= q.start
    ensures Apart(a + b)
  {
    var s := a + b;
    forall i, j | 0 <= i < j < |s|
      ensures s[i].end <= s[j].start
    {
      if i < |a| <= j {
        assert s[i] in a && s[j] in b;
      }
    }
  }

  lemma {:induction false} CutAllExact(rs: seq<Range>, c: Range, x: int)
    requires c.start < c.end
    ensures InSome(x, CutAll(rs, c)) <==> InSome(x, rs) && !In(x, c)
    decreases |rs|
  {
    if rs != [] {
      var n := |rs| - 1;
      var front, last := rs[..n], rs[n];
      CutAllExact(front, c, x);
      CutSnocExact(rs, front, last, c, x, CutAll(front, c), CutAll(rs, c));
    }
  }

  lemma CutSnocExact(rs: seq<Range>, front: seq<Range>, last: Range, c: Range, x: int, cut: seq<Range>, all: seq<Range>)
    requires rs == front + [last] && all == cut + CutOne(last, c) && c.start < c.end
    requires InSome(x, cut) <==> InSome(x, front) && !In(x, c)
    ensures InSome(x, all) <==> InSome(x, rs) && !In(x, c)
  {
    var one := CutOne(last, c);
    CutOneExact(last, c, x);
    InSomeAppend(x, cut, one);
    InSomeAppend(x, front, [last]);
    assert InSome(x, [last]) <==> In(x, last);
  }

  /** What is left holds exactly the addresses of the interval that no exclusion holds. */
  ghost predicate Leaves(ranges: seq<Range>, lo: int, hi: int, cuts: seq<Range>) {
    && (lo < hi ==> Apart(ranges))
    && forall x :: InSome(x, ranges) <==> lo <= x < hi && !InSome(x, cuts)
  }

  lemma CutLeaves(ranges: seq<Range>, lo: int, hi: int, cuts: seq<Range>, c: Range)
    requires Leaves(ranges, lo, hi, cuts) && c.start < c.end
    ensures Leaves(CutAll(ranges, c), lo, hi, cuts + [c])
  {
    if lo < hi {
      CutAllInside(ranges, c);
    }
    forall x
      ensures InSome(x, CutAll(ranges, c)) <==> lo <= x < hi && !InSome(x, cuts + [c])
    {
      CutAllExact(ranges, c, x);
      InSomeAppend(x, cuts, [c]);
      assert InSome(x, [c]) <==> In(x, c);
    }
  }

  /** No two exclusions have an address in common. */
  predicate Disjoint(items: seq<Exclusion>) {
    forall i, j :: 0 <= i < j < |items| ==> Clear(items[i].range, items[j].range)
  }

  predicate Clear(a: Range, b: Range) {
    a.end <= b.start || b.end <= a.start
  }

  /** `cuts` lists the ranges of the first `n` items, in the order `origin`. */
  ghost predicate Arranges(items: seq<Exclusion>, n: nat, cuts: seq<Range>, origin: seq<nat>)
    requires n <= |items|
  {
    && |origin| == |cuts| == n
    && (forall k :: 0 <= k < n ==> origin[k] < n && cuts[k] == items[origin[k]].range)
    && (forall k, l :: 0 <= k < l < n ==> origin[k] != origin[l])
    && forall i :: 0 <= i < n ==> i in origin
  }

  lemma Position(xs: seq<nat>, x: nat) returns (k: nat)
    requires x in xs
    ensures k < |xs| && xs[k] == x
  {
    k :| 0 <= k < |xs| && xs[k] == x;
  }

  lemma ArrangesNext(items: seq<Exclusion>, n: nat, cuts: seq<Range>, origin: seq<nat>, p: nat)
    requires n < |items| && Arranges(items, n, cuts, origin) && p <= n
    ensures Arranges(items, n + 1, InsertAt(cuts, p, items[n].range), InsertAt(origin, p, n))
  {
    var after := InsertAt(origin, p, n);
    forall i | 0 <= i < n + 1
      ensures i in after
    {
      if i == n {
        assert after[p] == i;
      } else {
        var k := Position(origin, i);
        assert k < p ==> after[k] == i;
        assert k >= p ==> after[k + 1] == i;
      }
    }
  }

  /** Sorted neighbours that do not overlap mean no two overlap. */
  lemma AdjacentApart(cuts: seq<Range>)
    requires SortedRanges(cuts) && forall i :: 0 <= i < |cuts| - 1 ==> cuts[i].end <= cuts[i + 1].start
    ensures forall i, j :: 0 <= i < j < |cuts| ==> cuts[i].end <= cuts[j].start
  {
    forall i, j | 0 <= i < j < |cuts|
      ensures cuts[i].end <= cuts[j].start
    {
      assert cuts[i].end <= cuts[i + 1].start;
      assert i + 1 == j || Before(cuts[i + 1], cuts[j]);
    }
  }

  lemma NeighboursDecide(items: seq<Exclusion>, cuts: seq<Range>, origin: seq<nat>)
    requires Arranges(items, |items|, cuts, origin) && SortedRanges(cuts)
    requires forall c :: c in cuts ==> c.start < c.end
    ensures Disjoint(items) <==> forall i :: 0 <= i < |cuts| - 1 ==> cuts[i].end <= cuts[i + 1].start
  {
    if forall i :: 0 <= i < |cuts| - 1 ==> cuts[i].end <= cuts[i + 1].start {
      AdjacentApart(cuts);
      forall i, j | 0 <= i < j < |items|
        ensures Clear(items[i].range, items[j].range)
      {
        var k := Position(origin, i);
        var l := Position(origin, j);
        assert k < l || l < k;
      }
    }
    if Disjoint(items) {
      forall i | 0 <= i < |cuts| - 1
        ensures cuts[i].end <= cuts[i + 1].start
      {
        assert cuts[i] in cuts && cuts[i + 1] in cuts && Before(cuts[i], cuts[i + 1]);
        assert origin[i] != origin[i + 1];
        assert Clear(cuts[i], cuts[i + 1]);
      }
    }
  }

  /** The rules for one exclusion. */
  predicate Admissible(e: Exclusion, base: int, size: nat) {
    && base <= e.range.start < e.range.end <= base + size
    && e.range.start % 4 == 0 && e.range.end % 4 == 0 && e.reasoned && e.matches
  }

  /** The first rule that an exclusion breaks. */
  function Fault(e: Exclusion, base: int, size: nat): Error
    requires !Admissible(e, base, size)
  {
    if !(base <= e.range.start < e.range.end <= base + size) || e.range.start % 4 != 0 || e.range.end % 4 != 0
    then InvalidInterval
    else if !e.reasoned then NoReason
    else BytesChanged
  }

  /** The answer for admissible and disjoint exclusions, which are the only ones it accepts;
      otherwise the first inadmissible one decides, and overlaps come last. */
  ghost predicate Correct(items: seq<Exclusion>, base: int, size: nat, lo: int, hi: int, r: Result) {
    && (r.Ok? <==> (forall i :: 0 <= i < |items| ==> Admissible(items[i], base, size)) && Disjoint(items))
    && (r.Ok? && lo < hi ==> Apart(r.ranges))
    && (r.Ok? ==> forall x :: InSome(x, r.ranges) <==> lo <= x < hi && !Excluded(items, x))
    && (r.Err? ==> Blames(items, base, size, r.error))
  }

  ghost predicate Blames(items: seq<Exclusion>, base: int, size: nat, e: Error) {
    if forall i :: 0 <= i < |items| ==> Admissible(items[i], base, size) then e == Overlapping
    else exists i :: FirstFault(items, base, size, i, e)
  }

  ghost predicate FirstFault(items: seq<Exclusion>, base: int, size: nat, i: nat, e: Error) {
    && i < |items| && !Admissible(items[i], base, size) && e == Fault(items[i], base, size)
    && forall j :: 0 <= j < i ==> Admissible(items[j], base, size)
  }

  ghost predicate Excluded(items: seq<Exclusion>, x: int) {
    exists i :: 0 <= i < |items| && In(x, items[i].range)
  }

  /** Check every exclusion and sort their ranges. */
  method Arrange(items: seq<Exclusion>, base: int, size: nat) returns (r: Result, ghost origin: seq<nat>)
    ensures r.Ok? <==> forall i :: 0 <= i < |items| ==> Sound(items[i], base, size)
    ensures r.Ok? ==> SortedRanges(r.ranges) && Arranges(items, |items|, r.ranges, origin)
    ensures r.Err? ==> exists i :: FirstFault(items, base, size, i, r.error)
  {
    var cuts: seq<Range> := [];
    origin := [];
    for i := 0 to |items|
      invariant SortedRanges(cuts) && Arranges(items, i, cuts, origin)
      invariant forall j :: 0 <= j < i ==> Sound(items[j], base, size)
    {
      if !Placed(items[i].range, base, size) {
        assert FirstFault(items, base, size, i, InvalidInterval);
        return Err(InvalidInterval), [];
      }
      if !items[i].reasoned {
        assert FirstFault(items, base, size, i, NoReason);
        return Err(NoReason), [];
      }
      if !items[i].matches {
        assert FirstFault(items, base, size, i, BytesChanged);
        return Err(BytesChanged), [];
      }
      var p := Place(cuts, items[i].range);
      ArrangesNext(items, i, cuts, origin, p);
      cuts, origin := InsertAt(cuts, p, items[i].range), InsertAt(origin, p, i);
    }
    r := Ok(cuts);
  }

  lemma CutsProper(items: seq<Exclusion>, base: int, size: nat, cuts: seq<Range>, origin: seq<nat>)
    requires Arranges(items, |items|, cuts, origin) && forall i :: 0 <= i < |items| ==> Sound(items[i], base, size)
    ensures forall c :: c in cuts ==> c.start < c.end
  {
    forall c | c in cuts
      ensures c.start < c.end
    {
      var k :| 0 <= k < |cuts| && cuts[k] == c;
      assert Sound(items[origin[k]], base, size);
    }
  }

  /** Check the exclusions, sort them, refuse overlaps, and cut each out. */
  method Eligible(items: seq<Exclusion>, base: int, size: nat, lo: int, hi: int) returns (r: Result)
    ensures Correct(items, base, size, lo, hi, r)
  {
    var arranged, origin := Arrange(items, base, size);
    if arranged.Err? {
      return arranged;
    }
    var cuts := arranged.ranges;
    CutsProper(items, base, size, cuts, origin);
    NeighboursDecide(items, cuts, origin);
    if exists i :: 0 <= i < |cuts| - 1 && cuts[i].end > cuts[i + 1].start {
      return Err(Overlapping);
    }
    var ranges := CutOut(cuts, lo, hi);
    SameExcluded(items, cuts, origin);
    r := Ok(ranges);
  }

  lemma SameExcluded(items: seq<Exclusion>, cuts: seq<Range>, origin: seq<nat>)
    requires Arranges(items, |items|, cuts, origin)
    ensures forall x :: InSome(x, cuts) <==> Excluded(items, x)
  {
    forall x
      ensures InSome(x, cuts) <==> Excluded(items, x)
    {
      if InSome(x, cuts) {
        var c :| c in cuts && In(x, c);
        var k :| 0 <= k < |cuts| && cuts[k] == c;
        assert In(x, items[origin[k]].range);
      }
      if Excluded(items, x) {
        var i :| 0 <= i < |items| && In(x, items[i].range);
        var k := Position(origin, i);
        assert cuts[k] in cuts;
      }
    }
  }

  method CutOut(cuts: seq<Range>, lo: int, hi: int) returns (ranges: seq<Range>)
    requires forall c :: c in cuts ==> c.start < c.end
    ensures Leaves(ranges, lo, hi, cuts)
  {
    ranges := [Range(lo, hi)];
    assert forall x :: InSome(x, ranges) <==> In(x, ranges[0]);
    for i := 0 to |cuts|
      invariant Leaves(ranges, lo, hi, cuts[..i])
    {
      CutLeaves(ranges, lo, hi, cuts[..i], cuts[i]);
      assert cuts[..i + 1] == cuts[..i] + [cuts[i]];
      ranges := CutAll(ranges, cuts[i]);
    }
    assert cuts[..|cuts|] == cuts;
  }
}
