/** Capacity accounting for one cache namespace: the inventory a runtime scan would
    select, the projection of one publication onto it, and the bound that projection
    enforces over whole runs of publishers that may crash anywhere.

    The DLL loader and the manifest parser are oracles. */
module CacheCapacity {
  import opened Options
  import opened Segments
  import opened ShardPair

  // ----- Finite sums ---------------------------------------------------------

  ghost function SumOver<T(!new)>(s: set<T>, f: T -> nat): nat
    decreases |s|
  {
    if s == {} then 0 else
      var x :| x in s;
      f(x) + SumOver(s - {x}, f)
  }

  lemma {:induction false} SumTake<T(!new)>(s: set<T>, x: T, f: T -> nat)
    requires x in s
    ensures SumOver(s, f) == f(x) + SumOver(s - {x}, f)
    decreases |s|
  {
    var y :| y in s && SumOver(s, f) == f(y) + SumOver(s - {y}, f);
    if y != x {
      SumTake(s - {y}, x, f);
      SumTake(s - {x}, y, f);
      assert s - {y} - {x} == s - {x} - {y};
    }
  }

  lemma SumAdd<T(!new)>(s: set<T>, x: T, f: T -> nat)
    requires x !in s
    ensures SumOver(s + {x}, f) == f(x) + SumOver(s, f)
  {
    SumTake(s + {x}, x, f);
    assert s + {x} - {x} == s;
  }

  // ----- The namespace -------------------------------------------------------

  /** A compiler-tier leaf or one of its per-segment subdirectories. */
  datatype Dir = Dir(id: nat, segment: nat)

  datatype Path = Path(dir: Dir, name: nat)

  type Namespace = map<Path, Pair>

  datatype Range = Range(start: nat, length: nat)

  datatype Func = Func(entry: nat, crc: nat, ranges: seq<Range>)

  /** A parsed manifest and the segment it names.  `ambiguous` marks a declared but unknown
      provenance. */
  datatype Manifest = Manifest(segment: nat, pairId: Option<nat>, provenance: Option<nat>, ambiguous: bool,
                               funcs: seq<Func>)

  datatype Oracle = Oracle(
    abi: Bytes -> bool,
    parse: Bytes -> Manifest,
    exports: (Bytes, Manifest) -> bool)

  const RAM_PAGES := 8 * 1024 * 1024 / 4096

  function Normalized(f: Func): Func {
    Func(Phys(f.entry), f.crc,
         seq(|f.ranges|, i requires 0 <= i < |f.ranges| => Range(Phys(f.ranges[i].start), f.ranges[i].length)))
  }

  function NormalizedAll(funcs: seq<Func>): (r: seq<Func>)
    ensures |r| == |funcs|
  {
    seq(|funcs|, i requires 0 <= i < |funcs| => Normalized(funcs[i]))
  }

  /** The RAM pages one guarded range links to. */
  function Pages(r: Range): set<nat> {
    var lo := Phys(r.start);
    set p: nat | p < RAM_PAGES && lo / 4096 <= p && p * 4096 <= lo + r.length - 1
  }

  function FuncPages(f: Func): set<nat> {
    set r, p | r in f.ranges && p in Pages(r) :: p
  }

  function LinkCount(funcs: seq<Func>): nat {
    if funcs == [] then 0 else |FuncPages(funcs[0])| + LinkCount(funcs[1..])
  }

  /** The physical address `a` is guarded by the range. */
  predicate Covers(r: Range, a: nat) {
    Phys(r.start) <= a < Phys(r.start) + r.length
  }

  /** A byte that the function guards lies in RAM page `p`. */
  ghost predicate Guards(f: Func, p: nat) {
    p < 2048 && exists r, a: nat :: r in f.ranges && Covers(r, a) && a / 4096 == p
  }

  ghost predicate NonEmptyRanges(f: Func) {
    forall r :: r in f.ranges ==> r.length > 0
  }

  lemma PagesExact(r: Range, p: nat)
    requires r.length > 0
    ensures p in Pages(r) <==> p < 2048 && exists a: nat :: Covers(r, a) && a / 4096 == p
  {
    var lo := Phys(r.start);
    if p in Pages(r) {
      var a := if lo < p * 4096 then p * 4096 else lo;
      assert Covers(r, a) && a / 4096 == p;
    }
  }

  /** A function links to exactly the pages that hold a byte it guards. */
  lemma FuncPagesExact(f: Func)
    requires NonEmptyRanges(f)
    ensures forall p :: p in FuncPages(f) <==> Guards(f, p)
  {
    forall p: nat
      ensures p in FuncPages(f) <==> Guards(f, p)
    {
      forall r | r in f.ranges
        ensures p in Pages(r) <==> p < 2048 && exists a: nat :: Covers(r, a) && a / 4096 == p
      {
        PagesExact(r, p);
      }
    }
  }

  /** Each link: a function, by its place in the manifest, and a page it links to. */
  ghost function Links(funcs: seq<Func>): set<(nat, nat)> {
    set i: nat, p: nat | i < |funcs| && p in FuncPages(funcs[i]) :: (i, p)
  }

  lemma {:induction false} ImageSize<T(!new), U(!new)>(s: set<T>, image: set<U>, f: T -> U)
    requires forall x, y :: x in s && y in s && f(x) == f(y) ==> x == y
    requires forall u :: u in image <==> exists x :: x in s && f(x) == u
    ensures |image| == |s|
    decreases |s|
  {
    if s == {} {
      assert image == {};
    } else {
      var x :| x in s;
      assert f(x) in image;
      forall u
        ensures u in image - {f(x)} <==> exists y :: y in s - {x} && f(y) == u
      {
        if u in image - {f(x)} {
          var y :| y in s && f(y) == u;
          assert y in s - {x};
        }
      }
      ImageSize(s - {x}, image - {f(x)}, f);
    }
  }

  /** The links of the first function, and those of the later ones. */
  lemma LinksSplit(funcs: seq<Func>, first: set<(nat, nat)>, later: set<(nat, nat)>)
    requires funcs != []
    requires first == set l | l in Links(funcs) && l.0 == 0
    requires later == set l | l in Links(funcs) && l.0 != 0
    ensures |first| == |FuncPages(funcs[0])| && |later| == |Links(funcs[1..])|
  {
    var pages, rest := FuncPages(funcs[0]), Links(funcs[1..]);
    var low, high := (p: nat) => (0, p), (m: (nat, nat)) => (m.0 + 1, m.1);
    forall l
      ensures l in first <==> exists p :: p in pages && low(p) == l
    {
      if l in first {
        assert l.1 in pages && low(l.1) == l;
      }
    }
    ImageSize(pages, first, low);
    forall l
      ensures l in later <==> exists m :: m in rest && high(m) == l
    {
      if l in later {
        var m := (l.0 - 1, l.1);
        assert m in rest && high(m) == l;
      }
    }
    ImageSize(rest, later, high);
  }

  lemma {:induction false} LinkCountExact(funcs: seq<Func>)
    ensures LinkCount(funcs) == |Links(funcs)|
    decreases |funcs|
  {
    if funcs == [] {
      assert Links(funcs) == {};
    } else {
      var first := set l | l in Links(funcs) && l.0 == 0;
      var later := set l | l in Links(funcs) && l.0 != 0;
      LinksSplit(funcs, first, later);
      LinkCountExact(funcs[1..]);
      assert Links(funcs) == first + later;
    }
  }

  /** The link count of a manifest is the number of pairs of a function and a page that holds
      a byte it guards. */
  lemma LinksCounted(funcs: seq<Func>)
    requires forall f :: f in funcs ==> NonEmptyRanges(f)
    ensures LinkCount(funcs) == |set i: nat, p: nat | i < |funcs| && p < 2048 && Guards(funcs[i], p) :: (i, p)|
  {
    LinkCountExact(funcs);
    forall i: nat | i < |funcs|
      ensures forall p :: p in FuncPages(funcs[i]) <==> Guards(funcs[i], p)
    {
      FuncPagesExact(funcs[i]);
    }
    assert Links(funcs) == set i: nat, p: nat | i < |funcs| && p < 2048 && Guards(funcs[i], p) :: (i, p);
  }

  /** Two pairs of one directory share candidate cost only when these agree. */
  datatype Identity = Identity(dir: Dir, pairId: nat, provenance: Option<nat>, funcs: seq<Func>)

  datatype Entry = Entry(path: Path, count: nat, identity: Option<Identity>, raw: nat, links: nat)

  function GroupIdentity(dir: Dir, m: Manifest): Option<Identity> {
    if m.pairId.None? || m.ambiguous then None
    else Some(Identity(dir, m.pairId.value, m.provenance, NormalizedAll(m.funcs)))
  }

  /** What a scan of a directory makes of a manifest: nothing if it names another segment. */
  function ReadIn(dir: Dir, m: Manifest): Manifest {
    if m.segment == dir.segment then m else m.(pairId := None, funcs := [])
  }

  function Load(o: Oracle, path: Path, pair: Pair): (e: Entry)
    ensures e.path == path && Consistent(e)
  {
    if pair.dll.None? || pair.dll.value == [] || pair.ranges.None? || pair.ranges.value == [] then
      Entry(path, 0, None, 0, 0)
    else
      var m := ReadIn(path.dir, o.parse(pair.ranges.value));
      if m.funcs == [] || !o.exports(pair.dll.value, m) then
        Entry(path, 0, None, |m.funcs|, LinkCount(m.funcs))
      else
        Entry(path, |m.funcs|, GroupIdentity(path.dir, m), |m.funcs|, LinkCount(m.funcs))
  }

  // ----- What the runtime selects --------------------------------------------

  /** A scan lists this DLL and its ABI matches. */
  predicate Listed(o: Oracle, ns: Namespace, p: Path) {
    p in ns && ns[p].dll.Some? && o.abi(ns[p].dll.value)
  }

  function Index(dirs: seq<Dir>, d: Dir): (i: nat)
    requires d in dirs
    ensures i < |dirs| && dirs[i] == d && d !in dirs[..i]
  {
    if dirs[0] == d then 0 else
      var j := Index(dirs[1..], d);
      assert dirs[..j + 1] == [dirs[0]] + dirs[1..][..j];
      j + 1
  }

  ghost predicate Shadowed(o: Oracle, ns: Namespace, dirs: seq<Dir>, p: Path)
    requires p.dir in dirs
  {
    exists d :: d in dirs && d.segment == p.dir.segment && Index(dirs, d) < Index(dirs, p.dir)
                && Listed(o, ns, Path(d, p.name))
  }

  /** Earlier tiers hide a later pair of the same segment and name. */
  ghost predicate Selected(o: Oracle, ns: Namespace, dirs: seq<Dir>, p: Path) {
    p.dir in dirs && Listed(o, ns, p) && !Shadowed(o, ns, dirs, p)
  }

  ghost function Selection(o: Oracle, ns: Namespace, dirs: seq<Dir>): set<Path> {
    set p | p in ns && Selected(o, ns, dirs, p)
  }

  ghost function Entries(o: Oracle, ns: Namespace, dirs: seq<Dir>): set<Entry> {
    set p | p in Selection(o, ns, dirs) :: Load(o, p, ns[p])
  }

  // ----- Usage ---------------------------------------------------------------

  datatype Usage = Usage(candidates: nat, raw: nat, links: nat, files: nat)

  /** What one pair is charged under: shared by identity, or alone. */
  datatype Charge = Shared(identity: Identity) | Own(path: Path, count: nat)

  function Cost(c: Charge): nat {
    match c
    case Shared(id) => |id.funcs|
    case Own(_, n) => n
  }

  function ChargeOf(e: Entry): Charge {
    if e.identity.Some? then Shared(e.identity.value) else Own(e.path, e.count)
  }

  predicate Consistent(e: Entry) {
    e.identity.Some? ==> e.count == |e.identity.value.funcs|
  }

  ghost function Charges(es: set<Entry>): set<Charge> {
    set e | e in es :: ChargeOf(e)
  }

  function RawOf(e: Entry): nat {
    e.raw
  }

  function LinksOf(e: Entry): nat {
    e.links
  }

  ghost function UsageOf(es: set<Entry>): Usage {
    Usage(SumOver(Charges(es), Cost),
          SumOver(es, RawOf), SumOver(es, LinksOf), |es|)
  }

  /** The usage a charged scan of the namespace finds. */
  ghost function NamespaceUsage(o: Oracle, ns: Namespace, dirs: seq<Dir>): Usage {
    UsageOf(Entries(o, ns, dirs))
  }

  ghost function SetOf(entries: seq<Entry>): set<Entry> {
    set e | e in entries
  }

  ghost predicate DistinctPaths(entries: seq<Entry>) {
    forall i, j :: 0 <= i < j < |entries| ==> entries[i].path != entries[j].path
  }

  /** One more entry; its candidates count only when it is charged for them. */
  function Plus(u: Usage, e: Entry, charged: bool): Usage {
    Usage(if charged then u.candidates + e.count else u.candidates, u.raw + e.raw, u.links + e.links, u.files + 1)
  }

  lemma UsageAdd(es: set<Entry>, e: Entry)
    requires e !in es && Consistent(e)
    ensures UsageOf(es + {e}) == Plus(UsageOf(es), e, ChargeOf(e) !in Charges(es))
  {
    var raw, raw' := SumOver(es, RawOf), SumOver(es + {e}, RawOf);
    assert raw' == raw + e.raw by { SumAdd(es, e, RawOf); }
    var links, links' := SumOver(es, LinksOf), SumOver(es + {e}, LinksOf);
    assert links' == links + e.links by { SumAdd(es, e, LinksOf); }
    var cost, cost' := SumOver(Charges(es), Cost), SumOver(Charges(es + {e}), Cost);
    assert cost' == if ChargeOf(e) !in Charges(es) then cost + e.count else cost by { CandidatesAdd(es, e); }
    assert UsageOf(es) == Usage(cost, raw, links, |es|);
    assert UsageOf(es + {e}) == Usage(cost', raw', links', |es| + 1);
  }

  lemma CandidatesAdd(es: set<Entry>, e: Entry)
    requires Consistent(e)
    ensures SumOver(Charges(es + {e}), Cost) ==
            SumOver(Charges(es), Cost) + if ChargeOf(e) in Charges(es) then 0 else e.count
  {
    ChargesAdd(es, e);
    if ChargeOf(e) !in Charges(es) {
      SumAdd(Charges(es), ChargeOf(e), Cost);
    }
  }

  lemma ChargesAdd(es: set<Entry>, e: Entry)
    ensures Charges(es + {e}) == if ChargeOf(e) in Charges(es) then Charges(es) else Charges(es) + {ChargeOf(e)}
  {
    assert Charges(es + {e}) == Charges(es) + {ChargeOf(e)};
  }

  ghost predicate SeenIn(seen: set<Identity>, es: set<Entry>) {
    forall id :: id in seen <==> exists e :: e in es && e.identity == Some(id)
  }

  lemma TallyStep(es: set<Entry>, seen: set<Identity>, e: Entry)
    requires SeenIn(seen, es) && Consistent(e)
    requires forall x :: x in es ==> x.path != e.path
    ensures
      && UsageOf(es + {e}) == Plus(UsageOf(es), e, e.identity.None? || e.identity.value !in seen)
      && SeenIn(if e.identity.Some? then seen + {e.identity.value} else seen, es + {e})
  {
    UsageAdd(es, e);
    if e.identity.None? {
      assert ChargeOf(e) !in Charges(es);
    } else if e.identity.value in seen {
      var x :| x in es && x.identity == e.identity;
      assert ChargeOf(x) == ChargeOf(e);
    }
  }

  lemma PrefixSet(records: seq<Entry>, i: nat)
    requires i < |records| && DistinctPaths(records)
    ensures SetOf(records[..i + 1]) == SetOf(records[..i]) + {records[i]}
    ensures forall x :: x in SetOf(records[..i]) ==> x.path != records[i].path
  {
    assert records[..i + 1] == records[..i] + [records[i]];
  }

  /** Add up records; an identity already seen costs no candidates. */
  method Tally(records: seq<Entry>) returns (u: Usage)
    requires DistinctPaths(records)
    requires forall e :: e in records ==> Consistent(e)
    ensures u == UsageOf(SetOf(records))
  {
    u := Usage(0, 0, 0, 0);
    var seen: set<Identity> := {};
    ghost var done: set<Entry> := {};
    UsageEmpty();
    for i := 0 to |records|
      invariant done == SetOf(records[..i])
      invariant u == UsageOf(done)
      invariant SeenIn(seen, done)
    {
      var e := records[i];
      PrefixSet(records, i);
      TallyStep(done, seen, e);
      u := Plus(u, e, e.identity.None? || e.identity.value !in seen);
      if e.identity.Some? {
        seen := seen + {e.identity.value};
      }
      done := done + {e};
    }
    assert records[..|records|] == records;
  }

  lemma UsageEmpty()
    ensures UsageOf({}) == Usage(0, 0, 0, 0)
  {
    assert Charges({}) == {};
  }

  // ----- The inventory scan ----------------------------------------------------

  type Listing = map<Dir, seq<nat>>

  predicate NoDuplicates<T(==)>(xs: seq<T>) {
    forall i, j :: 0 <= i < j < |xs| ==> xs[i] != xs[j]
  }

  /** Directory reads, in any order, of the DLL names on disk. */
  ghost predicate Lists(ns: Namespace, listing: Listing) {
    && (forall d :: d in listing ==> NoDuplicates(listing[d]))
    && (forall p :: p in ns && ns[p].dll.Some? <==> p.dir in listing && p.name in listing[p.dir])
  }

  /** Where the scan stands: directories before `i`, and names before `j` in the next. */
  ghost predicate Scanned(dirs: seq<Dir>, i: nat, names: seq<nat>, p: Path)
    requires i <= |dirs|
  {
    p.dir in dirs[..i] || (i < |dirs| && p.dir == dirs[i] && p.name in names)
  }

  ghost predicate ScanState(o: Oracle, ns: Namespace, dirs: seq<Dir>, i: nat, names: seq<nat>,
                            seen: set<(nat, nat)>, entries: seq<Entry>)
    requires i <= |dirs|
  {
    && DistinctPaths(entries)
    && (forall e :: e in entries ==> e.path in ns && e == Load(o, e.path, ns[e.path]))
    && (forall p :: Selected(o, ns, dirs, p) && Scanned(dirs, i, names, p) ==> Load(o, p, ns[p]) in entries)
    && (forall e :: e in entries ==> Selected(o, ns, dirs, e.path) && Scanned(dirs, i, names, e.path))
    && (forall s: nat, n: nat :: (s, n) in seen <==>
          exists d :: d in dirs && d.segment == s && Listed(o, ns, Path(d, n)) && Scanned(dirs, i, names, Path(d, n)))
  }

  lemma PrefixIndex(dirs: seq<Dir>, i: nat, d: Dir)
    requires i <= |dirs| && d in dirs
    ensures d in dirs[..i] <==> Index(dirs, d) < i
  {
  }

  lemma FirstPlace(dirs: seq<Dir>, i: nat)
    requires i < |dirs| && dirs[i] !in dirs[..i]
    ensures Index(dirs, dirs[i]) == i && forall d :: d in dirs ==> (d in dirs[..i] <==> Index(dirs, d) < i)
  {
    forall d | d in dirs
      ensures d in dirs[..i] <==> Index(dirs, d) < i
    {
      PrefixIndex(dirs, i, d);
    }
    PrefixIndex(dirs, i + 1, dirs[i]);
    assert dirs[..i + 1] == dirs[..i] + [dirs[i]];
  }

  /** A basename has been seen exactly when the path is shadowed. */
  lemma SeenShadows(o: Oracle, ns: Namespace, dirs: seq<Dir>, i: nat, names: seq<nat>, n: nat,
                    seen: set<(nat, nat)>, entries: seq<Entry>)
    requires i < |dirs| && dirs[i] !in dirs[..i] && n !in names && Listed(o, ns, Path(dirs[i], n))
    requires ScanState(o, ns, dirs, i, names, seen, entries)
    ensures (dirs[i].segment, n) in seen <==> Shadowed(o, ns, dirs, Path(dirs[i], n))
  {
    FirstPlace(dirs, i);
  }

  /** A name that is not listed, or was seen, is passed over. */
  lemma ScanSkip(o: Oracle, ns: Namespace, dirs: seq<Dir>, i: nat, names: seq<nat>, n: nat,
                 seen: set<(nat, nat)>, entries: seq<Entry>)
    requires i < |dirs| && dirs[i] !in dirs[..i] && n !in names
    requires ScanState(o, ns, dirs, i, names, seen, entries)
    requires !Listed(o, ns, Path(dirs[i], n)) || (dirs[i].segment, n) in seen
    ensures ScanState(o, ns, dirs, i, names + [n], seen, entries)
  {
    var p := Path(dirs[i], n);
    assert forall q :: Scanned(dirs, i, names + [n], q) <==> Scanned(dirs, i, names, q) || q == p;
    if Listed(o, ns, p) {
      SeenShadows(o, ns, dirs, i, names, n, seen, entries);
    }
  }

  /** A listed name whose basename is new is selected. */
  lemma ScanTake(o: Oracle, ns: Namespace, dirs: seq<Dir>, i: nat, names: seq<nat>, n: nat,
                 seen: set<(nat, nat)>, entries: seq<Entry>)
    requires i < |dirs| && dirs[i] !in dirs[..i] && n !in names
    requires ScanState(o, ns, dirs, i, names, seen, entries)
    requires Listed(o, ns, Path(dirs[i], n)) && (dirs[i].segment, n) !in seen
    ensures ScanState(o, ns, dirs, i, names + [n], seen + {(dirs[i].segment, n)},
                      entries + [Load(o, Path(dirs[i], n), ns[Path(dirs[i], n)])])
  {
    var p := Path(dirs[i], n);
    assert forall q :: Scanned(dirs, i, names + [n], q) <==> Scanned(dirs, i, names, q) || q == p;
    SeenShadows(o, ns, dirs, i, names, n, seen, entries);
  }

  /** Moving past a finished directory, or past one already scanned, changes nothing. */
  lemma ScanNextDir(o: Oracle, ns: Namespace, dirs: seq<Dir>, i: nat, names: seq<nat>,
                    seen: set<(nat, nat)>, entries: seq<Entry>)
    requires i < |dirs|
    requires ScanState(o, ns, dirs, i, names, seen, entries)
    requires dirs[i] in dirs[..i] || forall p :: Listed(o, ns, p) && p.dir == dirs[i] ==> p.name in names
    ensures ScanState(o, ns, dirs, i + 1, [], seen, entries)
  {
    assert dirs[..i + 1] == dirs[..i] + [dirs[i]];
    assert forall p :: Listed(o, ns, p) ==> (Scanned(dirs, i, names, p) <==> Scanned(dirs, i + 1, [], p));
  }

  /** The names of one directory, in the order it was read. */
  method ScanDirectory(o: Oracle, ns: Namespace, dirs: seq<Dir>, i: nat, names: seq<nat>, seen0: set<(nat, nat)>,
                       entries0: seq<Entry>)
    returns (seen: set<(nat, nat)>, entries: seq<Entry>)
    requires i < |dirs| && dirs[i] !in dirs[..i] && NoDuplicates(names)
    requires forall n :: n in names ==> Path(dirs[i], n) in ns && ns[Path(dirs[i], n)].dll.Some?
    requires ScanState(o, ns, dirs, i, [], seen0, entries0)
    ensures ScanState(o, ns, dirs, i, names, seen, entries)
  {
    seen, entries := seen0, entries0;
    for j := 0 to |names|
      invariant ScanState(o, ns, dirs, i, names[..j], seen, entries)
    {
      assert names[..j + 1] == names[..j] + [names[j]] && names[j] in names && names[j] !in names[..j];
      var p := Path(dirs[i], names[j]);
      if !o.abi(ns[p].dll.value) || (p.dir.segment, p.name) in seen {
        ScanSkip(o, ns, dirs, i, names[..j], names[j], seen, entries);
      } else {
        ScanTake(o, ns, dirs, i, names[..j], names[j], seen, entries);
        seen := seen + {(p.dir.segment, p.name)};
        entries := entries + [Load(o, p, ns[p])];
      }
    }
    assert names[..|names|] == names;
  }

  lemma ScanStart(o: Oracle, ns: Namespace, dirs: seq<Dir>)
    ensures ScanState(o, ns, dirs, 0, [], {}, [])
  {
  }

  lemma ScanDone(o: Oracle, ns: Namespace, dirs: seq<Dir>, seen: set<(nat, nat)>, entries: seq<Entry>)
    requires ScanState(o, ns, dirs, |dirs|, [], seen, entries)
    ensures DistinctPaths(entries) && SetOf(entries) == Entries(o, ns, dirs)
  {
    assert dirs[..|dirs|] == dirs;
    assert forall p :: Selected(o, ns, dirs, p) ==> Scanned(dirs, |dirs|, [], p);
  }

  /** Scan the directories in order and keep the first pair of each basename. */
  method Inventory(o: Oracle, ns: Namespace, dirs: seq<Dir>, listing: Listing) returns (entries: seq<Entry>)
    requires Lists(ns, listing)
    ensures DistinctPaths(entries)
    ensures SetOf(entries) == Entries(o, ns, dirs)
  {
    entries := [];
    var seen: set<(nat, nat)> := {};
    ScanStart(o, ns, dirs);
    for i := 0 to |dirs|
      invariant ScanState(o, ns, dirs, i, [], seen, entries)
    {
      var d := dirs[i];
      if d in dirs[..i] || d !in listing {
        ScanNextDir(o, ns, dirs, i, [], seen, entries);
      } else {
        seen, entries := ScanDirectory(o, ns, dirs, i, listing[d], seen, entries);
        ScanNextDir(o, ns, dirs, i, listing[d], seen, entries);
      }
    }
    ScanDone(o, ns, dirs, seen, entries);
  }

  // ----- The projection ----------------------------------------------------------

  predicate SameBasename(p: Path, q: Path) {
    p.dir.segment == q.dir.segment && p.name == q.name
  }

  /** The position the projection ranks a directory at: its last in the list, else 0. */
  function Rank(dirs: seq<Dir>, d: Dir): (r: nat)
    ensures d in dirs && NoDuplicates(dirs) ==> r == Index(dirs, d)
  {
    if dirs == [] then 0
    else if dirs[|dirs| - 1] == d then |dirs| - 1
    else
      assert d in dirs <==> d in dirs[..|dirs| - 1];
      Rank(dirs[..|dirs| - 1], d)
  }

  /** Every listed pair is selected or hidden by a selected one of an earlier tier. */
  lemma {:induction false} FirstListed(o: Oracle, ns: Namespace, dirs: seq<Dir>, p: Path) returns (q: Path)
    requires p.dir in dirs && Listed(o, ns, p)
    ensures Selected(o, ns, dirs, q) && SameBasename(q, p) && Index(dirs, q.dir) <= Index(dirs, p.dir)
    decreases Index(dirs, p.dir)
  {
    if Shadowed(o, ns, dirs, p) {
      var d :| d in dirs && d.segment == p.dir.segment && Index(dirs, d) < Index(dirs, p.dir)
               && Listed(o, ns, Path(d, p.name));
      q := FirstListed(o, ns, dirs, Path(d, p.name));
    } else {
      q := p;
    }
  }

  /** A pair that a scan lists: its DLL's ABI matches. */
  predicate Loadable(o: Oracle, pair: Pair) {
    pair.dll.Some? && o.abi(pair.dll.value)
  }

  /** Publishing below a selected pair of the same basename is invisible. */
  lemma PublishHidden(o: Oracle, ns: Namespace, dirs: seq<Dir>, final: Path, pair: Pair, sel: Path)
    requires final.dir in dirs
    requires Selected(o, ns, dirs, sel) && SameBasename(sel, final) && Index(dirs, sel.dir) < Index(dirs, final.dir)
    ensures Entries(o, ns[final := pair], dirs) == Entries(o, ns, dirs)
  {
    var ns' := ns[final := pair];
    forall q: Path | q.dir in dirs
      ensures Selected(o, ns', dirs, q) <==> Selected(o, ns, dirs, q)
    {
      HiddenOther(o, ns, dirs, final, pair, sel, q);
    }
    assert Path(sel.dir, final.name) == sel;
    assert Shadowed(o, ns, dirs, final);
    assert Selection(o, ns', dirs) == Selection(o, ns, dirs);
  }

  lemma HiddenOther(o: Oracle, ns: Namespace, dirs: seq<Dir>, final: Path, pair: Pair, sel: Path, q: Path)
    requires final.dir in dirs && q.dir in dirs
    requires Selected(o, ns, dirs, sel) && SameBasename(sel, final) && Index(dirs, sel.dir) < Index(dirs, final.dir)
    ensures Selected(o, ns[final := pair], dirs, q) <==> Selected(o, ns, dirs, q)
  {
    var ns' := ns[final := pair];
    assert Listed(o, ns', sel);
    if SameBasename(q, final) && Index(dirs, final.dir) <= Index(dirs, q.dir) {
      assert Path(sel.dir, q.name) == sel;
      assert Shadowed(o, ns, dirs, q) && Shadowed(o, ns', dirs, q);
    } else {
      assert Listed(o, ns', q) <==> Listed(o, ns, q);
      assert forall d :: d in dirs && d.segment == q.dir.segment && Index(dirs, d) < Index(dirs, q.dir) ==>
          Path(d, q.name) != final;
    }
  }

  lemma PublishSelected(o: Oracle, ns: Namespace, dirs: seq<Dir>, final: Path, pair: Pair)
    requires final.dir in dirs && Loadable(o, pair)
    requires forall sel :: Selected(o, ns, dirs, sel) && SameBasename(sel, final) ==>
               Index(dirs, final.dir) <= Index(dirs, sel.dir)
    ensures Selected(o, ns[final := pair], dirs, final)
  {
    var ns' := ns[final := pair];
    if Shadowed(o, ns', dirs, final) {
      var d :| d in dirs && d.segment == final.dir.segment && Index(dirs, d) < Index(dirs, final.dir)
               && Listed(o, ns', Path(d, final.name));
      var q := FirstListed(o, ns, dirs, Path(d, final.name));
      assert false;
    }
  }

  /** Otherwise the published pair is selected, and replaces its basename's old entry. */
  lemma PublishShown(o: Oracle, ns: Namespace, dirs: seq<Dir>, final: Path, pair: Pair)
    requires final.dir in dirs && Loadable(o, pair)
    requires forall sel :: Selected(o, ns, dirs, sel) && SameBasename(sel, final) ==>
               Index(dirs, final.dir) <= Index(dirs, sel.dir)
    ensures Entries(o, ns[final := pair], dirs) ==
            (set e | e in Entries(o, ns, dirs) && !SameBasename(e.path, final)) + {Load(o, final, pair)}
  {
    var ns' := ns[final := pair];
    PublishSelected(o, ns, dirs, final, pair);
    forall q: Path | q.dir in dirs && q != final
      ensures Selected(o, ns', dirs, q) <==> Selected(o, ns, dirs, q) && !SameBasename(q, final)
    {
      OtherSelected(o, ns, dirs, final, pair, q);
    }
    assert Selection(o, ns', dirs) == (set p | p in Selection(o, ns, dirs) && !SameBasename(p, final)) + {final};
  }

  /** Other basenames are selected as before, and the old entry no longer. */
  lemma OtherSelected(o: Oracle, ns: Namespace, dirs: seq<Dir>, final: Path, pair: Pair, q: Path)
    requires final.dir in dirs && Loadable(o, pair) && q.dir in dirs && q != final
    requires Selected(o, ns[final := pair], dirs, final)
    requires forall sel :: Selected(o, ns, dirs, sel) && SameBasename(sel, final) ==>
               Index(dirs, final.dir) <= Index(dirs, sel.dir)
    ensures Selected(o, ns[final := pair], dirs, q) <==> Selected(o, ns, dirs, q) && !SameBasename(q, final)
  {
    var ns' := ns[final := pair];
    assert Listed(o, ns', q) <==> Listed(o, ns, q);
    if SameBasename(q, final) {
      assert Path(q.dir, final.name) == q && Path(final.dir, q.name) == final;
    } else {
      assert forall d :: d in dirs && d.segment == q.dir.segment ==> Path(d, q.name) != final;
    }
  }

  /** A pair that the runtime loads from `dir`. */
  predicate ValidPair(o: Oracle, dir: Dir, pair: Pair) {
    && Loadable(o, pair) && pair.dll.value != []
    && pair.ranges.Some? && pair.ranges.value != []
    && o.parse(pair.ranges.value).segment == dir.segment && o.parse(pair.ranges.value).funcs != []
    && o.exports(pair.dll.value, o.parse(pair.ranges.value))
  }

  /** What the publication of a valid pair is recorded as. */
  function StagedEntry(final: Path, m: Manifest): Entry {
    Entry(final, |m.funcs|, GroupIdentity(final.dir, m), |m.funcs|, LinkCount(m.funcs))
  }

  /** An inventory holds one entry for each segment and name. */
  ghost predicate UniqueBasenames(es: set<Entry>) {
    forall a, b :: a in es && b in es && SameBasename(a.path, b.path) ==> a == b
  }

  ghost predicate Outranked(dirs: seq<Dir>, es: set<Entry>, final: Path) {
    exists e :: e in es && SameBasename(e.path, final) && Rank(dirs, final.dir) > Rank(dirs, e.path.dir)
  }

  ghost function Replaced(es: set<Entry>, staged: Entry): set<Entry> {
    (set e | e in es && !SameBasename(e.path, staged.path)) + {staged}
  }

  /** The usage projected for one publication, from the inventory alone. */
  ghost function Projection(dirs: seq<Dir>, es: set<Entry>, staged: Entry): Usage {
    if Outranked(dirs, es, staged.path) then UsageOf(es) else UsageOf(Replaced(es, staged))
  }

  /** The inventory has one entry per basename, each well formed. */
  lemma InventoryUnique(o: Oracle, ns: Namespace, dirs: seq<Dir>)
    ensures UniqueBasenames(Entries(o, ns, dirs))
    ensures forall e :: e in Entries(o, ns, dirs) ==> Consistent(e)
  {
    forall a, b | a in Entries(o, ns, dirs) && b in Entries(o, ns, dirs) && SameBasename(a.path, b.path)
      ensures a == b
    {
      assert Selected(o, ns, dirs, a.path) && Selected(o, ns, dirs, b.path);
      assert Path(a.path.dir, b.path.name) == a.path && Path(b.path.dir, a.path.name) == b.path;
      assert Index(dirs, a.path.dir) == Index(dirs, b.path.dir);
    }
  }

  lemma FirstOfName(o: Oracle, ns: Namespace, dirs: seq<Dir>, final: Path)
    requires NoDuplicates(dirs) && final.dir in dirs && !Outranked(dirs, Entries(o, ns, dirs), final)
    ensures forall sel :: Selected(o, ns, dirs, sel) && SameBasename(sel, final) ==>
              Index(dirs, final.dir) <= Index(dirs, sel.dir)
  {
    forall sel | Selected(o, ns, dirs, sel) && SameBasename(sel, final)
      ensures Index(dirs, final.dir) <= Index(dirs, sel.dir)
    {
      assert sel in Selection(o, ns, dirs);
      assert Load(o, sel, ns[sel]) in Entries(o, ns, dirs);
    }
  }

  /** For every list of distinct directories, the projection is exactly what a fresh
      scan finds once the valid pair is published. */
  lemma ProjectionExact(o: Oracle, ns: Namespace, dirs: seq<Dir>, final: Path, pair: Pair)
    requires NoDuplicates(dirs) && final.dir in dirs && ValidPair(o, final.dir, pair)
    ensures Projection(dirs, Entries(o, ns, dirs), StagedEntry(final, o.parse(pair.ranges.value)))
            == NamespaceUsage(o, ns[final := pair], dirs)
  {
    var es, staged := Entries(o, ns, dirs), StagedEntry(final, o.parse(pair.ranges.value));
    if Outranked(dirs, es, final) {
      var e :| e in es && SameBasename(e.path, final) && Rank(dirs, final.dir) > Rank(dirs, e.path.dir);
      PublishHidden(o, ns, dirs, final, pair, e.path);
    } else {
      FirstOfName(o, ns, dirs, final);
      PublishShown(o, ns, dirs, final, pair);
      assert Load(o, final, pair) == staged;
    }
  }

  /** Project one publication onto an inventory without scanning again. */
  method Project(current: Usage, entries: seq<Entry>, dirs: seq<Dir>, final: Path, m: Manifest) returns (u: Usage)
    requires DistinctPaths(entries) && UniqueBasenames(SetOf(entries))
    requires forall e :: e in entries ==> Consistent(e)
    requires current == UsageOf(SetOf(entries))
    ensures u == Projection(dirs, SetOf(entries), StagedEntry(final, m))
  {
    var k := 0;
    while k < |entries| && !SameBasename(entries[k].path, final)
      invariant k <= |entries|
      invariant forall i :: 0 <= i < k ==> !SameBasename(entries[i].path, final)
    {
      k := k + 1;
    }
    var staged := StagedEntry(final, m);
    OnlyMatch(entries, k, final);
    if k < |entries| && Rank(dirs, final.dir) > Rank(dirs, entries[k].path.dir) {
      assert Outranked(dirs, SetOf(entries), final);
      return current;
    }
    OthersKept(entries, k, staged);
    u := Tally(Without(entries, k) + [staged]);
  }

  function Without(entries: seq<Entry>, k: nat): (r: seq<Entry>)
    ensures forall e :: e in r ==> e in entries
  {
    if k < |entries| then entries[..k] + entries[k + 1..] else entries
  }

  lemma OnlyMatch(entries: seq<Entry>, k: nat, final: Path)
    requires UniqueBasenames(SetOf(entries)) && k <= |entries|
    requires forall i :: 0 <= i < k ==> !SameBasename(entries[i].path, final)
    requires k < |entries| ==> SameBasename(entries[k].path, final)
    ensures forall e :: e in SetOf(entries) && SameBasename(e.path, final) ==> k < |entries| && e == entries[k]
  {
    forall e | e in SetOf(entries) && SameBasename(e.path, final)
      ensures k < |entries| && e == entries[k]
    {
      var j :| 0 <= j < |entries| && entries[j] == e;
      assert entries[k] in SetOf(entries);
    }
  }

  /** Taking out the found entry and adding the staged one replaces the basename. */
  lemma OthersKept(entries: seq<Entry>, k: nat, staged: Entry)
    requires DistinctPaths(entries) && k <= |entries|
    requires k < |entries| ==> SameBasename(entries[k].path, staged.path)
    requires forall e :: e in SetOf(entries) && SameBasename(e.path, staged.path) ==> k < |entries| && e == entries[k]
    ensures DistinctPaths(Without(entries, k) + [staged])
    ensures SetOf(Without(entries, k) + [staged]) == Replaced(SetOf(entries), staged)
  {
    var rest := Without(entries, k);
    forall e | e in SetOf(entries)
      ensures e in rest <==> !SameBasename(e.path, staged.path)
    {
      var j :| 0 <= j < |entries| && entries[j] == e;
      if j < k {
        assert rest[j] == e;
      } else if j > k {
        assert rest[j - 1] == e;
      }
    }
    assert forall e :: e in rest ==> e in SetOf(entries);
  }

  // ----- The capacity verdict and whole runs -------------------------------------

  const FILE_CAP := 4096

  function Max(a: nat, b: nat): nat {
    if a < b then b else a
  }

  /** One of the four usages would pass its cap and grow. */
  predicate CapacityError(current: Usage, projected: Usage, cap: nat) {
    || (projected.candidates > cap && projected.candidates > current.candidates)
    || (projected.raw > 2 * cap && projected.raw > current.raw)
    || (projected.links > 2 * cap * 8 && projected.links > current.links)
    || (projected.files > FILE_CAP && projected.files > current.files)
  }

  predicate Bounded(u: Usage, cap: nat, initial: Usage) {
    && u.candidates <= Max(cap, initial.candidates)
    && u.raw <= Max(2 * cap, initial.raw)
    && u.links <= Max(2 * cap * 8, initial.links)
    && u.files <= Max(4096, initial.files)
  }

  /** The verdict passes exactly the projections in which no usage passes the larger of its cap
      and what is in use already. */
  lemma VerdictExact(current: Usage, projected: Usage, cap: nat)
    ensures CapacityError(current, projected, cap) <==> !Bounded(projected, cap, current)
  {
  }

  /** The files of every canonical pair of the namespace. */
  type Store = map<Path, Fs>

  ghost predicate StoreInv(store: Store) {
    forall p :: p in store ==> Inv(store[p])
  }

  function VisiblePairs(store: Store): Namespace {
    map p | p in store :: Visible(store[p])
  }

  function LogicalPairs(store: Store): Namespace {
    map p | p in store :: Logical(store[p])
  }

  /** Recovery of every pair, as made before an inventory is taken. */
  function RecoverAll(store: Store, hosts: Path -> Host): Store {
    map p | p in store :: Exec(store[p], RecoveryPlan(store[p], hosts(p)).ops)
  }

  lemma RecoveredShows(fs: Fs, host: Host)
    requires Inv(fs)
    ensures var after := Exec(fs, RecoveryPlan(fs, host).ops);
            Inv(after) && Visible(after) == Logical(fs) == Logical(after)
  {
    RecoveryCorrect(fs, host);
  }

  lemma RecoverAllShowsLogical(store: Store, hosts: Path -> Host)
    requires StoreInv(store)
    ensures StoreInv(RecoverAll(store, hosts))
    ensures VisiblePairs(RecoverAll(store, hosts)) == LogicalPairs(store)
    ensures LogicalPairs(RecoverAll(store, hosts)) == LogicalPairs(store)
  {
    var after := RecoverAll(store, hosts);
    forall p | p in store
      ensures Inv(after[p]) && Visible(after[p]) == Logical(store[p]) == Logical(after[p])
    {
      RecoveredShows(store[p], hosts(p));
    }
    SamePairs(store, after);
  }

  lemma SamePairs(store: Store, after: Store)
    requires after.Keys == store.Keys
    requires forall p :: p in store ==> Visible(after[p]) == Logical(store[p]) == Logical(after[p])
    ensures VisiblePairs(after) == LogicalPairs(store) == LogicalPairs(after)
  {
  }

  /** A publisher under the namespace lock, or a recovery cut off part way.  `wanted`
      is false when a preserved winner makes the publisher stand down. */
  datatype NamespaceEvent =
    | PublishAt(path: Path, token: nat, dll: Bytes, ranges: Bytes, wanted: bool, hosts: Path -> Host, budget: nat)
    | RecoverAt(path: Path, host: Host, budget: nat)

  function StagedPair(e: NamespaceEvent): Pair
    requires e.PublishAt?
  {
    Pair(Some(e.dll), Some(e.ranges))
  }

  /** The publisher's verdict, taken on the recovered files that are visible: the staged
      manifest has a pair id and functions, and no usage is projected beyond its cap. */
  ghost predicate Admits(o: Oracle, dirs: seq<Dir>, cap: nat, ns: Namespace, path: Path, pair: Pair)
    requires pair.ranges.Some?
  {
    var m := o.parse(pair.ranges.value);
    && m.pairId.Some? && m.funcs != []
    && !CapacityError(NamespaceUsage(o, ns, dirs), Projection(dirs, Entries(o, ns, dirs), StagedEntry(path, m)), cap)
  }

  /** No part of `u` is above `v`. */
  predicate Below(u: Usage, v: Usage) {
    u.candidates <= v.candidates && u.raw <= v.raw && u.links <= v.links && u.files <= v.files
  }

  /** A published pair costs what was staged, or no candidates and no more of the rest. */
  lemma LoadBelowStaged(o: Oracle, path: Path, pair: Pair)
    requires pair.ranges.Some?
    ensures var got, staged := Load(o, path, pair), StagedEntry(path, o.parse(pair.ranges.value));
            got == staged || (got.count == 0 && got.raw <= staged.raw && got.links <= staged.links)
  {
  }

  lemma CheaperBelow(others: set<Entry>, got: Entry, staged: Entry)
    requires got !in others && staged !in others && Consistent(got) && Consistent(staged)
    requires got == staged || (got.count == 0 && got.raw <= staged.raw && got.links <= staged.links)
    ensures Below(UsageOf(others + {got}), UsageOf(others + {staged}))
  {
    UsageAdd(others, got);
    UsageAdd(others, staged);
  }

  /** For a pair that a scan lists, loadable in full or not, the projection is never too low. */
  lemma ProjectionSafe(o: Oracle, ns: Namespace, dirs: seq<Dir>, final: Path, pair: Pair)
    requires NoDuplicates(dirs) && final.dir in dirs && Loadable(o, pair) && pair.ranges.Some?
    ensures Below(NamespaceUsage(o, ns[final := pair], dirs),
                  Projection(dirs, Entries(o, ns, dirs), StagedEntry(final, o.parse(pair.ranges.value))))
  {
    var es, staged := Entries(o, ns, dirs), StagedEntry(final, o.parse(pair.ranges.value));
    if Outranked(dirs, es, final) {
      var e :| e in es && SameBasename(e.path, final) && Rank(dirs, final.dir) > Rank(dirs, e.path.dir);
      PublishHidden(o, ns, dirs, final, pair, e.path);
    } else {
      FirstOfName(o, ns, dirs, final);
      PublishShown(o, ns, dirs, final, pair);
      var others := set e | e in es && !SameBasename(e.path, final);
      LoadBelowStaged(o, final, pair);
      CheaperBelow(others, Load(o, final, pair), staged);
    }
  }

  /** An admitted publication respects the bounds once it is visible, if its DLL's ABI
      matches. */
  lemma AdmittedBounded(o: Oracle, dirs: seq<Dir>, cap: nat, ns: Namespace, path: Path, pair: Pair, initial: Usage)
    requires NoDuplicates(dirs) && path.dir in dirs && Loadable(o, pair) && pair.ranges.Some?
    requires Admits(o, dirs, cap, ns, path, pair)
    requires Bounded(NamespaceUsage(o, ns, dirs), cap, initial)
    ensures Bounded(NamespaceUsage(o, ns[path := pair], dirs), cap, initial)
  {
    ProjectionSafe(o, ns, dirs, path, pair);
  }

  // ----- When the ABI does not match ---------------------------------------------

  /** Wherever and whenever the pair is admitted, the bounds survive it. */
  ghost predicate KeepsBounds(o: Oracle, pair: Pair)
    requires pair.ranges.Some?
  {
    forall dirs: seq<Dir>, cap: nat, ns: Namespace, path: Path, initial: Usage ::
      (NoDuplicates(dirs) && path.dir in dirs && Admits(o, dirs, cap, ns, path, pair)
       && Bounded(NamespaceUsage(o, ns, dirs), cap, initial))
      ==> Bounded(NamespaceUsage(o, ns[path := pair], dirs), cap, initial)
  }

  /** Two directories of one segment, in order, that each hold a pair of one name: the
      upper pair hides the lower one while a scan lists it. */
  datatype Tiers = Tiers(dirs: seq<Dir>, upper: Path, lower: Path)

  predicate IsTiers(t: Tiers) {
    && t.dirs == [t.upper.dir, t.lower.dir] && t.upper.dir != t.lower.dir
    && SameBasename(t.upper, t.lower)
  }

  function Holding(t: Tiers, upper: Pair, lower: Pair): Namespace {
    map[t.upper := upper, t.lower := lower]
  }

  lemma TierOrder(t: Tiers)
    requires IsTiers(t)
    ensures NoDuplicates(t.dirs) && t.upper.dir in t.dirs && t.lower.dir in t.dirs
    ensures Index(t.dirs, t.upper.dir) < Index(t.dirs, t.lower.dir)
  {
    var i, j := Index(t.dirs, t.upper.dir), Index(t.dirs, t.lower.dir);
    assert t.dirs[0] == t.upper.dir && t.dirs[1] == t.lower.dir;
    assert t.dirs[i] == t.upper.dir && t.dirs[j] == t.lower.dir;
  }

  lemma OneEntry(o: Oracle, ns: Namespace, dirs: seq<Dir>, p: Path, e: Entry)
    requires p in ns && e == Load(o, p, ns[p])
    requires forall q :: Selected(o, ns, dirs, q) <==> q == p
    ensures Entries(o, ns, dirs) == {e} && NamespaceUsage(o, ns, dirs) == Usage(e.count, e.raw, e.links, 1)
  {
    assert Selection(o, ns, dirs) == {p};
    OneUsage(e);
  }

  lemma OneUsage(e: Entry)
    requires Consistent(e)
    ensures UsageOf({e}) == Usage(e.count, e.raw, e.links, 1)
  {
    UsageEmpty();
    UsageAdd({}, e);
    assert {} + {e} == {e};
  }

  lemma UpperHides(o: Oracle, t: Tiers, ns: Namespace, upper: Pair, lower: Pair)
    requires IsTiers(t) && ns == Holding(t, upper, lower) && t.upper.dir in t.dirs && t.lower.dir in t.dirs
    ensures !Shadowed(o, ns, t.dirs, t.upper) && (Shadowed(o, ns, t.dirs, t.lower) <==> Loadable(o, upper))
  {
    TierOrder(t);
    assert Path(t.upper.dir, t.lower.name) == t.upper;
    assert Listed(o, ns, t.upper) <==> Loadable(o, upper);
    assert forall d :: d in t.dirs ==> d == t.upper.dir || d == t.lower.dir;
  }

  /** While the upper pair is listed it alone is selected; otherwise the lower one is. */
  lemma TierSelected(o: Oracle, t: Tiers, upper: Pair, lower: Pair, q: Path)
    requires IsTiers(t) && Loadable(o, lower)
    ensures Selected(o, Holding(t, upper, lower), t.dirs, q) <==> q == if Loadable(o, upper) then t.upper else t.lower
  {
    var ns := Holding(t, upper, lower);
    TierOrder(t);
    UpperHides(o, t, ns, upper, lower);
    assert Listed(o, ns, t.upper) <==> Loadable(o, upper);
    assert Listed(o, ns, t.lower) <==> Loadable(o, lower);
  }

  /** The one entry that a scan of the two tiers finds. */
  lemma TierUsage(o: Oracle, t: Tiers, upper: Pair, lower: Pair)
    requires IsTiers(t) && Loadable(o, lower)
    ensures var e := if Loadable(o, upper) then Load(o, t.upper, upper) else Load(o, t.lower, lower);
            && Entries(o, Holding(t, upper, lower), t.dirs) == {e}
            && NamespaceUsage(o, Holding(t, upper, lower), t.dirs) == Usage(e.count, e.raw, e.links, 1)
  {
    var ns, p := Holding(t, upper, lower), if Loadable(o, upper) then t.upper else t.lower;
    forall q
      ensures Selected(o, ns, t.dirs, q) <==> q == p
    {
      TierSelected(o, t, upper, lower, q);
    }
    OneEntry(o, ns, t.dirs, p, Load(o, p, ns[p]));
  }

  /** The upper tier's pair is replaced by one entry. */
  lemma TierProjection(t: Tiers, shown: Entry, staged: Entry)
    requires IsTiers(t) && shown.path == t.upper && staged.path == t.upper && Consistent(staged)
    ensures Projection(t.dirs, {shown}, staged) == Usage(staged.count, staged.raw, staged.links, 1)
  {
    assert Replaced({shown}, staged) == {staged};
    OneUsage(staged);
  }

  /** One pair for another in the upper tier is admitted when it fits by itself. */
  lemma TierAdmits(o: Oracle, t: Tiers, upper: Pair, lower: Pair, staged: Pair, cap: nat)
    requires IsTiers(t) && Loadable(o, upper) && Loadable(o, lower)
    requires staged.ranges.Some? && Admissible(o, staged, cap)
    ensures Admits(o, t.dirs, cap, Holding(t, upper, lower), t.upper, staged)
  {
    TierUsage(o, t, upper, lower);
    TierProjection(t, Load(o, t.upper, upper), StagedEntry(t.upper, o.parse(staged.ranges.value)));
  }

  /** What a scan counts before and after the upper pair loses its ABI. */
  lemma TierCandidates(o: Oracle, t: Tiers, ns: Namespace, upper: Pair, lower: Pair)
    requires IsTiers(t) && ValidPair(o, t.lower.dir, lower) && ns == Holding(t, upper, lower)
    ensures NamespaceUsage(o, ns, t.dirs).candidates
            == if Loadable(o, upper) then Load(o, t.upper, upper).count else |o.parse(lower.ranges.value).funcs|
  {
    TierUsage(o, t, upper, lower);
  }

  lemma Exceeds(before: Usage, after: Usage, cap: nat)
    requires before.candidates <= cap < after.candidates
    ensures !Bounded(after, cap, before)
  {
  }

  /** Publishing `staged` at `path` is admitted and still takes a usage beyond its cap and
      beyond what it was. */
  ghost predicate Breaks(o: Oracle, dirs: seq<Dir>, cap: nat, ns: Namespace, path: Path, staged: Pair) {
    && staged.ranges.Some? && NoDuplicates(dirs) && path.dir in dirs && Admits(o, dirs, cap, ns, path, staged)
    && !Bounded(NamespaceUsage(o, ns[path := staged], dirs), cap, NamespaceUsage(o, ns, dirs))
  }

  /** A staged pair whose ABI does not match replaces the upper pair: the lower one, which
      the projection took for hidden, appears and passes the cap. */
  lemma UnmatchedAbiUnhides(o: Oracle, t: Tiers, upper: Pair, lower: Pair, staged: Pair, cap: nat)
    requires IsTiers(t) && Loadable(o, upper) && ValidPair(o, t.lower.dir, lower)
    requires staged.ranges.Some? && !Loadable(o, staged) && Admissible(o, staged, cap)
    requires Load(o, t.upper, upper).count <= cap < |o.parse(lower.ranges.value).funcs|
    ensures Breaks(o, t.dirs, cap, Holding(t, upper, lower), t.upper, staged)
  {
    TierOrder(t);
    TierAdmits(o, t, upper, lower, staged, cap);
    TierGrows(o, t, Holding(t, upper, lower), upper, lower, staged, cap);
  }

  /** The usage after is beyond the cap, and the usage before was not. */
  lemma TierGrows(o: Oracle, t: Tiers, ns: Namespace, upper: Pair, lower: Pair, staged: Pair, cap: nat)
    requires IsTiers(t) && Loadable(o, upper) && ValidPair(o, t.lower.dir, lower) && !Loadable(o, staged)
    requires Load(o, t.upper, upper).count <= cap < |o.parse(lower.ranges.value).funcs|
    requires ns == Holding(t, upper, lower)
    ensures !Bounded(NamespaceUsage(o, ns[t.upper := staged], t.dirs), cap, NamespaceUsage(o, ns, t.dirs))
  {
    var ns' := ns[t.upper := staged];
    assert ns' == Holding(t, staged, lower);
    TierCandidates(o, t, ns, upper, lower);
    TierCandidates(o, t, ns', staged, lower);
    Exceeds(NamespaceUsage(o, ns, t.dirs), NamespaceUsage(o, ns', t.dirs), cap);
  }

  /** Functions of one word each, one after the other. */
  function Functions(n: nat): (r: seq<Func>)
    ensures |r| == n && forall i :: 0 <= i < n ==> r[i] == Func(4 * i, 0, [Range(4 * i, 4)])
  {
    seq(n, (i: nat) => Func(4 * i, 0, [Range(4 * i, 4)]))
  }

  function LengthManifest(ranges: Bytes): Manifest {
    Manifest(0, Some(0), None, false, Functions(|ranges|))
  }

  /** One DLL has the right ABI; a manifest has as many functions as bytes. */
  function PlainOracle(): Oracle {
    Oracle((dll: Bytes) => dll == [1], LengthManifest, (dll, m) => true)
  }

  const SMALL := Pair(Some([1]), Some([1]))
  const LARGE := Pair(Some([1]), Some([1, 1]))
  const FOREIGN := Pair(Some([2]), Some([1]))

  lemma InputFits(p: Path, q: Path)
    requires p.dir.segment == q.dir.segment == 0
    ensures Loadable(PlainOracle(), SMALL) && !Loadable(PlainOracle(), FOREIGN) && ValidPair(PlainOracle(), q.dir, LARGE)
    ensures Load(PlainOracle(), p, SMALL).count == 1 && |PlainOracle().parse(LARGE.ranges.value).funcs| == 2
  {
  }

  lemma InputAdmissible()
    ensures Admissible(PlainOracle(), FOREIGN, 1)
  {
    OneLink();
    assert PlainOracle().parse(FOREIGN.ranges.value) == LengthManifest([1]);
  }

  /** An input on which it happens: the foreign pair replaces the small one of the first
      directory, and the large one of the second appears. */
  lemma UnhidingInput()
    ensures var ns := map[Path(Dir(0, 0), 0) := SMALL, Path(Dir(1, 0), 0) := LARGE];
            Breaks(PlainOracle(), [Dir(0, 0), Dir(1, 0)], 1, ns, Path(Dir(0, 0), 0), FOREIGN)
  {
    var t := Tiers([Dir(0, 0), Dir(1, 0)], Path(Dir(0, 0), 0), Path(Dir(1, 0), 0));
    InputFits(t.upper, t.lower);
    InputAdmissible();
    UnmatchedAbiUnhides(PlainOracle(), t, SMALL, LARGE, FOREIGN, 1);
  }

  lemma OneLink()
    ensures LinkCount(Functions(1)) == 1
  {
    var fs := Functions(1);
    assert fs[0] == Func(0, 0, [Range(0, 4)]) && fs[1..] == [];
    assert Pages(Range(0, 4)) == {0};
    assert FuncPages(fs[0]) == {0};
  }

  /** A manifest the publisher accepts, small enough for an empty namespace. */
  ghost predicate Admissible(o: Oracle, pair: Pair, cap: nat)
    requires pair.ranges.Some?
  {
    var m := o.parse(pair.ranges.value);
    m.pairId.Some? && m.funcs != [] && |m.funcs| <= cap && LinkCount(m.funcs) <= 2 * cap * 8
  }

  lemma LoadableKeepsBounds(o: Oracle, staged: Pair)
    requires staged.ranges.Some? && Loadable(o, staged)
    ensures KeepsBounds(o, staged)
  {
    forall dirs: seq<Dir>, cap: nat, ns: Namespace, path: Path, initial: Usage
      | NoDuplicates(dirs) && path.dir in dirs && Admits(o, dirs, cap, ns, path, staged)
        && Bounded(NamespaceUsage(o, ns, dirs), cap, initial)
      ensures Bounded(NamespaceUsage(o, ns[path := staged], dirs), cap, initial)
    {
      AdmittedBounded(o, dirs, cap, ns, path, staged, initial);
    }
  }

  /** So the bounds survive every admission of a pair exactly when its DLL's ABI matches,
      as soon as some pair that can be hidden is larger than the cap. */
  lemma BoundsNeedAbi(o: Oracle, t: Tiers, upper: Pair, lower: Pair, staged: Pair, cap: nat)
    requires IsTiers(t) && Loadable(o, upper) && ValidPair(o, t.lower.dir, lower)
    requires staged.dll.Some? && staged.ranges.Some? && Admissible(o, staged, cap)
    requires Load(o, t.upper, upper).count <= cap < |o.parse(lower.ranges.value).funcs|
    ensures KeepsBounds(o, staged) <==> o.abi(staged.dll.value)
  {
    if o.abi(staged.dll.value) {
      LoadableKeepsBounds(o, staged);
    } else {
      UnmatchedAbiUnhides(o, t, upper, lower, staged, cap);
      BrokenOnce(o, t.dirs, cap, Holding(t, upper, lower), t.upper, staged);
    }
  }

  lemma BrokenOnce(o: Oracle, dirs: seq<Dir>, cap: nat, ns: Namespace, path: Path, staged: Pair)
    requires Breaks(o, dirs, cap, ns, path, staged)
    ensures !KeepsBounds(o, staged)
  {
    var before := NamespaceUsage(o, ns, dirs);
    assert Bounded(before, cap, before);
  }

  // ----- Whole runs ----------------------------------------------------------------

  /** Publishers stage DLLs of the expected ABI under names of this namespace. */
  ghost predicate Lawful(o: Oracle, dirs: seq<Dir>, e: NamespaceEvent) {
    e.path.dir in dirs && (e.PublishAt? ==> Loadable(o, StagedPair(e)))
  }

  /** The transaction a publisher runs, given the verdict on the recovered namespace. */
  ghost function PublishEvent(o: Oracle, dirs: seq<Dir>, cap: nat, recovered: Store, e: NamespaceEvent): Event
    requires e.PublishAt?
  {
    var admitted := e.wanted && Admits(o, dirs, cap, VisiblePairs(recovered), e.path, StagedPair(e));
    Event.Publish(Publication(e.token, e.dll, e.ranges, admitted), e.hosts(e.path), e.budget)
  }

  ghost function NamespaceStep(o: Oracle, dirs: seq<Dir>, cap: nat, store: Store, e: NamespaceEvent): (r: Store)
    requires e.path in store
    ensures r.Keys == store.Keys
  {
    match e
    case RecoverAt(path, host, budget) => store[path := Step(store[path], Event.Recover(host, budget))]
    case PublishAt(path, _, _, _, _, hosts, _) =>
      var recovered := RecoverAll(store, hosts);
      recovered[path := Step(recovered[path], PublishEvent(o, dirs, cap, recovered, e))]
  }

  ghost function NamespaceRun(o: Oracle, dirs: seq<Dir>, cap: nat, store: Store, events: seq<NamespaceEvent>): Store
    requires forall e :: e in events ==> e.path in store
    decreases |events|
  {
    if events == [] then store
    else NamespaceRun(o, dirs, cap, NamespaceStep(o, dirs, cap, store, events[0]), events[1..])
  }

  lemma LogicalUpdate(store: Store, path: Path, fs: Fs)
    requires StoreInv(store) && path in store && Inv(fs)
    ensures StoreInv(store[path := fs])
    ensures LogicalPairs(store[path := fs]) == LogicalPairs(store)[path := Logical(fs)]
    ensures Logical(fs) == Logical(store[path]) ==> LogicalPairs(store[path := fs]) == LogicalPairs(store)
  {
  }

  /** An event keeps every pair recoverable, and changes the recovered namespace only
      by an admitted publication. */
  lemma NamespaceStepLogical(o: Oracle, dirs: seq<Dir>, cap: nat, store: Store, e: NamespaceEvent)
    requires StoreInv(store) && e.path in store
    ensures
      var store' := NamespaceStep(o, dirs, cap, store, e);
      var ns, ns' := LogicalPairs(store), LogicalPairs(store');
      && StoreInv(store')
      && (ns' == ns || (e.PublishAt? && Admits(o, dirs, cap, ns, e.path, StagedPair(e))
                        && ns' == ns[e.path := StagedPair(e)]))
  {
    match e {
      case RecoverAt(path, host, budget) =>
        StepCorrect(store[path], Event.Recover(host, budget));
        LogicalUpdate(store, path, Step(store[path], Event.Recover(host, budget)));
      case PublishAt(path, _, _, _, _, hosts, _) =>
        RecoverAllShowsLogical(store, hosts);
        var recovered := RecoverAll(store, hosts);
        var event := PublishEvent(o, dirs, cap, recovered, e);
        StepCorrect(recovered[path], event);
        LogicalUpdate(recovered, path, Step(recovered[path], event));
    }
  }

  /** Over every run of publishers and recoveries, each killed anywhere, no recovered
      usage ever exceeds its cap unless it already did at the start. */
  lemma {:induction false} UsageStaysBounded(o: Oracle, dirs: seq<Dir>, cap: nat, store: Store,
                                             events: seq<NamespaceEvent>, initial: Usage)
    requires StoreInv(store) && NoDuplicates(dirs)
    requires forall e :: e in events ==> e.path in store && Lawful(o, dirs, e)
    requires Bounded(NamespaceUsage(o, LogicalPairs(store), dirs), cap, initial)
    ensures
      var store' := NamespaceRun(o, dirs, cap, store, events);
      && StoreInv(store')
      && Bounded(NamespaceUsage(o, LogicalPairs(store'), dirs), cap, initial)
    decreases |events|
  {
    if events != [] {
      var e := events[0];
      NamespaceStepLogical(o, dirs, cap, store, e);
      var store1 := NamespaceStep(o, dirs, cap, store, e);
      if LogicalPairs(store1) != LogicalPairs(store) {
        AdmittedBounded(o, dirs, cap, LogicalPairs(store), e.path, StagedPair(e), initial);
      }
      UsageStaysBounded(o, dirs, cap, store1, events[1..], initial);
    }
  }
}
