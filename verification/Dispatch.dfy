/** The static overlay dispatcher: a compile-time open-addressed hash table from
    entry PCs to rows, and the emitted lookup with its "last hit" memo. */
module Dispatch {
  import opened Options
  import opened Powers
  import opened Segments

  type Word = w: nat | w < 0x1_0000_0000

  const KUSEG: nat := 0x0000_0000
  const KSEG0: nat := 0x8000_0000
  const KSEG1: nat := 0xA000_0000

  function SegmentOf(addr: Word): nat {
    addr / SEGMENT_SIZE * SEGMENT_SIZE
  }

  /** The word address times an odd constant. */
  function Mixed(key: Word): bv32 {
    ((key / 4 * 0x9E37_79B1) % 0x1_0000_0000) as bv32
  }

  function Folded(h: bv32): bv32 {
    h ^ (h >> 15)
  }

  /** Multiplicative hash of the word address, folded and masked to the table. */
  function HashSlot(key: Word, size: nat): (slot: nat)
    requires size > 0
    ensures slot < size
  {
    Folded(Mixed(key)) as nat % size
  }

  lemma KnownMix(key: Word)
    requires key == 0x8012_3454
    ensures Mixed(key) == 0x8F57_7885
  {
    assert (key / 4 * 0x9E37_79B1) % 0x1_0000_0000 == 0x8F57_7885;
  }

  lemma KnownFold(h: bv32)
    requires h == 0x8F57_7885
    ensures Folded(h) == 0x8F56_662B
  {
  }

  lemma KnownNumber(h: bv32)
    requires h == 0x8F56_662B
    ensures h as nat == 0x8F56_662B
  {
  }

  /** A slot as the emitted code computes it. */
  lemma KnownSlot(key: Word, size: nat)
    requires key == 0x8012_3454 && size == 1024
    ensures HashSlot(key, size) == 0x22B
  {
    KnownMix(key);
    KnownFold(Mixed(key));
    KnownNumber(Folded(Mixed(key)));
  }

  function Hasher(size: nat): Word -> nat
    requires size > 0
  {
    key => HashSlot(key, size)
  }

  // ----- The probe sequence -----------------------------------------------------

  /** The next slot, cyclically. */
  function Next(slot: nat, size: nat): (r: nat)
    requires slot < size
    ensures r < size
  {
    if slot + 1 == size then 0 else slot + 1
  }

  /** The slot `i` steps after `home`; fewer than `size` steps never meet a slot twice. */
  function Probe(home: nat, i: nat, size: nat): (slot: nat)
    requires home < size && i < size
    ensures slot < size
  {
    if home + i < size then home + i else home + i - size
  }

  /** Every slot is some number of steps from home. */
  function Distance(home: nat, slot: nat, size: nat): (i: nat)
    requires home < size && slot < size
    ensures i < size && Probe(home, i, size) == slot
  {
    if home <= slot then slot - home else slot + size - home
  }

  // ----- The table ---------------------------------------------------------------

  /** A table for keys hashed by `hash`, and the row index stored beside each key. */
  ghost predicate Shaped(table: seq<Word>, index: seq<nat>, hash: Word -> nat) {
    |table| == |index| && forall k :: hash(k) < |table|
  }

  /** `key` is `i` steps from its home slot and every slot before it is another key. */
  ghost predicate FoundAt(table: seq<Word>, hash: Word -> nat, key: Word, i: nat)
    requires hash(key) < |table|
  {
    && i < |table| && table[Probe(hash(key), i, |table|)] == key
    && forall j :: 0 <= j < i ==> table[Probe(hash(key), j, |table|)] != 0
                                  && table[Probe(hash(key), j, |table|)] != key
  }

  ghost predicate Findable(table: seq<Word>, hash: Word -> nat, key: Word)
    requires hash(key) < |table|
  {
    exists i :: FoundAt(table, hash, key, i)
  }

  ghost predicate Indexed(table: seq<Word>, index: seq<nat>, keys: seq<Word>)
    requires |table| == |index|
  {
    forall s :: 0 <= s < |table| && table[s] != 0 ==> index[s] < |keys| && keys[index[s]] == table[s]
  }

  /** The table holds exactly `keys`, each with its index, each reachable by probing. */
  ghost predicate Holds(table: seq<Word>, index: seq<nat>, hash: Word -> nat, keys: seq<Word>) {
    && Shaped(table, index, hash)
    && (forall key :: key in keys ==> key != 0 && Findable(table, hash, key))
    && Indexed(table, index, keys)
  }

  ghost predicate Distinct(keys: seq<Word>) {
    forall i, j :: 0 <= i < j < |keys| ==> keys[i] != keys[j]
  }

  /** How many of the first `n` slots are taken. */
  ghost function Taken(table: seq<Word>, n: nat): nat
    requires n <= |table|
  {
    if n == 0 then 0 else Taken(table, n - 1) + if table[n - 1] != 0 then 1 else 0
  }

  lemma {:induction false} TakenUpdate(table: seq<Word>, n: nat, slot: nat, key: Word)
    requires n <= |table| && slot < |table| && table[slot] == 0 && key != 0
    ensures Taken(table[slot := key], n) == Taken(table, n) + if slot < n then 1 else 0
  {
    if n > 0 {
      TakenUpdate(table, n - 1, slot, key);
    }
  }

  lemma {:induction false} EmptySlot(table: seq<Word>, n: nat) returns (slot: nat)
    requires n <= |table| && Taken(table, n) < n
    ensures slot < n && table[slot] == 0
  {
    if table[n - 1] == 0 {
      slot := n - 1;
    } else {
      slot := EmptySlot(table, n - 1);
    }
  }

  lemma {:induction false} TakenNone(table: seq<Word>, n: nat)
    requires n <= |table| && forall s :: 0 <= s < |table| ==> table[s] == 0
    ensures Taken(table, n) == 0
  {
    if n > 0 {
      TakenNone(table, n - 1);
    }
  }

  /** Filling an empty slot leaves every key where probing finds it. */
  lemma InsertKeepsOld(table: seq<Word>, hash: Word -> nat, slot: nat, key: Word, old_: Word, n: nat)
    requires hash(old_) < |table| && slot < |table| && table[slot] == 0 && old_ != 0 && old_ != key && key != 0
    requires FoundAt(table, hash, old_, n)
    ensures FoundAt(table[slot := key], hash, old_, n)
  {
  }

  /** The new key is found at the first slot its probe path left empty. */
  lemma InsertFindsNew(table: seq<Word>, index: seq<nat>, hash: Word -> nat, keys: seq<Word>, key: Word, i: nat)
    requires Holds(table, index, hash, keys) && key !in keys && i < |table|
    requires forall j :: 0 <= j < i ==> table[Probe(hash(key), j, |table|)] != 0
    ensures FoundAt(table[Probe(hash(key), i, |table|) := key], hash, key, i)
  {
    var home, slot := hash(key), Probe(hash(key), i, |table|);
    forall j | 0 <= j < i
      ensures
        var t := table[slot := key][Probe(home, j, |table|)];
        t != 0 && t != key
    {
      var s := Probe(home, j, |table|);
      assert s != slot;
      assert keys[index[s]] == table[s];
    }
  }

  /** Filling the first empty slot of a probe path adds exactly that key. */
  lemma InsertKeeps(table: seq<Word>, index: seq<nat>, hash: Word -> nat, keys: seq<Word>, key: Word, i: nat)
    requires Holds(table, index, hash, keys) && key != 0 && key !in keys && i < |table|
    requires table[Probe(hash(key), i, |table|)] == 0
    requires forall j :: 0 <= j < i ==> table[Probe(hash(key), j, |table|)] != 0
    ensures
      var slot := Probe(hash(key), i, |table|);
      Holds(table[slot := key], index[slot := |keys|], hash, keys + [key])
  {
    var slot := Probe(hash(key), i, |table|);
    var table', index' := table[slot := key], index[slot := |keys|];
    assert Indexed(table', index', keys + [key]);
    forall k | k in keys + [key]
      ensures k != 0 && Findable(table', hash, k)
    {
      if k in keys {
        var n :| FoundAt(table, hash, k, n);
        InsertKeepsOld(table, hash, slot, key, k, n);
      } else {
        InsertFindsNew(table, index, hash, keys, key, i);
      }
    }
  }

  /** Twice as many slots as entries, rounded up to a power of two, at least sixteen. */
  method TableSize(n: nat) returns (size: nat, ghost bits: nat)
    ensures size == Pow2(bits) && size >= 16 && n < size && size >= 2 * n
    ensures size == 16 || size < 4 * n
  {
    size, bits := 16, 4;
    assert Pow2(2) == 4;
    while size < 2 * (if n == 0 then 1 else n)
      invariant size >= 16 && size == Pow2(bits) && (size == 16 || size < 4 * n)
      decreases 2 * n - size
    {
      size, bits := size * 2, bits + 1;
    }
  }

  /** Walk from `home` to the first empty slot. */
  method FindHole(table: array<Word>, home: nat) returns (slot: nat, ghost i: nat)
    requires home < table.Length && Taken(table[..], table.Length) < table.Length
    ensures i < table.Length && slot == Probe(home, i, table.Length) && table[slot] == 0
    ensures forall j :: 0 <= j < i ==> table[..][Probe(home, j, table.Length)] != 0
  {
    ghost var hole := EmptySlot(table[..], table.Length);
    ghost var reach := Distance(home, hole, table.Length);
    slot, i := home, 0;
    while table[slot] != 0
      invariant i <= reach && slot == Probe(home, i, table.Length)
      invariant forall j :: 0 <= j < i ==> table[Probe(home, j, table.Length)] != 0
      decreases reach - i
    {
      slot := Next(slot, table.Length);
      i := i + 1;
    }
  }

  lemma PrefixSnoc(keys: seq<Word>, k: nat)
    requires k < |keys| && Distinct(keys)
    ensures keys[..k + 1] == keys[..k] + [keys[k]] && keys[k] !in keys[..k]
  {
  }

  /** Insert the entry addresses in order by linear probing. */
  method BuildTable(entries: seq<Word>) returns (table: array<Word>, index: array<nat>)
    requires Distinct(entries) && forall k :: 0 <= k < |entries| ==> entries[k] != 0
    ensures fresh(table) && fresh(index)
    ensures table.Length == index.Length >= 16 && table.Length >= 2 * |entries|
    ensures Holds(table[..], index[..], Hasher(table.Length), entries)
    ensures Taken(table[..], table.Length) == |entries|
  {
    var size, _ := TableSize(|entries|);
    table := new Word[size](i => 0);
    index := new nat[size](i => 0);
    TakenNone(table[..], size);
    ghost var hash := Hasher(size);
    for k := 0 to |entries|
      invariant Holds(table[..], index[..], hash, entries[..k])
      invariant Taken(table[..], size) == k
    {
      PrefixSnoc(entries, k);
      Insert(table, index, entries[..k], entries[k], k);
    }
    assert entries[..|entries|] == entries;
  }

  method Insert(table: array<Word>, index: array<nat>, ghost keys: seq<Word>, key: Word, row: nat)
    requires table.Length > 0 && Holds(table[..], index[..], Hasher(table.Length), keys)
    requires key != 0 && key !in keys && Taken(table[..], table.Length) == |keys| < table.Length && row == |keys|
    modifies table, index
    ensures Holds(table[..], index[..], Hasher(table.Length), keys + [key])
    ensures Taken(table[..], table.Length) == |keys| + 1
  {
    var slot, i := FindHole(table, HashSlot(key, table.Length));
    InsertKeeps(table[..], index[..], Hasher(table.Length), keys, key, i);
    TakenUpdate(table[..], table.Length, slot, key);
    ghost var before, beforeIndex := table[..], index[..];
    table[slot] := key;
    index[slot] := row;
    assert table[..] == before[slot := key] && index[..] == beforeIndex[slot := row];
  }

  /** Linear-probe lookup: the stored row of every inserted key, nothing for any other. */
  method Lookup(table: array<Word>, index: array<nat>, ghost keys: seq<Word>, key: Word) returns (row: Option<nat>)
    requires table.Length > 0 && Holds(table[..], index[..], Hasher(table.Length), keys)
    requires Taken(table[..], table.Length) < table.Length
    ensures row.Some? ==> row.value < |keys| && keys[row.value] == key
    ensures row.None? ==> key !in keys
  {
    ghost var hash := Hasher(table.Length);
    var home := HashSlot(key, table.Length);
    ghost var hole := EmptySlot(table[..], table.Length);
    ghost var reach := Distance(home, hole, table.Length);
    var slot := home;
    ghost var i := 0;
    while true
      invariant i <= reach && slot == Probe(home, i, table.Length)
      invariant forall j :: 0 <= j < i ==>
                  table[..][Probe(home, j, table.Length)] != 0 && table[..][Probe(home, j, table.Length)] != key
      decreases reach - i
    {
      if table[slot] == 0 {
        MissAt(table[..], hash, keys, key, i);
        return None;
      }
      if table[slot] == key {
        assert table[..][slot] == key;
        return Some(index[slot]);
      }
      slot := Next(slot, table.Length);
      i := i + 1;
    }
  }

  /** An empty slot on the probe path proves the key was never inserted. */
  lemma MissAt(table: seq<Word>, hash: Word -> nat, keys: seq<Word>, key: Word, i: nat)
    requires forall k :: hash(k) < |table|
    requires forall k :: k in keys ==> k != 0 && Findable(table, hash, k)
    requires i < |table| && table[Probe(hash(key), i, |table|)] == 0
    requires forall j :: 0 <= j < i ==> table[Probe(hash(key), j, |table|)] != key
    ensures key !in keys
  {
  }

  // ----- Rows and variants ------------------------------------------------------------

  type Extent = (nat, nat)

  /** One compiled body: the PC it serves and the guarded bytes it was compiled from. */
  datatype Variant = Variant(addr: Word, crc: Word, ranges: seq<Extent>, symbol: nat)

  /** Occupants of one address, a contiguous run of the flat variant array. */
  datatype Row = Row(addr: Word, first: nat, n: nat)

  function Physical(ranges: seq<Extent>): seq<Extent> {
    seq(|ranges|, i requires 0 <= i < |ranges| => (Phys(ranges[i].0), ranges[i].1))
  }

  /** What the runtime gate sees of a variant. */
  function Guard(v: Variant): (Word, Word, seq<Extent>) {
    (v.addr, v.crc, Physical(v.ranges))
  }

  predicate Callable(v: Variant) {
    v.addr != 0 && SegmentOf(v.addr) in {KUSEG, KSEG0, KSEG1}
  }

  /** Sort key of a variant: address, CRC, ranges, symbol. */
  function SortKey(v: Variant): (k: seq<nat>)
    ensures |k| >= 1 && k[0] == v.addr
  {
    [v.addr, v.crc] + Flatten(v.ranges) + [0, v.symbol]
  }

  function Flatten(ranges: seq<Extent>): seq<nat> {
    if ranges == [] then [] else [ranges[0].0 + 1, ranges[0].1] + Flatten(ranges[1..])
  }

  predicate LexLess(a: seq<nat>, b: seq<nat>) {
    if b == [] then false
    else if a == [] then true
    else a[0] < b[0] || (a[0] == b[0] && LexLess(a[1..], b[1..]))
  }

  ghost predicate AddrSorted(vs: seq<Variant>) {
    forall i, j :: 0 <= i < j < |vs| ==> vs[i].addr <= vs[j].addr
  }

  function InsertSorted(v: Variant, vs: seq<Variant>): (r: seq<Variant>)
    ensures forall w :: w in r <==> w == v || w in vs
    ensures AddrSorted(vs) ==> AddrSorted(r)
  {
    if vs == [] || LexLess(SortKey(v), SortKey(vs[0])) then [v] + vs
    else
      var rest := InsertSorted(v, vs[1..]);
      assert vs[0].addr <= v.addr;
      assert AddrSorted(vs) ==> forall w :: w in rest ==> vs[0].addr <= w.addr;
      [vs[0]] + rest
  }

  // ----- The order of the variants -----------------------------------------------------

  /** Ranges compared like tuples: the first place that differs decides, and a list that ends
      comes first. */
  predicate RangesLess(a: seq<Extent>, b: seq<Extent>) {
    if b == [] then false
    else if a == [] then true
    else
      || a[0].0 < b[0].0
      || (a[0].0 == b[0].0 && (a[0].1 < b[0].1 || (a[0].1 == b[0].1 && RangesLess(a[1..], b[1..]))))
  }

  /** Address, then checksum, then ranges, then symbol. */
  predicate Before(v: Variant, w: Variant) {
    || v.addr < w.addr
    || (v.addr == w.addr
        && (|| v.crc < w.crc
            || (v.crc == w.crc && (RangesLess(v.ranges, w.ranges) || (v.ranges == w.ranges && v.symbol < w.symbol)))))
  }

  lemma {:induction false} FlatOrder(a: seq<Extent>, b: seq<Extent>, x: nat, y: nat)
    ensures LexLess(Flatten(a) + [0, x], Flatten(b) + [0, y]) <==> RangesLess(a, b) || (a == b && x < y)
    decreases |a|
  {
    var k, l := Flatten(a) + [0, x], Flatten(b) + [0, y];
    if a == [] || b == [] {
      TwoPlaces(k, l);
    } else {
      TwoPlaces(k, l);
      assert k[2..] == Flatten(a[1..]) + [0, x] && l[2..] == Flatten(b[1..]) + [0, y];
      assert a == [a[0]] + a[1..] && b == [b[0]] + b[1..];
      FlatOrder(a[1..], b[1..], x, y);
    }
  }

  lemma TwoPlaces(k: seq<nat>, l: seq<nat>)
    requires |k| >= 2 && |l| >= 2
    ensures LexLess(k, l) <==> k[0] < l[0] || (k[0] == l[0] && (k[1] < l[1] || (k[1] == l[1] && LexLess(k[2..], l[2..]))))
  {
    assert k[1..][1..] == k[2..] && l[1..][1..] == l[2..];
    assert LexLess(k[1..], l[1..]) <==> k[1] < l[1] || (k[1] == l[1] && LexLess(k[1..][1..], l[1..][1..]));
  }

  /** The sort key orders variants like that. */
  lemma SortKeyOrder(v: Variant, w: Variant)
    ensures LexLess(SortKey(v), SortKey(w)) <==> Before(v, w)
  {
    var k, l := SortKey(v), SortKey(w);
    TwoPlaces(k, l);
    assert k[2..] == Flatten(v.ranges) + [0, v.symbol] && l[2..] == Flatten(w.ranges) + [0, w.symbol];
    FlatOrder(v.ranges, w.ranges, v.symbol, w.symbol);
  }

  lemma {:induction false} LexTransitive(a: seq<nat>, b: seq<nat>, c: seq<nat>)
    requires LexLess(a, b) && LexLess(b, c)
    ensures LexLess(a, c)
    decreases |a|
  {
    if a != [] && a[0] == b[0] == c[0] {
      LexTransitive(a[1..], b[1..], c[1..]);
    }
  }

  lemma BeforeTransitive(u: Variant, v: Variant, w: Variant)
    requires Before(u, v) && Before(v, w)
    ensures Before(u, w)
  {
    SortKeyOrder(u, v);
    SortKeyOrder(v, w);
    SortKeyOrder(u, w);
    LexTransitive(SortKey(u), SortKey(v), SortKey(w));
  }

  lemma {:induction false} NotLessItself(a: seq<Extent>)
    ensures !RangesLess(a, a)
    decreases |a|
  {
    if a != [] {
      NotLessItself(a[1..]);
    }
  }

  lemma NotBeforeItself(v: Variant)
    ensures !Before(v, v)
  {
    NotLessItself(v.ranges);
  }

  ghost predicate Ordered(vs: seq<Variant>) {
    forall i, j :: 0 <= i < j < |vs| ==> !Before(vs[j], vs[i])
  }

  lemma {:induction false} InsertOrdered(v: Variant, vs: seq<Variant>)
    requires Ordered(vs)
    ensures Ordered(InsertSorted(v, vs))
  {
    var r := InsertSorted(v, vs);
    if vs != [] {
      SortKeyOrder(v, vs[0]);
      if Before(v, vs[0]) {
        forall w | w in vs
          ensures !Before(w, v)
        {
          var i :| 0 <= i < |vs| && vs[i] == w;
          NotBeforeItself(w);
          if Before(w, v) {
            BeforeTransitive(w, v, vs[0]);
          }
        }
        assert r == [v] + vs;
      } else {
        var rest := InsertSorted(v, vs[1..]);
        InsertOrdered(v, vs[1..]);
        forall w | w in rest
          ensures !Before(w, vs[0])
        {
          assert w == v || w in vs[1..];
        }
        assert r == [vs[0]] + rest;
      }
    }
  }

  /** The code addresses: the three segments, without address 0. */
  lemma CallableExactly(v: Variant)
    ensures Callable(v) <==> 0 < v.addr < 0x2000_0000 || 0x8000_0000 <= v.addr < 0xC000_0000
  {
  }

  /** No two variants have the same guard. */
  ghost predicate OneEach(vs: seq<Variant>) {
    forall i, j :: 0 <= i < j < |vs| ==> Guard(vs[i]) != Guard(vs[j])
  }

  lemma {:induction false} InsertOneEach(v: Variant, vs: seq<Variant>)
    requires OneEach(vs) && forall w :: w in vs ==> Guard(w) != Guard(v)
    ensures OneEach(InsertSorted(v, vs))
  {
    var r := InsertSorted(v, vs);
    if vs == [] || LexLess(SortKey(v), SortKey(vs[0])) {
      assert r == [v] + vs;
    } else {
      var rest := InsertSorted(v, vs[1..]);
      InsertOneEach(v, vs[1..]);
      forall w | w in rest
        ensures Guard(w) != Guard(vs[0])
      {
        assert w == v || w in vs[1..];
      }
      assert r == [vs[0]] + rest;
    }
  }

  /** `unique` is `variants` up to equal guards, with physical ranges. */
  ghost predicate SameGuards(variants: seq<Variant>, unique: seq<Variant>) {
    && (forall w :: w in unique ==> Physical(w.ranges) == w.ranges && Guarded(variants, Guard(w)))
    && (forall v :: v in variants ==> Guarded(unique, Guard(v)))
  }

  ghost predicate Guarded(variants: seq<Variant>, g: (Word, Word, seq<Extent>)) {
    exists v :: v in variants && Guard(v) == g
  }

  /** Dropping repeated guards never changes whether an address has a live variant. */
  lemma DedupKeepsAnswers(variants: seq<Variant>, unique: seq<Variant>, addr: Word, gate: Gate)
    requires SameGuards(variants, unique)
    ensures (exists v :: v in variants && v.addr == addr && gate(Physical(v.ranges), v.crc))
            <==> (exists w :: w in unique && w.addr == addr && Live(gate, w))
  {
    if v :| v in variants && v.addr == addr && gate(Physical(v.ranges), v.crc) {
      var w :| w in unique && Guard(w) == Guard(v);
      assert Live(gate, w);
    }
    if w :| w in unique && w.addr == addr && Live(gate, w) {
      var v :| v in variants && Guard(v) == Guard(w);
      assert gate(Physical(v.ranges), v.crc);
    }
  }

  /** Drop repeated guards and sort: one variant per guard. */
  method Unique(variants: seq<Variant>) returns (ok: bool, unique: seq<Variant>)
    ensures ok <==> forall v :: v in variants ==> Callable(v)
    ensures ok ==> AddrSorted(unique) && OneEach(unique) && Ordered(unique)
    ensures ok ==> SameGuards(variants, unique) && forall w :: w in unique ==> Callable(w)
  {
    unique := [];
    var seen: set<(Word, Word, seq<Extent>)> := {};
    for i := 0 to |variants|
      invariant AddrSorted(unique) && OneEach(unique) && Ordered(unique)
      invariant forall v :: v in variants[..i] ==> Callable(v)
      invariant forall w :: w in unique ==> Callable(w) && Physical(w.ranges) == w.ranges
      invariant forall w :: w in unique ==> Guarded(variants, Guard(w))
      invariant forall v :: v in variants[..i] ==> Guard(v) in seen
      invariant forall g :: g in seen <==> Guarded(unique, g)
    {
      var v := variants[i];
      assert variants[..i + 1] == variants[..i] + [v];
      if !Callable(v) {
        return false, [];
      }
      if Guard(v) !in seen {
        seen := seen + {Guard(v)};
        var item := v.(ranges := Physical(v.ranges));
        PhysicalTwice(v.ranges);
        assert Guard(item) == Guard(v);
        InsertOneEach(item, unique);
        InsertOrdered(item, unique);
        unique := InsertSorted(item, unique);
      }
    }
    assert variants[..|variants|] == variants;
    ok := true;
  }

  lemma PhysicalTwice(ranges: seq<Extent>)
    ensures Physical(Physical(ranges)) == Physical(ranges)
  {
  }

  // ----- The emitted dispatcher -----------------------------------------------------

  /** The live-byte gate: do the guarded bytes now in RAM hash to this CRC? */
  type Gate = (seq<Extent>, Word) -> bool

  predicate Live(gate: Gate, v: Variant) {
    gate(v.ranges, v.crc)
  }

  /** The remembered occupant is tried first when there are several, then all in order. */
  function Choice(occupants: seq<Variant>, memo: nat, gate: Gate): Option<nat> {
    if MemoHit(occupants, memo, gate) then Some(Remembered(occupants, memo))
    else FirstLive(occupants, 0, gate)
  }

  function Remembered(occupants: seq<Variant>, memo: nat): nat {
    if memo < |occupants| then memo else 0
  }

  predicate MemoHit(occupants: seq<Variant>, memo: nat, gate: Gate) {
    |occupants| > 1 && Live(gate, occupants[Remembered(occupants, memo)])
  }

  /** A memo hit keeps the memo; a hit in the walk stores its position in sixteen bits. */
  function NextMemo(occupants: seq<Variant>, memo: nat, gate: Gate): nat {
    var c := Choice(occupants, memo, gate);
    if MemoHit(occupants, memo, gate) || c.None? then memo else c.value % 0x1_0000
  }

  /** How many of the first `n` occupants a walk asks about, having tried the remembered one. */
  function Asked(occupants: seq<Variant>, memo: nat, n: nat): int {
    n - if |occupants| > 1 && memo < n then 1 else 0
  }

  /** How often the gate is asked: the remembered occupant when there are several, then the
      others in order up to the chosen one. */
  function GateCalls(occupants: seq<Variant>, memo: nat, gate: Gate): nat {
    var c := Choice(occupants, memo, gate);
    if MemoHit(occupants, memo, gate) then 1
    else if c.None? then |occupants|
    else c.value + 1 + if c.value < Remembered(occupants, memo) then 1 else 0
  }

  function FirstLive(occupants: seq<Variant>, i: nat, gate: Gate): (r: Option<nat>)
    requires i <= |occupants|
    ensures r.Some? ==> i <= r.value < |occupants| && Live(gate, occupants[r.value])
    ensures forall j :: i <= j < (if r.None? then |occupants| else r.value) ==> !Live(gate, occupants[j])
    decreases |occupants| - i
  {
    if i == |occupants| then None
    else if Live(gate, occupants[i]) then Some(i)
    else FirstLive(occupants, i + 1, gate)
  }

  /** The memo only reorders candidates: the choice is live, it is missing only when no
      occupant is live, and two histories can differ only if two occupants are live. */
  lemma ChoiceSound(occupants: seq<Variant>, memo: nat, other: nat, gate: Gate)
    ensures
      var c := Choice(occupants, memo, gate);
      && (c.Some? ==> c.value < |occupants| && Live(gate, occupants[c.value]))
      && (c.None? <==> forall v :: v in occupants ==> !Live(gate, v))
    ensures
      (forall i, j :: 0 <= i < j < |occupants| ==> !(Live(gate, occupants[i]) && Live(gate, occupants[j]))) ==>
        Choice(occupants, memo, gate) == Choice(occupants, other, gate)
  {
    var c := Choice(occupants, memo, gate);
    if c.Some? {
      assert occupants[c.value] in occupants;
    }
  }

  /** Nothing is asked twice, and while the bytes stay the next dispatch makes the same choice.
      It asks the gate once exactly when the memo had hit or holds the position. */
  lemma MemoPays(occupants: seq<Variant>, memo: nat, gate: Gate)
    ensures
      var c, next := Choice(occupants, memo, gate), NextMemo(occupants, memo, gate);
      && GateCalls(occupants, memo, gate) <= |occupants|
      && (c.None? ==> GateCalls(occupants, memo, gate) == |occupants| && next == memo)
      && Choice(occupants, next, gate) == c
      && (c.Some? ==>
            (GateCalls(occupants, next, gate) == 1 <==> MemoHit(occupants, memo, gate) || c.value < 0x1_0000))
  {
    var c, next := Choice(occupants, memo, gate), NextMemo(occupants, memo, gate);
    if c.Some? && !MemoHit(occupants, memo, gate) && c.value >= 0x1_0000 {
      assert next < c.value && !Live(gate, occupants[next]);
    }
  }

  function Addrs(rows: seq<Row>): (r: seq<Word>)
    ensures |r| == |rows|
  {
    seq(|rows|, i requires 0 <= i < |rows| => rows[i].addr)
  }

  /** Rows tile the flat variant array, one per address, in present segments. */
  ghost predicate RowsFit(rows: seq<Row>, variants: seq<Variant>) {
    && Distinct(Addrs(rows))
    && (forall r :: 0 <= r < |rows| ==> RowFits(rows[r], variants))
    && (forall i :: 0 <= i < |variants| ==> Covered(rows, i))
  }

  ghost predicate Covered(rows: seq<Row>, i: nat) {
    exists r :: 0 <= r < |rows| && rows[r].first <= i < rows[r].first + rows[r].n
  }

  ghost predicate RowFits(row: Row, variants: seq<Variant>) {
    && row.n >= 1 && row.first + row.n <= |variants| && row.addr != 0
    && forall i :: row.first <= i < row.first + row.n ==> variants[i].addr == row.addr
  }

  function OccupantsOf(row: Row, variants: seq<Variant>): seq<Variant>
    requires row.first + row.n <= |variants|
  {
    variants[row.first..row.first + row.n]
  }

  /** A variant compiled for `addr` sits in the one row of that address. */
  lemma InRow(rows: seq<Row>, variants: seq<Variant>, v: Variant) returns (r: nat)
    requires RowsFit(rows, variants) && v in variants
    ensures r < |rows| && rows[r].addr == v.addr && v in OccupantsOf(rows[r], variants)
  {
    var i :| 0 <= i < |variants| && variants[i] == v;
    assert Covered(rows, i);
    r :| 0 <= r < |rows| && rows[r].first <= i < rows[r].first + rows[r].n;
    assert RowFits(rows[r], variants);
    assert OccupantsOf(rows[r], variants)[i - rows[r].first] == v;
  }

  lemma RowUnique(rows: seq<Row>, r: nat, q: nat)
    requires Distinct(Addrs(rows)) && r < |rows| && q < |rows| && rows[r].addr == rows[q].addr
    ensures r == q
  {
    assert Addrs(rows)[r] == Addrs(rows)[q];
  }

  lemma NoRow(rows: seq<Row>, variants: seq<Variant>, addr: Word)
    requires RowsFit(rows, variants) && addr !in Addrs(rows)
    ensures forall v :: v in variants ==> v.addr != addr
  {
    forall v | v in variants
      ensures v.addr != addr
    {
      var r := InRow(rows, variants, v);
      assert Addrs(rows)[r] in Addrs(rows);
    }
  }

  /** What the choice among the occupants of a row means for its address. */
  lemma RowServes(rows: seq<Row>, variants: seq<Variant>, r: nat, memo: nat, gate: Gate)
    requires RowsFit(rows, variants) && r < |rows|
    ensures RowFits(rows[r], variants)
    ensures var occupants := OccupantsOf(rows[r], variants);
            var c := Choice(occupants, memo, gate);
            && (c.Some? ==> c.value < |occupants| && occupants[c.value] in variants
                            && occupants[c.value].addr == rows[r].addr && Live(gate, occupants[c.value]))
            && (c.None? ==> forall v :: v in variants && v.addr == rows[r].addr ==> !Live(gate, v))
    ensures forall q :: 0 <= q < |rows| && rows[q].addr == rows[r].addr ==> q == r
  {
    var occupants := OccupantsOf(rows[r], variants);
    ChoiceSound(occupants, memo, memo, gate);
    forall v | v in variants && v.addr == rows[r].addr
      ensures v in occupants
    {
      var q := InRow(rows, variants, v);
      RowUnique(rows, q, r);
    }
    forall q | 0 <= q < |rows| && rows[q].addr == rows[r].addr
      ensures q == r
    {
      RowUnique(rows, q, r);
    }
  }

  /** Split a sorted variant list into rows. */
  method GroupRows(variants: seq<Variant>) returns (rows: seq<Row>)
    requires AddrSorted(variants) && forall v :: v in variants ==> v.addr != 0
    ensures RowsFit(rows, variants)
  {
    rows := [];
    var i := 0;
    while i < |variants|
      invariant i <= |variants|
      invariant RowsFit(rows, variants[..i])
      invariant forall r :: 0 <= r < |rows| && i < |variants| ==> rows[r].addr < variants[i].addr
    {
      var first := i;
      var addr := variants[i].addr;
      while i < |variants| && variants[i].addr == addr
        invariant first <= i <= |variants|
        invariant forall j :: first <= j < i ==> variants[j].addr == addr
        invariant first < |variants|
        decreases |variants| - i
      {
        i := i + 1;
      }
      assert variants[first] in variants;
      AddRow(rows, variants, Row(addr, first, i - first));
      rows := rows + [Row(addr, first, i - first)];
    }
    assert variants[..|variants|] == variants;
  }

  lemma AddRow(rows: seq<Row>, variants: seq<Variant>, row: Row)
    requires row.first + row.n <= |variants| && RowsFit(rows, variants[..row.first])
    requires RowFits(row, variants)
    requires forall r :: 0 <= r < |rows| ==> rows[r].addr != row.addr
    ensures RowsFit(rows + [row], variants[..row.first + row.n])
  {
    var rows', upto := rows + [row], variants[..row.first + row.n];
    forall i: nat | i < |upto|
      ensures Covered(rows', i)
    {
      if i < row.first {
        assert Covered(rows, i);
        var r :| 0 <= r < |rows| && rows[r].first <= i < rows[r].first + rows[r].n;
        assert rows'[r] == rows[r];
      } else {
        assert rows'[|rows|] == row;
      }
    }
    assert Addrs(rows') == Addrs(rows) + [row.addr];
    forall r | 0 <= r < |rows'|
      ensures RowFits(rows'[r], upto)
    {
      if r < |rows| {
        assert RowFits(rows[r], variants[..row.first]);
      }
    }
  }

  /** The generated program and its mutable state. */
  class StaticDispatch {
    const table: array<Word>
    const index: array<nat>
    const rows: seq<Row>
    const variants: seq<Variant>
    const present: set<nat>
    const lastHit: array<nat>
    const entryHits: array<nat>
    var foundEntry: nat
    var checks: nat
    var hits: nat
    var variantMisses: nat
    var addressMisses: nat

    ghost predicate Valid()
      reads this, table, index, lastHit, entryHits
    {
      && RowsFit(rows, variants)
      && (forall v :: v in variants ==> SegmentOf(v.addr) in present)
      && table.Length == index.Length > 0
      && index != lastHit && index != entryHits && lastHit != entryHits
      && lastHit.Length == entryHits.Length == |rows|
      && Holds(table[..], index[..], Hasher(table.Length), Addrs(rows))
      && Taken(table[..], table.Length) < table.Length
    }

    /** Build the dispatcher for a deduplicated, sorted variant list. */
    constructor (unique: seq<Variant>)
      requires AddrSorted(unique) && forall v :: v in unique ==> Callable(v)
      ensures Valid() && variants == unique
      ensures fresh(table) && fresh(index) && fresh(lastHit) && fresh(entryHits)
    {
      var grouped := GroupRows(unique);
      forall k | 0 <= k < |Addrs(grouped)|
        ensures Addrs(grouped)[k] != 0
      {
        assert RowFits(grouped[k], unique);
      }
      var slots, indices := BuildTable(Addrs(grouped));
      table, index, rows, variants := slots, indices, grouped, unique;
      present := if unique == [] then {KSEG0} else set v | v in unique :: SegmentOf(v.addr);
      lastHit := new nat[|grouped|](i => 0);
      entryHits := new nat[|grouped|](i => 0);
      foundEntry, checks, hits, variantMisses, addressMisses := 0, 0, 0, 0, 0;
    }

    /** The gate's verdict on the occupants of one row, memo first. */
    method TryOccupants(r: nat, gate: Gate) returns (found: Option<Variant>)
      requires Valid() && r < |rows|
      modifies this, lastHit
      ensures Valid() && hits == old(hits) && addressMisses == old(addressMisses)
      ensures RowFits(rows[r], variants)
      ensures
        var occupants := OccupantsOf(rows[r], variants);
        var c := Choice(occupants, old(lastHit[r]), gate);
        && found == (if c.Some? then Some(occupants[c.value]) else None)
        && lastHit[..] == old(lastHit[..])[r := NextMemo(occupants, old(lastHit[r]), gate)]
      ensures found.Some? ==> foundEntry == r
      ensures checks == old(checks) + GateCalls(OccupantsOf(rows[r], variants), old(lastHit[r]), gate)
      ensures checks - old(checks) == variantMisses - old(variantMisses) + if found.Some? then 1 else 0
    {
      assert RowFits(rows[r], variants);
      var occupants := OccupantsOf(rows[r], variants);
      var memo := Remembered(occupants, lastHit[r]);
      if |occupants| > 1 {
        checks := checks + 1;
        if Live(gate, occupants[memo]) {
          foundEntry := r;
          return Some(occupants[memo]);
        }
        variantMisses := variantMisses + 1;
      }
      var at := Walk(occupants, memo, gate);
      if at.None? {
        return None;
      }
      lastHit[r] := at.value % 0x1_0000;
      foundEntry := r;
      found := Some(occupants[at.value]);
    }

    /** Gate the occupants in order, skipping the one already tried. */
    method Walk(occupants: seq<Variant>, memo: nat, gate: Gate) returns (at: Option<nat>)
      requires memo == 0 || memo < |occupants|
      requires |occupants| > 1 ==> !Live(gate, occupants[memo])
      modifies this`checks, this`variantMisses
      ensures at == FirstLive(occupants, 0, gate)
      ensures checks - old(checks) == Asked(occupants, memo, if at.Some? then at.value + 1 else |occupants|)
      ensures checks - old(checks) == variantMisses - old(variantMisses) + if at.Some? then 1 else 0
    {
      for i := 0 to |occupants|
        invariant FirstLive(occupants, 0, gate) == FirstLive(occupants, i, gate)
        invariant checks - old(checks) == variantMisses - old(variantMisses) == Asked(occupants, memo, i)
      {
        if |occupants| > 1 && i == memo {
          continue;
        }
        checks := checks + 1;
        if Live(gate, occupants[i]) {
          return Some(i);
        }
        variantMisses := variantMisses + 1;
      }
      at := None;
    }

    /** The row of an address, behind the test of its segment. */
    method FindRow(addr: Word) returns (row: Option<nat>)
      requires Valid()
      modifies this`addressMisses
      ensures Valid() && addressMisses == old(addressMisses) + if addr in Addrs(rows) then 0 else 1
      ensures row.None? <==> addr !in Addrs(rows)
      ensures row.Some? ==> row.value < |rows| && rows[row.value].addr == addr && RowFits(rows[row.value], variants)
    {
      if SegmentOf(addr) in present {
        row := Lookup(table, index, Addrs(rows), addr);
      } else {
        row := None;
        forall r | 0 <= r < |rows|
          ensures rows[r].addr != addr
        {
          assert RowFits(rows[r], variants);
          assert variants[rows[r].first] in variants;
        }
      }
      if row.None? {
        addressMisses := addressMisses + 1;
      }
    }

    /** Find a resident variant for `addr`: the answer is live, and missing only when
        no variant compiled for `addr` is live, whatever the memo remembers. */
    method FindVariant(addr: Word, gate: Gate) returns (found: Option<Variant>)
      requires Valid()
      modifies this, lastHit
      ensures Valid() && hits == old(hits)
      ensures found.Some? ==> found.value in variants && found.value.addr == addr && Live(gate, found.value)
      ensures found.None? ==> forall v :: v in variants && v.addr == addr ==> !Live(gate, v)
      ensures found.Some? ==> foundEntry < |rows| && rows[foundEntry].addr == addr
      ensures addressMisses == old(addressMisses) + if addr in Addrs(rows) then 0 else 1
      ensures addr !in Addrs(rows) ==> checks == old(checks)
      ensures forall r :: 0 <= r < |rows| && rows[r].addr == addr ==>
                RowFits(rows[r], variants)
                && checks == old(checks) + GateCalls(OccupantsOf(rows[r], variants), old(lastHit[r]), gate)
      ensures checks - old(checks) == variantMisses - old(variantMisses) + if found.Some? then 1 else 0
      ensures forall q :: 0 <= q < |rows| && rows[q].addr != addr ==> lastHit[q] == old(lastHit[q])
    {
      var row := FindRow(addr);
      if row.None? {
        NoRow(rows, variants, addr);
        return None;
      }
      RowServes(rows, variants, row.value, lastHit[row.value], gate);
      found := TryOccupants(row.value, gate);
    }

    /** Run the resident variant's body, if there is one. */
    method Run(addr: Word, gate: Gate) returns (ran: Option<Variant>)
      requires Valid()
      modifies this, lastHit, entryHits
      ensures Valid()
      ensures ran.Some? ==> ran.value in variants && ran.value.addr == addr && Live(gate, ran.value)
      ensures ran.None? <==> forall v :: v in variants && v.addr == addr ==> !Live(gate, v)
      ensures hits == old(hits) + if ran.Some? then 1 else 0
      ensures forall q :: 0 <= q < |rows| ==>
                entryHits[q] == old(entryHits[q]) + if ran.Some? && rows[q].addr == addr then 1 else 0
    {
      ran := FindVariant(addr, gate);
      if ran.Some? {
        hits := hits + 1;
        forall q | 0 <= q < |rows| && rows[q].addr == addr
          ensures q == foundEntry
        {
          RowUnique(rows, q, foundEntry);
        }
        entryHits[foundEntry] := entryHits[foundEntry] + 1;
      }
    }
  }
}
