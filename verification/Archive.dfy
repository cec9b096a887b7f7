/** The size-pair archive: a header of (stored, padded) sizes, then members that tile the
    rest of the file at aligned offsets. */
module Archive {
  import opened Lzss

  datatype Member = Member(index: nat, offset: nat, size: nat, body: seq<Byte>)

  datatype Refusal = TruncatedArchive | BadVersion | BadCount | BadTail | BadSize | TruncatedMember | Uncovered

  datatype Listing = Listed(members: seq<Member>) | Refused(why: Refusal)

  function U32(data: seq<Byte>, at: nat): nat
    requires at + 4 <= |data|
  {
    Word(Word(Word(data[at + 3], data[at + 2]), data[at + 1]), data[at])
  }

  function Bytes32(n: nat): (r: seq<Byte>)
    requires n < 0x1_0000_0000
    ensures |r| == 4 && U32(r, 0) == n
  {
    var a := n / 256;
    var b := a / 256;
    [n % 256, a % 256, b % 256, b / 256]
  }

  /** The least multiple of the alignment that holds `n` bytes. */
  function RoundUp(n: nat, alignment: nat): nat
    requires alignment > 0
  {
    if n == 0 then 0 else if n <= alignment then alignment else alignment + RoundUp(n - alignment, alignment)
  }

  lemma {:induction false} RoundUpLeast(n: nat, alignment: nat)
    requires alignment > 0
    ensures n <= RoundUp(n, alignment) < n + alignment && RoundUp(n, alignment) % alignment == 0
    decreases n
  {
    if n > alignment {
      RoundUpLeast(n - alignment, alignment);
      ModStep(RoundUp(n, alignment), alignment);
    } else if n > 0 {
      ModStep(alignment, alignment);
      ModUnique(0, alignment, 0, 0);
    } else {
      ModUnique(0, alignment, 0, 0);
    }
  }

  /** It is what rounding the quotient up gives. */
  lemma RoundUpFormula(n: nat, alignment: nat)
    requires alignment > 0
    ensures RoundUp(n, alignment) == (n + alignment - 1) / alignment * alignment
  {
    RoundUpLeast(n, alignment);
    var r, m := RoundUp(n, alignment), n + alignment - 1;
    var q := r / alignment;
    assert r == alignment * q + r % alignment;
    DivideUnique(m, alignment, q, m - r);
  }

  lemma DivideUnique(m: nat, d: nat, q: nat, r: nat)
    requires 0 < d && m == d * q + r && r < d
    ensures m / d * d == d * q
  {
    ModUnique(m, d, q, r);
  }

  // ----- The header ---------------------------------------------------------------------------

  function Stored(data: seq<Byte>, i: nat): nat
    requires 16 + 8 * i <= |data|
  {
    U32(data, 8 + 8 * i)
  }

  function Padded(data: seq<Byte>, i: nat): nat
    requires 16 + 8 * i <= |data|
  {
    U32(data, 12 + 8 * i)
  }

  /** Where member `i` starts. */
  function Start(data: seq<Byte>, alignment: nat, i: nat): nat
    requires 8 + 8 * i <= |data|
  {
    if i == 0 then alignment else Start(data, alignment, i - 1) + Padded(data, i - 1)
  }

  predicate Headed(data: seq<Byte>, alignment: nat, version: nat) {
    && 16 <= alignment <= |data| && U32(data, 0) == version
    && 0 < U32(data, 4) <= (alignment - 8) / 8
    && forall k :: 8 + 8 * U32(data, 4) <= k < alignment ==> data[k] == 0
  }

  predicate SizedMember(data: seq<Byte>, alignment: nat, i: nat)
    requires alignment > 0 && 16 + 8 * i <= |data|
  {
    Stored(data, i) > 0 && Padded(data, i) == RoundUp(Stored(data, i), alignment)
  }

  /** A header in order, every size pair in order, and members that reach exactly the end. */
  predicate WellFormed(data: seq<Byte>, alignment: nat, version: nat) {
    && Headed(data, alignment, version)
    && (forall i :: 0 <= i < U32(data, 4) ==> SizedMember(data, alignment, i))
    && Start(data, alignment, U32(data, 4)) == |data|
  }

  lemma {:induction false} StartGrows(data: seq<Byte>, alignment: nat, i: nat, j: nat)
    requires i <= j && 8 + 8 * j <= |data|
    ensures alignment <= Start(data, alignment, i) <= Start(data, alignment, j)
    decreases j
  {
    if i < j {
      StartGrows(data, alignment, i, j - 1);
    } else if i > 0 {
      StartGrows(data, alignment, i - 1, i - 1);
    }
  }

  /** What the listing says of member `i`. */
  ghost predicate Describes(data: seq<Byte>, alignment: nat, m: Member, i: nat)
    requires 16 + 8 * i <= |data|
  {
    && m.index == i && m.offset == Start(data, alignment, i) && m.size == Stored(data, i)
    && m.offset + m.size <= |data| && m.body == data[m.offset..m.offset + m.size]
  }

  /** List the members; succeeds on exactly the well-formed archives. */
  method Members(data: seq<Byte>, alignment: nat, version: nat) returns (r: Listing)
    ensures r.Listed? <==> WellFormed(data, alignment, version)
    ensures r.Listed? ==> |r.members| == U32(data, 4)
    ensures r.Listed? ==> forall i :: 0 <= i < |r.members| ==> Describes(data, alignment, r.members[i], i)
  {
    if alignment < 16 || |data| < alignment {
      return Refused(TruncatedArchive);
    }
    if U32(data, 0) != version {
      return Refused(BadVersion);
    }
    var count := U32(data, 4);
    if !(0 < count <= (alignment - 8) / 8) {
      return Refused(BadCount);
    }
    if exists k :: 8 + 8 * count <= k < alignment && data[k] != 0 {
      return Refused(BadTail);
    }
    r := ListMembers(data, alignment, count);
  }

  /** The first `n` size pairs are in order, and so far the members fit. */
  ghost predicate PlacedSoFar(data: seq<Byte>, alignment: nat, n: nat, members: seq<Member>)
    requires alignment > 0 && 8 + 8 * n <= |data|
  {
    && |members| == n
    && forall i :: 0 <= i < n ==> SizedMember(data, alignment, i) && Describes(data, alignment, members[i], i)
  }

  /** Read the size pairs in turn and place each member after the one before. */
  method ListMembers(data: seq<Byte>, alignment: nat, count: nat) returns (r: Listing)
    requires alignment > 0 && 8 + 8 * count <= |data| && alignment <= |data|
    ensures r.Listed? <==> (forall i :: 0 <= i < count ==> SizedMember(data, alignment, i))
                           && Start(data, alignment, count) == |data|
    ensures r.Listed? ==> PlacedSoFar(data, alignment, count, r.members)
  {
    var offset, members := alignment, [];
    for i := 0 to count
      invariant offset == Start(data, alignment, i) && PlacedSoFar(data, alignment, i, members)
    {
      StartGrows(data, alignment, i + 1, count);
      var next := PlaceMember(data, alignment, i, offset);
      if next.Refused? {
        return next;
      }
      members := members + next.members;
      offset := offset + Padded(data, i);
    }
    r := if offset == |data| then Listed(members) else Refused(Uncovered);
  }

  /** One member at its offset, or why not. */
  method PlaceMember(data: seq<Byte>, alignment: nat, i: nat, offset: nat) returns (r: Listing)
    requires alignment > 0 && 16 + 8 * i <= |data| && offset == Start(data, alignment, i)
    ensures r.Listed? <==> SizedMember(data, alignment, i) && Start(data, alignment, i + 1) <= |data|
    ensures r.Listed? ==> |r.members| == 1 && Describes(data, alignment, r.members[0], i)
  {
    var stored, padded := Stored(data, i), Padded(data, i);
    if !(stored > 0 && padded == RoundUp(stored, alignment)) {
      return Refused(BadSize);
    }
    RoundUpLeast(stored, alignment);
    if offset + padded > |data| {
      return Refused(TruncatedMember);
    }
    r := Listed([Member(i, offset, stored, data[offset..offset + stored])]);
  }

  // ----- Tiling -------------------------------------------------------------------------------

  /** Byte `p` lies in the extent of member `i`. */
  predicate Owns(data: seq<Byte>, alignment: nat, i: nat, p: nat)
    requires 16 + 8 * i <= |data|
  {
    Start(data, alignment, i) <= p < Start(data, alignment, i + 1)
  }

  /** Every byte after the header lies in the extent of one member. */
  lemma {:induction false} EveryByteOwned(data: seq<Byte>, alignment: nat, n: nat, p: nat)
    requires 8 + 8 * n <= |data| && alignment <= p < Start(data, alignment, n)
    ensures exists i :: 0 <= i < n && Owns(data, alignment, i, p)
    decreases n
  {
    if p >= Start(data, alignment, n - 1) {
      assert Owns(data, alignment, n - 1, p);
    } else {
      EveryByteOwned(data, alignment, n - 1, p);
    }
  }

  /** ... and of only one. */
  lemma ExtentsDisjoint(data: seq<Byte>, alignment: nat, i: nat, j: nat, p: nat)
    requires 16 + 8 * i <= |data| && 16 + 8 * j <= |data|
    requires Owns(data, alignment, i, p) && Owns(data, alignment, j, p)
    ensures i == j
  {
    if i < j {
      StartGrows(data, alignment, i + 1, j);
    } else if j < i {
      StartGrows(data, alignment, j + 1, i);
    }
  }

  lemma PaddedTight(data: seq<Byte>, alignment: nat, version: nat, i: nat)
    requires WellFormed(data, alignment, version) && i < U32(data, 4)
    ensures Stored(data, i) <= Padded(data, i) < Stored(data, i) + alignment && Padded(data, i) % alignment == 0
  {
    assert SizedMember(data, alignment, i);
    RoundUpLeast(Stored(data, i), alignment);
  }

  predicate WholeUnits(data: seq<Byte>, alignment: nat, i: nat)
    requires alignment > 0 && 16 + 8 * i <= |data|
  {
    Padded(data, i) % alignment == 0
  }

  lemma StartNext(data: seq<Byte>, alignment: nat, n: nat)
    requires alignment > 0 && 16 + 8 * n <= |data|
    requires Start(data, alignment, n) % alignment == 0 && WholeUnits(data, alignment, n)
    ensures Start(data, alignment, n + 1) % alignment == 0
  {
    var start, padded := Start(data, alignment, n), Padded(data, n);
    SumAligned(start, padded, alignment);
  }

  lemma {:induction false} StartAligned(data: seq<Byte>, alignment: nat, i: nat)
    requires alignment > 0 && 8 + 8 * i <= |data|
    requires forall k :: 0 <= k < i ==> WholeUnits(data, alignment, k)
    ensures Start(data, alignment, i) % alignment == 0
    decreases i
  {
    if i > 0 {
      var n := i - 1;
      StartAligned(data, alignment, n);
      assert WholeUnits(data, alignment, n);
      StartNext(data, alignment, n);
    } else {
      ModUnique(alignment, alignment, 1, 0);
    }
  }

  /** Extents start aligned and waste less than one unit. */
  lemma ExtentsAligned(data: seq<Byte>, alignment: nat, version: nat, i: nat)
    requires WellFormed(data, alignment, version) && i <= U32(data, 4)
    ensures Start(data, alignment, i) % alignment == 0
    ensures i < U32(data, 4) ==>
              var extent := Start(data, alignment, i + 1) - Start(data, alignment, i);
              Stored(data, i) <= extent < Stored(data, i) + alignment
  {
    forall k | 0 <= k < i
      ensures WholeUnits(data, alignment, k)
    {
      PaddedTight(data, alignment, version, k);
    }
    StartAligned(data, alignment, i);
    if i < U32(data, 4) {
      PaddedTight(data, alignment, version, i);
      var extent := Start(data, alignment, i + 1) - Start(data, alignment, i);
      assert extent == Padded(data, i);
    }
  }

  lemma SumAligned(a: nat, b: nat, d: nat)
    requires d > 0 && a % d == 0 && b % d == 0
    ensures (a + b) % d == 0
  {
    assert a == d * (a / d) && b == d * (b / d);
    assert a + b == d * (a / d + b / d);
    ModUnique(a + b, d, a / d + b / d, 0);
  }

  // ----- Writing an archive -------------------------------------------------------------------

  /** What goes into an archive: each body with the bytes that fill its extent. */
  datatype Item = Item(body: seq<Byte>, fill: seq<Byte>)

  predicate FitsItem(x: Item, alignment: nat)
    requires alignment > 0
  {
    x.body != [] && |x.body| + |x.fill| == RoundUp(|x.body|, alignment) < 0x1_0000_0000
  }

  predicate FitsItems(items: seq<Item>, alignment: nat)
    requires alignment > 0
  {
    forall i :: 0 <= i < |items| ==> FitsItem(items[i], alignment)
  }

  function Pair(x: Item, alignment: nat): (r: seq<Byte>)
    requires alignment > 0 && FitsItem(x, alignment)
    ensures |r| == 8
  {
    Bytes32(|x.body|) + Bytes32(|x.body| + |x.fill|)
  }

  function Table(items: seq<Item>, alignment: nat): (r: seq<Byte>)
    requires alignment > 0 && FitsItems(items, alignment)
    ensures |r| == 8 * |items|
  {
    if items == [] then []
    else Table(items[..|items| - 1], alignment) + Pair(items[|items| - 1], alignment)
  }

  function Payload(items: seq<Item>): seq<Byte> {
    if items == [] then []
    else Payload(items[..|items| - 1]) + items[|items| - 1].body + items[|items| - 1].fill
  }

  function Zeros(n: nat): seq<Byte> {
    seq(n, _ => 0)
  }

  function Build(items: seq<Item>, alignment: nat, version: nat): seq<Byte>
    requires 16 <= alignment && 0 < |items| <= (alignment - 8) / 8 && |items| < 0x1_0000_0000
    requires version < 0x1_0000_0000 && FitsItems(items, alignment)
  {
    Bytes32(version) + Bytes32(|items|) + Table(items, alignment) + Zeros(alignment - 8 - 8 * |items|) + Payload(items)
  }

  lemma U32At(data: seq<Byte>, at: nat, n: nat)
    requires n < 0x1_0000_0000 && at + 4 <= |data| && data[at..at + 4] == Bytes32(n)
    ensures U32(data, at) == n
  {
    var w := data[at..at + 4];
    assert w[0] == data[at] && w[1] == data[at + 1] && w[2] == data[at + 2] && w[3] == data[at + 3];
    assert U32(w, 0) == n;
  }

  lemma {:induction false} TableAt(items: seq<Item>, alignment: nat, i: nat)
    requires alignment > 0 && FitsItems(items, alignment) && i < |items|
    ensures Table(items, alignment)[8 * i..8 * i + 8] == Pair(items[i], alignment)
    decreases |items|
  {
    var n := |items| - 1;
    if i < n {
      TableAt(items[..n], alignment, i);
      assert Table(items, alignment)[8 * i..8 * i + 8] == Table(items[..n], alignment)[8 * i..8 * i + 8];
    }
  }

  lemma {:induction false} PayloadAt(items: seq<Item>, i: nat)
    requires i < |items|
    ensures |Payload(items[..i])| + |items[i].body| <= |Payload(items)|
    ensures Payload(items)[|Payload(items[..i])|..|Payload(items[..i])| + |items[i].body|] == items[i].body
    decreases |items|
  {
    var n := |items| - 1;
    if i < n {
      PayloadAt(items[..n], i);
      assert items[..n][..i] == items[..i];
      var a, b := |Payload(items[..i])|, |Payload(items[..i])| + |items[i].body|;
      assert Payload(items)[a..b] == Payload(items[..n])[a..b];
    }
  }

  lemma FiveParts(a: seq<Byte>, b: seq<Byte>, c: seq<Byte>, d: seq<Byte>, e: seq<Byte>)
    requires |a| == 4 && |b| == 4
    ensures var data := a + b + c + d + e;
            && data[0..4] == a && data[4..8] == b && data[8..8 + |c|] == c
            && data[8 + |c|..8 + |c| + |d|] == d && data[8 + |c| + |d|..] == e
  {
    var data := a + b + c + d + e;
    assert data[0..4] == a;
    assert data[4..8] == b;
    assert data[8..8 + |c|] == c;
    assert data[8 + |c|..8 + |c| + |d|] == d;
    assert data[8 + |c| + |d|..] == e;
  }

  lemma SliceOfSlice(data: seq<Byte>, lo: nat, hi: nat, a: nat, b: nat)
    requires lo <= hi <= |data| && a <= b <= hi - lo
    ensures data[lo..hi][a..b] == data[lo + a..lo + b]
  {
    var mid := data[lo..hi];
    forall i | 0 <= i < b - a
      ensures mid[a..b][i] == data[lo + a..lo + b][i]
    {
      assert mid[a + i] == data[lo + (a + i)];
    }
  }

  /** The header fields of a written archive. */
  lemma BuiltHeader(items: seq<Item>, alignment: nat, version: nat, data: seq<Byte>)
    requires 16 <= alignment && 0 < |items| <= (alignment - 8) / 8 && |items| < 0x1_0000_0000
    requires version < 0x1_0000_0000 && FitsItems(items, alignment) && data == Build(items, alignment, version)
    ensures |data| == alignment + |Payload(items)| && data[alignment..] == Payload(items)
    ensures Headed(data, alignment, version) && U32(data, 4) == |items|
    ensures data[8..8 + 8 * |items|] == Table(items, alignment)
  {
    var zeros := Zeros(alignment - 8 - 8 * |items|);
    FiveParts(Bytes32(version), Bytes32(|items|), Table(items, alignment), zeros, Payload(items));
    U32At(data, 0, version);
    U32At(data, 4, |items|);
    forall k | 8 + 8 * |items| <= k < alignment
      ensures data[k] == 0
    {
      assert data[k] == data[8 + 8 * |items|..alignment][k - 8 - 8 * |items|];
    }
  }

  lemma BuiltPair(items: seq<Item>, alignment: nat, data: seq<Byte>, i: nat)
    requires alignment > 0 && FitsItems(items, alignment) && i < |items| && 8 + 8 * |items| <= |data|
    requires data[8..8 + 8 * |items|] == Table(items, alignment)
    ensures Stored(data, i) == |items[i].body| && Padded(data, i) == |items[i].body| + |items[i].fill|
  {
    var at, x := 8 * i, items[i];
    PairSlices(items, alignment, data, i);
    PairParts(x, alignment);
    U32At(data, 8 + at, |x.body|);
    U32At(data, 12 + at, |x.body| + |x.fill|);
  }

  lemma PairSlices(items: seq<Item>, alignment: nat, data: seq<Byte>, i: nat)
    requires alignment > 0 && FitsItems(items, alignment) && i < |items| && 8 + 8 * |items| <= |data|
    requires data[8..8 + 8 * |items|] == Table(items, alignment)
    ensures data[8 + 8 * i..12 + 8 * i] == Pair(items[i], alignment)[0..4]
    ensures data[12 + 8 * i..16 + 8 * i] == Pair(items[i], alignment)[4..8]
  {
    PairAt(items, alignment, data, i);
    HalvesAt(data, 8 + 8 * i, Pair(items[i], alignment));
  }

  lemma PairAt(items: seq<Item>, alignment: nat, data: seq<Byte>, i: nat)
    requires alignment > 0 && FitsItems(items, alignment) && i < |items| && 8 + 8 * |items| <= |data|
    requires data[8..8 + 8 * |items|] == Table(items, alignment)
    ensures data[8 + 8 * i..16 + 8 * i] == Pair(items[i], alignment)
  {
    var at := 8 * i;
    TableAt(items, alignment, i);
    SliceOfSlice(data, 8, 8 + 8 * |items|, at, at + 8);
  }

  lemma HalvesAt(data: seq<Byte>, at: nat, pair: seq<Byte>)
    requires at + 8 <= |data| && data[at..at + 8] == pair
    ensures data[at..at + 4] == pair[0..4] && data[at + 4..at + 8] == pair[4..8]
  {
  }

  lemma PairParts(x: Item, alignment: nat)
    requires alignment > 0 && FitsItem(x, alignment)
    ensures |x.body| < 0x1_0000_0000 && Pair(x, alignment)[0..4] == Bytes32(|x.body|)
    ensures Pair(x, alignment)[4..8] == Bytes32(|x.body| + |x.fill|)
  {
  }

  lemma {:induction false} BuiltStart(items: seq<Item>, alignment: nat, data: seq<Byte>, i: nat)
    requires alignment > 0 && FitsItems(items, alignment) && i <= |items| && 8 + 8 * |items| <= |data|
    requires data[8..8 + 8 * |items|] == Table(items, alignment)
    ensures Start(data, alignment, i) == alignment + |Payload(items[..i])|
    decreases i
  {
    if i > 0 {
      var j := i - 1;
      BuiltStart(items, alignment, data, j);
      BuiltPair(items, alignment, data, j);
      assert items[..i][..j] == items[..j];
    }
  }

  /** Listing a written archive gives back every body, in order, where it was written. */
  lemma BuildListed(items: seq<Item>, alignment: nat, version: nat)
    requires 16 <= alignment && 0 < |items| <= (alignment - 8) / 8 && |items| < 0x1_0000_0000
    requires version < 0x1_0000_0000 && FitsItems(items, alignment)
    ensures var data := Build(items, alignment, version);
            && WellFormed(data, alignment, version) && U32(data, 4) == |items|
            && forall i, m :: 0 <= i < |items| && Describes(data, alignment, m, i) ==> m.body == items[i].body
  {
    var data := Build(items, alignment, version);
    BuiltHeader(items, alignment, version, data);
    forall i | 0 <= i < |items|
      ensures SizedMember(data, alignment, i)
    {
      BuiltPair(items, alignment, data, i);
      assert FitsItem(items[i], alignment);
    }
    BuiltStart(items, alignment, data, |items|);
    assert items[..|items|] == items;
    forall i, m | 0 <= i < |items| && Describes(data, alignment, m, i)
      ensures m.body == items[i].body
    {
      BodyBack(items, alignment, data, i, m);
    }
  }

  lemma SliceAfter(data: seq<Byte>, start: nat, payload: seq<Byte>, a: nat, n: nat)
    requires start <= |data| && data[start..] == payload && a + n <= |payload|
    ensures data[start + a..start + a + n] == payload[a..a + n]
  {
    var x, y := data[start + a..start + a + n], payload[a..a + n];
    forall k | 0 <= k < n
      ensures x[k] == y[k]
    {
      assert payload[a + k] == data[start..][a + k];
    }
  }

  lemma PlaceBack(items: seq<Item>, alignment: nat, data: seq<Byte>, i: nat)
    requires alignment > 0 && FitsItems(items, alignment) && i < |items| && 8 + 8 * |items| <= |data|
    requires data[8..8 + 8 * |items|] == Table(items, alignment)
    ensures Start(data, alignment, i) == alignment + |Payload(items[..i])| && Stored(data, i) == |items[i].body|
  {
    BuiltPair(items, alignment, data, i);
    BuiltStart(items, alignment, data, i);
  }

  lemma BodyAt(items: seq<Item>, start: nat, data: seq<Byte>, i: nat, offset: nat, size: nat)
    requires i < |items| && start <= |data| && data[start..] == Payload(items)
    requires offset == start + |Payload(items[..i])| && size == |items[i].body| && offset + size <= |data|
    ensures data[offset..offset + size] == items[i].body
  {
    PayloadAt(items, i);
    SliceAfter(data, start, Payload(items), |Payload(items[..i])|, size);
  }

  lemma BodyBack(items: seq<Item>, alignment: nat, data: seq<Byte>, i: nat, m: Member)
    requires alignment > 0 && FitsItems(items, alignment) && i < |items| && 8 + 8 * |items| <= |data|
    requires data[8..8 + 8 * |items|] == Table(items, alignment)
    requires alignment <= |data| && data[alignment..] == Payload(items) && Describes(data, alignment, m, i)
    ensures m.body == items[i].body
  {
    PlaceBack(items, alignment, data, i);
    BodyAt(items, alignment, data, i, m.offset, m.size);
  }
}
