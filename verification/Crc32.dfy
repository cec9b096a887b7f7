/** CRC-32 as section 8 of RFC 1952 defines it, computed bit by bit. */
module Crc32 {

  // ----- Iteration and folding, over any register ------------------------------------------

  function Iterate<T>(f: T -> T, c: T, n: nat): T
    decreases n
  {
    if n == 0 then c else Iterate(f, f(c), n - 1)
  }

  function FoldLeft<T, D>(feed: (T, D) -> T, c: T, data: seq<D>): T
    decreases |data|
  {
    if data == [] then c else FoldLeft(feed, feed(c, data[0]), data[1..])
  }

  lemma {:induction false} IterateInjective<T>(f: T -> T, g: T -> T, a: T, b: T, n: nat)
    requires forall x :: g(f(x)) == x
    requires Iterate(f, a, n) == Iterate(f, b, n)
    ensures a == b
    decreases n
  {
    if n > 0 {
      IterateInjective(f, g, f(a), f(b), n - 1);
      assert g(f(a)) == a && g(f(b)) == b;
    }
  }

  lemma {:induction false} IterateOnto<T>(f: T -> T, g: T -> T, c: T, n: nat) returns (before: T)
    requires forall x :: f(g(x)) == x
    ensures Iterate(f, before, n) == c
    decreases n
  {
    if n == 0 {
      before := c;
    } else {
      var after := IterateOnto(f, g, c, n - 1);
      before := g(after);
      assert f(g(after)) == after;
    }
  }

  lemma {:induction false} IterateAdds<T>(f: T -> T, plus: (T, T) -> T, a: T, b: T, n: nat)
    requires forall x, y :: f(plus(x, y)) == plus(f(x), f(y))
    ensures Iterate(f, plus(a, b), n) == plus(Iterate(f, a, n), Iterate(f, b, n))
    decreases n
  {
    if n > 0 {
      IterateAdds(f, plus, f(a), f(b), n - 1);
    }
  }

  lemma {:induction false} IterateSplit<T>(f: T -> T, c: T, m: nat, n: nat)
    ensures Iterate(f, c, m + n) == Iterate(f, Iterate(f, c, m), n)
    decreases m
  {
    if m > 0 {
      IterateSplit(f, f(c), m - 1, n);
    }
  }

  lemma {:induction false} FoldLeftConcat<T, D>(feed: (T, D) -> T, c: T, a: seq<D>, b: seq<D>)
    ensures FoldLeft(feed, c, a + b) == FoldLeft(feed, FoldLeft(feed, c, a), b)
    decreases |a|
  {
    if a == [] {
      assert a + b == b;
    } else {
      assert (a + b)[1..] == a[1..] + b;
      FoldLeftConcat(feed, feed(c, a[0]), a[1..], b);
    }
  }

  lemma {:induction false} FoldLeftInjective<T, D>(feed: (T, D) -> T, undo: (T, D) -> T, c: T, d: T, data: seq<D>)
    requires forall x, b :: undo(feed(x, b), b) == x
    requires FoldLeft(feed, c, data) == FoldLeft(feed, d, data)
    ensures c == d
    decreases |data|
  {
    if data != [] {
      FoldLeftInjective(feed, undo, feed(c, data[0]), feed(d, data[0]), data[1..]);
      assert undo(feed(c, data[0]), data[0]) == c;
      assert undo(feed(d, data[0]), data[0]) == d;
    }
  }

  lemma {:induction false} FoldLeftOnto<T, D>(feed: (T, D) -> T, undo: (T, D) -> T, c: T, data: seq<D>) returns (before: T)
    requires forall x, b :: feed(undo(x, b), b) == x
    ensures FoldLeft(feed, before, data) == c
    decreases |data|
  {
    if data == [] {
      before := c;
    } else {
      var after := FoldLeftOnto(feed, undo, c, data[1..]);
      before := undo(after, data[0]);
    }
  }

  lemma IterateEight<T>(f: T -> T, a: T, b: T, c: T, d: T, e: T, g: T, h: T, i: T, j: T)
    requires f(a) == b && f(b) == c && f(c) == d && f(d) == e && f(e) == g && f(g) == h && f(h) == i && f(i) == j
    ensures Iterate(f, a, 8) == j
  {
    assert Iterate(f, h, 2) == j;
    assert Iterate(f, e, 4) == j;
    assert Iterate(f, c, 6) == j;
  }

  // ----- One bit -----------------------------------------------------------------------------

  const POLY: bv32 := 0xEDB8_8320
  const ONES: bv32 := 0xFFFF_FFFF

  function Step(c: bv32): bv32 {
    (c >> 1) ^ (if c & 1 == 1 then POLY else 0)
  }

  /** The bit that left is readable from the top bit, so a step can be undone. */
  function Unstep(c: bv32): bv32 {
    if c & 0x8000_0000 == 0 then c << 1 else ((c ^ POLY) << 1) | 1
  }

  function Xor(a: bv32, b: bv32): bv32 {
    a ^ b
  }

  lemma StepInverse(c: bv32)
    ensures Unstep(Step(c)) == c
  {
  }

  lemma ShiftUp(c: bv32)
    requires c & 0x8000_0000 == 0
    ensures (c << 1) & 1 == 0 && (c << 1) >> 1 == c
    ensures ((c << 1) | 1) & 1 == 1 && ((c << 1) | 1) >> 1 == c
  {
  }

  lemma DropTop(c: bv32)
    requires c & 0x8000_0000 != 0
    ensures (c ^ POLY) & 0x8000_0000 == 0 && (c ^ POLY) ^ POLY == c
  {
  }

  lemma UnstepInverse(c: bv32)
    ensures Step(Unstep(c)) == c
  {
    if c & 0x8000_0000 == 0 {
      ShiftUp(c);
    } else {
      DropTop(c);
      ShiftUp(c ^ POLY);
    }
  }

  lemma XorShift(a: bv32, b: bv32)
    ensures (a ^ b) >> 1 == (a >> 1) ^ (b >> 1)
  {
  }

  lemma XorLow(a: bv32, b: bv32)
    ensures (a ^ b) & 1 == 1 <==> (a & 1 == 1) != (b & 1 == 1)
  {
  }

  lemma XorPoly(x: bv32, y: bv32)
    ensures (x ^ y) ^ POLY == (x ^ POLY) ^ (y ^ 0) == (x ^ 0) ^ (y ^ POLY)
    ensures (x ^ y) ^ 0 == (x ^ POLY) ^ (y ^ POLY) == (x ^ 0) ^ (y ^ 0)
  {
  }

  lemma StepXor(a: bv32, b: bv32)
    ensures Step(a ^ b) == Step(a) ^ Step(b)
  {
    XorShift(a, b);
    XorLow(a, b);
    XorPoly(a >> 1, b >> 1);
  }

  /** Steps distribute over exclusive or. */
  lemma StepLinear()
    ensures forall a, b :: Step(Xor(a, b)) == Xor(Step(a), Step(b))
  {
    forall a, b
      ensures Step(Xor(a, b)) == Xor(Step(a), Step(b))
    {
      StepXor(a, b);
    }
  }

  lemma StepsLinear(a: bv32, b: bv32, n: nat)
    ensures Iterate(Step, Xor(a, b), n) == Xor(Iterate(Step, a, n), Iterate(Step, b, n))
  {
    StepLinear();
    IterateAdds(Step, Xor, a, b, n);
  }

  lemma XorTwice(a: bv32, x: bv32)
    ensures Xor(Xor(a, x), x) == a
  {
  }

  // ----- Bytes -------------------------------------------------------------------------------

  function Wide(b: bv8): bv32 {
    b as bv32
  }

  function Feed(c: bv32, b: bv8): bv32 {
    Iterate(Step, Xor(c, Wide(b)), 8)
  }

  function Unfeed(c: bv32, b: bv8): bv32 {
    Xor(Iterate(Unstep, c, 8), Wide(b))
  }

  function Fold(c: bv32, data: seq<bv8>): bv32 {
    FoldLeft(Feed, c, data)
  }

  function Complement(c: bv32): bv32 {
    !c
  }

  function Crc(data: seq<bv8>): bv32 {
    Complement(Fold(ONES, data))
  }

  /** One byte, bit by bit. */
  method FeedByte(c: bv32, b: bv8) returns (crc: bv32)
    ensures crc == Feed(c, b)
  {
    crc := Xor(c, Wide(b));
    for j := 0 to 8
      invariant Iterate(Step, crc, 8 - j) == Feed(c, b)
    {
      crc := Step(crc);
    }
  }

  /** The host's loop over the bytes and their bits. */
  method HostCrc32(data: seq<bv8>) returns (crc: bv32)
    ensures crc == Crc(data)
  {
    crc := ONES;
    for i := 0 to |data|
      invariant FoldLeft(Feed, crc, data[i..]) == FoldLeft(Feed, ONES, data)
    {
      assert data[i..][1..] == data[i + 1..];
      crc := FeedByte(crc, data[i]);
    }
    crc := Complement(crc);
  }

  lemma {:induction false} IterateUndoes<T>(f: T -> T, g: T -> T, c: T, n: nat)
    requires forall x :: g(f(x)) == x
    ensures Iterate(g, Iterate(f, c, n), n) == c
    decreases n
  {
    if n > 0 {
      IterateUndoes(f, g, f(c), n - 1);
      IterateSplit(g, Iterate(f, f(c), n - 1), n - 1, 1);
      assert Iterate(g, f(c), 1) == g(f(c)) == c;
    }
  }

  lemma StepsUndo()
    ensures forall x :: Unstep(Step(x)) == x
    ensures forall x :: Step(Unstep(x)) == x
  {
    forall x
      ensures Unstep(Step(x)) == x
    {
      StepInverse(x);
    }
    forall x
      ensures Step(Unstep(x)) == x
    {
      UnstepInverse(x);
    }
  }

  /** Feeding a fixed byte is a bijection of the register. */
  lemma FeedBijective(c: bv32, b: bv8)
    ensures Unfeed(Feed(c, b), b) == c && Feed(Unfeed(c, b), b) == c
  {
    StepsUndo();
    IterateUndoes(Step, Unstep, Xor(c, Wide(b)), 8);
    XorTwice(c, Wide(b));
    IterateUndoes(Unstep, Step, c, 8);
    XorTwice(Iterate(Unstep, c, 8), Wide(b));
  }

  /** Folding a concatenation is folding its parts in turn. */
  lemma FoldConcat(c: bv32, a: seq<bv8>, b: seq<bv8>)
    ensures Fold(c, a + b) == Fold(Fold(c, a), b)
  {
    FoldLeftConcat(Feed, c, a, b);
  }

  /** For fixed data, folding is a bijection of the register. */
  lemma FoldBijective(c: bv32, d: bv32, data: seq<bv8>) returns (before: bv32)
    ensures Fold(c, data) == Fold(d, data) ==> c == d
    ensures Fold(before, data) == c
  {
    forall x, b
      ensures Unfeed(Feed(x, b), b) == x && Feed(Unfeed(x, b), b) == x
    {
      FeedBijective(x, b);
    }
    if Fold(c, data) == Fold(d, data) {
      FoldLeftInjective(Feed, Unfeed, c, d, data);
    }
    before := FoldLeftOnto(Feed, Unfeed, c, data);
  }

  // ----- The check value ---------------------------------------------------------------------

  lemma FirstDigit()
    ensures Feed(0xFFFF_FFFF, 0x31) == 0x7C23_1048
  {
    IterateEight(Step, 0xFFFF_FFCE, 0x7FFF_FFE7, 0xD247_7CD3, 0x849B_3D49, 0xAFF5_1D84, 0x57FA_8EC2, 0x2BFD_4761, 0xF846_2090, 0x7C23_1048);
  }

  lemma SecondDigit()
    ensures Feed(0x7C23_1048, 0x32) == 0xB0AC_BB32
  {
    IterateEight(Step, 0x7C23_107A, 0x3E11_883D, 0xF2B0_473E, 0x7958_239F, 0xD114_92EF, 0x8532_CA57, 0xAF21_E60B, 0xBA28_7025, 0xB0AC_BB32);
  }

  lemma ThirdDigit()
    ensures Feed(0xB0AC_BB32, 0x33) == 0x77B7_9C2D
  {
    IterateEight(Step, 0xB0AC_BB01, 0xB5EE_DEA0, 0x5AF7_6F50, 0x2D7B_B7A8, 0x16BD_DBD4, 0x0B5E_EDEA, 0x05AF_76F5, 0xEF6F_385A, 0x77B7_9C2D);
  }

  lemma FourthDigit()
    ensures Feed(0x77B7_9C2D, 0x34) == 0x641C_1F5C
  {
    IterateEight(Step, 0x77B7_9C19, 0xD663_4D2C, 0x6B31_A696, 0x3598_D34B, 0xF774_EA85, 0x9602_F662, 0x4B01_7B31, 0xC838_3EB8, 0x641C_1F5C);
  }

  lemma FifthDigit()
    ensures Feed(0x641C_1F5C, 0x35) == 0x340A_C5E3
  {
    IterateEight(Step, 0x641C_1F69, 0xDFB6_8C94, 0x6FDB_464A, 0x37ED_A325, 0xF64E_52B2, 0x7B27_2959, 0xD02B_178C, 0x6815_8BC6, 0x340A_C5E3);
  }

  lemma SixthDigit()
    ensures Feed(0x340A_C5E3, 0x36) == 0xF68D_2C9E
  {
    IterateEight(Step, 0x340A_C5D5, 0xF7BD_E1CA, 0x7BDE_F0E5, 0xD057_FB52, 0x682B_FDA9, 0xD9AD_7DF4, 0x6CD6_BEFA, 0x366B_5F7D, 0xF68D_2C9E);
  }

  lemma SeventhDigit()
    ensures Feed(0xF68D_2C9E, 0x37) == 0xAFFC_9660
  {
    IterateEight(Step, 0xF68D_2CA9, 0x96FE_1574, 0x4B7F_0ABA, 0x25BF_855D, 0xFF67_418E, 0x7FB3_A0C7, 0xD261_5343, 0x8488_2A81, 0xAFFC_9660);
  }

  lemma EighthDigit()
    ensures Feed(0xAFFC_9660, 0x38) == 0x651F_2550
  {
    IterateEight(Step, 0xAFFC_9658, 0x57FE_4B2C, 0x2BFF_2596, 0x15FF_92CB, 0xE747_4A45, 0x9E1B_2602, 0x4F0D_9301, 0xCA3E_4AA0, 0x651F_2550);
  }

  lemma NinthDigit()
    ensures Feed(0x651F_2550, 0x39) == 0x340B_C6D9
  {
    IterateEight(Step, 0x651F_2569, 0xDF37_1194, 0x6F9B_88CA, 0x37CD_C465, 0xF65E_6112, 0x7B2F_3089, 0xD02F_1B64, 0x6817_8DB2, 0x340B_C6D9);
  }

  lemma {:induction false} FoldNext(c: bv32, b: bv8, rest: seq<bv8>, next: bv32)
    requires Feed(c, b) == next
    ensures Fold(c, [b] + rest) == Fold(next, rest)
  {
    assert ([b] + rest)[1..] == rest;
  }

  lemma FirstDigits()
    ensures Fold(0xFFFF_FFFF, [0x31, 0x32, 0x33, 0x34]) == 0x641C_1F5C
  {
    FirstDigit();
    FoldNext(0xFFFF_FFFF, 0x31, [0x32, 0x33, 0x34], 0x7C23_1048);
    SecondDigit();
    FoldNext(0x7C23_1048, 0x32, [0x33, 0x34], 0xB0AC_BB32);
    ThirdDigit();
    FoldNext(0xB0AC_BB32, 0x33, [0x34], 0x77B7_9C2D);
    FourthDigit();
    FoldNext(0x77B7_9C2D, 0x34, [], 0x641C_1F5C);
  }

  lemma LastDigits()
    ensures Fold(0x641C_1F5C, [0x35, 0x36, 0x37, 0x38, 0x39]) == 0x340B_C6D9
  {
    FifthDigit();
    FoldNext(0x641C_1F5C, 0x35, [0x36, 0x37, 0x38, 0x39], 0x340A_C5E3);
    SixthDigit();
    FoldNext(0x340A_C5E3, 0x36, [0x37, 0x38, 0x39], 0xF68D_2C9E);
    SeventhDigit();
    FoldNext(0xF68D_2C9E, 0x37, [0x38, 0x39], 0xAFFC_9660);
    EighthDigit();
    FoldNext(0xAFFC_9660, 0x38, [0x39], 0x651F_2550);
    NinthDigit();
    FoldNext(0x651F_2550, 0x39, [], 0x340B_C6D9);
  }

  /** The checksum of "123456789", by which a CRC is known. */
  lemma CheckValue(data: seq<bv8>)
    requires data == [0x31, 0x32, 0x33, 0x34, 0x35, 0x36, 0x37, 0x38, 0x39]
    ensures Crc(data) == 0xCBF4_3926
  {
    FirstDigits();
    LastDigits();
    FoldConcat(0xFFFF_FFFF, [0x31, 0x32, 0x33, 0x34], [0x35, 0x36, 0x37, 0x38, 0x39]);
    assert data == [0x31, 0x32, 0x33, 0x34] + [0x35, 0x36, 0x37, 0x38, 0x39];
  }

  // ----- The table form ----------------------------------------------------------------------

  function Half(c: bv32): bv32 {
    c >> 1
  }

  predicate Even(c: bv32) {
    c & 1 == 0
  }

  lemma StepEven(c: bv32)
    requires Even(c)
    ensures Step(c) == Half(c)
  {
  }

  /** `n` low bits are clear. */
  predicate Clear(c: bv32, n: nat)
    decreases n
  {
    n == 0 || (Even(c) && Clear(Half(c), n - 1))
  }

  /** Clear low bits only shift. */
  lemma {:induction false} StepsClear(c: bv32, n: nat)
    requires Clear(c, n)
    ensures Iterate(Step, c, n) == Iterate(Half, c, n)
    decreases n
  {
    if n > 0 {
      StepEven(c);
      StepsClear(Half(c), n - 1);
    }
  }

  lemma HalfTwice(y: bv32)
    ensures Half(y >> 1) == y >> 2 && Half(y >> 2) == y >> 3 && Half(y >> 3) == y >> 4 && Half(y >> 4) == y >> 5
    ensures Half(y >> 5) == y >> 6 && Half(y >> 6) == y >> 7 && Half(y >> 7) == y >> 8
  {
  }

  lemma LowClear(y: bv32)
    requires y & 0xFF == 0
    ensures Even(y) && Even(y >> 1) && Even(y >> 2) && Even(y >> 3)
    ensures Even(y >> 4) && Even(y >> 5) && Even(y >> 6) && Even(y >> 7)
  {
  }

  /** Eight steps move a clear low byte out and change nothing else. */
  lemma ShiftOut(y: bv32)
    requires y & 0xFF == 0
    ensures Iterate(Step, y, 8) == y >> 8
  {
    LowClear(y);
    HalfTwice(y);
    assert Clear(y >> 6, 2);
    assert Clear(y >> 4, 4);
    assert Clear(y >> 2, 6);
    StepsClear(y, 8);
    IterateEight(Half, y, y >> 1, y >> 2, y >> 3, y >> 4, y >> 5, y >> 6, y >> 7, y >> 8);
  }

  function Low(c: bv32): bv32 {
    c & 0xFF
  }

  function High(c: bv32): bv32 {
    c & 0xFFFF_FF00
  }

  function Down(c: bv32): bv32 {
    c >> 8
  }

  lemma SplitRegister(c: bv32)
    ensures Xor(Low(c), High(c)) == c && Down(High(c)) == Down(c) && High(c) & 0xFF == 0
  {
  }

  /** An entry of the table: eight steps of the low byte alone. */
  function TableEntry(low: bv32): bv32 {
    Iterate(Step, low, 8)
  }

  /** The update with a precomputed table is the bit loop. */
  lemma TableForm(c: bv32)
    ensures Iterate(Step, c, 8) == Xor(TableEntry(Low(c)), Down(c))
  {
    SplitRegister(c);
    StepsLinear(Low(c), High(c), 8);
    ShiftOut(High(c));
    assert Iterate(Step, High(c), 8) == Down(High(c));
  }

  // ----- Bursts --------------------------------------------------------------------------------

  function Up(c: bv32): bv32 {
    c << 8
  }

  /** Four bytes as the register meets them, the first lowest. */
  function Block(w: seq<bv8>): bv32
    requires |w| == 4
  {
    Xor(Wide(w[0]), Up(Xor(Wide(w[1]), Up(Xor(Wide(w[2]), Up(Wide(w[3])))))))
  }

  /** At most three bytes, so that there is room to shift. */
  predicate Room(y: bv32) {
    y & 0xFF00_0000 == 0
  }

  lemma UpAndDown(y: bv32)
    requires Room(y)
    ensures Up(y) & 0xFF == 0 && Up(y) >> 8 == y
  {
  }

  lemma UpShiftsOut(y: bv32)
    requires Room(y)
    ensures Iterate(Step, Up(y), 8) == y
  {
    UpAndDown(y);
    ShiftOut(Up(y));
  }

  lemma XorGroups(a: bv32, b: bv32, c: bv32)
    ensures Xor(a, Xor(b, c)) == Xor(Xor(a, b), c)
  {
    assert a ^ (b ^ c) == (a ^ b) ^ c;
  }

  /** Feeding a byte, with later bytes waiting above it: they come down one place. */
  lemma FeedWaiting(c: bv32, b: bv8, y: bv32)
    requires Room(y)
    ensures Iterate(Step, Xor(c, Xor(Wide(b), Up(y))), 8) == Xor(Feed(c, b), y)
  {
    XorGroups(c, Wide(b), Up(y));
    StepsLinear(Xor(c, Wide(b)), Up(y), 8);
    UpShiftsOut(y);
  }

  lemma Rooms(a: bv8, b: bv8, c: bv8)
    ensures Room(Wide(a)) && Room(Xor(Wide(b), Up(Wide(a)))) && Room(Xor(Wide(c), Up(Xor(Wide(b), Up(Wide(a))))))
  {
  }

  /** Four bytes are one exclusive or and thirty-two steps. */
  lemma FoldBlock(c: bv32, w: seq<bv8>)
    requires |w| == 4
    ensures Fold(c, w) == Iterate(Step, Xor(c, Block(w)), 32)
  {
    var y3 := Wide(w[3]);
    var y2 := Xor(Wide(w[2]), Up(y3));
    var y1 := Xor(Wide(w[1]), Up(y2));
    Rooms(w[3], w[2], w[1]);
    var c1 := Feed(c, w[0]);
    var c2 := Feed(c1, w[1]);
    var c3 := Feed(c2, w[2]);
    FeedWaiting(c, w[0], y1);
    FeedWaiting(c1, w[1], y2);
    FeedWaiting(c2, w[2], y3);
    IterateSplit(Step, Xor(c, Block(w)), 8, 24);
    IterateSplit(Step, Xor(c1, y1), 8, 16);
    IterateSplit(Step, Xor(c2, y2), 8, 8);
    FoldFour(c, w);
  }

  lemma FoldFour(c: bv32, w: seq<bv8>)
    requires |w| == 4
    ensures Fold(c, w) == Feed(Feed(Feed(Feed(c, w[0]), w[1]), w[2]), w[3])
  {
    FourLeft(Feed, c, w);
  }

  lemma FourLeft<T, D>(feed: (T, D) -> T, c: T, w: seq<D>)
    requires |w| == 4
    ensures FoldLeft(feed, c, w) == feed(feed(feed(feed(c, w[0]), w[1]), w[2]), w[3])
  {
    var x := feed(feed(c, w[0]), w[1]);
    var y := feed(feed(x, w[2]), w[3]);
    assert w[1..][1..] == w[2..] && w[2..][1..] == w[3..] && w[3..][1..] == [];
    assert FoldLeft(feed, feed(x, w[2]), w[3..]) == y;
    assert FoldLeft(feed, x, w[2..]) == y;
  }

  function Unblock(c: bv32): seq<bv8> {
    [(c & 0xFF) as bv8, ((c >> 8) & 0xFF) as bv8, ((c >> 16) & 0xFF) as bv8, (c >> 24) as bv8]
  }

  lemma BlockInverse(w: seq<bv8>)
    requires |w| == 4
    ensures Unblock(Block(w)) == w
  {
  }

  lemma ComplementTwice(c: bv32)
    ensures Complement(Complement(c)) == c
  {
  }

  /** Equal checksums of buffers with a common start and end mean equal registers in between. */
  lemma CrcBetween(a: seq<bv8>, v: seq<bv8>, w: seq<bv8>, b: seq<bv8>)
    requires Crc(a + v + b) == Crc(a + w + b)
    ensures Fold(Fold(ONES, a), v) == Fold(Fold(ONES, a), w)
  {
    var start := Fold(ONES, a);
    FoldConcat(ONES, a + v, b);
    FoldConcat(ONES, a, v);
    FoldConcat(ONES, a + w, b);
    FoldConcat(ONES, a, w);
    ComplementTwice(Fold(ONES, a + v + b));
    ComplementTwice(Fold(ONES, a + w + b));
    var _ := FoldBijective(Fold(start, v), Fold(start, w), b);
  }

  lemma XorSame(c: bv32, x: bv32, y: bv32)
    requires Xor(c, x) == Xor(c, y)
    ensures x == y
  {
    assert c ^ (c ^ x) == x;
    assert c ^ (c ^ y) == y;
  }

  /** A change confined to four consecutive bytes always changes the checksum. */
  lemma BurstDetected(a: seq<bv8>, v: seq<bv8>, w: seq<bv8>, b: seq<bv8>)
    requires |v| == 4 && |w| == 4 && v != w
    ensures Crc(a + v + b) != Crc(a + w + b)
  {
    if Crc(a + v + b) == Crc(a + w + b) {
      var start := Fold(ONES, a);
      CrcBetween(a, v, w, b);
      FoldBlock(start, v);
      FoldBlock(start, w);
      StepsUndo();
      IterateInjective(Step, Unstep, Xor(start, Block(v)), Xor(start, Block(w)), 32);
      XorSame(start, Block(v), Block(w));
      BlockInverse(v);
      BlockInverse(w);
    }
  }

  /** So does a change of a single byte, wherever it is. */
  lemma ByteDetected(a: seq<bv8>, x: bv8, y: bv8, b: seq<bv8>)
    requires x != y
    ensures Crc(a + [x] + b) != Crc(a + [y] + b)
  {
    if Crc(a + [x] + b) == Crc(a + [y] + b) {
      var start := Fold(ONES, a);
      CrcBetween(a, [x], [y], b);
      FoldOne(start, x);
      FoldOne(start, y);
      StepsUndo();
      IterateInjective(Step, Unstep, Xor(start, Wide(x)), Xor(start, Wide(y)), 8);
      XorSame(start, Wide(x), Wide(y));
      WideInjective(x, y);
    }
  }

  lemma FoldOne(c: bv32, b: bv8)
    ensures Fold(c, [b]) == Feed(c, b)
  {
    OneLeft(Feed, c, b);
  }

  lemma OneLeft<T, D>(feed: (T, D) -> T, c: T, b: D)
    ensures FoldLeft(feed, c, [b]) == feed(c, b)
  {
    assert FoldLeft(feed, feed(c, [b][0]), [b][1..]) == feed(c, b);
  }

  lemma WideInjective(a: bv8, b: bv8)
    requires Wide(a) == Wide(b)
    ensures a == b
  {
    NarrowWide(a);
    NarrowWide(b);
  }

  lemma NarrowWide(b: bv8)
    ensures (Wide(b) & 0xFF) as bv8 == b
  {
  }

  /** The checksum of a longer buffer goes on from that of its start. */
  lemma CrcContinues(a: seq<bv8>, b: seq<bv8>)
    ensures Crc(a + b) == Complement(Fold(Complement(Crc(a)), b))
  {
    FoldConcat(ONES, a, b);
    ComplementTwice(Fold(ONES, a));
  }
}
