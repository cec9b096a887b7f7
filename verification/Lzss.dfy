/** The bank decoder: a parameter byte, a 24-bit token count, flag bytes read from the low
    bit, literals, and big-endian references back into the output.  Decoding succeeds on
    exactly the encodings of token lists whose references stay inside the output. */
module Lzss {
  import opened Powers

  type Byte = n: nat | n < 256

  datatype Error = BadHeader | BadParameter | TooManyTokens | Truncated | OutputLimit | ExternalReference

  datatype Result<+T> = Ok(value: T) | Err(error: Error)

  datatype Token = Literal(value: Byte) | Reference(distance: nat, index: nat)

  // ----- The parameter ----------------------------------------------------------------------

  function LengthBits(parameter: nat): (bits: nat)
    ensures bits <= 7
  {
    7 - parameter % 8
  }

  /** Values of the length field. */
  function LengthCodes(parameter: nat): nat {
    Pow2(LengthBits(parameter))
  }

  function Threshold(parameter: nat): nat {
    var mask := LengthCodes(parameter) - 1;
    if mask >= 31 then 19 else mask / 2
  }

  /** How much a reference copies: one by one up to a threshold, then in larger steps. */
  function CopyLength(parameter: nat, index: nat): (length: nat)
    ensures length >= 3
  {
    var threshold := Threshold(parameter);
    if index <= threshold then index + 3
    else
      assert (index - threshold) * Pow2(parameter / 8 % 4) >= 0;
      threshold + (index - threshold) * Pow2(parameter / 8 % 4) + 3
  }

  /** Larger codes copy more, so no two codes mean the same length. */
  lemma CopyLengthGrows(parameter: nat, i: nat, j: nat)
    requires i < j
    ensures CopyLength(parameter, i) < CopyLength(parameter, j)
  {
    var t, p := Threshold(parameter), Pow2(parameter / 8 % 4);
    if i > t {
      assert (j - t) * p == (i - t) * p + (j - i) * p && (j - i) * p >= p by {
        Multiples(j - i, p);
      }
    } else if j > t {
      Multiples(j - t, p);
    }
  }

  lemma Multiples(k: nat, p: nat)
    requires k >= 1 && p >= 1
    ensures k * p >= p && k * p >= k
  {
  }

  /** The length field takes what the parameter's low bits leave of seven bits; the rest of
      the word is the distance. */
  lemma LengthField(parameter: nat)
    ensures LengthCodes(parameter) * Pow2(parameter % 8) == 128
  {
    SumOfPowers(LengthBits(parameter), parameter % 8);
    assert Pow2(7) == 128 by {
      assert Pow2(3) == 8;
      assert Pow2(5) == 32;
    }
  }

  lemma {:induction false} SumOfPowers(a: nat, b: nat)
    ensures Pow2(a) * Pow2(b) == Pow2(a + b)
    decreases a
  {
    if a > 0 {
      SumOfPowers(a - 1, b);
      assert Pow2(a) * Pow2(b) == 2 * (Pow2(a - 1) * Pow2(b));
    }
  }

  /** The last code that still copies one byte more than the one before it, by the number of
      bits that the parameter takes from the length field. */
  const SINGLE_STEPS: seq<nat> := [19, 19, 19, 7, 3, 1, 0, 0]

  lemma ThresholdValues(parameter: nat)
    ensures Threshold(parameter) == SINGLE_STEPS[parameter % 8]
  {
    assert Pow2(1) == 2 && Pow2(2) == 4 && Pow2(3) == 8 && Pow2(4) == 16;
    assert Pow2(5) == 32 && Pow2(6) == 64 && Pow2(7) == 128;
  }

  /** The length table: it starts at 3, and each code copies one byte more than the one
      before it up to the last single step, and a power of two more above that. */
  lemma CopyLengthTable(parameter: nat, index: nat)
    requires parameter < 32
    ensures CopyLength(parameter, 0) == 3
    ensures CopyLength(parameter, index + 1) - CopyLength(parameter, index)
            == if index < SINGLE_STEPS[parameter % 8] then 1 else Pow2(parameter / 8)
  {
    ThresholdValues(parameter);
    LengthStep(Threshold(parameter), index, parameter);
  }

  lemma LengthStep(t: nat, index: nat, parameter: nat)
    requires t == Threshold(parameter) && parameter < 32
    ensures CopyLength(parameter, 0) == 3
    ensures CopyLength(parameter, index + 1) - CopyLength(parameter, index)
            == if index < t then 1 else Pow2(parameter / 8)
  {
    if index >= t {
      StepAbove(index - t, Pow2(parameter / 8 % 4));
    }
  }

  lemma StepAbove(k: nat, p: nat)
    ensures (k + 1) * p == k * p + p
  {
  }

  // ----- Tokens and their expansion -----------------------------------------------------------

  /** Copy `n` bytes from `distance` back; the copy may run into what it writes. */
  function Copy(out: seq<Byte>, distance: nat, n: nat): (r: seq<Byte>)
    requires 0 < distance <= |out|
    ensures |r| == |out| + n
  {
    if n == 0 then out
    else
      var r := Copy(out, distance, n - 1);
      r + [r[|r| - distance]]
  }

  lemma ModStep(i: nat, d: nat)
    requires 0 < d <= i
    ensures i % d == (i - d) % d
  {
    var q, r := (i - d) / d, (i - d) % d;
    assert i == d * (q + 1) + r;
    ModUnique(i, d, q + 1, r);
  }

  lemma ModUnique(i: nat, d: nat, q: nat, r: nat)
    requires 0 < d && i == d * q + r && r < d
    ensures i % d == r
  {
    var k := i / d - q;
    assert d * k == r - i % d;
    if k > 0 {
      Multiples(k, d);
    } else if k < 0 {
      Multiples(-k, d);
      assert d * (-k) == i % d - r;
    }
  }

  lemma {:induction false} CopyPrefix(out: seq<Byte>, distance: nat, n: nat, k: nat)
    requires 0 < distance <= |out| && k < |out| + n
    ensures k < |out| ==> Copy(out, distance, n)[k] == out[k]
    ensures k >= |out| ==> Copy(out, distance, n)[k] == Copy(out, distance, n)[k - distance]
    decreases n
  {
    if n > 0 {
      var r := Copy(out, distance, n - 1);
      if k < |r| {
        CopyPrefix(out, distance, n - 1, k);
      }
    }
  }

  /** An overlapping copy repeats the last `distance` bytes periodically. */
  lemma {:induction false} CopyPeriodic(out: seq<Byte>, distance: nat, n: nat, i: nat)
    requires 0 < distance <= |out| && i < n
    ensures i % distance < distance
    ensures Copy(out, distance, n)[|out| + i] == out[|out| - distance + i % distance]
    decreases i
  {
    CopyPrefix(out, distance, n, |out| + i);
    if i >= distance {
      CopyPeriodic(out, distance, n, i - distance);
      ModStep(i, distance);
    } else {
      CopyPrefix(out, distance, n, |out| + i - distance);
      ModUnique(i, distance, 0, i);
    }
  }

  /** What one token appends. */
  function Append(parameter: nat, limit: int, out: seq<Byte>, t: Token): (r: Result<seq<Byte>>)
    ensures r.Ok? ==> |out| < |r.value| <= limit
  {
    match t
    case Literal(b) => if |out| < limit then Ok(out + [b]) else Err(OutputLimit)
    case Reference(d, k) =>
      if !(0 < d <= |out|) then Err(ExternalReference)
      else if |out| + CopyLength(parameter, k) > limit then Err(OutputLimit)
      else Ok(Copy(out, d, CopyLength(parameter, k)))
  }

  /** How tokens are written: how many length codes there are and what a token appends. */
  datatype Format = Format(codes: Positive, append: (seq<Byte>, Token) -> Result<seq<Byte>>)

  type Positive = n: nat | n > 0 witness 1

  function FormatOf(parameter: nat, limit: int): Format {
    Format(LengthCodes(parameter), (out, t) => Append(parameter, limit, out, t))
  }

  /** Append the tokens in turn; the first that refers outside the output, or passes the
      limit, decides. */
  function Expand(f: Format, out: seq<Byte>, ts: seq<Token>): Result<seq<Byte>>
    decreases |ts|
  {
    if ts == [] then Ok(out)
    else
      var r := f.append(out, ts[0]);
      if r.Err? then Err(r.error) else Expand(f, r.value, ts[1..])
  }

  /** Expansion stays within the limit and gives every token at least one byte. */
  lemma {:induction false} ExpandBounds(parameter: nat, limit: int, out: seq<Byte>, ts: seq<Token>)
    requires |out| <= limit && Expand(FormatOf(parameter, limit), out, ts).Ok?
    ensures |out| + |ts| <= |Expand(FormatOf(parameter, limit), out, ts).value| <= limit
    decreases |ts|
  {
    if ts != [] {
      ExpandBounds(parameter, limit, Append(parameter, limit, out, ts[0]).value, ts[1..]);
    }
  }

  // ----- Encoding ------------------------------------------------------------------------------

  predicate FitsToken(f: Format, t: Token) {
    t.Reference? ==> t.index < f.codes && t.distance * f.codes + t.index < 0x1_0000
  }

  predicate FitsTokens(f: Format, ts: seq<Token>) {
    forall t :: t in ts ==> FitsToken(f, t)
  }

  function Body(f: Format, t: Token): (r: seq<Byte>)
    requires FitsToken(f, t)
    ensures |r| == if t.Literal? then 1 else 2
  {
    match t
    case Literal(b) => [b]
    case Reference(d, k) =>
      var word := d * f.codes + k;
      [word / 256, word % 256]
  }

  function Bodies(f: Format, ts: seq<Token>): seq<Byte>
    requires FitsTokens(f, ts)
  {
    if ts == [] then [] else Body(f, ts[0]) + Bodies(f, ts[1..])
  }

  function Bit(t: Token): nat {
    if t.Literal? then 1 else 0
  }

  /** Flag bits from the low end, with `pad` above them. */
  function Flags(ts: seq<Token>, pad: nat): (f: nat)
    ensures pad >= 1 ==> f >= 1
  {
    if ts == [] then pad else Bit(ts[0]) + 2 * Flags(ts[1..], pad)
  }

  /** Bits of the last flag byte that no token uses may hold anything. */
  predicate FitsPad(ts: seq<Token>, pad: nat)
    decreases |ts|
  {
    if |ts| <= 8 then pad < Pow2(8 - |ts|) else FitsPad(ts[8..], pad)
  }

  lemma {:induction false} FlagsBound(ts: seq<Token>, pad: nat, k: nat)
    requires pad < Pow2(k)
    ensures Flags(ts, pad) < Pow2(|ts| + k)
    decreases |ts|
  {
    if ts != [] {
      FlagsBound(ts[1..], pad, k);
    }
  }

  lemma {:induction false} FlagsAdd(ts: seq<Token>, pad: nat, k: nat)
    ensures Flags(ts, pad + Pow2(k)) == Flags(ts, pad) + Pow2(|ts| + k)
    decreases |ts|
  {
    if ts != [] {
      FlagsAdd(ts[1..], pad, k);
    }
  }

  lemma Pow2Eight()
    ensures Pow2(8) == 256
  {
    assert Pow2(4) == 16;
    assert Pow2(6) == 64;
  }

  /** The flag byte of a group. */
  function FlagByte(ts: seq<Token>, pad: nat): (f: Byte)
    requires |ts| <= 8 && pad < Pow2(8 - |ts|)
  {
    FlagsBound(ts, pad, 8 - |ts|);
    Pow2Eight();
    Flags(ts, pad)
  }

  /** Groups of up to eight tokens, each behind its flag byte. */
  function EncodeTokens(f: Format, ts: seq<Token>, pad: nat): seq<Byte>
    requires FitsTokens(f, ts) && FitsPad(ts, pad)
    decreases |ts|
  {
    if ts == [] then []
    else if |ts| <= 8 then [FlagByte(ts, pad)] + Bodies(f, ts)
    else [FlagByte(ts[..8], 0)] + Bodies(f, ts[..8]) + EncodeTokens(f, ts[8..], pad)
  }

  /** `n` as `k` bytes, the highest first. */
  function ToBig(n: nat, k: nat): (r: seq<Byte>)
    ensures |r| == k
    decreases k
  {
    if k == 0 then [] else ToBig(n / 256, k - 1) + [n % 256]
  }

  function FromBig(b: seq<Byte>): nat {
    if b == [] then 0 else 256 * FromBig(b[..|b| - 1]) + b[|b| - 1]
  }

  function Pow256(k: nat): nat {
    if k == 0 then 1 else 256 * Pow256(k - 1)
  }

  lemma {:induction false} BigRoundTrip(n: nat, k: nat)
    requires n < Pow256(k)
    ensures FromBig(ToBig(n, k)) == n
    decreases k
  {
    if k > 0 {
      BigRoundTrip(n / 256, k - 1);
      var r := ToBig(n, k);
      assert r[..k - 1] == ToBig(n / 256, k - 1);
    }
  }

  lemma {:induction false} BigInverse(b: seq<Byte>)
    ensures ToBig(FromBig(b), |b|) == b && FromBig(b) < Pow256(|b|)
    decreases |b|
  {
    if b != [] {
      BigInverse(b[..|b| - 1]);
    }
  }

  lemma ThreeBytes()
    ensures Pow256(3) == 0x100_0000
  {
    assert Pow256(1) == 256;
  }

  function Encode(f: Format, parameter: Byte, ts: seq<Token>, pad: nat): seq<Byte>
    requires 1 <= |ts| <= 0x100_0000 && FitsTokens(f, ts) && FitsPad(ts, pad)
  {
    [parameter] + ToBig(|ts| - 1, 3) + EncodeTokens(f, ts, pad)
  }

  function Literals(ts: seq<Token>): nat {
    if ts == [] then 0 else Bit(ts[0]) + Literals(ts[1..])
  }

  function References(ts: seq<Token>): nat {
    if ts == [] then 0 else 1 - Bit(ts[0]) + References(ts[1..])
  }

  lemma {:induction false} BodiesLength(f: Format, ts: seq<Token>)
    requires FitsTokens(f, ts)
    ensures |Bodies(f, ts)| == Literals(ts) + 2 * References(ts)
    decreases |ts|
  {
    if ts != [] {
      BodiesLength(f, ts[1..]);
    }
  }

  lemma {:induction false} CountsSplit(ts: seq<Token>, k: nat)
    requires k <= |ts|
    ensures Literals(ts) == Literals(ts[..k]) + Literals(ts[k..])
    ensures References(ts) == References(ts[..k]) + References(ts[k..])
    decreases k
  {
    if k > 0 {
      CountsSplit(ts[1..], k - 1);
      assert ts[1..][..k - 1] == ts[..k][1..] && ts[1..][k - 1..] == ts[k..];
    } else {
      assert ts[..0] == [] && ts[0..] == ts;
    }
  }

  lemma {:induction false} EncodedLength(f: Format, ts: seq<Token>, pad: nat)
    requires FitsTokens(f, ts) && FitsPad(ts, pad)
    ensures |EncodeTokens(f, ts, pad)| == (|ts| + 7) / 8 + Literals(ts) + 2 * References(ts)
    decreases |ts|
  {
    if |ts| <= 8 {
      BodiesLength(f, ts);
    } else {
      BodiesLength(f, ts[..8]);
      EncodedLength(f, ts[8..], pad);
      CountsSplit(ts, 8);
    }
  }

  // ----- Decoding ------------------------------------------------------------------------------

  function Word(hi: nat, lo: nat): nat {
    hi * 256 + lo
  }

  /** A flag byte under its marker. */
  function Marked(b: nat): nat {
    b + 256
  }

  datatype Read = Read(token: Token, rest: seq<Byte>)

  function ReadToken(f: Format, input: seq<Byte>, literal: bool): Result<Read> {
    if input == [] then Err(Truncated)
    else if literal then Ok(Read(Literal(input[0]), input[1..]))
    else if |input| < 2 then Err(Truncated)
    else
      var word := Word(input[0], input[1]);
      Ok(Read(Reference(word / f.codes, word % f.codes), input[2..]))
  }

  datatype Scanned = Scanned(output: seq<Byte>, rest: seq<Byte>)

  /** Take one token with the flags already fetched, then `n` more. */
  function ScanToken(f: Format, input: seq<Byte>, flags: nat, out: seq<Byte>, n: nat): (r: Result<Scanned>)
    ensures r.Ok? ==> |r.value.rest| <= |input|
    decreases n, 2
  {
    var r := ReadToken(f, input, flags % 2 == 1);
    if r.Err? then Err(r.error)
    else
      var a := f.append(out, r.value.token);
      if a.Err? then Err(a.error)
      else Scan(f, r.value.rest, flags / 2, a.value, n)
  }

  /** Take `n` tokens, fetching a flag byte whenever only the marker above the bits is left. */
  function Scan(f: Format, input: seq<Byte>, flags: nat, out: seq<Byte>, n: nat): (r: Result<Scanned>)
    ensures r.Ok? ==> |r.value.rest| <= |input|
    decreases n, 1
  {
    if n == 0 then Ok(Scanned(out, input))
    else if flags > 1 then ScanToken(f, input, flags, out, n - 1)
    else if input == [] then Err(Truncated)
    else ScanToken(f, input[1..], Marked(input[0]), out, n - 1)
  }

  datatype Decoded = Decoded(output: seq<Byte>, consumed: nat)

  /** What the decoder answers. */
  function Decode(data: seq<Byte>, limit: int): Result<Decoded> {
    if |data| < 5 || limit <= 0 then Err(BadHeader)
    else if data[0] >= 32 then Err(BadParameter)
    else if TokenCount(data) > limit then Err(TooManyTokens)
    else
      var r := Scan(FormatOf(data[0], limit), data[4..], 0, [], TokenCount(data));
      if r.Err? then Err(r.error) else Ok(Decoded(r.value.output, |data| - |r.value.rest|))
  }

  function TokenCount(data: seq<Byte>): nat
    requires |data| >= 4
  {
    FromBig(data[1..4]) + 1
  }

  // ----- Known answers -------------------------------------------------------------------------

  /** A stream of two tokens, the first a literal. */
  function TwoTokens(parameter: Byte, flags: Byte, a: Byte, tail: seq<Byte>): (r: seq<Byte>)
    ensures |r| == 6 + |tail| && r[0] == parameter && r[1..4] == [0, 0, 1] && r[4..] == [flags, a] + tail
  {
    [parameter, 0, 0, 1, flags, a] + tail
  }

  lemma CountOfTwo(data: seq<Byte>)
    requires |data| >= 4 && data[1..4] == [0, 0, 1]
    ensures TokenCount(data) == 2
  {
    assert [0, 0, 1][..2] == [0, 0] && [0, 0][..1] == [0] && [0][..0] == [];
    assert FromBig([0]) == 0 && FromBig([0, 0]) == 0;
  }

  lemma ReadLiteral(f: Format, input: seq<Byte>, a: Byte, tail: seq<Byte>)
    requires input == [a] + tail
    ensures ReadToken(f, input, true) == Ok(Read(Literal(a), tail))
  {
    assert input[0] == a && input[1..] == tail;
  }

  lemma TakeLiteral(f: Format, input: seq<Byte>, flags: nat, a: Byte, tail: seq<Byte>, n: nat)
    requires flags % 2 == 1 && f.append([], Literal(a)) == Ok([a]) && input == [a] + tail
    ensures ScanToken(f, input, flags, [], n) == Scan(f, tail, flags / 2, [a], n)
  {
    ReadLiteral(f, input, a, tail);
  }

  lemma FetchFlags(f: Format, flags: Byte, input: seq<Byte>, rest: seq<Byte>, out: seq<Byte>, n: nat)
    requires input == [flags] + rest
    ensures Scan(f, input, 0, out, n + 1) == ScanToken(f, rest, flags + 256, out, n)
  {
    assert input[0] == flags && input[1..] == rest;
  }

  lemma ScanLiteral(f: Format, flags: Byte, a: Byte, tail: seq<Byte>, n: nat)
    requires flags % 2 == 1 && f.append([], Literal(a)) == Ok([a])
    ensures Scan(f, [flags, a] + tail, 0, [], n + 1) == Scan(f, tail, 128 + flags / 2, [a], n)
  {
    assert [flags, a] + tail == [flags] + ([a] + tail);
    FetchFlags(f, flags, [flags, a] + tail, [a] + tail, [], n);
    TakeLiteral(f, [a] + tail, flags + 256, a, tail, n);
    assert (flags + 256) / 2 == 128 + flags / 2;
  }

  function Outcome(r: Result<Scanned>, size: nat): Result<Decoded>
    requires r.Ok? ==> |r.value.rest| <= size
  {
    if r.Err? then Err(r.error) else Ok(Decoded(r.value.output, size - |r.value.rest|))
  }

  lemma FirstLiteral(parameter: Byte, flags: Byte, a: Byte, tail: seq<Byte>, limit: int, n: nat)
    requires parameter < 32 && flags % 2 == 1 && limit >= 2 && n == 1
    ensures Decode(TwoTokens(parameter, flags, a, tail), limit)
            == Outcome(Scan(FormatOf(parameter, limit), tail, 128 + flags / 2, [a], n), 6 + |tail|)
  {
    var data, f := TwoTokens(parameter, flags, a, tail), FormatOf(parameter, limit);
    CountOfTwo(data);
    assert [] + [a] == [a];
    ScanLiteral(f, flags, a, tail, n);
  }

  lemma LastReference(f: Format, word: nat, out: seq<Byte>, n: nat)
    requires n == 1 && word < 0x1_0000
    ensures Scan(f, [word / 256, word % 256], 128, out, n)
            == var r := f.append(out, Reference(word / f.codes, word % f.codes));
               if r.Err? then Err(r.error) else Ok(Scanned(r.value, []))
  {
    var input: seq<Byte> := [word / 256, word % 256];
    assert input[2..] == [];
    assert ReadToken(f, input, false) == Ok(Read(Reference(word / f.codes, word % f.codes), []));
    assert Scan(f, input, 128, out, n) == ScanToken(f, input, 128, out, n - 1);
  }

  lemma CopyOne(a: Byte, n: nat)
    ensures Copy([a], 1, n) == seq(n + 1, _ => a)
  {
    var r := Copy([a], 1, n);
    forall i | 0 <= i < n + 1
      ensures r[i] == a
    {
      if i == 0 {
        CopyPrefix([a], 1, n, 0);
      } else {
        CopyPeriodic([a], 1, n, i - 1);
      }
    }
  }

  /** A literal, then a reference to it. */
  lemma LiteralThenReference(parameter: Byte, a: Byte, word: nat, limit: int, length: nat)
    requires parameter < 32 && limit >= 1 + length && word < 0x1_0000
    requires word / LengthCodes(parameter) == 1 && CopyLength(parameter, word % LengthCodes(parameter)) == length
    ensures Decode(TwoTokens(parameter, 1, a, [word / 256, word % 256]), limit)
            == Ok(Decoded(seq(length + 1, _ => a), 8))
  {
    var f := FormatOf(parameter, limit);
    FirstLiteral(parameter, 1, a, [word / 256, word % 256], limit, 1);
    LastReference(f, word, [a], 1);
    CopyOne(a, length);
  }

  lemma LiteralThenStray(a: Byte, word: nat, limit: int)
    requires limit >= 2 && word < 0x1_0000 && (word / LengthCodes(0) == 0 || word / LengthCodes(0) > 1)
    ensures Decode(TwoTokens(0, 1, a, [word / 256, word % 256]), limit) == Err(ExternalReference)
  {
    FirstLiteral(0, 1, a, [word / 256, word % 256], limit, 1);
    LastReference(FormatOf(0, limit), word, [a], 1);
  }

  lemma KnownCodes()
    ensures LengthCodes(7) == 1 && LengthCodes(8) == 128 && LengthCodes(0) == 128
  {
    assert Pow2(4) == 16;
    assert Pow2(7) == 128;
  }

  lemma KnownQuotients()
    ensures 1 / LengthCodes(7) == 1 && 1 % LengthCodes(7) == 0
    ensures 0x94 / LengthCodes(8) == 1 && 0x94 % LengthCodes(8) == 20
  {
    KnownCodes();
  }

  lemma KnownLengths()
    ensures CopyLength(7, 0) == 3 && CopyLength(8, 20) == 24
  {
    ThresholdValues(8);
    ThresholdValues(7);
    assert Pow2(1) == 2;
  }

  /** A stream of the repository's tests whose reference has sixteen bits of distance. */
  lemma KnownDistance(data: seq<Byte>, limit: int)
    requires data == [7, 0, 0, 1, 1, 0x41, 0, 1] && limit >= 4
    ensures Decode(data, limit) == Ok(Decoded(seq(4, _ => 0x41), 8))
  {
    KnownQuotients();
    KnownLengths();
    LiteralThenReference(7, 0x41, 1, limit, 3);
    assert data == TwoTokens(7, 1, 0x41, [0, 1]);
  }

  /** And one whose length lies above the last single step. */
  lemma KnownLength(data: seq<Byte>, limit: int)
    requires data == [8, 0, 0, 1, 1, 0x41, 0, 0x94] && limit >= 25
    ensures Decode(data, limit) == Ok(Decoded(seq(25, _ => 0x41), 8))
  {
    KnownQuotients();
    KnownLengths();
    LiteralThenReference(8, 0x41, 0x94, limit, 24);
    assert data == TwoTokens(8, 1, 0x41, [0, 0x94]);
  }

  /** Streams that end early or refer outside the output. */
  lemma KnownErrors(short: seq<Byte>, nowhere: seq<Byte>, before: seq<Byte>, limit: int)
    requires short == [0, 0, 0, 1, 1, 0x41] && nowhere == short + [0, 0] && before == short + [1, 0] && limit >= 2
    ensures Decode(short, limit) == Err(Truncated)
    ensures Decode(nowhere, limit) == Err(ExternalReference) && Decode(before, limit) == Err(ExternalReference)
  {
    KnownCodes();
    FirstLiteral(0, 1, 0x41, [], limit, 1);
    LiteralThenStray(0x41, 0, limit);
    LiteralThenStray(0x41, 0x100, limit);
    assert short == TwoTokens(0, 1, 0x41, []);
    assert nowhere == TwoTokens(0, 1, 0x41, [0, 0]) && before == TwoTokens(0, 1, 0x41, [1, 0]);
  }

  // ----- Decoding an encoding ------------------------------------------------------------------

  lemma DivideWord(d: nat, k: nat, codes: nat)
    requires k < codes
    ensures (d * codes + k) / codes == d && (d * codes + k) % codes == k
  {
    var w := d * codes + k;
    ModUnique(w, codes, d, k);
    assert codes * (w / codes) == codes * d;
    SameFactor(codes, w / codes, d);
  }

  lemma SameFactor(c: nat, a: nat, b: nat)
    requires c >= 1 && c * a == c * b
    ensures a == b
  {
    if a > b {
      Multiples(a - b, c);
    } else if a < b {
      Multiples(b - a, c);
    }
  }

  /** Reading takes back exactly what writing put down. */
  lemma ReadBody(f: Format, t: Token, rest: seq<Byte>)
    requires FitsToken(f, t)
    ensures ReadToken(f, Body(f, t) + rest, t.Literal?) == Ok(Read(t, rest))
  {
    var input := Body(f, t) + rest;
    if t.Literal? {
      assert input[1..] == rest;
    } else {
      assert input[2..] == rest;
      var word := t.distance * f.codes + t.index;
      assert Word(input[0], input[1]) == word;
      DivideWord(t.distance, t.index, f.codes);
    }
  }

  /** The tokens under the current flags, then whole groups. */
  function Pending(f: Format, group: seq<Token>, more: seq<Token>, pad: nat): seq<Byte>
    requires FitsTokens(f, group) && FitsTokens(f, more) && FitsPad(more, pad)
  {
    Bodies(f, group) + EncodeTokens(f, more, pad)
  }

  /** One token under the flags is taken and the flags move down. */
  lemma ScanOne(f: Format, t: Token, after: seq<Byte>, flags: nat, high: nat, out: seq<Byte>, n: nat)
    requires FitsToken(f, t) && flags == Bit(t) + 2 * high
    requires Expand(f, out, [t]).Ok?
    ensures f.append(out, t).Ok?
    ensures ScanToken(f, Body(f, t) + after, flags, out, n)
            == Scan(f, after, high, f.append(out, t).value, n)
  {
    ReadBody(f, t, after);
  }

  /** Splitting off the next group: its tokens, the rest, and the padding of each. */
  datatype Group = Group(tokens: seq<Token>, more: seq<Token>, pad: nat, morePad: nat)

  function NextGroup(ts: seq<Token>, pad: nat): (g: Group)
    requires ts != [] && FitsPad(ts, pad)
    ensures g.tokens + g.more == ts && 1 <= |g.tokens| <= 8
    ensures g.pad < Pow2(8 - |g.tokens|) && FitsPad(g.more, g.morePad)
    ensures g.more != [] ==> |g.tokens| == 8 && g.pad == 0
  {
    Pow2Eight();
    if |ts| <= 8 then Group(ts, [], pad, 0) else Group(ts[..8], ts[8..], 0, pad)
  }

  lemma EncodeGroup(f: Format, ts: seq<Token>, pad: nat)
    requires FitsTokens(f, ts) && FitsPad(ts, pad) && ts != []
    ensures var g := NextGroup(ts, pad);
            && FitsTokens(f, g.tokens) && FitsTokens(f, g.more)
            && EncodeTokens(f, ts, pad)
               == [FlagByte(g.tokens, g.pad)] + Pending(f, g.tokens, g.more, g.morePad)
  {
  }

  /** The marker sits above the group's bits. */
  lemma MarkedFlags(ts: seq<Token>, pad: nat)
    requires |ts| <= 8 && pad < Pow2(8 - |ts|)
    ensures Marked(FlagByte(ts, pad)) == Flags(ts, pad + Pow2(8 - |ts|))
  {
    FlagsAdd(ts, pad, 8 - |ts|);
    Pow2Eight();
  }

  lemma ExpandHead(f: Format, out: seq<Byte>, ts: seq<Token>)
    requires ts != [] && Expand(f, out, ts).Ok?
    ensures Expand(f, out, [ts[0]]).Ok? && f.append(out, ts[0]).Ok?
    ensures Expand(f, out, ts) == Expand(f, f.append(out, ts[0]).value, ts[1..])
  {
    assert [ts[0]][1..] == [];
  }

  /** If the rest scans to `goal`, so does a token before it. */
  lemma HeadStep(f: Format, t: Token, after: seq<Byte>, low: nat, out: seq<Byte>, n: nat,
                 goal: Result<Scanned>)
    requires FitsToken(f, t) && low >= 1 && Expand(f, out, [t]).Ok?
    requires f.append(out, t).Ok? && Scan(f, after, low, f.append(out, t).value, n) == goal
    ensures Scan(f, Body(f, t) + after, Bit(t) + 2 * low, out, n + 1) == goal
  {
    ScanOne(f, t, after, Bit(t) + 2 * low, low, out, n);
  }

  /** A spent marker fetches the next flag byte. */
  lemma RefillStep(f: Format, b: Byte, after: seq<Byte>, flags: nat, out: seq<Byte>, n: nat, goal: Result<Scanned>)
    requires n > 0 && flags == Marked(b) && Scan(f, after, flags, out, n) == goal
    ensures Scan(f, [b] + after, 1, out, n) == goal
  {
    assert ([b] + after)[1..] == after;
  }

  lemma PendingHead(f: Format, group: seq<Token>, more: seq<Token>, pad: nat, rest: seq<Byte>)
    requires FitsTokens(f, group) && FitsTokens(f, more) && FitsPad(more, pad) && group != []
    ensures Pending(f, group, more, pad) + rest
            == Body(f, group[0]) + (Pending(f, group[1..], more, pad) + rest)
  {
  }

  /** Pending tokens under flags with `high` above them scan to `goal`. */
  ghost predicate Scans(f: Format, group: seq<Token>, more: seq<Token>, pad: nat, high: nat, out: seq<Byte>,
                        rest: seq<Byte>, goal: Result<Scanned>)
    requires FitsTokens(f, group) && FitsTokens(f, more) && FitsPad(more, pad)
  {
    var n := |group| + |more|;
    Scan(f, Pending(f, group, more, pad) + rest, Flags(group, high), out, n) == goal
  }

  lemma ScansHead(f: Format, group: seq<Token>, more: seq<Token>, pad: nat, high: nat, out: seq<Byte>,
                  rest: seq<Byte>, goal: Result<Scanned>)
    requires FitsTokens(f, group) && FitsTokens(f, more) && FitsPad(more, pad)
    requires group != [] && high >= 1 && Expand(f, out, [group[0]]).Ok?
    requires f.append(out, group[0]).Ok?
    requires Scans(f, group[1..], more, pad, high, f.append(out, group[0]).value, rest, goal)
    ensures Scans(f, group, more, pad, high, out, rest, goal)
  {
    var t, tail := group[0], group[1..];
    var after, low, n := Pending(f, tail, more, pad) + rest, Flags(tail, high), |tail| + |more|;
    var before, flags, count := Body(f, t) + after, Bit(t) + 2 * low, n + 1;
    ScansAt(f, tail, more, pad, high, f.append(out, t).value, rest, goal, after, low, n);
    HeadStep(f, t, after, low, out, n, goal);
    PendingHead(f, group, more, pad, rest);
    ScansAt(f, group, more, pad, high, out, rest, goal, before, flags, count);
  }

  /** Reading the predicate with its flags and count named. */
  lemma ScansAt(f: Format, group: seq<Token>, more: seq<Token>, pad: nat, high: nat, out: seq<Byte>, rest: seq<Byte>,
                goal: Result<Scanned>, after: seq<Byte>, flags: nat, n: nat)
    requires FitsTokens(f, group) && FitsTokens(f, more) && FitsPad(more, pad)
    requires after == Pending(f, group, more, pad) + rest && flags == Flags(group, high) && n == |group| + |more|
    ensures Scans(f, group, more, pad, high, out, rest, goal) <==> Scan(f, after, flags, out, n) == goal
  {
  }

  lemma PendingNone(f: Format, more: seq<Token>, pad: nat, b: Byte, coming: seq<Byte>, rest: seq<Byte>)
    requires FitsTokens(f, more) && FitsPad(more, pad) && EncodeTokens(f, more, pad) == [b] + coming
    ensures Pending(f, [], more, pad) + rest == [b] + (coming + rest) && Flags([], 1) == 1
  {
  }

  lemma ScansRefill(f: Format, more: seq<Token>, pad: nat, out: seq<Byte>, rest: seq<Byte>,
                    goal: Result<Scanned>, b: Byte, group: seq<Token>, tail: seq<Token>, tailPad: nat, high: nat)
    requires FitsTokens(f, more) && FitsPad(more, pad) && more != []
    requires FitsTokens(f, group) && FitsTokens(f, tail) && FitsPad(tail, tailPad)
    requires EncodeTokens(f, more, pad) == [b] + Pending(f, group, tail, tailPad)
    requires |more| == |group| + |tail| && Marked(b) == Flags(group, high)
    requires Scans(f, group, tail, tailPad, high, out, rest, goal)
    ensures Scans(f, [], more, pad, 1, out, rest, goal)
  {
    var coming, n := Pending(f, group, tail, tailPad), |more|;
    var after := coming + rest;
    ScansAt(f, group, tail, tailPad, high, out, rest, goal, after, Marked(b), n);
    RefillStep(f, b, after, Marked(b), out, n, goal);
    PendingNone(f, more, pad, b, coming, rest);
    ScansAt(f, [], more, pad, 1, out, rest, goal, [b] + after, 1, n);
  }

  /** The next group of an encoding, and what its flag byte looks like under the marker. */
  lemma TakeGroup(f: Format, ts: seq<Token>, pad: nat)
    returns (b: Byte, group: seq<Token>, more: seq<Token>, morePad: nat, high: nat)
    requires FitsTokens(f, ts) && FitsPad(ts, pad) && ts != []
    ensures FitsTokens(f, group) && FitsTokens(f, more) && FitsPad(more, morePad)
    ensures group != [] && group + more == ts && EncodeTokens(f, ts, pad) == [b] + Pending(f, group, more, morePad)
    ensures high >= 1 && (more != [] ==> high == 1) && Marked(b) == Flags(group, high)
  {
    var g := NextGroup(ts, pad);
    EncodeGroup(f, ts, pad);
    MarkedFlags(g.tokens, g.pad);
    b, group, more, morePad, high := FlagByte(g.tokens, g.pad), g.tokens, g.more, g.morePad, g.pad + Pow2(8 - |g.tokens|);
  }

  lemma ScansNothing(f: Format, pad: nat, high: nat, out: seq<Byte>, rest: seq<Byte>)
    requires FitsPad([], pad)
    ensures Scans(f, [], [], pad, high, out, rest, Ok(Scanned(out, rest)))
  {
    assert Pending(f, [], [], pad) + rest == rest;
  }

  lemma {:induction false} ScanPending(f: Format, group: seq<Token>, more: seq<Token>, pad: nat, high: nat,
                                       out: seq<Byte>, rest: seq<Byte>, all: seq<Token>)
    requires FitsTokens(f, group) && FitsTokens(f, more) && FitsPad(more, pad)
    requires high >= 1 && (more != [] ==> high == 1)
    requires all == group + more && Expand(f, out, all).Ok?
    ensures Scans(f, group, more, pad, high, out, rest,
                  Ok(Scanned(Expand(f, out, all).value, rest)))
    decreases |all|, |more|
  {
    var goal := Ok(Scanned(Expand(f, out, all).value, rest));
    if group != [] {
      ExpandHead(f, out, all);
      var next := f.append(out, group[0]).value;
      ScanPending(f, group[1..], more, pad, high, next, rest, all[1..]);
      ScansHead(f, group, more, pad, high, out, rest, goal);
    } else if more != [] {
      var b, group', more', pad', high' := TakeGroup(f, more, pad);
      ScanPending(f, group', more', pad', high', out, rest, all);
      ScansRefill(f, more, pad, out, rest, goal, b, group', more', pad', high');
    } else {
      ScansNothing(f, pad, high, out, rest);
    }
  }

  lemma ScanEncoded(f: Format, ts: seq<Token>, pad: nat, rest: seq<Byte>)
    requires FitsTokens(f, ts) && FitsPad(ts, pad) && Expand(f, [], ts).Ok?
    ensures Scan(f, EncodeTokens(f, ts, pad) + rest, 0, [], |ts|)
            == Ok(Scanned(Expand(f, [], ts).value, rest))
  {
    assert [] + ts == ts;
    ScanPending(f, [], ts, pad, 1, [], rest, ts);
    assert Pending(f, [], ts, pad) == EncodeTokens(f, ts, pad);
    ScanFirst(f, EncodeTokens(f, ts, pad) + rest, [], |ts|);
  }

  lemma FieldsOf(data: seq<Byte>, parameter: Byte, count: seq<Byte>, body: seq<Byte>, rest: seq<Byte>)
    requires |count| == 3 && data == [parameter] + count + body + rest
    ensures |data| == 4 + |body| + |rest| && data[0] == parameter && data[1..4] == count && data[4..] == body + rest
  {
  }

  lemma HeaderOf(data: seq<Byte>, parameter: Byte, n: nat, body: seq<Byte>, rest: seq<Byte>)
    requires 1 <= n <= 0x100_0000 && data == [parameter] + ToBig(n - 1, 3) + body + rest
    ensures |data| == 4 + |body| + |rest| && data[0] == parameter && data[4..] == body + rest && TokenCount(data) == n
  {
    ThreeBytes();
    BigRoundTrip(n - 1, 3);
    FieldsOf(data, parameter, ToBig(n - 1, 3), body, rest);
  }

  lemma DecodeHeader(data: seq<Byte>, parameter: Byte, n: nat, body: seq<Byte>, rest: seq<Byte>, limit: int, out: seq<Byte>)
    requires 1 <= n <= 0x100_0000 && data == [parameter] + ToBig(n - 1, 3) + body + rest
    requires parameter < 32 && n <= limit && body != []
    requires Scan(FormatOf(parameter, limit), body + rest, 0, [], n) == Ok(Scanned(out, rest))
    ensures Decode(data, limit) == Ok(Decoded(out, 4 + |body|))
  {
    HeaderOf(data, parameter, n, body, rest);
  }

  /** Decoding an encoding gives the expansion, consumes exactly the encoding, and does not
      look at what follows. */
  lemma DecodeEncode(parameter: Byte, ts: seq<Token>, pad: nat, rest: seq<Byte>, limit: int, f: Format)
    requires parameter < 32 && 0 < limit && f == FormatOf(parameter, limit)
    requires 1 <= |ts| <= 0x100_0000 && FitsTokens(f, ts) && FitsPad(ts, pad) && Expand(f, [], ts).Ok?
    ensures Decode(Encode(f, parameter, ts, pad) + rest, limit)
            == Ok(Decoded(Expand(f, [], ts).value, 4 + (|ts| + 7) / 8 + Literals(ts) + 2 * References(ts)))
    ensures |Encode(f, parameter, ts, pad)| == 4 + (|ts| + 7) / 8 + Literals(ts) + 2 * References(ts)
    ensures |ts| <= |Expand(f, [], ts).value| <= limit
  {
    var body := EncodeTokens(f, ts, pad);
    EncodedLength(f, ts, pad);
    ExpandBounds(parameter, limit, [], ts);
    ScanEncoded(f, ts, pad, rest);
    DecodeHeader(Encode(f, parameter, ts, pad) + rest, parameter, |ts|, body, rest, limit, Expand(f, [], ts).value);
  }

  /** No flags and a spent marker are the same. */
  lemma ScanFirst(f: Format, input: seq<Byte>, out: seq<Byte>, n: nat)
    ensures Scan(f, input, 0, out, n) == Scan(f, input, 1, out, n)
  {
  }

  // ----- Only encodings decode ---------------------------------------------------------------

  /** The marker is bit `m`, the highest one set. */
  predicate Marker(flags: nat, m: nat) {
    Pow2(m) <= flags < Pow2(m + 1)
  }

  lemma MarkerShifts(flags: nat, m: nat)
    requires Marker(flags, m) && m >= 1
    ensures Marker(flags / 2, m - 1) && flags > 1
  {
    assert Pow2(m + 1) == 2 * Pow2(m) && Pow2(m) == 2 * Pow2(m - 1);
  }

  lemma MarkerSpent(flags: nat)
    requires Marker(flags, 0)
    ensures flags == 1
  {
    assert Pow2(1) == 2;
  }

  lemma ReadInverse(f: Format, input: seq<Byte>, literal: bool)
    requires ReadToken(f, input, literal).Ok?
    ensures var r := ReadToken(f, input, literal).value;
            FitsToken(f, r.token) && input == Body(f, r.token) + r.rest && r.token.Literal? == literal
  {
    var r := ReadToken(f, input, literal).value;
    if !literal {
      var word := Word(input[0], input[1]);
      assert word == r.token.distance * f.codes + r.token.index;
      assert Body(f, r.token) == [input[0], input[1]];
    }
  }

  /** What a scan read: the tokens under the flags it started with, and whole groups. */
  datatype Parse = Parse(group: seq<Token>, more: seq<Token>, pad: nat, high: nat)

  ghost predicate Fits(f: Format, p: Parse) {
    FitsTokens(f, p.group) && FitsTokens(f, p.more) && FitsPad(p.more, p.pad)
  }

  /** The flags hold the bits of the group under the marker, and there are `n` tokens. */
  ghost predicate Shaped(flags: nat, m: nat, n: nat, p: Parse) {
    && |p.group| + |p.more| == n && |p.group| <= m && (p.more != [] ==> |p.group| == m)
    && flags == Flags(p.group, p.high) && Marker(p.high, m - |p.group|)
  }

  /** The input starts with what the tokens are written as, and they expand to the output. */
  ghost predicate Written(f: Format, input: seq<Byte>, out: seq<Byte>, r: Scanned, p: Parse)
    requires Fits(f, p)
  {
    && input == Pending(f, p.group, p.more, p.pad) + r.rest
    && Expand(f, out, p.group + p.more) == Ok(r.output)
  }

  ghost predicate Parses(f: Format, input: seq<Byte>, flags: nat, m: nat, out: seq<Byte>, n: nat, r: Scanned, p: Parse) {
    Fits(f, p) && Shaped(flags, m, n, p) && Written(f, input, out, r, p)
  }

  lemma ParsesNothing(f: Format, input: seq<Byte>, flags: nat, m: nat, out: seq<Byte>)
    requires Marker(flags, m)
    ensures Parses(f, input, flags, m, out, 0, Scanned(out, input), Parse([], [], 0, flags))
  {
  }

  lemma ShapedHead(t: Token, low: nat, m: nat, n: nat, p: Parse)
    requires Shaped(low, m, n, p)
    ensures Shaped(Bit(t) + 2 * low, m + 1, n + 1, p.(group := [t] + p.group))
  {
    var group := [t] + p.group;
    assert group[1..] == p.group && m + 1 - |group| == m - |p.group|;
  }

  lemma WrittenHead(f: Format, t: Token, after: seq<Byte>, out: seq<Byte>, next: seq<Byte>, r: Scanned, p: Parse)
    requires FitsToken(f, t) && f.append(out, t) == Ok(next) && Fits(f, p) && Written(f, after, next, r, p)
    ensures Fits(f, p.(group := [t] + p.group)) && Written(f, Body(f, t) + after, out, r, p.(group := [t] + p.group))
  {
    var ts := p.group + p.more;
    assert [t] + p.group + p.more == [t] + ts;
    ExpandCons(f, out, t, next, ts);
    PendingCons(f, t, p.group, p.more, p.pad, r.rest);
  }

  /** A token before what is parsed. */
  lemma ParsesHead(f: Format, t: Token, input: seq<Byte>, flags: nat, m: nat, out: seq<Byte>, n: nat, r: Scanned,
                   after: seq<Byte>, low: nat, next: seq<Byte>, p: Parse) returns (q: Parse)
    requires FitsToken(f, t) && f.append(out, t) == Ok(next) && m > 0 && n > 0
    requires input == Body(f, t) + after && flags == Bit(t) + 2 * low
    requires Parses(f, after, low, m - 1, next, n - 1, r, p)
    ensures Parses(f, input, flags, m, out, n, r, q)
  {
    q := p.(group := [t] + p.group);
    var k, left := m - 1, n - 1;
    ShapedHead(t, low, k, left, p);
    WrittenHead(f, t, after, out, next, r, p);
  }

  lemma ExpandCons(f: Format, out: seq<Byte>, t: Token, next: seq<Byte>, ts: seq<Token>)
    requires f.append(out, t) == Ok(next)
    ensures Expand(f, out, [t] + ts) == Expand(f, next, ts)
  {
    assert ([t] + ts)[1..] == ts;
  }

  lemma PendingCons(f: Format, t: Token, group: seq<Token>, more: seq<Token>, pad: nat, rest: seq<Byte>)
    requires FitsToken(f, t) && FitsTokens(f, group) && FitsTokens(f, more) && FitsPad(more, pad)
    ensures FitsTokens(f, [t] + group)
    ensures Pending(f, [t] + group, more, pad) + rest == Body(f, t) + (Pending(f, group, more, pad) + rest)
  {
    assert ([t] + group)[1..] == group;
  }

  /** The flag byte of a group, from its bits under the marker. */
  lemma RefillFlag(b: Byte, group: seq<Token>, high: nat) returns (q: nat)
    requires |group| <= 8 && Marked(b) == Flags(group, high) && Marker(high, 8 - |group|)
    ensures q < Pow2(8 - |group|) && FlagByte(group, q) == b && (|group| == 8 ==> q == 0)
  {
    var k := 8 - |group|;
    q := high - Pow2(k);
    FlagsAdd(group, q, k);
    Pow2Eight();
    assert Pow2(k + 1) == 2 * Pow2(k);
  }

  lemma EncodesLast(f: Format, group: seq<Token>, q: nat, pad: nat)
    requires FitsTokens(f, group) && 1 <= |group| <= 8 && q < Pow2(8 - |group|) && FitsPad([], pad)
    ensures FitsPad(group, q) && EncodeTokens(f, group, q) == [FlagByte(group, q)] + Pending(f, group, [], pad)
  {
    assert Pending(f, group, [], pad) == Bodies(f, group);
  }

  lemma EncodesFull(f: Format, group: seq<Token>, more: seq<Token>, pad: nat, all: seq<Token>)
    requires FitsTokens(f, group) && FitsTokens(f, more) && FitsPad(more, pad)
    requires |group| == 8 && more != [] && all == group + more
    ensures FitsTokens(f, all) && FitsPad(all, pad)
    ensures EncodeTokens(f, all, pad) == [FlagByte(group, 0)] + Pending(f, group, more, pad)
  {
    assert all[..8] == group && all[8..] == more;
  }

  /** A whole group behind a spent marker. */
  lemma RefillEncodes(f: Format, b: Byte, p: Parse, all: seq<Token>) returns (pad: nat)
    requires Fits(f, p) && 1 <= |p.group| <= 8 && (p.more != [] ==> |p.group| == 8) && all == p.group + p.more
    requires Marked(b) == Flags(p.group, p.high) && Marker(p.high, 8 - |p.group|)
    ensures FitsTokens(f, all) && FitsPad(all, pad)
    ensures EncodeTokens(f, all, pad) == [b] + Pending(f, p.group, p.more, p.pad)
  {
    var q := RefillFlag(b, p.group, p.high);
    if p.more == [] {
      EncodesLast(f, p.group, q, p.pad);
      assert all == p.group;
      pad := q;
    } else {
      EncodesFull(f, p.group, p.more, p.pad, all);
      pad := p.pad;
    }
  }

  lemma Regroup(a: seq<Byte>, b: seq<Byte>, c: seq<Byte>)
    ensures a + b + c == a + (b + c)
  {
  }

  lemma WrittenRefill(f: Format, b: Byte, after: seq<Byte>, out: seq<Byte>, r: Scanned, p: Parse, q: Parse)
    requires Fits(f, p) && Fits(f, q) && Written(f, after, out, r, p) && q.group == [] && q.more == p.group + p.more
    requires EncodeTokens(f, q.more, q.pad) == [b] + Pending(f, p.group, p.more, p.pad)
    ensures Written(f, [b] + after, out, r, q)
  {
    var coming := Pending(f, p.group, p.more, p.pad);
    assert q.group + q.more == q.more;
    assert Pending(f, q.group, q.more, q.pad) == [b] + coming;
    Regroup([b], coming, r.rest);
  }

  lemma ParsesRefill(f: Format, b: Byte, after: seq<Byte>, out: seq<Byte>, n: nat, r: Scanned, p: Parse)
    returns (q: Parse)
    requires n >= 1 && Parses(f, after, Marked(b), 8, out, n, r, p)
    ensures Parses(f, [b] + after, 1, 0, out, n, r, q)
  {
    var all := p.group + p.more;
    var pad := RefillEncodes(f, b, p, all);
    q := Parse([], all, pad, 1);
    WrittenRefill(f, b, after, out, r, p, q);
    assert Pow2(1) == 2;
  }

  lemma {:induction false} ScanInverse(f: Format, input: seq<Byte>, flags: nat, m: nat, out: seq<Byte>, n: nat, r: Scanned)
    returns (p: Parse)
    requires Marker(flags, m) && m <= 8 && Scan(f, input, flags, out, n) == Ok(r)
    ensures Parses(f, input, flags, m, out, n, r, p)
    decreases n, if m == 0 then 3 else 1
  {
    if n == 0 {
      ParsesNothing(f, input, flags, m, out);
      p := Parse([], [], 0, flags);
    } else if m == 0 {
      MarkerSpent(flags);
      p := RefillInverse(f, input, out, n, r);
    } else {
      p := TokenInverse(f, input, flags, m, out, n, r);
    }
  }

  lemma {:induction false} RefillInverse(f: Format, input: seq<Byte>, out: seq<Byte>, n: nat, r: Scanned) returns (p: Parse)
    requires n > 0 && Scan(f, input, 1, out, n) == Ok(r)
    ensures Parses(f, input, 1, 0, out, n, r, p)
    decreases n, 2
  {
    var b, after := ScanRefillParts(f, input, 1, out, n);
    MarkedMarker(b);
    var inner := ScanInverse(f, after, Marked(b), 8, out, n, r);
    p := ParsesRefill(f, b, after, out, n, r, inner);
  }

  lemma {:induction false} TokenInverse(f: Format, input: seq<Byte>, flags: nat, m: nat, out: seq<Byte>, n: nat, r: Scanned)
    returns (p: Parse)
    requires n > 0 && 0 < m <= 8 && Marker(flags, m) && Scan(f, input, flags, out, n) == Ok(r)
    ensures Parses(f, input, flags, m, out, n, r, p)
    decreases n, 0
  {
    MarkerShifts(flags, m);
    var t, after, next := ScanTokenParts(f, input, flags, out, n);
    var low, k, left := flags / 2, m - 1, n - 1;
    var inner := ScanInverse(f, after, low, k, next, left, r);
    p := ParsesHead(f, t, input, flags, m, out, n, r, after, low, next, inner);
  }

  lemma ScanRefillParts(f: Format, input: seq<Byte>, flags: nat, out: seq<Byte>, n: nat)
    returns (b: Byte, after: seq<Byte>)
    requires n > 0 && flags <= 1 && Scan(f, input, flags, out, n).Ok?
    ensures input == [b] + after && Scan(f, after, Marked(b), out, n) == Scan(f, input, flags, out, n)
  {
    b, after := input[0], input[1..];
  }

  lemma ScanTokenParts(f: Format, input: seq<Byte>, flags: nat, out: seq<Byte>, n: nat)
    returns (t: Token, after: seq<Byte>, next: seq<Byte>)
    requires n > 0 && flags > 1 && Scan(f, input, flags, out, n).Ok?
    ensures FitsToken(f, t) && input == Body(f, t) + after && flags == Bit(t) + 2 * (flags / 2)
    ensures f.append(out, t) == Ok(next) && Scan(f, after, flags / 2, next, n - 1) == Scan(f, input, flags, out, n)
  {
    ReadInverse(f, input, flags % 2 == 1);
    var r := ReadToken(f, input, flags % 2 == 1).value;
    t, after, next := r.token, r.rest, f.append(out, r.token).value;
  }

  lemma MarkedMarker(b: Byte)
    ensures Marker(Marked(b), 8)
  {
    Pow2Eight();
    assert Pow2(9) == 2 * Pow2(8);
  }

  /** `data` starts with an encoding of `ts`, which expands to `out`. */
  ghost predicate EncodedIn(data: seq<Byte>, limit: int, f: Format, ts: seq<Token>, pad: nat, d: Decoded) {
    && |data| >= 5 && data[0] < 32 && f == FormatOf(data[0], limit)
    && 1 <= |ts| <= 0x100_0000 && FitsTokens(f, ts) && FitsPad(ts, pad) && Expand(f, [], ts) == Ok(d.output)
    && d.consumed == |Encode(f, data[0], ts, pad)| <= |data| && data[..d.consumed] == Encode(f, data[0], ts, pad)
  }

  lemma CountField(data: seq<Byte>)
    requires |data| >= 4
    ensures 1 <= TokenCount(data) <= 0x100_0000 && ToBig(TokenCount(data) - 1, 3) == data[1..4]
  {
    ThreeBytes();
    BigInverse(data[1..4]);
  }

  lemma ScanWhole(f: Format, input: seq<Byte>, n: nat) returns (ts: seq<Token>, pad: nat)
    requires Scan(f, input, 0, [], n).Ok?
    ensures |ts| == n && FitsTokens(f, ts) && FitsPad(ts, pad)
    ensures Expand(f, [], ts) == Ok(Scan(f, input, 0, [], n).value.output)
    ensures input == EncodeTokens(f, ts, pad) + Scan(f, input, 0, [], n).value.rest
  {
    ScanFirst(f, input, [], n);
    assert Pow2(1) == 2;
    var p := ScanInverse(f, input, 1, 0, [], n, Scan(f, input, 1, [], n).value);
    ts, pad := p.more, p.pad;
    assert p.group + p.more == p.more;
    assert Pending(f, [], ts, pad) == EncodeTokens(f, ts, pad);
  }

  /** `data` starts with an encoding of tokens that expand to what it decodes to. */
  ghost predicate StartsWithEncoding(data: seq<Byte>, limit: int) {
    Decode(data, limit).Ok? && data != []
    && exists ts, pad :: EncodedIn(data, limit, FormatOf(data[0], limit), ts, pad, Decode(data, limit).value)
  }

  /** Whatever decodes starts with an encoding of what it decodes to. */
  lemma DecodeInverse(data: seq<Byte>, limit: int)
    requires Decode(data, limit).Ok?
    ensures StartsWithEncoding(data, limit)
  {
    var f := FormatOf(data[0], limit);
    var n := TokenCount(data);
    var ts, pad := ScanWhole(f, data[4..], n);
    StartsEncoded(data, f, ts, pad, Scan(f, data[4..], 0, [], n).value.rest);
    assert EncodedIn(data, limit, f, ts, pad, Decode(data, limit).value);
  }

  lemma StartsEncoded(data: seq<Byte>, f: Format, ts: seq<Token>, pad: nat, rest: seq<Byte>)
    requires |data| >= 4 && FitsTokens(f, ts) && FitsPad(ts, pad) && |ts| == TokenCount(data)
    requires data[4..] == EncodeTokens(f, ts, pad) + rest
    ensures 1 <= |ts| <= 0x100_0000 && |Encode(f, data[0], ts, pad)| == |data| - |rest|
    ensures data[..|data| - |rest|] == Encode(f, data[0], ts, pad)
  {
    CountField(data);
    Join(data, ToBig(|ts| - 1, 3), EncodeTokens(f, ts, pad), rest);
  }

  lemma Join(data: seq<Byte>, count: seq<Byte>, body: seq<Byte>, rest: seq<Byte>)
    requires |data| >= 4 && data[1..4] == count && data[4..] == body + rest
    ensures |data| - |rest| == 4 + |body| && data[..|data| - |rest|] == [data[0]] + count + body
  {
    assert data == [data[0]] + data[1..4] + data[4..];
  }

  /** Bytes after the consumed prefix do not matter. */
  lemma SuffixIrrelevant(data: seq<Byte>, limit: int, rest: seq<Byte>)
    requires Decode(data, limit).Ok?
    ensures Decode(data, limit).value.consumed <= |data|
    ensures Decode(data[..Decode(data, limit).value.consumed] + rest, limit) == Decode(data, limit)
  {
    DecodeInverse(data, limit);
    var f := FormatOf(data[0], limit);
    var ts, pad :| EncodedIn(data, limit, f, ts, pad, Decode(data, limit).value);
    DecodeEncode(data[0], ts, pad, rest, limit, f);
    EncodedLength(f, ts, pad);
  }

  lemma Rejoin(data: seq<Byte>, k: nat, c: nat)
    requires c <= k <= |data|
    ensures data[..k][..c] + data[c..] == data
  {
  }

  /** Nothing shorter decodes. */
  lemma ShorterFails(data: seq<Byte>, limit: int, k: nat)
    requires Decode(data, limit).Ok? && k < Decode(data, limit).value.consumed <= |data|
    ensures Decode(data[..k], limit).Err?
  {
    if Decode(data[..k], limit).Ok? {
      var c := Decode(data[..k], limit).value.consumed;
      Rejoin(data, k, c);
      SuffixIrrelevant(data[..k], limit, data[c..]);
    }
  }

  // ----- The decoder ----------------------------------------------------------------------------

  method CopyBack(out: seq<Byte>, distance: nat, n: nat) returns (r: seq<Byte>)
    requires 0 < distance <= |out|
    ensures r == Copy(out, distance, n)
  {
    r := out;
    for i := 0 to n
      invariant r == Copy(out, distance, i)
    {
      r := r + [r[|r| - distance]];
    }
  }

  /** The next byte. */
  method NextByte(data: seq<Byte>, position: nat) returns (r: Result<Byte>, position': nat)
    requires position <= |data|
    ensures position < |data| ==> r == Ok(data[position]) && position' == position + 1 && data[position..][1..] == data[position'..]
    ensures position == |data| ==> r == Err(Truncated) && position' == position && data[position..] == []
  {
    if position == |data| {
      return Err(Truncated), position;
    }
    return Ok(data[position]), position + 1;
  }

  /** Decode `data`; a failure is the first rule broken. */
  method DecodeStream(data: seq<Byte>, limit: int) returns (r: Result<Decoded>)
    ensures r == Decode(data, limit)
  {
    if |data| < 5 || limit <= 0 {
      return Err(BadHeader);
    }
    var parameter: Byte := data[0];
    if parameter >= 32 {
      return Err(BadParameter);
    }
    var tokens := TokenCount(data);
    if tokens > limit {
      return Err(TooManyTokens);
    }
    var position: nat, flags: nat, output: seq<Byte> := 4, 0, [];
    ghost var f := FormatOf(parameter, limit);
    var left: nat := tokens;
    while left > 0
      invariant position <= |data|
      invariant Scan(f, data[4..], 0, [], tokens) == Scan(f, data[position..], flags, output, left)
      decreases left
    {
      if flags <= 1 {
        var b, next := NextByte(data, position);
        if b.Err? {
          return Err(b.error);
        }
        position, flags := next, Marked(b.value);
      }
      left := left - 1;
      assert Scan(f, data[4..], 0, [], tokens) == ScanToken(f, data[position..], flags, output, left);
      var a, next := OneToken(data, position, parameter, flags % 2 == 1, output, limit, f);
      if a.Err? {
        return Err(a.error);
      }
      position, output, flags := next, a.value, flags / 2;
    }
    assert |data[position..]| == |data| - position;
    r := Ok(Decoded(output, position));
  }

  /** Read one token and append what it means. */
  method OneToken(data: seq<Byte>, position: nat, parameter: Byte, literal: bool, output: seq<Byte>, limit: int,
                  ghost f: Format)
    returns (a: Result<seq<Byte>>, position': nat)
    requires position <= |data| && f == FormatOf(parameter, limit)
    ensures position <= position' <= |data|
    ensures var r := ReadToken(f, data[position..], literal);
            if r.Err? then a == Err(r.error)
            else data[position'..] == r.value.rest && a == f.append(output, r.value.token)
  {
    var t;
    t, position' := FetchToken(data, position, LengthCodes(parameter), literal, f);
    if t.Err? {
      return Err(t.error), position';
    }
    a := AppendToken(parameter, limit, output, t.value);
  }

  method FetchToken(data: seq<Byte>, position: nat, codes: Positive, literal: bool, ghost f: Format)
    returns (t: Result<Token>, position': nat)
    requires position <= |data| && f.codes == codes
    ensures position <= position' <= |data|
    ensures var r := ReadToken(f, data[position..], literal);
            if r.Err? then t == Err(r.error) else data[position'..] == r.value.rest && t == Ok(r.value.token)
  {
    var b, next := NextByte(data, position);
    if b.Err? {
      return Err(b.error), position;
    }
    if literal {
      return Ok(Literal(b.value)), next;
    }
    var c, last := NextByte(data, next);
    if c.Err? {
      return Err(c.error), next;
    }
    var word := Word(b.value, c.value);
    assert data[position..][2..] == data[last..];
    return Ok(Reference(word / codes, word % codes)), last;
  }

  method AppendToken(parameter: nat, limit: int, output: seq<Byte>, t: Token) returns (a: Result<seq<Byte>>)
    ensures a == Append(parameter, limit, output, t)
  {
    match t {
      case Literal(b) =>
        a := if |output| < limit then Ok(output + [b]) else Err(OutputLimit);
      case Reference(distance, index) =>
        var length := CopyLength(parameter, index);
        if !(0 < distance <= |output|) {
          return Err(ExternalReference);
        }
        if |output| + length > limit {
          return Err(OutputLimit);
        }
        var copied := CopyBack(output, distance, length);
        a := Ok(copied);
    }
  }
}
