/** Ordering of dotted version strings. */
module Version {

  predicate IsDigit(c: char) {
    '0' <= c <= '9'
  }

  function DigitValue(c: char): nat
    requires IsDigit(c)
  {
    c as nat - '0' as nat
  }

  /** How many digits a string starts with. */
  function DigitRun(s: string): (n: nat)
    ensures n <= |s| && (forall i :: 0 <= i < n ==> IsDigit(s[i])) && (n < |s| ==> !IsDigit(s[n]))
  {
    if s == "" || !IsDigit(s[0]) then 0 else 1 + DigitRun(s[1..])
  }

  /** The number that digits spell, read after `acc`. */
  function Value(s: string, acc: nat): nat
    requires forall i :: 0 <= i < |s| ==> IsDigit(s[i])
  {
    if s == "" then acc else Value(s[1..], acc * 10 + DigitValue(s[0]))
  }

  function AfterDot(s: string): (r: string)
    ensures |r| <= |s|
  {
    if s != "" && s[0] == '.' then s[1..] else s
  }

  /** The leading dotted numbers. */
  function Components(s: string): seq<nat>
    decreases |s|
  {
    var n := DigitRun(s);
    if n == 0 then [] else [Value(s[..n], 0)] + Components(AfterDot(s[n..]))
  }

  /** A `v` is skipped only in front of a digit. */
  function Strip(s: string): string {
    if |s| >= 2 && (s[0] == 'v' || s[0] == 'V') && IsDigit(s[1]) then s[1..] else s
  }

  /** Component by component; a version that goes on is later. */
  function Compare(a: seq<nat>, b: seq<nat>): int {
    if a == [] && b == [] then 0
    else if a == [] then -1
    else if b == [] then 1
    else if a[0] != b[0] then if a[0] < b[0] then -1 else 1
    else Compare(a[1..], b[1..])
  }

  // ----- An order ------------------------------------------------------------------------------

  lemma {:induction false} CompareEqual(a: seq<nat>, b: seq<nat>)
    ensures Compare(a, b) == 0 <==> a == b
    decreases |a|
  {
    if a != [] && b != [] {
      CompareEqual(a[1..], b[1..]);
      assert a == [a[0]] + a[1..] && b == [b[0]] + b[1..];
    }
  }

  lemma {:induction false} CompareOpposite(a: seq<nat>, b: seq<nat>)
    ensures Compare(a, b) == -Compare(b, a)
    decreases |a|
  {
    if a != [] && b != [] && a[0] == b[0] {
      CompareOpposite(a[1..], b[1..]);
    }
  }

  lemma {:induction false} CompareTransitive(a: seq<nat>, b: seq<nat>, c: seq<nat>)
    requires Compare(a, b) <= 0 && Compare(b, c) <= 0
    ensures Compare(a, c) <= 0
    ensures Compare(a, b) < 0 || Compare(b, c) < 0 ==> Compare(a, c) < 0
    decreases |a|
  {
    if a != [] && b != [] && c != [] && a[0] == b[0] == c[0] {
      CompareTransitive(a[1..], b[1..], c[1..]);
    }
  }

  /** The first place at which two lists differ, or at which one of them ends. */
  ghost predicate DifferFirstAt(a: seq<nat>, b: seq<nat>, k: nat) {
    k <= |a| && k <= |b| && a[..k] == b[..k] && (k < |a| && k < |b| ==> a[k] != b[k])
  }

  /** There the smaller component, or the list that ends, comes first. */
  lemma {:induction false} CompareLexicographic(a: seq<nat>, b: seq<nat>, k: nat)
    requires DifferFirstAt(a, b, k)
    ensures Compare(a, b)
            == if k < |a| && k < |b| then (if a[k] < b[k] then -1 else 1)
               else if |a| == |b| then 0 else if |a| < |b| then -1 else 1
    decreases k
  {
    if k > 0 {
      assert a[..k][0] == a[0] && b[..k][0] == b[0];
      assert a[1..][..k - 1] == a[..k][1..] && b[1..][..k - 1] == b[..k][1..];
      CompareLexicographic(a[1..], b[1..], k - 1);
    }
  }

  // ----- The comparison ----------------------------------------------------------------------------

  lemma ValueSnoc(s: string, acc: nat, c: char)
    requires (forall i :: 0 <= i < |s| ==> IsDigit(s[i])) && IsDigit(c)
    ensures forall i :: 0 <= i < |s + [c]| ==> IsDigit((s + [c])[i])
    ensures Value(s + [c], acc) == Value(s, acc) * 10 + DigitValue(c)
    decreases |s|
  {
    if s == "" {
      assert s + [c] == [c] && [c][1..] == "";
    } else {
      assert (s + [c])[1..] == s[1..] + [c];
      ValueSnoc(s[1..], acc * 10 + DigitValue(s[0]), c);
    }
  }

  lemma {:induction false} RunIs(s: string, n: nat)
    requires n <= |s| && (forall i :: 0 <= i < n ==> IsDigit(s[i])) && (n < |s| ==> !IsDigit(s[n]))
    ensures DigitRun(s) == n
    decreases n
  {
    if n > 0 {
      RunIs(s[1..], n - 1);
    }
  }

  /** Accumulate digits from a position. */
  method ReadNumber(s: string, start: nat) returns (value: nat, next: nat, have: bool)
    requires start <= |s|
    ensures next == start + DigitRun(s[start..]) <= |s|
    ensures value == Value(s[start..next], 0) && (have <==> next > start)
  {
    value, next, have := 0, start, false;
    while next < |s| && IsDigit(s[next])
      invariant start <= next <= |s| && (have <==> next > start)
      invariant forall i :: start <= i < next ==> IsDigit(s[i])
      invariant value == Value(s[start..next], 0)
    {
      assert s[start..next + 1] == s[start..next] + [s[next]];
      ValueSnoc(s[start..next], 0, s[next]);
      value := value * 10 + DigitValue(s[next]);
      next := next + 1;
      have := true;
    }
    RunIs(s[start..], next - start);
  }

  method SkipDot(s: string, at: nat) returns (next: nat)
    requires at <= |s|
    ensures at <= next <= |s| && s[next..] == AfterDot(s[at..])
  {
    next := if at < |s| && s[at] == '.' then at + 1 else at;
  }

  lemma ComponentsAt(s: string, start: nat, next: nat, after: nat)
    requires start <= next <= after <= |s| && next == start + DigitRun(s[start..]) && s[after..] == AfterDot(s[next..])
    ensures Components(s[start..]) == if next == start then [] else [Value(s[start..next], 0)] + Components(s[after..])
  {
    Slices(s, start, next);
    ComponentsStep(s[start..], next - start, s[start..next], s[next..]);
  }

  lemma Slices(s: string, start: nat, next: nat)
    requires start <= next <= |s|
    ensures s[start..][..next - start] == s[start..next] && s[start..][next - start..] == s[next..]
  {
  }

  lemma ComponentsStep(t: string, n: nat, digits: string, rest: string)
    requires n == DigitRun(t) && digits == t[..n] && rest == t[n..]
    ensures Components(t) == if n == 0 then [] else [Value(digits, 0)] + Components(AfterDot(rest))
  {
  }

  /** The next component, if there is one, and where to go on after its dot. */
  method NextComponent(s: string, start: nat) returns (value: nat, next: nat, have: bool)
    requires start <= |s|
    ensures next <= |s| && (have ==> start < next) && (!have ==> value == 0)
    ensures Components(s[start..]) == if have then [value] + Components(s[next..]) else []
  {
    var end;
    value, end, have := ReadNumber(s, start);
    next := SkipDot(s, end);
    ComponentsAt(s, start, end, next);
    assert !have ==> s[start..end] == "";
  }

  lemma CompareCons(v: nat, w: nat, xs: seq<nat>, ys: seq<nat>)
    ensures Compare([v] + xs, [w] + ys) == if v == w then Compare(xs, ys) else if v < w then -1 else 1
    ensures Compare([v] + xs, []) == 1 && Compare([], [w] + ys) == -1
  {
    assert ([v] + xs)[1..] == xs && ([w] + ys)[1..] == ys;
  }

  /** Negative, zero or positive as the first version is earlier, the same or later. */
  method VersionCmp(a: string, b: string) returns (r: int)
    ensures r == Compare(Components(Strip(a)), Components(Strip(b)))
  {
    r := CompareStripped(Strip(a), Strip(b));
  }

  method CompareStripped(x: string, y: string) returns (r: int)
    ensures r == Compare(Components(x), Components(y))
  {
    ghost var goal := Compare(Components(x), Components(y));
    var i: nat, j: nat := 0, 0;
    assert x[0..] == x && y[0..] == y;
    while true
      invariant i <= |x| && j <= |y|
      invariant Compare(Components(x[i..]), Components(y[j..])) == goal
      decreases |x| - i
    {
      var va, i1, ha := NextComponent(x, i);
      var vb, j1, hb := NextComponent(y, j);
      CompareCons(va, vb, Components(x[i1..]), Components(y[j1..]));
      if !ha && !hb {
        return 0;
      }
      if va != vb {
        return if va < vb then -1 else 1;
      }
      if !ha || !hb {
        return if ha then 1 else -1;
      }
      i, j := i1, j1;
    }
  }

  // ----- Writing versions -------------------------------------------------------------------------

  function Decimal(n: nat): (s: string)
    ensures s != "" && forall i :: 0 <= i < |s| ==> IsDigit(s[i])
  {
    var last := [('0' as nat + n % 10) as char];
    if n < 10 then last else Decimal(n / 10) + last
  }

  lemma {:induction false} DecimalValue(n: nat)
    ensures Value(Decimal(n), 0) == n
    decreases n
  {
    var c := ('0' as nat + n % 10) as char;
    if n < 10 {
      ValueSnoc("", 0, c);
      assert "" + [c] == [c];
    } else {
      DecimalValue(n / 10);
      ValueSnoc(Decimal(n / 10), 0, c);
    }
  }

  function Dotted(xs: seq<nat>): string
    decreases |xs|, 1
  {
    if xs == [] then "" else Decimal(xs[0]) + DotTail(xs[1..])
  }

  function DotTail(xs: seq<nat>): string
    decreases |xs|, 2
  {
    if xs == [] then "" else "." + Dotted(xs)
  }

  lemma ComponentsCons(d: string, rest: string)
    requires d != "" && (forall i :: 0 <= i < |d| ==> IsDigit(d[i])) && (rest != "" ==> !IsDigit(rest[0]))
    ensures Components(d + rest) == [Value(d, 0)] + Components(AfterDot(rest))
  {
    var s, n := d + rest, |d|;
    assert forall i :: 0 <= i < n ==> s[i] == d[i];
    RunIs(s, n);
    assert s[..n] == d && s[n..] == rest;
  }

  lemma DotTailParts(xs: seq<nat>)
    ensures AfterDot(DotTail(xs)) == Dotted(xs) && (DotTail(xs) != "" ==> !IsDigit(DotTail(xs)[0]))
  {
    if xs != [] {
      assert ("." + Dotted(xs))[1..] == Dotted(xs);
    }
  }

  /** Reading a written version gives its components, so every list is some version's. */
  lemma {:induction false} ComponentsDotted(xs: seq<nat>)
    ensures Components(Dotted(xs)) == xs
    decreases |xs|
  {
    if xs != [] {
      ComponentsDotted(xs[1..]);
      DottedHead(xs, xs[1..]);
    }
  }

  lemma DottedHead(xs: seq<nat>, rest: seq<nat>)
    requires xs != [] && rest == xs[1..]
    ensures Components(Dotted(xs)) == [xs[0]] + Components(Dotted(rest))
  {
    DotTailParts(rest);
    DecimalValue(xs[0]);
    ComponentsCons(Decimal(xs[0]), DotTail(rest));
  }

  lemma DotThen(rest: string)
    ensures AfterDot("." + rest) == rest && !IsDigit(("." + rest)[0])
  {
    assert ("." + rest)[1..] == rest;
  }

  lemma DotTailThen(xs: seq<nat>, suffix: string)
    requires xs != []
    ensures DotTail(xs) + suffix == "." + (Dotted(xs) + suffix)
  {
    assert DotTail(xs) == "." + Dotted(xs);
    Associates(".", Dotted(xs), suffix);
  }

  lemma Associates(a: string, b: string, c: string)
    ensures (a + b) + c == a + (b + c)
  {
  }

  lemma DottedThen(xs: seq<nat>, suffix: string)
    requires xs != []
    ensures Dotted(xs) + suffix == Decimal(xs[0]) + (DotTail(xs[1..]) + suffix)
  {
    assert Dotted(xs) == Decimal(xs[0]) + DotTail(xs[1..]);
  }

  lemma OneThen(n: nat, suffix: string)
    requires suffix != "" && !IsDigit(suffix[0])
    ensures Components(Decimal(n) + suffix) == [n] + (if suffix[0] == '.' then Components(suffix[1..]) else [])
  {
    DecimalValue(n);
    ComponentsCons(Decimal(n), suffix);
    assert DigitRun(suffix) == 0;
  }

  /** What a suffix adds: a dot leads on to further components, and anything else ends the
      version. */
  function Further(suffix: string): seq<nat>
    requires suffix != ""
  {
    if suffix[0] == '.' then Components(suffix[1..]) else []
  }

  lemma ManyThen(n: nat, rest: seq<nat>, suffix: string)
    requires rest != []
    ensures Components(Decimal(n) + (DotTail(rest) + suffix)) == [n] + Components(Dotted(rest) + suffix)
  {
    var tail := Dotted(rest) + suffix;
    DotTailThen(rest, suffix);
    DotThen(tail);
    OneThen(n, "." + tail);
    assert ("." + tail)[1..] == tail;
  }

  lemma {:induction false} SuffixRead(xs: seq<nat>, suffix: string)
    requires xs != [] && suffix != "" && !IsDigit(suffix[0])
    ensures Components(Dotted(xs) + suffix) == xs + Further(suffix)
    decreases |xs|
  {
    var n, rest := xs[0], xs[1..];
    if rest == [] {
      SuffixAfterOne(n, xs, suffix);
    } else {
      SuffixAfterMore(n, rest, xs, suffix);
      SuffixRead(rest, suffix);
      Regroup(n, rest, xs, Further(suffix));
    }
  }

  lemma SuffixAfterMore(n: nat, rest: seq<nat>, xs: seq<nat>, suffix: string)
    requires rest != [] && xs == [n] + rest
    ensures Components(Dotted(xs) + suffix) == [n] + Components(Dotted(rest) + suffix)
  {
    assert xs[1..] == rest;
    DottedThen(xs, suffix);
    ManyThen(n, rest, suffix);
  }

  lemma SuffixAfterOne(n: nat, xs: seq<nat>, suffix: string)
    requires xs == [n] && suffix != "" && !IsDigit(suffix[0])
    ensures Components(Dotted(xs) + suffix) == xs + Further(suffix)
  {
    DottedThen(xs, suffix);
    assert xs[1..] == [];
    assert DotTail([]) + suffix == suffix;
    OneThen(n, suffix);
  }

  lemma Regroup(n: nat, rest: seq<nat>, xs: seq<nat>, more: seq<nat>)
    requires xs == [n] + rest
    ensures [n] + (rest + more) == xs + more
  {
  }

  /** Text that starts with neither a digit nor a `v` before one has no components. */
  lemma NotAVersion(s: string)
    requires s == "" || (!IsDigit(s[0]) && ((s[0] == 'v' || s[0] == 'V') ==> |s| < 2 || !IsDigit(s[1])))
    ensures Components(Strip(s)) == []
  {
  }

  /** A leading `v` makes no difference. */
  lemma LeadingV(v: char, xs: seq<nat>)
    requires v == 'v' || v == 'V'
    ensures Components(Strip([v] + Dotted(xs))) == Components(Strip(Dotted(xs))) == xs
  {
    var s := Dotted(xs);
    ComponentsDotted(xs);
    if xs != [] {
      assert s[0] == Decimal(xs[0])[0];
      assert ([v] + s)[1..] == s && ([v] + s)[1] == s[0];
      assert Strip(s) == s;
    } else {
      assert [v] + s == [v];
      assert DigitRun([v]) == 0;
    }
  }
}
