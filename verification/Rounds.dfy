/** Rounds of a computation that is repeated until nothing changes, it comes back to a state it
    has been in, or a limit is reached. */
module Rounds {
  /** After `n` rounds. */
  function After<P>(next: P -> P, p: P, n: nat): P {
    if n == 0 then p else next(After(next, p, n - 1))
  }

  /** What is remembered of the first `n` rounds. */
  function History<P, K>(next: P -> P, key: P -> K, p: P, n: nat): (h: seq<K>)
    ensures |h| == n && forall i :: 0 <= i < n ==> h[i] == key(After(next, p, i))
  {
    seq(n, i requires 0 <= i < n => key(After(next, p, i)))
  }

  predicate Repeats<P, K(==)>(next: P -> P, key: P -> K, p: P, n: nat) {
    key(After(next, p, n)) in History(next, key, p, n)
  }

  predicate Halts<P(==), K(==)>(next: P -> P, key: P -> K, limit: nat, p: P, n: nat) {
    n >= limit || Repeats(next, key, p, n) || next(After(next, p, n)) == After(next, p, n)
  }

  /** The round, from `n` on, at which it ends. */
  function Halt<P(==), K(==)>(next: P -> P, key: P -> K, limit: nat, p: P, n: nat): (r: nat)
    requires n <= limit
    ensures n <= r <= limit && Halts(next, key, limit, p, r)
    ensures forall k :: n <= k < r ==> !Halts(next, key, limit, p, k)
    decreases limit - n
  {
    if Halts(next, key, limit, p, n) then n else Halt(next, key, limit, p, n + 1)
  }

  /** Where a sequence first holds `x`. */
  function FirstAt<K(==)>(h: seq<K>, x: K): (k: nat)
    requires x in h
    ensures k < |h| && h[k] == x && x !in h[..k]
    decreases |h|
  {
    if h[0] == x then 0
    else
      var k := FirstAt(h[1..], x);
      assert h[..k + 1] == [h[0]] + h[1..][..k];
      k + 1
  }

  /** All states up to round `n` differ. */
  ghost predicate AllFresh<P, K>(next: P -> P, key: P -> K, p: P, n: nat) {
    forall i, j :: 0 <= i < j <= n ==> key(After(next, p, i)) != key(After(next, p, j))
  }

  lemma FreshGoesOn<P, K>(next: P -> P, key: P -> K, limit: nat, p: P, n: nat, k: nat)
    requires AllFresh(next, key, p, n) && k <= n
    ensures !Repeats(next, key, p, k)
    ensures k < n && k < limit ==> !Halts(next, key, limit, p, k)
  {
    if k < n {
      assert After(next, p, k + 1) == next(After(next, p, k));
    }
  }

  lemma HaltsFirst<P, K>(next: P -> P, key: P -> K, limit: nat, p: P, n: nat)
    requires n <= limit && Halts(next, key, limit, p, n) && forall k :: 0 <= k < n ==> !Halts(next, key, limit, p, k)
    ensures Halt(next, key, limit, p, 0) == n
  {
  }

  /** It ends where nothing changes, if it gets there in time and without a repetition. */
  lemma HaltsAgreed<P, K>(next: P -> P, key: P -> K, limit: nat, p: P, n: nat)
    requires n < limit && AllFresh(next, key, p, n) && next(After(next, p, n)) == After(next, p, n)
    ensures Halt(next, key, limit, p, 0) == n && !Repeats(next, key, p, n)
  {
    forall k | 0 <= k <= n
      ensures !Repeats(next, key, p, k) && (k < n ==> !Halts(next, key, limit, p, k))
    {
      FreshGoesOn(next, key, limit, p, n, k);
    }
    HaltsFirst(next, key, limit, p, n);
  }

  /** Without either it ends at the limit. */
  lemma HaltsAtLimit<P, K>(next: P -> P, key: P -> K, limit: nat, p: P)
    requires AllFresh(next, key, p, limit)
    ensures Halt(next, key, limit, p, 0) == limit && !Repeats(next, key, p, limit)
  {
    forall k | 0 <= k <= limit
      ensures !Repeats(next, key, p, k) && (k < limit ==> !Halts(next, key, limit, p, k))
    {
      FreshGoesOn(next, key, limit, p, limit, k);
    }
    HaltsFirst(next, key, limit, p, limit);
  }

  /** One round and then no change. */
  lemma AgreesAfterOne<P, K>(next: P -> P, key: P -> K, p: P, q: P)
    requires next(p) == q && key(p) != key(q)
    ensures After(next, p, 1) == q && AllFresh(next, key, p, 1)
  {
    assert After(next, p, 0) == p;
  }

  /** Round `n` is the first to repeat a state, that of round `j`, and nothing stood still. */
  ghost predicate Cycles<P(!new), K>(next: P -> P, key: P -> K, p: P, j: nat, n: nat) {
    && j < n && AllFresh(next, key, p, n - 1) && key(After(next, p, j)) == key(After(next, p, n))
    && next(After(next, p, n - 1)) != After(next, p, n - 1)
  }

  lemma HaltsInCycle<P(!new), K>(next: P -> P, key: P -> K, limit: nat, p: P, j: nat, n: nat)
    requires n <= limit && Cycles(next, key, p, j, n)
    ensures Halt(next, key, limit, p, 0) == n && Repeats(next, key, p, n)
    ensures FirstAt(History(next, key, p, n), key(After(next, p, n))) == j
  {
    forall k | 0 <= k < n
      ensures !Halts(next, key, limit, p, k)
    {
      FreshGoesOn(next, key, limit, p, n - 1, k);
    }
    var h := History(next, key, p, n);
    assert h[j] == key(After(next, p, n));
    HaltsFirst(next, key, limit, p, n);
  }

  /** Where it stands after `n` rounds. */
  ghost predicate Running<P, K>(next: P -> P, key: P -> K, limit: nat, p: P, n: nat, q: P, history: seq<K>) {
    && n <= limit && q == After(next, p, n) && history == History(next, key, p, n)
    && forall k :: 0 <= k < n ==> !Halts(next, key, limit, p, k)
  }

  lemma GoesOn<P, K>(next: P -> P, key: P -> K, limit: nat, p: P, n: nat, q: P, history: seq<K>)
    requires Running(next, key, limit, p, n, q, history) && n < limit && key(q) !in history && next(q) != q
    ensures Running(next, key, limit, p, n + 1, next(q), history + [key(q)])
  {
    assert History(next, key, p, n + 1) == history + [key(q)];
  }
}
