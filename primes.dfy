/** The prime cache of rust/primes.rs.

    A `Primes` value keeps the primes found so far in `stored`, the largest
    of them in `current`, and a read position `index`.  The search step
    extends the cache to the next prime by trying each larger number until
    none of the stored primes divides it.

    `next` as written looks the position up with an irrefutable pattern, so
    it never reaches the search: it yields the cached entry or fails on an
    out-of-range index.  `Next` models that; `NextIntended` models the
    lookup the code evidently means, which falls back to the search when the
    cache is exhausted.  Numbers are unbounded here; see the README. */
module Primes {

  /** What one call of `next` produces: a prime, or the out-of-range index
      failure of the vector lookup. */
  datatype Step = Yield(prime: nat) | OutOfBounds

  predicate IsPrime(n: nat)
  {
    n >= 2 && forall d | 2 <= d < n :: n % d != 0
  }

  /** The search test: no stored number divides `c`. */
  predicate NoneDivides(s: seq<nat>, c: nat)
    requires forall k | 0 <= k < |s| :: s[k] > 0
  {
    forall k | 0 <= k < |s| :: c % s[k] != 0
  }

  predicate Increasing(s: seq<nat>)
  {
    forall i, j | 0 <= i < j < |s| :: s[i] < s[j]
  }

  /** `s` lists, in increasing order, exactly the primes up to `n`, and
      ends with `n`. */
  ghost predicate PrimesUpTo(s: seq<nat>, n: nat)
  {
    |s| > 0 && s[|s| - 1] == n && Increasing(s) &&
    (forall k | 0 <= k < |s| :: IsPrime(s[k])) &&
    (forall p | 2 <= p <= n && IsPrime(p) :: p in s)
  }

  /** Euclidean remainder of a multiple plus a small offset. */
  lemma ModOfMultiple(e: int, q: int, r: int)
    requires e > 0 && 0 <= r < e
    ensures (e * q + r) % e == r
  {
    var a := e * q + r;
    var k := q - a / e;
    assert e * k == a % e - r;
  }

  /** Divisibility is transitive. */
  lemma DividesTrans(n: nat, d: nat, e: nat)
    requires e > 0 && d > 0 && n % d == 0 && d % e == 0
    ensures n % e == 0
  {
    var a := d / e;
    var b := n / d;
    assert d == e * a;
    assert n == d * b;
    assert n == e * (a * b);
    ModOfMultiple(e, a * b, 0);
  }

  /** Every number from 2 on has a prime divisor no larger than itself. */
  lemma {:induction false} PrimeFactor(n: nat) returns (p: nat)
    requires n >= 2
    ensures 2 <= p <= n && n % p == 0 && IsPrime(p)
    decreases n
  {
    if IsPrime(n) {
      ModOfMultiple(n, 1, 0);
      p := n;
    } else {
      var d :| 2 <= d < n && n % d == 0;
      p := PrimeFactor(d);
      DividesTrans(n, d, p);
    }
  }

  /** The position of the cache entries among all primes: entry `k` is a
      prime, and the primes below it are exactly the entries before it. */
  lemma EntryIsKthPrime(s: seq<nat>, n: nat, k: nat)
    requires PrimesUpTo(s, n) && k < |s|
    ensures IsPrime(s[k])
    ensures forall p | 2 <= p < s[k] && IsPrime(p) :: p in s[..k]
  {
    assert s[k] <= n by {
      if k < |s| - 1 {
        assert s[k] < s[|s| - 1];
      }
    }
    forall p | 2 <= p < s[k] && IsPrime(p)
      ensures p in s[..k]
    {
      assert p in s;
      var j :| 0 <= j < |s| && s[j] == p;
      assert s[..k][j] == p;
    }
  }

  function Product(s: seq<nat>): nat
  {
    if |s| == 0 then 1 else s[0] * Product(s[1..])
  }

  /** Every entry divides the product. */
  lemma {:induction false} ProductFactor(s: seq<nat>, k: nat) returns (q: nat)
    requires k < |s|
    ensures Product(s) == s[k] * q
    decreases k
  {
    if k == 0 {
      q := Product(s[1..]);
    } else {
      var q' := ProductFactor(s[1..], k - 1);
      assert s[1..][k - 1] == s[k];
      q := s[0] * q';
      calc {
        Product(s);
        s[0] * Product(s[1..]);
        s[0] * (s[k] * q');
        s[k] * (s[0] * q');
      }
    }
  }

  lemma {:induction false} ProductPositive(s: seq<nat>)
    requires forall k | 0 <= k < |s| :: s[k] > 0
    ensures Product(s) > 0
    decreases |s|
  {
    if |s| > 0 {
      ProductPositive(s[1..]);
    }
  }

  /** One more than the product of the entries escapes every entry, and it
      exceeds each of them: the search always ends. */
  lemma ProductEscapes(s: seq<nat>)
    requires forall k | 0 <= k < |s| :: s[k] >= 2
    ensures NoneDivides(s, Product(s) + 1)
    ensures forall k | 0 <= k < |s| :: s[k] < Product(s) + 1
  {
    ProductPositive(s);
    forall k | 0 <= k < |s|
      ensures (Product(s) + 1) % s[k] != 0 && s[k] < Product(s) + 1
    {
      var q := ProductFactor(s, k);
      ModOfMultiple(s[k], q, 1);
      assert q >= 1;
      assert s[k] * q >= s[k];
    }
  }

  /** Every number the search skips is composite: a cached prime below it
      divides it. */
  lemma SkippedNotPrime(s: seq<nat>, n: nat, m: nat)
    requires PrimesUpTo(s, n) && n < m
    requires forall k | 0 <= k < |s| :: s[k] > 0
    requires !NoneDivides(s, m)
    ensures !IsPrime(m)
  {
    var k :| 0 <= k < |s| && m % s[k] == 0;
    EntryIsKthPrime(s, n, k);
    assert s[k] <= n by {
      if k < |s| - 1 {
        assert s[k] < s[|s| - 1];
      }
    }
  }

  /** A number above the largest cached prime that no cached prime divides,
      with no prime in between, is prime. */
  lemma EscapeIsPrime(s: seq<nat>, n: nat, c: nat)
    requires PrimesUpTo(s, n) && n < c
    requires forall k | 0 <= k < |s| :: s[k] > 0
    requires NoneDivides(s, c)
    requires forall m | n < m < c :: !IsPrime(m)
    ensures IsPrime(c)
  {
    EntryIsKthPrime(s, n, |s| - 1);
    var p := PrimeFactor(c);
    assert p == c;
  }

  /** Appending the next prime keeps the cache exact. */
  lemma AppendNextPrime(s: seq<nat>, n: nat, c: nat)
    requires PrimesUpTo(s, n) && n < c && IsPrime(c)
    requires forall m | n < m < c :: !IsPrime(m)
    ensures PrimesUpTo(s + [c], c)
  {
    var t := s + [c];
    forall i, j | 0 <= i < j < |t|
      ensures t[i] < t[j]
    {
      if j < |s| {
        assert t[i] == s[i] && t[j] == s[j];
      } else {
        assert t[i] == s[i];
        if i < |s| - 1 {
          assert s[i] < s[|s| - 1];
        }
      }
    }
    forall q | 2 <= q <= c && IsPrime(q)
      ensures q in t
    {
      if q <= n {
        assert q in s;
      } else {
        assert t[|s|] == q;
      }
    }
    forall k | 0 <= k < |t|
      ensures IsPrime(t[k])
    {
      if k < |s| {
        assert t[k] == s[k];
      }
    }
  }

  /** The number the search settles on is the next prime: a number above
      the largest cached prime that no cached prime divides, with every
      number in between divisible by one of them, is prime, no number in
      between is, and appending it keeps the cache exact. */
  lemma SearchFindsNextPrime(s: seq<nat>, n: nat, c: nat)
    requires PrimesUpTo(s, n) && n < c
    requires forall k | 0 <= k < |s| :: s[k] > 0
    requires NoneDivides(s, c)
    requires forall m | n < m < c :: !NoneDivides(s, m)
    ensures IsPrime(c)
    ensures forall m | n < m < c :: !IsPrime(m)
    ensures PrimesUpTo(s + [c], c)
  {
    forall m | n < m < c
      ensures !IsPrime(m)
    {
      SkippedNotPrime(s, n, m);
    }
    EscapeIsPrime(s, n, c);
    AppendNextPrime(s, n, c);
  }

  class Primes {
    var index: nat
    var current: nat
    var stored: seq<nat>

    /** The cache holds, in order, exactly the primes up to `current`. */
    ghost predicate Valid()
      reads this
    {
      PrimesUpTo(stored, current)
    }

    constructor ()
      ensures Valid()
      ensures index == 0 && current == 2 && stored == [2]
    {
      index := 0;
      current := 2;
      stored := [2];
    }

    /** Rewinds the read position; the cache is kept. */
    method Reset()
      modifies this`index
      ensures index == 0
    {
      index := 0;
    }

    /** `next` as written: the position advances, and the pattern match on
        the lookup always succeeds, so the call yields the cached entry or
        fails on an out-of-range index.  The search is never reached. */
    method Next() returns (r: Step)
      modifies this`index
      ensures index == old(index) + 1
      ensures r == if old(index) < |stored| then Yield(stored[old(index)]) else OutOfBounds
    {
      index := index + 1;
      if index - 1 < |stored| {
        return Yield(stored[index - 1]);
      }
      return OutOfBounds;
    }

    /** The search step: counts up from `current` to the first number that
        no stored prime divides, appends it and makes it `current`. */
    method SearchNext() returns (p: nat)
      requires Valid()
      modifies this`stored, this`current
      ensures Valid()
      ensures old(current) < p && current == p && stored == old(stored) + [p]
      ensures NoneDivides(old(stored), p)
      ensures forall m | old(current) < m < p :: !NoneDivides(old(stored), m)
      ensures IsPrime(p) && forall m | old(current) < m < p :: !IsPrime(m)
    {
      ghost var s := stored;
      ghost var n := current;
      ProductEscapes(stored);
      ghost var bound := Product(stored) + 1;
      var c := current;
      while true
        invariant stored == s && current == n
        invariant n <= c < bound
        invariant forall m | n < m <= c :: !NoneDivides(s, m)
        decreases bound - c
      {
        c := c + 1;
        if NoneDivides(stored, c) {
          SearchFindsNextPrime(s, n, c);
          stored := stored + [c];
          current := c;
          break;
        }
      }
      p := c;
    }

    /** `next` as evidently intended: the cached entry when there is one,
        otherwise the result of the search.  With the position never past
        the end of the cache, call `k` yields the `k`-th prime. */
    method NextIntended() returns (p: nat)
      requires Valid() && index <= |stored|
      modifies this`index, this`stored, this`current
      ensures Valid() && index == old(index) + 1 && index <= |stored|
      ensures p == stored[old(index)]
      ensures old(index) < |old(stored)| ==> stored == old(stored) && current == old(current)
      ensures old(index) == |old(stored)| ==>
                old(current) < p && current == p && stored == old(stored) + [p]
      ensures IsPrime(p) && forall q | 2 <= q < p && IsPrime(q) :: q in stored[..old(index)]
    {
      index := index + 1;
      if index - 1 < |stored| {
        p := stored[index - 1];
      } else {
        p := SearchNext();
      }
      EntryIsKthPrime(stored, current, index - 1);
    }
  }

  /** On a fresh cache the first `next` yields 2 and the second one fails,
      since the cache holds only 2 and the search is never reached. */
  method SecondNextFails() returns (first: Step, second: Step)
    ensures first == Yield(2) && second == OutOfBounds
  {
    var ps := new Primes();
    first := ps.Next();
    second := ps.Next();
  }

  /** The prime after 2 is 3. */
  lemma PrimeAfterTwo(b: nat)
    requires IsPrime(b) && 2 < b
    requires forall q | 2 <= q < b && IsPrime(q) :: q in [2]
    ensures b == 3
  {
    assert IsPrime(3);
  }

  /** The prime after 3 is 5. */
  lemma PrimeAfterThree(c: nat)
    requires IsPrime(c) && 3 < c
    requires forall q | 2 <= q < c && IsPrime(q) :: q in [2, 3]
    ensures c == 5
  {
    assert IsPrime(5);
    assert 4 % 2 == 0;
  }

  /** With the intended lookup a fresh cache yields 2, 3 and 5. */
  method IntendedSequence() returns (a: nat, b: nat, c: nat)
    ensures a == 2 && b == 3 && c == 5
  {
    var ps := new Primes();
    a := ps.NextIntended();
    assert ps.stored == [2] && ps.current == 2;
    b := ps.NextIntended();
    assert ps.stored == [2, b] && ps.stored[..1] == [2];
    PrimeAfterTwo(b);
    c := ps.NextIntended();
    assert ps.stored[..2] == [2, 3];
    PrimeAfterThree(c);
  }

  /** After a reset the intended lookup starts again from 2, whatever the
      cache holds. */
  method ResetReplays(ps: Primes) returns (p: nat)
    requires ps.Valid()
    modifies ps
    ensures p == 2
  {
    ps.Reset();
    p := ps.NextIntended();
    assert 2 in ps.stored by {
      assert ps.stored[0] >= 2;
      EntryIsKthPrime(ps.stored, ps.current, |ps.stored| - 1);
    }
  }
}
