/** The base sequence 1, 2, 3, 5, 8, ... and the two memoising caches that
    serve it: values by index, and indices by value. */
module Oracle {

  /** The base sequence: seeds 1 and 2, then each value is the sum of the
      two before it. Every value exceeds its index. */
  function Fib(i: nat): (r: nat)
    ensures r >= i + 1
  {
    if i == 0 then 1 else if i == 1 then 2 else Fib(i - 2) + Fib(i - 1)
  }

  /** The sequence is strictly increasing. */
  lemma {:induction false} FibIncreasing(i: nat, j: nat)
    requires i < j
    ensures Fib(i) < Fib(j)
    decreases j - i
  {
    if j == i + 1 {
      if j >= 2 {
        assert Fib(j) == Fib(j - 2) + Fib(i);
      }
    } else {
      FibIncreasing(i, j - 1);
      FibIncreasing(j - 1, j);
    }
  }

  /** Strict monotonicity makes the sequence injective. */
  lemma FibInjective(i: nat, j: nat)
    requires Fib(i) == Fib(j)
    ensures i == j
  {
    if i < j { FibIncreasing(i, j); }
    if j < i { FibIncreasing(j, i); }
  }

  /** `n` is a value of the sequence. */
  ghost predicate IsFib(n: int)
  {
    exists j: nat :: Fib(j) == n
  }

  /** `n` occurs in the sequence at some index from `k` on. */
  ghost predicate OccursFrom(n: int, k: nat)
  {
    exists j: nat :: k <= j && Fib(j) == n
  }

  /** Search for `n` from index `k` on: the index of `n`, or -1 once the
      sequence has passed `n`. */
  function FibIndexFrom(n: int, k: nat): (r: int)
    ensures r == -1 <==> !OccursFrom(n, k)
    ensures r != -1 ==> k <= r && Fib(r) == n
    decreases n - Fib(k)
  {
    if n <= Fib(k) then
      if n == Fib(k) then k
      else
        assert !OccursFrom(n, k) by {
          forall j: nat | k < j ensures Fib(j) != n { FibIncreasing(k, j); }
        }
        -1
    else
      FibIncreasing(k, k + 1);
      var r := FibIndexFrom(n, k + 1);
      assert OccursFrom(n, k) ==> OccursFrom(n, k + 1) by {
        if OccursFrom(n, k) {
          var j: nat :| k <= j && Fib(j) == n;
          assert k + 1 <= j;
        }
      }
      r
  }

  /** The inverse of `Fib`: the index of `n` in the sequence, or -1 when `n`
      is not a sequence value (in particular whenever n <= 0). */
  function FibIndex(n: int): (r: int)
    ensures r == -1 <==> !IsFib(n)
    ensures r != -1 ==> 0 <= r && Fib(r) == n
  {
    var r := FibIndexFrom(n, 0);
    assert IsFib(n) <==> OccursFrom(n, 0) by {
      if IsFib(n) {
        var j: nat :| Fib(j) == n;
        assert 0 <= j && Fib(j) == n;
      }
    }
    r
  }

  /** Looking up a sequence value gives back its index. */
  lemma FibIndexOfFib(i: nat)
    ensures FibIndex(Fib(i)) == i
  {
    var r := FibIndex(Fib(i));
    assert IsFib(Fib(i));
    FibInjective(r, i);
  }

  /** `m` maps exactly the sequence values at indices 0..top to their indices. */
  ghost predicate IndexesUpTo(m: map<int, nat>, top: nat)
  {
    && (forall v :: v in m ==> m[v] <= top && Fib(m[v]) == v)
    && (forall k: nat :: k <= top ==> Fib(k) in m)
  }

  /** Recording the next sequence value extends such a map by one index,
      without touching the entries already there. */
  lemma IndexesExtend(m: map<int, nat>, top: nat)
    requires IndexesUpTo(m, top)
    ensures Fib(top + 1) !in m
    ensures IndexesUpTo(m[Fib(top + 1) := top + 1], top + 1)
  {
    if Fib(top + 1) in m {
      FibInjective(m[Fib(top + 1)], top + 1);
    }
    var m' := m[Fib(top + 1) := top + 1];
    forall k: nat | k <= top + 1 ensures Fib(k) in m' {
      if k <= top { assert Fib(k) in m; }
    }
  }

  /** Two such maps agree wherever the smaller one is defined. */
  lemma IndexesAgree(m: map<int, nat>, top: nat, m': map<int, nat>, top': nat)
    requires IndexesUpTo(m, top) && IndexesUpTo(m', top') && top <= top'
    ensures forall v :: v in m ==> v in m' && m'[v] == m[v]
  {
    forall v | v in m ensures v in m' && m'[v] == m[v] {
      assert Fib(m[v]) in m';
      FibInjective(m'[v], m[v]);
    }
  }

  /** Once the frontier has reached `n`, such a map answers the lookup of `n`
      exactly as FibIndex does, -1 for a non-member included. */
  lemma IndexesLookup(m: map<int, nat>, top: nat, n: int)
    requires IndexesUpTo(m, top) && n <= Fib(top)
    ensures (if n in m then m[n] else -1) == FibIndex(n)
  {
    if n in m {
      assert IsFib(n) by { assert Fib(m[n]) == n; }
      FibInjective(FibIndex(n), m[n]);
    } else {
      forall j: nat ensures Fib(j) != n {
        if j > top { FibIncreasing(top, j); } else { assert Fib(j) in m; }
      }
    }
  }

  /** The value cache: a list seeded [1, 2] that is extended on demand. */
  class FibonacciCache {
    var cache: seq<nat>

    /** Every cached entry is the sequence value at its index. */
    ghost predicate Valid()
      reads this
    {
      |cache| >= 2 && forall i :: 0 <= i < |cache| ==> cache[i] == Fib(i)
    }

    constructor ()
      ensures Valid() && cache == [1, 2]
    {
      cache := [1, 2];
    }

    /** The value at index `n`; the cache grows to exactly n + 1 entries
        when it was shorter, and every entry already there is kept. */
    method Get(n: nat) returns (v: nat)
      requires Valid()
      modifies this
      ensures Valid() && v == Fib(n)
      ensures old(cache) <= cache
      ensures |cache| == if n < old(|cache|) then old(|cache|) else n + 1
    {
      while n >= |cache|
        invariant Valid()
        invariant old(cache) <= cache
        invariant |cache| <= if n < old(|cache|) then old(|cache|) else n + 1
        decreases n + 1 - |cache|
      {
        cache := cache + [cache[|cache| - 1] + cache[|cache| - 2]];
      }
      v := cache[n];
    }
  }

  /** The index cache: a dictionary from sequence values to their indices,
      complete up to the frontier `best`, which is itself a sequence value. */
  class FibonacciIndexCache {
    const fib: FibonacciCache
    var cache: map<int, nat>
    var best: int
    ghost var bestIndex: nat

    /** `best` is the value at `bestIndex`, and the dictionary holds exactly
        the sequence values up to `best`, each mapped to its index. */
    ghost predicate Valid()
      reads this, fib
    {
      && fib.Valid()
      && best == Fib(bestIndex)
      && IndexesUpTo(cache, bestIndex)
    }

    constructor (fib: FibonacciCache)
      requires fib.Valid()
      ensures Valid() && this.fib == fib
      ensures cache == map[1 := 0] && best == 1 && bestIndex == 0
    {
      this.fib := fib;
      cache := map[1 := 0];
      best := 1;
      bestIndex := 0;
    }

    /** One round of the lookup loop: record the value after the frontier
        under its index and make it the new frontier. */
    method Advance()
      requires Valid()
      modifies this, fib
      ensures Valid() && bestIndex == old(bestIndex) + 1 && best > old(best)
      ensures best !in old(cache) && cache == old(cache)[best := bestIndex]
      ensures old(fib.cache) <= fib.cache
    {
      ghost var top := bestIndex;
      var i := cache[best] + 1;
      assert i == top + 1 by { FibInjective(cache[best], top); }
      var v := fib.Get(i);
      FibIncreasing(top, i);
      IndexesExtend(cache, top);
      best, cache, bestIndex := v, cache[v := i], i;
    }

    /** The index of `n`, or -1 when `n` is not a sequence value. The
        frontier moves forward until it reaches `n` (and stays put when it
        already had), and entries already in the dictionary are kept. */
    method Index(n: int) returns (r: int)
      requires Valid()
      modifies this, fib
      ensures Valid() && r == FibIndex(n)
      ensures forall v :: v in old(cache) ==> v in cache && cache[v] == old(cache)[v]
      ensures old(bestIndex) <= bestIndex && n <= best
      ensures n <= old(best) ==> bestIndex == old(bestIndex)
      ensures old(fib.cache) <= fib.cache
    {
      while best < n
        invariant Valid()
        invariant old(fib.cache) <= fib.cache
        invariant old(bestIndex) <= bestIndex
        invariant n <= old(best) ==> bestIndex == old(bestIndex)
        decreases n - best
      {
        Advance();
      }
      IndexesAgree(old(cache), old(bestIndex), cache, bestIndex);
      IndexesLookup(cache, bestIndex, n);
      r := if n in cache then cache[n] else -1;
    }
  }
}
