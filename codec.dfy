/** States of the game and their encodings: the value a state stands for
    (`evaluate`), its expanded listing (`show`), and the parser that turns a
    list of sequence values into a state (`parse`). */
module Codec {
  import opened Oracle

  /** A state: `s[i]` is how many copies of Fib(i) the pile holds. */
  type State = seq<int>

  /** No count is negative. */
  predicate NonNeg(s: State)
  {
    forall i :: 0 <= i < |s| ==> s[i] >= 0
  }

  /** `t` is `s` with count i changed by `d` and every other count kept. */
  predicate ChangedAt(s: State, t: State, i: nat, d: int)
  {
    && i < |s| == |t|
    && t[i] == s[i] + d
    && forall j :: 0 <= j < |s| && j != i ==> t[j] == s[j]
  }

  /** 2 to the power i. */
  function Pow2(i: nat): (r: nat)
    ensures r >= 1
  {
    if i == 0 then 1 else 2 * Pow2(i - 1)
  }

  /** The weightings of a state's counts: by the base sequence, which gives
      the value the state stands for; by 2^i - 1, which gives the potential
      that every move of the game raises; and by 1, which counts the pieces. */
  datatype Weighting = ByFib | ByPow2 | ByCount

  function Weight(w: Weighting, i: nat): nat
  {
    match w
    case ByFib => Fib(i)
    case ByPow2 => Pow2(i) - 1
    case ByCount => 1
  }

  /** The weighted sum of the first k counts, Σ s[j] · Weight(w, j) for j < k. */
  function WeightedPrefix(s: State, w: Weighting, k: nat): int
    requires k <= |s|
  {
    if k == 0 then 0 else WeightedPrefix(s, w, k - 1) + s[k - 1] * Weight(w, k - 1)
  }

  /** The weighted sum of all the counts. */
  function Weighted(s: State, w: Weighting): int
  {
    WeightedPrefix(s, w, |s|)
  }

  /** Weighted prefix sums only look at the counts they cover. */
  lemma {:induction false} WeightedAgree(s: State, t: State, w: Weighting, k: nat)
    requires k <= |s| && k <= |t|
    requires forall j :: 0 <= j < k ==> s[j] == t[j]
    ensures WeightedPrefix(s, w, k) == WeightedPrefix(t, w, k)
  {
    if k > 0 {
      WeightedAgree(s, t, w, k - 1);
    }
  }

  /** Appending a count adds its weighted contribution. */
  lemma WeightedAppend(s: State, x: int, w: Weighting)
    ensures Weighted(s + [x], w) == Weighted(s, w) + x * Weight(w, |s|)
  {
    WeightedAgree(s + [x], s, w, |s|);
  }

  lemma {:induction false} WeightedPrefixAdd(s: State, t: State, i: nat, d: int, w: Weighting, k: nat)
    requires ChangedAt(s, t, i, d) && k <= |s|
    ensures WeightedPrefix(t, w, k)
         == WeightedPrefix(s, w, k) + (if i < k then d * Weight(w, i) else 0)
  {
    if k > 0 {
      WeightedPrefixAdd(s, t, i, d, w, k - 1);
      if k - 1 == i {
        assert (s[i] + d) * Weight(w, i) == s[i] * Weight(w, i) + d * Weight(w, i);
      }
    }
  }

  /** Changing count i by `d` changes the weighted sum by d · Weight(w, i). */
  lemma WeightedAdd(s: State, t: State, i: nat, d: int, w: Weighting)
    requires ChangedAt(s, t, i, d)
    ensures Weighted(t, w) == Weighted(s, w) + d * Weight(w, i)
  {
    WeightedPrefixAdd(s, t, i, d, w, |s|);
  }

  /** What a state is worth: Σ s[i] · Fib(i) (`evaluate`). A state with no
      negative count is worth at least 0. */
  function Value(s: State): (r: int)
    ensures NonNeg(s) ==> r >= 0
  {
    var r := Weighted(s, ByFib);
    assert NonNeg(s) ==> r >= 0 by {
      if NonNeg(s) { WeightedNonNeg(s, ByFib); }
    }
    r
  }

  /** Products of non-negative factors. */
  lemma ProductNonNeg(c: int, f: nat)
    requires c >= 0
    ensures c * f >= 0
  {
  }

  /** A non-negative multiple of a positive weight is at least the multiplier. */
  lemma MultipleBounds(c: int, f: nat)
    requires c >= 0 && f >= 1
    ensures 0 <= c <= c * f
  {
  }

  /** With no negative count, every weighted prefix sum is non-negative and
      at least the contribution of each count it covers. */
  lemma {:induction false} WeightedPrefixBounds(s: State, w: Weighting, i: nat, k: nat)
    requires NonNeg(s) && k <= |s|
    ensures 0 <= WeightedPrefix(s, w, k)
    ensures i < k ==> s[i] * Weight(w, i) <= WeightedPrefix(s, w, k)
  {
    if k > 0 {
      WeightedPrefixBounds(s, w, i, k - 1);
      ProductNonNeg(s[k - 1], Weight(w, k - 1));
    }
  }

  /** With no negative count, the weighted sum is non-negative. */
  lemma WeightedNonNeg(s: State, w: Weighting)
    requires NonNeg(s)
    ensures Weighted(s, w) >= 0
  {
    WeightedPrefixBounds(s, w, 0, |s|);
  }

  /** In a state with no negative count, each count's contribution is at
      most the whole value, and so is the count itself. */
  lemma ValueBoundsCount(s: State, i: nat)
    requires NonNeg(s) && i < |s|
    ensures 0 <= s[i] * Fib(i) <= Value(s)
    ensures 0 <= s[i] <= Value(s)
  {
    WeightedPrefixBounds(s, ByFib, i, |s|);
    MultipleBounds(s[i], Fib(i));
  }

  /** `c` copies of `x` (none when c <= 0, as Python's `itertools.repeat`). */
  function Repeat(x: int, c: int): seq<int>
  {
    if c <= 0 then [] else Repeat(x, c - 1) + [x]
  }

  lemma {:induction false} RepeatFacts(x: int, c: int)
    ensures |Repeat(x, c)| == if c <= 0 then 0 else c
    ensures forall k :: 0 <= k < |Repeat(x, c)| ==> Repeat(x, c)[k] == x
  {
    if c > 0 { RepeatFacts(x, c - 1); }
  }

  /** The listing of the first k counts: each Fib(j) repeated s[j] times, in
      increasing index order. */
  function ShowPrefix(s: State, k: nat): seq<int>
    requires k <= |s|
  {
    if k == 0 then [] else ShowPrefix(s, k - 1) + Repeat(Fib(k - 1), s[k - 1])
  }

  /** The expanded listing of a state (`show`, without the decimal
      formatting): each Fib(i) repeated s[i] times, by increasing i, so the
      listing is in ascending order. */
  function Show(s: State): (r: seq<int>)
    ensures Sorted(r)
  {
    ShowPrefixSorted(s, |s|);
    ShowPrefix(s, |s|)
  }

  /** Listing prefixes only look at the counts they cover. */
  lemma {:induction false} ShowAgree(s: State, t: State, k: nat)
    requires k <= |s| && k <= |t|
    requires forall j :: 0 <= j < k ==> s[j] == t[j]
    ensures ShowPrefix(s, k) == ShowPrefix(t, k)
  {
    if k > 0 {
      ShowAgree(s, t, k - 1);
    }
  }

  /** Appending a count appends its copies to the listing. */
  lemma ShowAppend(s: State, c: int)
    ensures Show(s + [c]) == Show(s) + Repeat(Fib(|s|), c)
  {
    ShowAgree(s + [c], s, |s|);
  }

  /** The sum of a list of integers. */
  function Sum(xs: seq<int>): int
  {
    if xs == [] then 0 else Sum(xs[..|xs| - 1]) + xs[|xs| - 1]
  }

  /** Ascending order. */
  predicate Sorted(xs: seq<int>)
  {
    forall j, k :: 0 <= j < k < |xs| ==> xs[j] <= xs[k]
  }

  lemma {:induction false} SumConcat(a: seq<int>, b: seq<int>)
    ensures Sum(a + b) == Sum(a) + Sum(b)
  {
    if b != [] {
      var n := |b| - 1;
      assert (a + b)[..|a + b| - 1] == a + b[..n];
      SumConcat(a, b[..n]);
    } else {
      assert a + b == a;
    }
  }

  lemma {:induction false} SumRepeat(x: int, c: int)
    ensures Sum(Repeat(x, c)) == if c <= 0 then 0 else c * x
  {
    if c > 0 {
      var r := Repeat(x, c);
      assert r[..|r| - 1] == Repeat(x, c - 1);
      SumRepeat(x, c - 1);
    }
  }

  lemma {:induction false} ShowPrefixSum(s: State, k: nat)
    requires NonNeg(s) && k <= |s|
    ensures Sum(ShowPrefix(s, k)) == WeightedPrefix(s, ByFib, k)
  {
    if k > 0 {
      ShowPrefixSum(s, k - 1);
      SumConcat(ShowPrefix(s, k - 1), Repeat(Fib(k - 1), s[k - 1]));
      SumRepeat(Fib(k - 1), s[k - 1]);
    }
  }

  /** The listing adds up to the value of the state. */
  lemma ShowSum(s: State)
    requires NonNeg(s)
    ensures Sum(Show(s)) == Value(s)
  {
    ShowPrefixSum(s, |s|);
  }

  /** Every value listed for the first k counts is below Fib(k). */
  lemma {:induction false} ShowPrefixBelow(s: State, k: nat)
    requires k <= |s|
    ensures forall j :: 0 <= j < |ShowPrefix(s, k)| ==> ShowPrefix(s, k)[j] < Fib(k)
  {
    if k > 0 {
      var a, b := ShowPrefix(s, k - 1), Repeat(Fib(k - 1), s[k - 1]);
      ShowPrefixBelow(s, k - 1);
      RepeatFacts(Fib(k - 1), s[k - 1]);
      FibIncreasing(k - 1, k);
      assert ShowPrefix(s, k) == a + b;
    }
  }

  /** The listing of the first k counts is in ascending order. */
  lemma {:induction false} ShowPrefixSorted(s: State, k: nat)
    requires k <= |s|
    ensures Sorted(ShowPrefix(s, k))
  {
    if k > 0 {
      var a, b := ShowPrefix(s, k - 1), Repeat(Fib(k - 1), s[k - 1]);
      ShowPrefixSorted(s, k - 1);
      ShowPrefixBelow(s, k - 1);
      RepeatFacts(Fib(k - 1), s[k - 1]);
      assert ShowPrefix(s, k) == a + b;
      forall j, m | 0 <= j < m < |a + b| ensures (a + b)[j] <= (a + b)[m] {
        if j < |a| && m < |a| {
        } else if j < |a| {
          assert a[j] < Fib(k - 1);
        }
      }
    }
  }

  /** `s` extended with zero counts to at least `len` entries. */
  function Pad(s: State, len: nat): (t: State)
    ensures |t| == if |s| < len then len else |s|
    ensures len <= |s| ==> t == s
    decreases len - |s|
  {
    if |s| >= len then s else Pad(s + [0], len)
  }

  /** The padded state keeps the counts of `s` and is zero beyond them. */
  lemma {:induction false} PadEntries(s: State, len: nat)
    ensures forall j :: 0 <= j < |Pad(s, len)| ==> Pad(s, len)[j] == if j < |s| then s[j] else 0
    decreases len - |s|
  {
    if |s| < len {
      PadEntries(s + [0], len);
    }
  }

  /** Padding changes neither the listing nor the value. */
  lemma {:induction false} PadInvisible(s: State, len: nat)
    ensures Show(Pad(s, len)) == Show(s) && Value(Pad(s, len)) == Value(s)
    decreases len - |s|
  {
    if |s| < len {
      ShowAppend(s, 0);
      WeightedAppend(s, 0, ByFib);
      PadInvisible(s + [0], len);
    }
  }

  /** An extra element on the left survives concatenation. */
  lemma ConcatOneMore(a: seq<int>, a': seq<int>, r: seq<int>, x: int)
    requires multiset(a') == multiset(a) + multiset{x}
    ensures multiset(a' + r) == multiset(a + r) + multiset{x}
  {
    calc {
      multiset(a' + r);
      multiset(a') + multiset(r);
      multiset(a) + multiset{x} + multiset(r);
      multiset(a) + multiset(r) + multiset{x};
      multiset(a + r) + multiset{x};
    }
  }

  /** The step at index i itself: its copies grow by one. */
  lemma ShowPrefixIncrementAt(s: State, t: State, i: nat)
    requires ChangedAt(s, t, i, 1) && s[i] >= 0
    ensures multiset(ShowPrefix(t, i + 1)) == multiset(ShowPrefix(s, i + 1)) + multiset{Fib(i)}
  {
    var x := Fib(i);
    var a := ShowPrefix(s, i);
    var r := Repeat(x, s[i]);
    ShowAgree(t, s, i);
    assert Repeat(x, t[i]) == r + [x];
    assert ShowPrefix(t, i + 1) == a + (r + [x]);
    assert ShowPrefix(s, i + 1) == a + r;
  }

  lemma {:induction false} ShowPrefixIncrementStep(s: State, t: State, i: nat, k: nat)
    requires ChangedAt(s, t, i, 1) && i + 1 < k <= |s| && s[i] >= 0
    ensures multiset(ShowPrefix(t, k)) == multiset(ShowPrefix(s, k)) + multiset{Fib(i)}
    decreases k, 0
  {
    var a, a' := ShowPrefix(s, k - 1), ShowPrefix(t, k - 1);
    var r := Repeat(Fib(k - 1), s[k - 1]);
    ShowPrefixIncrement(s, t, i, k - 1);
    assert t[k - 1] == s[k - 1];
    assert ShowPrefix(t, k) == a' + r;
    assert ShowPrefix(s, k) == a + r;
    ConcatOneMore(a, a', r, Fib(i));
  }

  /** One more copy of Fib(i) adds one occurrence of Fib(i) to every listing
      prefix that covers index i. */
  lemma {:induction false} ShowPrefixIncrement(s: State, t: State, i: nat, k: nat)
    requires ChangedAt(s, t, i, 1) && i < k <= |s| && s[i] >= 0
    ensures multiset(ShowPrefix(t, k)) == multiset(ShowPrefix(s, k)) + multiset{Fib(i)}
    decreases k, 1
  {
    if k == i + 1 {
      ShowPrefixIncrementAt(s, t, i);
    } else {
      ShowPrefixIncrementStep(s, t, i, k);
    }
  }

  /** One more copy of Fib(i) is one more occurrence of Fib(i) in the listing. */
  lemma ShowIncrement(s: State, t: State, i: nat)
    requires ChangedAt(s, t, i, 1) && s[i] >= 0
    ensures multiset(Show(t)) == multiset(Show(s)) + multiset{Fib(i)}
  {
    ShowPrefixIncrement(s, t, i, |s|);
  }

  /** One more copy of Fib(i), first extending the state with zero counts
      up to index i when it is too short. */
  function Bump(s: State, i: nat): State
  {
    Pad(s, i + 1)[i := Pad(s, i + 1)[i] + 1]
  }

  /** Each of the first k listed values has an index in the sequence. */
  predicate Members(values: seq<int>, k: nat)
    requires k <= |values|
  {
    forall j :: 0 <= j < k ==> FibIndex(values[j]) != -1
  }

  /** The counts of the first k values of a list, accumulated left to right. */
  function Tally(values: seq<int>, k: nat): State
    requires k <= |values| && Members(values, k)
  {
    if k == 0 then [] else Bump(Tally(values, k - 1), FibIndex(values[k - 1]))
  }

  /** The state a move denotes: the tally of its values, or the empty state
      when the move is empty or names any value outside the sequence. */
  function ParseResult(values: seq<int>): (r: State)
    ensures r == [] <==> values == [] || exists k :: 0 <= k < |values| && !IsFib(values[k])
  {
    if Members(values, |values|) then
      assert values != [] ==> Tally(values, |values|) != [] by {
        if values != [] { TallyShape(values, |values|); }
      }
      Tally(values, |values|)
    else []
  }

  /** One more value of a move that is a sequence value: the tally counts
      one more copy of it. */
  lemma TallyExtend(values: seq<int>, k: nat)
    requires k < |values| && Members(values, k) && FibIndex(values[k]) != -1
    ensures Members(values, k + 1)
    ensures Tally(values, k + 1) == Bump(Tally(values, k), FibIndex(values[k]))
  {
  }

  /** A value outside the sequence anywhere in the move makes it denote
      the empty state. */
  lemma ParseRejects(values: seq<int>, k: nat)
    requires k < |values| && FibIndex(values[k]) == -1
    ensures ParseResult(values) == []
  {
    assert !Members(values, |values|);
  }

  /** A move of sequence values denotes the tally of all of them. */
  lemma ParseAccepts(values: seq<int>)
    requires Members(values, |values|)
    ensures ParseResult(values) == Tally(values, |values|)
  {
  }

  /** Bumping keeps the counts non-negative and leaves the last count
      non-zero. */
  lemma BumpShape(s: State, i: nat)
    requires NonNeg(s) && (s == [] || s[|s| - 1] != 0)
    ensures NonNeg(Bump(s, i)) && Bump(s, i)[|Bump(s, i)| - 1] != 0
  {
    var padded := Pad(s, i + 1);
    var t := padded[i := padded[i] + 1];
    PadEntries(s, i + 1);
    assert NonNeg(t) by {
      forall j | 0 <= j < |t| ensures t[j] >= 0 {
        if j != i { assert t[j] == padded[j]; }
      }
    }
    if i + 1 < |s| {
      assert t[|t| - 1] == s[|s| - 1];
    }
  }

  /** Bumping adds Fib(i) to the value. */
  lemma BumpValue(s: State, i: nat)
    ensures Value(Bump(s, i)) == Value(s) + Fib(i)
  {
    PadInvisible(s, i + 1);
    assert ChangedAt(Pad(s, i + 1), Bump(s, i), i, 1);
    WeightedAdd(Pad(s, i + 1), Bump(s, i), i, 1, ByFib);
  }

  /** Bumping adds one Fib(i) to the listing. */
  lemma BumpListing(s: State, i: nat)
    requires NonNeg(s)
    ensures multiset(Show(Bump(s, i))) == multiset(Show(s)) + multiset{Fib(i)}
  {
    var padded := Pad(s, i + 1);
    assert padded[i] >= 0 by {
      PadEntries(s, i + 1);
    }
    PadInvisible(s, i + 1);
    assert ChangedAt(padded, Bump(s, i), i, 1);
    ShowIncrement(padded, Bump(s, i), i);
  }

  /** The tally of the first k values has no negative count and, for k > 0,
      ends in a non-zero count. */
  lemma {:induction false} TallyShape(values: seq<int>, k: nat)
    requires k <= |values| && Members(values, k)
    ensures NonNeg(Tally(values, k))
    ensures k > 0 ==> Tally(values, k)[|Tally(values, k)| - 1] != 0
  {
    if k > 0 {
      assert Members(values, k - 1);
      TallyShape(values, k - 1);
      BumpShape(Tally(values, k - 1), FibIndex(values[k - 1]));
    }
  }

  /** The tally of the first k values is worth their sum. */
  lemma {:induction false} TallyValue(values: seq<int>, k: nat)
    requires k <= |values| && Members(values, k)
    ensures Value(Tally(values, k)) == Sum(values[..k])
  {
    if k > 0 {
      var p := values[..k];
      assert Members(values, k - 1);
      assert p[..k - 1] == values[..k - 1];
      assert Sum(p) == Sum(values[..k - 1]) + values[k - 1];
      TallyValue(values, k - 1);
      BumpValue(Tally(values, k - 1), FibIndex(values[k - 1]));
    }
  }

  /** The listing of the tally of the first k values holds exactly those
      values. */
  lemma {:induction false} TallyListing(values: seq<int>, k: nat)
    requires k <= |values| && Members(values, k)
    ensures multiset(Show(Tally(values, k))) == multiset(values[..k])
  {
    if k > 0 {
      assert Members(values, k - 1);
      assert values[..k] == values[..k - 1] + [values[k - 1]];
      TallyShape(values, k - 1);
      TallyListing(values, k - 1);
      BumpListing(Tally(values, k - 1), FibIndex(values[k - 1]));
    }
  }

  /** A parsed move has no negative count and ends in a non-zero count; its
      value is the sum of the move's values, and its listing is exactly
      those values in ascending order. */
  lemma ParseCorrect(values: seq<int>)
    requires Members(values, |values|) && values != []
    ensures NonNeg(ParseResult(values))
    ensures ParseResult(values)[|ParseResult(values)| - 1] != 0
    ensures Value(ParseResult(values)) == Sum(values)
    ensures multiset(Show(ParseResult(values))) == multiset(values)
    ensures Sorted(Show(ParseResult(values)))
  {
    TallyShape(values, |values|);
    TallyValue(values, |values|);
    TallyListing(values, |values|);
    assert values[..|values|] == values;
  }

  /** How many times x occurs in xs. */
  function Count(xs: seq<int>, x: int): nat
  {
    if xs == [] then 0 else Count(xs[..|xs| - 1], x) + (if xs[|xs| - 1] == x then 1 else 0)
  }

  /** Occurrences in a concatenation add up. */
  lemma {:induction false} CountConcat(a: seq<int>, b: seq<int>, x: int)
    ensures Count(a + b, x) == Count(a, x) + Count(b, x)
  {
    if b != [] {
      assert (a + b)[..|a + b| - 1] == a + b[..|b| - 1];
      CountConcat(a, b[..|b| - 1], x);
    } else {
      assert a + b == a;
    }
  }

  /** `x` occurs c times in c copies of itself, and never in copies of
      another value. */
  lemma {:induction false} CountRepeat(y: int, c: int, x: int)
    ensures Count(Repeat(y, c), x) == if x == y && c > 0 then c else 0
  {
    if c > 0 {
      CountRepeat(y, c - 1, x);
      assert Repeat(y, c)[..|Repeat(y, c)| - 1] == Repeat(y, c - 1);
    }
  }

  /** Count is the multiplicity in the multiset of the list. */
  lemma {:induction false} MultisetCount(xs: seq<int>, x: int)
    ensures multiset(xs)[x] == Count(xs, x)
  {
    if xs != [] {
      var init := xs[..|xs| - 1];
      MultisetCount(init, x);
      assert xs == init + [xs[|xs| - 1]];
      assert multiset(xs) == multiset(init) + multiset{xs[|xs| - 1]};
    }
  }

  /** Extending a listing prefix by one index adds the copies of its value. */
  lemma CountStep(s: State, k: nat, x: int)
    requires NonNeg(s) && 0 < k <= |s|
    ensures Count(ShowPrefix(s, k), x)
      == Count(ShowPrefix(s, k - 1), x) + if x == Fib(k - 1) then s[k - 1] else 0
  {
    CountRepeat(Fib(k - 1), s[k - 1], x);
    CountConcat(ShowPrefix(s, k - 1), Repeat(Fib(k - 1), s[k - 1]), x);
  }

  /** Fib(i) does not occur in the listing of the counts below i. */
  lemma {:induction false} CountAbove(s: State, k: nat, i: nat)
    requires NonNeg(s) && k <= |s| && k <= i
    ensures Count(ShowPrefix(s, k), Fib(i)) == 0
  {
    if k > 0 {
      CountAbove(s, k - 1, i);
      FibIncreasing(k - 1, i);
      CountStep(s, k, Fib(i));
    }
  }

  /** Fib(i) occurs s[i] times in the listing of any prefix covering index i. */
  lemma {:induction false} CountBelow(s: State, k: nat, i: nat)
    requires NonNeg(s) && i < k <= |s|
    ensures Count(ShowPrefix(s, k), Fib(i)) == s[i]
  {
    if i == k - 1 {
      CountAbove(s, k - 1, i);
    } else {
      CountBelow(s, k - 1, i);
      FibIncreasing(i, k - 1);
    }
    CountStep(s, k, Fib(i));
  }

  /** A value outside the sequence never occurs in a listing prefix. */
  lemma {:induction false} CountNonFib(s: State, k: nat, x: int)
    requires NonNeg(s) && k <= |s| && !IsFib(x)
    ensures Count(ShowPrefix(s, k), x) == 0
  {
    if k > 0 {
      CountNonFib(s, k - 1, x);
      CountStep(s, k, x);
    }
  }

  /** The count at index i is how often Fib(i) occurs in the listing. */
  lemma ShowCountAt(s: State, i: nat)
    requires NonNeg(s)
    ensures multiset(Show(s))[Fib(i)] == if i < |s| then s[i] else 0
  {
    MultisetCount(Show(s), Fib(i));
    if i < |s| {
      CountBelow(s, |s|, i);
    } else {
      CountAbove(s, |s|, i);
    }
  }

  /** Every value in the listing of a state is a sequence value. */
  lemma ShowOnlyFib(s: State, x: int)
    requires NonNeg(s) && x in Show(s)
    ensures IsFib(x)
  {
    assert x in multiset(Show(s));
    MultisetCount(Show(s), x);
    if !IsFib(x) {
      CountNonFib(s, |s|, x);
    }
  }

  /** The listing of a state with a non-zero last count is a non-empty
      list of sequence values. */
  lemma ShowIsMove(s: State)
    requires NonNeg(s) && |s| >= 1 && s[|s| - 1] != 0
    ensures Show(s) != [] && Members(Show(s), |Show(s)|)
  {
    var v := Show(s);
    forall j | 0 <= j < |v| ensures FibIndex(v[j]) != -1 {
      ShowOnlyFib(s, v[j]);
    }
    ShowCountAt(s, |s| - 1);
    assert Fib(|s| - 1) in multiset(v);
  }

  /** A state whose last count is non-zero is no longer than any
      non-negative state with the same listing. */
  lemma ShowNoLonger(s: State, t: State)
    requires NonNeg(s) && |s| >= 1 && s[|s| - 1] != 0 && NonNeg(t)
    requires multiset(Show(s)) == multiset(Show(t))
    ensures |s| <= |t|
  {
    ShowCountAt(s, |s| - 1);
    ShowCountAt(t, |s| - 1);
  }

  /** States with no negative count and a non-zero last count are told
      apart by their listings. */
  lemma ShowInjective(s: State, t: State)
    requires NonNeg(s) && |s| >= 1 && s[|s| - 1] != 0
    requires NonNeg(t) && |t| >= 1 && t[|t| - 1] != 0
    requires multiset(Show(s)) == multiset(Show(t))
    ensures s == t
  {
    ShowNoLonger(s, t);
    ShowNoLonger(t, s);
    forall i | 0 <= i < |s| ensures s[i] == t[i] {
      ShowCountAt(s, i);
      ShowCountAt(t, i);
    }
  }

  /** Parsing the listing of a state with no negative count and a non-zero
      last count gives the state back. */
  lemma ShowParse(s: State)
    requires NonNeg(s) && |s| >= 1 && s[|s| - 1] != 0
    ensures ParseResult(Show(s)) == s
  {
    ShowIsMove(s);
    ParseCorrect(Show(s));
    ShowInjective(ParseResult(Show(s)), s);
  }

  /** The inner step of `parse`: append zero counts until index i exists,
      then count one more copy of Fib(i). */
  method AddCopy(state: State, i: nat) returns (t: State)
    ensures t == Bump(state, i)
  {
    t := state;
    while i >= |t|
      invariant Pad(t, i + 1) == Pad(state, i + 1)
      decreases i - |t|
    {
      t := t + [0];
    }
    t := t[i := t[i] + 1];
  }

  /** One round of `parse`: look the value up and, when it is a sequence
      value, count one more copy of it. */
  method ParseValue(value: int, state: State, index: FibonacciIndexCache) returns (ok: bool, t: State)
    requires index.Valid()
    modifies index, index.fib
    ensures index.Valid()
    ensures ok == (FibIndex(value) != -1)
    ensures ok ==> t == Bump(state, FibIndex(value))
    ensures old(index.bestIndex) <= index.bestIndex
    ensures forall v :: v in old(index.cache) ==> v in index.cache && index.cache[v] == old(index.cache)[v]
    ensures old(index.fib.cache) <= index.fib.cache
  {
    var i := index.Index(value);
    if i == -1 {
      return false, state;
    }
    t := AddCopy(state, i);
    ok := true;
  }

  /** `parse`, over a move already split into integers: looks every value up
      in the index cache, growing the state with zero counts as needed, and
      gives up with the empty state at the first value outside the sequence. */
  method Parse(values: seq<int>, index: FibonacciIndexCache) returns (r: State)
    requires index.Valid()
    modifies index, index.fib
    ensures index.Valid()
    ensures r == ParseResult(values)
    ensures old(index.bestIndex) <= index.bestIndex
    ensures forall v :: v in old(index.cache) ==> v in index.cache && index.cache[v] == old(index.cache)[v]
    ensures old(index.fib.cache) <= index.fib.cache
  {
    var state: State := [];
    for k := 0 to |values|
      invariant index.Valid()
      invariant old(index.bestIndex) <= index.bestIndex
      invariant forall v :: v in old(index.cache) ==> v in index.cache && index.cache[v] == old(index.cache)[v]
      invariant old(index.fib.cache) <= index.fib.cache
      invariant Members(values, k)
      invariant state == Tally(values, k)
    {
      var ok, next := ParseValue(values[k], state, index);
      if !ok {
        ParseRejects(values, k);
        return [];
      }
      TallyExtend(values, k);
      state := next;
    }
    ParseAccepts(values);
    r := state;
  }

  /** Two moves as a player would type them: "3 1" is one 1 and one 3, and
      "4" names a value outside the sequence. */
  lemma ParseExamples()
    ensures ParseResult([3, 1]) == [1, 0, 1]
    ensures ParseResult([4]) == []
  {
    FibIndexOfFib(0);
    FibIndexOfFib(2);
    assert Fib(2) == 3;
    assert Members([3, 1], 2);
    assert Bump([], 2) == [0, 0, 1] by { assert Pad([], 3) == [0, 0, 0]; }
    assert Tally([3, 1], 2) == Bump(Bump([], 2), 0);
    assert !IsFib(4) by {
      forall j: nat ensures Fib(j) != 4 {
        if j > 3 { FibIncreasing(3, j); }
      }
    }
    ParseRejects([4], 0);
  }
}
