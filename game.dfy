/** The game played on the states: two players alternate moves, and the
    player with no move left loses. The potential argument shows every play
    is finite, the value is the same all along a play, and the final state
    is the Zeckendorf representation of that value, so every play from a
    pile ends in the same state. */
module Game {
  import opened Oracle
  import opened Codec
  import opened Rules

  // ---------------------------------------------------------------------
  // The potential is bounded by the value

  lemma {:induction false} Pow2Monotone(i: nat, j: nat)
    requires i <= j
    ensures Pow2(i) <= Pow2(j)
    decreases j - i
  {
    if i < j {
      Pow2Monotone(i, j - 1);
    }
  }

  /** Counting pieces never exceeds weighing them by the base sequence. */
  lemma {:induction false} CountPrefixBound(s: State, k: nat)
    requires NonNeg(s) && k <= |s|
    ensures WeightedPrefix(s, ByCount, k) <= WeightedPrefix(s, ByFib, k)
  {
    if k > 0 {
      CountPrefixBound(s, k - 1);
      MultipleBounds(s[k - 1], Fib(k - 1));
    }
  }

  lemma MulMonotone(c: int, w: int, p: int)
    requires c >= 0 && w <= p
    ensures c * w <= c * p
  {
  }

  /** The arithmetic of one step of PotentialPrefixBound. */
  lemma StepBound(a: int, b: int, c: int, w: int, p: int)
    requires a <= p * b && c * w <= c * p
    ensures a + c * w <= p * (b + c)
  {
    assert p * (b + c) == p * b + c * p;
  }

  /** When every non-zero count sits below index m, each piece adds less
      than 2^m to the potential. */
  lemma {:induction false} PotentialPrefixBound(s: State, m: nat, k: nat)
    requires NonNeg(s) && k <= |s|
    requires forall j :: 0 <= j < k && s[j] != 0 ==> j < m
    ensures WeightedPrefix(s, ByPow2, k) <= (Pow2(m) - 1) * WeightedPrefix(s, ByCount, k)
  {
    if k > 0 {
      PotentialPrefixBound(s, m, k - 1);
      var c := s[k - 1];
      var w := Weight(ByPow2, k - 1);
      var p := Pow2(m) - 1;
      if c != 0 {
        Pow2Monotone(k - 1, m);
        MulMonotone(c, w, p);
      }
      StepBound(WeightedPrefix(s, ByPow2, k - 1), WeightedPrefix(s, ByCount, k - 1), c, w, p);
    }
  }

  /** A piece Fib(j) fits in the value of a non-negative state only when
      j < value. */
  lemma PiecesBelowValue(s: State)
    requires NonNeg(s)
    ensures forall j :: 0 <= j < |s| && s[j] != 0 ==> j < Value(s)
  {
    forall j | 0 <= j < |s| && s[j] != 0 ensures j < Value(s) {
      ValueBoundsCount(s, j);
      MultipleBounds(Fib(j), s[j]);
    }
  }

  /** The potential of a non-negative state of value v is at most
      v · (2^v - 1). */
  lemma PotentialBound(s: State)
    requires NonNeg(s)
    ensures Value(s) >= 0
    ensures Weighted(s, ByPow2) <= Value(s) * (Pow2(Value(s)) - 1)
  {
    WeightedNonNeg(s, ByFib);
    PiecesBelowValue(s);
    var v := Value(s);
    PotentialPrefixBound(s, v, |s|);
    CountPrefixBound(s, |s|);
    MulMonotone(Pow2(v) - 1, Weighted(s, ByCount), v);
  }

  /** How many more moves a play from `s` can still make, at most. */
  function Budget(s: State): nat
    requires NonNeg(s)
  {
    PotentialBound(s);
    var v: nat := Value(s);
    v * (Pow2(v) - 1) - Weighted(s, ByPow2)
  }

  /** A move uses up as much budget as it raises the potential. */
  lemma MoveUsesBudget(s: State, r: Rule)
    requires NonNeg(s) && Applicable(s, r)
    ensures NonNeg(Apply(s, r))
    ensures Budget(Apply(s, r)) == Budget(s) - Gain(r) < Budget(s)
  {
    MoveKeepsNonNeg(s, r);
    MoveKeepsValue(s, r);
    MoveRaisesPotential(s, r);
  }

  /** Every child of a non-negative state is non-negative, has the same
      value and a smaller budget. */
  lemma ChildrenFacts(s: State)
    requires NonNeg(s)
    ensures forall c :: c in Moves(s) ==> NonNeg(c) && Value(c) == Value(s) && Budget(c) < Budget(s)
  {
    forall c | c in Moves(s) ensures NonNeg(c) && Value(c) == Value(s) && Budget(c) < Budget(s) {
      var r := RuleOfMove(s, c);
      MoveUsesBudget(s, r);
      MoveKeepsValue(s, r);
    }
  }

  // ---------------------------------------------------------------------
  // Winning and losing

  /** The player to move from `s` can force a win: some move leads to a
      state from which the opponent cannot. From a final state there is no
      move, so the player to move there has lost. */
  ghost predicate Wins(s: State)
    requires NonNeg(s)
    decreases Budget(s)
  {
    ChildrenFacts(s);
    exists c :: c in Moves(s) && !Wins(c)
  }

  /** The player to move from a final state has lost. */
  lemma FinalLoses(s: State)
    requires NonNeg(s) && Final(s)
    ensures !Wins(s)
  {
    FinalIffNoMoves(s);
  }

  // ---------------------------------------------------------------------
  // Plays

  /** A play: a non-empty sequence of states, each a child of the one before. */
  ghost predicate IsPlay(p: seq<State>)
  {
    |p| >= 1 && forall k :: 0 <= k < |p| - 1 ==> p[k + 1] in Moves(p[k])
  }

  /** `s` can occur in a play that starts from `start`. */
  ghost predicate Reachable(start: State, s: State)
  {
    exists p :: IsPlay(p) && p[0] == start && p[|p| - 1] == s
  }

  /** The starting state is reachable from itself. */
  lemma ReachableStart(start: State)
    ensures Reachable(start, start)
  {
    assert IsPlay([start]);
  }

  /** Reachability is closed under moves. */
  lemma ReachableStep(start: State, s: State, c: State)
    requires Reachable(start, s) && c in Moves(s)
    ensures Reachable(start, c)
  {
    var p :| IsPlay(p) && p[0] == start && p[|p| - 1] == s;
    var q := p + [c];
    forall k | 0 <= k < |q| - 1
      ensures q[k + 1] in Moves(q[k])
    {
      assert q[k] == p[k];
      if k + 1 < |p| {
        assert q[k + 1] == p[k + 1];
      }
    }
    assert IsPlay(q) && q[0] == start && q[|q| - 1] == c;
  }

  /** Along a play from a non-negative state, the counts stay non-negative,
      the value stays put, and every move uses up budget. */
  lemma {:induction false} PlayInvariant(p: seq<State>, k: nat)
    requires IsPlay(p) && NonNeg(p[0]) && k < |p|
    ensures NonNeg(p[k]) && Value(p[k]) == Value(p[0])
    ensures Budget(p[k]) + k <= Budget(p[0])
  {
    if k > 0 {
      PlayInvariant(p, k - 1);
      ChildrenFacts(p[k - 1]);
    }
  }

  /** Every play ends: from a non-negative state no play has more than
      Budget moves. */
  lemma PlayEnds(p: seq<State>)
    requires IsPlay(p) && NonNeg(p[0])
    ensures |p| <= Budget(p[0]) + 1
  {
    PlayInvariant(p, |p| - 1);
  }

  /** No play comes back to where it started, so the game graph has no
      cycles. */
  lemma PlayAcyclic(p: seq<State>, k: nat)
    requires IsPlay(p) && NonNeg(p[0]) && 0 < k < |p|
    ensures p[k] != p[0]
  {
    PlayInvariant(p, k);
  }

  /** A play of more than one state starts where a move is possible. */
  lemma PlayStartsWithMove(p: seq<State>)
    requires IsPlay(p)
    ensures |p| > 1 ==> Moves(p[0]) != []
  {
    if |p| > 1 {
      assert p[1] in Moves(p[0]);
    }
  }

  /** Along a play from a well-formed state, every state is well formed. */
  lemma {:induction false} PlayKeepsWellFormed(p: seq<State>, k: nat)
    requires IsPlay(p) && WellFormed(p[0]) && k < |p|
    ensures WellFormed(p[k])
  {
    if k > 0 {
      PlayKeepsWellFormed(p, k - 1);
      var r := RuleOfMove(p[k - 1], p[k]);
      MoveKeepsWellFormed(p[k - 1], r);
    }
  }

  /** From every non-negative state, some play reaches a final state (for
      instance always taking the first child). */
  lemma PlayToEnd(s: State) returns (p: seq<State>)
    requires NonNeg(s)
    ensures IsPlay(p) && p[0] == s && Final(p[|p| - 1])
    decreases Budget(s)
  {
    FinalIffNoMoves(s);
    if Final(s) {
      p := [s];
    } else {
      var c := Moves(s)[0];
      ChildrenFacts(s);
      var q := PlayToEnd(c);
      p := [s] + q;
      assert forall k :: 1 <= k < |p| ==> p[k] == q[k - 1];
    }
  }

  // ---------------------------------------------------------------------
  // Zeckendorf representations are unique

  /** The count at index i among the first k counts, 0 past them. */
  function PrefixCount(s: State, k: nat, i: nat): int
    requires k <= |s|
  {
    if i < k then s[i] else 0
  }

  lemma FibMonotone(i: nat, j: nat)
    requires i <= j
    ensures Fib(i) <= Fib(j)
  {
    if i < j { FibIncreasing(i, j); }
  }

  /** A final state's first k counts weigh less than Fib(k). */
  lemma {:induction false} ZeckendorfBelow(s: State, k: nat)
    requires Final(s) && NonNeg(s) && k <= |s|
    ensures WeightedPrefix(s, ByFib, k) < Fib(k)
  {
    if k == 1 {
    } else if k >= 2 {
      FibIncreasing(k - 1, k);
      ZeckendorfBelow(s, k - 1);
      if s[k - 1] != 0 {
        ZeckendorfBelow(s, k - 2);
        assert s[k - 2] == 0;
      }
    }
  }

  /** A final state whose k-th count is 1 weighs at least Fib(k - 1) and
      less than Fib(k) in its first k counts. */
  lemma ZeckendorfTop(s: State, k: nat)
    requires Final(s) && NonNeg(s) && 0 < k <= |s| && s[k - 1] != 0
    ensures Fib(k - 1) <= WeightedPrefix(s, ByFib, k) < Fib(k)
  {
    ZeckendorfBelow(s, k);
    WeightedPrefixBounds(s, ByFib, k - 1, k);
  }

  /** Fib(k - 1) <= v < Fib(k) pins k down. */
  lemma FibBracketUnique(v: int, k: nat, m: nat)
    requires 0 < k && Fib(k - 1) <= v < Fib(k)
    requires 0 < m && Fib(m - 1) <= v < Fib(m)
    ensures k == m
  {
    if k < m {
      FibMonotone(k, m - 1);
    } else if m < k {
      FibMonotone(m, k - 1);
    }
  }

  /** Two prefixes of final states with the same weight hold the same counts:
      stripping a zero top count or a matching top piece keeps the weights
      equal, and a top piece can match only a top piece at the same index. */
  lemma {:induction false} ZeckendorfAgree(s: State, k: nat, t: State, m: nat)
    requires Final(s) && NonNeg(s) && k <= |s|
    requires Final(t) && NonNeg(t) && m <= |t|
    requires WeightedPrefix(s, ByFib, k) == WeightedPrefix(t, ByFib, m)
    ensures forall i: nat :: PrefixCount(s, k, i) == PrefixCount(t, m, i)
    decreases k + m
  {
    if k > 0 && s[k - 1] == 0 {
      ZeckendorfAgree(s, k - 1, t, m);
      assert forall i: nat :: PrefixCount(s, k, i) == PrefixCount(s, k - 1, i);
    } else if m > 0 && t[m - 1] == 0 {
      ZeckendorfAgree(s, k, t, m - 1);
      assert forall i: nat :: PrefixCount(t, m, i) == PrefixCount(t, m - 1, i);
    } else if k > 0 && m > 0 {
      ZeckendorfTop(s, k);
      ZeckendorfTop(t, m);
      FibBracketUnique(WeightedPrefix(s, ByFib, k), k, m);
      ZeckendorfAgree(s, k - 1, t, m - 1);
      forall i: nat ensures PrefixCount(s, k, i) == PrefixCount(t, m, i) {
        if i != k - 1 {
          assert PrefixCount(s, k, i) == PrefixCount(s, k - 1, i);
          assert PrefixCount(t, m, i) == PrefixCount(t, m - 1, i);
        }
      }
    } else if k > 0 {
      ZeckendorfTop(s, k);
    } else if m > 0 {
      ZeckendorfTop(t, m);
    }
  }

  /** Zeckendorf's theorem, uniqueness half: two well-formed final states of
      the same value are the same state. */
  lemma ZeckendorfUnique(s: State, t: State)
    requires WellFormed(s) && Final(s) && WellFormed(t) && Final(t)
    requires Value(s) == Value(t)
    ensures s == t
  {
    ZeckendorfAgree(s, |s|, t, |t|);
    var h := if |s| < |t| then |t| - 1 else |s| - 1;
    assert PrefixCount(s, |s|, h) == PrefixCount(t, |t|, h);
    assert forall i :: 0 <= i < |s| ==> s[i] == PrefixCount(s, |s|, i) == PrefixCount(t, |t|, i) == t[i];
  }

  /** Every play from a well-formed pile that reaches a final state reaches
      the same one, whatever moves were chosen. */
  lemma UniqueTerminal(p: seq<State>, q: seq<State>)
    requires IsPlay(p) && IsPlay(q) && p[0] == q[0] && WellFormed(p[0])
    requires Final(p[|p| - 1]) && Final(q[|q| - 1])
    ensures p[|p| - 1] == q[|q| - 1]
  {
    PlayInvariant(p, |p| - 1);
    PlayInvariant(q, |q| - 1);
    PlayKeepsWellFormed(p, |p| - 1);
    PlayKeepsWellFormed(q, |q| - 1);
    ZeckendorfUnique(p[|p| - 1], q[|q| - 1]);
  }

  /** From a pile of two ones the player to move wins: the carry-up leaves
      the final state 2. */
  lemma TwoWins()
    ensures NonNeg([2]) && Wins([2])
  {
    assert Apply([2], CarryUp) == [0, 1];
    assert DupMoves([2], 2) == [] && ConsMoves([2], 0) == [];
    assert [0, 1] in Moves([2]);
    FinalLoses([0, 1]);
  }
}
