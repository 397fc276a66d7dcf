/** The moves of the game (`evolve`) and its end condition (`final`). A move
    rewrites a few counts of a state so that the value stays the same: two
    1s become a 2 (carry-up), two 2s become a 1 and a 3 (re-split), two
    copies of Fib(i) become Fib(i - 2) and Fib(i + 1) (merge duplicates), and
    Fib(i) with Fib(i + 1) becomes Fib(i + 2) (merge consecutives). */
module Rules {
  import opened Oracle
  import opened Codec

  /** `final`: no count exceeds 1 and no two neighbouring counts are both
      non-zero, i.e. the state is in Zeckendorf form. */
  predicate Final(s: State)
  {
    && (forall i :: 0 <= i < |s| ==> s[i] <= 1)
    && (forall i :: 0 <= i < |s| - 1 ==> s[i] == 0 || s[i + 1] == 0)
  }

  /** `final`, as the source computes it: one pass that remembers the
      previous count and stops at the first count above 1 or the first
      non-zero count right after a non-zero one. */
  method IsFinal(s: State) returns (b: bool)
    ensures b == Final(s)
  {
    var last := 0;
    for k := 0 to |s|
      invariant last == if k == 0 then 0 else s[k - 1]
      invariant forall i :: 0 <= i < k ==> s[i] <= 1
      invariant forall i :: 0 <= i < k - 1 ==> s[i] == 0 || s[i + 1] == 0
    {
      var count := s[k];
      if count > 1 || (count != 0 && last != 0) {
        return false;
      }
      last := count;
    }
    return true;
  }

  /** The four rewriting rules, with the index they act on. */
  datatype Rule =
    | CarryUp
    | Resplit
    | MergeDuplicates(i: nat)
    | MergeConsecutives(i: nat)

  /** When a rule fires on a state. */
  predicate Applicable(s: State, r: Rule)
  {
    match r
    case CarryUp => |s| >= 1 && s[0] >= 2
    case Resplit => |s| >= 2 && s[1] >= 2
    case MergeDuplicates(i) => 2 <= i < |s| && s[i] >= 2
    case MergeConsecutives(i) => i + 1 < |s| && s[i] != 0 && s[i + 1] != 0
  }

  /** Count i changed by `d`. */
  function AddAt(s: State, i: nat, d: int): State
    requires i < |s|
  {
    s[i := s[i] + d]
  }

  /** One more copy of Fib(i), where i is an existing index or the one just
      past the end (which the source handles by appending a count of 1). */
  function Incr(s: State, i: nat): State
    requires i <= |s|
  {
    if i == |s| then s + [1] else AddAt(s, i, 1)
  }

  /** The state a rule produces. */
  function Apply(s: State, r: Rule): State
    requires Applicable(s, r)
  {
    match r
    case CarryUp => Incr(AddAt(s, 0, -2), 1)
    case Resplit => Incr(AddAt(AddAt(s, 1, -2), 0, 1), 2)
    case MergeDuplicates(i) => Incr(AddAt(AddAt(s, i, -2), i - 2, 1), i + 1)
    case MergeConsecutives(i) => Incr(AddAt(AddAt(s, i, -1), i + 1, -1), i + 2)
  }

  /** The children from merging duplicates at an index from i on, in
      increasing index order. */
  function DupMoves(s: State, i: nat): seq<State>
    requires i >= 2
    decreases |s| - i
  {
    if i >= |s| then []
    else (if s[i] >= 2 then [Apply(s, MergeDuplicates(i))] else []) + DupMoves(s, i + 1)
  }

  /** The children from merging consecutives at an index from i on, in
      increasing index order. */
  function ConsMoves(s: State, i: nat): seq<State>
    decreases |s| - i
  {
    if i + 1 >= |s| then []
    else (if s[i] != 0 && s[i + 1] != 0 then [Apply(s, MergeConsecutives(i))] else []) + ConsMoves(s, i + 1)
  }

  /** The children from the carry-up and re-split rules. */
  function LowMoves(s: State): seq<State>
  {
    (if |s| >= 1 && s[0] >= 2 then [Apply(s, CarryUp)] else [])
    + (if |s| >= 2 && s[1] >= 2 then [Apply(s, Resplit)] else [])
  }

  /** The states one move away, in the order `evolve` yields them. */
  function Moves(s: State): seq<State>
  {
    LowMoves(s) + DupMoves(s, 2) + ConsMoves(s, 0)
  }

  /** The body of the merge-duplicates loop for one index: a copy of the
      state with two copies of Fib(i) traded for Fib(i - 2) and Fib(i + 1). */
  method MergeDuplicatesChild(s: State, i: nat) returns (next: State)
    requires Applicable(s, MergeDuplicates(i))
    ensures next == Apply(s, MergeDuplicates(i))
  {
    next := s[i := s[i] - 2];
    next := next[i - 2 := next[i - 2] + 1];
    if i + 1 == |next| {
      next := next + [1];
    } else {
      next := next[i + 1 := next[i + 1] + 1];
    }
  }

  /** The body of the merge-consecutives loop for one index: a copy of the
      state with Fib(i) and Fib(i + 1) traded for Fib(i + 2). */
  method MergeConsecutivesChild(s: State, i: nat) returns (next: State)
    requires Applicable(s, MergeConsecutives(i))
    ensures next == Apply(s, MergeConsecutives(i))
  {
    next := s[i := s[i] - 1];
    next := next[i + 1 := next[i + 1] - 1];
    if i + 2 == |next| {
      next := next + [1];
    } else {
      next := next[i + 2 := next[i + 2] + 1];
    }
  }

  /** Concatenation is associative; stated for an arbitrary element type so
      that the proof never looks inside the elements. */
  lemma AppendAssoc<T>(a: seq<T>, b: seq<T>, c: seq<T>)
    ensures (a + b) + c == a + (b + c)
  {
  }

  /** The merge-duplicates loop of `evolve`: for each index from 2 on whose
      count is at least 2, the child of merging two of those copies. */
  method DuplicateChildren(s: State) returns (children: seq<State>)
    ensures children == DupMoves(s, 2)
  {
    children := [];
    var i := 2;
    while i < |s|
      invariant 2 <= i && (i <= |s| || i == 2)
      invariant children + DupMoves(s, i) == DupMoves(s, 2)
    {
      if s[i] >= 2 {
        var next := MergeDuplicatesChild(s, i);
        AppendAssoc(children, [next], DupMoves(s, i + 1));
        children := children + [next];
      }
      i := i + 1;
    }
  }

  /** The merge-consecutives loop of `evolve`: for each pair of neighbouring
      non-zero counts, the child of merging them. */
  method ConsecutiveChildren(s: State) returns (children: seq<State>)
    ensures children == ConsMoves(s, 0)
  {
    children := [];
    var i := 0;
    while i + 1 < |s|
      invariant children + ConsMoves(s, i) == ConsMoves(s, 0)
    {
      if s[i] != 0 && s[i + 1] != 0 {
        var next := MergeConsecutivesChild(s, i);
        AppendAssoc(children, [next], ConsMoves(s, i + 1));
        children := children + [next];
      }
      i := i + 1;
    }
  }

  /** `evolve`, run to completion: the children of a state, rule by rule and
      index by index in the order the source's generator yields them. The
      source reads the first count unconditionally, so the state must not be
      empty. */
  method Evolve(s: State) returns (children: seq<State>)
    requires |s| >= 1
    ensures children == Moves(s)
  {
    children := [];
    // carry-up
    if s[0] >= 2 {
      var next := s[0 := s[0] - 2];
      if |next| == 1 {
        next := next + [1];
      } else {
        next := next[1 := next[1] + 1];
      }
      children := children + [next];
    }
    // re-split
    if |s| >= 2 && s[1] >= 2 {
      var next := s[1 := s[1] - 2];
      next := next[0 := next[0] + 1];
      if |next| == 2 {
        next := next + [1];
      } else {
        next := next[2 := next[2] + 1];
      }
      children := children + [next];
    }
    assert children == LowMoves(s);
    var duplicates := DuplicateChildren(s);
    var consecutives := ConsecutiveChildren(s);
    children := children + duplicates + consecutives;
  }

  // ---------------------------------------------------------------------
  // What a move does to the weighted sums

  lemma AddAtWeighted(s: State, i: nat, d: int, w: Weighting)
    requires i < |s|
    ensures Weighted(AddAt(s, i, d), w) == Weighted(s, w) + d * Weight(w, i)
  {
    assert ChangedAt(s, AddAt(s, i, d), i, d);
    WeightedAdd(s, AddAt(s, i, d), i, d, w);
  }

  lemma IncrWeighted(s: State, i: nat, w: Weighting)
    requires i <= |s|
    ensures Weighted(Incr(s, i), w) == Weighted(s, w) + Weight(w, i)
  {
    if i == |s| {
      WeightedAppend(s, 1, w);
    } else {
      AddAtWeighted(s, i, 1, w);
    }
  }

  /** The change a rule makes to a weighted sum. */
  function Delta(r: Rule, w: Weighting): int
  {
    match r
    case CarryUp => Weight(w, 1) - 2 * Weight(w, 0)
    case Resplit => Weight(w, 0) + Weight(w, 2) - 2 * Weight(w, 1)
    case MergeDuplicates(i) =>
      if i < 2 then 0 else Weight(w, i - 2) + Weight(w, i + 1) - 2 * Weight(w, i)
    case MergeConsecutives(i) => Weight(w, i + 2) - Weight(w, i) - Weight(w, i + 1)
  }

  /** The shape of every rule but the carry-up: two counts changed, then
      one more copy at a third index. */
  lemma TwoChangesWeighted(s: State, i: nat, d: int, j: nat, e: int, k: nat, w: Weighting)
    requires i < |s| && j < |s| && k <= |s|
    ensures Weighted(Incr(AddAt(AddAt(s, i, d), j, e), k), w)
         == Weighted(s, w) + d * Weight(w, i) + e * Weight(w, j) + Weight(w, k)
  {
    var t := AddAt(s, i, d);
    AddAtWeighted(s, i, d, w);
    AddAtWeighted(t, j, e, w);
    IncrWeighted(AddAt(t, j, e), k, w);
  }

  /** A move changes every weighted sum by its rule's Delta, whatever the
      rest of the state holds. */
  lemma ApplyWeighted(s: State, r: Rule, w: Weighting)
    requires Applicable(s, r)
    ensures Weighted(Apply(s, r), w) == Weighted(s, w) + Delta(r, w)
  {
    match r
    case CarryUp =>
      AddAtWeighted(s, 0, -2, w);
      IncrWeighted(AddAt(s, 0, -2), 1, w);
    case Resplit =>
      TwoChangesWeighted(s, 1, -2, 0, 1, 2, w);
    case MergeDuplicates(i) =>
      TwoChangesWeighted(s, i, -2, i - 2, 1, i + 1, w);
    case MergeConsecutives(i) =>
      TwoChangesWeighted(s, i, -1, i + 1, -1, i + 2, w);
  }

  /** Every rule is an identity of the base sequence: a move never changes
      the value of the state. */
  lemma MoveKeepsValue(s: State, r: Rule)
    requires Applicable(s, r)
    ensures Value(Apply(s, r)) == Value(s)
  {
    ApplyWeighted(s, r, ByFib);
    if r.MergeDuplicates? {
      var i := r.i;
      assert Fib(i + 1) == Fib(i - 1) + Fib(i);
      assert Fib(i) == Fib(i - 2) + Fib(i - 1);
    } else if r.MergeConsecutives? {
      var i := r.i;
      assert Fib(i + 2) == Fib(i) + Fib(i + 1);
    }
  }

  /** How much a rule raises the potential. */
  function Gain(r: Rule): nat
  {
    match r
    case CarryUp => 1
    case Resplit => 1
    case MergeDuplicates(i) => if i < 2 then 1 else Pow2(i - 2)
    case MergeConsecutives(i) => Pow2(i) + 1
  }

  /** A move raises the potential Σ s[i] · (2^i - 1) by its rule's Gain,
      which is at least 1. */
  lemma MoveRaisesPotential(s: State, r: Rule)
    requires Applicable(s, r)
    ensures Weighted(Apply(s, r), ByPow2) == Weighted(s, ByPow2) + Gain(r)
    ensures Weighted(Apply(s, r), ByPow2) > Weighted(s, ByPow2)
  {
    ApplyWeighted(s, r, ByPow2);
    if r.MergeDuplicates? {
      var i := r.i;
      assert Pow2(i) == 4 * Pow2(i - 2) by {
        assert Pow2(i) == 2 * Pow2(i - 1);
        assert Pow2(i - 1) == 2 * Pow2(i - 2);
      }
    } else if r.MergeConsecutives? {
      var i := r.i;
      assert Pow2(i + 2) == 4 * Pow2(i) by {
        assert Pow2(i + 2) == 2 * Pow2(i + 1);
      }
    }
  }

  // ---------------------------------------------------------------------
  // What a move does to the shape of the state

  /** A state as the game produces it from a positive starting pile: at
      least one count, no negative count, and a non-zero last count. */
  predicate WellFormed(s: State)
  {
    |s| >= 1 && NonNeg(s) && s[|s| - 1] != 0
  }

  /** A move keeps every count non-negative, and the state grows by at most
      one count (the one the source appends). */
  lemma MoveKeepsNonNeg(s: State, r: Rule)
    requires NonNeg(s) && Applicable(s, r)
    ensures NonNeg(Apply(s, r))
    ensures |Apply(s, r)| == |s| || |Apply(s, r)| == |s| + 1
  {
  }

  /** A move keeps a state well formed: the count it raises lies above every
      count it lowers, so the last count cannot fall to zero. */
  lemma MoveKeepsWellFormed(s: State, r: Rule)
    requires WellFormed(s) && Applicable(s, r)
    ensures WellFormed(Apply(s, r))
  {
    MoveKeepsNonNeg(s, r);
  }

  // ---------------------------------------------------------------------
  // The children are exactly the results of the applicable rules

  lemma {:induction false} DupMovesHas(s: State, i: nat, j: nat)
    requires 2 <= i <= j && Applicable(s, MergeDuplicates(j))
    ensures Apply(s, MergeDuplicates(j)) in DupMoves(s, i)
    decreases j - i
  {
    if i < j {
      DupMovesHas(s, i + 1, j);
    }
  }

  lemma {:induction false} DupMovesOnly(s: State, i: nat, c: State) returns (j: nat)
    requires i >= 2 && c in DupMoves(s, i)
    ensures i <= j && Applicable(s, MergeDuplicates(j)) && c == Apply(s, MergeDuplicates(j))
    decreases |s| - i
  {
    if s[i] >= 2 && c == Apply(s, MergeDuplicates(i)) {
      j := i;
    } else {
      j := DupMovesOnly(s, i + 1, c);
    }
  }

  lemma {:induction false} ConsMovesHas(s: State, i: nat, j: nat)
    requires i <= j && NonZeroPair(s, j)
    ensures Apply(s, MergeConsecutives(j)) in ConsMoves(s, i)
    decreases j - i
  {
    if i < j {
      ConsMovesHas(s, i + 1, j);
    }
  }

  lemma {:induction false} ConsMovesOnly(s: State, i: nat, c: State) returns (j: nat)
    requires c in ConsMoves(s, i)
    ensures i <= j && NonZeroPair(s, j) && c == Apply(s, MergeConsecutives(j))
    decreases |s| - i
  {
    if s[i] != 0 && s[i + 1] != 0 && c == Apply(s, MergeConsecutives(i)) {
      j := i;
    } else {
      j := ConsMovesOnly(s, i + 1, c);
    }
  }

  /** Every applicable rule's result is among the children `evolve` yields. */
  lemma MoveOfRule(s: State, r: Rule)
    requires Applicable(s, r)
    ensures Apply(s, r) in Moves(s)
  {
    match r
    case CarryUp =>
    case Resplit =>
    case MergeDuplicates(j) =>
      DupMovesHas(s, 2, j);
    case MergeConsecutives(j) =>
      ConsMovesHas(s, 0, j);
  }

  /** Every child `evolve` yields is the result of an applicable rule. */
  lemma RuleOfMove(s: State, c: State) returns (r: Rule)
    requires c in Moves(s)
    ensures Applicable(s, r) && c == Apply(s, r)
  {
    if c in LowMoves(s) {
      if |s| >= 1 && s[0] >= 2 && c == Apply(s, CarryUp) {
        r := CarryUp;
      } else {
        r := Resplit;
      }
    } else if c in DupMoves(s, 2) {
      var j := DupMovesOnly(s, 2, c);
      r := MergeDuplicates(j);
    } else {
      var j := ConsMovesOnly(s, 0, c);
      r := MergeConsecutives(j);
    }
  }

  /** A state is final exactly when no rule applies to it. */
  lemma FinalIffStuck(s: State)
    ensures Final(s) <==> forall r :: !Applicable(s, r)
  {
    if !Final(s) {
      if exists i :: 0 <= i < |s| && s[i] > 1 {
        var i :| 0 <= i < |s| && s[i] > 1;
        if i == 0 {
          assert Applicable(s, CarryUp);
        } else if i == 1 {
          assert Applicable(s, Resplit);
        } else {
          assert Applicable(s, MergeDuplicates(i));
        }
      } else {
        var i :| 0 <= i < |s| - 1 && s[i] != 0 && s[i + 1] != 0;
        assert Applicable(s, MergeConsecutives(i));
      }
    }
  }

  /** `final` holds exactly when `evolve` yields nothing: the game ends at
      the Zeckendorf states and only there. */
  lemma FinalIffNoMoves(s: State)
    ensures Final(s) <==> Moves(s) == []
  {
    FinalIffStuck(s);
    if Moves(s) != [] {
      var r := RuleOfMove(s, Moves(s)[0]);
    }
    if !Final(s) {
      var r :| Applicable(s, r);
      MoveOfRule(s, r);
    }
  }

  // ---------------------------------------------------------------------
  // How many children `evolve` yields

  /** The indices from i on holding two or more copies. */
  function DupIndices(s: State, i: nat): set<int>
  {
    set j | i <= j < |s| && s[j] >= 2
  }

  /** The indices from i on holding two or more copies: i itself when it
      does, then those from i + 1 on. */
  lemma DupIndicesStep(s: State, i: nat)
    requires i < |s|
    ensures DupIndices(s, i)
      == (if s[i] >= 2 then {i} else {}) + DupIndices(s, i + 1)
  {
  }

  /** One merge-duplicates child per index from i on holding two or more copies. */
  lemma {:induction false} DupMovesCount(s: State, i: nat)
    requires i >= 2
    ensures |DupMoves(s, i)| == |DupIndices(s, i)|
    decreases |s| - i
  {
    if i >= |s| {
      assert DupIndices(s, i) == {};
    } else {
      DupMovesCount(s, i + 1);
      DupIndicesStep(s, i);
    }
  }

  /** The count at j and the one after it are both non-zero. */
  predicate NonZeroPair(s: State, j: nat)
  {
    j + 1 < |s| && s[j] != 0 && s[j + 1] != 0
  }

  /** The indices from i on where a neighbouring non-zero pair starts. */
  function PairIndices(s: State, i: nat): set<nat>
  {
    set j: nat | i <= j < |s| - 1 && NonZeroPair(s, j)
  }

  /** The neighbouring non-zero pairs from i on: the one at i when there is
      one, then those from i + 1 on. */
  lemma PairIndicesStep(s: State, i: nat)
    requires i + 1 < |s|
    ensures PairIndices(s, i)
      == (if NonZeroPair(s, i) then {i} else {}) + PairIndices(s, i + 1)
  {
  }

  /** One merge-consecutives child per index from i on whose count and the
      next are both non-zero. */
  lemma {:induction false} ConsMovesCount(s: State, i: nat)
    ensures |ConsMoves(s, i)| == |PairIndices(s, i)|
    decreases |s| - i
  {
    if i + 1 >= |s| {
      assert PairIndices(s, i) == {};
    } else {
      ConsMovesCount(s, i + 1);
      PairIndicesStep(s, i);
    }
  }

  /** The number of children: one for each low rule that fires, one per
      index from 2 on with two or more copies, and one per pair of
      neighbouring non-zero counts. */
  lemma MovesCount(s: State)
    requires |s| >= 1
    ensures |Moves(s)| ==
      (if s[0] >= 2 then 1 else 0) + (if |s| >= 2 && s[1] >= 2 then 1 else 0)
      + |DupIndices(s, 2)|
      + |PairIndices(s, 0)|
  {
    DupMovesCount(s, 2);
    ConsMovesCount(s, 0);
    assert |LowMoves(s)| == (if s[0] >= 2 then 1 else 0) + (if |s| >= 2 && s[1] >= 2 then 1 else 0);
  }

  /** From a pile of four ones the only move is the carry-up to 1 1 2. */
  lemma EvolveExample()
    ensures Moves([4]) == [[2, 1]]
  {
    assert Apply([4], CarryUp) == [2, 1];
    assert DupMoves([4], 2) == [] && ConsMoves([4], 0) == [];
  }
}
