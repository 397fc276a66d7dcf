# Fibonacci game

A model of the solver for the Fibonacci game. The sequence starts
1, 2, 3, 5, 8, … (Fib(0) = 1, Fib(1) = 2, and each later value is the sum of
the two before it). A pile stands for a number. A state is a tuple of counts:
count `i` says how many copies of Fib(i) the pile holds. A move rewrites two
or three counts without changing the value the state stands for:

- carry-up: 1 + 1 = 2;
- re-split: 2 + 2 = 1 + 3;
- merge duplicates: Fib(i) + Fib(i) = Fib(i - 2) + Fib(i + 1);
- merge consecutives: Fib(i) + Fib(i + 1) = Fib(i + 2).

A state in which no move is possible is final. It is the Zeckendorf form of
the value, with no count above 1 and no two neighbouring non-zero counts. The
program does four things:

- it builds the graph of every state reachable from the pile `(n,)`;
- it orders that graph children first;
- it records, for each state, the moves that leave the opponent without a
  winning reply;
- it plays an interactive game against that table.

The Dafny project covers everything except the interactive part. It has six
modules:

- `Oracle` (oracle.dfy): the value cache and the index cache, as classes
  over `seq` and `map` fields, tied to the pure functions `Fib` and
  `FibIndex`.
- `Codec` (codec.dfy): the value of a state, its expanded listing, and the
  parser of a move.
- `Rules` (rules.dfy): the final test and the four rules. `evolve` is written
  as loops that build each child the way the source does, and it is proved
  equal to the list `Moves`.
- `Game` (game.dfy): the game itself. A potential Σ s[i]·(2^i − 1) rises with
  every move and is bounded by the value, so every play ends. Wins and losses
  are defined by well-founded recursion on the budget that is left. Uniqueness
  of the Zeckendorf representation implies that every play from a pile ends
  in the same state.
- `Exploration` (exploration.dfy): `generate`, a stack-driven search. The
  model proves that it terminates and that its keys are exactly the
  reachable states that are the start or not final, each with its children
  in `evolve`'s order.
- `Strategy` (strategy.dfy): `strategize` over a topological order that the
  caller supplies. The model proves that every entry lists exactly the
  winning moves, so an entry is empty exactly when the player to move loses.

## Model

| member | source | states |
|---|---|---|
| Oracle.FibIncreasing | fibonacci-game.py:12-17 | the cached sequence 1, 2, 3, 5, … is strictly increasing |
| Oracle.FibInjective | fibonacci-game.py:12-17 | equal sequence values have equal indices |
| Oracle.FibonacciCache.constructor | fibonacci-game.py:12 | the cache starts as [1, 2] and every entry is the sequence value at its index |
| Oracle.FibonacciCache.Get | fibonacci-game.py:14-17 | returns Fib(n); the cache only grows, up to exactly n + 1 entries when it was shorter, and entries already there are unchanged |
| Oracle.FibIndexFrom | fibonacci-game.py:29-34 | searching from index k gives -1 exactly when n does not occur from k on, and otherwise an index j ≥ k with Fib(j) = n |
| Oracle.FibIndex | fibonacci-game.py:29-34 | -1 exactly when n is not a sequence value (so for every n ≤ 0), otherwise the index of n |
| Oracle.FibIndexOfFib | fibonacci-game.py:29-34 | looking up Fib(i) gives back i |
| Oracle.IndexesExtend | fibonacci-game.py:31-33 | recording the value after the frontier under its index keeps the dictionary exactly the sequence values up to the new frontier |
| Oracle.IndexesAgree | fibonacci-game.py:31-33 | later dictionaries keep every entry of earlier ones |
| Oracle.IndexesLookup | fibonacci-game.py:34 | once the frontier has reached n, `cache.get(n, -1)` equals FibIndex(n) |
| Oracle.FibonacciIndexCache.constructor | fibonacci-game.py:26-27 | the dictionary starts as {1: 0} with frontier 1 |
| Oracle.FibonacciIndexCache.Advance | fibonacci-game.py:32-33 | one round of the loop records the next sequence value under its index and makes it the frontier, keeping the invariant; the shared value cache only grows |
| Oracle.FibonacciIndexCache.Index | fibonacci-game.py:29-34 | returns FibIndex(n); the frontier moves forward until it reaches n and does not move when it already had; existing entries are kept, and the shared value cache only grows |
| Codec.Value | fibonacci-game.py:42-43 | `evaluate`: Σ s[i]·Fib(i); a state with no negative count is worth at least 0 |
| Codec.WeightedNonNeg | fibonacci-game.py:42-43 | a state with no negative count has a non-negative value |
| Codec.ValueBoundsCount | fibonacci-game.py:42-43 | in such a state each count, and each count times its sequence value, is at most the value |
| Codec.ShowSum | fibonacci-game.py:42-51 | the listing of a state adds up to its value |
| Codec.Show | fibonacci-game.py:46-51 | `show` as a list of values (no decimal formatting): each Fib(i) repeated s[i] times by increasing i, so the listing is in ascending order |
| Codec.ShowCountAt | fibonacci-game.py:46-51 | Fib(i) occurs in the listing exactly s[i] times (0 past the end) |
| Codec.ShowOnlyFib | fibonacci-game.py:46-51 | every value listed is a sequence value |
| Codec.ShowInjective | fibonacci-game.py:46-51 | two states with non-negative counts and a non-zero last count that list the same multiset of values are equal |
| Codec.ShowIsMove | fibonacci-game.py:46-51 | the listing of such a state is a non-empty list of sequence values |
| Codec.ShowParse | fibonacci-game.py:46-63 | parsing the listing of such a state gives the state back |
| Codec.ParseResult | fibonacci-game.py:54-63 | the parsed state is () exactly when the move is empty or holds a value outside the sequence |
| Codec.ParseRejects | fibonacci-game.py:57-59 | one value outside the sequence makes the parse () |
| Codec.ParseAccepts | fibonacci-game.py:55-63 | unfolding step of the parse: a move of sequence values parses to the tally of all its values |
| Codec.TallyExtend | fibonacci-game.py:57-62 | unfolding step of the parse loop: each accepted value adds one copy of itself to the tally |
| Codec.ParseExamples | fibonacci-game.py:54-63 | the move 3 1 parses to (1, 0, 1), and the move 4 parses to () |
| Codec.ParseCorrect | fibonacci-game.py:54-63 | a non-empty move of sequence values parses to a state with no negative count and a non-zero last count; its value is the sum of the move, and its listing is the move sorted (same multiset, ascending) |
| Codec.TallyShape | fibonacci-game.py:55-62 | the tally has no negative count and a non-zero last count |
| Codec.TallyValue | fibonacci-game.py:55-62 | the tally of the first k values is worth their sum |
| Codec.TallyListing | fibonacci-game.py:55-62 | the listing of the tally of the first k values is a permutation of them |
| Codec.BumpValue | fibonacci-game.py:60-62 | counting one more copy of Fib(i) adds Fib(i) to the value |
| Codec.BumpListing | fibonacci-game.py:60-62 | counting one more copy of Fib(i) adds one Fib(i) to the listing |
| Codec.PadInvisible | fibonacci-game.py:60-61 | the zero counts appended change neither the value nor the listing |
| Codec.AddCopy | fibonacci-game.py:60-62 | appends zero counts until index i exists, then adds one to count i |
| Codec.ParseValue | fibonacci-game.py:57-62 | one round of `parse`: a value outside the sequence is refused; otherwise one more copy of it is counted; the index cache keeps its entries, its frontier only advances, and the value cache only grows |
| Codec.Parse | fibonacci-game.py:54-63 | the loop over the values computes ParseResult, with the early return at the first value outside the sequence; the index cache stays valid and keeps its entries, its frontier only advances, and the value cache only grows |
| Rules.IsFinal | fibonacci-game.py:66-72 | the one-pass scan with `last` decides Final: no count above 1 and no two neighbouring non-zero counts |
| Rules.FinalIffStuck | fibonacci-game.py:66-123 | a state is final exactly when none of the four rules applies |
| Rules.FinalIffNoMoves | fibonacci-game.py:66-123 | a state is final exactly when `evolve` yields nothing |
| Rules.MergeDuplicatesChild | fibonacci-game.py:102-109 | the copied and edited state is the merge-duplicates child at i |
| Rules.MergeConsecutivesChild | fibonacci-game.py:116-123 | the copied and edited state is the merge-consecutives child at i |
| Rules.DuplicateChildren | fibonacci-game.py:98-109 | the merge-duplicates loop yields one child per index i ≥ 2 with two or more copies, by increasing i |
| Rules.ConsecutiveChildren | fibonacci-game.py:112-123 | the merge-consecutives loop yields one child per pair of neighbouring non-zero counts, by increasing i |
| Rules.Evolve | fibonacci-game.py:75-123 | `evolve` yields Moves(s): carry-up, then re-split, then the two loops, in that order |
| Rules.EvolveExample | fibonacci-game.py:75-84 | the pile (4,) has exactly one child, the carry-up (2, 1) |
| Rules.DupMovesCount | fibonacci-game.py:98-109 | the merge-duplicates loop yields as many children as there are indices from 2 on with two or more copies |
| Rules.ConsMovesCount | fibonacci-game.py:112-123 | the merge-consecutives loop yields as many children as there are neighbouring non-zero pairs |
| Rules.MovesCount | fibonacci-game.py:75-123 | the number of children is [c0 ≥ 2] + [c1 ≥ 2] + #{i ≥ 2 : ci ≥ 2} + #{i : ci ≠ 0 and ci+1 ≠ 0} |
| Rules.MoveOfRule | fibonacci-game.py:75-123 | the result of every applicable rule is among the children |
| Rules.RuleOfMove | fibonacci-game.py:75-123 | every child is the result of an applicable rule |
| Rules.AddAtWeighted | fibonacci-game.py:78-83 | changing count i by d changes every weighted sum by d times the weight of i |
| Rules.IncrWeighted | fibonacci-game.py:80-83 | adding a copy at an existing index or just past the end adds the weight of that index |
| Rules.TwoChangesWeighted | fibonacci-game.py:88-95 | two changes and one increment change a weighted sum by the sum of their effects |
| Rules.ApplyWeighted | fibonacci-game.py:77-123 | a move changes every weighted sum by its rule's Delta |
| Rules.MoveKeepsValue | fibonacci-game.py:77-123 | every child has the same value as its parent |
| Rules.MoveRaisesPotential | fibonacci-game.py:77-123 | every move raises Σ s[i]·(2^i − 1) by its rule's gain (1, 1, 2^(i−2), 2^i + 1), so strictly |
| Rules.MoveKeepsNonNeg | fibonacci-game.py:77-123 | no count of a child becomes negative, and a child is at most one count longer |
| Rules.MoveKeepsWellFormed | fibonacci-game.py:77-123 | a non-zero last count stays non-zero |
| Game.PiecesBelowValue | fibonacci-game.py:42-43 | a non-zero count at index j of a non-negative state forces j below the value |
| Game.PotentialBound | fibonacci-game.py:75-123 | the potential of a non-negative state of value v is at most v·(2^v − 1) |
| Game.MoveUsesBudget | fibonacci-game.py:75-123 | every move uses up as much budget as it raises the potential |
| Game.ChildrenFacts | fibonacci-game.py:75-123 | every child of a non-negative state is non-negative, of the same value, and has strictly less budget |
| Game.FinalLoses | fibonacci-game.py:141-145 | the player to move from a final state has lost |
| Game.TwoWins | fibonacci-game.py:141-147 | the player to move from the pile (2,) wins, by the carry-up to the final state (0, 1) |
| Game.ReachableStart | fibonacci-game.py:127-128 | the start is reachable from itself |
| Game.ReachableStep | fibonacci-game.py:131-137 | reachability is closed under moves |
| Game.PlayInvariant | fibonacci-game.py:75-123 | along a play the counts stay non-negative, the value is constant, and the budget drops by at least one per move |
| Game.PlayEnds | fibonacci-game.py:126-138 | no play is longer than the budget of its start plus one |
| Game.PlayAcyclic | fibonacci-game.py:126-138 | no play returns to the state it started from, so the game graph has no cycles |
| Game.PlayStartsWithMove | fibonacci-game.py:75-123 | a play of more than one state starts where a move is possible |
| Game.PlayKeepsWellFormed | fibonacci-game.py:75-123 | along a play from a well-formed state every state is well formed |
| Game.PlayToEnd | fibonacci-game.py:75-123 | from every non-negative state some play reaches a final state |
| Game.ZeckendorfBelow | fibonacci-game.py:66-72 | the first k counts of a final state weigh less than Fib(k) |
| Game.ZeckendorfTop | fibonacci-game.py:66-72 | a final state whose top counted index is k − 1 weighs between Fib(k − 1) and Fib(k) |
| Game.FibBracketUnique | fibonacci-game.py:66-72 | a value lies between Fib(k − 1) and Fib(k) for one k only |
| Game.ZeckendorfAgree | fibonacci-game.py:66-72 | two final prefixes of equal weight hold the same counts |
| Game.ZeckendorfUnique | fibonacci-game.py:66-72 | two well-formed final states of the same value are equal (uniqueness in Zeckendorf's theorem) |
| Game.UniqueTerminal | fibonacci-game.py:141-147 | every play from a well-formed pile that reaches a final state reaches the same one |
| Exploration.InUniverse | fibonacci-game.py:126-138 | the start and every well-formed state of value n lie in a finite set fixed by n |
| Exploration.StartFacts | fibonacci-game.py:127-128 | the pile (n,) is well formed of value n when n ≥ 1, and has no moves otherwise |
| Exploration.ChildFacts | fibonacci-game.py:131-137 | a child of the start or of a well-formed state of value n is well formed of value n |
| Exploration.RecordChild | fibonacci-game.py:132 | appending a child to the state being expanded keeps the search invariant |
| Exploration.PushKey | fibonacci-game.py:136-137 | entering a new key with no children and pushing it keeps the search invariant |
| Exploration.PopKey | fibonacci-game.py:129-130 | the popped state has no children yet, occurs nowhere else on the stack, and is the only key off the rest of the stack that is not expanded |
| Exploration.ExpandNew | fibonacci-game.py:134-137 | a child that is neither final nor a key is a proper key, and entering it shrinks the part of the finite set not yet entered |
| Exploration.FinishExpand | fibonacci-game.py:131-137 | once every child is recorded and each is final or a key, every key off the stack is expanded |
| Exploration.Visit | fibonacci-game.py:132-137 | one round of the inner loop: the child is appended to the state's list; it is entered with no children and pushed exactly when it is neither final nor a key, and otherwise the stack is unchanged |
| Exploration.EnterChild | fibonacci-game.py:136-137 | entering a child that is neither final nor a key keeps the search invariant and shrinks the measure by one |
| Exploration.VisitKeeps | fibonacci-game.py:132-137 | one visit keeps the search invariant: the child is recorded, it is final or a key afterwards, and entering it shrinks the measure |
| Exploration.VisitFrame | fibonacci-game.py:132-137 | one visit changes no other entry of the graph and only pushes on the stack |
| Exploration.ExpandStep | fibonacci-game.py:131-137 | visiting one child moves the inner loop on by one child |
| Exploration.NonFinalMembers | fibonacci-game.py:134-137 | the set built for the first k children holds exactly those of them that are not final |
| Exploration.ExpandDone | fibonacci-game.py:131-137 | after the last child, the record of the state is complete, every key off the stack is expanded, and the new keys are exactly the non-final children, each on the stack with no children yet |
| Exploration.Expand | fibonacci-game.py:131-137 | the inner loop records exactly the children in `evolve`'s order under the state, which stays off the stack; no other existing entry changes, the old stack is a prefix of the new one, every key off the stack is expanded, and entering keys shrinks the measure; the keys are exactly the old keys plus the children that are not final, and each new key is on the stack with no children yet |
| Exploration.Generate | fibonacci-game.py:126-138 | the search terminates, (n,) is a key, every key is reachable and is (n,) or well formed of value n and not final, and every key maps to exactly its children in `evolve`'s order, each final or a key |
| Exploration.PlayInGraph | fibonacci-game.py:126-138 | every state of a play from (n,), except a final last one, is a key |
| Exploration.ReachableInGraph | fibonacci-game.py:126-138 | a reachable state that is (n,) or not final is a key |
| Exploration.GeneratedExact | fibonacci-game.py:126-138 | the keys are exactly the reachable states that are (n,) or not final |
| Exploration.RecordedChild | fibonacci-game.py:131-137 | every recorded child is reachable and is final or a key |
| Strategy.Losing | fibonacci-game.py:145 | the list comprehension keeps exactly the children whose entry is empty |
| Strategy.LosingFrame | fibonacci-game.py:145 | the comprehension only looks at the children's entries |
| Strategy.SolvedStep | fibonacci-game.py:144-146 | setting the entry of the next node of the order keeps the entries before it solved |
| Strategy.Strategize | fibonacci-game.py:141-147 | the first node of the order gets no moves, and each later node gets the children recorded for it whose entry is empty |
| Strategy.StrategyConsistent | fibonacci-game.py:145-146 | a later node has a non-empty entry exactly when one of its children has an empty entry |
| Strategy.StrategyCoversGraph | fibonacci-game.py:142-146 | when the order lists every key, every key gets an entry |
| Strategy.NodeFacts | fibonacci-game.py:142-145 | every node of the order is reachable, and one that is not a key is final |
| Strategy.FirstIsFinal | fibonacci-game.py:142-143 | the first node of a children-first order of the generated graph is final |
| Strategy.FinalReachableUnique | fibonacci-game.py:142-145 | two final states reachable from (n,) are the same |
| Strategy.OrderStartsAtTerminal | fibonacci-game.py:142-145 | the first node is final and every later node is a key, so the lookup `graph[state]` never fails |
| Strategy.NodeIsNonNeg | fibonacci-game.py:142-147 | for n ≥ 0 every node of the order has no negative count |
| Strategy.StrategyAt | fibonacci-game.py:141-147 | the entry of each node lists exactly its winning moves and is non-empty exactly when the player to move wins |
| Strategy.StrategyDecidesGame | fibonacci-game.py:141-147 | the table solves the game: every entry holds exactly the children from which the opponent cannot win, and it is empty exactly on losing states; after the first node, each entry is the children in `evolve`'s order whose own entry is empty |

## Left out

- `interact` and `main`: console input and output, `random.choice` among
  winning replies, and command-line parsing. They are I/O and randomness.
- Tokenising in `parse`: `move.strip().split()` and `int(...)`. Python's
  string and integer conversion are not modelled, and `Codec.Parse` takes the
  move as a list of integers already split.
- The internals of `graphlib.TopologicalSorter`. The order is a parameter of
  `Strategy.Strategize`. `Strategy.IsTopologicalOrder` states what the model
  relies on: each node once, every recorded child listed, nothing else
  listed, and each key after all its children. `Strategy.ListsKeys` adds
  that every key is listed. The model does not prove that such an order
  exists.
- The decimal formatting in `show` (`str` and `" ".join`). `Codec.Show` is
  the list of values.
- `evolve` is a lazy generator interleaved with `generate`'s inner loop. The
  model computes the whole list first with `Rules.Evolve` and then visits it.
  `evolve` only reads its state, so the children and their order are the
  same.
- The two caches are module-level closures that share one value cache. In
  the model they are objects passed explicitly; the index cache holds its
  value cache as the field `fib`.
- `evolve` on the empty state raises `IndexError`. `Rules.Evolve` requires a
  non-empty state; `generate` only calls it on keys, which are never empty.
- Oracle.FibonacciCache.Get: it takes a natural number. For a negative n the source's `cache[n]` would read from the end of the list by Python's negative indexing; no caller passes a negative index.
- Oracle.FibonacciIndexCache.Index: it does not state that the frontier stops
  at the first sequence value at or above n. It states only that the frontier
  reaches n and does not move when it already had.
- Strategy.StrategyAt and Strategy.StrategyDecidesGame: they require n ≥ 0.
  For a negative pile the only state is (n,) itself, which has no moves, and
  the winning predicate is defined only on states without negative counts.
- Strategy.Strategize: it requires every node after the first to be a key
  (the source indexes the graph with it). `Strategy.OrderStartsAtTerminal`
  proves this for every children-first order of a generated graph.
- Codec.ShowParse: it requires a state with no negative count and a non-zero
  last count, because trailing zero counts and negative counts do not show in
  the listing.
