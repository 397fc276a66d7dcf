/** `strategize`: walking the states of the generated graph children first,
    record for each state the children that leave the opponent without a
    winning reply. The nodes are visited in an order the caller supplies,
    which must put every state after all the children recorded for it. */
module Strategy {
  import opened Oracle
  import opened Codec
  import opened Rules
  import opened Game
  import opened Exploration

  /** `order` lists nodes of the graph, each once: every child recorded
      for a key, and nothing that is neither a key nor a recorded child,
      with each key after all the children recorded for it. */
  ghost predicate IsTopologicalOrder(graph: StateGraph, order: seq<State>)
  {
    && (forall p, q :: 0 <= p < q < |order| ==> order[p] != order[q])
    && (forall s, c :: s in graph && c in graph[s] ==> c in order)
    && (forall p :: 0 <= p < |order| ==> order[p] in graph || exists s :: s in graph && order[p] in graph[s])
    && (forall p, c :: 0 <= p < |order| && order[p] in graph && c in graph[order[p]] ==> c in order[..p])
  }

  /** `order` lists every key of the graph as well. */
  ghost predicate ListsKeys(graph: StateGraph, order: seq<State>)
  {
    forall s :: s in graph ==> s in order
  }

  /** A winning move from s: a child from which the opponent cannot win. */
  ghost predicate WinningMove(s: State, c: State)
  {
    c in Moves(s) && NonNeg(c) && !Wins(c)
  }

  /** The children that have no winning move recorded, in their order. */
  function Losing(children: seq<State>, strategy: StateGraph): (r: seq<State>)
    requires forall c :: c in children ==> c in strategy
    ensures forall c :: c in r <==> c in children && strategy[c] == []
  {
    if children == [] then []
    else
      (if strategy[children[0]] == [] then [children[0]] else [])
      + Losing(children[1..], strategy)
  }

  /** Losing only looks at the entries for the children. */
  lemma {:induction false} LosingFrame(children: seq<State>, s1: StateGraph, s2: StateGraph)
    requires forall c :: c in children ==> c in s1 && c in s2 && s2[c] == s1[c]
    ensures Losing(children, s1) == Losing(children, s2)
  {
    if children != [] {
      LosingFrame(children[1..], s1, s2);
    }
  }

  /** What `strategize` computes: the first node of the order gets no moves,
      every later node (a key of the graph) gets the Losing children among
      those recorded for it, and no other state gets an entry. */
  ghost predicate Solves(graph: StateGraph, order: seq<State>, strategy: StateGraph)
  {
    && |order| >= 1
    && (forall s :: s in strategy <==> s in order)
    && strategy[order[0]] == []
    && (forall p :: 1 <= p < |order| ==>
          && order[p] in graph
          && (forall c :: c in graph[order[p]] ==> c in strategy)
          && strategy[order[p]] == Losing(graph[order[p]], strategy))
  }

  /** One round of `strategize`: the entries for the first p nodes are
      already there and solve their equations. */
  ghost predicate SolvedUpTo(graph: StateGraph, order: seq<State>, strategy: StateGraph, p: nat)
    requires 1 <= p <= |order|
  {
    && (forall s :: s in strategy <==> s in order[..p])
    && strategy[order[0]] == []
    && (forall q :: 1 <= q < p ==>
          && order[q] in graph
          && (forall c :: c in graph[order[q]] ==> c in strategy)
          && strategy[order[q]] == Losing(graph[order[q]], strategy))
  }

  /** Adding the entry for node p keeps the earlier equations solved. */
  lemma SolvedStep(graph: StateGraph, order: seq<State>, strategy: StateGraph, p: nat)
    requires 1 <= p < |order| && order[p] in graph && SolvedUpTo(graph, order, strategy, p)
    requires order[p] !in order[..p] && forall c :: c in graph[order[p]] ==> c in order[..p]
    ensures forall c :: c in graph[order[p]] ==> c in strategy
    ensures SolvedUpTo(graph, order, strategy[order[p] := Losing(graph[order[p]], strategy)], p + 1)
  {
    var v := Losing(graph[order[p]], strategy);
    var s' := strategy[order[p] := v];
    assert order[..p + 1] == order[..p] + [order[p]];
    assert order[p] !in strategy;
    LosingFrame(graph[order[p]], strategy, s');
    forall q | 1 <= q < p + 1
      ensures order[q] in graph
      ensures (forall c :: c in graph[order[q]] ==> c in s')
      ensures s'[order[q]] == Losing(graph[order[q]], s')
    {
      if q < p {
        LosingFrame(graph[order[q]], strategy, s');
      }
    }
    assert order[0] != order[p];
  }

  /** `strategize`: the first node of the order is final and gets no moves;
      each later node gets the children recorded for it whose own entry is
      empty. Python's graphlib supplies the order; here it is a parameter,
      and every node after the first must be a key of the graph (the source
      indexes the graph with it). */
  method Strategize(graph: StateGraph, order: seq<State>) returns (strategy: StateGraph)
    requires IsTopologicalOrder(graph, order) && |order| >= 1
    requires forall p :: 1 <= p < |order| ==> order[p] in graph
    ensures Solves(graph, order, strategy)
  {
    strategy := map[order[0] := []];
    for p := 1 to |order|
      invariant SolvedUpTo(graph, order, strategy, p)
    {
      var state := order[p];
      assert state !in order[..p];
      SolvedStep(graph, order, strategy, p);
      var moves := Losing(graph[state], strategy);
      strategy := strategy[state := moves];
    }
    assert order[..|order|] == order;
  }

  /** The table is consistent on its own terms: a later node has a
      non-empty entry exactly when one of the children recorded for it has
      an empty entry. */
  lemma StrategyConsistent(graph: StateGraph, order: seq<State>, strategy: StateGraph, p: nat)
    requires Solves(graph, order, strategy) && 1 <= p < |order|
    ensures strategy[order[p]] != [] <==> exists c :: c in graph[order[p]] && strategy[c] == []
  {
    var entry := strategy[order[p]];
    if entry != [] {
      assert entry[0] in entry;
    }
    forall c | c in graph[order[p]] && strategy[c] == [] ensures entry != [] {
      assert c in entry;
    }
  }

  // ---------------------------------------------------------------------
  // The supplied order fits a generated graph

  /** Every node of a generated graph is reachable from [n], and so is
      non-negative when n is. */
  lemma NodeFacts(n: int, graph: StateGraph, order: seq<State>, p: nat)
    requires Generated(n, graph) && IsTopologicalOrder(graph, order) && p < |order|
    ensures Reachable([n], order[p])
    ensures order[p] !in graph ==> Final(order[p])
  {
    if order[p] !in graph {
      var s :| s in graph && order[p] in graph[s];
      RecordedChild(n, graph, s, order[p]);
    } else {
      assert KeyOk(n, order[p]);
    }
  }

  /** The first node of a topological order of a generated graph is final:
      nothing can come before its children. */
  lemma FirstIsFinal(n: int, graph: StateGraph, order: seq<State>)
    requires Generated(n, graph) && IsTopologicalOrder(graph, order) && |order| >= 1
    ensures Final(order[0])
  {
    NodeFacts(n, graph, order, 0);
    if order[0] in graph {
      assert Expanded(graph, order[0]);
      NonEmptyInto(graph[order[0]], order[..0]);
      FinalIffNoMoves(order[0]);
    }
  }

  /** A non-empty sequence can only fit inside a non-empty one. */
  lemma NonEmptyInto<T>(xs: seq<T>, ys: seq<T>)
    requires forall x :: x in xs ==> x in ys
    ensures |xs| > 0 ==> |ys| > 0
  {
    if |xs| > 0 {
      assert xs[0] in ys;
    }
  }

  /** Two final states reachable from [n] are the same state. */
  lemma FinalReachableUnique(n: int, s: State, t: State)
    requires Reachable([n], s) && Reachable([n], t) && Final(s) && Final(t)
    ensures s == t
  {
    var p :| IsPlay(p) && p[0] == [n] && p[|p| - 1] == s;
    var q :| IsPlay(q) && q[0] == [n] && q[|q| - 1] == t;
    StartFacts(n);
    if n >= 1 {
      UniqueTerminal(p, q);
    } else {
      PlayStartsWithMove(p);
      PlayStartsWithMove(q);
    }
  }

  /** In a topological order of a generated graph, the one node that may
      not be a key (the final state the game ends in) comes first, so the
      source's lookups of later nodes in the graph always succeed. */
  lemma OrderStartsAtTerminal(n: int, graph: StateGraph, order: seq<State>)
    requires Generated(n, graph) && IsTopologicalOrder(graph, order) && |order| >= 1
    ensures Final(order[0])
    ensures forall p :: 1 <= p < |order| ==> order[p] in graph
  {
    FirstIsFinal(n, graph, order);
    NodeFacts(n, graph, order, 0);
    forall p | 1 <= p < |order| ensures order[p] in graph {
      NodeFacts(n, graph, order, p);
      if order[p] !in graph {
        FinalReachableUnique(n, order[0], order[p]);
      }
    }
  }

  // ---------------------------------------------------------------------
  // The strategy decides the game

  /** The entry of each node is right: it lists exactly the children from
      which the opponent cannot win, so it is non-empty exactly when the
      player to move wins. */
  lemma {:induction false} StrategyAt(n: int, graph: StateGraph, order: seq<State>, strategy: StateGraph, p: nat)
    requires n >= 0 && Generated(n, graph) && IsTopologicalOrder(graph, order)
    requires Solves(graph, order, strategy) && p < |order|
    ensures NonNeg(order[p])
    ensures forall c :: c in strategy[order[p]] <==> WinningMove(order[p], c)
    ensures strategy[order[p]] != [] <==> Wins(order[p])
    decreases p
  {
    var s := order[p];
    NodeIsNonNeg(n, graph, order, p);
    ChildrenFacts(s);
    if p == 0 {
      FirstIsFinal(n, graph, order);
      FinalIffNoMoves(s);
    } else {
      assert s in graph && Expanded(graph, s);
      forall c | c in Moves(s) ensures strategy[c] == [] <==> !Wins(c) {
        assert c in order[..p];
        var q :| 0 <= q < p && order[q] == c;
        StrategyAt(n, graph, order, strategy, q);
      }
      if strategy[s] != [] {
        assert strategy[s][0] in strategy[s];
      }
      if Wins(s) {
        var c :| c in Moves(s) && !Wins(c);
        assert c in strategy[s];
      }
    }
  }

  /** Every node is non-negative when the pile is. */
  lemma NodeIsNonNeg(n: int, graph: StateGraph, order: seq<State>, p: nat)
    requires n >= 0 && Generated(n, graph) && IsTopologicalOrder(graph, order) && p < |order|
    ensures NonNeg(order[p])
  {
    NodeFacts(n, graph, order, p);
    var play :| IsPlay(play) && play[0] == [n] && play[|play| - 1] == order[p];
    PlayInvariant(play, |play| - 1);
  }

  /** `strategize` run on the graph `generate` built: every node's entry
      holds exactly its winning moves and is empty exactly when the player
      to move loses; after the first node, it is the children in `evolve`'s
      order that have an empty entry. */
  lemma StrategyDecidesGame(n: int, graph: StateGraph, order: seq<State>, strategy: StateGraph)
    requires n >= 0 && Generated(n, graph) && IsTopologicalOrder(graph, order)
    requires Solves(graph, order, strategy)
    ensures forall s :: s in strategy ==> NonNeg(s) && (strategy[s] != [] <==> Wins(s))
    ensures forall s, c :: s in strategy ==> (c in strategy[s] <==> WinningMove(s, c))
    ensures forall p :: 1 <= p < |order| ==> strategy[order[p]] == Losing(Moves(order[p]), strategy)
  {
    forall p | 1 <= p < |order| ensures strategy[order[p]] == Losing(Moves(order[p]), strategy) {
      assert Expanded(graph, order[p]);
    }
    forall s | s in strategy
      ensures NonNeg(s) && (strategy[s] != [] <==> Wins(s))
      ensures forall c :: c in strategy[s] <==> WinningMove(s, c)
    {
      var p :| 0 <= p < |order| && order[p] == s;
      StrategyAt(n, graph, order, strategy, p);
    }
  }

  /** When the order lists every key, so does the strategy. */
  lemma StrategyCoversGraph(graph: StateGraph, order: seq<State>, strategy: StateGraph)
    requires ListsKeys(graph, order) && Solves(graph, order, strategy)
    ensures graph.Keys <= strategy.Keys
  {
  }
}
