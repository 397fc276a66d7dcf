/** `generate`: the graph of the game from a starting pile, found by a
    depth-first search that records every state's children and stops at
    final states, which it never enters as keys of its own. */
module Exploration {
  import opened Oracle
  import opened Codec
  import opened Rules
  import opened Game

  /** Each state of the search mapped to the children recorded for it. */
  type StateGraph = map<State, seq<State>>

  // ---------------------------------------------------------------------
  // A finite set holding every state the search can meet

  /** The states of at most len counts, each count in 0..max. */
  ghost function Tuples(len: nat, max: nat): set<State>
  {
    if len == 0 then {[]}
    else
      var shorter := Tuples(len - 1, max);
      shorter + set t, x | t in shorter && 0 <= x <= max :: t + [x]
  }

  lemma {:induction false} TuplesHas(t: State, len: nat, max: nat)
    requires |t| <= len && forall i :: 0 <= i < |t| ==> 0 <= t[i] <= max
    ensures t in Tuples(len, max)
  {
    if len > 0 {
      if |t| < len {
        TuplesHas(t, len - 1, max);
      } else {
        var u := t[..|t| - 1];
        TuplesHas(u, len - 1, max);
        assert t == u + [t[|t| - 1]];
      }
    }
  }

  /** The starting pile and every well-formed state of value n. */
  ghost function Universe(n: int): set<State>
  {
    var m: nat := if n < 0 then 0 else n;
    {[n]} + Tuples(m, m)
  }

  /** A well-formed state of value n has at most n counts, none above n. */
  lemma InUniverse(n: int, s: State)
    requires s == [n] || (WellFormed(s) && Value(s) == n)
    ensures s in Universe(n)
  {
    if s != [n] {
      PiecesBelowValue(s);
      forall i | 0 <= i < |s| ensures 0 <= s[i] <= n {
        ValueBoundsCount(s, i);
      }
      TuplesHas(s, n, n);
    }
  }

  /** The starting pile is well formed of value n when n >= 1, and has no
      moves otherwise. */
  lemma StartFacts(n: int)
    ensures n >= 1 ==> WellFormed([n]) && Value([n]) == n
    ensures n < 1 ==> Moves([n]) == []
  {
    WeightedAppend([], n, ByFib);
    assert [] + [n] == [n];
    assert n < 1 ==> Final([n]);
    FinalIffNoMoves([n]);
  }

  /** A child of the starting pile or of a well-formed state of value n is
      a well-formed state of value n. */
  lemma ChildFacts(n: int, s: State, c: State)
    requires s == [n] || (WellFormed(s) && Value(s) == n)
    requires c in Moves(s)
    ensures WellFormed(c) && Value(c) == n && c in Universe(n)
  {
    StartFacts(n);
    var r := RuleOfMove(s, c);
    MoveKeepsWellFormed(s, r);
    MoveKeepsValue(s, r);
    InUniverse(n, c);
  }

  // ---------------------------------------------------------------------
  // What the search keeps true

  /** A key of the search from [n]: reachable from [n], and either [n]
      itself or a well-formed state of value n that is not final. */
  ghost predicate KeyOk(n: int, s: State)
  {
    && Reachable([n], s)
    && (s == [n] || (WellFormed(s) && Value(s) == n && !Final(s)))
  }

  /** State s is expanded: its children are recorded in the order `evolve`
      yields them, and each of them is final or a key. */
  ghost predicate Expanded(g: StateGraph, s: State)
  {
    && s in g
    && g[s] == Moves(s)
    && forall c :: c in Moves(s) ==> Final(c) || c in g
  }

  /** The stack of states still to expand: keys with no children recorded
      yet, each on the stack once. */
  ghost predicate Pending(g: StateGraph, options: seq<State>)
  {
    && (forall i :: 0 <= i < |options| ==> options[i] in g && g[options[i]] == [])
    && (forall i, j :: 0 <= i < j < |options| ==> options[i] != options[j])
  }

  /** Every key off the stack, apart from `busy`, is expanded. */
  ghost predicate DoneBut(g: StateGraph, options: seq<State>, busy: State)
  {
    forall s :: s in g && s !in options && s != busy ==> Expanded(g, s)
  }

  /** What `generate` returns for n: [n] is a key, every key is reachable
      from [n] and not final unless it is [n], and every key is expanded. */
  ghost predicate Generated(n: int, g: StateGraph)
  {
    && [n] in g
    && (forall s :: s in g ==> KeyOk(n, s))
    && (forall s :: s in g ==> Expanded(g, s))
  }

  /** The search between two pops while `busy` is being expanded: every key
      lies in the universe and is a proper key, the stack is as Pending
      says, and every other key off the stack is expanded. */
  ghost predicate Searching(n: int, g: StateGraph, options: seq<State>, busy: State)
  {
    && g.Keys <= Universe(n)
    && (forall s :: s in g ==> KeyOk(n, s))
    && Pending(g, options)
    && DoneBut(g, options, busy)
  }

  /** The search at the top of the outer loop: as Searching, with every key
      off the stack expanded. */
  ghost predicate Between(n: int, g: StateGraph, options: seq<State>)
  {
    && g.Keys <= Universe(n)
    && (forall s :: s in g ==> KeyOk(n, s))
    && Pending(g, options)
    && (forall s :: s in g && s !in options ==> Expanded(g, s))
  }

  /** Growing the graph without touching the record of s keeps s expanded. */
  lemma ExpandedGrow(g: StateGraph, g': StateGraph, s: State)
    requires Expanded(g, s) && g.Keys <= g'.Keys && s in g' && g'[s] == g[s]
    ensures Expanded(g', s)
  {
  }

  /** Recording one more child of the state being expanded. */
  lemma RecordChild(n: int, g: StateGraph, options: seq<State>, busy: State, child: State)
    requires busy in g && busy !in options && Searching(n, g, options, busy)
    ensures Searching(n, g[busy := g[busy] + [child]], options, busy)
  {
    var g' := g[busy := g[busy] + [child]];
    forall s | s in g' && s !in options && s != busy ensures Expanded(g', s) {
      ExpandedGrow(g, g', s);
    }
  }

  /** Pushing a new key keeps the stack as Pending says. */
  lemma PushPending(g: StateGraph, options: seq<State>, child: State)
    requires child !in g && Pending(g, options)
    ensures Pending(g[child := []], options + [child])
  {
    var g' := g[child := []];
    var o' := options + [child];
    forall i | 0 <= i < |o'| ensures o'[i] in g' && g'[o'[i]] == [] {
      if i < |options| {
        assert o'[i] == options[i];
      }
    }
    forall i, j | 0 <= i < j < |o'| ensures o'[i] != o'[j] {
      if j < |options| {
        assert o'[i] == options[i] && o'[j] == options[j];
      } else {
        assert o'[i] == options[i] && options[i] in g;
      }
    }
  }

  /** Pushing a new key leaves every other key's record alone. */
  lemma PushDone(g: StateGraph, options: seq<State>, busy: State, child: State)
    requires child !in g && DoneBut(g, options, busy)
    ensures DoneBut(g[child := []], options + [child], busy)
  {
    var g' := g[child := []];
    forall s | s in g' && s !in options + [child] && s != busy ensures Expanded(g', s) {
      ExpandedGrow(g, g', s);
    }
  }

  /** Entering a new key and pushing it on the stack. */
  lemma PushKey(n: int, g: StateGraph, options: seq<State>, busy: State, child: State)
    requires busy in g && busy !in options && child !in g && Searching(n, g, options, busy)
    requires KeyOk(n, child) && child in Universe(n)
    ensures Searching(n, g[child := []], options + [child], busy)
    ensures busy !in options + [child]
  {
    PushPending(g, options, child);
    PushDone(g, options, busy, child);
  }

  /** The top of the stack has no children recorded and occurs nowhere
      else on the stack. */
  lemma PopTop(g: StateGraph, options: seq<State>)
    requires options != [] && Pending(g, options)
    ensures options[|options| - 1] in g && g[options[|options| - 1]] == []
    ensures options[|options| - 1] !in options[..|options| - 1]
  {
  }

  /** Taking the top of the stack: it is the only key off the rest of the
      stack not yet expanded. */
  lemma PopKey(n: int, g: StateGraph, options: seq<State>)
    requires options != [] && Between(n, g, options)
    ensures options[|options| - 1] in g && g[options[|options| - 1]] == []
    ensures options[|options| - 1] !in options[..|options| - 1]
    ensures Searching(n, g, options[..|options| - 1], options[|options| - 1])
  {
    PopTop(g, options);
    var top := options[|options| - 1];
    var rest := options[..|options| - 1];
    assert options == rest + [top];
    assert Pending(g, rest);
    forall s | s in g && s !in rest && s != top ensures Expanded(g, s) {
    }
  }

  /** The first k children are each final or a key. */
  ghost predicate ClosedUpTo(g: StateGraph, children: seq<State>, k: nat)
    requires k <= |children|
  {
    forall j :: 0 <= j < k ==> Final(children[j]) || children[j] in g
  }

  lemma ClosedStep(g: StateGraph, g': StateGraph, children: seq<State>, k: nat)
    requires k < |children| && ClosedUpTo(g, children, k) && g.Keys <= g'.Keys
    requires Final(children[k]) || children[k] in g'
    ensures ClosedUpTo(g', children, k + 1)
  {
  }

  lemma TakeSnoc<T>(s: seq<T>, k: nat)
    requires k < |s|
    ensures s[..k + 1] == s[..k] + [s[k]]
  {
  }

  /** Once all children of `busy` are recorded and each is final or a key,
      every key off the stack is expanded. */
  lemma FinishExpand(n: int, g: StateGraph, options: seq<State>, busy: State)
    requires busy in g && g[busy] == Moves(busy) && ClosedUpTo(g, Moves(busy), |Moves(busy)|)
    requires Searching(n, g, options, busy)
    ensures Between(n, g, options)
  {
    forall c | c in Moves(busy) ensures Final(c) || c in g {
      var j :| 0 <= j < |Moves(busy)| && Moves(busy)[j] == c;
    }
    assert Expanded(g, busy);
  }

  /** A child of a key that is neither final nor a key yet may become one. */
  lemma ExpandNew(n: int, g: StateGraph, state: State, child: State)
    requires state in g && KeyOk(n, state) && child in Moves(state)
    requires !Final(child) && child !in g && g.Keys <= Universe(n)
    ensures KeyOk(n, child) && child in Universe(n)
    ensures |Universe(n) - g[child := []].Keys| + 1 == |Universe(n) - g.Keys|
  {
    ChildFacts(n, state, child);
    ReachableStep([n], state, child);
    assert Universe(n) - g[child := []].Keys == (Universe(n) - g.Keys) - {child};
  }

  /** Entering a child of the state being expanded that is neither final
      nor a key yet keeps the search invariant and shrinks the measure. */
  lemma EnterChild(n: int, g: StateGraph, options: seq<State>, state: State, child: State)
    requires state in g && state !in options && child in Moves(state)
    requires !Final(child) && child !in g && Searching(n, g, options, state)
    ensures Searching(n, g[child := []], options + [child], state)
    ensures |Universe(n) - g[child := []].Keys| + 1 == |Universe(n) - g.Keys|
  {
    ExpandNew(n, g, state, child);
    PushKey(n, g, options, state, child);
  }

  /** The children among the first k that are not final. */
  ghost function NonFinalUpTo(children: seq<State>, k: nat): set<State>
    requires k <= |children|
  {
    if k == 0 then {}
    else NonFinalUpTo(children, k - 1) + (if Final(children[k - 1]) then {} else {children[k - 1]})
  }

  lemma {:induction false} NonFinalMembers(children: seq<State>, k: nat)
    requires k <= |children|
    ensures forall c :: c in NonFinalUpTo(children, k) <==> c in children[..k] && !Final(c)
  {
    if k > 0 {
      NonFinalMembers(children, k - 1);
      TakeSnoc(children, k - 1);
    }
  }

  /** The inner loop of `generate` after k of the children of `state`:
      those k are recorded and each is final or a key, the keys added are
      exactly the non-final ones among them, each still on the stack, and
      `added` keys have been entered so far. */
  ghost predicate Expanding(n: int, graph0: StateGraph, options0: seq<State>, state: State,
                            children: seq<State>, graph: StateGraph, options: seq<State>, k: nat, added: nat)
    requires k <= |children|
  {
    && state in graph && graph[state] == children[..k] && state !in options
    && graph0.Keys <= graph.Keys
    && ClosedUpTo(graph, children, k)
    && graph.Keys == graph0.Keys + NonFinalUpTo(children, k)
    && (forall s :: s in graph && s !in graph0 ==> s in options)
    && |Universe(n) - graph.Keys| + added == |Universe(n) - graph0.Keys|
    && (added == 0 ==> graph.Keys == graph0.Keys && options == options0)
  }

  /** Visiting child k moves the inner loop on by one child. */
  lemma ExpandStep(n: int, graph0: StateGraph, options0: seq<State>, state: State, children: seq<State>,
                   k: nat, added: nat, graph: StateGraph, options: seq<State>,
                   graph': StateGraph, options': seq<State>, pushed: bool)
    requires k < |children| && Expanding(n, graph0, options0, state, children, graph, options, k, added)
    requires state in graph' && graph'[state] == graph[state] + [children[k]] && state !in options'
    requires graph.Keys <= graph'.Keys
    requires Final(children[k]) || children[k] in graph'
    requires pushed ==> |Universe(n) - graph'.Keys| + 1 == |Universe(n) - graph.Keys|
    requires pushed ==> graph'.Keys == graph.Keys + {children[k]} && !Final(children[k]) && options' == options + [children[k]]
    requires !pushed ==> graph'.Keys == graph.Keys && options' == options
    ensures Expanding(n, graph0, options0, state, children, graph', options', k + 1, if pushed then added + 1 else added)
  {
    TakeSnoc(children, k);
    ClosedStep(graph, graph', children, k);
  }

  // ---------------------------------------------------------------------
  // The search

  /** The body of the inner loop of `generate` for one child: record it
      under `state`, and unless it is final or already a key, enter it with
      no children yet and push it on the stack. */
  method Visit(graph: StateGraph, options: seq<State>, state: State, child: State)
    returns (graph': StateGraph, options': seq<State>, pushed: bool)
    requires state in graph
    ensures pushed <==> !Final(child) && child !in graph
    ensures pushed ==> graph' == graph[state := graph[state] + [child]][child := []] && options' == options + [child]
    ensures !pushed ==> graph' == graph[state := graph[state] + [child]] && options' == options
    ensures pushed ==> graph'.Keys == graph.Keys + {child}
  {
    graph' := graph[state := graph[state] + [child]];
    options' := options;
    pushed := false;
    var done := IsFinal(child);
    if !done && child !in graph' {
      graph' := graph'[child := []];
      options' := options' + [child];
      pushed := true;
    }
  }

  /** One visit keeps the search invariant: the child is recorded, it ends
      up final or a key, and entering it shrinks the measure. */
  lemma VisitKeeps(n: int, graph: StateGraph, options: seq<State>, state: State, child: State,
                   graph': StateGraph, options': seq<State>, pushed: bool)
    requires state in graph && state !in options && child in Moves(state)
    requires Searching(n, graph, options, state)
    requires pushed <==> !Final(child) && child !in graph
    requires pushed ==> graph' == graph[state := graph[state] + [child]][child := []] && options' == options + [child]
    requires !pushed ==> graph' == graph[state := graph[state] + [child]] && options' == options
    ensures state in graph' && graph'[state] == graph[state] + [child] && state !in options'
    ensures graph.Keys <= graph'.Keys && Searching(n, graph', options', state)
    ensures Final(child) || child in graph'
    ensures pushed ==> |Universe(n) - graph'.Keys| + 1 == |Universe(n) - graph.Keys|
    ensures !pushed ==> graph'.Keys == graph.Keys
  {
    var recorded := graph[state := graph[state] + [child]];
    RecordChild(n, graph, options, state, child);
    if pushed {
      EnterChild(n, recorded, options, state, child);
    }
  }

  /** One visit changes no entry but the one for `state` and the new key's,
      and only pushes on the stack. */
  lemma VisitFrame(graph0: StateGraph, options0: seq<State>, state: State, child: State,
                   graph: StateGraph, options: seq<State>, graph': StateGraph, options': seq<State>, pushed: bool)
    requires state in graph && graph0.Keys <= graph.Keys && options0 <= options
    requires forall s :: s in graph0 && s != state ==> graph[s] == graph0[s]
    requires pushed ==> child !in graph
    requires pushed ==> graph' == graph[state := graph[state] + [child]][child := []] && options' == options + [child]
    requires !pushed ==> graph' == graph[state := graph[state] + [child]] && options' == options
    ensures forall s :: s in graph0 && s != state ==> graph'[s] == graph0[s]
    ensures options0 <= options'
  {
    forall s | s in graph0 && s != state ensures graph'[s] == graph0[s] {
      if pushed { assert s != child; }
    }
  }

  /** The inner loop of `generate`: record the children of `state` one by
      one, entering each child that is neither final nor already a key and
      pushing it on the stack. */
  method Expand(ghost n: int, graph0: StateGraph, options0: seq<State>, state: State, children: seq<State>)
    returns (graph: StateGraph, options: seq<State>)
    requires state in graph0 && graph0[state] == [] && children == Moves(state)
    requires state !in options0 && Searching(n, graph0, options0, state)
    ensures graph0.Keys <= graph.Keys && Between(n, graph, options)
    ensures graph.Keys == graph0.Keys ==> options == options0
    ensures graph.Keys != graph0.Keys ==> |Universe(n) - graph.Keys| < |Universe(n) - graph0.Keys|
    ensures graph[state] == children && state !in options
    ensures forall s :: s in graph0 && s != state ==> graph[s] == graph0[s]
    ensures options0 <= options
    ensures forall c :: c in graph <==> c in graph0 || (c in children && !Final(c))
    ensures forall s :: s in graph && s !in graph0 ==> s in options && graph[s] == []
  {
    graph, options := graph0, options0;
    ghost var added: nat := 0;
    for k := 0 to |children|
      invariant Expanding(n, graph0, options0, state, children, graph, options, k, added)
      invariant Searching(n, graph, options, state)
      invariant forall s :: s in graph0 && s != state ==> graph[s] == graph0[s]
      invariant options0 <= options
    {
      ghost var before, beforeOptions := graph, options;
      var pushed;
      graph, options, pushed := Visit(graph, options, state, children[k]);
      VisitKeeps(n, before, beforeOptions, state, children[k], graph, options, pushed);
      VisitFrame(graph0, options0, state, children[k], before, beforeOptions, graph, options, pushed);
      ExpandStep(n, graph0, options0, state, children, k, added, before, beforeOptions, graph, options, pushed);
      if pushed {
        added := added + 1;
      }
    }
    ExpandDone(n, graph0, options0, state, children, graph, options, added);
  }

  /** After the last child: the state's record is complete, every key off
      the stack is expanded, and the keys added are exactly the non-final
      children, each on the stack with no children yet. */
  lemma ExpandDone(n: int, graph0: StateGraph, options0: seq<State>, state: State, children: seq<State>,
                   graph: StateGraph, options: seq<State>, added: nat)
    requires children == Moves(state)
    requires Expanding(n, graph0, options0, state, children, graph, options, |children|, added)
    requires Searching(n, graph, options, state)
    ensures Between(n, graph, options)
    ensures graph.Keys == graph0.Keys ==> options == options0
    ensures graph.Keys != graph0.Keys ==> |Universe(n) - graph.Keys| < |Universe(n) - graph0.Keys|
    ensures graph[state] == children && state !in options
    ensures forall c :: c in graph <==> c in graph0 || (c in children && !Final(c))
    ensures forall s :: s in graph && s !in graph0 ==> s in options && graph[s] == []
  {
    assert children[..|children|] == children;
    NonFinalMembers(children, |children|);
    FinishExpand(n, graph, options, state);
  }

  /** `generate`: depth-first search from the pile [n], popping the most
      recently pushed state, recording all its children and pushing each
      child that is neither final nor already a key. */
  method Generate(n: int) returns (graph: StateGraph)
    ensures Generated(n, graph)
  {
    ReachableStart([n]);
    InUniverse(n, [n]);
    graph := map[[n] := []];
    var options := [[n]];
    while options != []
      invariant [n] in graph && Between(n, graph, options)
      decreases |Universe(n) - graph.Keys|, |options|
    {
      PopKey(n, graph, options);
      var state := options[|options| - 1];
      options := options[..|options| - 1];
      var children := Evolve(state);
      graph, options := Expand(n, graph, options, state, children);
    }
  }

  // ---------------------------------------------------------------------
  // The keys are exactly the states the game can reach

  /** Every state on a play from [n], except possibly the last, is a key. */
  lemma {:induction false} PlayInGraph(n: int, g: StateGraph, p: seq<State>, k: nat)
    requires Generated(n, g) && IsPlay(p) && p[0] == [n] && k < |p|
    requires k < |p| - 1 || !Final(p[k])
    ensures p[k] in g
  {
    if k > 0 {
      PlayInGraph(n, g, p, k - 1);
      assert p[k] in Moves(p[k - 1]) && Expanded(g, p[k - 1]);
      if k < |p| - 1 {
        assert p[k + 1] in Moves(p[k]);
        FinalIffNoMoves(p[k]);
      }
    }
  }

  /** The keys of the generated graph are exactly the states reachable from
      [n] that are [n] itself or not final. */
  lemma GeneratedExact(n: int, g: StateGraph)
    requires Generated(n, g)
    ensures forall s :: s in g <==> Reachable([n], s) && (s == [n] || !Final(s))
  {
    forall s | Reachable([n], s) && (s == [n] || !Final(s)) ensures s in g {
      ReachableInGraph(n, g, s);
    }
  }

  /** A reachable state that is [n] or not final is a key. */
  lemma ReachableInGraph(n: int, g: StateGraph, s: State)
    requires Generated(n, g) && Reachable([n], s) && (s == [n] || !Final(s))
    ensures s in g
  {
    var p :| IsPlay(p) && p[0] == [n] && p[|p| - 1] == s;
    if s != [n] {
      PlayInGraph(n, g, p, |p| - 1);
    }
  }

  /** One recorded child of the generated graph is reachable from [n], and
      is a key unless it is final. */
  lemma RecordedChild(n: int, g: StateGraph, s: State, c: State)
    requires Generated(n, g) && s in g && c in g[s]
    ensures Reachable([n], c) && (Final(c) || c in g)
  {
    assert Expanded(g, s) && KeyOk(n, s);
    ReachableStep([n], s, c);
  }
}
