/** The dependency check of the property catalogue: unknown names, and a three-colour search for cycles. */
module CycleCheck {
  import opened Text

  datatype Entry = Entry(property: string, dependencies: seq<string>)

  type Graph = map<string, seq<string>>

  /** The dependencies by property; a later entry of the same property replaces an earlier one. */
  function Deps(entries: seq<Entry>): Graph {
    if entries == [] then map[]
    else
      var last := entries[|entries| - 1];
      Deps(entries[..|entries| - 1])[last.property := last.dependencies]
  }

  function Names(entries: seq<Entry>): set<string> {
    set e | e in entries :: e.property
  }

  ghost predicate AllKnown(entries: seq<Entry>) {
    forall e, d :: e in entries && d in e.dependencies ==> d in Names(entries)
  }

  predicate Edge(g: Graph, a: string, b: string) {
    a in g && b in g[a]
  }

  predicate IsPath(g: Graph, path: seq<string>) {
    forall i :: 0 <= i < |path| - 1 ==> Edge(g, path[i], path[i + 1])
  }

  ghost predicate IsCycle(g: Graph, path: seq<string>) {
    |path| >= 2 && IsPath(g, path) && path[0] == path[|path| - 1]
  }

  ghost predicate HasCycle(g: Graph) {
    exists path :: IsCycle(g, path)
  }

  /** A path that ends in a cycle: its last node is also an earlier one. */
  ghost predicate EndsInCycle(g: Graph, path: seq<string>) {
    exists j :: 0 <= j < |path| && IsCycle(g, path[j..])
  }

  /** Every node stands behind all its dependencies. */
  ghost predicate Sorted(g: Graph, order: seq<string>) {
    forall i :: 0 <= i < |order| ==>
      order[i] in g && forall d :: d in g[order[i]] ==> d in order[..i]
  }

  /** Along a path in a sorted graph, positions only fall; the first node cannot come again. */
  lemma {:induction false} SortedPathFalls(g: Graph, order: seq<string>, path: seq<string>, n: nat)
    requires Sorted(g, order) && IsPath(g, path) && |path| >= 1
    requires n <= |order| && path[0] in order[..n]
    requires forall k :: 0 <= k < n - 1 ==> order[k] != path[0]
    ensures |path| >= 2 ==> path[|path| - 1] in order[..n - 1]
    decreases |path|
  {
    if |path| >= 2 {
      var i :| 0 <= i < n && order[i] == path[0];
      assert i == n - 1;
      assert Edge(g, path[0], path[1]);
      var m := FirstPosition(order, n - 1, path[1]);
      SortedPathFalls(g, order, path[1..], m);
      assert forall x :: x in order[..m] ==> x in order[..n - 1];
    }
  }

  /** The shortest prefix of the first n that holds x. */
  lemma FirstPosition(order: seq<string>, n: nat, x: string) returns (m: nat)
    requires n <= |order| && x in order[..n]
    ensures 1 <= m <= n && order[m - 1] == x && forall k :: 0 <= k < m - 1 ==> order[k] != x
    ensures x in order[..m]
  {
    m := 1;
    while order[m - 1] != x
      invariant 1 <= m <= n && x in order[m - 1..n]
      invariant forall k :: 0 <= k < m - 1 ==> order[k] != x
      decreases n - m
    {
      assert x in order[m..n];
      m := m + 1;
    }
    assert order[..m][m - 1] == x;
  }

  lemma SortedHasNoCycle(g: Graph, order: seq<string>)
    requires Sorted(g, order) && forall p :: p in g ==> p in order
    ensures !HasCycle(g)
  {
    forall path | IsCycle(g, path) ensures false {
      assert Edge(g, path[0], path[1]);
      assert order[..|order|] == order;
      var n := FirstPosition(order, |order|, path[0]);
      SortedPathFalls(g, order, path, n);
    }
  }

  datatype Colour = Grey | Black

  datatype Outcome = Accepted | UnknownDependency(property: string, dependency: string) | Cycle(path: seq<string>)

  /** The nodes of a set, each behind its dependencies, which are all in the set too. */
  ghost predicate Settled(g: Graph, black: set<string>) {
    exists order :: Sorted(g, order) && forall p :: p in black <==> p in order
  }

  lemma SettleOne(g: Graph, black: set<string>, p: string)
    requires Settled(g, black) && p in g && forall d :: d in g[p] ==> d in black
    ensures Settled(g, black + {p})
  {
    var order :| Sorted(g, order) && forall q :: q in black <==> q in order;
    SortedSnoc(g, order, p);
    hide Sorted;
    assert forall q :: q in order + [p] <==> q in order || q == p;
  }

  /** Grey are exactly the nodes on the stack, black exactly those settled. */
  ghost predicate Coloured(g: Graph, state: map<string, Colour>, black: set<string>, stack: seq<string>) {
    && state.Keys <= g.Keys
    && (forall p :: p in state && state[p] == Grey <==> p in stack)
    && (forall p :: p in state && state[p] == Black <==> p in black)
    && Settled(g, black)
  }

  /** The first n names are in the set. */
  ghost predicate AllIn(names: seq<string>, n: nat, black: set<string>)
    requires n <= |names|
  {
    forall k :: 0 <= k < n ==> names[k] in black
  }

  lemma NoneIn(names: seq<string>, black: set<string>)
    ensures AllIn(names, 0, black) && Grown(black, black)
  {
  }

  lemma OneMoreIn(names: seq<string>, n: nat, start: set<string>, before: set<string>, after: set<string>)
    requires n < |names| && AllIn(names, n, before) && Grown(before, after) && names[n] in after && Grown(start, before)
    ensures AllIn(names, n + 1, after) && Grown(start, after)
  {
  }

  lemma GrowOne(start: set<string>, black: set<string>, p: string)
    requires Grown(start, black)
    ensures Grown(start, black + {p})
  {
  }

  ghost predicate Grown(before: set<string>, after: set<string>) {
    before <= after
  }

  /** How many nodes have not been visited. */
  ghost function Unvisited(g: Graph, state: map<string, Colour>): nat {
    |g.Keys - state.Keys|
  }

  lemma Enter(g: Graph, state: map<string, Colour>, black: set<string>, stack: seq<string>, p: string)
    requires Coloured(g, state, black, stack) && p in g && p !in state
    ensures Coloured(g, state[p := Grey], black, stack + [p])
    ensures Unvisited(g, state[p := Grey]) < Unvisited(g, state)
  {
    Fewer(g, state, p);
    hide Settled, Unvisited;
    var after := state[p := Grey];
    forall q
      ensures q in after && after[q] == Grey <==> q in stack + [p]
      ensures q in after && after[q] == Black <==> q in black
    {
      assert q in stack + [p] <==> q in stack || q == p;
      if q != p {
        assert q in after <==> q in state;
      }
    }
  }

  lemma Fewer(g: Graph, state: map<string, Colour>, p: string)
    requires p in g && p !in state
    ensures Unvisited(g, state[p := Grey]) < Unvisited(g, state)
  {
    assert g.Keys - state.Keys == (g.Keys - state[p := Grey].Keys) + {p};
  }

  lemma Leave(g: Graph, state: map<string, Colour>, black: set<string>, stack: seq<string>, p: string)
    requires Coloured(g, state, black, stack + [p]) && p in g && !OnStack(stack, p)
    requires AllIn(g[p], |g[p]|, black)
    ensures Coloured(g, state[p := Black], black + {p}, stack)
    ensures Unvisited(g, state[p := Black]) == Unvisited(g, state)
  {
    assert forall d :: d in g[p] ==> d in black;
    SettleOne(g, black, p);
    hide Settled;
    assert forall q :: q in stack + [p] <==> q in stack || q == p;
    assert p in stack + [p];
    assert state[p := Black].Keys == state.Keys;
  }

  predicate OnStack(stack: seq<string>, p: string) {
    p in stack
  }

  lemma Look(g: Graph, state: map<string, Colour>, black: set<string>, stack: seq<string>, p: string)
    requires Coloured(g, state, black, stack)
    ensures p in state && state[p] == Grey ==> OnStack(stack, p)
    ensures p in state && state[p] == Black ==> p in black
    ensures p !in state ==> !OnStack(stack, p)
  {
  }

  ghost predicate Closed(g: Graph) {
    forall p, d :: p in g && d in g[p] ==> d in g
  }

  lemma DependencyKnown(g: Graph, p: string, i: nat)
    requires Closed(g) && p in g && i < |g[p]|
    ensures g[p][i] in g
  {
  }

  class Checker {
    const deps: Graph
    var state: map<string, Colour>
    ghost var black: set<string>

    constructor (deps: Graph)
      ensures this.deps == deps && state == map[] && black == {}
    {
      this.deps, state, black := deps, map[], {};
    }

    ghost predicate Valid(stack: seq<string>)
      reads this
    {
      Coloured(deps, state, black, stack)
    }

    /** Visits p below the nodes on the stack; a grey node means that the stack and p close a cycle. */
    method Visit(p: string, stack: seq<string>) returns (cycle: Option<seq<string>>)
      requires Valid(stack) && Closed(deps) && p in deps && IsPath(deps, stack + [p])
      modifies this
      ensures Unvisited(deps, state) <= old(Unvisited(deps, state))
      ensures cycle.None? ==> Valid(stack) && p in black && Grown(old(black), black)
      ensures cycle.Some? ==> EndsInCycle(deps, cycle.value)
      decreases Unvisited(deps, state)
    {
      hide IsPath, EndsInCycle, Coloured, Closed, AllIn, Grown, OnStack, Unvisited;
      var names := deps[p];
      NoneIn(names, black);
      Look(deps, state, black, stack, p);
      if p in state && state[p] == Grey {
        StackCycle(deps, stack, p);
        return Some(stack + [p]);
      }
      if p in state && state[p] == Black {
        return None;
      }
      Enter(deps, state, black, stack, p);
      state := state[p := Grey];
      ghost var longer := stack + [p];
      for i := 0 to |names|
        invariant Valid(longer)
        invariant Unvisited(deps, state) < old(Unvisited(deps, state))
        invariant AllIn(names, i, black) && Grown(old(black), black)
      {
        ghost var before := black;
        ExtendPath(deps, stack, p, i);
        DependencyKnown(deps, p, i);
        cycle := Visit(names[i], stack + [p]);
        if cycle.Some? { return; }
        OneMoreIn(names, i, old(black), before, black);
      }
      Leave(deps, state, black, stack, p);
      GrowOne(old(black), black, p);
      state := state[p := Black];
      black := black + {p};
      cycle := None;
    }
  }

  lemma SortedSnoc(g: Graph, order: seq<string>, p: string)
    requires Sorted(g, order) && p in g && forall d :: d in g[p] ==> d in order
    ensures Sorted(g, order + [p])
  {
    assert forall i :: 0 <= i <= |order| ==> (order + [p])[..i] == order[..i];
    assert order[..|order|] == order;
  }

  lemma ExtendPath(g: Graph, stack: seq<string>, p: string, i: nat)
    requires IsPath(g, stack + [p]) && p in g && i < |g[p]|
    ensures IsPath(g, (stack + [p]) + [g[p][i]])
  {
    var path := (stack + [p]) + [g[p][i]];
    assert Edge(g, p, g[p][i]);
    assert forall i :: 0 <= i <= |stack| ==> path[i] == (stack + [p])[i];
  }

  lemma StackCycle(g: Graph, stack: seq<string>, p: string)
    requires IsPath(g, stack + [p]) && OnStack(stack, p)
    ensures EndsInCycle(g, stack + [p])
  {
    var path := stack + [p];
    var j :| 0 <= j < |stack| && stack[j] == p;
    var tail := path[j..];
    assert forall i :: 0 <= i < |tail| ==> tail[i] == path[j + i];
    assert IsCycle(g, tail);
  }

  lemma {:induction false} DepsAre(entries: seq<Entry>)
    ensures Deps(entries).Keys == Names(entries)
    ensures forall p :: p in Deps(entries) ==> exists e :: e in entries && e.property == p && e.dependencies == Deps(entries)[p]
  {
    if entries != [] {
      var rest, last := entries[..|entries| - 1], entries[|entries| - 1];
      DepsAre(rest);
      assert entries == rest + [last];
    }
  }

  /** The last entry of a property decides its dependencies. */
  lemma {:induction false} LastEntryWins(entries: seq<Entry>, i: nat)
    requires i < |entries| && forall j :: i < j < |entries| ==> entries[j].property != entries[i].property
    ensures entries[i].property in Deps(entries) && Deps(entries)[entries[i].property] == entries[i].dependencies
  {
    if i < |entries| - 1 {
      LastEntryWins(entries[..|entries| - 1], i);
    }
  }

  /** check_graph: accepted exactly when every dependency is known and there is no cycle. */
  method CheckGraph(entries: seq<Entry>) returns (outcome: Outcome)
    ensures outcome.Accepted? <==> AllKnown(entries) && !HasCycle(Deps(entries))
    ensures outcome.UnknownDependency? ==>
              outcome.dependency !in Names(entries) &&
              exists e :: e in entries && e.property == outcome.property && outcome.dependency in e.dependencies
    ensures outcome.Cycle? ==> AllKnown(entries) && EndsInCycle(Deps(entries), outcome.path)
  {
    hide IsCycle, Coloured, Closed, HasCycle, EndsInCycle, IsPath, Deps, AllIn;
    DepsAre(entries);
    var ids := Names(entries);
    for i := 0 to |entries|
      invariant forall k :: 0 <= k < i ==> forall d :: d in entries[k].dependencies ==> d in ids
    {
      var e := entries[i];
      for j := 0 to |e.dependencies|
        invariant forall k :: 0 <= k < j ==> e.dependencies[k] in ids
      {
        if e.dependencies[j] !in ids {
          return UnknownDependency(e.property, e.dependencies[j]);
        }
      }
    }
    KnownIsClosed(entries);
    var checker := new Checker(Deps(entries));
    EmptyColoured(checker.deps);
    var order := seq(|entries|, i requires 0 <= i < |entries| => entries[i].property);
    NoneIn(order, checker.black);
    for i := 0 to |entries|
      invariant checker.deps == Deps(entries) && checker.Valid([])
      invariant fresh(checker)
      invariant AllIn(order, i, checker.black)
    {
      ghost var before := checker.black;
      assert entries[i] in entries;
      SinglePath(checker.deps, order[i]);
      var cycle := checker.Visit(order[i], []);
      if cycle.Some? {
        CycleExists(checker.deps, cycle.value);
        return Cycle(cycle.value);
      }
      OneMoreIn(order, i, {}, before, checker.black);
    }
    AllFinished(checker.deps, checker.state, checker.black, entries, order);
    outcome := Accepted;
  }

  lemma EmptyColoured(g: Graph)
    ensures Coloured(g, map[], {}, [])
  {
    var order: seq<string> := [];
    assert Sorted(g, order) && forall p :: p in {} <==> p in order;
  }

  lemma SinglePath(g: Graph, p: string)
    ensures IsPath(g, [] + [p])
  {
  }

  lemma KnownIsClosed(entries: seq<Entry>)
    requires forall k :: 0 <= k < |entries| ==> forall d :: d in entries[k].dependencies ==> d in Names(entries)
    ensures AllKnown(entries) && Closed(Deps(entries))
  {
    DepsAre(entries);
    hide Deps;
    assert AllKnown(entries);
  }

  lemma AllFinished(g: Graph, state: map<string, Colour>, black: set<string>, entries: seq<Entry>, names: seq<string>)
    requires Coloured(g, state, black, []) && g.Keys == Names(entries)
    requires |names| == |entries| && AllIn(names, |names|, black)
    requires forall k :: 0 <= k < |entries| ==> entries[k].property == names[k]
    ensures !HasCycle(g)
  {
    forall p | p in g ensures p in black {
      var e :| e in entries && e.property == p;
      var k :| 0 <= k < |entries| && entries[k] == e;
      assert names[k] in black;
    }
    var order :| Sorted(g, order) && forall p :: p in black <==> p in order;
    hide Sorted;
    SortedHasNoCycle(g, order);
  }

  lemma CycleExists(g: Graph, path: seq<string>)
    requires EndsInCycle(g, path)
    ensures HasCycle(g)
  {
  }
}
