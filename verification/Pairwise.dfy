/** The pairwise comparison graph: swap resolution, connected components by breadth-first search,
    and the summary that refuses a graph which is not connected. */
module Components {
  datatype Model = Model(name: string)
  type Edge = (Model, Model)
  type Adjacency = map<Model, set<Model>>

  // ------------------------------------------------------------------ reachability

  ghost predicate Joined(edges: seq<Edge>, a: Model, b: Model) {
    (a, b) in edges || (b, a) in edges
  }

  ghost predicate IsPath(edges: seq<Edge>, path: seq<Model>) {
    && path != []
    && forall i :: 0 < i < |path| ==> Joined(edges, path[i - 1], path[i])
  }

  /** Undirected reachability, every node reaching itself. */
  ghost predicate Connected(edges: seq<Edge>, a: Model, b: Model) {
    exists path :: IsPath(edges, path) && path[0] == a && path[|path| - 1] == b
  }

  lemma ConnectedIsEquivalence(edges: seq<Edge>, a: Model, b: Model, c: Model)
    ensures Connected(edges, a, a)
    ensures Connected(edges, a, b) ==> Connected(edges, b, a)
    ensures Connected(edges, a, b) && Connected(edges, b, c) ==> Connected(edges, a, c)
    ensures Joined(edges, a, b) ==> Connected(edges, a, b)
  {
    assert IsPath(edges, [a]);
    if Joined(edges, a, b) { assert IsPath(edges, [a, b]) && [a, b][1] == b; }
    if Connected(edges, a, b) {
      var p :| IsPath(edges, p) && p[0] == a && p[|p| - 1] == b;
      ReversedPath(edges, p);
      if Connected(edges, b, c) {
        var q :| IsPath(edges, q) && q[0] == b && q[|q| - 1] == c;
        JoinedPaths(edges, p, q);
      }
    }
  }

  lemma ReversedPath(edges: seq<Edge>, p: seq<Model>)
    requires IsPath(edges, p)
    ensures Connected(edges, p[|p| - 1], p[0])
  {
    var r := seq(|p|, i requires 0 <= i < |p| => p[|p| - 1 - i]);
    forall i | 0 < i < |r| ensures Joined(edges, r[i - 1], r[i]) {
      assert Joined(edges, p[|p| - 1 - i], p[|p| - i]);
    }
    assert IsPath(edges, r);
  }

  lemma JoinedPaths(edges: seq<Edge>, p: seq<Model>, q: seq<Model>)
    requires IsPath(edges, p) && IsPath(edges, q) && p[|p| - 1] == q[0]
    ensures Connected(edges, p[0], q[|q| - 1])
  {
    var r := p + q[1..];
    forall i | 0 < i < |r| ensures Joined(edges, r[i - 1], r[i]) {
      if i < |p| {
        assert Joined(edges, p[i - 1], p[i]);
      } else {
        assert Joined(edges, q[i - |p|], q[i - |p| + 1]);
      }
    }
    assert IsPath(edges, r);
  }

  /** A set without edges leading out keeps everything its members reach. */
  ghost predicate Closed(edges: seq<Edge>, s: set<Model>) {
    forall a, b :: a in s && Joined(edges, a, b) ==> b in s
  }

  lemma {:induction false} PathStaysInside(edges: seq<Edge>, s: set<Model>, path: seq<Model>, i: nat)
    requires Closed(edges, s) && IsPath(edges, path) && path[0] in s && i < |path|
    ensures path[i] in s
  {
    if i > 0 { PathStaysInside(edges, s, path, i - 1); }
  }

  lemma ReachableStaysInside(edges: seq<Edge>, s: set<Model>, a: Model, b: Model)
    requires Closed(edges, s) && a in s && Connected(edges, a, b)
    ensures b in s
  {
    var path :| IsPath(edges, path) && path[0] == a && path[|path| - 1] == b;
    PathStaysInside(edges, s, path, |path| - 1);
  }

  // ------------------------------------------------------------------ the search

  ghost predicate IsAdjacency(adjacency: Adjacency, nodes: set<Model>, edges: seq<Edge>) {
    && adjacency.Keys == nodes
    && forall a, b :: a in nodes ==> (b in adjacency[a] <==> Joined(edges, a, b))
  }

  ghost predicate EdgesWithin(nodes: set<Model>, edges: seq<Edge>) {
    forall e :: e in edges ==> e.0 in nodes && e.1 in nodes
  }

  method BuildAdjacency(nodes: set<Model>, edges: seq<Edge>) returns (adjacency: Adjacency)
    requires EdgesWithin(nodes, edges)
    ensures IsAdjacency(adjacency, nodes, edges)
  {
    adjacency := map node | node in nodes :: {};
    for i := 0 to |edges|
      invariant IsAdjacency(adjacency, nodes, edges[..i])
    {
      var (left, right) := edges[i];
      assert edges[i] in edges;
      assert edges[..i + 1] == edges[..i] + [edges[i]];
      adjacency := adjacency[left := adjacency[left] + {right}];
      adjacency := adjacency[right := adjacency[right] + {left}];
    }
    assert edges[..|edges|] == edges;
  }

  /** Some order of a set's elements; the source iterates its sets in no particular order. */
  method Enumerate(s: set<Model>) returns (q: seq<Model>)
    ensures forall x :: x in q <==> x in s
  {
    q := [];
    var rest := s;
    while rest != {}
      invariant rest <= s && forall x :: x in q <==> x in s - rest
      decreases rest
    {
      var x :| x in rest;
      q := q + [x];
      rest := rest - {x};
    }
  }

  /** Everything found so far is reachable, and what a found node leads to is found or queued. */
  ghost predicate SearchInv(
      edges: seq<Edge>, remaining: set<Model>, start: Model, component: set<Model>, queue: seq<Model>) {
    && component <= remaining
    && (forall x :: x in queue ==> x in remaining && Connected(edges, start, x))
    && (forall x :: x in component ==> Connected(edges, start, x))
    && (start in component || start in queue)
    && (forall a, b :: a in component && Joined(edges, a, b) ==> b in component || b in queue)
  }

  lemma SearchStep(edges: seq<Edge>, remaining: set<Model>, start: Model, component: set<Model>,
                   node: Model, queue: seq<Model>, more: seq<Model>)
    requires SearchInv(edges, remaining, start, component, [node] + queue) && Closed(edges, remaining)
    requires forall b :: b in more <==> Joined(edges, node, b) && b !in component + {node}
    ensures SearchInv(edges, remaining, start, component + {node}, queue + more)
  {
    assert node in [node] + queue;
    forall x | x in queue + more ensures x in remaining && Connected(edges, start, x) {
      if x in queue {
        assert x in [node] + queue;
      } else {
        ConnectedIsEquivalence(edges, node, x, x);
        ConnectedIsEquivalence(edges, start, node, x);
      }
    }
    forall a, b | a in component + {node} && Joined(edges, a, b)
      ensures b in component + {node} || b in queue + more
    {
      if a in component && b !in component { assert b in [node] + queue; }
    }
  }

  /** One round of the outer loop: the component of the start node. */
  method Search(remaining: set<Model>, edges: seq<Edge>, adjacency: Adjacency, nodes: set<Model>, start: Model)
    returns (component: set<Model>)
    requires IsAdjacency(adjacency, nodes, edges)
    requires remaining <= nodes && Closed(edges, remaining) && start in remaining
    ensures component <= remaining && start in component
    ensures forall x :: x in component <==> Connected(edges, start, x)
  {
    var queue := [start];
    component := {};
    ConnectedIsEquivalence(edges, start, start, start);
    while queue != []
      invariant SearchInv(edges, remaining, start, component, queue)
      decreases remaining - component, |queue|
    {
      var node := queue[0];
      assert queue == [node] + queue[1..];
      queue := queue[1..];
      if node !in component {
        ghost var before := component;
        component := component + {node};
        var more := Enumerate(adjacency[node] - component);
        SearchStep(edges, remaining, start, before, node, queue, more);
        queue := queue + more;
      }
    }
    assert Closed(edges, component);
    forall x | Connected(edges, start, x) ensures x in component {
      ReachableStaysInside(edges, component, start, x);
    }
  }

  /** One class of reachability. */
  ghost predicate IsClass(edges: seq<Edge>, c: set<Model>) {
    c != {} && forall x, y :: x in c ==> (y in c <==> Connected(edges, x, y))
  }

  ghost predicate Covers(components: seq<set<Model>>, nodes: set<Model>) {
    forall x :: x in nodes <==> InSome(components, x)
  }

  ghost predicate InSome(components: seq<set<Model>>, x: Model) {
    exists i :: 0 <= i < |components| && x in components[i]
  }

  ghost predicate AllDisjoint(components: seq<set<Model>>) {
    forall i, j :: 0 <= i < j < |components| ==> components[i] !! components[j]
  }

  /** The components are the classes of reachability: disjoint, covering the nodes, and two nodes
      share one exactly when each reaches the other. */
  ghost predicate ArePartition(nodes: set<Model>, edges: seq<Edge>, components: seq<set<Model>>) {
    && (forall i :: 0 <= i < |components| ==> IsClass(edges, components[i]))
    && Covers(components, nodes)
    && AllDisjoint(components)
  }

  /** Terminates, whatever start nodes and set orders are picked, with exactly the classes. */
  method ConnectedComponents(nodes: set<Model>, edges: seq<Edge>) returns (components: seq<set<Model>>)
    requires EdgesWithin(nodes, edges)
    ensures ArePartition(nodes, edges, components)
  {
    var adjacency := BuildAdjacency(nodes, edges);
    var remaining := nodes;
    components := [];
    while remaining != {}
      invariant remaining <= nodes && Closed(edges, remaining)
      invariant ArePartition(nodes - remaining, edges, components)
      decreases remaining
    {
      var start :| start in remaining;
      var component := Search(remaining, edges, adjacency, nodes, start);
      ReachableSetIsClass(edges, start, component);
      RemovingClassStaysClosed(edges, remaining, component);
      PartitionExtends(nodes, remaining, edges, components, component);
      components := components + [component];
      remaining := remaining - component;
    }
    assert nodes - remaining == nodes;
  }

  lemma ReachableSetIsClass(edges: seq<Edge>, start: Model, component: set<Model>)
    requires start in component
    requires forall z :: z in component <==> Connected(edges, start, z)
    ensures IsClass(edges, component)
  {
    forall x, y | x in component ensures y in component <==> Connected(edges, x, y) {
      ConnectedIsEquivalence(edges, start, x, y);
      ConnectedIsEquivalence(edges, x, start, y);
    }
  }

  lemma RemovingClassStaysClosed(edges: seq<Edge>, remaining: set<Model>, component: set<Model>)
    requires Closed(edges, remaining) && IsClass(edges, component)
    ensures Closed(edges, remaining - component)
  {
    forall a, b | a in remaining - component && Joined(edges, a, b) ensures b in remaining - component {
      ConnectedIsEquivalence(edges, b, a, a);
      assert b in component ==> (a in component <==> Connected(edges, b, a));
    }
  }

  lemma CoverExtends(components: seq<set<Model>>, nodes: set<Model>, component: set<Model>)
    requires Covers(components, nodes)
    ensures Covers(components + [component], nodes + component)
  {
    var longer := components + [component];
    forall x ensures x in nodes + component <==> InSome(longer, x) {
      if x in component { assert x in longer[|components|]; }
      if x in nodes {
        var i :| 0 <= i < |components| && x in components[i];
        assert x in longer[i];
      }
      if i :| 0 <= i < |longer| && x in longer[i] {
        if i < |components| { assert x in components[i]; }
      }
    }
  }

  lemma PartitionExtends(nodes: set<Model>, remaining: set<Model>, edges: seq<Edge>,
                         components: seq<set<Model>>, component: set<Model>)
    requires remaining <= nodes && component <= remaining && IsClass(edges, component)
    requires ArePartition(nodes - remaining, edges, components)
    ensures ArePartition(nodes - (remaining - component), edges, components + [component])
  {
    CoverExtends(components, nodes - remaining, component);
    assert nodes - (remaining - component) == (nodes - remaining) + component;
    forall i | 0 <= i < |components| ensures components[i] !! component {
      forall x | x in components[i] ensures x !in component {
        assert InSome(components, x);
      }
    }
  }

  // ------------------------------------------------------------------ consequences

  function SizeTotal(components: seq<set<Model>>): nat {
    if components == [] then 0 else |components[0]| + SizeTotal(components[1..])
  }

  lemma {:induction false} DisjointSizes(components: seq<set<Model>>, all: set<Model>)
    requires AllDisjoint(components) && Covers(components, all)
    ensures SizeTotal(components) == |all|
  {
    if components == [] {
      assert forall x :: x in all ==> InSome(components, x);
      assert all == {};
    } else {
      var rest := all - components[0];
      forall x ensures x in rest <==> InSome(components[1..], x) {
        if x in rest {
          assert InSome(components, x);
          var i :| 0 <= i < |components| && x in components[i];
          assert x in components[1..][i - 1];
        }
        if i :| 0 <= i < |components[1..]| && x in components[1..][i] {
          assert x in components[i + 1];
          assert InSome(components, x);
        }
      }
      assert components[0] <= all by { assert forall x :: x in components[0] ==> InSome(components, x); }
      DisjointSizes(components[1..], rest);
      assert all == components[0] + rest;
    }
  }

  /** Component sizes sum to the number of nodes. */
  lemma SizesSumToNodes(nodes: set<Model>, edges: seq<Edge>, components: seq<set<Model>>)
    requires ArePartition(nodes, edges, components)
    ensures SizeTotal(components) == |nodes|
  {
    DisjointSizes(components, nodes);
  }

  /** The number of distinct neighbours; an undirected edge counts once however often it occurs. */
  ghost function Neighbours(nodes: set<Model>, edges: seq<Edge>, a: Model): set<Model> {
    set b | b in nodes && Joined(edges, a, b)
  }

  ghost predicate NoSelfPairs(edges: seq<Edge>) {
    forall e :: e in edges ==> e.0 != e.1
  }

  lemma {:induction false} FirstStep(edges: seq<Edge>, path: seq<Model>)
    requires IsPath(edges, path) && path[0] != path[|path| - 1]
    ensures exists b :: Joined(edges, path[0], b)
  {
    assert Joined(edges, path[0], path[1]);
  }

  lemma IsolatedReachesOnlyItself(nodes: set<Model>, edges: seq<Edge>, a: Model, b: Model)
    requires EdgesWithin(nodes, edges) && Neighbours(nodes, edges, a) == {} && Connected(edges, a, b)
    ensures a == b
  {
    var path :| IsPath(edges, path) && path[0] == a && path[|path| - 1] == b;
    assert forall c :: Joined(edges, a, c) ==> c in Neighbours(nodes, edges, a);
    if a != b {
      FirstStep(edges, path);
    }
  }

  lemma NeighbourIsConnected(nodes: set<Model>, edges: seq<Edge>, a: Model, b: Model)
    requires NoSelfPairs(edges) && b in Neighbours(nodes, edges, a)
    ensures a != b && Connected(edges, a, b)
  {
    ConnectedIsEquivalence(edges, a, b, b);
  }

  /** Isolated models are the singleton components. */
  lemma IsolatedIffSingleton(nodes: set<Model>, edges: seq<Edge>, component: set<Model>, a: Model)
    requires EdgesWithin(nodes, edges) && NoSelfPairs(edges)
    requires IsClass(edges, component) && a in component
    ensures Neighbours(nodes, edges, a) == {} <==> component == {a}
  {
    if Neighbours(nodes, edges, a) == {} {
      forall b | b in component ensures b == a {
        IsolatedReachesOnlyItself(nodes, edges, a, b);
      }
    }
    if b :| b in Neighbours(nodes, edges, a) {
      NeighbourIsConnected(nodes, edges, a, b);
      assert b in component;
    }
  }

  /** With two nodes in one component no node is isolated: the degree conjunct adds nothing. */
  lemma OneComponentHasNoIsolated(nodes: set<Model>, edges: seq<Edge>, components: seq<set<Model>>, a: Model)
    requires EdgesWithin(nodes, edges) && NoSelfPairs(edges)
    requires ArePartition(nodes, edges, components) && |nodes| >= 2 && |components| == 1 && a in nodes
    ensures Neighbours(nodes, edges, a) != {}
  {
    SizesSumToNodes(nodes, edges, components);
    assert components == [components[0]];
    assert SizeTotal(components) == |components[0]| + SizeTotal([]);
    assert InSome(components, a);
    IsolatedIffSingleton(nodes, edges, components[0], a);
  }
}

module PairwiseGraph {
  import opened Reals
  import opened Sequences
  import opened Components

  // ------------------------------------------------------------------ one item

  datatype Preference = A | B | Tie

  datatype Ordering = Ordering(swapPosition: int, preference: Preference)

  datatype Item = Item(aModel: Model, bModel: Model, consistent: bool, final: Preference)

  datatype ItemResult = SwapIncomplete | Built(item: Item)

  /** From the position shown to the original identity: swap position 1 shows B first. */
  function ResolveOriginalPreference(swapPosition: int, preference: Preference): Preference {
    if preference == Tie then Tie
    else if swapPosition == 0 then preference
    else if preference == A then B
    else A
  }

  function BuildItem(aModel: Model, bModel: Model, orderings: seq<Ordering>): ItemResult {
    if |orderings| != 2 || Elements2(orderings) != {0, 1} then SwapIncomplete
    else
      var first, second :=
        if orderings[0].swapPosition == 0 then orderings[0] else orderings[1],
        if orderings[0].swapPosition == 0 then orderings[1] else orderings[0];
      var r0, r1 :=
        ResolveOriginalPreference(first.swapPosition, first.preference),
        ResolveOriginalPreference(second.swapPosition, second.preference);
      var consistent := r0 == r1 && r0 != Tie;
      Built(Item(aModel, bModel, consistent, if consistent then r0 else Tie))
  }

  function Elements2(orderings: seq<Ordering>): set<int>
    requires |orderings| == 2
  {
    {orderings[0].swapPosition, orderings[1].swapPosition}
  }

  function Swapped(p: Preference): Preference {
    match p
    case A => B
    case B => A
    case Tie => Tie
  }

  /** An item is decisive exactly when the two presentations prefer the same original, so a judge that
      follows the position shown, or ties, never decides; and renaming A and B renames the verdict. */
  lemma ItemVerdict(aModel: Model, bModel: Model, straight: Preference, swapped: Preference)
    ensures var r := BuildItem(aModel, bModel, [Ordering(1, swapped), Ordering(0, straight)]);
            && r == BuildItem(aModel, bModel, [Ordering(0, straight), Ordering(1, swapped)])
            && r.Built? && (r.item.consistent <==> r.item.final != Tie)
            && r.item.aModel == aModel && r.item.bModel == bModel
            && (r.item.final != Tie <==> straight != Tie && swapped == Swapped(straight))
            && (r.item.final != Tie ==> r.item.final == straight)
            && (straight == swapped ==> r.item.final == Tie)
            && BuildItem(bModel, aModel, [Ordering(0, swapped), Ordering(1, straight)]) ==
               Built(Item(bModel, aModel, r.item.consistent, Swapped(r.item.final)))
  {}

  /** An item is built exactly from one ordering of each swap position, in either order. */
  lemma BuiltIff(aModel: Model, bModel: Model, orderings: seq<Ordering>)
    ensures BuildItem(aModel, bModel, orderings).Built? <==>
            exists straight, swapped ::
              || orderings == [Ordering(0, straight), Ordering(1, swapped)]
              || orderings == [Ordering(1, swapped), Ordering(0, straight)]
  {}

  // ------------------------------------------------------------------ the tallies

  function Nodes(items: seq<Item>): set<Model> {
    (set i | i in items :: i.aModel) + (set i | i in items :: i.bModel)
  }

  function Edges(items: seq<Item>): seq<Edge> {
    if items == [] then []
    else
      var last := items[|items| - 1];
      Edges(items[..|items| - 1]) + (if last.final == Tie then [] else [(last.aModel, last.bModel)])
  }

  function Winner(i: Item): Model {
    if i.final == A then i.aModel else i.bModel
  }

  function Loser(i: Item): Model {
    if i.final == A then i.bModel else i.aModel
  }

  /** Decisive items won by, and played by, one model. */
  function Wins(items: seq<Item>, m: Model): nat {
    if items == [] then 0
    else
      var last := items[|items| - 1];
      Wins(items[..|items| - 1], m) + (if last.final != Tie && Winner(last) == m then 1 else 0)
  }

  function Matches(items: seq<Item>, m: Model): nat {
    if items == [] then 0
    else
      var last := items[|items| - 1];
      Matches(items[..|items| - 1], m) +
        (if last.final != Tie then (if Winner(last) == m then 1 else 0) + (if Loser(last) == m then 1 else 0) else 0)
  }

  /** `defaultdict(float)`: an absent model counts zero. */
  function Count(counts: map<Model, nat>, m: Model): nat {
    if m in counts then counts[m] else 0
  }

  function Bump(counts: map<Model, nat>, m: Model): map<Model, nat> {
    counts[m := Count(counts, m) + 1]
  }

  /** The counting loop. */
  method Tally(items: seq<Item>) returns (edges: seq<Edge>, wins: map<Model, nat>, matches: map<Model, nat>)
    ensures edges == Edges(items)
    ensures CountsAre(items, wins, matches)
  {
    edges, wins, matches := [], map[], map[];
    for i := 0 to |items|
      invariant edges == Edges(items[..i])
      invariant forall m :: Count(wins, m) == Wins(items[..i], m)
      invariant forall m :: Count(matches, m) == Matches(items[..i], m)
    {
      var item := items[i];
      assert items[..i + 1][..i] == items[..i];
      if item.final != Tie {
        edges := edges + [(item.aModel, item.bModel)];
        wins := Bump(wins, Winner(item));
        matches := Bump(Bump(matches, Winner(item)), Loser(item));
      }
    }
    assert items[..|items|] == items;
  }

  ghost function SumOver(f: Model -> nat, nodes: seq<Model>): nat {
    if nodes == [] then 0 else f(nodes[0]) + SumOver(f, nodes[1..])
  }

  function WinsOf(items: seq<Item>): Model -> nat {
    (m: Model) => Wins(items, m)
  }

  function MatchesOf(items: seq<Item>): Model -> nat {
    (m: Model) => Matches(items, m)
  }

  function Decisive(items: seq<Item>): nat {
    if items == [] then 0
    else Decisive(items[..|items| - 1]) + (if items[|items| - 1].final != Tie then 1 else 0)
  }

  lemma {:induction false} SumZero(f: Model -> nat, nodes: seq<Model>)
    requires forall m :: m in nodes ==> f(m) == 0
    ensures SumOver(f, nodes) == 0
  {
    if nodes != [] {
      assert nodes[0] in nodes;
      SumZero(f, nodes[1..]);
    }
  }

  lemma {:induction false} SumAddsIndicator(f: Model -> nat, g: Model -> nat, x: Model, nodes: seq<Model>)
    requires Distinct(nodes) && forall m :: m in nodes ==> f(m) == g(m) + (if m == x then 1 else 0)
    ensures SumOver(f, nodes) == SumOver(g, nodes) + (if x in nodes then 1 else 0)
  {
    if nodes != [] {
      assert nodes == [nodes[0]] + nodes[1..];
      assert nodes[0] in nodes && nodes[0] !in nodes[1..];
      SumAddsIndicator(f, g, x, nodes[1..]);
    }
  }

  ghost predicate PlayersIn(items: seq<Item>, nodes: seq<Model>) {
    forall i :: i in items ==> i.aModel in nodes && i.bModel in nodes
  }

  /** Wins over all models total the decisive items, matches twice that. */
  lemma {:induction false} TalliesConserve(items: seq<Item>, nodes: seq<Model>)
    requires Distinct(nodes) && PlayersIn(items, nodes)
    ensures SumOver(WinsOf(items), nodes) == Decisive(items)
    ensures SumOver(MatchesOf(items), nodes) == 2 * Decisive(items)
  {
    if items == [] {
      SumZero(WinsOf(items), nodes);
      SumZero(MatchesOf(items), nodes);
    } else {
      var before, last := items[..|items| - 1], items[|items| - 1];
      TalliesConserve(before, nodes);
      if last.final != Tie {
        var half := (m: Model) => Matches(before, m) + (if m == Winner(last) then 1 else 0);
        SumAddsIndicator(WinsOf(items), WinsOf(before), Winner(last), nodes);
        SumAddsIndicator(half, MatchesOf(before), Winner(last), nodes);
        SumAddsIndicator(MatchesOf(items), half, Loser(last), nodes);
      } else {
        SumSame(WinsOf(items), WinsOf(before), nodes);
        SumSame(MatchesOf(items), MatchesOf(before), nodes);
      }
    }
  }

  /** The item prefers this model over the other one. */
  predicate Prefers(i: Item, m: Model) {
    (i.final == A && i.aModel == m) || (i.final == B && i.bModel == m)
  }

  predicate Plays(i: Item, m: Model) {
    i.final != Tie && (i.aModel == m || i.bModel == m)
  }

  ghost function Where(items: seq<Item>, p: Item -> bool): set<nat> {
    set i: nat | i < |items| && p(items[i])
  }

  lemma OneMoreWhere(items: seq<Item>, p: Item -> bool)
    requires items != []
    ensures |Where(items, p)| == |Where(items[..|items| - 1], p)| + (if p(items[|items| - 1]) then 1 else 0)
  {
    var n := |items| - 1;
    assert Where(items, p) == Where(items[..n], p) + (if p(items[n]) then {n} else {});
  }

  /** A model wins the items that prefer it and plays the decisive items it is part of. */
  lemma {:induction false} TalliesCountItems(items: seq<Item>, m: Model)
    requires NoSelfPairItems(items)
    ensures Wins(items, m) == |Where(items, i => Prefers(i, m))|
    ensures Matches(items, m) == |Where(items, i => Plays(i, m))|
  {
    if items == [] {
      assert Where(items, i => Prefers(i, m)) == {} && Where(items, i => Plays(i, m)) == {};
    } else {
      assert items[|items| - 1] in items;
      TalliesCountItems(items[..|items| - 1], m);
      OneMoreWhere(items, i => Prefers(i, m));
      OneMoreWhere(items, i => Plays(i, m));
    }
  }

  lemma {:induction false} SumSame(f: Model -> nat, g: Model -> nat, nodes: seq<Model>)
    requires forall m :: m in nodes ==> f(m) == g(m)
    ensures SumOver(f, nodes) == SumOver(g, nodes)
  {
    if nodes != [] {
      assert nodes[0] in nodes;
      SumSame(f, g, nodes[1..]);
    }
  }

  // ------------------------------------------------------------------ the summary

  datatype Summary =
    | Refused(models: nat, edges: nat, sizes: seq<nat>, isolated: set<Model>)
    | WinRates(models: nat, edges: nat, rates: map<Model, real>, sizes: seq<nat>, isolated: set<Model>)

  function UniqueEdges(edges: seq<Edge>): set<set<Model>> {
    set e | e in edges :: {e.0, e.1}
  }

  ghost predicate NoSelfPairItems(items: seq<Item>) {
    forall i :: i in items ==> i.aModel != i.bModel
  }

  lemma {:induction false} EdgesComeFromItems(items: seq<Item>)
    ensures forall e :: e in Edges(items) <==> exists i :: i in items && i.final != Tie && e == (i.aModel, i.bModel)
    ensures EdgesWithin(Nodes(items), Edges(items))
    ensures NoSelfPairItems(items) ==> NoSelfPairs(Edges(items))
  {
    if items != [] {
      var before, last := items[..|items| - 1], items[|items| - 1];
      assert items == before + [last];
      EdgesComeFromItems(before);
    }
  }

  /** The models of the graph are those of all items, ties included; its edges are the pairs some item
      decides, each once however often and whichever way it is decided. */
  lemma GraphExact(items: seq<Item>, m: Model, pair: set<Model>)
    ensures m in Nodes(items) <==> exists i :: i in items && (i.aModel == m || i.bModel == m)
    ensures pair in UniqueEdges(Edges(items)) <==>
            exists i :: i in items && i.final != Tie && pair == {i.aModel, i.bModel}
  {
    EdgesComeFromItems(items);
    if pair in UniqueEdges(Edges(items)) {
      var e :| e in Edges(items) && pair == {e.0, e.1};
      var i :| i in items && i.final != Tie && e == (i.aModel, i.bModel);
      assert pair == {i.aModel, i.bModel};
    }
    if i :| i in items && i.final != Tie && pair == {i.aModel, i.bModel} {
      assert (i.aModel, i.bModel) in Edges(items);
    }
  }

  ghost predicate HasNeighbour(edges: seq<Edge>, m: Model) {
    exists other :: Joined(edges, m, other)
  }

  lemma OneMoreEdge(edges: seq<Edge>, e: Edge, m: Model)
    ensures HasNeighbour(edges + [e], m) <==> HasNeighbour(edges, m) || m == e.0 || m == e.1
  {
    var longer := edges + [e];
    assert e in longer;
    if m == e.0 { assert Joined(longer, m, e.1); }
    if m == e.1 { assert Joined(longer, m, e.0); }
    if other :| Joined(edges, m, other) { assert Joined(longer, m, other); }
    if other :| Joined(longer, m, other) { assert Joined(edges, m, other) || m == e.0 || m == e.1; }
  }

  lemma {:induction false} MatchedIffJoined(items: seq<Item>, m: Model)
    ensures Matches(items, m) > 0 <==> HasNeighbour(Edges(items), m)
  {
    if items != [] {
      var before, last := items[..|items| - 1], items[|items| - 1];
      MatchedIffJoined(before, m);
      if last.final == Tie {
        assert Edges(items) == Edges(before);
      } else {
        OneMoreEdge(Edges(before), (last.aModel, last.bModel), m);
        assert Winner(last) == m || Loser(last) == m <==> m == last.aModel || m == last.bModel;
      }
    }
  }

  function Sizes(components: seq<set<Model>>): seq<nat> {
    seq(|components|, i requires 0 <= i < |components| => |components[i]|)
  }

  function Larger(): (nat, nat) -> bool {
    (a: nat, b: nat) => a >= b
  }

  ghost function Touching(edges: set<set<Model>>, m: Model): set<set<Model>> {
    set e | e in edges && m in e
  }

  ghost predicate TwoEnds(nodes: set<Model>, edge: set<Model>) {
    |edge| == 2 && edge <= nodes
  }

  /** `left, right = tuple(edge)` needs two members, which the absence of self pairs gives. */
  method Unpack(nodes: set<Model>, edge: set<Model>) returns (left: Model, right: Model)
    requires TwoEnds(nodes, edge)
    ensures left != right && edge == {left, right} && left in nodes && right in nodes
  {
    left :| left in edge;
    assert |edge - {left}| == 1;
    right :| right in edge - {left};
    assert |edge - {left} - {right}| == 0;
  }

  lemma TouchingGrows(done: set<set<Model>>, edge: set<Model>, m: Model)
    requires edge !in done
    ensures |Touching(done + {edge}, m)| == |Touching(done, m)| + (if m in edge then 1 else 0)
  {
    assert Touching(done + {edge}, m) == Touching(done, m) + (if m in edge then {edge} else {});
  }

  ghost predicate CountsTouching(degrees: map<Model, nat>, nodes: set<Model>, edges: set<set<Model>>) {
    degrees.Keys == nodes && forall m :: m in nodes ==> degrees[m] == |Touching(edges, m)|
  }

  function BumpEnds(degrees: map<Model, nat>, left: Model, right: Model): map<Model, nat>
    requires left in degrees && right in degrees && left != right
  {
    degrees[left := degrees[left] + 1][right := degrees[right] + 1]
  }

  lemma DegreeStep(degrees: map<Model, nat>, nodes: set<Model>, done: set<set<Model>>, left: Model, right: Model)
    requires CountsTouching(degrees, nodes, done) && left in nodes && right in nodes && left != right
    requires {left, right} !in done
    ensures CountsTouching(BumpEnds(degrees, left, right), nodes, done + {{left, right}})
  {
    var edge := {left, right};
    forall m | m in nodes ensures BumpEnds(degrees, left, right)[m] == |Touching(done + {edge}, m)| {
      TouchingGrows(done, edge, m);
    }
  }

  method CountEdge(degrees: map<Model, nat>, nodes: set<Model>, ghost done: set<set<Model>>, edge: set<Model>)
    returns (more: map<Model, nat>)
    requires CountsTouching(degrees, nodes, done) && TwoEnds(nodes, edge) && edge !in done
    ensures CountsTouching(more, nodes, done + {edge})
  {
    var left, right := Unpack(nodes, edge);
    DegreeStep(degrees, nodes, done, left, right);
    more := BumpEnds(degrees, left, right);
  }

  method Degrees(nodes: set<Model>, edges: set<set<Model>>) returns (degrees: map<Model, nat>)
    requires forall e :: e in edges ==> TwoEnds(nodes, e)
    ensures CountsTouching(degrees, nodes, edges)
  {
    degrees := map m | m in nodes :: 0;
    var rest := edges;
    assert forall m :: m in nodes ==> Touching(edges - rest, m) == {};
    while rest != {}
      invariant rest <= edges && CountsTouching(degrees, nodes, edges - rest)
      decreases rest
    {
      var edge :| edge in rest;
      degrees := CountEdge(degrees, nodes, edges - rest, edge);
      assert edges - (rest - {edge}) == edges - rest + {edge};
      rest := rest - {edge};
    }
    assert edges - rest == edges;
  }

  lemma UntouchedIffIsolated(items: seq<Item>, m: Model)
    ensures |Touching(UniqueEdges(Edges(items)), m)| == 0 <==> Neighbours(Nodes(items), Edges(items), m) == {}
  {
    var unique := UniqueEdges(Edges(items));
    EdgesComeFromItems(items);
    if b :| b in Neighbours(Nodes(items), Edges(items), m) {
      assert {m, b} in Touching(unique, m) by {
        if (m, b) in Edges(items) { assert {m, b} in unique; } else { assert {b, m} in unique && {b, m} == {m, b}; }
      }
    }
    if e :| e in Touching(unique, m) {
      var edge :| edge in Edges(items) && e == {edge.0, edge.1};
      assert (if m == edge.0 then edge.1 else edge.0) in Neighbours(Nodes(items), Edges(items), m);
    }
  }

  ghost predicate AllConnected(items: seq<Item>) {
    forall x, y :: x in Nodes(items) && y in Nodes(items) ==> Connected(Edges(items), x, y)
  }

  /** At least two models, every two of which reach each other. */
  ghost predicate IsConnected(items: seq<Item>) {
    |Nodes(items)| >= 2 && AllConnected(items)
  }

  lemma {:induction false} OneClassIffAllConnected(items: seq<Item>, components: seq<set<Model>>)
    requires ArePartition(Nodes(items), Edges(items), components) && Nodes(items) != {}
    ensures |components| == 1 <==> AllConnected(items)
  {
    var nodes, edges := Nodes(items), Edges(items);
    var x :| x in nodes;
    assert InSome(components, x);
    if |components| == 1 {
      forall a, b | a in nodes && b in nodes ensures Connected(edges, a, b) {
        assert InSome(components, a) && InSome(components, b);
        assert IsClass(edges, components[0]);
      }
    } else {
      assert IsClass(edges, components[0]) && IsClass(edges, components[1]);
      var a :| a in components[0];
      var b :| b in components[1];
      assert InSome(components, a) && InSome(components, b);
      assert b !in components[0];
    }
  }

  lemma {:induction false} WinsAreMatches(items: seq<Item>, m: Model)
    ensures Wins(items, m) <= Matches(items, m)
  {
    if items != [] { WinsAreMatches(items[..|items| - 1], m); }
  }

  /** The win rate of a model with its zero fallback. */
  function Rate(wins: nat, matches: nat): real {
    if matches != 0 then wins as real / matches as real else 0.0
  }

  ghost predicate IsShare(rate: real, wins: nat, matches: nat) {
    matches > 0 && 0.0 <= rate <= 1.0 && Times(matches as real, rate) == wins as real
  }

  lemma RateIsShare(wins: nat, matches: nat)
    requires wins <= matches && matches > 0
    ensures IsShare(Rate(wins, matches), wins, matches)
  {
    DivideBack(matches as real, wins as real);
    DivideMonotone(0.0, wins as real, matches as real);
    DivideMonotone(wins as real, matches as real, matches as real);
  }

  ghost predicate CountsAre(items: seq<Item>, wins: map<Model, nat>, matches: map<Model, nat>) {
    forall m :: Count(wins, m) == Wins(items, m) && Count(matches, m) == Matches(items, m)
  }

  ghost predicate RatesAreShares(items: seq<Item>, rates: map<Model, real>) {
    && rates.Keys == Nodes(items)
    && forall m :: m in Nodes(items) ==> IsShare(rates[m], Wins(items, m), Matches(items, m))
  }

  ghost function Unplayed(items: seq<Item>): set<Model> {
    set m | m in Nodes(items) && Matches(items, m) == 0
  }

  method Rates(items: seq<Item>, wins: map<Model, nat>, matches: map<Model, nat>) returns (rates: map<Model, real>)
    requires CountsAre(items, wins, matches) && Unplayed(items) == {}
    ensures RatesAreShares(items, rates)
  {
    var nodes := Nodes(items);
    rates := map m | m in nodes :: Rate(Count(wins, m), Count(matches, m));
    forall m | m in nodes ensures IsShare(rates[m], Wins(items, m), Matches(items, m)) {
      WinsAreMatches(items, m);
      assert m !in Unplayed(items);
      RateIsShare(Wins(items, m), Matches(items, m));
    }
  }

  ghost predicate AreSizesOf(sizes: seq<nat>, components: seq<set<Model>>) {
    multiset(sizes) == multiset(seq(|components|, i requires 0 <= i < |components| => |components[i]|))
  }

  /** The listed sizes are those of the classes of reachability, largest first. */
  ghost predicate ListsSizes(items: seq<Item>, sizes: seq<nat>) {
    && (forall i, j :: 0 <= i < j < |sizes| ==> sizes[i] >= sizes[j])
    && exists components ::
         && ArePartition(Nodes(items), Edges(items), components)
         && AreSizesOf(sizes, components)
  }

  lemma {:induction false} SortedSizes(items: seq<Item>, components: seq<set<Model>>)
    requires ArePartition(Nodes(items), Edges(items), components)
    ensures ListsSizes(items, Sort(Larger(), Sizes(components)))
  {
    SortSorts(Larger(), Sizes(components));
    assert Sizes(components) == seq(|components|, i requires 0 <= i < |components| => |components[i]|);
    assert AreSizesOf(Sort(Larger(), Sizes(components)), components);
  }

  method Isolated(items: seq<Item>, nodes: set<Model>, unique: set<set<Model>>) returns (isolated: set<Model>)
    requires NoSelfPairItems(items) && nodes == Nodes(items) && unique == UniqueEdges(Edges(items))
    ensures isolated == Unplayed(items)
  {
    EdgesHaveTwoEnds(items);
    var degrees := Degrees(nodes, unique);
    DegreeMeansMatched(items, nodes);
    isolated := set m | m in nodes && degrees[m] < 1;
  }

  method Classes(items: seq<Item>, edges: seq<Edge>) returns (count: nat, sizes: seq<nat>)
    requires NoSelfPairItems(items) && edges == Edges(items)
    ensures ListsSizes(items, sizes)
    ensures |Nodes(items)| >= 2 && count == 1 <==> IsConnected(items)
    ensures IsConnected(items) ==> Unplayed(items) == {}
  {
    EdgesComeFromItems(items);
    var components := ConnectedComponents(Nodes(items), edges);
    SortedSizes(items, components);
    AcceptedIff(items, components);
    count, sizes := |components|, Sort(Larger(), Sizes(components));
  }

  /** The summary refuses exactly the graphs with fewer than two models or with two that do not reach
      each other; on a graph it accepts every model has played, so the zero fallback is never taken. */
  method Summarise(items: seq<Item>) returns (summary: Summary)
    requires NoSelfPairItems(items)
    ensures summary.models == |Nodes(items)| && summary.edges == |UniqueEdges(Edges(items))|
    ensures summary.WinRates? <==> IsConnected(items)
    ensures summary.isolated == Unplayed(items)
    ensures summary.WinRates? ==> summary.isolated == {} && RatesAreShares(items, summary.rates)
    ensures ListsSizes(items, summary.sizes)
  {
    var nodes := Nodes(items);
    var edges, wins, matches := Tally(items);
    var unique := UniqueEdges(edges);
    var isolated := Isolated(items, nodes, unique);
    var count, sizes := Classes(items, edges);
    if |nodes| >= 2 && count == 1 && isolated == {} {
      var rates := Rates(items, wins, matches);
      summary := WinRates(|nodes|, |unique|, rates, sizes, isolated);
    } else {
      summary := Refused(|nodes|, |unique|, sizes, isolated);
    }
  }

  lemma EdgesHaveTwoEnds(items: seq<Item>)
    requires NoSelfPairItems(items)
    ensures forall e :: e in UniqueEdges(Edges(items)) ==> TwoEnds(Nodes(items), e)
  {
    EdgesComeFromItems(items);
    forall e | e in UniqueEdges(Edges(items)) ensures TwoEnds(Nodes(items), e) {
      var edge :| edge in Edges(items) && e == {edge.0, edge.1};
      assert edge.0 != edge.1;
    }
  }

  lemma DegreeMeansMatched(items: seq<Item>, nodes: set<Model>)
    requires nodes == Nodes(items)
    ensures forall m :: m in nodes ==> (|Touching(UniqueEdges(Edges(items)), m)| < 1 <==> Matches(items, m) == 0)
  {
    EdgesComeFromItems(items);
    forall m | m in nodes ensures |Touching(UniqueEdges(Edges(items)), m)| < 1 <==> Matches(items, m) == 0 {
      UntouchedIffIsolated(items, m);
      MatchedIffNeighbours(items, nodes, m);
    }
  }

  lemma MatchedIffNeighbours(items: seq<Item>, nodes: set<Model>, m: Model)
    requires nodes == Nodes(items)
    ensures Matches(items, m) == 0 <==> Neighbours(nodes, Edges(items), m) == {}
  {
    EdgesComeFromItems(items);
    MatchedIffJoined(items, m);
    assert forall other :: Joined(Edges(items), m, other) ==> other in Neighbours(nodes, Edges(items), m);
    assert forall other :: other in Neighbours(nodes, Edges(items), m) ==> Joined(Edges(items), m, other);
  }

  lemma {:induction false} AllPlayed(items: seq<Item>, nodes: set<Model>, components: seq<set<Model>>)
    requires nodes == Nodes(items) && NoSelfPairItems(items) && ArePartition(nodes, Edges(items), components)
    requires |nodes| >= 2 && |components| == 1
    ensures Unplayed(items) == {}
  {
    EdgesComeFromItems(items);
    forall m | m in nodes ensures Matches(items, m) > 0 {
      OneComponentHasNoIsolated(nodes, Edges(items), components, m);
      MatchedIffNeighbours(items, nodes, m);
    }
  }

  /** The degree conjunct of the source adds nothing to the other two. */
  lemma {:induction false} AcceptedIff(items: seq<Item>, components: seq<set<Model>>)
    requires NoSelfPairItems(items) && ArePartition(Nodes(items), Edges(items), components)
    ensures |Nodes(items)| >= 2 && |components| == 1 <==> IsConnected(items)
    ensures IsConnected(items) ==> Unplayed(items) == {}
  {
    if |Nodes(items)| >= 2 {
      OneClassIffAllConnected(items, components);
      if |components| == 1 { AllPlayed(items, Nodes(items), components); }
    }
  }
}
