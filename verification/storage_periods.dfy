/** The bulk-periods mode of fusing: the compatibility graph, its connected components, and the
    greedy chain that folds a component into its hub. */
module StoragePeriods {
  import opened Common
  import opened Ordering
  import opened StorageFuse

  // ----- The compatibility graph -----

  // Fusable by the periods route only.
  predicate Compatible(a: Storage, b: Storage) {
    a.start != b.start && FuseIncompatibility(a, b).None?
  }

  lemma CompatibleSymmetric(a: Storage, b: Storage)
    ensures Compatible(a, b) <==> Compatible(b, a)
  {
  }

  /** Every compatible pair, the earlier object first. */
  method FusePeriodsPairs(storages: seq<Storage>) returns (pairs: seq<(Storage, Storage)>)
    ensures forall a, b :: (a, b) in pairs <==>
              exists i, j :: 0 <= i < j < |storages| && storages[i] == a && storages[j] == b && Compatible(a, b)
  {
    pairs := [];
    for i := 0 to |storages|
      invariant forall a, b :: (a, b) in pairs <==> PairBefore(storages, a, b, i, 0)
    {
      for j := i + 1 to |storages|
        invariant forall a, b :: (a, b) in pairs <==> PairBefore(storages, a, b, i, j)
      {
        if storages[i].start != storages[j].start {
          if FuseIncompatibility(storages[i], storages[j]).None? {
            pairs := pairs + [(storages[i], storages[j])];
          }
        }
      }
    }
  }

  // Found among the pairs (k, l) with k < i, or k == i and l < j.
  ghost predicate PairBefore(storages: seq<Storage>, a: Storage, b: Storage, i: nat, j: nat) {
    exists k, l :: 0 <= k < l < |storages| && (k < i || (k == i && l < j))
      && storages[k] == a && storages[l] == b && Compatible(a, b)
  }

  type Graph = map<Text, set<Text>>

  function Neighbours(g: Graph, id: Text): set<Text> {
    if id in g then g[id] else {}
  }

  ghost predicate Edge(storages: seq<Storage>, a: Text, b: Text) {
    exists x, y :: x in storages && y in storages && x.id == a && y.id == b && Compatible(x, y)
  }

  lemma EdgeSymmetric(storages: seq<Storage>, a: Text, b: Text)
    requires Edge(storages, a, b)
    ensures Edge(storages, b, a)
  {
    var x, y :| x in storages && y in storages && x.id == a && y.id == b && Compatible(x, y);
    CompatibleSymmetric(x, y);
  }

  // The graph has an edge for every compatible pair, in both directions, and no isolated node.
  ghost predicate IsGraphOf(g: Graph, storages: seq<Storage>) {
    && (forall a, b :: b in Neighbours(g, a) <==> Edge(storages, a, b))
    && (forall a :: a in g ==> g[a] != {})
  }

  ghost predicate IsPath(storages: seq<Storage>, p: seq<Text>) {
    p != [] && forall i, j :: 0 <= i < |p| && j == i + 1 < |p| ==> Edge(storages, p[i], p[j])
  }

  ghost predicate Connected(storages: seq<Storage>, a: Text, b: Text) {
    exists p :: IsPath(storages, p) && p[0] == a && p[|p| - 1] == b
  }

  lemma ConnectedSelf(storages: seq<Storage>, a: Text)
    ensures Connected(storages, a, a)
  {
    assert IsPath(storages, [a]);
  }

  lemma ConnectedStep(storages: seq<Storage>, a: Text, b: Text, c: Text)
    requires Connected(storages, a, b) && Edge(storages, b, c)
    ensures Connected(storages, a, c)
  {
    var p :| IsPath(storages, p) && p[0] == a && p[|p| - 1] == b;
    var q := p + [c];
    forall i, j | 0 <= i < |q| && j == i + 1 < |q| ensures Edge(storages, q[i], q[j]) {
      if j < |p| { assert Edge(storages, p[i], p[j]); }
    }
    assert IsPath(storages, q);
  }

  lemma {:induction false} ReversedPath(storages: seq<Storage>, p: seq<Text>)
    requires IsPath(storages, p)
    ensures Connected(storages, p[|p| - 1], p[0])
    decreases |p|
  {
    if |p| == 1 {
      ConnectedSelf(storages, p[0]);
    } else {
      var q := p[1..];
      forall i, j | 0 <= i < |q| && j == i + 1 < |q| ensures Edge(storages, q[i], q[j]) {
        assert Edge(storages, p[i + 1], p[j + 1]);
      }
      ReversedPath(storages, q);
      assert Edge(storages, p[0], p[1]);
      EdgeSymmetric(storages, p[0], p[1]);
      ConnectedStep(storages, p[|p| - 1], p[1], p[0]);
    }
  }

  lemma ConnectedSymmetric(storages: seq<Storage>, a: Text, b: Text)
    requires Connected(storages, a, b)
    ensures Connected(storages, b, a)
  {
    var p :| IsPath(storages, p) && p[0] == a && p[|p| - 1] == b;
    ReversedPath(storages, p);
  }

  // A set closed under edges contains every path that starts in it.
  lemma {:induction false} ClosedHoldsPath(storages: seq<Storage>, ids: set<Text>, p: seq<Text>, k: nat)
    requires IsPath(storages, p) && p[0] in ids && k < |p|
    requires forall a, b :: a in ids && Edge(storages, a, b) ==> b in ids
    ensures p[k] in ids
  {
    if k > 0 {
      ClosedHoldsPath(storages, ids, p, k - 1);
      assert Edge(storages, p[k - 1], p[k]);
    }
  }

  // ----- Building the graph -----

  ghost predicate Paired(pairs: seq<(Storage, Storage)>, a: Text, b: Text) {
    exists i :: 0 <= i < |pairs| && ((pairs[i].0.id == a && pairs[i].1.id == b) || (pairs[i].0.id == b && pairs[i].1.id == a))
  }

  method AddEdge(g: Graph, order: seq<Text>, a: Text, b: Text) returns (g': Graph, order': seq<Text>)
    requires forall id :: id in order <==> id in g
    ensures g' == g[a := Neighbours(g, a) + {b}]
    ensures order' == if a in g then order else order + [a]
    ensures forall id :: id in order' <==> id in g'
  {
    order' := if a in g then order else order + [a];
    g' := g[a := Neighbours(g, a) + {b}];
  }

  /** The adjacency dict, with its keys in insertion order. */
  method BuildGraph(storages: seq<Storage>) returns (g: Graph, order: seq<Text>)
    ensures IsGraphOf(g, storages)
    ensures forall id :: id in order <==> id in g
  {
    hide ListsPairs, IsGraphOf, Edge, Neighbours, Paired;
    var pairs := FusePeriodsPairs(storages);
    g := map[];
    order := [];
    NoEdges(g);
    for i := 0 to |pairs|
      invariant forall id :: id in order <==> id in g
      invariant forall a, b :: b in Neighbours(g, a) <==> Paired(pairs[..i], a, b)
      invariant forall a :: a in g ==> g[a] != {}
    {
      var (first, second) := pairs[i];
      ghost var before := g;
      g, order := AddEdge(g, order, first.id, second.id);
      g, order := AddEdge(g, order, second.id, first.id);
      BothEdges(before, g, first.id, second.id);
      forall a, b ensures b in Neighbours(g, a) <==> Paired(pairs[..i + 1], a, b) {
        PairedStep(pairs, i, a, b);
      }
    }
    assert pairs[..|pairs|] == pairs;
    hide *;
    PairsAreGraph(g, storages, pairs);
  }

  lemma PairsAreGraph(g: Graph, storages: seq<Storage>, pairs: seq<(Storage, Storage)>)
    requires ListsPairs(pairs, storages) && forall a :: a in g ==> g[a] != {}
    requires forall a, b :: b in Neighbours(g, a) <==> Paired(pairs, a, b)
    ensures IsGraphOf(g, storages)
  {
    forall a, b ensures b in Neighbours(g, a) <==> Edge(storages, a, b) {
      PairedIsEdge(storages, pairs, a, b);
    }
  }

  lemma NoEdges(g: Graph)
    requires g == map[]
    ensures forall a, b :: b in Neighbours(g, a) <==> Paired([], a, b)
  {
  }

  lemma BothEdges(before: Graph, g: Graph, x: Text, y: Text)
    requires var once := before[x := Neighbours(before, x) + {y}]; g == once[y := Neighbours(once, y) + {x}]
    ensures forall a, b :: b in Neighbours(g, a) <==> b in Neighbours(before, a) || (a == x && b == y) || (a == y && b == x)
    ensures (forall a :: a in before ==> before[a] != {}) ==> forall a :: a in g ==> g[a] != {}
  {
  }

  lemma PairedStep(pairs: seq<(Storage, Storage)>, i: nat, a: Text, b: Text)
    requires i < |pairs|
    ensures Paired(pairs[..i + 1], a, b)
       <==> Paired(pairs[..i], a, b)
            || (pairs[i].0.id == a && pairs[i].1.id == b) || (pairs[i].0.id == b && pairs[i].1.id == a)
  {
    if Paired(pairs[..i], a, b) {
      var k :| 0 <= k < i && ((pairs[..i][k].0.id == a && pairs[..i][k].1.id == b)
                              || (pairs[..i][k].0.id == b && pairs[..i][k].1.id == a));
      assert pairs[..i + 1][k] == pairs[..i][k];
    }
    assert pairs[..i + 1][i] == pairs[i];
    if Paired(pairs[..i + 1], a, b) {
      var k :| 0 <= k < i + 1 && ((pairs[..i + 1][k].0.id == a && pairs[..i + 1][k].1.id == b)
                                  || (pairs[..i + 1][k].0.id == b && pairs[..i + 1][k].1.id == a));
      if k < i { assert pairs[..i][k] == pairs[..i + 1][k]; }
    }
  }

  ghost predicate ListsPairs(pairs: seq<(Storage, Storage)>, storages: seq<Storage>) {
    forall a, b :: (a, b) in pairs <==>
      exists i, j :: 0 <= i < j < |storages| && storages[i] == a && storages[j] == b && Compatible(a, b)
  }

  lemma PairedIsEdge(storages: seq<Storage>, pairs: seq<(Storage, Storage)>, a: Text, b: Text)
    requires ListsPairs(pairs, storages)
    ensures Paired(pairs, a, b) <==> Edge(storages, a, b)
  {
    if Paired(pairs, a, b) {
      var k :| 0 <= k < |pairs| && ((pairs[k].0.id == a && pairs[k].1.id == b)
                                    || (pairs[k].0.id == b && pairs[k].1.id == a));
      var (x, y) := pairs[k];
      assert (x, y) in pairs;
      CompatibleSymmetric(x, y);
    }
    if Edge(storages, a, b) {
      var x, y :| x in storages && y in storages && x.id == a && y.id == b && Compatible(x, y);
      CompatibleSymmetric(x, y);
      var i :| 0 <= i < |storages| && storages[i] == x;
      var j :| 0 <= j < |storages| && storages[j] == y;
      var pair := if i < j then (x, y) else (y, x);
      assert pair in pairs by {
        if i < j { assert (x, y) in pairs; } else { assert i != j; assert (y, x) in pairs; }
      }
      var k :| 0 <= k < |pairs| && pairs[k] == pair;
    }
  }

  // ----- Depth-first search -----

  // A set listed in some order, as iterating over one does.
  method SetToSeq(s: set<Text>) returns (r: seq<Text>)
    ensures forall x :: x in r <==> x in s
    ensures Distinct(r)
  {
    r := [];
    var rest := s;
    while rest != {}
      invariant forall x :: x in s <==> x in r || x in rest
      invariant forall x :: x in r ==> x !in rest
      invariant Distinct(r)
      decreases rest
    {
      var x :| x in rest;
      r := r + [x];
      rest := rest - {x};
    }
  }

  ghost predicate Explored(storages: seq<Storage>, seed: Text, found: set<Text>, stack: seq<Text>) {
    && (seed in found || seed in stack)
    && (forall a :: a in found || a in stack ==> Connected(storages, seed, a))
    && (forall a, b :: a in found && Edge(storages, a, b) ==> b in found || b in stack)
  }

  lemma ExploredStep(storages: seq<Storage>, g: Graph, seed: Text, found: set<Text>, stack: seq<Text>,
                     current: Text, added: seq<Text>)
    requires IsGraphOf(g, storages) && Explored(storages, seed, found, stack + [current])
    requires forall b :: b in added <==> b in Neighbours(g, current) - (found + {current})
    ensures Explored(storages, seed, found + {current}, stack + added)
  {
    var found', stack' := found + {current}, stack + added;
    assert current in stack + [current];
    forall a | a in found' || a in stack' ensures Connected(storages, seed, a) {
      if a in added {
        ConnectedStep(storages, seed, current, a);
      } else if a in stack {
        assert a in stack + [current];
      }
    }
    forall a, b | a in found' && Edge(storages, a, b) ensures b in found' || b in stack' {
      if a in found {
        assert b in found || b in stack + [current];
      } else {
        assert b in Neighbours(g, current);
      }
    }
  }

  lemma ExploredSkip(storages: seq<Storage>, seed: Text, found: set<Text>, stack: seq<Text>, current: Text)
    requires Explored(storages, seed, found, stack + [current]) && current in found
    ensures Explored(storages, seed, found, stack)
  {
    forall a | a in found || a in stack ensures Connected(storages, seed, a) {
      assert a in found || a in stack + [current];
    }
    forall a, b | a in found && Edge(storages, a, b) ensures b in found || b in stack {
      assert b in found || b in stack + [current];
    }
  }

  /** Everything reachable from `seed`, by depth-first search with an explicit stack. */
  method ComponentIds(storages: seq<Storage>, g: Graph, seed: Text) returns (found: set<Text>)
    requires IsGraphOf(g, storages) && seed in g
    ensures forall b :: b in found <==> Connected(storages, seed, b)
    ensures found <= g.Keys
  {
    var stack := [seed];
    found := {};
    ConnectedSelf(storages, seed);
    while stack != []
      invariant Explored(storages, seed, found, stack)
      invariant found <= g.Keys && forall a :: a in stack ==> a in g
      decreases g.Keys - found, |stack|
    {
      var current := stack[|stack| - 1];
      assert stack == stack[..|stack| - 1] + [current];
      stack := stack[..|stack| - 1];
      if current in found {
        ExploredSkip(storages, seed, found, stack, current);
      } else {
        var added := SetToSeq(Neighbours(g, current) - (found + {current}));
        ExploredStep(storages, g, seed, found, stack, current, added);
        forall b | b in added ensures b in g {
          NeighbourIsNode(storages, g, current, b);
        }
        found := found + {current};
        stack := stack + added;
      }
    }
    forall b | Connected(storages, seed, b) ensures b in found {
      var p :| IsPath(storages, p) && p[0] == seed && p[|p| - 1] == b;
      ClosedHoldsPath(storages, found, p, |p| - 1);
    }
  }

  lemma NeighbourIsNode(storages: seq<Storage>, g: Graph, a: Text, b: Text)
    requires IsGraphOf(g, storages) && b in Neighbours(g, a)
    ensures b in g
  {
    EdgeSymmetric(storages, a, b);
    assert a in Neighbours(g, b);
  }

  // ----- The components -----

  // The objects of a connected component, in ascending id order.
  ghost predicate IsComponent(storages: seq<Storage>, component: seq<Storage>) {
    && |component| >= 2
    && (forall s :: s in component ==> s in storages)
    && Ascending(Keys(component, StorageKey)) && DistinctIds(component)
    && (forall s, b :: s in component ==> (b in Ids(component) <==> Connected(storages, s.id, b)))
  }

  function StorageKey(s: Storage): Bytes { s.id }

  function ById(storages: seq<Storage>, id: Text): (s: Storage)
    requires exists x :: x in storages && x.id == id
    ensures s in storages && s.id == id
  {
    if storages[|storages| - 1].id == id then storages[|storages| - 1]
    else
      assert exists x :: x in storages[..|storages| - 1] && x.id == id by {
        var x :| x in storages && x.id == id;
        var i :| 0 <= i < |storages| && storages[i] == x;
        assert x == storages[..|storages| - 1][i];
      }
      ById(storages[..|storages| - 1], id)
  }

  method CollectComponent(storages: seq<Storage>, g: Graph, found: set<Text>, ghost seed: Text)
    returns (component: seq<Storage>)
    requires DistinctIds(storages) && IsGraphOf(g, storages) && seed in g
    requires found <= g.Keys && forall b :: b in found <==> Connected(storages, seed, b)
    ensures IsComponent(storages, component) && Ids(component) == found
  {
    var sorted := SortedIds(found);
    hide Connected, Ascending, Keys, IsComponent;
    component := [];
    for i := 0 to |sorted|
      invariant |component| == i
      invariant forall j :: 0 <= j < i ==> component[j] in storages && component[j].id == sorted[j]
    {
      assert sorted[i] in found;
      NodeIsObject(storages, g, sorted[i]);
      component := component + [ById(storages, sorted[i])];
    }
    ComponentShape(storages, g, component, sorted, found, seed);
  }

  method SortedIds(ids: set<Text>) returns (sorted: seq<Text>)
    ensures Distinct(sorted) && Ascending(Keys(sorted, IdKey))
    ensures forall x :: x in sorted <==> x in ids
  {
    var listed := SetToSeq(ids);
    sorted := SortBy(listed, IdKey);
    SortByAscends(listed, IdKey);
    SortKeepsDistinct(listed);
    hide SortBy, Ascending;
    forall x ensures x in sorted <==> x in ids {
      assert x in sorted <==> x in multiset(sorted);
      assert x in listed <==> x in multiset(listed);
    }
  }

  function IdKey(id: Text): Bytes { id }

  lemma SortKeepsDistinct(ids: seq<Text>)
    requires Distinct(ids)
    ensures Distinct(SortBy(ids, IdKey))
  {
    var sorted := SortBy(ids, IdKey);
    forall i, j | 0 <= i < j < |sorted| ensures sorted[i] != sorted[j] {
      if sorted[i] == sorted[j] {
        TwiceCounts(sorted, i, j);
        OnceInMultiset(ids, sorted[i]);
      }
    }
  }

  lemma {:induction false} OnceInMultiset(xs: seq<Text>, x: Text)
    requires Distinct(xs)
    ensures multiset(xs)[x] <= 1
    decreases |xs|
  {
    if xs != [] {
      var n := |xs| - 1;
      assert xs == xs[..n] + [xs[n]];
      OnceInMultiset(xs[..n], x);
      forall k | 0 <= k < n ensures xs[..n][k] != xs[n] {
        assert xs[k] != xs[n];
      }
    }
  }

  lemma NodeIsObject(storages: seq<Storage>, g: Graph, id: Text)
    requires IsGraphOf(g, storages) && id in g
    ensures exists x :: x in storages && x.id == id
  {
    var b :| b in Neighbours(g, id);
    assert Edge(storages, id, b);
  }

  lemma ComponentShape(storages: seq<Storage>, g: Graph, component: seq<Storage>, sorted: seq<Text>,
                       found: set<Text>, seed: Text)
    requires DistinctIds(storages) && IsGraphOf(g, storages) && seed in g
    requires forall b :: b in found <==> Connected(storages, seed, b)
    requires |component| == |sorted| && Distinct(sorted) && Ascending(Keys(sorted, IdKey))
    requires forall x :: x in sorted <==> x in found
    requires forall j :: 0 <= j < |sorted| ==> component[j] in storages && component[j].id == sorted[j]
    ensures IsComponent(storages, component) && Ids(component) == found
  {
    hide Connected, Ascending, IsGraphOf, Edge;
    ComponentIdsAre(component, sorted, found);
    ComponentKeysAre(component, sorted);
    forall s, b | s in component ensures b in found <==> Connected(storages, s.id, b) {
      assert s.id in Ids(component);
      SameClass(storages, seed, s.id, b);
    }
    AtLeastTwo(storages, g, sorted, found, seed);
  }

  lemma ComponentKeysAre(component: seq<Storage>, sorted: seq<Text>)
    requires |component| == |sorted| && Distinct(sorted)
    requires forall j :: 0 <= j < |sorted| ==> component[j].id == sorted[j]
    ensures Keys(component, StorageKey) == Keys(sorted, IdKey) && DistinctIds(component)
  {
    forall j | 0 <= j < |sorted| ensures Keys(component, StorageKey)[j] == Keys(sorted, IdKey)[j] {
    }
    forall i, j | 0 <= i < j < |component| ensures component[i].id != component[j].id {
      assert sorted[i] != sorted[j];
    }
  }

  lemma AtLeastTwo(storages: seq<Storage>, g: Graph, sorted: seq<Text>, found: set<Text>, seed: Text)
    requires DistinctIds(storages) && IsGraphOf(g, storages) && seed in g
    requires forall b :: b in found <==> Connected(storages, seed, b)
    requires forall x :: x in sorted <==> x in found
    ensures |sorted| >= 2
  {
    hide Connected, Edge;
    ConnectedSelf(storages, seed);
    Partnered(storages, g, seed);
    var b :| Edge(storages, seed, b);
    ConnectedStep(storages, seed, seed, b);
    NoSelfEdge(storages, seed, b);
    var i :| 0 <= i < |sorted| && sorted[i] == seed;
    var j :| 0 <= j < |sorted| && sorted[j] == b;
  }

  lemma Partnered(storages: seq<Storage>, g: Graph, a: Text)
    requires IsGraphOf(g, storages) && a in g
    ensures exists b :: Edge(storages, a, b)
  {
    var b :| b in Neighbours(g, a);
  }

  lemma SameClass(storages: seq<Storage>, seed: Text, a: Text, b: Text)
    requires Connected(storages, seed, a)
    ensures Connected(storages, seed, b) <==> Connected(storages, a, b)
  {
    hide Connected;
    if Connected(storages, seed, b) {
      ConnectedSymmetric(storages, seed, a);
      ConnectedVia(storages, a, seed, b);
    }
    if Connected(storages, a, b) {
      ConnectedVia(storages, seed, a, b);
    }
  }

  lemma ComponentIdsAre(component: seq<Storage>, sorted: seq<Text>, found: set<Text>)
    requires |component| == |sorted| && forall x :: x in sorted <==> x in found
    requires forall j :: 0 <= j < |sorted| ==> component[j].id == sorted[j]
    ensures Ids(component) == found
  {
    forall id ensures id in Ids(component) <==> id in found {
      if id in Ids(component) {
        var s :| s in component && s.id == id;
        var j :| 0 <= j < |component| && component[j] == s;
        assert sorted[j] in sorted;
      }
      if id in found {
        var j :| 0 <= j < |sorted| && sorted[j] == id;
        assert component[j] in component;
      }
    }
  }

  lemma ConnectedVia(storages: seq<Storage>, a: Text, b: Text, c: Text)
    requires Connected(storages, a, b) && Connected(storages, b, c)
    ensures Connected(storages, a, c)
  {
    var p :| IsPath(storages, p) && p[0] == a && p[|p| - 1] == b;
    var q :| IsPath(storages, q) && q[0] == b && q[|q| - 1] == c;
    var r := p + q[1..];
    forall i, j | 0 <= i < |r| && j == i + 1 < |r| ensures Edge(storages, r[i], r[j]) {
      if j < |p| {
        assert Edge(storages, p[i], p[j]);
      } else {
        assert Edge(storages, q[i + 1 - |p|], q[j + 1 - |p|]);
      }
    }
    assert IsPath(storages, r);
  }

  // No object is compatible with itself.
  lemma NoSelfEdge(storages: seq<Storage>, a: Text, b: Text)
    requires DistinctIds(storages) && Edge(storages, a, b)
    ensures a != b
  {
    var x, y :| x in storages && y in storages && x.id == a && y.id == b && Compatible(x, y);
    var i :| 0 <= i < |storages| && storages[i] == x;
    var j :| 0 <= j < |storages| && storages[j] == y;
    assert i != j;
    if i < j { assert storages[i].id != storages[j].id; } else { assert storages[j].id != storages[i].id; }
  }

  ghost predicate HasPartner(storages: seq<Storage>, a: Text) {
    exists b :: Edge(storages, a, b)
  }

  /** The connected components of the compatibility graph: each one complete, no two overlapping, and
      every object that has a partner in one of them. */
  method PeriodsComponents(storages: seq<Storage>) returns (components: seq<seq<Storage>>)
    requires DistinctIds(storages)
    ensures forall k :: 0 <= k < |components| ==> IsComponent(storages, components[k])
    ensures forall k, l :: 0 <= k < l < |components| ==> Ids(components[k]) !! Ids(components[l])
    ensures forall a :: HasPartner(storages, a) <==> exists k :: 0 <= k < |components| && a in Ids(components[k])
  {
    var g, order := BuildGraph(storages);
    var seen: set<Text> := {};
    components := [];
    hide IsComponent, Connected, IsGraphOf, Edge;
    for i := 0 to |order|
      invariant Collected(storages, components, seen)
      invariant forall j :: 0 <= j < i ==> order[j] in seen
      invariant seen <= g.Keys
    {
      if order[i] !in seen {
        assert order[i] in order;
        var found := ComponentIds(storages, g, order[i]);
        ConnectedSelf(storages, order[i]);
        var component := CollectComponent(storages, g, found, order[i]);
        OneMoreComponent(storages, components, seen, component, order[i]);
        seen := seen + found;
        components := components + [component];
      }
    }
    forall a ensures HasPartner(storages, a) <==> a in seen {
      PartnerIffNode(storages, g, a);
      if a in g {
        assert a in order;
        var j :| 0 <= j < |order| && order[j] == a;
      }
    }
  }

  // The components found so far, and the ids in them.
  ghost predicate Collected(storages: seq<Storage>, components: seq<seq<Storage>>, seen: set<Text>) {
    && (forall k :: 0 <= k < |components| ==> IsComponent(storages, components[k]))
    && (forall a :: a in seen <==> exists k :: 0 <= k < |components| && a in Ids(components[k]))
    && (forall k, l :: 0 <= k < l < |components| ==> Ids(components[k]) !! Ids(components[l]))
  }

  lemma OneMoreComponent(storages: seq<Storage>, components: seq<seq<Storage>>, seen: set<Text>,
                         component: seq<Storage>, seed: Text)
    requires Collected(storages, components, seen) && IsComponent(storages, component)
    requires seed in Ids(component) && seed !in seen
    ensures Collected(storages, components + [component], seen + Ids(component))
  {
    hide IsComponent;
    var all, n := components + [component], |components|;
    forall k | 0 <= k < n ensures Ids(components[k]) !! Ids(component) {
      ComponentsApart(storages, components[k], component, seed);
    }
    forall a ensures a in seen + Ids(component) <==> exists k :: 0 <= k < |all| && a in Ids(all[k]) {
      if a in seen {
        var k :| 0 <= k < n && a in Ids(components[k]);
        assert all[k] == components[k];
      }
      if a in Ids(component) { assert a in Ids(all[n]); }
    }
  }

  lemma PartnerIffNode(storages: seq<Storage>, g: Graph, a: Text)
    requires IsGraphOf(g, storages)
    ensures HasPartner(storages, a) <==> a in g
  {
    if HasPartner(storages, a) {
      var b :| Edge(storages, a, b);
      assert b in Neighbours(g, a);
    }
    if a in g {
      Partnered(storages, g, a);
    }
  }

  lemma ComponentsApart(storages: seq<Storage>, a: seq<Storage>, b: seq<Storage>, seed: Text)
    requires IsComponent(storages, a) && IsComponent(storages, b)
    requires seed in Ids(b) && seed !in Ids(a)
    ensures Ids(a) !! Ids(b)
  {
    forall s, t | s in a && t in b ensures s.id != t.id {
      assert Connected(storages, t.id, seed);
      if s.id == t.id {
        assert false;
      }
    }
  }

  // ----- The greedy chain -----

  // The spokes fold in by the periods route, each against the survivor of the ones before it.
  ghost predicate PeriodsAccepts(hub: Storage, spokes: seq<Storage>) {
    spokes == [] ||
    (PeriodsAccepts(hub, spokes[..|spokes| - 1])
     && var survivor := Survivor(hub, spokes[..|spokes| - 1]);
        survivor.start != spokes[|spokes| - 1].start
        && FusePeriodsIncompatibility(survivor, spokes[|spokes| - 1]).None?)
  }

  // A spoke the chain cannot fold into this survivor.
  predicate Stuck(survivor: Storage, spoke: Storage) {
    survivor.start == spoke.start || !FusePeriodsIncompatibility(survivor, spoke).None?
  }

  // Those of the spokes that are marked so, in their order.
  ghost function Marked(spokes: seq<Storage>, marks: seq<bool>, mark: bool): (r: seq<Storage>)
    requires |marks| == |spokes|
    ensures |r| <= |spokes|
  {
    if spokes == [] then []
    else
      var n := |spokes| - 1;
      Marked(spokes[..n], marks[..n], mark) + if marks[n] == mark then [spokes[n]] else []
  }

  // Same size, different starts, next to each other.
  predicate Joins(survivor: Storage, spoke: Storage) {
    && survivor.size == spoke.size && survivor.start != spoke.start
    && (survivor.end == spoke.start || survivor.start == spoke.end)
  }

  // A pass goes through the spokes in order and marks exactly those that join what the survivor has become.
  ghost predicate Pass(survivor: Storage, spokes: seq<Storage>, marks: seq<bool>) {
    |marks| == |spokes| && forall i :: 0 <= i < |spokes| ==> MarkedRight(survivor, spokes, marks, i)
  }

  ghost predicate MarkedRight(survivor: Storage, spokes: seq<Storage>, marks: seq<bool>, i: nat)
    requires i < |spokes| == |marks|
  {
    marks[i] <==> Joins(Survivor(survivor, Marked(spokes[..i], marks[..i], true)), spokes[i])
  }

  // The spokes folded and those left over after some passes, each over what the one before it left.
  ghost function After(spokes: seq<Storage>, passes: seq<seq<bool>>): (seq<Storage>, seq<Storage>)
  {
    if passes == [] then ([], spokes)
    else
      var (folded, left) := After(spokes, passes[..|passes| - 1]);
      var marks := passes[|passes| - 1];
      if |marks| != |left| then (folded, left)
      else (folded + Marked(left, marks, true), Marked(left, marks, false))
  }

  ghost predicate InPasses(hub: Storage, spokes: seq<Storage>, passes: seq<seq<bool>>) {
    forall k :: 0 <= k < |passes| ==>
      Pass(Survivor(hub, After(spokes, passes[..k]).0), After(spokes, passes[..k]).1, passes[k])
  }

  lemma StuckIsApart(survivor: Storage, spoke: Storage)
    ensures Stuck(survivor, spoke) <==> !Joins(survivor, spoke)
  {
  }

  lemma {:induction false} SurvivorOn(hub: Storage, a: seq<Storage>, b: seq<Storage>)
    ensures Survivor(hub, a + b) == Survivor(Survivor(hub, a), b)
    decreases |b|
  {
    if b == [] {
      assert a + b == a;
    } else {
      assert (a + b)[..|a + b| - 1] == a + b[..|b| - 1];
      SurvivorOn(hub, a, b[..|b| - 1]);
    }
  }

  // One more spoke looked at in a pass.
  lemma PassStep(survivor: Storage, spokes: seq<Storage>, i: nat, marks: seq<bool>, mark: bool)
    requires i < |spokes| && Pass(survivor, spokes[..i], marks)
    requires mark <==> Joins(Survivor(survivor, Marked(spokes[..i], marks, true)), spokes[i])
    ensures Pass(survivor, spokes[..i + 1], marks + [mark])
    ensures Marked(spokes[..i + 1], marks + [mark], mark) == Marked(spokes[..i], marks, mark) + [spokes[i]]
    ensures Marked(spokes[..i + 1], marks + [mark], !mark) == Marked(spokes[..i], marks, !mark)
  {
    MarkedStep(spokes, i, marks, mark);
    hide Joins, Marked, Survivor;
    var all, more := spokes[..i + 1], marks + [mark];
    forall k | 0 <= k <= i ensures MarkedRight(survivor, all, more, k) {
      assert all[..k] == spokes[..i][..k] && more[..k] == marks[..k];
      if k < i {
        assert MarkedRight(survivor, spokes[..i], marks, k);
      } else {
        assert spokes[..i][..k] == spokes[..i] && marks[..k] == marks;
      }
    }
  }

  lemma MarkedStep(spokes: seq<Storage>, i: nat, marks: seq<bool>, mark: bool)
    requires i < |spokes| && |marks| == i
    ensures Marked(spokes[..i + 1], marks + [mark], mark) == Marked(spokes[..i], marks, mark) + [spokes[i]]
    ensures Marked(spokes[..i + 1], marks + [mark], !mark) == Marked(spokes[..i], marks, !mark)
  {
    var more, all := marks + [mark], spokes[..i + 1];
    assert more[..i] == marks && all[..i] == spokes[..i];
  }

  lemma PassAppended(hub: Storage, spokes: seq<Storage>, passes: seq<seq<bool>>, folded: seq<Storage>, left: seq<Storage>,
                     marks: seq<bool>)
    requires InPasses(hub, spokes, passes) && After(spokes, passes) == (folded, left)
    requires Pass(Survivor(hub, folded), left, marks)
    ensures InPasses(hub, spokes, passes + [marks])
    ensures After(spokes, passes + [marks]) == (folded + Marked(left, marks, true), Marked(left, marks, false))
  {
    var more := passes + [marks];
    assert more[..|passes|] == passes;
    hide Pass;
    forall k | 0 <= k < |more|
      ensures Pass(Survivor(hub, After(spokes, more[..k]).0), After(spokes, more[..k]).1, more[k])
    {
      if k < |passes| { assert more[..k] == passes[..k]; }
    }
  }

  lemma FoldOne(hub: Storage, folded: seq<Storage>, spoke: Storage)
    requires PeriodsAccepts(hub, folded) && !Stuck(Survivor(hub, folded), spoke)
    ensures PeriodsAccepts(hub, folded + [spoke])
    ensures Survivor(hub, folded + [spoke]) == FuseChainState(Survivor(hub, folded), spoke)
    ensures Calls(hub, folded + [spoke]) == Calls(hub, folded) + [(hub.id, spoke.id)]
  {
    var all := folded + [spoke];
    assert all[..|all| - 1] == folded && all[|all| - 1] == spoke;
  }

  lemma MoveOne(folded: seq<Storage>, left: seq<Storage>, total: multiset<Storage>, spoke: Storage)
    requires multiset(folded) + multiset(left) == total
    ensures multiset(folded + [spoke]) + multiset(left) == total + multiset{spoke}
    ensures multiset(folded) + multiset(left + [spoke]) == total + multiset{spoke}
  {
    assert multiset(folded + [spoke]) == multiset(folded) + multiset{spoke};
    assert multiset(left + [spoke]) == multiset(left) + multiset{spoke};
  }

  lemma NothingPassed(survivor: Storage)
    ensures Pass(survivor, [], []) && Marked([], [], true) == [] && Marked([], [], false) == []
  {
  }

  /** One pass over the spokes not folded yet, trying each against the survivor's current state. */
  method FoldPass(hub: Storage, survivor: Storage, remaining: seq<Storage>, pairs: seq<Call>, ghost folded: seq<Storage>)
    returns (survivor': Storage, left: seq<Storage>, pairs': seq<Call>, progress: bool, ghost folded': seq<Storage>,
             ghost marks: seq<bool>)
    requires PeriodsAccepts(hub, folded) && survivor == Survivor(hub, folded) && pairs == Calls(hub, folded)
    ensures PeriodsAccepts(hub, folded') && survivor' == Survivor(hub, folded') && pairs' == Calls(hub, folded')
    ensures multiset(folded') + multiset(left) == multiset(folded) + multiset(remaining)
    ensures Pass(survivor, remaining, marks)
    ensures folded' == folded + Marked(remaining, marks, true) && left == Marked(remaining, marks, false)
    ensures |left| <= |remaining| && (progress <==> |left| < |remaining|)
    ensures !progress ==> survivor' == survivor && forall s :: s in left ==> Stuck(survivor', s)
  {
    hide PeriodsAccepts, Calls, Marked, Pass, Joins, Survivor;
    survivor', left, pairs', progress, folded' := survivor, [], pairs, false, folded;
    marks := [];
    NothingPassed(survivor);
    for i := 0 to |remaining|
      invariant PeriodsAccepts(hub, folded') && survivor' == Survivor(hub, folded') && pairs' == Calls(hub, folded')
      invariant multiset(folded') + multiset(left) == multiset(folded) + multiset(remaining[..i])
      invariant Pass(survivor, remaining[..i], marks) && |marks| == i
      invariant folded' == folded + Marked(remaining[..i], marks, true) && left == Marked(remaining[..i], marks, false)
      invariant |left| <= i && (progress <==> |left| < i)
      invariant !progress ==> survivor' == survivor && forall s :: s in left ==> Stuck(survivor', s)
    {
      var spoke := remaining[i];
      assert remaining[..i + 1] == remaining[..i] + [spoke];
      MoveOne(folded', left, multiset(folded) + multiset(remaining[..i]), spoke);
      assert multiset(remaining[..i + 1]) == multiset(remaining[..i]) + multiset{spoke};
      StuckIsApart(survivor', spoke);
      SurvivorOn(hub, folded, Marked(remaining[..i], marks, true));
      PassStep(survivor, remaining, i, marks, !Stuck(survivor', spoke));
      marks := marks + [!Stuck(survivor', spoke)];
      if survivor'.start == spoke.start {
        left := left + [spoke];
      } else if FusePeriodsIncompatibility(survivor', spoke).None? {
        FoldOne(hub, folded', spoke);
        pairs' := pairs' + [(survivor'.id, spoke.id)];
        survivor' := FuseChainState(survivor', spoke);
        folded' := folded' + [spoke];
        progress := true;
      } else {
        left := left + [spoke];
      }
    }
    assert remaining[..|remaining|] == remaining;
  }

  // A chain that folded these spokes and left these over, none of which could still be folded.
  ghost predicate FixedPoint(hub: Storage, spokes: seq<Storage>, folded: seq<Storage>, pairs: seq<Call>,
                             remaining: seq<Storage>)
  {
    && PeriodsAccepts(hub, folded) && pairs == Calls(hub, folded)
    && multiset(folded) + multiset(remaining) == multiset(spokes)
    && forall s :: s in remaining ==> Stuck(Survivor(hub, folded), s)
  }

  lemma NothingFolded(hub: Storage, spokes: seq<Storage>)
    ensures PeriodsAccepts(hub, []) && Survivor(hub, []) == hub && Calls(hub, []) == []
    ensures InPasses(hub, spokes, []) && After(spokes, []) == ([], spokes)
  {
  }

  /** Folds spokes into the hub until a pass over the rest folds none: every spoke is consumed once
      or left over, and each one left over cannot be folded into the final survivor. */
  method FusePeriodsChain(hub: Storage, spokes: seq<Storage>) returns (pairs: seq<Call>, remaining: seq<Storage>)
    ensures exists folded, passes ::
              && FixedPoint(hub, spokes, folded, pairs, remaining)
              && InPasses(hub, spokes, passes) && After(spokes, passes) == (folded, remaining)
  {
    hide InPasses, After, Pass, Marked, PeriodsAccepts, Calls, Survivor;
    var survivor := hub;
    remaining, pairs := spokes, [];
    ghost var folded: seq<Storage> := [];
    ghost var passes: seq<seq<bool>> := [];
    NothingFolded(hub, spokes);
    var progress := true;
    while remaining != [] && progress
      invariant PeriodsAccepts(hub, folded) && survivor == Survivor(hub, folded) && pairs == Calls(hub, folded)
      invariant multiset(folded) + multiset(remaining) == multiset(spokes)
      invariant !progress ==> forall s :: s in remaining ==> Stuck(survivor, s)
      invariant InPasses(hub, spokes, passes) && After(spokes, passes) == (folded, remaining)
      decreases |remaining|, progress
    {
      ghost var before, still := folded, remaining;
      ghost var marks: seq<bool>;
      survivor, remaining, pairs, progress, folded, marks := FoldPass(hub, survivor, remaining, pairs, folded);
      PassAppended(hub, spokes, passes, before, still, marks);
      passes := passes + [marks];
    }
    assert FixedPoint(hub, spokes, folded, pairs, remaining);
  }

  // Folding by the periods route passes the general pre-flight too.
  lemma {:induction false} PeriodsAcceptsIsAccepts(hub: Storage, spokes: seq<Storage>)
    requires PeriodsAccepts(hub, spokes)
    requires forall s :: s in spokes ==> s.id != hub.id
    ensures Accepts(hub, spokes)
    decreases |spokes|
  {
    if spokes != [] {
      assert spokes[|spokes| - 1] in spokes;
      PeriodsAcceptsIsAccepts(hub, spokes[..|spokes| - 1]);
    }
  }

  // ----- The mode -----

  datatype PeriodsError = NotInCluster | NoClusters | AmbiguousClusters

  method IndexOfId(component: seq<Storage>, id: Text) returns (position: Option<nat>)
    ensures position.Some? ==> position.value < |component| && component[position.value].id == id
    ensures position.None? <==> id !in Ids(component)
  {
    for i := 0 to |component|
      invariant forall j :: 0 <= j < i ==> component[j].id != id
    {
      if component[i].id == id {
        assert component[i] in component;
        return Some(i);
      }
    }
    return None;
  }

  // The least id wins; on ties the earlier object, as Python's `min` does.
  method LeastById(component: seq<Storage>) returns (position: nat)
    requires component != []
    ensures position < |component|
    ensures forall s :: s in component ==> Before(component[position].id, s.id)
  {
    position := 0;
    BeforeReflexive(component[0].id);
    for i := 1 to |component|
      invariant position < |component|
      invariant forall j :: 0 <= j < i ==> Before(component[position].id, component[j].id)
    {
      BeforeTotal(component[i].id, component[position].id);
      BeforeReflexive(component[i].id);
      if !Before(component[position].id, component[i].id) {
        forall j | 0 <= j < i ensures Before(component[i].id, component[j].id) {
          BeforeTransitive(component[i].id, component[position].id, component[j].id);
        }
        position := i;
      }
    }
  }

  lemma SpokeApart(component: seq<Storage>, i: nat, spokes: seq<Storage>)
    requires i < |component| && DistinctIds(component) && DistinctIds(spokes)
    requires forall s :: s in spokes ==> s in component[..i]
    requires Ascending(Keys(component, StorageKey)) && IdsInOrder(spokes)
    ensures DistinctIds(spokes + [component[i]]) && IdsInOrder(spokes + [component[i]])
  {
    forall k | 0 <= k < |spokes|
      ensures spokes[k].id != component[i].id && Before(spokes[k].id, component[i].id)
    {
      assert spokes[k] in spokes;
      var l :| 0 <= l < i && component[..i][l] == spokes[k];
      assert component[l].id != component[i].id;
      AscendingApart(Keys(component, StorageKey), l, i);
    }
    hide Before;
  }

  ghost predicate IdsInOrder(storages: seq<Storage>) {
    forall i, j :: 0 <= i < j < |storages| ==> Before(storages[i].id, storages[j].id)
  }

  lemma {:induction false} AscendingApart(ks: seq<Bytes>, i: nat, j: nat)
    requires Ascending(ks) && i < j < |ks|
    ensures Before(ks[i], ks[j])
  {
    if i == 0 {
      FirstIsLeast(ks, j);
    } else {
      AscendingApart(ks[1..], i - 1, j - 1);
    }
  }

  method Spokes(storages: seq<Storage>, component: seq<Storage>, hub: Storage) returns (spokes: seq<Storage>)
    requires DistinctIds(storages) && IsComponent(storages, component) && hub in component
    ensures DistinctIds(spokes) && IdsInOrder(spokes)
    ensures forall s :: s in spokes <==> s in storages && s.id != hub.id && Connected(storages, hub.id, s.id)
  {
    spokes := [];
    for i := 0 to |component|
      invariant forall s :: s in spokes <==> s in component[..i] && s.id != hub.id
      invariant DistinctIds(spokes) && IdsInOrder(spokes)
    {
      assert component[..i + 1] == component[..i] + [component[i]];
      if component[i].id != hub.id {
        SpokeApart(component, i, spokes);
        spokes := spokes + [component[i]];
      }
    }
    assert component[..|component|] == component;
    hide DistinctIds, IsComponent, Connected;
    forall s ensures s in component <==> s in storages && Connected(storages, hub.id, s.id) {
      MemberIffConnected(storages, component, hub, s);
    }
  }

  lemma MemberIffConnected(storages: seq<Storage>, component: seq<Storage>, hub: Storage, s: Storage)
    requires DistinctIds(storages) && IsComponent(storages, component) && hub in component
    ensures s in component <==> s in storages && Connected(storages, hub.id, s.id)
  {
    if s in component {
      assert s.id in Ids(component);
    }
    if s in storages && Connected(storages, hub.id, s.id) {
      assert s.id in Ids(component);
      var t :| t in component && t.id == s.id;
      var i :| 0 <= i < |storages| && storages[i] == s;
      var j :| 0 <= j < |storages| && storages[j] == t;
      assert i == j;
    }
  }

  ghost predicate CoversPartners(storages: seq<Storage>, components: seq<seq<Storage>>) {
    && (forall k :: 0 <= k < |components| ==> IsComponent(storages, components[k]))
    && (forall k, l :: 0 <= k < l < |components| ==> Ids(components[k]) !! Ids(components[l]))
    && (forall a :: HasPartner(storages, a) <==> exists k :: 0 <= k < |components| && a in Ids(components[k]))
  }

  lemma MemberHasPartner(storages: seq<Storage>, components: seq<seq<Storage>>, k: nat, s: Storage)
    requires CoversPartners(storages, components) && k < |components| && s in components[k]
    ensures HasPartner(storages, s.id)
  {
    assert s.id in Ids(components[k]);
  }

  // More than one component: two objects with partners that no path joins.
  lemma TwoClusters(storages: seq<Storage>, components: seq<seq<Storage>>)
    requires CoversPartners(storages, components) && |components| > 1
    ensures exists a, b :: HasPartner(storages, a) && HasPartner(storages, b) && !Connected(storages, a, b)
  {
    var s, t := components[0][0], components[1][0];
    assert s in components[0] && t in components[1];
    MemberHasPartner(storages, components, 0, s);
    MemberHasPartner(storages, components, 1, t);
    assert t.id in Ids(components[1]);
    assert t.id !in Ids(components[0]);
    assert !Connected(storages, s.id, t.id);
  }

  lemma IdsHave(objects: seq<Storage>, id: Text)
    ensures id in Ids(objects) <==> exists s :: s in objects && s.id == id
  {
  }

  // A single component joins all objects with partners.
  lemma OneCluster(storages: seq<Storage>, components: seq<seq<Storage>>, a: Text, b: Text)
    requires CoversPartners(storages, components) && |components| == 1
    requires HasPartner(storages, a) && HasPartner(storages, b)
    ensures Connected(storages, a, b)
  {
    hide Connected, HasPartner, Ids, Ascending, DistinctIds;
    assert a in Ids(components[0]) && b in Ids(components[0]);
    IdsHave(components[0], a);
    var s :| s in components[0] && s.id == a;
  }

  /** Picks the hub and its spokes: the cluster that holds the named object with that object as the
      hub, or the only cluster with its least id. An empty name counts as none. */
  method ResolvePeriodsTargets(storages: seq<Storage>, fuseTo: Option<Text>)
    returns (r: Result<(Storage, seq<Storage>), PeriodsError>)
    requires DistinctIds(storages)
    ensures r.Ok? ==> HasPartner(storages, r.value.0.id) && IsTarget(storages, r.value.0, r.value.1)
    ensures r.Ok? && fuseTo.GetOr([]) != [] ==> r.value.0.id == fuseTo.value
    ensures r.Ok? && fuseTo.GetOr([]) == [] ==> forall a :: HasPartner(storages, a) ==> Before(r.value.0.id, a)
    ensures r == Err(NotInCluster) <==> fuseTo.GetOr([]) != [] && !HasPartner(storages, fuseTo.value)
    ensures r == Err(NoClusters) <==> fuseTo.GetOr([]) == [] && forall a :: !HasPartner(storages, a)
    ensures r == Err(AmbiguousClusters)
       <==> fuseTo.GetOr([]) == [] && exists a, b :: HasPartner(storages, a) && HasPartner(storages, b) && !Connected(storages, a, b)
  {
    var components := PeriodsComponents(storages);
    assert CoversPartners(storages, components);
    hide CoversPartners, IsComponent, Connected, HasPartner, IsTarget, Before;
    if fuseTo.GetOr([]) != [] {
      r := NamedCluster(storages, components, fuseTo.value);
    } else {
      r := OnlyCluster(storages, components);
    }
  }

  method NamedCluster(storages: seq<Storage>, components: seq<seq<Storage>>, name: Text)
    returns (r: Result<(Storage, seq<Storage>), PeriodsError>)
    requires DistinctIds(storages) && CoversPartners(storages, components)
    ensures r.Err? ==> r.error == NotInCluster
    ensures r == Err(NotInCluster) <==> !HasPartner(storages, name)
    ensures r.Ok? ==> r.value.0.id == name && HasPartner(storages, name) && IsTarget(storages, r.value.0, r.value.1)
  {
    hide IsComponent, Connected, HasPartner, IsTarget, Ids, DistinctIds;
    for i := 0 to |components|
      invariant forall k :: 0 <= k < i ==> name !in Ids(components[k])
    {
      var position := IndexOfId(components[i], name);
      if position.Some? {
        r := HubAndSpokes(storages, components, i, position.value);
        return;
      }
    }
    return Err(NotInCluster);
  }

  method OnlyCluster(storages: seq<Storage>, components: seq<seq<Storage>>)
    returns (r: Result<(Storage, seq<Storage>), PeriodsError>)
    requires DistinctIds(storages) && CoversPartners(storages, components)
    ensures r.Err? ==> r.error == NoClusters || r.error == AmbiguousClusters
    ensures r == Err(NoClusters) <==> forall a :: !HasPartner(storages, a)
    ensures r == Err(AmbiguousClusters)
       <==> exists a, b :: HasPartner(storages, a) && HasPartner(storages, b) && !Connected(storages, a, b)
    ensures r.Ok? ==>
              && HasPartner(storages, r.value.0.id) && IsTarget(storages, r.value.0, r.value.1)
              && forall a :: HasPartner(storages, a) ==> Before(r.value.0.id, a)
  {
    if components == [] {
      return Err(NoClusters);
    }
    if |components| > 1 {
      TwoClusters(storages, components);
      return Err(AmbiguousClusters);
    }
    hide CoversPartners, IsComponent, Connected, HasPartner, IsTarget, Before;
    forall a, b | HasPartner(storages, a) && HasPartner(storages, b) ensures Connected(storages, a, b) {
      OneCluster(storages, components, a, b);
    }
    ComponentNonEmpty(storages, components, 0);
    var position := LeastById(components[0]);
    r := HubAndSpokes(storages, components, 0, position);
    LeastOfAll(storages, components, components[0][position]);
  }

  lemma ComponentNonEmpty(storages: seq<Storage>, components: seq<seq<Storage>>, k: nat)
    requires CoversPartners(storages, components) && k < |components|
    ensures |components[k]| >= 2
  {
  }

  lemma LeastOfAll(storages: seq<Storage>, components: seq<seq<Storage>>, hub: Storage)
    requires CoversPartners(storages, components) && |components| == 1 && hub in components[0]
    requires forall s :: s in components[0] ==> Before(hub.id, s.id)
    ensures forall a :: HasPartner(storages, a) ==> Before(hub.id, a)
  {
    forall a | HasPartner(storages, a) ensures Before(hub.id, a) {
      assert a in Ids(components[0]);
      var s :| s in components[0] && s.id == a;
    }
  }

  method HubAndSpokes(storages: seq<Storage>, components: seq<seq<Storage>>, k: nat, position: nat)
    returns (r: Result<(Storage, seq<Storage>), PeriodsError>)
    requires DistinctIds(storages) && CoversPartners(storages, components)
    requires k < |components| && position < |components[k]|
    ensures r.Ok? && r.value.0 == components[k][position] && HasPartner(storages, r.value.0.id)
    ensures IsTarget(storages, r.value.0, r.value.1)
  {
    var hub := components[k][position];
    assert hub in components[k];
    MemberHasPartner(storages, components, k, hub);
    var spokes := Spokes(storages, components[k], hub);
    return Ok((hub, spokes));
  }

  // The hub with every other object a path joins it to, in id order.
  ghost predicate IsTarget(storages: seq<Storage>, hub: Storage, spokes: seq<Storage>) {
    && hub in storages && DistinctIds(spokes) && IdsInOrder(spokes)
    && (forall s :: s in spokes <==> s in storages && s.id != hub.id && Connected(storages, hub.id, s.id))
  }

  // ----- The whole mode -----

  /** The chain that `--fuse-periods` submits replays on any ledger holding the listed objects: it
      consumes exactly the folded spokes, leaves the final survivor in its predicted state and every
      epoch with its capacity, and no spoke left over could still be folded. */
  lemma PeriodsModeReplays(ledger: Ledger, storages: seq<Storage>, hub: Storage, spokes: seq<Storage>,
                           folded: seq<Storage>, pairs: seq<Call>, remaining: seq<Storage>)
    requires Sound(ledger) && Holds(ledger, storages) && hub.id != []
    requires IsTarget(storages, hub, spokes) && FixedPoint(hub, spokes, folded, pairs, remaining)
    ensures var after := Replay(ledger, pairs);
            && after == Some((ledger - Ids(folded))[hub.id := Survivor(hub, folded)])
            && (forall epoch :: Capacity(after.value, epoch) == Capacity(ledger, epoch))
            && (forall s :: s in remaining ==> s.id in after.value && after.value[s.id] == s)
            && (forall s :: s in remaining ==> Stuck(after.value[hub.id], s))
  {
    forall s | s in folded || s in remaining ensures s in spokes && s in storages && s.id != hub.id {
      assert s in multiset(folded) + multiset(remaining);
      assert s in multiset(spokes);
    }
    FoldedDistinct(spokes, folded, remaining);
    PeriodsAcceptsIsAccepts(hub, folded);
    ChainReplays(ledger, hub, folded);
    forall epoch
      ensures Capacity(Replay(ledger, Calls(hub, folded)).value, epoch) == Capacity(ledger, epoch)
    {
      ReplayConserves(ledger, Calls(hub, folded), epoch);
    }
  }

  lemma FoldedDistinct(spokes: seq<Storage>, folded: seq<Storage>, remaining: seq<Storage>)
    requires DistinctIds(spokes) && multiset(folded) + multiset(remaining) == multiset(spokes)
    ensures DistinctIds(folded)
    ensures forall s :: s in remaining ==> s.id !in Ids(folded)
  {
    var all := folded + remaining;
    assert multiset(all) == multiset(spokes);
    PermutedDistinct(spokes, all);
    forall i, j | 0 <= i < j < |folded| ensures folded[i].id != folded[j].id {
      assert all[i].id != all[j].id;
    }
    forall s | s in remaining ensures s.id !in Ids(folded) {
      var k :| 0 <= k < |remaining| && remaining[k] == s;
      forall t | t in folded ensures t.id != s.id {
        var i :| 0 <= i < |folded| && folded[i] == t;
        assert all[i].id != all[|folded| + k].id;
      }
    }
  }

  lemma PermutedDistinct(a: seq<Storage>, b: seq<Storage>)
    requires DistinctIds(a) && multiset(a) == multiset(b)
    ensures DistinctIds(b)
  {
    forall i, j | 0 <= i < j < |b| ensures b[i].id != b[j].id {
      assert b[i] in multiset(a) && b[j] in multiset(a);
      var p :| 0 <= p < |a| && a[p] == b[i];
      var q :| 0 <= q < |a| && a[q] == b[j];
      if b[i].id == b[j].id {
        assert p == q;
        TwiceCounts(b, i, j);
        AppearsOnce(a, p);
      }
    }
  }

  lemma AppearsOnce(xs: seq<Storage>, p: nat)
    requires DistinctIds(xs) && p < |xs|
    ensures multiset(xs)[xs[p]] == 1
  {
    var before, after := xs[..p], xs[p + 1..];
    assert xs == before + ([xs[p]] + after);
    forall k | 0 <= k < p ensures before[k] != xs[p] {
      assert xs[k].id != xs[p].id;
    }
    forall k | 0 <= k < |after| ensures after[k] != xs[p] {
      assert xs[p].id != xs[p + 1 + k].id;
    }
  }
}
