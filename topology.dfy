/** Topology inference: cells whose congestion correlation reaches the
    threshold (in either direction) are joined by an edge; the connected
    components of that graph, found by breadth-first search, are the shared
    links, numbered `Link_1`, `Link_2`, ... from the largest component down,
    ties broken by the smallest cell id. */
module Topology {
  import opened Seqs
  import opened Strings
  import opened Sorting
  import opened Frames
  import Correlation

  type Matrix = Correlation.Matrix

  /** `infer_topology`'s default correlation threshold. */
  const DefaultThreshold := 0.7

  /** An adjacency dict: each cell's set of neighbours. */
  type Graph = map<CellId, set<CellId>>

  /** Every cell that is an outer or an inner key of the matrix. */
  function AllCells(m: Matrix): (cells: set<CellId>)
    ensures forall a | a in m :: a in cells && m[a].Keys <= cells
    ensures forall c | c in cells :: c in m || exists a :: a in m && c in m[a]
  {
    m.Keys + (set a, b | a in m && b in m[a] :: b)
  }

  /** `corr_value >= threshold` for the pair in one direction or the other. */
  predicate Edge(m: Matrix, threshold: real, a: CellId, b: CellId)
  {
    || (a in m && b in m[a] && m[a][b] >= threshold)
    || (b in m && a in m[b] && m[b][a] >= threshold)
  }

  /** A chain of cells, each joined to the next by an edge. */
  ghost predicate IsChain(m: Matrix, threshold: real, p: seq<CellId>)
  {
    |p| > 0 && forall i :: 0 <= i < |p| - 1 ==> Edge(m, threshold, p[i], p[i + 1])
  }

  /** `a` and `b` are joined by a chain of edges. */
  ghost predicate Connected(m: Matrix, threshold: real, a: CellId, b: CellId)
  {
    exists p :: IsChain(m, threshold, p) && p[0] == a && p[|p| - 1] == b
  }

  /** A walk in an adjacency dict. */
  ghost predicate IsWalk(g: Graph, p: seq<CellId>)
  {
    |p| > 0 && forall i :: 0 <= i < |p| - 1 ==> p[i] in g && p[i + 1] in g[p[i]]
  }

  ghost predicate WalkFromTo(g: Graph, p: seq<CellId>, a: CellId, b: CellId)
  {
    IsWalk(g, p) && p[0] == a && p[|p| - 1] == b
  }

  /** Every neighbour is itself a node. */
  predicate Closed(g: Graph)
  {
    forall x | x in g :: g[x] <= g.Keys
  }

  /** Each edge is recorded in both directions. */
  predicate Symmetric(g: Graph)
  {
    forall x, y | x in g && y in g[x] :: y in g && x in g[y]
  }

  /** The adjacency dict of the matrix at this threshold. */
  ghost predicate IsAdjacency(m: Matrix, threshold: real, g: Graph)
  {
    && g.Keys == AllCells(m)
    && forall x | x in g :: forall y :: y in g[x] <==> Edge(m, threshold, x, y)
  }

  /** `list(all_cells)`: the cells in some order, each once. */
  method ListCells(cells: set<CellId>) returns (order: seq<CellId>)
    ensures Distinct(order)
    ensures forall c :: c in order <==> c in cells
  {
    order := [];
    var rest := cells;
    while rest != {}
      invariant Distinct(order)
      invariant forall c :: c in order <==> c in cells && c !in rest
      invariant rest <= cells
      decreases |rest|
    {
      var c :| c in rest;
      order := order + [c];
      rest := rest - {c};
    }
  }

  /** Edges found among the inner dicts of `done`. */
  ghost predicate EdgeAmong(m: Matrix, threshold: real, done: set<CellId>, x: CellId, y: CellId)
  {
    || (x in done && x in m && y in m[x] && m[x][y] >= threshold)
    || (y in done && y in m && x in m[y] && m[y][x] >= threshold)
  }

  /** Every cell of the matrix has an entry in the adjacency dict. */
  predicate CoversEntries(m: Matrix, adj: Graph)
  {
    forall a | a in m :: a in adj && m[a].Keys <= adj.Keys
  }

  /** The adjacency dict once the inner dicts of `done` have been scanned. */
  ghost predicate ScannedDicts(m: Matrix, threshold: real, done: set<CellId>, adj: Graph)
  {
    && CoversEntries(m, adj)
    && forall x | x in adj :: forall y :: y in adj[x] <==> EdgeAmong(m, threshold, done, x, y)
  }

  /** The adjacency dict after the entries of the `done` inner dicts, and the
      entries of `a`'s inner dict outside `pending`, have been scanned. */
  ghost predicate ScannedUpTo(m: Matrix, threshold: real, done: set<CellId>, a: CellId, pending: set<CellId>, adj: Graph)
    requires a in m
  {
    && CoversEntries(m, adj)
    && forall x | x in adj :: forall y :: y in adj[x] <==>
         || EdgeAmong(m, threshold, done, x, y)
         || (x == a && y in m[a] && y !in pending && m[a][y] >= threshold)
         || (y == a && x in m[a] && x !in pending && m[a][x] >= threshold)
  }

  lemma ScanEntry(m: Matrix, threshold: real, done: set<CellId>, a: CellId, pending: set<CellId>, adj: Graph, b: CellId)
    requires a in m && b in pending && pending <= m[a].Keys
    requires ScannedUpTo(m, threshold, done, a, pending, adj)
    ensures a in adj && b in adj
    ensures var adj' := if m[a][b] >= threshold then adj[a := adj[a] + {b}][b := adj[b] + {a}] else adj;
      adj'.Keys == adj.Keys && ScannedUpTo(m, threshold, done, a, pending - {b}, adj')
  {
    if m[a][b] >= threshold {
      ScanAdd(m, threshold, done, a, pending, adj, b);
    } else {
      ScanSkip(m, threshold, done, a, pending, adj, b);
    }
  }

  /** An entry that reaches the threshold is recorded in both directions. */
  lemma ScanAdd(m: Matrix, threshold: real, done: set<CellId>, a: CellId, pending: set<CellId>, adj: Graph, b: CellId)
    requires a in m && b in pending && pending <= m[a].Keys && m[a][b] >= threshold
    requires ScannedUpTo(m, threshold, done, a, pending, adj)
    ensures a in adj && b in adj
    ensures adj[a := adj[a] + {b}][b := adj[b] + {a}].Keys == adj.Keys
    ensures ScannedUpTo(m, threshold, done, a, pending - {b}, adj[a := adj[a] + {b}][b := adj[b] + {a}])
  {
    var adj' := adj[a := adj[a] + {b}][b := adj[b] + {a}];
    assert adj'.Keys == adj.Keys;
    forall x | x in adj'
      ensures forall y :: y in adj'[x] <==> y in adj[x] || (x == a && y == b) || (x == b && y == a)
    {
      if x == b {
        assert adj'[x] == adj[b] + {a};
      } else if x == a {
        assert adj'[x] == adj[a] + {b};
      } else {
        assert adj'[x] == adj[x];
      }
    }
    forall x | x in adj'
      ensures forall y :: y in adj'[x] <==>
         || EdgeAmong(m, threshold, done, x, y)
         || (x == a && y in m[a] && y !in pending - {b} && m[a][y] >= threshold)
         || (y == a && x in m[a] && x !in pending - {b} && m[a][x] >= threshold)
    {
      forall y
        ensures y in adj'[x] <==>
         || EdgeAmong(m, threshold, done, x, y)
         || (x == a && y in m[a] && y !in pending - {b} && m[a][y] >= threshold)
         || (y == a && x in m[a] && x !in pending - {b} && m[a][x] >= threshold)
      {
        assert y in adj[x] <==>
         || EdgeAmong(m, threshold, done, x, y)
         || (x == a && y in m[a] && y !in pending && m[a][y] >= threshold)
         || (y == a && x in m[a] && x !in pending && m[a][x] >= threshold);
      }
    }
  }

  /** An entry below the threshold changes nothing. */
  lemma ScanSkip(m: Matrix, threshold: real, done: set<CellId>, a: CellId, pending: set<CellId>, adj: Graph, b: CellId)
    requires a in m && b in pending && pending <= m[a].Keys && m[a][b] < threshold
    requires ScannedUpTo(m, threshold, done, a, pending, adj)
    ensures a in adj && b in adj
    ensures ScannedUpTo(m, threshold, done, a, pending - {b}, adj)
  {
  }

  /** The inner loop of the adjacency build: the edges of `a`'s inner dict. */
  method AddEdgesOf(m: Matrix, threshold: real, a: CellId, done: set<CellId>, adj: Graph) returns (adj': Graph)
    requires a in m && a !in done
    requires ScannedDicts(m, threshold, done, adj)
    ensures adj'.Keys == adj.Keys
    ensures ScannedDicts(m, threshold, done + {a}, adj')
  {
    adj' := adj;
    var pending := m[a].Keys;
    StartScan(m, threshold, done, a, adj);
    while pending != {}
      invariant pending <= m[a].Keys
      invariant adj'.Keys == adj.Keys
      invariant ScannedUpTo(m, threshold, done, a, pending, adj')
      decreases |pending|
    {
      var b :| b in pending;
      ScanEntry(m, threshold, done, a, pending, adj', b);
      pending := pending - {b};
      if m[a][b] >= threshold {
        adj' := adj'[a := adj'[a] + {b}];
        adj' := adj'[b := adj'[b] + {a}];
      }
    }
    FinishScan(m, threshold, done, a, adj');
  }

  lemma StartScan(m: Matrix, threshold: real, done: set<CellId>, a: CellId, adj: Graph)
    requires a in m && a !in done
    requires ScannedDicts(m, threshold, done, adj)
    ensures ScannedUpTo(m, threshold, done, a, m[a].Keys, adj)
  {
  }

  lemma FinishScan(m: Matrix, threshold: real, done: set<CellId>, a: CellId, adj: Graph)
    requires a in m
    requires ScannedUpTo(m, threshold, done, a, {}, adj)
    ensures ScannedDicts(m, threshold, done + {a}, adj)
  {
  }

  /** The adjacency build: an empty set per cell, then both directions of
      every entry that reaches the threshold. */
  method BuildAdjacency(m: Matrix, threshold: real) returns (adj: Graph)
    ensures IsAdjacency(m, threshold, adj)
  {
    adj := map c | c in AllCells(m) :: {};
    NothingScanned(m, threshold, adj);
    var done: set<CellId> := {};
    var pending := m.Keys;
    while pending != {}
      invariant Building(m, threshold, done, pending, adj)
      decreases |pending|
    {
      var a :| a in pending;
      var adj' := AddEdgesOf(m, threshold, a, done, adj);
      BuildStep(m, threshold, done, pending, adj, a, adj');
      adj, pending, done := adj', pending - {a}, done + {a};
    }
    EdgesAmongAll(m, threshold, done, adj);
  }

  /** The state of the adjacency build: the inner dicts of `done` are
      scanned and those of `pending` are still to come. */
  ghost predicate Building(m: Matrix, threshold: real, done: set<CellId>, pending: set<CellId>, adj: Graph)
  {
    && pending <= m.Keys && done == m.Keys - pending
    && adj.Keys == AllCells(m)
    && ScannedDicts(m, threshold, done, adj)
  }

  /** Scanning one more inner dict moves its cell from `pending` to `done`. */
  lemma BuildStep(m: Matrix, threshold: real, done: set<CellId>, pending: set<CellId>, adj: Graph, a: CellId, adj': Graph)
    requires Building(m, threshold, done, pending, adj) && a in pending
    requires adj'.Keys == adj.Keys && ScannedDicts(m, threshold, done + {a}, adj')
    ensures Building(m, threshold, done + {a}, pending - {a}, adj')
  {
    MoveToDone(m.Keys, done, pending, a);
  }

  lemma NothingScanned(m: Matrix, threshold: real, adj: Graph)
    requires adj == map c | c in AllCells(m) :: {}
    ensures Building(m, threshold, {}, m.Keys, adj)
  {
  }

  lemma EdgesAmongAll(m: Matrix, threshold: real, done: set<CellId>, adj: Graph)
    requires Building(m, threshold, done, {}, adj)
    ensures IsAdjacency(m, threshold, adj)
  {
    assert done == m.Keys;
  }

  /** Every queued cell is a node reached by its recorded walk from `root`. */
  ghost predicate QueueReached(g: Graph, root: CellId, queue: seq<CellId>, walks: map<CellId, seq<CellId>>)
  {
    forall j :: 0 <= j < |queue| ==> queue[j] in g && queue[j] in walks && WalkFromTo(g, walks[queue[j]], root, queue[j])
  }

  /** Every collected cell is reached by its recorded walk from `root`. */
  ghost predicate ComponentReached(g: Graph, root: CellId, component: seq<CellId>, walks: map<CellId, seq<CellId>>)
  {
    forall x | x in component :: x in walks && WalkFromTo(g, walks[x], root, x)
  }

  /** Every neighbour of a collected cell is visited or waiting in the queue. */
  ghost predicate FrontierCovered(g: Graph, component: seq<CellId>, visited: set<CellId>, queue: seq<CellId>)
    requires forall x | x in component :: x in g
  {
    forall x | x in component :: forall y | y in g[x] :: y in visited || y in queue
  }

  /** `for neighbor in adjacency[current]: if neighbor not in visited: queue.append(neighbor)`. */
  method EnqueueNeighbors(g: Graph, root: CellId, current: CellId, visited: set<CellId>,
                          queue: seq<CellId>, ghost walks: map<CellId, seq<CellId>>)
    returns (queue': seq<CellId>, ghost walks': map<CellId, seq<CellId>>)
    requires Closed(g) && current in g && current in visited
    requires current in walks && WalkFromTo(g, walks[current], root, current)
    requires QueueReached(g, root, queue, walks)
    ensures QueueReached(g, root, queue', walks')
    ensures forall x | x in walks && x in visited :: x in walks' && walks'[x] == walks[x]
    ensures |queue| <= |queue'| && queue'[..|queue|] == queue
    ensures forall y | y in g[current] :: y in visited || y in queue'
  {
    queue' := queue;
    walks' := walks;
    var pending := g[current];
    while pending != {}
      invariant pending <= g[current]
      invariant current in walks' && walks'[current] == walks[current]
      invariant QueueReached(g, root, queue', walks')
      invariant forall x | x in walks && x in visited :: x in walks' && walks'[x] == walks[x]
      invariant |queue| <= |queue'| && queue'[..|queue|] == queue
      invariant forall y | y in g[current] && y !in pending :: y in visited || y in queue'
      decreases |pending|
    {
      var neighbor :| neighbor in pending;
      pending := pending - {neighbor};
      if neighbor !in visited {
        WalkExtend(g, walks[current], root, current, neighbor);
        walks' := walks'[neighbor := walks[current] + [neighbor]];
        queue' := queue' + [neighbor];
      }
    }
  }

  /** The loop invariant of the search from `root`. */
  ghost predicate BfsInvariant(g: Graph, root: CellId, visited0: set<CellId>, component: seq<CellId>,
                               visited: set<CellId>, queue: seq<CellId>, walks: map<CellId, seq<CellId>>)
  {
    && Closed(g)
    && root in g && root !in visited0
    && visited0 <= visited <= g.Keys
    && Distinct(component)
    && (forall x :: x in component <==> x in visited && x !in visited0)
    && (component == [] ==> queue == [root] && visited == visited0)
    && (component != [] ==> component[0] == root)
    && QueueReached(g, root, queue, walks)
    && ComponentReached(g, root, component, walks)
    && FrontierCovered(g, component, visited, queue)
  }

  /** One breadth-first search from `root` over the cells not yet visited: the
      component it collects, the new visited set, and (for the proof) a walk
      from `root` to each collected cell. */
  method Bfs(g: Graph, root: CellId, visited0: set<CellId>)
    returns (component: seq<CellId>, visited: set<CellId>, ghost walks: map<CellId, seq<CellId>>)
    requires Closed(g)
    requires root in g && root !in visited0 && visited0 <= g.Keys
    ensures |component| > 0 && component[0] == root
    ensures Distinct(component)
    ensures forall x :: x in component <==> x in visited && x !in visited0
    ensures visited0 <= visited <= g.Keys
    ensures forall x | x in component :: x in g && g[x] <= visited
    ensures ComponentReached(g, root, component, walks)
  {
    component := [];
    visited := visited0;
    var queue := [root];
    walks := map[root := [root]];
    while queue != []
      invariant BfsInvariant(g, root, visited0, component, visited, queue, walks)
      decreases |g.Keys - visited|, |queue|
    {
      var current := queue[0];
      ghost var queue0 := queue;
      queue := queue[1..];
      if current in visited {
        SkipVisited(g, root, visited0, component, visited, queue0, walks);
        continue;
      }
      ghost var before := visited;
      ghost var component0 := component;
      visited := visited + {current};
      component := component + [current];
      assert g.Keys - before == (g.Keys - visited) + {current};
      ghost var walks0 := walks;
      queue, walks := EnqueueNeighbors(g, root, current, visited, queue, walks);
      VisitPreserves(g, root, visited0, component0, current, before, queue0, walks0, queue, walks);
    }
  }

  /** Popping a cell that is already visited keeps the invariant. */
  lemma SkipVisited(g: Graph, root: CellId, visited0: set<CellId>, component: seq<CellId>,
                    visited: set<CellId>, queue0: seq<CellId>, walks: map<CellId, seq<CellId>>)
    requires |queue0| > 0 && queue0[0] in visited
    requires BfsInvariant(g, root, visited0, component, visited, queue0, walks)
    ensures BfsInvariant(g, root, visited0, component, visited, queue0[1..], walks)
  {
    forall x | x in component ensures forall y | y in g[x] :: y in visited || y in queue0[1..] {
      forall y | y in g[x] ensures y in visited || y in queue0[1..] {
        if y !in visited {
          var j :| 0 <= j < |queue0| && queue0[j] == y;
          assert queue0[1..][j - 1] == y;
        }
      }
    }
  }

  /** Visiting `current` (popped from the front of `queue0`) and enqueueing its
      unvisited neighbours keeps every collected cell reached and every
      neighbour of one visited or queued. */
  lemma VisitPreserves(g: Graph, root: CellId, visited0: set<CellId>, component0: seq<CellId>, current: CellId,
                       before: set<CellId>, queue0: seq<CellId>, walks0: map<CellId, seq<CellId>>,
                       queue: seq<CellId>, walks: map<CellId, seq<CellId>>)
    requires |queue0| > 0 && queue0[0] == current && current !in before
    requires BfsInvariant(g, root, visited0, component0, before, queue0, walks0)
    requires QueueReached(g, root, queue, walks)
    requires forall x | x in walks0 && x in before + {current} :: x in walks && walks[x] == walks0[x]
    requires |queue0| - 1 <= |queue| && queue[..|queue0| - 1] == queue0[1..]
    requires forall y | y in g[current] :: y in before + {current} || y in queue
    ensures BfsInvariant(g, root, visited0, component0 + [current], before + {current}, queue, walks)
  {
    forall x | x in component0 + [current] ensures x in walks && WalkFromTo(g, walks[x], root, x) {
      assert x in component0 || x == current;
    }
    forall x | x in component0 + [current] ensures forall y | y in g[x] :: y in before + {current} || y in queue {
      if x != current {
        assert x in component0;
        forall y | y in g[x] ensures y in before + {current} || y in queue {
          if y !in before && y != current {
            var j :| 0 <= j < |queue0| && queue0[j] == y;
            assert queue[j - 1] == y;
          }
        }
      }
    }
  }

  lemma WalkExtend(g: Graph, p: seq<CellId>, a: CellId, b: CellId, c: CellId)
    requires WalkFromTo(g, p, a, b) && b in g && c in g[b]
    ensures WalkFromTo(g, p + [c], a, c)
  {
  }

  /** `owner[x]` is the position of the one component that holds `x`. */
  ghost predicate OwnersIndexed(components: seq<seq<CellId>>, owner: map<CellId, nat>)
  {
    && (forall x | x in owner :: owner[x] < |components| && x in components[owner[x]])
    && (forall k, x | 0 <= k < |components| && x in components[k] :: x in owner && owner[x] == k)
  }

  /** Neighbours of a visited cell are visited and in the same component. */
  ghost predicate OwnersClosed(g: Graph, visited: set<CellId>, owner: map<CellId, nat>)
    requires owner.Keys == visited <= g.Keys
  {
    forall x | x in owner :: g[x] <= visited && forall y | y in g[x] :: owner[y] == owner[x]
  }

  /** Each visited cell has a walk from the first cell of its component. */
  ghost predicate WalksFromFirst(g: Graph, components: seq<seq<CellId>>, owner: map<CellId, nat>,
                                 walks: map<CellId, seq<CellId>>)
    requires forall k | 0 <= k < |components| :: |components[k]| > 0
    requires forall x | x in owner :: owner[x] < |components|
  {
    forall x | x in owner :: x in walks && WalkFromTo(g, walks[x], components[owner[x]][0], x)
  }

  /** The components found so far: `owner` says which component each visited
      cell is in; components are closed under neighbours, and each cell has a
      walk from its component's first cell. */
  ghost predicate ComponentsSoFar(g: Graph, components: seq<seq<CellId>>, visited: set<CellId>,
                                  owner: map<CellId, nat>, walks: map<CellId, seq<CellId>>)
  {
    && Closed(g) && Symmetric(g)
    && visited <= g.Keys
    && owner.Keys == visited
    && (forall k | 0 <= k < |components| :: |components[k]| > 0 && Distinct(components[k]))
    && OwnersIndexed(components, owner)
    && OwnersClosed(g, visited, owner)
    && WalksFromFirst(g, components, owner, walks)
  }

  /** `for cell in all_cells: if cell in visited: continue; ... components.append(component)`. */
  method FindComponents(g: Graph, order: seq<CellId>)
    returns (components: seq<seq<CellId>>, ghost owner: map<CellId, nat>, ghost walks: map<CellId, seq<CellId>>)
    requires Closed(g) && Symmetric(g)
    requires forall c :: c in order <==> c in g
    ensures ComponentsSoFar(g, components, g.Keys, owner, walks)
    ensures IsPartition(g, components)
  {
    components := [];
    var visited: set<CellId> := {};
    owner := map[];
    walks := map[];
    for i := 0 to |order|
      invariant ComponentsSoFar(g, components, visited, owner, walks)
      invariant forall j :: 0 <= j < i ==> order[j] in visited
    {
      var cell := order[i];
      if cell in visited {
        VisitedPrefix(order, i, visited, visited);
        continue;
      }
      var component, visited', walksFromCell := Bfs(g, cell, visited);
      VisitedPrefix(order, i, visited, visited');
      owner, walks := AddComponent(g, components, visited, owner, walks, component, visited', walksFromCell);
      components := components + [component];
      visited := visited';
    }
    assert visited == g.Keys by {
      forall c | c in g ensures c in visited {
        var j :| 0 <= j < |order| && order[j] == c;
      }
    }
    ComponentsArePartition(g, components, owner, walks);
  }

  /** A visit that keeps what was visited and reaches `order[i]` extends the
      visited prefix of `order` by one. */
  lemma VisitedPrefix(order: seq<CellId>, i: nat, visited: set<CellId>, visited': set<CellId>)
    requires i < |order| && visited <= visited' && order[i] in visited'
    requires forall j :: 0 <= j < i ==> order[j] in visited
    ensures forall j :: 0 <= j < i + 1 ==> order[j] in visited'
  {
  }

  /** The bookkeeping for a finished search: its cells belong to a new component
      at the end of the list, which is closed under neighbours. */
  ghost method AddComponent(g: Graph, components: seq<seq<CellId>>, visited: set<CellId>,
                            owner: map<CellId, nat>, walks: map<CellId, seq<CellId>>,
                            component: seq<CellId>, visited': set<CellId>, walksFromCell: map<CellId, seq<CellId>>)
    returns (owner': map<CellId, nat>, walks': map<CellId, seq<CellId>>)
    requires ComponentsSoFar(g, components, visited, owner, walks)
    requires |component| > 0 && Distinct(component)
    requires forall x :: x in component <==> x in visited' && x !in visited
    requires visited <= visited' <= g.Keys
    requires forall x | x in component :: x in g && g[x] <= visited'
    requires ComponentReached(g, component[0], component, walksFromCell)
    ensures ComponentsSoFar(g, components + [component], visited', owner', walks')
  {
    var components' := components + [component];
    owner' := owner;
    walks' := walks;
    for i := 0 to |component|
      invariant owner'.Keys == visited + set j | 0 <= j < i :: component[j]
      invariant forall x | x in owner :: owner'[x] == owner[x]
      invariant forall j | 0 <= j < i :: owner'[component[j]] == |components|
      invariant forall x | x in owner' :: x in walks'
      invariant forall x | x in owner :: walks'[x] == walks[x]
      invariant forall j | 0 <= j < i :: walks'[component[j]] == walksFromCell[component[j]]
    {
      owner' := owner'[component[i] := |components|];
      walks' := walks'[component[i] := walksFromCell[component[i]]];
    }
    NewComponentSoFar(g, components, visited, owner, walks, component, visited', walksFromCell, owner', walks');
  }

  /** Once every cell of the new component is entered, the bookkeeping holds
      for the extended list of components. */
  lemma NewComponentSoFar(g: Graph, components: seq<seq<CellId>>, visited: set<CellId>,
                          owner: map<CellId, nat>, walks: map<CellId, seq<CellId>>,
                          component: seq<CellId>, visited': set<CellId>, walksFromCell: map<CellId, seq<CellId>>,
                          owner': map<CellId, nat>, walks': map<CellId, seq<CellId>>)
    requires ComponentsSoFar(g, components, visited, owner, walks)
    requires |component| > 0 && Distinct(component)
    requires forall x :: x in component <==> x in visited' && x !in visited
    requires visited <= visited' <= g.Keys
    requires forall x | x in component :: x in g && g[x] <= visited'
    requires ComponentReached(g, component[0], component, walksFromCell)
    requires owner'.Keys == visited + set j | 0 <= j < |component| :: component[j]
    requires forall x | x in owner :: owner'[x] == owner[x]
    requires forall j | 0 <= j < |component| :: owner'[component[j]] == |components|
    requires forall x | x in owner' :: x in walks'
    requires forall x | x in owner :: walks'[x] == walks[x]
    requires forall j | 0 <= j < |component| :: walks'[component[j]] == walksFromCell[component[j]]
    ensures ComponentsSoFar(g, components + [component], visited', owner', walks')
  {
    assert owner'.Keys == visited' by {
      forall x | x in visited' && x !in visited ensures x in owner'.Keys {
        var j :| 0 <= j < |component| && component[j] == x;
      }
    }
    NewComponentIndexed(components, owner, component, owner');
    NewComponentClosed(g, visited, owner, component, visited', owner', |components|);
    NewComponentWalks(g, components, owner, walks, component, walksFromCell, owner', walks');
  }

  lemma NewComponentIndexed(components: seq<seq<CellId>>, owner: map<CellId, nat>,
                            component: seq<CellId>, owner': map<CellId, nat>)
    requires OwnersIndexed(components, owner)
    requires forall x | x in owner :: x in owner' && owner'[x] == owner[x]
    requires forall x | x in component :: x in owner' && owner'[x] == |components|
    requires forall x | x in owner' :: x in owner || x in component
    requires forall x | x in component :: x !in owner
    ensures OwnersIndexed(components + [component], owner')
  {
  }

  lemma NewComponentClosed(g: Graph, visited: set<CellId>, owner: map<CellId, nat>,
                           component: seq<CellId>, visited': set<CellId>, owner': map<CellId, nat>, k: nat)
    requires Symmetric(g)
    requires owner.Keys == visited <= g.Keys && OwnersClosed(g, visited, owner)
    requires owner'.Keys == visited' <= g.Keys
    requires forall x :: x in component <==> x in visited' && x !in visited
    requires forall x | x in component :: x in g && g[x] <= visited'
    requires forall x | x in owner :: x in owner' && owner'[x] == owner[x]
    requires forall x | x in component :: x in owner' && owner'[x] == k
    ensures OwnersClosed(g, visited', owner')
  {
  }

  lemma NewComponentWalks(g: Graph, components: seq<seq<CellId>>, owner: map<CellId, nat>, walks: map<CellId, seq<CellId>>,
                          component: seq<CellId>, walksFromCell: map<CellId, seq<CellId>>,
                          owner': map<CellId, nat>, walks': map<CellId, seq<CellId>>)
    requires forall k | 0 <= k < |components| :: |components[k]| > 0
    requires |component| > 0
    requires forall x | x in owner :: owner[x] < |components|
    requires WalksFromFirst(g, components, owner, walks)
    requires ComponentReached(g, component[0], component, walksFromCell)
    requires forall x | x in owner' :: x in owner || x in component
    requires forall x | x in owner :: x in owner' && owner'[x] == owner[x] && x in walks' && walks'[x] == walks[x]
    requires forall x | x in component :: x !in owner && x in owner' && owner'[x] == |components| && x in walks' && x in walksFromCell && walks'[x] == walksFromCell[x]
    requires forall x | x in owner' :: owner'[x] < |components| + 1
    ensures WalksFromFirst(g, components + [component], owner', walks')
  {
    var components' := components + [component];
    forall x | x in owner' ensures x in walks' && WalkFromTo(g, walks'[x], components'[owner'[x]][0], x) {
      if x in owner {
        assert components'[owner'[x]] == components[owner[x]];
      }
    }
  }

  /** `min(component)` under Python's string order. */
  function MinCell(c: seq<CellId>): (least: CellId)
    requires |c| > 0
    ensures least in c
    ensures forall i :: 0 <= i < |c| ==> LexLe(least, c[i])
  {
    if |c| == 1 then
      LexLeReflexive(c[0]);
      c[0]
    else
      var rest := MinCell(c[..|c| - 1]);
      var last := c[|c| - 1];
      assert c[..|c| - 1] + [last] == c;
      LexLeReflexive(last);
      if LexLe(last, rest) then
        assert forall i :: 0 <= i < |c| - 1 ==> LexLe(last, c[i]) by {
          forall i | 0 <= i < |c| - 1 ensures LexLe(last, c[i]) {
            assert c[i] == c[..|c| - 1][i];
            LexLeTransitive(last, rest, c[i]);
          }
        }
        last
      else
        LexLeTotal(last, rest);
        assert forall i :: 0 <= i < |c| - 1 ==> LexLe(rest, c[i]) by {
          forall i | 0 <= i < |c| - 1 ensures LexLe(rest, c[i]) {
            assert c[i] == c[..|c| - 1][i];
          }
        }
        rest
  }

  /** The order of `components.sort(key=lambda c: (-len(c), min(c)))`. */
  predicate ComponentOrder(c1: seq<CellId>, c2: seq<CellId>)
  {
    || |c1| > |c2|
    || (|c1| == |c2| && (|c1| == 0 || LexLe(MinCell(c1), MinCell(c2))))
  }

  lemma ComponentOrderIsTotalPreorder()
    ensures TotalPreorder(ComponentOrder)
  {
    forall c1: seq<CellId>, c2: seq<CellId> ensures ComponentOrder(c1, c2) || ComponentOrder(c2, c1) {
      if |c1| == |c2| && |c1| > 0 { LexLeTotal(MinCell(c1), MinCell(c2)); }
    }
    forall c1: seq<CellId>, c2: seq<CellId>, c3: seq<CellId> | ComponentOrder(c1, c2) && ComponentOrder(c2, c3)
      ensures ComponentOrder(c1, c3)
    {
      if |c1| == |c2| == |c3| && |c1| > 0 { LexLeTransitive(MinCell(c1), MinCell(c2), MinCell(c3)); }
    }
  }

  /** `f"Link_{link_index}"`. */
  function LinkLabel(k: nat): string
  {
    "Link_" + NatToString(k)
  }

  lemma LinkLabelInjective(j: nat, k: nat)
    requires LinkLabel(j) == LinkLabel(k)
    ensures j == k
  {
    assert NatToString(j) == LinkLabel(j)[5..] && NatToString(k) == LinkLabel(k)[5..];
    NatToStringInjective(j, k);
  }

  /** `for cell in component: cell_to_link[cell] = link_label`. */
  method AssignLabel(links: map<CellId, string>, component: seq<CellId>, linkLabel: string)
    returns (links': map<CellId, string>)
    ensures forall x :: x in links' <==> x in links || x in component
    ensures forall x | x in links' :: links'[x] == (if x in component then linkLabel else links[x])
  {
    links' := links;
    for i := 0 to |component|
      invariant forall x :: x in links' <==> x in links || x in component[..i]
      invariant forall x | x in links' :: links'[x] == (if x in component[..i] then linkLabel else links[x])
    {
      assert component[..i + 1] == component[..i] + [component[i]];
      links' := links'[component[i] := linkLabel];
    }
    assert component[..|component|] == component;
  }

  /** Components before position `k` are labelled; `index` records each
      labelled cell's component. */
  ghost predicate LabelledUpTo(components: seq<seq<CellId>>, k: nat, links: map<CellId, string>, index: map<CellId, nat>)
    requires k <= |components|
  {
    && index.Keys == links.Keys
    && (forall x | x in links :: index[x] < k && x in components[index[x]] && links[x] == LinkLabel(index[x] + 1))
    && (forall j, x | 0 <= j < k && x in components[j] :: x in links)
  }

  lemma LabelStep(components: seq<seq<CellId>>, k: nat, links: map<CellId, string>, index: map<CellId, nat>,
                  links': map<CellId, string>)
    requires k < |components| && LabelledUpTo(components, k, links, index)
    requires forall x :: x in links' <==> x in links || x in components[k]
    requires forall x | x in links' :: links'[x] == (if x in components[k] then LinkLabel(k + 1) else links[x])
    ensures LabelledUpTo(components, k + 1, links', map x | x in links' :: if x in components[k] then k else index[x])
  {
  }

  /** `for link_index, component in enumerate(components, start=1): ...`. */
  method LabelComponents(components: seq<seq<CellId>>) returns (links: map<CellId, string>)
    ensures forall k, x | 0 <= k < |components| && x in components[k] :: x in links
    ensures forall x | x in links :: exists k :: 0 <= k < |components| && x in components[k] && links[x] == LinkLabel(k + 1)
  {
    links := map[];
    ghost var index: map<CellId, nat> := map[];
    for k := 0 to |components|
      invariant LabelledUpTo(components, k, links, index)
    {
      var links' := AssignLabel(links, components[k], LinkLabel(k + 1));
      LabelStep(components, k, links, index, links');
      index := map x | x in links' :: if x in components[k] then k else index[x];
      links := links';
    }
  }

  ghost predicate Reachable(g: Graph, x: CellId, y: CellId)
  {
    exists p :: WalkFromTo(g, p, x, y)
  }

  /** The components split the nodes into duplicate-free groups, each closed
      under neighbours and internally reachable. */
  ghost predicate IsPartition(g: Graph, comps: seq<seq<CellId>>)
  {
    && Distinct(comps)
    && (forall c | c in comps :: |c| > 0 && Distinct(c))
    && (forall c, x | c in comps && x in c :: x in g && forall y | y in g[x] :: y in c)
    && (forall c, x, y | c in comps && x in c && y in c :: Reachable(g, x, y))
    && (forall c1, c2, x | c1 in comps && c2 in comps && x in c1 && x in c2 :: c1 == c2)
    && (forall x | x in g :: exists c :: c in comps && x in c)
  }

  lemma WalkReverse(g: Graph, p: seq<CellId>, a: CellId, b: CellId) returns (q: seq<CellId>)
    requires Symmetric(g) && WalkFromTo(g, p, a, b)
    ensures WalkFromTo(g, q, b, a)
  {
    q := seq(|p|, i requires 0 <= i < |p| => p[|p| - 1 - i]);
    forall i | 0 <= i < |q| - 1 ensures q[i] in g && q[i + 1] in g[q[i]] {
      var j := |p| - 2 - i;
      assert q[i] == p[j + 1] && q[i + 1] == p[j];
      assert p[j] in g && p[j + 1] in g[p[j]];
    }
  }

  lemma WalkConcat(g: Graph, p: seq<CellId>, q: seq<CellId>, a: CellId, b: CellId, c: CellId)
    requires WalkFromTo(g, p, a, b) && WalkFromTo(g, q, b, c)
    ensures WalkFromTo(g, p + q[1..], a, c)
  {
    var r := p + q[1..];
    forall i | 0 <= i < |r| - 1 ensures r[i] in g && r[i + 1] in g[r[i]] {
      if i < |p| - 1 {
        assert r[i] == p[i] && r[i + 1] == p[i + 1];
      } else {
        var j := i - |p| + 1;
        assert r[i] == q[j] && r[i + 1] == q[j + 1];
      }
    }
  }

  /** Two cells of the same search share its first cell as a walk's origin. */
  lemma ReachableViaRoot(g: Graph, root: CellId, px: seq<CellId>, py: seq<CellId>, x: CellId, y: CellId)
    requires Symmetric(g) && WalkFromTo(g, px, root, x) && WalkFromTo(g, py, root, y)
    ensures Reachable(g, x, y)
  {
    var back := WalkReverse(g, px, root, x);
    WalkConcat(g, back, py, x, root, y);
  }

  lemma ComponentsArePartition(g: Graph, components: seq<seq<CellId>>, owner: map<CellId, nat>,
                               walks: map<CellId, seq<CellId>>)
    requires ComponentsSoFar(g, components, g.Keys, owner, walks)
    ensures IsPartition(g, components)
  {
    forall i, j | 0 <= i < j < |components| ensures components[i] != components[j] {
      var x := components[i][0];
      assert owner[x] == i;
    }
    forall c, x | c in components && x in c ensures x in g && forall y | y in g[x] :: y in c {
      var k :| 0 <= k < |components| && components[k] == c;
      assert owner[x] == k;
    }
    forall c, x, y | c in components && x in c && y in c ensures Reachable(g, x, y) {
      var k :| 0 <= k < |components| && components[k] == c;
      assert owner[x] == k && owner[y] == k;
      ReachableViaRoot(g, c[0], walks[x], walks[y], x, y);
    }
    forall c1, c2, x | c1 in components && c2 in components && x in c1 && x in c2 ensures c1 == c2 {
      var i :| 0 <= i < |components| && components[i] == c1;
      var j :| 0 <= j < |components| && components[j] == c2;
      assert owner[x] == i && owner[x] == j;
    }
    forall x | x in g ensures exists c :: c in components && x in c {
      assert components[owner[x]] in components;
    }
  }

  /** Reordering the components keeps them a partition. */
  lemma PartitionPermutation(g: Graph, comps: seq<seq<CellId>>, sorted: seq<seq<CellId>>)
    requires IsPartition(g, comps) && multiset(comps) == multiset(sorted)
    ensures IsPartition(g, sorted)
  {
    PermutationMembers(comps, sorted);
    DistinctPermutation(comps, sorted);
    forall x | x in g ensures exists c :: c in sorted && x in c {
      var c :| c in comps && x in c;
    }
  }

  /** In a partition a cell lies in exactly one position. */
  lemma PartitionPosition(g: Graph, comps: seq<seq<CellId>>, i: int, j: int, x: CellId)
    requires IsPartition(g, comps)
    requires 0 <= i < |comps| && 0 <= j < |comps| && x in comps[i] && x in comps[j]
    ensures i == j
  {
    assert comps[i] == comps[j];
  }

  lemma AdjacencyShape(m: Matrix, threshold: real, g: Graph)
    requires IsAdjacency(m, threshold, g)
    ensures Closed(g) && Symmetric(g)
    ensures forall x, y :: Edge(m, threshold, x, y) ==> x in g && y in g[x]
  {
  }

  /** A walk over the adjacency dict is exactly a chain of threshold edges. */
  lemma WalkIffChain(m: Matrix, threshold: real, g: Graph, p: seq<CellId>)
    requires IsAdjacency(m, threshold, g)
    ensures IsWalk(g, p) <==> IsChain(m, threshold, p)
  {
    AdjacencyShape(m, threshold, g);
    if IsWalk(g, p) {
      forall i | 0 <= i < |p| - 1 ensures Edge(m, threshold, p[i], p[i + 1]) {
        assert p[i] in g && p[i + 1] in g[p[i]];
      }
    }
    if IsChain(m, threshold, p) {
      forall i | 0 <= i < |p| - 1 ensures p[i] in g && p[i + 1] in g[p[i]] {
        assert Edge(m, threshold, p[i], p[i + 1]);
      }
    }
  }

  /** What `infer_topology` returns: each cell of the matrix labelled with the
      position (from 1) of its component in `comps`; the components are
      duplicate-free, internally connected, closed under edges, and ordered
      by size (largest first), then by smallest cell id. */
  ghost predicate IsTopology(m: Matrix, threshold: real, links: map<CellId, string>, comps: seq<seq<CellId>>)
  {
    && links.Keys == AllCells(m)
    && (forall k | 0 <= k < |comps| :: |comps[k]| > 0 && Distinct(comps[k]))
    && LabelledByPosition(links, comps)
    && ComponentsConnected(m, threshold, comps)
    && ComponentsClosed(m, threshold, comps)
    && ComponentsOrdered(comps)
  }

  /** Every cell of `comps[k]` is labelled `Link_<k + 1>`, and every labelled cell is in some component. */
  ghost predicate LabelledByPosition(links: map<CellId, string>, comps: seq<seq<CellId>>)
  {
    && (forall k, x | 0 <= k < |comps| && x in comps[k] :: x in links && links[x] == LinkLabel(k + 1))
    && (forall x | x in links :: exists k :: 0 <= k < |comps| && x in comps[k])
  }

  ghost predicate ComponentsConnected(m: Matrix, threshold: real, comps: seq<seq<CellId>>)
  {
    forall k, x, y | 0 <= k < |comps| && x in comps[k] && y in comps[k] :: Connected(m, threshold, x, y)
  }

  ghost predicate ComponentsClosed(m: Matrix, threshold: real, comps: seq<seq<CellId>>)
  {
    forall k, x, y | 0 <= k < |comps| && x in comps[k] && Edge(m, threshold, x, y) :: y in comps[k]
  }

  /** Larger components first; among equal sizes, the smaller least cell id first. */
  ghost predicate ComponentsOrdered(comps: seq<seq<CellId>>)
    requires forall k | 0 <= k < |comps| :: |comps[k]| > 0
  {
    forall i, j | 0 <= i < j < |comps| ::
      || |comps[i]| > |comps[j]|
      || (|comps[i]| == |comps[j]| && LexLt(MinCell(comps[i]), MinCell(comps[j])))
  }

  /** `all_cells = set(keys)` updated with every inner dict's keys. */
  method CollectCells(m: Matrix) returns (cells: set<CellId>)
    ensures cells == AllCells(m)
  {
    cells := m.Keys;
    var pending := m.Keys;
    while pending != {}
      invariant pending <= m.Keys
      invariant m.Keys <= cells <= AllCells(m)
      invariant forall a | a in m && a !in pending :: m[a].Keys <= cells
      decreases |pending|
    {
      var a :| a in pending;
      cells := cells + m[a].Keys;
      pending := pending - {a};
    }
  }

  /** `infer_topology(correlation_matrix, threshold)`. The iteration order of
      Python's sets and dicts is left open: every choice satisfies the
      contract. */
  method InferTopology(m: Matrix, threshold: real := DefaultThreshold) returns (links: map<CellId, string>, ghost comps: seq<seq<CellId>>)
    ensures IsTopology(m, threshold, links, comps)
    ensures links.Keys == AllCells(m)
    ensures forall x, y | x in links && y in links :: links[x] == links[y] <==> Connected(m, threshold, x, y)
  {
    var cells := CollectCells(m);
    var order := ListCells(cells);
    var adjacency := BuildAdjacency(m, threshold);
    AdjacencyShape(m, threshold, adjacency);
    var components, owner, walks := FindComponents(adjacency, order);
    ComponentOrderIsTotalPreorder();
    var sorted := Sort(components, ComponentOrder);
    PartitionPermutation(adjacency, components, sorted);
    links := LabelComponents(sorted);
    comps := sorted;
    TopologyOfPartition(m, threshold, adjacency, sorted, links);
    forall x, y | x in links && y in links ensures links[x] == links[y] <==> Connected(m, threshold, x, y) {
      SameLinkIffConnected(m, threshold, links, comps, x, y);
    }
  }

  lemma TopologyOfPartition(m: Matrix, threshold: real, g: Graph, sorted: seq<seq<CellId>>, links: map<CellId, string>)
    requires IsAdjacency(m, threshold, g)
    requires IsPartition(g, sorted) && SortedBy(sorted, ComponentOrder)
    requires forall k, x | 0 <= k < |sorted| && x in sorted[k] :: x in links
    requires forall x | x in links :: exists k :: 0 <= k < |sorted| && x in sorted[k] && links[x] == LinkLabel(k + 1)
    ensures IsTopology(m, threshold, links, sorted)
  {
    PartitionKeys(m, threshold, g, sorted, links);
    PartitionLabels(g, sorted, links);
    PartitionConnected(m, threshold, g, sorted);
    PartitionClosed(m, threshold, g, sorted);
    PartitionOrder(g, sorted);
  }

  lemma PartitionKeys(m: Matrix, threshold: real, g: Graph, sorted: seq<seq<CellId>>, links: map<CellId, string>)
    requires IsAdjacency(m, threshold, g) && IsPartition(g, sorted)
    requires forall k, x | 0 <= k < |sorted| && x in sorted[k] :: x in links
    requires forall x | x in links :: exists k :: 0 <= k < |sorted| && x in sorted[k] && links[x] == LinkLabel(k + 1)
    ensures links.Keys == AllCells(m)
  {
    forall x | x in links ensures x in AllCells(m) {
      var k :| 0 <= k < |sorted| && x in sorted[k] && links[x] == LinkLabel(k + 1);
      assert sorted[k] in sorted;
    }
    forall x | x in AllCells(m) ensures x in links {
      var c :| c in sorted && x in c;
      var k :| 0 <= k < |sorted| && sorted[k] == c;
    }
  }

  lemma PartitionLabels(g: Graph, sorted: seq<seq<CellId>>, links: map<CellId, string>)
    requires IsPartition(g, sorted)
    requires forall k, x | 0 <= k < |sorted| && x in sorted[k] :: x in links
    requires forall x | x in links :: exists k :: 0 <= k < |sorted| && x in sorted[k] && links[x] == LinkLabel(k + 1)
    ensures forall k | 0 <= k < |sorted| :: |sorted[k]| > 0 && Distinct(sorted[k])
    ensures forall k, x | 0 <= k < |sorted| && x in sorted[k] :: x in links && links[x] == LinkLabel(k + 1)
    ensures forall x | x in links :: exists k :: 0 <= k < |sorted| && x in sorted[k]
  {
    forall k | 0 <= k < |sorted| ensures |sorted[k]| > 0 && Distinct(sorted[k]) {
      assert sorted[k] in sorted;
    }
    forall k, x | 0 <= k < |sorted| && x in sorted[k] ensures x in links && links[x] == LinkLabel(k + 1) {
      var k' :| 0 <= k' < |sorted| && x in sorted[k'] && links[x] == LinkLabel(k' + 1);
      PartitionPosition(g, sorted, k, k', x);
    }
  }

  lemma PartitionConnected(m: Matrix, threshold: real, g: Graph, sorted: seq<seq<CellId>>)
    requires IsAdjacency(m, threshold, g) && IsPartition(g, sorted)
    ensures forall k, x, y | 0 <= k < |sorted| && x in sorted[k] && y in sorted[k] :: Connected(m, threshold, x, y)
  {
    forall k, x, y | 0 <= k < |sorted| && x in sorted[k] && y in sorted[k] ensures Connected(m, threshold, x, y) {
      assert sorted[k] in sorted;
      ReachableIsConnected(m, threshold, g, x, y);
    }
  }

  lemma ReachableIsConnected(m: Matrix, threshold: real, g: Graph, x: CellId, y: CellId)
    requires IsAdjacency(m, threshold, g) && Reachable(g, x, y)
    ensures Connected(m, threshold, x, y)
  {
    var p :| WalkFromTo(g, p, x, y);
    WalkIffChain(m, threshold, g, p);
  }

  lemma PartitionClosed(m: Matrix, threshold: real, g: Graph, sorted: seq<seq<CellId>>)
    requires IsAdjacency(m, threshold, g) && IsPartition(g, sorted)
    ensures forall k, x, y | 0 <= k < |sorted| && x in sorted[k] && Edge(m, threshold, x, y) :: y in sorted[k]
  {
    AdjacencyShape(m, threshold, g);
    forall k, x, y | 0 <= k < |sorted| && x in sorted[k] && Edge(m, threshold, x, y) ensures y in sorted[k] {
      assert sorted[k] in sorted;
    }
  }

  lemma PartitionOrder(g: Graph, sorted: seq<seq<CellId>>)
    requires IsPartition(g, sorted) && SortedBy(sorted, ComponentOrder)
    ensures forall i, j | 0 <= i < j < |sorted| ::
      || |sorted[i]| > |sorted[j]|
      || (|sorted[i]| == |sorted[j]| && LexLt(MinCell(sorted[i]), MinCell(sorted[j])))
  {
    forall i, j | 0 <= i < j < |sorted|
      ensures || |sorted[i]| > |sorted[j]|
              || (|sorted[i]| == |sorted[j]| && LexLt(MinCell(sorted[i]), MinCell(sorted[j])))
    {
      assert sorted[i] in sorted && sorted[j] in sorted;
      assert ComponentOrder(sorted[i], sorted[j]);
    }
  }

  /** A chain of edges that starts in a component never leaves it. */
  lemma {:induction false} ChainStaysInComponent(m: Matrix, threshold: real, comps: seq<seq<CellId>>,
                                                 k: int, p: seq<CellId>)
    requires ComponentsClosed(m, threshold, comps)
    requires 0 <= k < |comps| && IsChain(m, threshold, p) && p[0] in comps[k]
    ensures p[|p| - 1] in comps[k]
    decreases |p|
  {
    if |p| > 1 {
      var q := p[..|p| - 1];
      assert IsChain(m, threshold, q);
      ChainStaysInComponent(m, threshold, comps, k, q);
      assert Edge(m, threshold, p[|p| - 2], p[|p| - 1]);
    }
  }

  /** Two cells get the same link exactly when a chain of above-threshold
      correlations joins them. */
  lemma SameLinkIffConnected(m: Matrix, threshold: real, links: map<CellId, string>, comps: seq<seq<CellId>>,
                             x: CellId, y: CellId)
    requires IsTopology(m, threshold, links, comps) && x in links
    ensures (y in links && links[y] == links[x]) <==> Connected(m, threshold, x, y)
  {
    if Connected(m, threshold, x, y) {
      ConnectedSameLink(m, threshold, links, comps, x, y);
    }
    if y in links && links[y] == links[x] {
      SameLinkConnected(m, threshold, links, comps, x, y);
    }
  }

  lemma ConnectedSameLink(m: Matrix, threshold: real, links: map<CellId, string>, comps: seq<seq<CellId>>,
                          x: CellId, y: CellId)
    requires LabelledByPosition(links, comps) && ComponentsClosed(m, threshold, comps)
    requires x in links && Connected(m, threshold, x, y)
    ensures y in links && links[y] == links[x]
  {
    var k :| 0 <= k < |comps| && x in comps[k];
    var p :| IsChain(m, threshold, p) && p[0] == x && p[|p| - 1] == y;
    ChainStaysInComponent(m, threshold, comps, k, p);
    assert links[y] == LinkLabel(k + 1) == links[x];
  }

  lemma SameLinkConnected(m: Matrix, threshold: real, links: map<CellId, string>, comps: seq<seq<CellId>>,
                          x: CellId, y: CellId)
    requires LabelledByPosition(links, comps) && ComponentsConnected(m, threshold, comps)
    requires x in links && y in links && links[y] == links[x]
    ensures Connected(m, threshold, x, y)
  {
    var k :| 0 <= k < |comps| && x in comps[k];
    var j :| 0 <= j < |comps| && y in comps[j];
    LinkLabelInjective(j + 1, k + 1);
  }

  /** Two cells whose correlation reaches the threshold in either direction share a link. */
  lemma EdgeSameLink(m: Matrix, threshold: real, links: map<CellId, string>, comps: seq<seq<CellId>>,
                     x: CellId, y: CellId)
    requires IsTopology(m, threshold, links, comps) && x in links && Edge(m, threshold, x, y)
    ensures y in links && links[y] == links[x]
  {
    var k :| 0 <= k < |comps| && x in comps[k];
  }

  /** The labels used are exactly `Link_1` .. `Link_n`, one per component. */
  lemma LinkLabelsUsed(m: Matrix, threshold: real, links: map<CellId, string>, comps: seq<seq<CellId>>)
    requires IsTopology(m, threshold, links, comps)
    ensures forall v :: v in links.Values <==> exists k :: 1 <= k <= |comps| && v == LinkLabel(k)
  {
    forall v | v in links.Values ensures exists k :: 1 <= k <= |comps| && v == LinkLabel(k) {
      var x :| x in links && links[x] == v;
      var k :| 0 <= k < |comps| && x in comps[k];
      assert v == LinkLabel(k + 1);
    }
    forall k | 1 <= k <= |comps| ensures LinkLabel(k) in links.Values {
      var x := comps[k - 1][0];
      assert x in comps[k - 1];
      assert links[x] == LinkLabel(k);
    }
  }

  /** A cell with an edge to no other cell. */
  ghost predicate Isolated(m: Matrix, threshold: real, x: CellId)
  {
    forall y :: y != x ==> !Edge(m, threshold, x, y)
  }

  lemma {:induction false} ChainFromIsolated(m: Matrix, threshold: real, x: CellId, p: seq<CellId>)
    requires Isolated(m, threshold, x) && IsChain(m, threshold, p) && p[0] == x
    ensures p[|p| - 1] == x
    decreases |p|
  {
    if |p| > 1 {
      var q := p[..|p| - 1];
      assert IsChain(m, threshold, q);
      ChainFromIsolated(m, threshold, x, q);
      assert Edge(m, threshold, p[|p| - 2], p[|p| - 1]);
    }
  }

  /** A cell correlated with no other cell is alone on its link. */
  lemma IsolatedCellAlone(m: Matrix, threshold: real, links: map<CellId, string>, comps: seq<seq<CellId>>,
                          x: CellId, y: CellId)
    requires IsTopology(m, threshold, links, comps) && x in links && Isolated(m, threshold, x)
    requires y in links && y != x
    ensures links[y] != links[x]
  {
    if links[y] == links[x] {
      SameLinkIffConnected(m, threshold, links, comps, x, y);
      var p :| IsChain(m, threshold, p) && p[0] == x && p[|p| - 1] == y;
      ChainFromIsolated(m, threshold, x, p);
    }
  }

  /** The correlation matrix of the `infer_topology` docstring. */
  function ExampleMatrix(): Matrix
  {
    map["cell_1" := map["cell_2" := 0.9, "cell_3" := 0.1],
        "cell_2" := map["cell_1" := 0.9, "cell_3" := 0.2],
        "cell_3" := map["cell_1" := 0.1, "cell_2" := 0.2]]
  }

  /** The docstring's example at the default threshold 0.7: `cell_1` and `cell_2` share
      `Link_1`, `cell_3` is alone on `Link_2`. */
  lemma DocstringExample(links: map<CellId, string>, comps: seq<seq<CellId>>)
    requires IsTopology(ExampleMatrix(), DefaultThreshold, links, comps)
    ensures links == map["cell_1" := "Link_1", "cell_2" := "Link_1", "cell_3" := "Link_2"]
  {
    ExampleShape();
    FirstLinkLabels();
    PairAndIsolated(ExampleMatrix(), DefaultThreshold, links, comps, "cell_1", "cell_2", "cell_3");
  }

  /** Three cells, the first two joined by an edge and the third isolated:
      the pair is on `Link_1`, the third cell on `Link_2`. */
  lemma PairAndIsolated(m: Matrix, threshold: real, links: map<CellId, string>, comps: seq<seq<CellId>>,
                        c1: CellId, c2: CellId, c3: CellId)
    requires IsTopology(m, threshold, links, comps)
    requires AllCells(m) == {c1, c2, c3} && c1 != c2 && c1 != c3 && c2 != c3
    requires Edge(m, threshold, c1, c2) && Isolated(m, threshold, c3)
    ensures links == map[c1 := LinkLabel(1), c2 := LinkLabel(1), c3 := LinkLabel(2)]
  {
    EdgeSameLink(m, threshold, links, comps, c1, c2);
    IsolatedCellAlone(m, threshold, links, comps, c3, c1);
    TwoLinks(links, comps, c1, c2, c3);
    ThreeKeys(links, c1, c2, c3);
  }

  /** A dict on three keys is the display of its three entries. */
  lemma ThreeKeys<V>(d: map<CellId, V>, a: CellId, b: CellId, c: CellId)
    requires d.Keys == {a, b, c}
    ensures d == map[a := d[a], b := d[b], c := d[c]]
  {
  }

  lemma FirstLinkLabels()
    ensures LinkLabel(1) == "Link_1" && LinkLabel(2) == "Link_2"
  {
    assert NatToString(1) == "1" && NatToString(2) == "2";
  }

  /** The example has three cells; `cell_1` and `cell_2` are correlated above
      0.7, `cell_3` with neither. */
  lemma ExampleShape()
    ensures AllCells(ExampleMatrix()) == {"cell_1", "cell_2", "cell_3"}
    ensures Edge(ExampleMatrix(), DefaultThreshold, "cell_1", "cell_2")
    ensures Isolated(ExampleMatrix(), DefaultThreshold, "cell_3")
  {
    var m := ExampleMatrix();
    assert m.Keys == {"cell_1", "cell_2", "cell_3"};
    assert forall a | a in m :: m[a].Keys <= m.Keys;
    ExampleIsolated();
  }

  lemma ExampleIsolated()
    ensures Isolated(ExampleMatrix(), DefaultThreshold, "cell_3")
  {
    var m := ExampleMatrix();
    forall y | y != "cell_3" ensures !Edge(m, DefaultThreshold, "cell_3", y) {
      if y == "cell_1" {
        assert m["cell_3"]["cell_1"] == 0.1 && m["cell_1"]["cell_3"] == 0.1;
      } else if y == "cell_2" {
        assert m["cell_3"]["cell_2"] == 0.2 && m["cell_2"]["cell_3"] == 0.2;
      } else {
        assert y !in m && y !in m["cell_3"];
      }
    }
  }

  /** Three cells, two of them on one link and the third on another: the pair
      gets `Link_1`, the single cell `Link_2`. */
  lemma TwoLinks(links: map<CellId, string>, comps: seq<seq<CellId>>, a: CellId, b: CellId, c: CellId)
    requires forall k | 0 <= k < |comps| :: |comps[k]| > 0 && Distinct(comps[k])
    requires LabelledByPosition(links, comps) && ComponentsOrdered(comps)
    requires links.Keys == {a, b, c} && a != b
    requires links[a] == links[b] != links[c]
    ensures links[a] == links[b] == LinkLabel(1) && links[c] == LinkLabel(2)
  {
    var ka :| 0 <= ka < |comps| && a in comps[ka];
    var kc :| 0 <= kc < |comps| && c in comps[kc];
    PairAndSingle(links, comps, a, b, c, ka, kc);
    LabelIndex(links, comps, a, b, c, ka, kc, 0);
    LabelIndex(links, comps, a, b, c, ka, kc, 1);
  }

  /** The component holding the pair has at least two cells, the one holding the single cell one. */
  lemma PairAndSingle(links: map<CellId, string>, comps: seq<seq<CellId>>, a: CellId, b: CellId, c: CellId,
                      ka: int, kc: int)
    requires LabelledByPosition(links, comps)
    requires forall k | 0 <= k < |comps| :: Distinct(comps[k])
    requires links.Keys == {a, b, c} && a != b
    requires links[a] == links[b] != links[c]
    requires 0 <= ka < |comps| && a in comps[ka]
    requires 0 <= kc < |comps| && c in comps[kc]
    ensures |comps[ka]| >= 2 && |comps[kc]| == 1
  {
    var j :| 0 <= j < |comps| && b in comps[j];
    LinkLabelInjective(j + 1, ka + 1);
    var ia :| 0 <= ia < |comps[ka]| && comps[ka][ia] == a;
    var ib :| 0 <= ib < |comps[ka]| && comps[ka][ib] == b;
    forall i | 0 <= i < |comps[kc]| ensures comps[kc][i] == c {
      var x := comps[kc][i];
      assert x in comps[kc];
      assert links[x] == LinkLabel(kc + 1) == links[c];
      assert x in links.Keys;
    }
    DistinctConstant(comps[kc], c);
  }

  /** Every component is the pair's or the single cell's. */
  lemma LabelIndex(links: map<CellId, string>, comps: seq<seq<CellId>>, a: CellId, b: CellId, c: CellId,
                   ka: int, kc: int, i: int)
    requires LabelledByPosition(links, comps)
    requires forall k | 0 <= k < |comps| :: |comps[k]| > 0
    requires links.Keys == {a, b, c}
    requires links[a] == links[b]
    requires 0 <= ka < |comps| && a in comps[ka]
    requires 0 <= kc < |comps| && c in comps[kc]
    requires 0 <= i < |comps|
    ensures i == ka || i == kc
  {
    var x := comps[i][0];
    assert x in comps[i];
    assert x in links.Keys && links[x] == LinkLabel(i + 1);
    if x == c {
      LinkLabelInjective(i + 1, kc + 1);
    } else {
      assert links[x] == links[a] == LinkLabel(ka + 1);
      LinkLabelInjective(i + 1, ka + 1);
    }
  }
}
