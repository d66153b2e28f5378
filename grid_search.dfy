/** The grid A* search of `astar.ts` (and its compiled twin `astar.js`).
    A grid is a list of rows of step costs, -1 marking a wall; a cell is
    addressed by its column `x` and row `y`. The per-cell search records the
    source keeps on `xNode` objects (g, h, f, visited, closed, parent) are
    maps from positions to values, and the open list is the heap of
    `Heaps`, keyed by the current f of each position. */
module GridSearch {
  import opened Wrappers
  import opened HeapOrder
  import opened Heaps

  datatype Pos = Pos(x: int, y: int)

  predicate InGrid(grid: seq<seq<int>>, p: Pos)
  {
    0 <= p.y < |grid| && 0 <= p.x < |grid[p.y]|
  }

  /** The step cost of a cell (`xNode.cost`). */
  function Cost(grid: seq<seq<int>>, p: Pos): int
    requires InGrid(grid, p)
  {
    grid[p.y][p.x]
  }

  /** Every cell of the grid. */
  function Cells(grid: seq<seq<int>>): set<Pos>
  {
    set y, x | 0 <= y < |grid| && 0 <= x < |grid[y]| :: Pos(x, y)
  }

  lemma CellsAreInGrid(grid: seq<seq<int>>, p: Pos)
    ensures p in Cells(grid) <==> InGrid(grid, p)
  {
    if InGrid(grid, p) {
      assert Pos(p.x, p.y) in Cells(grid);
    }
  }

  function Abs(a: int): nat
  {
    if a < 0 then -a else a
  }

  /** `taxicabDistance`. */
  function Taxicab(p: Pos, q: Pos): (d: nat)
    ensures d == 0 <==> p == q
  {
    Abs(p.x - q.x) + Abs(p.y - q.y)
  }

  lemma TaxicabSymmetric(p: Pos, q: Pos)
    ensures Taxicab(p, q) == Taxicab(q, p)
  {
  }

  lemma TaxicabTriangle(p: Pos, q: Pos, o: Pos)
    ensures Taxicab(p, o) <= Taxicab(p, q) + Taxicab(q, o)
  {
  }

  /** The place of `q` among the neighbours of `p` in the order the search
      lists them: up, down, left, right. */
  function Direction(p: Pos, q: Pos): int
  {
    if q == Pos(p.x, p.y - 1) then 0
    else if q == Pos(p.x, p.y + 1) then 1
    else if q == Pos(p.x - 1, p.y) then 2
    else 3
  }

  /** The cells at distance 1 are the four orthogonal neighbours. */
  lemma UnitDistance(p: Pos, q: Pos)
    ensures Taxicab(p, q) == 1 <==>
              q in {Pos(p.x, p.y - 1), Pos(p.x, p.y + 1), Pos(p.x - 1, p.y), Pos(p.x + 1, p.y)}
  {
  }

  /** `findNeighbors`: the orthogonal neighbours inside the grid, in the
      order up, down, left, right. */
  function FindNeighbors(grid: seq<seq<int>>, p: Pos): (r: seq<Pos>)
    requires InGrid(grid, p)
    ensures |r| <= 4
    ensures forall q :: q in r <==> InGrid(grid, q) && Taxicab(p, q) == 1
    ensures forall i, j :: 0 <= i < j < |r| ==> Direction(p, r[i]) < Direction(p, r[j])
  {
    var up := Pos(p.x, p.y - 1);
    var down := Pos(p.x, p.y + 1);
    var left := Pos(p.x - 1, p.y);
    var right := Pos(p.x + 1, p.y);
    NeighbourList(grid, p);
    (if InGrid(grid, up) then [up] else [])
    + (if InGrid(grid, down) then [down] else [])
    + (if InGrid(grid, left) then [left] else [])
    + (if InGrid(grid, right) then [right] else [])
  }

  lemma NeighbourList(grid: seq<seq<int>>, p: Pos)
    ensures var r := (if InGrid(grid, Pos(p.x, p.y - 1)) then [Pos(p.x, p.y - 1)] else [])
                     + (if InGrid(grid, Pos(p.x, p.y + 1)) then [Pos(p.x, p.y + 1)] else [])
                     + (if InGrid(grid, Pos(p.x - 1, p.y)) then [Pos(p.x - 1, p.y)] else [])
                     + (if InGrid(grid, Pos(p.x + 1, p.y)) then [Pos(p.x + 1, p.y)] else []);
            && (forall q :: q in r <==> InGrid(grid, q) && Taxicab(p, q) == 1)
            && (forall i, j :: 0 <= i < j < |r| ==> Direction(p, r[i]) < Direction(p, r[j]))
  {
    forall q
      ensures Taxicab(p, q) == 1 <==>
                q in {Pos(p.x, p.y - 1), Pos(p.x, p.y + 1), Pos(p.x - 1, p.y), Pos(p.x + 1, p.y)}
    {
      UnitDistance(p, q);
    }
  }

  /** The properties `traverseNode` can report. */
  datatype Prop = CostProp | PosProp

  datatype Value = CostValue(cost: int) | PosValue(pos: Pos)

  function Field(grid: seq<seq<int>>, p: Pos, prop: Prop): Value
    requires InGrid(grid, p)
  {
    match prop
    case CostProp => CostValue(Cost(grid, p))
    case PosProp => PosValue(p)
  }

  /** Parent links stay inside the grid. */
  predicate LinksInGrid(grid: seq<seq<int>>, parent: map<Pos, Pos>)
  {
    forall q :: q in parent ==> InGrid(grid, q) && InGrid(grid, parent[q])
  }

  /** `traverseNode(node, prop)` as written: the node's own `prop` comes
      last, but the recursive call drops `prop`, so every ancestor
      contributes its cost whatever was asked for. Each link is followed
      once (the map shrinks), which on an acyclic chain is the source's walk. */
  function TraverseNode(grid: seq<seq<int>>, parent: map<Pos, Pos>, node: Pos, prop: Prop): (r: seq<Value>)
    requires InGrid(grid, node) && LinksInGrid(grid, parent)
    ensures |r| >= 1 && r[|r| - 1] == Field(grid, node, prop)
    ensures forall i :: 0 <= i < |r| - 1 ==> r[i].CostValue?
    decreases |parent|
  {
    if node in parent then
      TraverseNode(grid, parent - {node}, parent[node], CostProp) + [Field(grid, node, prop)]
    else
      [Field(grid, node, prop)]
  }

  /** Asking for positions along a one-link chain yields the parent's cost,
      not its position. */
  lemma TraverseNodeReportsCost()
    ensures TraverseNode([[1, 7]], map[Pos(1, 0) := Pos(0, 0)], Pos(1, 0), PosProp)
              == [CostValue(1), PosValue(Pos(1, 0))]
  {
    var parent := map[Pos(1, 0) := Pos(0, 0)];
    assert parent - {Pos(1, 0)} == map[];
  }

  /** The chain `traverseNode(node, "pos")` is meant to report: the
      positions from the root of the parent chain down to `node`. */
  function Path(grid: seq<seq<int>>, parent: map<Pos, Pos>, node: Pos): (r: seq<Pos>)
    requires InGrid(grid, node) && LinksInGrid(grid, parent)
    ensures |r| >= 1 && r[|r| - 1] == node
    ensures forall i :: 1 <= i < |r| ==> r[i] in parent && parent[r[i]] == r[i - 1]
    ensures forall i :: 0 <= i < |r| ==> InGrid(grid, r[i])
    decreases |parent|
  {
    if node in parent then
      Path(grid, parent - {node}, parent[node]) + [node]
    else
      [node]
  }

  /** Along links between orthogonal neighbours, the reported path is a
      walk of unit steps. */
  lemma PathIsWalk(grid: seq<seq<int>>, parent: map<Pos, Pos>, node: Pos)
    requires InGrid(grid, node) && LinksInGrid(grid, parent)
    requires forall q :: q in parent ==> Taxicab(parent[q], q) == 1
    ensures var r := Path(grid, parent, node);
            forall i :: 1 <= i < |r| ==> Taxicab(r[i - 1], r[i]) == 1
  {
  }

  /** A node without a parent is reported alone. */
  lemma PathOfRoot(grid: seq<seq<int>>, parent: map<Pos, Pos>, node: Pos)
    requires InGrid(grid, node) && LinksInGrid(grid, parent) && node !in parent
    ensures Path(grid, parent, node) == [node]
    ensures TraverseNode(grid, parent, node, PosProp) == [PosValue(node)]
  {
  }

  /** The search records of every cell, one map per `xNode` field. */
  datatype Nodes = Nodes(
    g: map<Pos, int>,
    h: map<Pos, int>,
    f: map<Pos, int>,
    visited: set<Pos>,
    closed: set<Pos>,
    parent: map<Pos, Pos>)

  /** What the search keeps true of its records: h is the distance to the
      end, f = g + h, the start keeps g = its own cost and never gets a
      parent, and every parent link was made from a closed orthogonal
      neighbour to a non-wall cell with non-zero h, setting
      g = parent's g + the cell's cost. */
  ghost predicate Consistent(grid: seq<seq<int>>, start: Pos, end: Pos, nodes: Nodes)
  {
    && InGrid(grid, start)
    && (forall q :: q in nodes.h ==> nodes.h[q] == Taxicab(q, end))
    && (forall q :: q in nodes.f ==> q in nodes.g && q in nodes.h && nodes.f[q] == nodes.g[q] + nodes.h[q])
    && (forall q :: q in nodes.f ==> q == start || q in nodes.visited)
    && start in nodes.f && nodes.g[start] == Cost(grid, start) && start !in nodes.parent
    && nodes.visited <= Cells(grid)
    && LinksInGrid(grid, nodes.parent)
    && (forall q :: q in nodes.parent ==> Linked(grid, nodes, q))
  }

  /** The record of a cell that was given a parent. */
  ghost predicate Linked(grid: seq<seq<int>>, nodes: Nodes, q: Pos)
    requires q in nodes.parent && LinksInGrid(grid, nodes.parent)
  {
    var p := nodes.parent[q];
    && p in nodes.closed && Taxicab(p, q) == 1
    && q in nodes.f && q in nodes.g && q in nodes.h && p in nodes.g
    && nodes.g[q] == nodes.g[p] + Cost(grid, q)
    && Cost(grid, q) != -1 && nodes.h[q] != 0
  }

  /** The records right after the start is set up. */
  function Initial(grid: seq<seq<int>>, start: Pos, end: Pos): (nodes: Nodes)
    requires InGrid(grid, start)
    ensures Consistent(grid, start, end, nodes)
  {
    var g := Cost(grid, start);
    var h := Taxicab(start, end);
    Nodes(map[start := g], map[start := h], map[start := g + h], {}, {}, map[])
  }

  /** The heap key: the current f of a position. */
  function FKey(f: map<Pos, int>): Pos -> int
  {
    p => if p in f then f[p] else 0
  }

  /** The record updates of a first visit: mark visited, compute h. */
  function Visit(nodes: Nodes, q: Pos, end: Pos): Nodes
  {
    nodes.(visited := nodes.visited + {q}, h := nodes.h[q := Taxicab(q, end)])
  }

  /** The record updates of relaxing `q` from `c`: link, set g, set f. */
  function Relax(nodes: Nodes, c: Pos, q: Pos, gScore: int): Nodes
    requires q in nodes.h
  {
    nodes.(parent := nodes.parent[q := c], g := nodes.g[q := gScore],
           f := nodes.f[q := nodes.h[q] + gScore])
  }

  /** Marking an unvisited open neighbour visited and computing its h. */
  lemma VisitKeeps(grid: seq<seq<int>>, start: Pos, end: Pos, nodes: Nodes, q: Pos)
    requires Consistent(grid, start, end, nodes)
    requires InGrid(grid, q) && q !in nodes.visited && q != start
    ensures Consistent(grid, start, end, Visit(nodes, q, end))
  {
    CellsAreInGrid(grid, q);
    var n := Visit(nodes, q, end);
    forall r | r in n.parent
      ensures Linked(grid, n, r)
    {
      assert Linked(grid, nodes, r);
    }
  }

  /** Relaxing an open, non-wall neighbour `q` of the closed cell `c`. */
  lemma RelaxKeeps(grid: seq<seq<int>>, start: Pos, end: Pos, nodes: Nodes, c: Pos, q: Pos, gScore: int)
    requires Consistent(grid, start, end, nodes)
    requires c in nodes.closed && c in nodes.g && InGrid(grid, c) && start in nodes.closed
    requires InGrid(grid, q) && q !in nodes.closed && Taxicab(c, q) == 1
    requires Cost(grid, q) != -1 && q in nodes.h && nodes.h[q] != 0 && q in nodes.visited
    requires gScore == nodes.g[c] + Cost(grid, q)
    ensures Consistent(grid, start, end, Relax(nodes, c, q, gScore))
  {
    var n := Relax(nodes, c, q, gScore);
    RelaxKeepsRecords(grid, start, end, nodes, c, q, gScore);
    RelaxKeepsLinks(grid, start, end, nodes, c, q, gScore);
    assert start != q;
  }

  /** Relaxing keeps f = g + h and adds no unvisited record. */
  lemma RelaxKeepsRecords(grid: seq<seq<int>>, start: Pos, end: Pos, nodes: Nodes, c: Pos, q: Pos, gScore: int)
    requires Consistent(grid, start, end, nodes)
    requires q in nodes.h && q in nodes.visited
    ensures var n := Relax(nodes, c, q, gScore);
            && (forall r :: r in n.f ==> r in n.g && r in n.h && n.f[r] == n.g[r] + n.h[r])
            && (forall r :: r in n.f ==> r == start || r in n.visited)
  {
    var n := Relax(nodes, c, q, gScore);
    forall r | r in n.f
      ensures r in n.g && r in n.h && n.f[r] == n.g[r] + n.h[r]
      ensures r == start || r in n.visited
    {
      if r != q {
        assert r in nodes.f;
      }
    }
  }

  /** Relaxing keeps every parent link as it was made, and makes one more. */
  lemma RelaxKeepsLinks(grid: seq<seq<int>>, start: Pos, end: Pos, nodes: Nodes, c: Pos, q: Pos, gScore: int)
    requires Consistent(grid, start, end, nodes)
    requires c in nodes.closed && c in nodes.g && InGrid(grid, c)
    requires InGrid(grid, q) && q !in nodes.closed && Taxicab(c, q) == 1
    requires Cost(grid, q) != -1 && q in nodes.h && nodes.h[q] != 0
    requires gScore == nodes.g[c] + Cost(grid, q)
    ensures var n := Relax(nodes, c, q, gScore);
            LinksInGrid(grid, n.parent) && forall r :: r in n.parent ==> Linked(grid, n, r)
  {
    var n := Relax(nodes, c, q, gScore);
    assert LinksInGrid(grid, n.parent);
    forall r | r in n.parent
      ensures Linked(grid, n, r)
    {
      if r != q {
        assert Linked(grid, nodes, r);
        assert nodes.parent[r] != q;
      }
    }
  }

  /** How many cells of the grid are still unvisited. */
  function Unvisited(grid: seq<seq<int>>, visited: set<Pos>): nat
  {
    |Cells(grid) - visited|
  }

  /** Visiting a cell of the grid shrinks the set of unvisited cells. */
  lemma VisitShrinks(grid: seq<seq<int>>, visited: set<Pos>, q: Pos)
    requires InGrid(grid, q) && q !in visited
    ensures Unvisited(grid, visited + {q}) == Unvisited(grid, visited) - 1
  {
    CellsAreInGrid(grid, q);
    assert Cells(grid) - visited == (Cells(grid) - (visited + {q})) + {q};
  }

  /** Closing a cell: its neighbours have been looked at. */
  function Close(nodes: Nodes, c: Pos): Nodes
  {
    nodes.(closed := nodes.closed + {c})
  }

  /** Closing a cell keeps the records consistent. */
  lemma CloseKeeps(grid: seq<seq<int>>, start: Pos, end: Pos, nodes: Nodes, c: Pos)
    requires Consistent(grid, start, end, nodes)
    ensures Consistent(grid, start, end, Close(nodes, c))
  {
    var n := Close(nodes, c);
    forall r | r in n.parent
      ensures Linked(grid, n, r)
    {
      assert Linked(grid, nodes, r);
    }
  }

  /** What the open list holds: recorded cells of the grid, and never the
      end unless the end is the start. */
  ghost predicate OpenOk(grid: seq<seq<int>>, start: Pos, end: Pos, open: seq<Pos>, nodes: Nodes)
  {
    forall q :: q in open ==> q in nodes.f && InGrid(grid, q) && (q == end ==> q == start)
  }

  /** Removing one element keeps the open list as it was described. */
  lemma OpenAfterPop(grid: seq<seq<int>>, start: Pos, end: Pos, open: seq<Pos>, rest: seq<Pos>, top: Pos, nodes: Nodes)
    requires OpenOk(grid, start, end, open, nodes)
    requires multiset(rest) + multiset{top} == multiset(open)
    ensures OpenOk(grid, start, end, rest, nodes)
    ensures top in open
  {
    assert top in multiset(open);
    forall q | q in rest
      ensures q in open
    {
      assert q in multiset(rest);
      assert multiset(rest) <= multiset(open);
    }
  }

  /** Adding a recorded cell of the grid other than the end keeps it so. */
  lemma OpenAfterInsert(grid: seq<seq<int>>, start: Pos, end: Pos, open: seq<Pos>, more: seq<Pos>, q: Pos, nodes: Nodes)
    requires OpenOk(grid, start, end, open, nodes)
    requires multiset(more) == multiset(open) + multiset{q}
    requires q in nodes.f && InGrid(grid, q) && q != end
    ensures OpenOk(grid, start, end, more, nodes)
  {
    forall r | r in more
      ensures r == q || r in open
    {
      assert r in multiset(more);
    }
  }

  /** Records that only gain keys keep the open list described. */
  lemma OpenAfterUpdate(grid: seq<seq<int>>, start: Pos, end: Pos, open: seq<Pos>, nodes: Nodes, next: Nodes)
    requires OpenOk(grid, start, end, open, nodes)
    requires nodes.f.Keys <= next.f.Keys
    ensures OpenOk(grid, start, end, open, next)
  {
  }

  /** What the neighbour loop keeps: consistent records, the current cell
      and the start closed, the open list described, and the open list
      grown by no more cells than were newly visited. */
  ghost predicate InnerOk(grid: seq<seq<int>>, start: Pos, end: Pos, current: Pos, nodes: Nodes,
                          open: seq<Pos>, size0: int, unvisited0: int)
  {
    && Consistent(grid, start, end, nodes)
    && current in nodes.closed && current in nodes.g && InGrid(grid, current)
    && start in nodes.closed && start != end
    && OpenOk(grid, start, end, open, nodes)
    && |open| - size0 <= unvisited0 - Unvisited(grid, nodes.visited)
    && Unvisited(grid, nodes.visited) <= unvisited0
  }

  /** A first visit of `q` whose h is zero: recorded, not linked. */
  lemma VisitOnlyStep(grid: seq<seq<int>>, start: Pos, end: Pos, current: Pos, nodes: Nodes,
                      open: seq<Pos>, size0: int, unvisited0: int, q: Pos)
    requires InnerOk(grid, start, end, current, nodes, open, size0, unvisited0)
    requires InGrid(grid, q) && q !in nodes.visited && q !in nodes.closed
    ensures InnerOk(grid, start, end, current, Visit(nodes, q, end), open, size0, unvisited0)
  {
    VisitShrinks(grid, nodes.visited, q);
    VisitKeeps(grid, start, end, nodes, q);
  }

  /** A first visit of `q` followed by linking it and opening it. */
  lemma VisitRelaxStep(grid: seq<seq<int>>, start: Pos, end: Pos, current: Pos, nodes: Nodes,
                       open: seq<Pos>, size0: int, unvisited0: int, q: Pos, gScore: int, more: seq<Pos>)
    requires InnerOk(grid, start, end, current, nodes, open, size0, unvisited0)
    requires InGrid(grid, q) && q !in nodes.visited && q !in nodes.closed
    requires Taxicab(current, q) == 1 && Cost(grid, q) != -1 && Taxicab(q, end) != 0
    requires gScore == nodes.g[current] + Cost(grid, q)
    requires multiset(more) == multiset(open) + multiset{q}
    ensures InnerOk(grid, start, end, current, Relax(Visit(nodes, q, end), current, q, gScore), more, size0, unvisited0)
  {
    VisitOnlyStep(grid, start, end, current, nodes, open, size0, unvisited0, q);
    VisitShrinks(grid, nodes.visited, q);
    var v := Visit(nodes, q, end);
    assert v.h[q] == Taxicab(q, end) && q in v.visited && v.g == nodes.g;
    RelaxKeeps(grid, start, end, v, current, q, gScore);
    var n := Relax(v, current, q, gScore);
    assert n.visited == v.visited && n.closed == v.closed && current in n.g;
    OpenAfterUpdate(grid, start, end, open, v, n);
    assert q != end;
    OpenAfterInsert(grid, start, end, open, more, q, n);
    assert |more| == |multiset(more)| == |open| + 1;
  }

  /** Linking an already visited `q` to a cheaper parent. */
  lemma RelaxStep(grid: seq<seq<int>>, start: Pos, end: Pos, current: Pos, nodes: Nodes,
                  open: seq<Pos>, size0: int, unvisited0: int, q: Pos, gScore: int)
    requires InnerOk(grid, start, end, current, nodes, open, size0, unvisited0)
    requires InGrid(grid, q) && q in nodes.visited && q !in nodes.closed
    requires Taxicab(current, q) == 1 && Cost(grid, q) != -1 && q in nodes.h && nodes.h[q] != 0
    requires gScore == nodes.g[current] + Cost(grid, q)
    ensures InnerOk(grid, start, end, current, Relax(nodes, current, q, gScore), open, size0, unvisited0)
  {
    RelaxKeeps(grid, start, end, nodes, current, q, gScore);
    OpenAfterUpdate(grid, start, end, open, nodes, Relax(nodes, current, q, gScore));
  }

  /** One round of the neighbour loop of `search`: skip a closed or wall
      neighbour; mark a first-seen one visited and compute its h; link it
      to `current`, set its g and f and, if it was first seen, open it, when
      the new g is its first or strictly better than a non-zero old one and
      its h is non-zero. The heap's key follows the new f. */
  method ConsiderNeighbour(grid: seq<seq<int>>, start: Pos, end: Pos, current: Pos, neighbor: Pos,
                           nodes: Nodes, openHeap: Heap<Pos>, ghost size0: int, ghost unvisited0: int)
    returns (next: Nodes)
    modifies openHeap
    requires InnerOk(grid, start, end, current, nodes, openHeap.arr, size0, unvisited0)
    requires InGrid(grid, neighbor) && Taxicab(current, neighbor) == 1
    ensures InnerOk(grid, start, end, current, next, openHeap.arr, size0, unvisited0)
    ensures next.closed == nodes.closed && nodes.f.Keys <= next.f.Keys
    ensures |openHeap.arr| <= old(|openHeap.arr|) + 1
  {
    next := nodes;
    if neighbor in next.closed || Cost(grid, neighbor) == -1 || current !in next.g {
      return;
    }
    var gScore := next.g[current] + Cost(grid, neighbor);
    var minG := false;
    var notVis := false;
    if neighbor !in next.visited {
      minG := true;
      next := Visit(next, neighbor, end);
      notVis := true;
    } else if neighbor in next.g && next.g[neighbor] != 0 && gScore < next.g[neighbor] {
      minG := true;
    }
    if minG && neighbor in next.h && next.h[neighbor] != 0 {
      next := Relax(next, current, neighbor, gScore);
      openHeap.Rekey(FKey(next.f));
      if notVis {
        ghost var heap1 := openHeap.arr;
        openHeap.Insert(neighbor);
        VisitRelaxStep(grid, start, end, current, nodes, heap1, size0, unvisited0, neighbor, gScore, openHeap.arr);
      } else {
        RelaxStep(grid, start, end, current, nodes, openHeap.arr, size0, unvisited0, neighbor, gScore);
      }
    } else if notVis {
      VisitOnlyStep(grid, start, end, current, nodes, openHeap.arr, size0, unvisited0, neighbor);
    }
  }

  /** The body of the main loop of `search` after the popped cell turned
      out not to be the end: close it and consider each of its neighbours
      in turn. Either a cell was visited for the first time, or the open
      list grew by nothing. */
  method Expand(grid: seq<seq<int>>, start: Pos, end: Pos, current: Pos, nodes: Nodes, openHeap: Heap<Pos>)
    returns (next: Nodes)
    modifies openHeap
    requires Consistent(grid, start, end, nodes) && OpenOk(grid, start, end, openHeap.arr, nodes)
    requires InGrid(grid, current) && current in nodes.f && start != end
    requires start in nodes.closed || current == start
    ensures Consistent(grid, start, end, next) && OpenOk(grid, start, end, openHeap.arr, next)
    ensures start in next.closed
    ensures Unvisited(grid, next.visited) <= Unvisited(grid, nodes.visited)
    ensures Unvisited(grid, next.visited) < Unvisited(grid, nodes.visited) || |openHeap.arr| <= old(|openHeap.arr|)
  {
    var neighbors := FindNeighbors(grid, current);
    CloseKeeps(grid, start, end, nodes, current);
    OpenAfterUpdate(grid, start, end, openHeap.arr, nodes, Close(nodes, current));
    next := Close(nodes, current);
    ghost var unvisited0 := Unvisited(grid, next.visited);
    ghost var size0 := |openHeap.arr|;
    for i := 0 to |neighbors|
      invariant InnerOk(grid, start, end, current, next, openHeap.arr, size0, unvisited0)
    {
      var neighbor := neighbors[i];
      assert InGrid(grid, neighbor) && Taxicab(current, neighbor) == 1 by {
        assert neighbor in neighbors;
      }
      next := ConsiderNeighbour(grid, start, end, current, neighbor, next, openHeap, size0, unvisited0);
    }
  }

  /** What the main loop of `search` keeps: consistent records, the open
      list described, and either nothing closed and the start alone open,
      or the start closed and distinct from the end. */
  ghost predicate OuterOk(grid: seq<seq<int>>, start: Pos, end: Pos, nodes: Nodes, open: seq<Pos>)
  {
    && Consistent(grid, start, end, nodes)
    && OpenOk(grid, start, end, open, nodes)
    && (nodes.closed == {} ==> open == [start])
    && (nodes.closed != {} ==> start in nodes.closed && start != end)
  }

  /** One round of the main loop of `search`: pop the cell of least f; if
      it is the end, report the path to it and its f, otherwise expand it.
      The end is popped only when it is the start, on the first round. */
  method SearchStep(grid: seq<seq<int>>, start: Pos, end: Pos, nodes: Nodes, openHeap: Heap<Pos>)
    returns (r: Option<(seq<Pos>, int)>, next: Nodes)
    modifies openHeap
    requires OuterOk(grid, start, end, nodes, openHeap.arr) && |openHeap.arr| > 0
    ensures r.Some? ==> start == end && r.value == ([start], Cost(grid, start))
    ensures r.None? ==> OuterOk(grid, start, end, next, openHeap.arr) && next.closed != {}
    ensures r.None? ==> Unvisited(grid, next.visited) <= Unvisited(grid, nodes.visited)
    ensures r.None? ==> Unvisited(grid, next.visited) < Unvisited(grid, nodes.visited)
                        || |openHeap.arr| < old(|openHeap.arr|)
  {
    ghost var heap0 := openHeap.arr;
    var popped := openHeap.Pop();
    var current := popped.value;
    OpenAfterPop(grid, start, end, heap0, openHeap.arr, current, nodes);
    if current == end {
      assert nodes.closed == {} && current == start;
      PathOfRoot(grid, nodes.parent, current);
      var n := Path(grid, nodes.parent, current);
      return Some((n, nodes.f[current])), nodes;
    }
    next := Expand(grid, start, end, current, nodes, openHeap);
    return None, next;
  }

  /** `search`: the end cell has h = 0, which the source tests for
      truthiness before linking and inserting a neighbour, so the end is
      never inserted. A path is therefore found exactly when the start is
      the end; it is the start alone, at the start's own cost. */
  method Search(grid: seq<seq<int>>, startPos: Pos, endPos: Pos, openHeap: Heap<Pos>)
    returns (r: Option<(seq<Pos>, int)>, nodes: Nodes)
    modifies openHeap
    requires InGrid(grid, startPos) && InGrid(grid, endPos)
    requires openHeap.arr == []
    ensures r.Some? <==> startPos == endPos
    ensures r.Some? ==> r.value == ([startPos], Cost(grid, startPos))
    ensures Consistent(grid, startPos, endPos, nodes)
  {
    var start, end := startPos, endPos;
    nodes := Initial(grid, start, end);
    openHeap.Rekey(FKey(nodes.f));
    openHeap.Insert(start);
    assert openHeap.arr[0] in multiset(openHeap.arr);
    assert openHeap.arr == [start];
    while |openHeap.arr| > 0
      invariant OuterOk(grid, start, end, nodes, openHeap.arr)
      decreases Unvisited(grid, nodes.visited), |openHeap.arr|
    {
      var found, next := SearchStep(grid, start, end, nodes, openHeap);
      if found.Some? {
        return found, nodes;
      }
      nodes := next;
    }
    return None, nodes;
  }

  /** The default end of `run` as written: `[grid.length - 1,
      grid[0].length - 1]` read as `[x, y]`, so the row count lands in the
      column slot. */
  function DefaultEnd(grid: seq<seq<int>>): (p: Pos)
    requires |grid| > 0
    ensures p.x == |grid| - 1 && p.y == |grid[0]| - 1
  {
    Pos(|grid| - 1, |grid[0]| - 1)
  }

  /** On the one-row grid `[[1, 1]]` the default end as written is off the
      grid, so `run` fails reading a missing row. */
  lemma DefaultEndOffGrid()
    ensures !InGrid([[1, 1]], DefaultEnd([[1, 1]]))
    ensures InGrid([[1, 1]], BottomRight([[1, 1]]))
  {
  }

  /** The bottom-right cell, which the default end evidently means. */
  function BottomRight(grid: seq<seq<int>>): (p: Pos)
    requires |grid| > 0
    ensures p.x == |grid[0]| - 1 && p.y == |grid| - 1
    ensures |grid[0]| > 0 && (forall i :: 0 <= i < |grid| ==> |grid[i]| == |grid[0]|) ==> InGrid(grid, p)
  {
    Pos(|grid[0]| - 1, |grid| - 1)
  }

  /** On square grids the default end as written is the bottom-right cell. */
  lemma DefaultEndOnSquareGrid(grid: seq<seq<int>>)
    requires |grid| > 0 && |grid[0]| == |grid|
    ensures DefaultEnd(grid) == BottomRight(grid)
  {
  }

  /** Set up the records, open an empty min-heap on f and search from `s`
      to `e`. A start or end off the grid makes the source read a field of
      `undefined` (`grid[y]` or `grid[y][x]` is missing), reported here as
      an error. */
  method SearchFrom(grid: seq<seq<int>>, s: Pos, e: Pos)
    returns (r: Result<Option<(seq<Pos>, int)>>)
    ensures r.Ok? <==> InGrid(grid, s) && InGrid(grid, e)
    ensures r.Ok? ==>
              && (r.value.Some? <==> s == e)
              && (r.value.Some? ==> r.value.value == ([s], Cost(grid, s)))
  {
    if !InGrid(grid, s) || !InGrid(grid, e) {
      return Err("TypeError: cell is undefined");
    }
    var openHeap := new Heap([], "min", FKey(map[]));
    var found, _ := Search(grid, s, e, openHeap);
    return Ok(found);
  }

  /** `run` as written: `startPos` defaults to the top-left cell and
      `endPos` to `DefaultEnd`, which leaves every non-square grid (on
      `[[1, 1]]` the call fails). An empty grid with no end fails reading
      `grid[0].length`. */
  method Run(grid: seq<seq<int>>, startPos: Option<Pos>, endPos: Option<Pos>)
    returns (r: Result<Option<(seq<Pos>, int)>>)
    ensures var s := if startPos.Some? then startPos.value else Pos(0, 0);
            r.Ok? <==> InGrid(grid, s) && (endPos.Some? || |grid| > 0)
                       && InGrid(grid, if endPos.Some? then endPos.value else DefaultEnd(grid))
    ensures r.Ok? ==>
              var s := if startPos.Some? then startPos.value else Pos(0, 0);
              var e := if endPos.Some? then endPos.value else DefaultEnd(grid);
              && (r.value.Some? <==> s == e)
              && (r.value.Some? ==> r.value.value == ([s], Cost(grid, s)))
  {
    var s := if startPos.Some? then startPos.value else Pos(0, 0);
    if endPos.None? && |grid| == 0 {
      return Err("TypeError: grid[0] is undefined");
    }
    var e := if endPos.Some? then endPos.value else DefaultEnd(grid);
    r := SearchFrom(grid, s, e);
  }

  /** `run` with the corrected default end `BottomRight`: on a rectangular
      non-empty grid a call without an end always reaches the search. */
  method FixedRun(grid: seq<seq<int>>, startPos: Option<Pos>, endPos: Option<Pos>)
    returns (r: Result<Option<(seq<Pos>, int)>>)
    ensures var s := if startPos.Some? then startPos.value else Pos(0, 0);
            r.Ok? <==> InGrid(grid, s) && (endPos.Some? || |grid| > 0)
                       && InGrid(grid, if endPos.Some? then endPos.value else BottomRight(grid))
    ensures (endPos.None? && startPos.None? && |grid| > 0 && |grid[0]| > 0
             && forall i :: 0 <= i < |grid| ==> |grid[i]| == |grid[0]|) ==> r.Ok?
    ensures r.Ok? ==>
              var s := if startPos.Some? then startPos.value else Pos(0, 0);
              var e := if endPos.Some? then endPos.value else BottomRight(grid);
              && (r.value.Some? <==> s == e)
              && (r.value.Some? ==> r.value.value == ([s], Cost(grid, s)))
  {
    var s := if startPos.Some? then startPos.value else Pos(0, 0);
    if endPos.None? && |grid| == 0 {
      return Err("TypeError: grid[0] is undefined");
    }
    var e := if endPos.Some? then endPos.value else BottomRight(grid);
    r := SearchFrom(grid, s, e);
  }
}
