/** Territory estimation: the number of empty cells reachable from a start
    cell by 4-connected steps through empty cells (calculateAccessibleArea). */
module Territory {
  import opened Geometry
  import opened Board

  /** A walk through passable cells, each step to a 4-neighbour. */
  ghost predicate IsPath(g: Grid, p: seq<Cell>) {
    && |p| > 0
    && (forall i :: 0 <= i < |p| ==> Passable(g, p[i]))
    && (forall i :: 0 <= i < |p| - 1 ==> Adjacent(p[i], p[i + 1]))
  }

  ghost predicate Connected(g: Grid, a: Cell, b: Cell) {
    exists p :: IsPath(g, p) && p[0] == a && p[|p| - 1] == b
  }

  /** The 4-connected component of `start` among the empty cells (empty when
      `start` itself is blocked or outside). */
  ghost function Reachable(g: Grid, start: Cell): (s: set<Cell>)
    ensures s <= FreeCells(g)
  {
    set c | c in FreeCells(g) && Connected(g, start, c)
  }

  /** The territory of `start`: the size of its component. */
  ghost function Area(g: Grid, start: Cell): nat {
    |Reachable(g, start)|
  }

  lemma ConnectedToSelf(g: Grid, a: Cell)
    requires Passable(g, a)
    ensures Connected(g, a, a)
  {
    assert IsPath(g, [a]);
  }

  /** A connection extends by one step into a passable neighbour. */
  lemma ConnectedExtend(g: Grid, a: Cell, b: Cell, c: Cell)
    requires Connected(g, a, b) && Adjacent(b, c) && Passable(g, c)
    ensures Connected(g, a, c)
  {
    var p :| IsPath(g, p) && p[0] == a && p[|p| - 1] == b;
    var q := p + [c];
    forall i | 0 <= i < |q| - 1
      ensures Adjacent(q[i], q[i + 1])
    {
      if i + 1 < |p| { assert q[i] == p[i] && q[i + 1] == p[i + 1]; }
    }
    assert IsPath(g, q);
  }

  /** A set that holds the start (when it is passable) and every passable
      neighbour of its members holds the whole component. */
  lemma {:induction false} ClosedSetContainsReachable(g: Grid, start: Cell, visited: set<Cell>)
    requires Passable(g, start) ==> start in visited
    requires forall v, d :: v in visited && Passable(g, Step(v, d)) ==> Step(v, d) in visited
    ensures Reachable(g, start) <= visited
  {
    forall c | c in Reachable(g, start)
      ensures c in visited
    {
      var p :| IsPath(g, p) && p[0] == start && p[|p| - 1] == c;
      var i := 0;
      while i < |p| - 1
        invariant 0 <= i < |p|
        invariant p[i] in visited
      {
        var d := AdjacentIsStep(p[i], p[i + 1]);
        assert Passable(g, Step(p[i], d));
        i := i + 1;
      }
    }
  }

  /** The four neighbours in the order the fill pushes them. */
  function Neighbours(c: Cell): (ns: seq<Cell>)
    ensures forall d :: Step(c, d) in ns
  {
    [Step(c, North), Step(c, East), Step(c, South), Step(c, West)]
  }

  /** Every queued cell is the start or a neighbour of a visited cell. */
  ghost predicate QueueFromVisited(start: Cell, toVisit: seq<Cell>, visited: set<Cell>) {
    forall q :: q in toVisit ==> q == start || exists v :: v in visited && Adjacent(v, q)
  }

  /** Every passable neighbour of a visited cell is visited or still queued. */
  ghost predicate NeighboursCovered(g: Grid, toVisit: seq<Cell>, visited: set<Cell>) {
    forall v, d :: v in visited && Passable(g, Step(v, d)) ==> Step(v, d) in visited || Step(v, d) in toVisit
  }

  /** What the flood fill keeps true between iterations: everything visited
      lies in the component; every queued cell is the start or a neighbour of
      a visited cell; the start and every passable neighbour of a visited cell
      is visited or still queued. */
  ghost predicate FillInvariant(g: Grid, start: Cell, toVisit: seq<Cell>, visited: set<Cell>) {
    && visited <= Reachable(g, start)
    && QueueFromVisited(start, toVisit, visited)
    && (start in visited || start in toVisit || !Passable(g, start))
    && NeighboursCovered(g, toVisit, visited)
  }

  // InTail and FromTail state facts Dafny knows about a sequence's tail;
  // they are named so that the fill lemmas can instantiate them at exactly
  // the cells they need, which keeps those proofs small.
  lemma InTail<T>(s: seq<T>, q: T)
    requires q in s && q != s[0]
    ensures q in s[1..]
  {
  }

  lemma FromTail<T>(s: seq<T>, q: T)
    requires s != [] && q in s[1..]
    ensures q in s
  {
  }

  /** Dropping a queued cell that is visited or blocked keeps the invariant. */
  lemma SkipKeepsInvariant(g: Grid, start: Cell, toVisit: seq<Cell>, visited: set<Cell>)
    requires toVisit != [] && FillInvariant(g, start, toVisit, visited)
    requires toVisit[0] in visited || !Passable(g, toVisit[0])
    ensures FillInvariant(g, start, toVisit[1..], visited)
  {
    forall q | q in toVisit[1..]
      ensures q == start || exists v :: v in visited && Adjacent(v, q)
    {
      FromTail(toVisit, q);
    }
    if start !in visited && Passable(g, start) {
      InTail(toVisit, start);
    }
    forall v, d | v in visited && Passable(g, Step(v, d)) && Step(v, d) !in visited
      ensures Step(v, d) in toVisit[1..]
    {
      InTail(toVisit, Step(v, d));
    }
  }

  /** The front cell, about to be visited, belongs to the component. */
  lemma VisitedCellInComponent(g: Grid, start: Cell, toVisit: seq<Cell>, visited: set<Cell>)
    requires toVisit != [] && FillInvariant(g, start, toVisit, visited)
    requires Passable(g, toVisit[0])
    ensures toVisit[0] in Reachable(g, start)
  {
    var current := toVisit[0];
    if current == start {
      ConnectedToSelf(g, start);
    } else {
      assert current in toVisit;
      var v :| v in visited && Adjacent(v, current);
      ConnectedExtend(g, start, v, current);
    }
  }

  lemma VisitKeepsQueueFromVisited(start: Cell, toVisit: seq<Cell>, visited: set<Cell>)
    requires toVisit != [] && QueueFromVisited(start, toVisit, visited)
    ensures QueueFromVisited(start, toVisit[1..] + Neighbours(toVisit[0]), visited + {toVisit[0]})
  {
    var current := toVisit[0];
    forall q | q in toVisit[1..] + Neighbours(current)
      ensures q == start || exists v :: v in visited + {current} && Adjacent(v, q)
    {
      if q in toVisit[1..] {
        FromTail(toVisit, q);
      } else {
        assert q in Neighbours(current);
        assert Adjacent(current, q);
      }
    }
  }

  lemma VisitKeepsNeighboursCovered(g: Grid, toVisit: seq<Cell>, visited: set<Cell>)
    requires toVisit != [] && NeighboursCovered(g, toVisit, visited)
    ensures NeighboursCovered(g, toVisit[1..] + Neighbours(toVisit[0]), visited + {toVisit[0]})
  {
  }

  /** Visiting the queued cell at the front and pushing its neighbours keeps
      the invariant. */
  lemma VisitKeepsInvariant(g: Grid, start: Cell, toVisit: seq<Cell>, visited: set<Cell>)
    requires toVisit != [] && FillInvariant(g, start, toVisit, visited)
    requires toVisit[0] !in visited && Passable(g, toVisit[0])
    ensures FillInvariant(g, start, toVisit[1..] + Neighbours(toVisit[0]), visited + {toVisit[0]})
  {
    var current := toVisit[0];
    var next := toVisit[1..] + Neighbours(current);
    var visited' := visited + {current};
    VisitedCellInComponent(g, start, toVisit, visited);
    assert visited' <= Reachable(g, start);
    VisitKeepsQueueFromVisited(start, toVisit, visited);
    VisitKeepsNeighboursCovered(g, toVisit, visited);
    assert start in visited' || start in next || !Passable(g, start) by {
      if start != current && start in toVisit {
        InTail(toVisit, start);
      }
    }
  }

  /** Once the queue is empty the visited set is exactly the component. */
  lemma FinishedFillIsComponent(g: Grid, start: Cell, visited: set<Cell>)
    requires FillInvariant(g, start, [], visited)
    ensures visited == Reachable(g, start)
  {
    ClosedSetContainsReachable(g, start, visited);
  }

  /** Breadth-first flood fill with a FIFO queue and a visited set.
      Neighbours are pushed unconditionally; a dequeued cell is skipped when
      it is visited, outside or occupied. `pushes` counts the cells ever
      pushed onto the queue and `pops` the cells taken off it, one per loop
      iteration. */
  method AccessibleArea(g: Grid, start: Cell) returns (area: nat, ghost pushes: nat, ghost pops: nat)
    ensures area == |Reachable(g, start)|
    ensures !Passable(g, start) ==> area == 0
    ensures area <= |FreeCells(g)|
    ensures pushes == 1 + 4 * area && pops == pushes
  {
    var toVisit: seq<Cell> := [start];
    var visited: set<Cell> := {};
    area := 0;
    pushes, pops := |toVisit|, 0;
    while toVisit != []
      invariant area == |visited| && pushes == 1 + 4 * area
      invariant pushes == pops + |toVisit|
      invariant FillInvariant(g, start, toVisit, visited)
      decreases |FreeCells(g) - visited|, |toVisit|
    {
      var current := toVisit[0];
      if current in visited || !Inside(g, current) || g.cell(current) != 0 {
        SkipKeepsInvariant(g, start, toVisit, visited);
        assert |toVisit[1..]| == |toVisit| - 1;
        toVisit, pops := toVisit[1..], pops + 1;
        continue;
      }
      VisitKeepsInvariant(g, start, toVisit, visited);
      assert FreeCells(g) - (visited + {current}) < FreeCells(g) - visited;
      assert |toVisit[1..] + Neighbours(current)| == |toVisit| + 3;
      toVisit, pops, pushes := toVisit[1..] + Neighbours(current), pops + 1, pushes + |Neighbours(current)|;
      visited := visited + {current};
      area := area + 1;
    }
    FinishedFillIsComponent(g, start, visited);
    SubsetCardinality(visited, FreeCells(g));
  }

  /** The territory is empty exactly when the start is blocked or outside. */
  lemma EmptyAreaIffBlockedStart(g: Grid, start: Cell)
    ensures Reachable(g, start) == {} <==> !Passable(g, start)
  {
    if Reachable(g, start) != {} {
      var c :| c in Reachable(g, start);
      var p :| IsPath(g, p) && p[0] == start && p[|p| - 1] == c;
      assert Passable(g, p[0]);
    }
    if Passable(g, start) {
      ConnectedToSelf(g, start);
      assert start in Reachable(g, start);
    }
  }

  /** 0 <= area <= number of empty cells <= width * height. */
  lemma AreaBounds(g: Grid, start: Cell)
    ensures 0 <= Area(g, start) <= |FreeCells(g)| <= g.width * g.height
  {
    SubsetCardinality(Reachable(g, start), FreeCells(g));
  }

  ghost predicate AllEmpty(g: Grid) {
    forall c :: Inside(g, c) ==> g.cell(c) == 0
  }

  /** On an all-empty grid any two inside cells are connected: walk along x,
      then along y. */
  lemma {:induction false} EmptyGridConnected(g: Grid, a: Cell, b: Cell)
    requires AllEmpty(g) && Inside(g, a) && Inside(g, b)
    ensures Connected(g, a, b)
    decreases Abs(a.x - b.x) + Abs(a.y - b.y)
  {
    if a == b {
      ConnectedToSelf(g, a);
    } else {
      var b' := if b.x < a.x then Step(b, East)
                else if b.x > a.x then Step(b, West)
                else if b.y < a.y then Step(b, South)
                else Step(b, North);
      EmptyGridConnected(g, a, b');
      ConnectedExtend(g, a, b', b);
    }
  }

  /** On an all-empty grid the territory of any inside cell is the whole grid. */
  lemma EmptyGridArea(g: Grid, start: Cell)
    requires AllEmpty(g) && Inside(g, start)
    ensures Area(g, start) == g.width * g.height
  {
    forall c | Inside(g, c)
      ensures c in Reachable(g, start)
    {
      EmptyGridConnected(g, start, c);
    }
    assert Reachable(g, start) == GridCells(g);
  }

  /** The component holds every passable neighbour of its members. */
  lemma ComponentIsClosed(g: Grid, start: Cell, v: Cell, d: Direction)
    requires v in Reachable(g, start) && Passable(g, Step(v, d))
    ensures Step(v, d) in Reachable(g, start)
  {
    ConnectedExtend(g, start, v, Step(v, d));
  }

  /** `h` differs from `g` in passability only at cells that are occupied
      in `g`, are not the start and do not border the component of `start`. */
  ghost predicate ChangesOnlyAwayFrom(g: Grid, h: Grid, start: Cell) {
    forall c :: Passable(g, c) != Passable(h, c) ==>
      !Passable(g, c) && c != start && forall v :: v in Reachable(g, start) ==> !Adjacent(v, c)
  }

  lemma ComponentSurvivesChange(g: Grid, h: Grid, start: Cell, c: Cell)
    requires ChangesOnlyAwayFrom(g, h, start) && c in Reachable(g, start)
    ensures c in Reachable(h, start)
  {
  }

  lemma ComponentStaysClosed(g: Grid, h: Grid, start: Cell)
    requires ChangesOnlyAwayFrom(g, h, start)
    ensures Passable(h, start) ==> start in Reachable(g, start)
    ensures forall v, d :: v in Reachable(g, start) && Passable(h, Step(v, d)) ==> Step(v, d) in Reachable(g, start)
  {
    if Passable(h, start) {
      ConnectedToSelf(g, start);
    }
    forall v, d | v in Reachable(g, start) && Passable(h, Step(v, d))
      ensures Step(v, d) in Reachable(g, start)
    {
      assert Adjacent(v, Step(v, d));
      ComponentIsClosed(g, start, v, d);
    }
  }

  /** Locality: changing cells that are occupied and do not border the
      component of `start` (to any marker, even 0) leaves the component and
      so the territory unchanged. In particular relabelling one non-zero
      marker as another never changes the territory. */
  lemma AreaIsLocal(g: Grid, h: Grid, start: Cell)
    requires ChangesOnlyAwayFrom(g, h, start)
    ensures Reachable(g, start) == Reachable(h, start)
    ensures Area(g, start) == Area(h, start)
  {
    forall c | c in Reachable(g, start)
      ensures c in Reachable(h, start)
    {
      ComponentSurvivesChange(g, h, start, c);
    }
    ComponentStaysClosed(g, h, start);
    ClosedSetContainsReachable(h, start, Reachable(g, start));
  }
}
