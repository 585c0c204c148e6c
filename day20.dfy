// Day 20: a racetrack of walls ('#') and track on a grid, with a start 'S'
// and an end 'E'. Two breadth-first searches give every cell's distance from
// the start and from the end; a cheat leaves a reached track cell and lands
// on a track cell within a Manhattan radius, and both parts count the cheats
// that save at least 100 steps on the race without cheating.

module Day20 {
  import opened Common
  import opened Grids
  import opened Counting

  /** The racetrack, one string per line. Positions are (x, y), as the
      source's `Point`: x is the column, y the row. */
  type Track = seq<string>

  /** `u32::MAX`: the table entry of a cell no search reached. */
  const Unreached: nat := 0xFFFF_FFFF

  /** A cheat counts when it saves at least this many steps. */
  const Saving: nat := 100

  /** `track[0].len()`. */
  function Cols(track: Track): nat
  {
    if |track| == 0 then 0 else |track[0]|
  }

  /** No line is shorter than the first, so every cell in bounds can be read. */
  predicate WellFormed(track: Track)
  {
    forall y :: 0 <= y < |track| ==> |track[y]| >= Cols(track)
  }

  predicate InGrid(track: Track, p: Pos)
  {
    InBounds(p, Cols(track), |track|)
  }

  function Grid(track: Track): set<Pos>
  {
    Cells(Cols(track), |track|)
  }

  /** A cell of the grid that is not a wall. */
  predicate Passable(track: Track, p: Pos)
  {
    InGrid(track, p) && p.0 < |track[p.1]| && track[p.1][p.0] != '#'
  }

  /** `manhattan_distance`. */
  function Manhattan(p: Pos, q: Pos): (r: nat)
    ensures r == 0 <==> p == q
  {
    Abs(p.0 - q.0) + Abs(p.1 - q.1)
  }

  /** `adjacent_points`, in the order the search tries them. */
  function Adjacent(p: Pos): (r: seq<Pos>)
    ensures |r| == 4 && forall q :: q in r ==> Manhattan(p, q) == 1
  {
    [(p.0 + 1, p.1), (p.0 - 1, p.1), (p.0, p.1 + 1), (p.0, p.1 - 1)]
  }

  /** The adjacent points are exactly the points at Manhattan distance 1. */
  lemma AdjacentIff(p: Pos, q: Pos)
    ensures q in Adjacent(p) <==> Manhattan(p, q) == 1
  {
    var a := Adjacent(p);
    if Manhattan(p, q) == 1 {
      if q.0 == p.0 + 1 {
        assert q == a[0];
      } else if q.0 == p.0 - 1 {
        assert q == a[1];
      } else if q.1 == p.1 + 1 {
        assert q == a[2];
      } else {
        assert q == a[3];
      }
    }
  }

  lemma ManhattanSymmetric(p: Pos, q: Pos)
    ensures Manhattan(p, q) == Manhattan(q, p)
  {
  }

  /** The passable cells among the first k adjacent points of p. */
  function PassableAmong(track: Track, p: Pos, k: nat): set<Pos>
    requires k <= 4
  {
    if k == 0 then {}
    else
      var q := Adjacent(p)[k - 1];
      PassableAmong(track, p, k - 1) + (if Passable(track, q) then {q} else {})
  }

  lemma {:induction false} PassableAmongIff(track: Track, p: Pos, k: nat, q: Pos)
    requires k <= 4
    ensures q in PassableAmong(track, p, k) <==>
      Passable(track, q) && exists i :: 0 <= i < k && q == Adjacent(p)[i]
  {
    if k > 0 {
      PassableAmongIff(track, p, k - 1, q);
    }
  }

  /** One step of the race: from a cell of the grid to a passable neighbour.
      The search never leaves the grid, so a cell outside it has no moves. */
  function Moves(track: Track): Pos -> set<Pos>
  {
    p => if InGrid(track, p) then PassableAmong(track, p, 4) else {}
  }

  lemma MovesIff(track: Track, p: Pos, q: Pos)
    ensures q in Moves(track)(p) <==> InGrid(track, p) && Passable(track, q) && Manhattan(p, q) == 1
  {
    PassableAmongIff(track, p, 4, q);
    AdjacentIff(p, q);
    if q in Adjacent(p) {
      var i :| 0 <= i < 4 && Adjacent(p)[i] == q;
    }
  }

  /** Every cell reached in one step or more is in the grid. */
  lemma ReachInGrid(track: Track, start: Pos, k: nat)
    requires k > 0
    ensures ReachIn(Moves(track), start, k) <= Grid(track)
  {
    forall c | c in ReachIn(Moves(track), start, k) ensures c in Grid(track) {
      var a :| a in ReachIn(Moves(track), start, k - 1) && c in Moves(track)(a);
      MovesIff(track, a, c);
      InCells(c, Cols(track), |track|);
    }
  }

  /** The entry the table of distances from start holds for c: the length of
      a shortest race from start to c, or Unreached. */
  ghost function Far(track: Track, start: Pos, c: Pos): nat
  {
    if Reachable(Moves(track), start, c) then
      var k: nat :| c in ReachIn(Moves(track), start, k);
      ShortestExists(Moves(track), start, c, k);
      var d: nat :| Shortest(Moves(track), start, c, d);
      d
    else Unreached
  }

  lemma FarIs(track: Track, start: Pos, c: Pos, d: nat)
    requires Shortest(Moves(track), start, c, d)
    ensures Far(track, start, c) == d
  {
    assert Reachable(Moves(track), start, c);
    var e := Far(track, start, c);
    ShortestUnique(Moves(track), start, c, d, e);
  }

  /** Walls are never entered, so only the start can be a wall with a distance. */
  lemma WallUnreached(track: Track, start: Pos, p: Pos)
    requires !Passable(track, p) && p != start
    ensures Far(track, start, p) == Unreached
  {
    if Reachable(Moves(track), start, p) {
      var k: nat :| p in ReachIn(Moves(track), start, k);
      var a :| a in ReachIn(Moves(track), start, k - 1) && p in Moves(track)(a);
      MovesIff(track, a, p);
      assert false;
    }
  }

  // ---------------------------------------------------------------------------
  // The table of distances, one entry per cell in row-major order

  /** The index of p in the table: `y * cols + x`. */
  function Spot(track: Track, p: Pos): int
  {
    FlatIndex(p.1, p.0, Cols(track))
  }

  lemma SpotInTable(track: Track, p: Pos)
    requires InGrid(track, p)
    ensures 0 <= Spot(track, p) < |track| * Cols(track)
  {
    FlatIndexInGrid(p.1, p.0, Cols(track), |track|);
    MulComm(Cols(track), |track|);
  }

  lemma SpotInjective(track: Track, p: Pos, q: Pos)
    requires InGrid(track, p) && InGrid(track, q) && Spot(track, p) == Spot(track, q)
    ensures p == q
  {
    FlatIndexInjective(p.1, p.0, q.1, q.0, Cols(track));
  }

  /** d is what `calculate_distances` returns: each cell's distance from
      start, Unreached for the cells no race from start enters. */
  ghost predicate Table(track: Track, start: Pos, d: seq<nat>)
  {
    |d| == |track| * Cols(track) &&
    forall p :: InGrid(track, p) ==> (SpotInTable(track, p); d[Spot(track, p)] == Far(track, start, p))
  }

  /** The entries of the cells in seen hold their distances from start and
      every other entry is Unreached. */
  ghost predicate Holds(track: Track, start: Pos, d: seq<nat>, seen: set<Pos>)
  {
    |d| == |track| * Cols(track) && seen <= Grid(track) &&
    forall p :: InGrid(track, p) ==>
      (SpotInTable(track, p);
       (d[Spot(track, p)] != Unreached <==> p in seen) &&
       (p in seen ==> Shortest(Moves(track), start, p, d[Spot(track, p)])))
  }

  /** An entry no search has written yet. */
  ghost predicate Unset(track: Track, d: seq<nat>, q: Pos)
  {
    InGrid(track, q) && |d| == |track| * Cols(track) && (SpotInTable(track, q); d[Spot(track, q)] == Unreached)
  }

  lemma HoldsNone(track: Track, start: Pos, d: seq<nat>)
    requires |d| == |track| * Cols(track) && forall i :: 0 <= i < |d| ==> d[i] == Unreached
    ensures Holds(track, start, d, {})
  {
    forall p | InGrid(track, p) ensures (SpotInTable(track, p); d[Spot(track, p)] == Unreached) {
      SpotInTable(track, p);
    }
  }

  lemma HoldsAt(track: Track, start: Pos, d: seq<nat>, seen: set<Pos>, p: Pos)
    requires Holds(track, start, d, seen) && InGrid(track, p)
    ensures 0 <= Spot(track, p) < |d|
    ensures d[Spot(track, p)] != Unreached <==> p in seen
  {
    SpotInTable(track, p);
  }

  /** Writing the distance of a cell not yet in seen. */
  lemma HoldsSet(track: Track, start: Pos, d: seq<nat>, seen: set<Pos>, b: Pos, cost: nat)
    requires Holds(track, start, d, seen) && InGrid(track, b) && b !in seen
    requires Shortest(Moves(track), start, b, cost) && cost != Unreached
    ensures 0 <= Spot(track, b) < |d|
    ensures Holds(track, start, d[Spot(track, b) := cost], seen + {b})
  {
    SpotInTable(track, b);
    InCells(b, Cols(track), |track|);
    var after := d[Spot(track, b) := cost];
    forall p | InGrid(track, p)
      ensures (SpotInTable(track, p);
               (after[Spot(track, p)] != Unreached <==> p in seen + {b}) &&
               (p in seen + {b} ==> Shortest(Moves(track), start, p, after[Spot(track, p)])))
    {
      SpotInTable(track, p);
      if Spot(track, p) == Spot(track, b) {
        SpotInjective(track, p, b);
      }
    }
  }

  // ---------------------------------------------------------------------------
  // `calculate_distances`: a search one layer of cells at a time

  /** Before layer cost: seen holds the cells of the grid nearer than cost,
      the current queue holds only cells cost steps away and every cell of
      the grid cost steps away is seen or queued. A non-empty layer follows
      cost layers that each took in a cell. */
  ghost predicate Layer(track: Track, start: Pos, seen: set<Pos>, cost: nat, current: seq<Pos>)
  {
    seen == Within(Moves(track), start, cost) * Grid(track) &&
    Elems(current) <= ReachIn(Moves(track), start, cost) &&
    ReachIn(Moves(track), start, cost) * Grid(track) <= seen + Elems(current) &&
    (current != [] ==> cost <= |seen|) &&
    (current == [] ==> cost > 0)
  }

  /** During layer cost, which began with seen0: the cells taken in since are
      cost steps away, the rest of the queue still covers the ones not yet
      taken in, the next queue holds cells cost + 1 steps away, and every
      neighbour of a cell taken in is seen or in the next queue. */
  ghost predicate Swept(track: Track, start: Pos, seen0: set<Pos>, seen: set<Pos>, cost: nat,
                        rest: seq<Pos>, next: seq<Pos>)
  {
    seen0 == Within(Moves(track), start, cost) * Grid(track) && cost <= |seen0| &&
    seen0 <= seen && seen <= seen0 + ReachIn(Moves(track), start, cost) &&
    Elems(rest) <= ReachIn(Moves(track), start, cost) &&
    ReachIn(Moves(track), start, cost) * Grid(track) <= seen + Elems(rest) &&
    Elems(next) <= ReachIn(Moves(track), start, cost + 1) &&
    (forall b {:trigger Moves(track)(b)} :: b in seen - seen0 ==> Moves(track)(b) <= seen + Elems(next)) &&
    (next != [] ==> seen != seen0)
  }

  lemma LayerStart(track: Track, start: Pos)
    ensures Layer(track, start, {}, 0, [start])
  {
    ElemsOne(start);
  }

  lemma SweepStart(track: Track, start: Pos, seen: set<Pos>, cost: nat, current: seq<Pos>)
    requires Layer(track, start, seen, cost, current) && current != []
    ensures Swept(track, start, seen, seen, cost, current, [])
  {
  }

  /** Popping a cell outside the grid or already seen changes nothing else. */
  lemma SweepSkip(track: Track, start: Pos, seen0: set<Pos>, seen: set<Pos>, cost: nat,
                  rest: seq<Pos>, next: seq<Pos>)
    requires Swept(track, start, seen0, seen, cost, rest, next) && |rest| > 0
    requires !InGrid(track, rest[0]) || rest[0] in seen
    ensures Swept(track, start, seen0, seen, cost, rest[1..], next)
  {
    ElemsFront(rest);
    if !InGrid(track, rest[0]) {
      assert rest[0] !in Grid(track);
    }
  }

  /** A popped cell of the grid not yet seen is exactly cost steps away. */
  lemma SettleShortest(track: Track, start: Pos, seen0: set<Pos>, seen: set<Pos>, cost: nat,
                       rest: seq<Pos>, next: seq<Pos>)
    requires Swept(track, start, seen0, seen, cost, rest, next) && |rest| > 0
    requires InGrid(track, rest[0]) && rest[0] !in seen
    requires seen <= Grid(track) && |track| * Cols(track) < Unreached
    ensures Shortest(Moves(track), start, rest[0], cost) && cost != Unreached
  {
    var pos := rest[0];
    assert pos in Elems(rest);
    InCells(pos, Cols(track), |track|);
    assert pos !in Within(Moves(track), start, cost);
    forall k: nat | k < cost ensures pos !in ReachIn(Moves(track), start, k) {
      WithinIff(Moves(track), start, cost, pos);
    }
    SubsetCard(seen0, Grid(track));
    CellsCard(Cols(track), |track|);
    MulComm(Cols(track), |track|);
  }

  /** Taking in the popped cell and queueing its unseen neighbours. */
  lemma SweepSettle(track: Track, start: Pos, seen0: set<Pos>, seen: set<Pos>, cost: nat,
                    rest: seq<Pos>, next: seq<Pos>, pushed: seq<Pos>)
    requires Swept(track, start, seen0, seen, cost, rest, next) && |rest| > 0 && rest[0] !in seen
    requires Elems(pushed) <= Moves(track)(rest[0]) <= seen + {rest[0]} + Elems(pushed)
    ensures Swept(track, start, seen0, seen + {rest[0]}, cost, rest[1..], next + pushed)
  {
    var pos := rest[0];
    ElemsFront(rest);
    ElemsAppend(next, pushed);
    forall c | c in Elems(pushed) ensures c in ReachIn(Moves(track), start, cost + 1) {
      StepIn(Moves(track), start, cost, pos, c);
    }
    assert pos in seen + {pos} - seen0;
    forall b | b in seen + {pos} - seen0
      ensures Moves(track)(b) <= seen + {pos} + Elems(next + pushed)
    {
      if b != pos {
        assert Moves(track)(b) <= seen + Elems(next);
      }
    }
  }

  /** The end of a layer: seen now holds the cells nearer than cost + 1, and
      either it grew or the next queue is empty. */
  /** A cell of the grid cost + 1 steps away is seen or queued next. */
  lemma NextCovered(track: Track, start: Pos, seen0: set<Pos>, seen: set<Pos>, cost: nat,
                    next: seq<Pos>, c: Pos)
    requires c in ReachIn(Moves(track), start, cost + 1) && c in Grid(track)
    requires seen0 == Within(Moves(track), start, cost) * Grid(track)
    requires seen == Within(Moves(track), start, cost + 1) * Grid(track)
    requires ReachIn(Moves(track), start, cost) * Grid(track) <= seen
    requires forall b {:trigger Moves(track)(b)} :: b in seen - seen0 ==> Moves(track)(b) <= seen + Elems(next)
    ensures c in seen + Elems(next)
  {
    var moves := Moves(track);
    var b :| b in ReachIn(moves, start, cost) && c in moves(b);
    MovesIff(track, b, c);
    InCells(b, Cols(track), |track|);
    if b in seen0 {
      WithinStep(moves, start, cost, b, c);
    } else {
      assert b in seen - seen0;
    }
  }

  /** The end of a layer: seen now holds the cells nearer than cost + 1, and
      either it grew or the next queue is empty. */
  /** The cells taken in during layer cost are the cells of the grid cost steps away. */
  lemma LayerGrown(track: Track, start: Pos, seen0: set<Pos>, seen: set<Pos>, cost: nat)
    requires seen0 == Within(Moves(track), start, cost) * Grid(track)
    requires seen0 <= seen <= seen0 + ReachIn(Moves(track), start, cost)
    requires ReachIn(Moves(track), start, cost) * Grid(track) <= seen <= Grid(track)
    ensures seen == Within(Moves(track), start, cost + 1) * Grid(track)
  {
    assert Within(Moves(track), start, cost + 1) ==
      Within(Moves(track), start, cost) + ReachIn(Moves(track), start, cost);
  }

  lemma LayerNext(track: Track, start: Pos, seen0: set<Pos>, seen: set<Pos>, cost: nat, next: seq<Pos>)
    requires Swept(track, start, seen0, seen, cost, [], next) && seen <= Grid(track)
    ensures Layer(track, start, seen, cost + 1, next)
    ensures seen != seen0 ==> |Grid(track) - seen| < |Grid(track) - seen0|
    ensures seen == seen0 ==> next == []
  {
    var moves := Moves(track);
    assert Elems([]) == {};
    LayerGrown(track, start, seen0, seen, cost);
    forall c | c in ReachIn(moves, start, cost + 1) * Grid(track) ensures c in seen + Elems(next) {
      NextCovered(track, start, seen0, seen, cost, next, c);
    }
    if seen != seen0 {
      var p :| p in seen && p !in seen0;
      CellsFewer(seen0, seen, p, Cols(track), |track|);
      ProperSubsetCard(seen0, seen, p);
    }
  }




  /** Once nothing is left cost steps away, the entry of each cell of the
      grid is what the table should hold. */
  lemma DoneAt(track: Track, start: Pos, d: seq<nat>, seen: set<Pos>, cost: nat, p: Pos)
    requires Holds(track, start, d, seen) && seen == Within(Moves(track), start, cost) * Grid(track)
    requires ReachIn(Moves(track), start, cost) <= Within(Moves(track), start, cost)
    requires InGrid(track, p)
    ensures 0 <= Spot(track, p) < |d| && d[Spot(track, p)] == Far(track, start, p)
  {
    var moves := Moves(track);
    SpotInTable(track, p);
    InCells(p, Cols(track), |track|);
    if p in seen {
      FarIs(track, start, p, d[Spot(track, p)]);
    } else if Reachable(moves, start, p) {
      var k: nat :| p in ReachIn(moves, start, k);
      Saturated(moves, start, cost, k);
    }
  }

  /** An empty layer: every cell cost steps away is nearer. */
  lemma Dry(track: Track, start: Pos, seen: set<Pos>, cost: nat)
    requires Layer(track, start, seen, cost, [])
    ensures ReachIn(Moves(track), start, cost) <= Within(Moves(track), start, cost)
  {
    ReachInGrid(track, start, cost);
    assert Elems([]) == {};
    forall c | c in ReachIn(Moves(track), start, cost) ensures c in Within(Moves(track), start, cost) {
      assert c in ReachIn(Moves(track), start, cost) * Grid(track);
    }
  }

  /** When the queue runs dry every reachable cell of the grid has been seen,
      and the table holds every distance. */
  lemma LayerDone(track: Track, start: Pos, d: seq<nat>, seen: set<Pos>, cost: nat)
    requires Holds(track, start, d, seen) && Layer(track, start, seen, cost, [])
    ensures Table(track, start, d)
  {
    Dry(track, start, seen, cost);
    forall p | InGrid(track, p) ensures (SpotInTable(track, p); d[Spot(track, p)] == Far(track, start, p)) {
      DoneAt(track, start, d, seen, cost, p);
    }
  }


  /** The `for next in pos.adjacent_points()` loop: the passable neighbours
      of pos whose distance is not yet set, in the order they are pushed. */
  method PushAround(track: Track, dist: array<nat>, pos: Pos) returns (pushed: seq<Pos>)
    requires WellFormed(track) && dist.Length == |track| * Cols(track) && InGrid(track, pos)
    ensures forall q :: q in Elems(pushed) <==> q in Moves(track)(pos) && Unset(track, dist[..], q)
  {
    pushed := [];
    var around := Adjacent(pos);
    for i := 0 to 4
      invariant forall q :: q in Elems(pushed) <==> q in PassableAmong(track, pos, i) && Unset(track, dist[..], q)
    {
      var q := around[i];
      if 0 <= q.1 < |track| && 0 <= q.0 < |track[0]| && track[q.1][q.0] != '#' {
        SpotInTable(track, q);
        if dist[Spot(track, q)] == Unreached {
          ElemsAppend(pushed, [q]);
          ElemsOne(q);
          pushed := pushed + [q];
        }
      }
    }
  }

  /** Popping a cell outside the grid or one whose distance is already set. */
  lemma SkipStep(track: Track, start: Pos, d: seq<nat>, seen0: set<Pos>, seen: set<Pos>, cost: nat,
                 rest: seq<Pos>, next: seq<Pos>)
    requires Holds(track, start, d, seen) && Swept(track, start, seen0, seen, cost, rest, next)
    requires |rest| > 0 && (!InGrid(track, rest[0]) || Spot(track, rest[0]) < |d|)
    requires InGrid(track, rest[0]) ==> 0 <= Spot(track, rest[0]) && d[Spot(track, rest[0])] != Unreached
    ensures Swept(track, start, seen0, seen, cost, rest[1..], next)
  {
    if InGrid(track, rest[0]) {
      HoldsAt(track, start, d, seen, rest[0]);
    }
    SweepSkip(track, start, seen0, seen, cost, rest, next);
  }

  /** The body of `calculate_distances`'s inner loop for a cell of the grid
      whose distance is unset: it gets distance cost, and its passable
      neighbours whose distance is unset are pushed on the next queue. */
  method Settle(track: Track, dist: array<nat>, pos: Pos, cost: nat, ghost start: Pos,
                ghost seen0: set<Pos>, ghost seen: set<Pos>, ghost rest: seq<Pos>, ghost next: seq<Pos>)
    returns (pushed: seq<Pos>)
    requires WellFormed(track) && |track| * Cols(track) < Unreached
    requires Holds(track, start, dist[..], seen) && Swept(track, start, seen0, seen, cost, rest, next)
    requires |rest| > 0 && rest[0] == pos && InGrid(track, pos) && pos !in seen
    modifies dist
    ensures 0 <= Spot(track, pos) < dist.Length && dist[..] == old(dist[..])[Spot(track, pos) := cost]
    ensures forall q :: q in Elems(pushed) <==> q in Moves(track)(pos) && Unset(track, dist[..], q)
    ensures Holds(track, start, dist[..], seen + {pos})
    ensures Swept(track, start, seen0, seen + {pos}, cost, rest[1..], next + pushed)
  {
    SettleShortest(track, start, seen0, seen, cost, rest, next);
    HoldsSet(track, start, dist[..], seen, pos, cost);
    dist[Spot(track, pos)] := cost;
    pushed := PushAround(track, dist, pos);
    forall q | q in Moves(track)(pos) ensures q in seen + {pos} + Elems(pushed) {
      MovesIff(track, pos, q);
      HoldsAt(track, start, dist[..], seen + {pos}, q);
    }
    SweepSettle(track, start, seen0, seen, cost, rest, next, pushed);
  }

  /** The inner loop of `calculate_distances`: pops the current queue dry,
      setting the distance of each cell of layer cost and pushing its unset
      passable neighbours on the next queue. */
  method Sweep(track: Track, dist: array<nat>, current: seq<Pos>, next: seq<Pos>, cost: nat,
               ghost start: Pos, ghost seen0: set<Pos>)
    returns (drained: seq<Pos>, filled: seq<Pos>, ghost seen: set<Pos>)
    requires WellFormed(track) && |track| > 0 && |track| * Cols(track) < Unreached
    requires Holds(track, start, dist[..], seen0) && Swept(track, start, seen0, seen0, cost, current, next)
    modifies dist
    ensures drained == []
    ensures Holds(track, start, dist[..], seen) && Swept(track, start, seen0, seen, cost, [], filled)
  {
    var rows := |track|;
    var cols := |track[0]|;
    drained, filled, seen := current, next, seen0;
    while drained != []
      invariant Holds(track, start, dist[..], seen) && Swept(track, start, seen0, seen, cost, drained, filled)
      decreases |drained|
    {
      var pos := drained[0];
      if pos.1 < 0 || pos.1 >= rows || pos.0 < 0 || pos.0 >= cols {
        SkipStep(track, start, dist[..], seen0, seen, cost, drained, filled);
        drained := drained[1..];
        continue;
      }
      SpotInTable(track, pos);
      if dist[Spot(track, pos)] != Unreached {
        SkipStep(track, start, dist[..], seen0, seen, cost, drained, filled);
        drained := drained[1..];
        continue;
      }
      HoldsAt(track, start, dist[..], seen, pos);
      var pushed := Settle(track, dist, pos, cost, start, seen0, seen, drained, filled);
      drained := drained[1..];
      filled := filled + pushed;
      seen := seen + {pos};
    }
  }

  /** `calculate_distances`: the table of every cell's distance from start. */
  method CalculateDistances(track: Track, start: Pos) returns (dist: array<nat>)
    requires |track| > 0 && WellFormed(track) && |track| * Cols(track) < Unreached
    ensures Table(track, start, dist[..])
  {
    var rows := |track|;
    var cols := |track[0]|;
    dist := new nat[rows * cols](_ => Unreached);
    var current := [start];
    var next: seq<Pos> := [];
    var cost: nat := 0;
    ghost var seen: set<Pos> := {};
    HoldsNone(track, start, dist[..]);
    LayerStart(track, start);
    while current != []
      invariant Holds(track, start, dist[..], seen) && Layer(track, start, seen, cost, current) && next == []
      decreases |Grid(track) - seen|, |current|
    {
      ghost var seen0 := seen;
      SweepStart(track, start, seen, cost, current);
      current, next, seen := Sweep(track, dist, current, next, cost, start, seen0);
      LayerNext(track, start, seen0, seen, cost, next);
      current, next := next, current;
      cost := cost + 1;
    }
    LayerDone(track, start, dist[..], seen, cost);
  }



  // ---------------------------------------------------------------------------
  // Cheats

  /** How far a cheat may go and what it costs: part one allows exactly
      `radius` steps and charges 2 for them, part two allows up to `radius`
      steps and charges their Manhattan distance. */
  datatype Rule = Rule(radius: nat, exact: bool)

  const PartOneRule: Rule := Rule(2, true)
  const PartTwoRule: Rule := Rule(20, false)

  function Allowed(rule: Rule, md: nat): bool
  {
    if rule.exact then md == rule.radius else md <= rule.radius
  }

  function Charge(rule: Rule, md: nat): nat
  {
    if rule.exact then rule.radius else md
  }

  /** The distances from start, as a map over the cells. */
  ghost function Distances(track: Track, start: Pos): Pos -> nat
  {
    c => Far(track, start, c)
  }

  /** d holds f at every cell of the track. */
  ghost predicate Agrees(track: Track, d: seq<nat>, f: Pos -> nat)
  {
    |d| == |track| * Cols(track) &&
    forall p :: InGrid(track, p) ==> (SpotInTable(track, p); d[Spot(track, p)] == f(p))
  }

  lemma TableAgrees(track: Track, start: Pos, d: seq<nat>)
    requires Table(track, start, d)
    ensures Agrees(track, d, Distances(track, start))
  {
  }

  /** A counted cheat from mid to q, with fs the distances from the start, fe
      the distances from the end and orig the length of the race without
      cheating: mid is passable and reached, q is passable and reaches the
      end, and the race through the cheat plus Saving is at most orig. */
  ghost predicate Cheat(track: Track, fs: Pos -> nat, fe: Pos -> nat, orig: nat, rule: Rule, mid: Pos, q: Pos)
  {
    Passable(track, mid) && fs(mid) != Unreached &&
    Allowed(rule, Manhattan(mid, q)) &&
    Passable(track, q) && fe(q) != Unreached &&
    fs(mid) + fe(q) + Charge(rule, Manhattan(mid, q)) + Saving <= orig
  }

  /** The test of a counted cheat from mid. */
  ghost function Hits(track: Track, fs: Pos -> nat, fe: Pos -> nat, orig: nat, rule: Rule, mid: Pos): Pos -> bool
  {
    q => Cheat(track, fs, fe, orig, rule, mid, q)
  }

  /** The cheats from mid among the cells within `radius` rows and columns
      of it, the offsets the loops of `part_one` and `part_two` visit. */
  ghost function CellTally(track: Track, fs: Pos -> nat, fe: Pos -> nat, orig: nat, rule: Rule, mid: Pos): nat
  {
    CountBox(Hits(track, fs, fe, orig, rule, mid), mid.0 - rule.radius, mid.1 - rule.radius,
             2 * rule.radius + 1, 2 * rule.radius + 1)
  }

  /** The cheats from cells 0 .. n - 1 of line y. */
  ghost function LineTally(track: Track, fs: Pos -> nat, fe: Pos -> nat, orig: nat, rule: Rule, y: int, n: nat): nat
  {
    if n == 0 then 0
    else LineTally(track, fs, fe, orig, rule, y, n - 1) + CellTally(track, fs, fe, orig, rule, (n - 1, y))
  }

  /** The cheats from lines 0 .. m - 1. */
  ghost function GridTally(track: Track, fs: Pos -> nat, fe: Pos -> nat, orig: nat, rule: Rule, m: nat): nat
  {
    if m == 0 then 0
    else GridTally(track, fs, fe, orig, rule, m - 1) + LineTally(track, fs, fe, orig, rule, m - 1, Cols(track))
  }

  /** The answer of a part on a track the source accepts: the cheats counted
      with the distances from the start and from the end, against the
      end's distance from the start. */
  ghost function Answer(track: Track, rule: Rule): nat
  {
    var s, e := LastOf(track, 'S'), LastOf(track, 'E');
    GridTally(track, Distances(track, s), Distances(track, e), Far(track, e, s), rule, |track|)
  }

  /** The loops over offsets for one passable mid reached from the start. */
  method CheatsFrom(track: Track, de: array<nat>, rule: Rule, mid: Pos, here: nat, orig: nat,
                    lo: int, bottom: int, side: nat,
                    ghost fs: Pos -> nat, ghost fe: Pos -> nat, ghost hit: Pos -> bool) returns (n: nat)
    requires WellFormed(track) && Agrees(track, de[..], fe)
    requires Passable(track, mid) && here == fs(mid) != Unreached
    requires hit == Hits(track, fs, fe, orig, rule, mid)
    ensures n == CountBox(hit, lo, bottom, side, side)
  {
    n := 0;
    for i := 0 to side
      invariant n == CountBox(hit, lo, bottom, side, i)
    {
      var k := CheatsInRow(track, de, rule, mid, here, lo, bottom + i, side, orig, fs, fe, hit);
      CountBoxStep(hit, lo, bottom, side, i, n, k);
      n := n + k;
    }
  }

  /** A wall, or a cell the start does not reach, starts no cheat: the loops
      over offsets may be skipped for it. */
  lemma CellTallySkip(track: Track, fs: Pos -> nat, fe: Pos -> nat, orig: nat, rule: Rule, mid: Pos)
    requires !Passable(track, mid) || fs(mid) == Unreached
    ensures CellTally(track, fs, fe, orig, rule, mid) == 0
  {
    CountBoxNone(Hits(track, fs, fe, orig, rule, mid), mid.0 - rule.radius, mid.1 - rule.radius,
                 2 * rule.radius + 1, 2 * rule.radius + 1);
  }

  /** The inner loop over column offsets, for the row y. */
  method CheatsInRow(track: Track, de: array<nat>, rule: Rule, mid: Pos, here: nat,
                     lo: int, y: int, side: nat, orig: nat,
                     ghost fs: Pos -> nat, ghost fe: Pos -> nat, ghost hit: Pos -> bool) returns (n: nat)
    requires WellFormed(track) && Agrees(track, de[..], fe)
    requires Passable(track, mid) && here == fs(mid) != Unreached
    requires hit == Hits(track, fs, fe, orig, rule, mid)
    ensures n == CountRow(hit, lo, y, side)
  {
    n := 0;
    for k := 0 to side
      invariant n == CountRow(hit, lo, y, k)
    {
      var q := (lo + k, y);
      var b := Lands(track, de, rule, mid, here, q, orig, fs, fe);
      CountRowStep(hit, lo, y, k);
      if b {
        n := n + 1;
      }
    }
  }

  /** The test of one offset: whether the cheat from mid to q is counted. */
  method Lands(track: Track, de: array<nat>, rule: Rule, mid: Pos, here: nat, q: Pos, orig: nat,
               ghost fs: Pos -> nat, ghost fe: Pos -> nat) returns (b: bool)
    requires WellFormed(track) && Agrees(track, de[..], fe)
    requires Passable(track, mid) && here == fs(mid) != Unreached
    ensures b == Cheat(track, fs, fe, orig, rule, mid, q)
  {
    var md := Manhattan(mid, q);
    if !Allowed(rule, md) {
      return false;
    }
    if q.1 < 0 || q.1 >= |track| || q.0 < 0 || q.0 >= |track[0]| || track[q.1][q.0] == '#' {
      return false;
    }
    SpotInTable(track, q);
    if de[Spot(track, q)] == Unreached {
      return false;
    }
    var newDistance := here + de[Spot(track, q)] + Charge(rule, md);
    b := newDistance + Saving <= orig;
  }

  /** The loops over the cells of the track. */
  method CountCheats(track: Track, ds: array<nat>, de: array<nat>, rule: Rule, orig: nat,
                     ghost fs: Pos -> nat, ghost fe: Pos -> nat) returns (count: nat)
    requires |track| > 0 && WellFormed(track) && Agrees(track, ds[..], fs) && Agrees(track, de[..], fe)
    ensures count == GridTally(track, fs, fe, orig, rule, |track|)
  {
    count := 0;
    for y := 0 to |track|
      invariant count == GridTally(track, fs, fe, orig, rule, y)
    {
      var k := CheatsInLine(track, ds, de, rule, y, orig, fs, fe);
      count := count + k;
    }
  }

  /** The inner loop over the cells of line y. */
  method CheatsInLine(track: Track, ds: array<nat>, de: array<nat>, rule: Rule, y: nat, orig: nat,
                      ghost fs: Pos -> nat, ghost fe: Pos -> nat) returns (count: nat)
    requires |track| > 0 && y < |track| && WellFormed(track)
    requires Agrees(track, ds[..], fs) && Agrees(track, de[..], fe)
    ensures count == LineTally(track, fs, fe, orig, rule, y, Cols(track))
  {
    count := 0;
    for x := 0 to |track[0]|
      invariant count == LineTally(track, fs, fe, orig, rule, y, x)
    {
      SpotInTable(track, (x, y));
      var k := CellCount(track, de, rule, (x, y), ds[Spot(track, (x, y))], orig, fs, fe);
      LineStep(track, fs, fe, orig, rule, y, x, k);
      count := count + k;
    }
  }

  /** One cell of the loop over the track: a wall or a cell the start does
      not reach adds nothing. */
  method CellCount(track: Track, de: array<nat>, rule: Rule, mid: Pos, here: nat, orig: nat,
                   ghost fs: Pos -> nat, ghost fe: Pos -> nat) returns (k: nat)
    requires |track| > 0 && InGrid(track, mid) && WellFormed(track)
    requires here == fs(mid) && Agrees(track, de[..], fe)
    ensures k == CellTally(track, fs, fe, orig, rule, mid)
  {
    if track[mid.1][mid.0] == '#' || here == Unreached {
      CellTallySkip(track, fs, fe, orig, rule, mid);
      return 0;
    }
    k := CheatsFrom(track, de, rule, mid, here, orig,
                    mid.0 - rule.radius, mid.1 - rule.radius, 2 * rule.radius + 1,
                    fs, fe, Hits(track, fs, fe, orig, rule, mid));
  }

  lemma {:induction false} LineStep(track: Track, fs: Pos -> nat, fe: Pos -> nat, orig: nat, rule: Rule,
                                    y: int, x: nat, k: nat)
    requires k == CellTally(track, fs, fe, orig, rule, (x, y))
    ensures LineTally(track, fs, fe, orig, rule, y, x + 1) == LineTally(track, fs, fe, orig, rule, y, x) + k
  {
  }

  /** The input is one the source handles without panicking: a first line
      that is not empty, no shorter line, and a start inside the grid. */
  predicate Valid(track: Track)
  {
    |track| > 0 && Cols(track) > 0 && WellFormed(track) && InGrid(track, LastOf(track, 'S'))
  }

  /** The body shared by `part_one` and `part_two`; None where the source panics. */
  method Race(track: Track, rule: Rule) returns (r: Option<nat>)
    requires |track| * Cols(track) < Unreached
    ensures r == if Valid(track) then Some(Answer(track, rule)) else None
  {
    if |track| == 0 || |track[0]| == 0 || !WellFormed(track) {
      return None;
    }
    var start, end := FindMarks(track);
    if start.1 < 0 || start.1 >= |track| || start.0 < 0 || start.0 >= |track[0]| {
      return None;
    }
    var ds := CalculateDistances(track, start);
    var de := CalculateDistances(track, end);
    TableAgrees(track, start, ds[..]);
    TableAgrees(track, end, de[..]);
    SpotInTable(track, start);
    var orig := de[Spot(track, start)];
    var count := CountCheats(track, ds, de, rule, orig, Distances(track, start), Distances(track, end));
    return Some(count);
  }

  method PartOne(track: Track) returns (r: Option<nat>)
    requires |track| * Cols(track) < Unreached
    ensures r == if Valid(track) then Some(Answer(track, PartOneRule)) else None
  {
    r := Race(track, PartOneRule);
  }

  method PartTwo(track: Track) returns (r: Option<nat>)
    requires |track| * Cols(track) < Unreached
    ensures r == if Valid(track) then Some(Answer(track, PartTwoRule)) else None
  {
    r := Race(track, PartTwoRule);
  }

  // ---------------------------------------------------------------------------
  // What the tallies count

  /** The cells on which a counted cheat from mid ends. */
  ghost function Ends(track: Track, fs: Pos -> nat, fe: Pos -> nat, orig: nat, rule: Rule, mid: Pos): set<Pos>
  {
    set q | q in Grid(track) && Cheat(track, fs, fe, orig, rule, mid, q)
  }

  /** A counted cheat ends within `radius` rows and columns of where it starts. */
  lemma CheatNear(track: Track, fs: Pos -> nat, fe: Pos -> nat, orig: nat, rule: Rule, mid: Pos, q: Pos)
    requires Cheat(track, fs, fe, orig, rule, mid, q)
    ensures mid.1 - rule.radius <= q.1 <= mid.1 + rule.radius
    ensures mid.0 - rule.radius <= q.0 <= mid.0 + rule.radius
  {
    assert Manhattan(mid, q) <= rule.radius;
  }

  /** The ends of counted cheats from mid are the cells of the box around
      mid that pass its test. */
  lemma EndsInBox(track: Track, fs: Pos -> nat, fe: Pos -> nat, orig: nat, rule: Rule, mid: Pos)
    ensures forall q :: q in Ends(track, fs, fe, orig, rule, mid) <==>
      mid.1 - rule.radius <= q.1 < mid.1 - rule.radius + (2 * rule.radius + 1) &&
      mid.0 - rule.radius <= q.0 < mid.0 - rule.radius + (2 * rule.radius + 1) &&
      Hits(track, fs, fe, orig, rule, mid)(q)
  {
    forall q | q in Ends(track, fs, fe, orig, rule, mid) ensures Hits(track, fs, fe, orig, rule, mid)(q) {
      CheatNear(track, fs, fe, orig, rule, mid, q);
    }
    forall q | Hits(track, fs, fe, orig, rule, mid)(q) ensures q in Ends(track, fs, fe, orig, rule, mid) {
      InCells(q, Cols(track), |track|);
    }
  }

  /** What `part_one` and `part_two` add for one cell is the number of
      cells a counted cheat from it ends on. */
  lemma CellTallyCounts(track: Track, fs: Pos -> nat, fe: Pos -> nat, orig: nat, rule: Rule, mid: Pos)
    ensures CellTally(track, fs, fe, orig, rule, mid) == |Ends(track, fs, fe, orig, rule, mid)|
  {
    EndsInBox(track, fs, fe, orig, rule, mid);
    CountBoxIs(Hits(track, fs, fe, orig, rule, mid), mid.0 - rule.radius, mid.1 - rule.radius,
               2 * rule.radius + 1, 2 * rule.radius + 1, Ends(track, fs, fe, orig, rule, mid));
  }

  /** Every cheat of part one is a cheat of part two. */
  lemma CheatWidens(track: Track, fs: Pos -> nat, fe: Pos -> nat, orig: nat, mid: Pos, q: Pos)
    requires Cheat(track, fs, fe, orig, PartOneRule, mid, q)
    ensures Cheat(track, fs, fe, orig, PartTwoRule, mid, q)
  {
  }

  lemma CellTallyWidens(track: Track, fs: Pos -> nat, fe: Pos -> nat, orig: nat, mid: Pos)
    ensures CellTally(track, fs, fe, orig, PartOneRule, mid) <= CellTally(track, fs, fe, orig, PartTwoRule, mid)
  {
    CellTallyCounts(track, fs, fe, orig, PartOneRule, mid);
    CellTallyCounts(track, fs, fe, orig, PartTwoRule, mid);
    forall q | q in Ends(track, fs, fe, orig, PartOneRule, mid) ensures q in Ends(track, fs, fe, orig, PartTwoRule, mid) {
      CheatWidens(track, fs, fe, orig, mid, q);
    }
    SubsetCard(Ends(track, fs, fe, orig, PartOneRule, mid), Ends(track, fs, fe, orig, PartTwoRule, mid));
  }

  lemma {:induction false} LineTallyWidens(track: Track, fs: Pos -> nat, fe: Pos -> nat, orig: nat, y: int, n: nat)
    ensures LineTally(track, fs, fe, orig, PartOneRule, y, n) <= LineTally(track, fs, fe, orig, PartTwoRule, y, n)
  {
    if n > 0 {
      LineTallyWidens(track, fs, fe, orig, y, n - 1);
      CellTallyWidens(track, fs, fe, orig, (n - 1, y));
    }
  }

  lemma {:induction false} GridTallyWidens(track: Track, fs: Pos -> nat, fe: Pos -> nat, orig: nat, m: nat)
    ensures GridTally(track, fs, fe, orig, PartOneRule, m) <= GridTally(track, fs, fe, orig, PartTwoRule, m)
  {
    if m > 0 {
      GridTallyWidens(track, fs, fe, orig, m - 1);
      LineTallyWidens(track, fs, fe, orig, m - 1, Cols(track));
    }
  }

  /** Part two never counts fewer cheats than part one. */
  lemma PartOneWithinPartTwo(track: Track)
    ensures Answer(track, PartOneRule) <= Answer(track, PartTwoRule)
  {
    var s, e := LastOf(track, 'S'), LastOf(track, 'E');
    GridTallyWidens(track, Distances(track, s), Distances(track, e), Far(track, e, s), |track|);
  }
}
