// Day 10: hiking trails that climb one height at a time from 0 to 9.

module Day10 {
  import opened Common

  /** Heights 0..9, row by row. */
  type Grid = seq<seq<int>>

  /** (row, column). */
  type Cell = (int, int)

  // ---------------------------------------------------------------------------
  // Parsing

  /** `char::to_digit(10)`. */
  function DigitOf(c: char): (r: Option<int>)
    ensures r.Some? <==> '0' <= c <= '9'
    ensures r.Some? ==> 0 <= r.value <= 9 && r.value == c as int - '0' as int
  {
    if '0' <= c <= '9' then Some(c as int - '0' as int) else None
  }

  function ParseLine(line: string): Option<seq<int>>
  {
    if |line| == 0 then Some([])
    else
      var front, last := ParseLine(line[..|line| - 1]), DigitOf(line[|line| - 1]);
      if front.None? || last.None? then None else Some(front.value + [last.value])
  }

  /** `parse_input`: None where a character is not a decimal digit (the
      source's `unwrap` panics). */
  function ParseInput(lines: seq<string>): (r: Option<Grid>)
    ensures r.Some? <==> forall i :: 0 <= i < |lines| ==> ParseLine(lines[i]).Some?
    ensures r.Some? ==> |r.value| == |lines| && forall i :: 0 <= i < |lines| ==> ParseLine(lines[i]) == Some(r.value[i])
  {
    if |lines| == 0 then Some([])
    else
      var front, last := ParseInput(lines[..|lines| - 1]), ParseLine(lines[|lines| - 1]);
      if front.None? || last.None? then None else Some(front.value + [last.value])
  }

  lemma {:induction false} ParseLineDigits(line: string)
    ensures ParseLine(line).Some? <==> forall k :: 0 <= k < |line| ==> '0' <= line[k] <= '9'
    ensures ParseLine(line).Some? ==>
      |ParseLine(line).value| == |line| &&
      forall k :: 0 <= k < |line| ==> ParseLine(line).value[k] == line[k] as int - '0' as int
  {
    if |line| > 0 {
      ParseLineDigits(line[..|line| - 1]);
    }
  }

  /** The input parses exactly when every character is a digit, and then
      each cell holds its digit's value. */
  lemma {:induction false} ParseInputDigits(lines: seq<string>)
    ensures ParseInput(lines).Some? <==>
      forall i, k :: 0 <= i < |lines| && 0 <= k < |lines[i]| ==> '0' <= lines[i][k] <= '9'
    ensures ParseInput(lines).Some? ==>
      |ParseInput(lines).value| == |lines| &&
      forall i :: 0 <= i < |lines| ==>
        |ParseInput(lines).value[i]| == |lines[i]| &&
        forall k :: 0 <= k < |lines[i]| ==> ParseInput(lines).value[i][k] == lines[i][k] as int - '0' as int
  {
    if |lines| > 0 {
      var front := lines[..|lines| - 1];
      ParseInputDigits(front);
      ParseLineDigits(lines[|lines| - 1]);
      assert forall i :: 0 <= i < |front| ==> front[i] == lines[i];
      if ParseInput(front).None? {
        var i, k :| 0 <= i < |front| && 0 <= k < |front[i]| && !('0' <= front[i][k] <= '9');
        assert !('0' <= lines[i][k] <= '9');
      }
      if ParseLine(lines[|lines| - 1]).None? {
        var k :| 0 <= k < |lines[|lines| - 1]| && !('0' <= lines[|lines| - 1][k] <= '9');
      }
    }
  }

  // ---------------------------------------------------------------------------
  // Trails

  /** A first row, no row shorter than it (cells past its width are never
      looked at), every height a digit. */
  predicate Valid(grid: Grid)
  {
    |grid| > 0 &&
    (forall i :: 0 <= i < |grid| ==> |grid[i]| >= |grid[0]|) &&
    (forall i, j :: 0 <= i < |grid| && 0 <= j < |grid[i]| ==> 0 <= grid[i][j] <= 9)
  }

  predicate InGrid(grid: Grid, c: Cell)
  {
    |grid| > 0 && 0 <= c.0 < |grid| && 0 <= c.1 < |grid[0]|
  }

  /** The height of a cell of a valid grid. */
  function Height(grid: Grid, c: Cell): int
  {
    if 0 <= c.0 < |grid| && 0 <= c.1 < |grid[c.0]| then grid[c.0][c.1] else -1
  }

  function Add(c: Cell, d: Cell): Cell
  {
    (c.0 + d.0, c.1 + d.1)
  }

  /** The order `count_reachable_nines` tries the neighbours in. */
  const Directions: seq<Cell> := [(0, 1), (1, 0), (0, -1), (-1, 0)]

  /** b is on the grid and one higher than a. */
  predicate Climbs(grid: Grid, a: Cell, b: Cell)
  {
    InGrid(grid, b) && Height(grid, b) == Height(grid, a) + 1
  }

  /** The neighbours through the first k directions that are one higher. */
  function SuccessorsAmong(grid: Grid, a: Cell, k: nat): set<Cell>
    requires k <= 4
  {
    if k == 0 then {}
    else
      var b := Add(a, Directions[k - 1]);
      SuccessorsAmong(grid, a, k - 1) + (if Climbs(grid, a, b) then {b} else {})
  }

  /** The cells one step up a trail from a. */
  function Successors(grid: Grid, a: Cell): set<Cell>
  {
    SuccessorsAmong(grid, a, 4)
  }

  lemma {:induction false} SuccessorsAmongClimb(grid: Grid, a: Cell, k: nat)
    requires k <= 4
    ensures forall b :: b in SuccessorsAmong(grid, a, k) <==> exists d :: d in Directions[..k] && b == Add(a, d) && Climbs(grid, a, b)
  {
    if k > 0 {
      SuccessorsAmongClimb(grid, a, k - 1);
      assert Directions[..k] == Directions[..k - 1] + [Directions[k - 1]];
    }
  }

  /** The successors are the neighbours in the four directions one higher. */
  lemma SuccessorsClimb(grid: Grid, a: Cell, b: Cell)
    ensures b in Successors(grid, a) <==> Climbs(grid, a, b) && b in {(a.0, a.1 + 1), (a.0 + 1, a.1), (a.0, a.1 - 1), (a.0 - 1, a.1)}
  {
    SuccessorsAmongClimb(grid, a, 4);
    assert Directions[..4] == Directions;
    if b == (a.0, a.1 + 1) {
      assert b == Add(a, Directions[0]);
    } else if b == (a.0 + 1, a.1) {
      assert b == Add(a, Directions[1]);
    } else if b == (a.0, a.1 - 1) {
      assert b == Add(a, Directions[2]);
    } else if b == (a.0 - 1, a.1) {
      assert b == Add(a, Directions[3]);
    }
  }

  /** The cells k steps up a trail from start. */
  ghost function ReachIn(grid: Grid, start: Cell, k: nat): set<Cell>
  {
    if k == 0 then {start}
    else set a, b | a in ReachIn(grid, start, k - 1) && b in Successors(grid, a) :: b
  }

  ghost predicate Reachable(grid: Grid, start: Cell, c: Cell)
  {
    exists k: nat :: c in ReachIn(grid, start, k)
  }

  /** The cells of the grid. */
  function Cells(grid: Grid): set<Cell>
  {
    if |grid| == 0 then {} else set i, j | 0 <= i < |grid| && 0 <= j < |grid[0]| :: (i, j)
  }

  /** The height-9 cells among s. */
  function NinesIn(grid: Grid, s: set<Cell>): set<Cell>
  {
    set c | c in s && Height(grid, c) == 9
  }

  /** The score of a trailhead: the height-9 cells a trail reaches from it. */
  ghost function Nines(grid: Grid, start: Cell): set<Cell>
  {
    set c | c in Cells(grid) && Height(grid, c) == 9 && Reachable(grid, start, c)
  }

  lemma SuccessorReachable(grid: Grid, start: Cell, a: Cell, b: Cell)
    requires Reachable(grid, start, a) && b in Successors(grid, a)
    ensures Reachable(grid, start, b)
  {
    var k: nat :| a in ReachIn(grid, start, k);
    assert b in ReachIn(grid, start, k + 1);
  }

  /** A set that holds start and every successor of its members holds every
      cell reachable from start. */
  lemma {:induction false} ClosedHoldsReach(grid: Grid, start: Cell, s: set<Cell>, k: nat)
    requires start in s && forall a :: a in s ==> Successors(grid, a) <= s
    ensures ReachIn(grid, start, k) <= s
  {
    if k > 0 {
      ClosedHoldsReach(grid, start, s, k - 1);
    }
  }

  lemma NinesStep(grid: Grid, s: set<Cell>, c: Cell)
    requires c !in s
    ensures |NinesIn(grid, s + {c})| == |NinesIn(grid, s)| + (if Height(grid, c) == 9 then 1 else 0)
  {
    if Height(grid, c) == 9 {
      assert NinesIn(grid, s + {c}) == NinesIn(grid, s) + {c};
    } else {
      assert NinesIn(grid, s + {c}) == NinesIn(grid, s);
    }
  }

  // ---------------------------------------------------------------------------
  // Part one: breadth-first search

  function CellOf(e: (int, int, int)): Cell
  {
    (e.0, e.1)
  }

  function QueueCells(queue: seq<(int, int, int)>): set<Cell>
  {
    set k | 0 <= k < |queue| :: CellOf(queue[k])
  }

  /** Queue entries are on the grid, distinct, and carry their cell's height. */
  predicate QueueOk(grid: Grid, queue: seq<(int, int, int)>)
  {
    (forall k :: 0 <= k < |queue| ==> InGrid(grid, CellOf(queue[k])) && queue[k].2 == Height(grid, CellOf(queue[k]))) &&
    (forall k, l :: 0 <= k < l < |queue| ==> CellOf(queue[k]) != CellOf(queue[l]))
  }

  /** The flag at a cell's flat index is set exactly for the cells of seen. */
  ghost predicate MarksSeq(grid: Grid, flags: seq<bool>, seen: set<Cell>)
  {
    |grid| > 0 && |flags| == |grid| * |grid[0]| &&
    forall c :: InGrid(grid, c) ==> (FlatIndexInGrid(c.0, c.1, |grid[0]|, |grid|); flags[FlatIndex(c.0, c.1, |grid[0]|)] <==> c in seen)
  }

  /** `visited` marks exactly the cells of seen. */
  ghost predicate Marks(grid: Grid, visited: array<bool>, seen: set<Cell>)
    reads visited
  {
    MarksSeq(grid, visited[..], seen)
  }

  /** No flag set marks no cell. */
  lemma NoneMarked(grid: Grid, flags: seq<bool>)
    requires |grid| > 0 && |flags| == |grid| * |grid[0]| && forall k :: 0 <= k < |flags| ==> !flags[k]
    ensures MarksSeq(grid, flags, {})
  {
    forall c | InGrid(grid, c)
      ensures (FlatIndexInGrid(c.0, c.1, |grid[0]|, |grid|); !flags[FlatIndex(c.0, c.1, |grid[0]|)])
    {
      FlatIndexInGrid(c.0, c.1, |grid[0]|, |grid|);
    }
  }

  /** Setting the flag of one cell marks exactly it in addition. */
  lemma MarkOne(grid: Grid, flags: seq<bool>, seen: set<Cell>, b: Cell)
    requires MarksSeq(grid, flags, seen) && InGrid(grid, b)
    ensures FlatIndex(b.0, b.1, |grid[0]|) < |flags|
    ensures MarksSeq(grid, flags[FlatIndex(b.0, b.1, |grid[0]|) := true], seen + {b})
  {
    FlatIndexInGrid(b.0, b.1, |grid[0]|, |grid|);
    var after := flags[FlatIndex(b.0, b.1, |grid[0]|) := true];
    forall c | InGrid(grid, c)
      ensures (FlatIndexInGrid(c.0, c.1, |grid[0]|, |grid|); after[FlatIndex(c.0, c.1, |grid[0]|)] <==> c in seen + {b})
    {
      FlatIndexInGrid(c.0, c.1, |grid[0]|, |grid|);
      if FlatIndex(c.0, c.1, |grid[0]|) == FlatIndex(b.0, b.1, |grid[0]|) {
        FlatIndexInjective(c.0, c.1, b.0, b.1, |grid[0]|);
      }
    }
  }

  /** One direction of the loop in `count_reachable_nines`: the neighbour b
      is marked and queued when it is on the grid, unvisited and one higher. */
  method PushOne(grid: Grid, visited: array<bool>, queue: seq<(int, int, int)>, i: int, j: int, height: int, d: Cell,
                 ghost seen: set<Cell>)
    returns (next: seq<(int, int, int)>)
    modifies visited
    requires Valid(grid) && height == Height(grid, (i, j))
    requires Marks(grid, visited, seen) && QueueOk(grid, queue) && QueueCells(queue) <= seen
    ensures Marks(grid, visited, seen + (if Climbs(grid, (i, j), Add((i, j), d)) then {Add((i, j), d)} else {}))
    ensures QueueOk(grid, next)
    ensures QueueCells(next) == QueueCells(queue) + (if Climbs(grid, (i, j), Add((i, j), d)) && Add((i, j), d) !in seen then {Add((i, j), d)} else {})
  {
    var rows, cols := |grid|, |grid[0]|;
    var ni, nj := i + d.0, j + d.1;
    ghost var b := (ni, nj);
    next := queue;
    if 0 <= ni < rows && 0 <= nj < cols {
      FlatIndexInGrid(ni, nj, cols, rows);
      var idx := ni * cols + nj;
      if !visited[idx] && grid[ni][nj] == height + 1 {
        MarkOne(grid, visited[..], seen, b);
        visited[idx] := true;
        next := queue + [(ni, nj, height + 1)];
        assert QueueCells(next) == QueueCells(queue) + {b} by {
          assert forall k :: 0 <= k < |queue| ==> next[k] == queue[k];
          assert CellOf(next[|queue|]) == b;
        }
      }
    }
  }

  /** One turn of the loop over the directions, stated as the step of its
      invariant: after direction k the neighbours found through the first
      k + 1 directions are marked, and the fresh ones queued. */
  method PushStep(grid: Grid, visited: array<bool>, queue: seq<(int, int, int)>, next: seq<(int, int, int)>,
                  i: int, j: int, height: int, k: nat, ghost seen: set<Cell>)
    returns (after: seq<(int, int, int)>)
    modifies visited
    requires k < 4 && Valid(grid) && height == Height(grid, (i, j)) && QueueCells(queue) <= seen
    requires Marks(grid, visited, seen + SuccessorsAmong(grid, (i, j), k))
    requires QueueOk(grid, next) && QueueCells(next) == QueueCells(queue) + (SuccessorsAmong(grid, (i, j), k) - seen)
    ensures Marks(grid, visited, seen + SuccessorsAmong(grid, (i, j), k + 1))
    ensures QueueOk(grid, after) && QueueCells(after) == QueueCells(queue) + (SuccessorsAmong(grid, (i, j), k + 1) - seen)
  {
    ghost var marked := seen + SuccessorsAmong(grid, (i, j), k);
    after := PushOne(grid, visited, next, i, j, height, Directions[k], marked);
    ghost var b := Add((i, j), Directions[k]);
    QueueStep(QueueCells(queue), QueueCells(next), QueueCells(after), seen, SuccessorsAmong(grid, (i, j), k),
              if Climbs(grid, (i, j), b) then {b} else {});
  }

  /** The loop over the four directions of `count_reachable_nines`: each
      in-bounds, unvisited neighbour one higher is marked and queued. */
  method PushSuccessors(grid: Grid, visited: array<bool>, queue: seq<(int, int, int)>, i: int, j: int, height: int,
                        ghost seen: set<Cell>)
    returns (next: seq<(int, int, int)>)
    modifies visited
    requires Valid(grid) && height == Height(grid, (i, j))
    requires Marks(grid, visited, seen) && QueueOk(grid, queue) && QueueCells(queue) <= seen
    ensures Marks(grid, visited, seen + Successors(grid, (i, j)))
    ensures QueueOk(grid, next) && QueueCells(next) == QueueCells(queue) + (Successors(grid, (i, j)) - seen)
  {
    next := queue;
    for k := 0 to 4
      invariant Marks(grid, visited, seen + SuccessorsAmong(grid, (i, j), k))
      invariant QueueOk(grid, next) && QueueCells(next) == QueueCells(queue) + (SuccessorsAmong(grid, (i, j), k) - seen)
    {
      next := PushStep(grid, visited, queue, next, i, j, height, k, seen);
    }
  }

  /** Queueing the fresh members of x keeps the queue equal to the fresh
      members of all found so far. */
  lemma QueueStep(queued: set<Cell>, before: set<Cell>, after: set<Cell>, seen: set<Cell>, found: set<Cell>, x: set<Cell>)
    requires before == queued + (found - seen)
    requires after == before + (x - (seen + found))
    ensures after == queued + ((found + x) - seen)
  {
  }

  /** The loop state of the search: what was dequeued, what is queued, the
      marks, and the count of nines among the dequeued cells. */
  ghost predicate Searching(grid: Grid, start: Cell, visited: array<bool>, queue: seq<(int, int, int)>, done: set<Cell>, count: nat)
    reads visited
  {
    Valid(grid) && QueueOk(grid, queue) && done !! QueueCells(queue) && done <= Cells(grid) &&
    Marks(grid, visited, done + QueueCells(queue)) &&
    start in done + QueueCells(queue) &&
    (forall a :: a in done ==> Successors(grid, a) <= done + QueueCells(queue)) &&
    count == |NinesIn(grid, done)|
  }

  /** Every cell the search has seen is reachable from start. */
  ghost predicate AllReachable(grid: Grid, start: Cell, s: set<Cell>)
  {
    forall c :: c in s ==> Reachable(grid, start, c)
  }

  /** The front of a queue of distinct cells is not in the rest. */
  lemma Dequeue(queue: seq<(int, int, int)>)
    requires |queue| > 0
    requires forall k, l :: 0 <= k < l < |queue| ==> CellOf(queue[k]) != CellOf(queue[l])
    ensures QueueCells(queue) == QueueCells(queue[1..]) + {CellOf(queue[0])}
    ensures CellOf(queue[0]) !in QueueCells(queue[1..])
  {
    var rest := queue[1..];
    assert forall k :: 0 <= k < |rest| ==> rest[k] == queue[k + 1];
    assert CellOf(queue[0]) in QueueCells(queue);
    forall e | e in QueueCells(queue) ensures e in QueueCells(rest) + {CellOf(queue[0])} {
      var k :| 0 <= k < |queue| && CellOf(queue[k]) == e;
      if k > 0 {
        assert CellOf(rest[k - 1]) == e;
      }
    }
    assert forall k :: 0 <= k < |rest| ==> CellOf(rest[k]) != CellOf(queue[0]);
  }

  /** One turn of the search: dequeue a cell, count it when it is a 9, queue
      its unvisited successors. */
  method SearchStep(grid: Grid, start: Cell, visited: array<bool>, queue: seq<(int, int, int)>, ghost done: set<Cell>, count: nat)
    returns (nextQueue: seq<(int, int, int)>, ghost nextDone: set<Cell>, nextCount: nat)
    modifies visited
    requires |queue| > 0 && Searching(grid, start, visited, queue, done, count)
    requires AllReachable(grid, start, done + QueueCells(queue))
    ensures Searching(grid, start, visited, nextQueue, nextDone, nextCount)
    ensures AllReachable(grid, start, nextDone + QueueCells(nextQueue))
    ensures done <= nextDone <= Cells(grid) && |Cells(grid) - nextDone| < |Cells(grid) - done|
  {
    var (i, j, height) := queue[0];
    var c := (i, j);
    var rest := queue[1..];
    Dequeue(queue);
    nextCount := count;
    if grid[i][j] == 9 {
      nextCount := nextCount + 1;
    }
    NinesStep(grid, done, c);
    nextDone := done + {c};
    ghost var seen := done + QueueCells(queue);
    assert seen == nextDone + QueueCells(rest);
    nextQueue := PushSuccessors(grid, visited, rest, i, j, height, seen);
    forall b | b in Successors(grid, c) ensures Reachable(grid, start, b) {
      SuccessorReachable(grid, start, c, b);
    }
    assert nextDone + QueueCells(nextQueue) == seen + Successors(grid, c);
    assert Cells(grid) - nextDone == (Cells(grid) - done) - {c};
  }

  /** When the queue is empty the dequeued cells are closed under successors,
      so they are exactly the cells reachable from start. */
  lemma SearchDone(grid: Grid, start: Cell, visited: array<bool>, done: set<Cell>, count: nat)
    requires Searching(grid, start, visited, [], done, count) && AllReachable(grid, start, done)
    ensures count == |Nines(grid, start)|
  {
    assert QueueCells([]) == {};
    forall k: nat ensures ReachIn(grid, start, k) <= done {
      ClosedHoldsReach(grid, start, done, k);
    }
    assert NinesIn(grid, done) == Nines(grid, start);
  }

  /** `count_reachable_nines` from a trailhead: the number of height-9 cells
      some trail reaches. */
  method CountReachableNines(grid: Grid, start: Cell) returns (count: nat)
    requires Valid(grid) && InGrid(grid, start) && Height(grid, start) == 0
    ensures count == |Nines(grid, start)|
  {
    var rows, cols := |grid|, |grid[0]|;
    MulNonNegative(rows, cols);
    var visited := new bool[rows * cols](_ => false);
    count := 0;
    FlatIndexInGrid(start.0, start.1, cols, rows);
    NoneMarked(grid, visited[..]);
    MarkOne(grid, visited[..], {}, start);
    visited[start.0 * cols + start.1] := true;
    var queue := [(start.0, start.1, 0)];
    ghost var done: set<Cell> := {};
    assert CellOf(queue[0]) == start;
    assert QueueCells(queue) == {start};
    assert start in ReachIn(grid, start, 0);
    while |queue| > 0
      invariant Searching(grid, start, visited, queue, done, count)
      invariant AllReachable(grid, start, done + QueueCells(queue))
      decreases |Cells(grid) - done|
    {
      queue, done, count := SearchStep(grid, start, visited, queue, done, count);
    }
    SearchDone(grid, start, visited, done, count);
  }

  // ---------------------------------------------------------------------------
  // Part two: depth-first search

  /** The number of trails from c to a 9: one at a 9, otherwise the trails
      through each higher neighbour, taken up, left, down, right. */
  function Paths(grid: Grid, c: Cell): nat
    requires Valid(grid) && InGrid(grid, c)
    decreases 9 - Height(grid, c), 1
  {
    if Height(grid, c) == 9 then 1
    else Branch(grid, c, (-1, 0)) + Branch(grid, c, (0, -1)) + Branch(grid, c, (1, 0)) + Branch(grid, c, (0, 1))
  }

  /** The trails from c that continue to its neighbour in direction d. */
  function Branch(grid: Grid, c: Cell, d: Cell): nat
    requires Valid(grid) && InGrid(grid, c) && Height(grid, c) < 9
    decreases 9 - Height(grid, c), 0
  {
    var b := Add(c, d);
    if Climbs(grid, c, b) then Paths(grid, b) else 0
  }

  /** The path cells are a trail prefix: the k-th stands at height k. */
  predicate Trail(grid: Grid, path: seq<Cell>)
  {
    forall k :: 0 <= k < |path| ==> Height(grid, path[k]) == k
  }

  /** One neighbour test of `dfs`: recurse when the neighbour is on the grid,
      not on the current path and one higher. */
  method Explore(grid: Grid, i: int, j: int, d: Cell, height: int, pathCount: nat, currentPath: seq<Cell>)
    returns (count: nat, path: seq<Cell>)
    requires Valid(grid) && InGrid(grid, (i, j)) && Height(grid, (i, j)) == height < 9
    requires Trail(grid, currentPath) && |currentPath| == height + 1
    ensures path == currentPath && count == pathCount + Branch(grid, (i, j), d)
    decreases 9 - height, 0
  {
    var ni, nj := i + d.0, j + d.1;
    assert (ni, nj) == Add((i, j), d);
    if 0 <= ni < |grid| && 0 <= nj < |grid[0]| && (ni, nj) !in currentPath && grid[ni][nj] == height + 1 {
      count, path := Dfs(grid, ni, nj, pathCount, currentPath, height + 1);
    } else {
      count, path := pathCount, currentPath;
    }
  }

  /** `dfs`: pushes its cell, adds one at a 9 or recurses into each higher
      neighbour, and pops its cell on every return. The path is a trail
      prefix no longer than 9 below the current cell, which bounds the
      recursion depth at 10. */
  method Dfs(grid: Grid, i: int, j: int, pathCount: nat, currentPath: seq<Cell>, height: int)
    returns (count: nat, path: seq<Cell>)
    requires Valid(grid) && InGrid(grid, (i, j)) && Height(grid, (i, j)) == height
    requires Trail(grid, currentPath) && |currentPath| == height
    ensures path == currentPath && count == pathCount + Paths(grid, (i, j))
    ensures |currentPath| <= 9
    decreases 9 - height, 1
  {
    var trail := currentPath + [(i, j)];
    if grid[i][j] == 9 {
      return pathCount + 1, trail[..|trail| - 1];
    }
    count := pathCount;
    count, trail := Explore(grid, i, j, (-1, 0), height, count, trail);
    count, trail := Explore(grid, i, j, (0, -1), height, count, trail);
    count, trail := Explore(grid, i, j, (1, 0), height, count, trail);
    count, trail := Explore(grid, i, j, (0, 1), height, count, trail);
    path := trail[..|trail| - 1];
  }

  /** `count_distinct_paths`: the rating of a trailhead. */
  method CountDistinctPaths(grid: Grid, start: Cell) returns (count: nat)
    requires Valid(grid) && InGrid(grid, start) && Height(grid, start) == 0
    ensures count == Paths(grid, start)
  {
    var path;
    count, path := Dfs(grid, start.0, start.1, 0, [], 0);
  }

  // ---------------------------------------------------------------------------
  // Score against rating

  lemma InGridCell(grid: Grid, c: Cell)
    requires InGrid(grid, c)
    ensures c in Cells(grid)
  {
  }

  /** A 9 has no successor, so it reaches only itself. */
  lemma {:induction false} NineReach(grid: Grid, c: Cell, k: nat)
    requires Valid(grid) && InGrid(grid, c) && Height(grid, c) == 9
    ensures ReachIn(grid, c, k) == if k == 0 then {c} else {}
  {
    if k > 0 {
      NineReach(grid, c, k - 1);
      forall b ensures b !in Successors(grid, c) {
        SuccessorsClimb(grid, c, b);
      }
    }
  }

  lemma NinesOfNine(grid: Grid, c: Cell)
    requires Valid(grid) && InGrid(grid, c) && Height(grid, c) == 9
    ensures Nines(grid, c) == {c}
  {
    InGridCell(grid, c);
    assert c in ReachIn(grid, c, 0);
    forall x | x in Nines(grid, c) ensures x == c {
      var k: nat :| x in ReachIn(grid, c, k);
      NineReach(grid, c, k);
    }
  }

  /** A trail of k + 1 steps starts with a step to a successor. */
  lemma {:induction false} ReachFirst(grid: Grid, c: Cell, b: Cell, k: nat)
    requires b in ReachIn(grid, c, k + 1)
    ensures exists s :: s in Successors(grid, c) && b in ReachIn(grid, s, k)
    decreases k
  {
    var a :| a in ReachIn(grid, c, k) && b in Successors(grid, a);
    if k == 0 {
      assert b in ReachIn(grid, b, 0);
    } else {
      ReachFirst(grid, c, a, k - 1);
      var s :| s in Successors(grid, c) && a in ReachIn(grid, s, k - 1);
      assert b in ReachIn(grid, s, k);
    }
  }

  /** A step to a successor followed by a trail of k steps is a trail of
      k + 1 steps. */
  lemma {:induction false} ReachPrepend(grid: Grid, c: Cell, s: Cell, b: Cell, k: nat)
    requires s in Successors(grid, c) && b in ReachIn(grid, s, k)
    ensures b in ReachIn(grid, c, k + 1)
    decreases k
  {
    if k > 0 {
      var a :| a in ReachIn(grid, s, k - 1) && b in Successors(grid, a);
      ReachPrepend(grid, c, s, a, k - 1);
    }
  }

  /** The nines reached through the neighbour in direction d, when it is a
      successor. */
  ghost function NinesVia(grid: Grid, c: Cell, d: Cell): set<Cell>
  {
    if Climbs(grid, c, Add(c, d)) then Nines(grid, Add(c, d)) else {}
  }

  /** A nine reached from c below 9 is reached from one of its successors. */
  lemma NineThroughSuccessor(grid: Grid, c: Cell, x: Cell)
    requires Valid(grid) && InGrid(grid, c) && Height(grid, c) < 9 && x in Nines(grid, c)
    ensures x in NinesVia(grid, c, (-1, 0)) + NinesVia(grid, c, (0, -1)) + NinesVia(grid, c, (1, 0)) + NinesVia(grid, c, (0, 1))
  {
    var k: nat :| x in ReachIn(grid, c, k);
    assert k != 0;
    ReachFirst(grid, c, x, k - 1);
    var s :| s in Successors(grid, c) && x in ReachIn(grid, s, k - 1);
    SuccessorsClimb(grid, c, s);
    assert x in Nines(grid, s);
    if s == Add(c, (-1, 0)) {
      assert x in NinesVia(grid, c, (-1, 0));
    } else if s == Add(c, (0, -1)) {
      assert x in NinesVia(grid, c, (0, -1));
    } else if s == Add(c, (1, 0)) {
      assert x in NinesVia(grid, c, (1, 0));
    } else {
      assert x in NinesVia(grid, c, (0, 1));
    }
  }

  /** A nine reached from a successor of c is reached from c. */
  lemma NineFromSuccessor(grid: Grid, c: Cell, d: Cell, x: Cell)
    requires x in NinesVia(grid, c, d) && d in {(-1, 0), (0, -1), (1, 0), (0, 1)}
    ensures x in Nines(grid, c)
  {
    var s := Add(c, d);
    SuccessorsClimb(grid, c, s);
    var k: nat :| x in ReachIn(grid, s, k);
    ReachPrepend(grid, c, s, x, k);
  }

  /** Below 9, the nines reached from c are those reached from its successors. */
  lemma NinesSplit(grid: Grid, c: Cell)
    requires Valid(grid) && InGrid(grid, c) && Height(grid, c) < 9
    ensures Nines(grid, c) == NinesVia(grid, c, (-1, 0)) + NinesVia(grid, c, (0, -1)) + NinesVia(grid, c, (1, 0)) + NinesVia(grid, c, (0, 1))
  {
    forall x | x in Nines(grid, c)
      ensures x in NinesVia(grid, c, (-1, 0)) + NinesVia(grid, c, (0, -1)) + NinesVia(grid, c, (1, 0)) + NinesVia(grid, c, (0, 1))
    {
      NineThroughSuccessor(grid, c, x);
    }
    forall d, x | d in {(-1, 0), (0, -1), (1, 0), (0, 1)} && x in NinesVia(grid, c, d)
      ensures x in Nines(grid, c)
    {
      NineFromSuccessor(grid, c, d, x);
    }
  }

  lemma UnionBound(a: set<Cell>, b: set<Cell>)
    ensures |a + b| <= |a| + |b|
  {
    assert |a + b| + |a * b| == |a| + |b|;
  }

  /** A trailhead's score never exceeds its rating, and the rating is zero
      exactly when no 9 is reachable. */
  lemma {:induction false} ScoreAtMostRating(grid: Grid, c: Cell)
    requires Valid(grid) && InGrid(grid, c)
    ensures |Nines(grid, c)| <= Paths(grid, c)
    ensures Paths(grid, c) == 0 <==> Nines(grid, c) == {}
    decreases 9 - Height(grid, c)
  {
    if Height(grid, c) == 9 {
      NinesOfNine(grid, c);
    } else {
      NinesSplit(grid, c);
      ViaBound(grid, c, (-1, 0));
      ViaBound(grid, c, (0, -1));
      ViaBound(grid, c, (1, 0));
      ViaBound(grid, c, (0, 1));
      var u, l, d, r := NinesVia(grid, c, (-1, 0)), NinesVia(grid, c, (0, -1)), NinesVia(grid, c, (1, 0)), NinesVia(grid, c, (0, 1));
      UnionBound(u, l);
      UnionBound(u + l, d);
      UnionBound(u + l + d, r);
    }
  }

  lemma {:induction false} ViaBound(grid: Grid, c: Cell, d: Cell)
    requires Valid(grid) && InGrid(grid, c) && Height(grid, c) < 9
    ensures |NinesVia(grid, c, d)| <= Branch(grid, c, d)
    ensures Branch(grid, c, d) == 0 <==> NinesVia(grid, c, d) == {}
    decreases 9 - Height(grid, c), 0
  {
    if Climbs(grid, c, Add(c, d)) {
      ScoreAtMostRating(grid, Add(c, d));
    }
  }

  // ---------------------------------------------------------------------------
  // Both parts: sums over the trailheads

  /** The sum of f over the trailheads (i, j) with j < n. */
  ghost function RowSum(grid: Grid, i: int, n: nat, f: Cell -> nat): nat
  {
    if n == 0 then 0
    else RowSum(grid, i, n - 1, f) + (if Height(grid, (i, n - 1)) == 0 then f((i, n - 1)) else 0)
  }

  /** The sum of f over the trailheads of the first m rows. */
  ghost function Total(grid: Grid, m: nat, f: Cell -> nat): nat
  {
    if m == 0 || |grid| == 0 then 0
    else Total(grid, m - 1, f) + RowSum(grid, m - 1, |grid[0]|, f)
  }

  /** The score of each cell. */
  ghost function Score(grid: Grid): Cell -> nat
  {
    c => if Valid(grid) && InGrid(grid, c) then |Nines(grid, c)| else 0
  }

  /** The rating of each cell. */
  ghost function Rating(grid: Grid): Cell -> nat
  {
    c => if Valid(grid) && InGrid(grid, c) then Paths(grid, c) else 0
  }

  lemma {:induction false} RowSumBound(grid: Grid, i: int, n: nat, f: Cell -> nat, g: Cell -> nat)
    requires forall c :: f(c) <= g(c) && (f(c) == 0 <==> g(c) == 0)
    ensures RowSum(grid, i, n, f) <= RowSum(grid, i, n, g)
    ensures RowSum(grid, i, n, f) == 0 <==> RowSum(grid, i, n, g) == 0
  {
    if n > 0 {
      RowSumBound(grid, i, n - 1, f, g);
    }
  }

  lemma {:induction false} TotalBound(grid: Grid, m: nat, f: Cell -> nat, g: Cell -> nat)
    requires forall c :: f(c) <= g(c) && (f(c) == 0 <==> g(c) == 0)
    ensures Total(grid, m, f) <= Total(grid, m, g)
    ensures Total(grid, m, f) == 0 <==> Total(grid, m, g) == 0
  {
    if m > 0 && |grid| > 0 {
      TotalBound(grid, m - 1, f, g);
      RowSumBound(grid, m - 1, |grid[0]|, f, g);
    }
  }

  /** The total score never exceeds the total rating, and one is zero exactly
      when the other is. */
  lemma ScoresAtMostRatings(grid: Grid)
    requires Valid(grid)
    ensures Total(grid, |grid|, Score(grid)) <= Total(grid, |grid|, Rating(grid))
    ensures Total(grid, |grid|, Score(grid)) == 0 <==> Total(grid, |grid|, Rating(grid)) == 0
  {
    forall c ensures Score(grid)(c) <= Rating(grid)(c) && (Score(grid)(c) == 0 <==> Rating(grid)(c) == 0) {
      if InGrid(grid, c) {
        ScoreAtMostRating(grid, c);
      }
    }
    TotalBound(grid, |grid|, Score(grid), Rating(grid));
  }

  /** The inner sum of `part_one` over one row. */
  method RowScores(grid: Grid, i: int) returns (sum: nat)
    requires Valid(grid) && 0 <= i < |grid|
    ensures sum == RowSum(grid, i, |grid[0]|, Score(grid))
  {
    sum := 0;
    for j := 0 to |grid[0]|
      invariant sum == RowSum(grid, i, j, Score(grid))
    {
      if grid[i][j] == 0 {
        var n := CountReachableNines(grid, (i, j));
        sum := sum + n;
      }
    }
  }

  /** `part_one`: the sum of the trailhead scores; None where the source
      panics (a non-digit, no line, a row shorter than the first). */
  method PartOne(lines: seq<string>) returns (r: Option<nat>)
    ensures r.Some? <==> ParseInput(lines).Some? && Valid(ParseInput(lines).value)
    ensures r.Some? ==> r.value == Total(ParseInput(lines).value, |ParseInput(lines).value|, Score(ParseInput(lines).value))
  {
    var parsed := ParseInput(lines);
    if parsed.None? || !Valid(parsed.value) {
      return None;
    }
    var grid := parsed.value;
    var total := 0;
    for i := 0 to |grid|
      invariant total == Total(grid, i, Score(grid))
    {
      var row := RowScores(grid, i);
      total := total + row;
    }
    return Some(total);
  }

  /** The inner sum of `part_two` over one row. */
  method RowRatings(grid: Grid, i: int) returns (sum: nat)
    requires Valid(grid) && 0 <= i < |grid|
    ensures sum == RowSum(grid, i, |grid[0]|, Rating(grid))
  {
    sum := 0;
    for j := 0 to |grid[0]|
      invariant sum == RowSum(grid, i, j, Rating(grid))
    {
      if grid[i][j] == 0 {
        var n := CountDistinctPaths(grid, (i, j));
        sum := sum + n;
      }
    }
  }

  /** `part_two`: the sum of the trailhead ratings; None where the source
      panics. */
  method PartTwo(lines: seq<string>) returns (r: Option<nat>)
    ensures r.Some? <==> ParseInput(lines).Some? && Valid(ParseInput(lines).value)
    ensures r.Some? ==> r.value == Total(ParseInput(lines).value, |ParseInput(lines).value|, Rating(ParseInput(lines).value))
  {
    var parsed := ParseInput(lines);
    if parsed.None? || !Valid(parsed.value) {
      return None;
    }
    var grid := parsed.value;
    var total := 0;
    for i := 0 to |grid|
      invariant total == Total(grid, i, Rating(grid))
    {
      var row := RowRatings(grid, i);
      total := total + row;
    }
    return Some(total);
  }
}
