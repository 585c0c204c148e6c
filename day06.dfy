/** Day 6: a guard walks a grid of rows, turning right at every '#', until
    stepping off it. Part one counts the cells visited; part two counts the
    empty cells where one extra obstruction traps the guard in a loop.
    Positions are (row, column) pairs. */
module Day06 {
  import opened Common

  datatype Direction = Up | Right | Down | Left

  type Pos = (int, int)
  type State = (Pos, Direction)

  const Obstacle := '#'
  const Open := '.'
  const Guard := '^'

  /** `turn_right`. */
  function TurnRight(d: Direction): (r: Direction)
    ensures r != d
  {
    match d
    case Up => Right
    case Right => Down
    case Down => Left
    case Left => Up
  }

  /** `get_delta`: the unit step (row, column) of each direction. */
  function Delta(d: Direction): (r: (int, int))
    ensures Abs(r.0) + Abs(r.1) == 1
    ensures r.0 == 0 <==> (d == Right || d == Left)
    ensures r.0 == -1 <==> d == Up
    ensures r.1 == 1 <==> d == Right
  {
    match d
    case Up => (-1, 0)
    case Right => (0, 1)
    case Down => (1, 0)
    case Left => (0, -1)
  }

  /** Four right turns bring the guard back to the direction it started
      with, and two turns reverse its step. */
  lemma TurnsCycle(d: Direction)
    ensures TurnRight(TurnRight(TurnRight(TurnRight(d)))) == d
    ensures Delta(TurnRight(TurnRight(d))) == (-Delta(d).0, -Delta(d).1)
    ensures TurnRight(TurnRight(d)) != d
  {
  }

  // ----- The start -----

  /** The first `^` in row-major order; None if there is none. */
  function StartPos(grid: seq<seq<char>>): (r: Option<Pos>)
    ensures r.None? <==> forall i :: 0 <= i < |grid| ==> Guard !in grid[i]
    ensures r.Some? ==> var (i, j) := r.value;
              0 <= i < |grid| && 0 <= j < |grid[i]| && grid[i][j] == Guard &&
              (forall k :: 0 <= k < j ==> grid[i][k] != Guard) && forall k :: 0 <= k < i ==> Guard !in grid[k]
  {
    if grid == [] then None
    else
      match FirstIndex(grid[0], Guard)
      case Some(j) => Some((0, j))
      case None =>
        match StartPos(grid[1..])
        case None => None
        case Some((i, j)) => Some((i + 1, j))
  }

  function FirstIndex(s: seq<char>, c: char): (r: Option<nat>)
    ensures r.None? <==> c !in s
    ensures r.Some? ==> r.value < |s| && s[r.value] == c && forall k :: 0 <= k < r.value ==> s[k] != c
  {
    if s == [] then None
    else if s[0] == c then Some(0)
    else
      match FirstIndex(s[1..], c)
      case None => None
      case Some(i) => Some(i + 1)
  }

  /** `get_start_pos`: the nested scan with its early return. */
  method GetStartPos(grid: seq<seq<char>>) returns (r: Option<Pos>)
    ensures r == StartPos(grid)
  {
    for i := 0 to |grid|
      invariant StartPos(grid) == ShiftRows(StartPos(grid[i..]), i)
    {
      for j := 0 to |grid[i]|
        invariant forall k :: 0 <= k < j ==> grid[i][k] != Guard
      {
        if grid[i][j] == Guard {
          StartPosInRow(grid, i, j);
          return Some((i, j));
        }
      }
      StartPosSkipRow(grid, i);
    }
    assert grid[|grid|..] == [];
    return None;
  }

  lemma StartPosInRow(grid: seq<seq<char>>, i: nat, j: nat)
    requires i < |grid| && j < |grid[i]| && grid[i][j] == Guard
    requires forall k :: 0 <= k < j ==> grid[i][k] != Guard
    ensures StartPos(grid[i..]) == Some((0, j as int))
  {
    FirstIndexUnique(grid[i], Guard, j);
    assert grid[i..][0] == grid[i];
  }

  lemma StartPosSkipRow(grid: seq<seq<char>>, i: nat)
    requires i < |grid| && forall k :: 0 <= k < |grid[i]| ==> grid[i][k] != Guard
    ensures ShiftRows(StartPos(grid[i..]), i) == ShiftRows(StartPos(grid[i + 1..]), i + 1)
  {
    assert grid[i..][0] == grid[i];
    assert grid[i..][1..] == grid[i + 1..];
  }

  function ShiftRows(p: Option<Pos>, n: nat): Option<Pos>
  {
    match p
    case None => None
    case Some((i, j)) => Some((i + n, j))
  }

  lemma FirstIndexUnique(s: seq<char>, c: char, j: nat)
    requires j < |s| && s[j] == c && forall k :: 0 <= k < j ==> s[k] != c
    ensures FirstIndex(s, c) == Some(j)
  {
  }

  // ----- One step of the guard -----

  datatype Move = Exit | Turn | Forward(to: Pos)

  predicate Inside(rows: int, cols: int, p: Pos)
  {
    0 <= p.0 < rows && 0 <= p.1 < cols
  }

  /** What the guard at p facing d does next: leave the grid when the next
      cell is out of bounds, turn right when it holds '#', otherwise step
      onto it. None where the source panics: the next cell lies in a row
      shorter than the first one. */
  function Advance(grid: seq<seq<char>>, cols: int, p: Pos, d: Direction): (r: Option<Move>)
    ensures r == Some(Exit) <==> !Inside(|grid|, cols, (p.0 + Delta(d).0, p.1 + Delta(d).1))
    ensures r.Some? && r.value.Forward? ==>
              r.value.to == (p.0 + Delta(d).0, p.1 + Delta(d).1) && Inside(|grid|, cols, r.value.to) &&
              r.value.to.1 < |grid[r.value.to.0]| && grid[r.value.to.0][r.value.to.1] != Obstacle
  {
    var next := (p.0 + Delta(d).0, p.1 + Delta(d).1);
    if !Inside(|grid|, cols, next) then Some(Exit)
    else if next.1 >= |grid[next.0]| then None
    else if grid[next.0][next.1] == Obstacle then Some(Turn)
    else Some(Forward(next))
  }

  /** The guard's next state, or None once it leaves the grid or the source
      panics. */
  function Successor(grid: seq<seq<char>>, cols: int, s: State): Option<State>
  {
    match Advance(grid, cols, s.0, s.1)
    case Some(Turn) => Some((s.0, TurnRight(s.1)))
    case Some(Forward(q)) => Some((q, s.1))
    case _ => None
  }

  /** The guard's state after k steps from s0, if it is still on the grid. */
  function StateAt(grid: seq<seq<char>>, cols: int, s0: State, k: nat): Option<State>
  {
    if k == 0 then Some(s0)
    else
      match StateAt(grid, cols, s0, k - 1)
      case None => None
      case Some(s) => Successor(grid, cols, s)
  }

  // ----- Part one -----

  datatype Walk = Exited(visited: set<Pos>) | Crashed | OutOfFuel

  /** The walk of `part_one` from p facing d, having visited `visited`, for
      at most `fuel` iterations (the source's loop has no bound). */
  function WalkFrom(grid: seq<seq<char>>, cols: int, p: Pos, d: Direction, visited: set<Pos>, fuel: nat): Walk
    decreases fuel
  {
    if fuel == 0 then OutOfFuel
    else
      match Advance(grid, cols, p, d)
      case None => Crashed
      case Some(Exit) => Exited(visited)
      case Some(Turn) => WalkFrom(grid, cols, p, TurnRight(d), visited, fuel - 1)
      case Some(Forward(q)) => WalkFrom(grid, cols, q, d, visited + {q}, fuel - 1)
  }

  /** Every cell the walk adds is on the grid and not an obstruction. */
  predicate Walkable(grid: seq<seq<char>>, cols: int, p: Pos)
  {
    Inside(|grid|, cols, p) && p.1 < |grid[p.0]| && grid[p.0][p.1] != Obstacle
  }

  lemma {:induction false} WalkVisitsWalkable(grid: seq<seq<char>>, cols: int, p: Pos, d: Direction, visited: set<Pos>, fuel: nat)
    requires WalkFrom(grid, cols, p, d, visited, fuel).Exited?
    ensures visited <= WalkFrom(grid, cols, p, d, visited, fuel).visited
    ensures forall q :: q in WalkFrom(grid, cols, p, d, visited, fuel).visited && q !in visited ==> Walkable(grid, cols, q)
    decreases fuel
  {
    match Advance(grid, cols, p, d)
    case Some(Exit) =>
    case Some(Turn) => WalkVisitsWalkable(grid, cols, p, TurnRight(d), visited, fuel - 1);
    case Some(Forward(q)) => WalkVisitsWalkable(grid, cols, q, d, visited + {q}, fuel - 1);
  }

  /** More fuel never changes a walk that already ended. */
  lemma {:induction false} WalkFuelMonotone(grid: seq<seq<char>>, cols: int, p: Pos, d: Direction, visited: set<Pos>, fuel: nat, more: nat)
    requires fuel <= more && !WalkFrom(grid, cols, p, d, visited, fuel).OutOfFuel?
    ensures WalkFrom(grid, cols, p, d, visited, more) == WalkFrom(grid, cols, p, d, visited, fuel)
    decreases fuel
  {
    match Advance(grid, cols, p, d)
    case None =>
    case Some(Exit) =>
    case Some(Turn) => WalkFuelMonotone(grid, cols, p, TurnRight(d), visited, fuel - 1, more - 1);
    case Some(Forward(q)) => WalkFuelMonotone(grid, cols, q, d, visited + {q}, fuel - 1, more - 1);
  }

  /** The number `part_one` reports: the distinct cells of the walk from the
      first `^`, facing up, the start included. None where the source
      panics: an empty grid or no `^`. */
  function PartOneResult(grid: seq<seq<char>>, fuel: nat): Walk
  {
    if grid == [] then Crashed
    else
      match StartPos(grid)
      case None => Crashed
      case Some(start) => WalkFrom(grid, |grid[0]|, start, Up, {start}, fuel)
  }

  method PartOne(grid: seq<seq<char>>, fuel: nat) returns (count: Option<nat>, status: Walk)
    ensures status == PartOneResult(grid, fuel)
    ensures count.Some? <==> status.Exited?
    ensures count.Some? ==> count.value == |status.visited|
  {
    if grid == [] {
      return None, Crashed;
    }
    var rows := |grid|;
    var cols := |grid[0]|;
    var start := GetStartPos(grid);
    if start.None? {
      return None, Crashed;
    }
    var pos := start.value;
    var dir := Up;
    var visited := {pos};
    var remaining := fuel;
    while true
      invariant WalkFrom(grid, cols, pos, dir, visited, remaining) == PartOneResult(grid, fuel)
      decreases remaining
    {
      if remaining == 0 {
        return None, OutOfFuel;
      }
      var (dx, dy) := Delta(dir);
      var next := (pos.0 + dx, pos.1 + dy);
      if next.0 < 0 || next.0 >= rows || next.1 < 0 || next.1 >= cols {
        break;
      }
      if next.1 >= |grid[next.0]| {
        return None, Crashed;
      }
      if grid[next.0][next.1] == Obstacle {
        dir := TurnRight(dir);
      } else {
        pos := next;
        visited := visited + {pos};
      }
      remaining := remaining - 1;
    }
    return Some(|visited|), Exited(visited);
  }

  /** The cells part one counts are the start and walkable cells. */
  lemma PartOneCountsWalkable(grid: seq<seq<char>>, fuel: nat)
    requires PartOneResult(grid, fuel).Exited?
    ensures var start := StartPos(grid).value;
            start in PartOneResult(grid, fuel).visited &&
            forall q :: q in PartOneResult(grid, fuel).visited ==> q == start || Walkable(grid, |grid[0]|, q)
  {
    var start := StartPos(grid).value;
    WalkVisitsWalkable(grid, |grid[0]|, start, Up, {start}, fuel);
  }

  // ----- Part two -----

  /** One obstruction trial from state s, with `visited` the states seen so
      far and n the length of the recorded path: true when a state repeats,
      false when the guard leaves or the path outgrows rows * cols. */
  function TrialFrom(grid: seq<seq<char>>, cols: int, bound: nat, s: State, visited: set<State>, n: nat): Option<bool>
    requires n <= bound + 1
    decreases bound + 1 - n
  {
    if s in visited then Some(true)
    else if n > bound then Some(false)
    else
      match Advance(grid, cols, s.0, s.1)
      case None => None
      case Some(Exit) => Some(false)
      case Some(Turn) => TrialFrom(grid, cols, bound, (s.0, TurnRight(s.1)), visited + {s}, n + 1)
      case Some(Forward(q)) => TrialFrom(grid, cols, bound, (q, s.1), visited + {s}, n + 1)
  }

  function Bound(grid: seq<seq<char>>, cols: int): nat
  {
    if cols <= 0 then 0 else |grid| * cols
  }

  /** A trial from the start, facing up. */
  function Trial(grid: seq<seq<char>>, cols: int, start: Pos): Option<bool>
  {
    TrialFrom(grid, cols, Bound(grid, cols), (start, Up), {}, 0)
  }

  /** The inner loop of `part_two`, on the grid with the trial obstruction. */
  method RunTrial(grid: seq<seq<char>>, cols: int, start: Pos) returns (r: Option<bool>)
    ensures r == Trial(grid, cols, start)
  {
    var rows := |grid|;
    var bound := Bound(grid, cols);
    var visited: set<State> := {};
    var path: seq<State> := [];
    var pos := start;
    var dir := Up;
    while true
      invariant |path| <= bound + 1
      invariant TrialFrom(grid, cols, bound, (pos, dir), visited, |path|) == Trial(grid, cols, start)
      decreases bound + 1 - |path|
    {
      var state := (pos, dir);
      if state in visited {
        return Some(true);
      }
      if |path| > bound {
        return Some(false);
      }
      visited := visited + {state};
      path := path + [state];
      var (dx, dy) := Delta(dir);
      var next := (pos.0 + dx, pos.1 + dy);
      if next.0 < 0 || next.0 >= rows || next.1 < 0 || next.1 >= cols {
        return Some(false);
      }
      if next.1 >= |grid[next.0]| {
        return None;
      }
      if grid[next.0][next.1] == Obstacle {
        dir := TurnRight(dir);
      } else {
        pos := next;
      }
    }
  }

  /** The grid with an obstruction at (i, j). */
  function Obstructed(grid: seq<seq<char>>, i: nat, j: nat): seq<seq<char>>
    requires i < |grid| && j < |grid[i]|
  {
    grid[i := grid[i][j := Obstacle]]
  }

  /** The count of trials that loop, over cells (i, j) onward in row-major
      order, only `.` cells being tried. None where the source panics. */
  function CountFrom(grid: seq<seq<char>>, cols: nat, start: Pos, i: nat, j: nat): Option<nat>
    requires i <= |grid| && j <= cols
    decreases |grid| - i, cols - j
  {
    if i == |grid| then Some(0)
    else if j == cols then CountFrom(grid, cols, start, i + 1, 0)
    else if j >= |grid[i]| then None
    else if grid[i][j] != Open then CountFrom(grid, cols, start, i, j + 1)
    else
      match Trial(Obstructed(grid, i, j), cols, start)
      case None => None
      case Some(loops) =>
        match CountFrom(grid, cols, start, i, j + 1)
        case None => None
        case Some(n) => Some(n + if loops then 1 else 0)
  }

  function PartTwoResult(grid: seq<seq<char>>): Option<nat>
  {
    if grid == [] then None
    else
      match StartPos(grid)
      case None => None
      case Some(start) => CountFrom(grid, |grid[0]|, start, 0, 0)
  }

  /** `part_two`: every `.` cell in turn is set to '#', tried, and set back
      to '.'; the rows end as they began. */
  method PartTwo(grid: array<seq<char>>) returns (r: Option<nat>)
    modifies grid
    ensures r == PartTwoResult(old(grid[..]))
    ensures r.Some? ==> grid[..] == old(grid[..])
  {
    ghost var original := grid[..];
    if grid.Length == 0 {
      return None;
    }
    var rows := grid.Length;
    var cols := |grid[0]|;
    var start := GetStartPos(grid[..]);
    if start.None? {
      return None;
    }
    var loopCount := 0;
    ghost var tail := CountFrom(original, cols, start.value, 0, 0);
    for i := 0 to rows
      invariant grid[..] == original
      invariant tail.Some? ==> CountFrom(original, cols, start.value, i, 0) == Some(tail.value - loopCount)
      invariant tail.None? ==> CountFrom(original, cols, start.value, i, 0).None?
    {
      for j := 0 to cols
        invariant grid[..] == original
        invariant tail.Some? ==> CountFrom(original, cols, start.value, i, j) == Some(tail.value - loopCount)
        invariant tail.None? ==> CountFrom(original, cols, start.value, i, j).None?
      {
        if j >= |grid[i]| {
          return None;
        }
        if grid[i][j] != Open {
          continue;
        }
        grid[i] := grid[i][j := Obstacle];
        assert grid[..] == Obstructed(original, i, j);
        var loops := RunTrial(grid[..], cols, start.value);
        if loops.None? {
          return None;
        }
        if loops.value {
          loopCount := loopCount + 1;
        }
        assert grid[i][j := Open] == original[i];
        grid[i] := grid[i][j := Open];
        assert grid[..] == original;
      }
    }
    return Some(loopCount);
  }

  // ----- A trial that reports a loop is right -----

  /** Once the guard is in a state it was in before, it never leaves. */
  lemma {:induction false} RepeatMeansForever(grid: seq<seq<char>>, cols: int, s0: State, i: nat, j: nat, k: nat)
    requires i < j && StateAt(grid, cols, s0, j).Some? && StateAt(grid, cols, s0, i) == StateAt(grid, cols, s0, j)
    ensures StateAt(grid, cols, s0, k).Some?
    decreases k
  {
    if k <= j {
      StateAtPrefix(grid, cols, s0, k, j);
    } else {
      RepeatMeansForever(grid, cols, s0, i, j, k - (j - i));
      StateAtShift(grid, cols, s0, i, j, k - (j - i));
    }
  }

  /** The state at k + (j - i) equals the state at k, for k at least i. */
  lemma {:induction false} StateAtShift(grid: seq<seq<char>>, cols: int, s0: State, i: nat, j: nat, k: nat)
    requires i < j && StateAt(grid, cols, s0, j).Some? && StateAt(grid, cols, s0, i) == StateAt(grid, cols, s0, j)
    requires i <= k
    ensures StateAt(grid, cols, s0, k + (j - i)) == StateAt(grid, cols, s0, k)
    decreases k
  {
    if k > i {
      StateAtShift(grid, cols, s0, i, j, k - 1);
    }
  }

  lemma {:induction false} StateAtPrefix(grid: seq<seq<char>>, cols: int, s0: State, k: nat, j: nat)
    requires k <= j && StateAt(grid, cols, s0, j).Some?
    ensures StateAt(grid, cols, s0, k).Some?
    decreases j
  {
    if k < j {
      StateAtPrefix(grid, cols, s0, k, j - 1);
    }
  }

  /** The states of the walk's first n steps. */
  ghost function Seen(grid: seq<seq<char>>, cols: int, s0: State, n: nat): set<State>
  {
    if n == 0 then {}
    else
      Seen(grid, cols, s0, n - 1) +
      (match StateAt(grid, cols, s0, n - 1) case Some(s) => {s} case None => {})
  }

  /** Every seen state is the state at some earlier step. */
  lemma {:induction false} SeenEarlier(grid: seq<seq<char>>, cols: int, s0: State, n: nat, x: State) returns (m: nat)
    requires x in Seen(grid, cols, s0, n)
    ensures m < n && StateAt(grid, cols, s0, m) == Some(x)
  {
    if x in Seen(grid, cols, s0, n - 1) {
      m := SeenEarlier(grid, cols, s0, n - 1, x);
    } else {
      m := n - 1;
    }
  }

  lemma {:induction false} TrialFromSound(grid: seq<seq<char>>, cols: int, bound: nat, s0: State, n: nat)
    returns (i: nat, j: nat)
    requires n <= bound + 1 && StateAt(grid, cols, s0, n).Some?
    requires TrialFrom(grid, cols, bound, StateAt(grid, cols, s0, n).value, Seen(grid, cols, s0, n), n) == Some(true)
    ensures i < j && StateAt(grid, cols, s0, j).Some? && StateAt(grid, cols, s0, i) == StateAt(grid, cols, s0, j)
    decreases bound + 1 - n
  {
    var s := StateAt(grid, cols, s0, n).value;
    if s in Seen(grid, cols, s0, n) {
      i := SeenEarlier(grid, cols, s0, n, s);
      j := n;
    } else {
      var next := TrialStep(grid, cols, bound, s0, Seen(grid, cols, s0, n), n);
      assert Seen(grid, cols, s0, n + 1) == Seen(grid, cols, s0, n) + {s};
      i, j := TrialFromSound(grid, cols, bound, s0, n + 1);
    }
  }

  /** A trial that goes on from the state at step n goes on from the state
      at step n + 1. */
  lemma TrialStep(grid: seq<seq<char>>, cols: int, bound: nat, s0: State, visited: set<State>, n: nat) returns (next: State)
    requires n <= bound + 1 && StateAt(grid, cols, s0, n).Some?
    requires StateAt(grid, cols, s0, n).value !in visited
    requires TrialFrom(grid, cols, bound, StateAt(grid, cols, s0, n).value, visited, n) == Some(true)
    ensures n <= bound && StateAt(grid, cols, s0, n + 1) == Some(next)
    ensures TrialFrom(grid, cols, bound, next, visited + {StateAt(grid, cols, s0, n).value}, n + 1) == Some(true)
  {
    var s := StateAt(grid, cols, s0, n).value;
    match Advance(grid, cols, s.0, s.1)
    case Some(Turn) =>
      next := (s.0, TurnRight(s.1));
    case Some(Forward(q)) =>
      next := (q, s.1);
  }

  /** A trial that reports a loop is right: the guard, facing up from the
      start on the obstructed grid, stays on it forever. */
  lemma TrialLoopsForever(grid: seq<seq<char>>, cols: int, start: Pos)
    requires Trial(grid, cols, start) == Some(true)
    ensures forall k: nat :: StateAt(grid, cols, (start, Up), k).Some?
  {
    var s0 := (start, Up);
    assert Seen(grid, cols, s0, 0) == {};
    var i, j := TrialFromSound(grid, cols, Bound(grid, cols), s0, 0);
    forall k: nat
      ensures StateAt(grid, cols, s0, k).Some?
    {
      RepeatMeansForever(grid, cols, s0, i, j, k);
    }
  }
}
