// Day 14: robots that move with constant velocity on a wrapping grid.

module Day14 {
  import opened Common
  import opened Text

  type Point = (int, int)

  /** A robot: its position and its velocity per second. */
  datatype Robot = Robot(pos: Point, vel: Point)

  // ---------------------------------------------------------------------------
  // Parsing `p=x,y v=vx,vy`

  /** `parse_robot`: the position after the first two characters of the text
      before the first space, the velocity after the first two characters of
      the rest; None where the source panics (no space, no comma, a part
      shorter than two characters, a number that does not parse). */
  function ParseRobot(line: string): (r: Option<Robot>)
    ensures r.Some? ==> FitsI32(r.value)
  {
    var halves := SplitOnce(line, ' ');
    if halves.None? || |halves.value.0| < 2 || |halves.value.1| < 2 then None
    else
      var pos, vel := SplitOnce(halves.value.0[2..], ','), SplitOnce(halves.value.1[2..], ',');
      if pos.None? || vel.None? then None
      else
        var x, y, dx, dy := ParseI32(pos.value.0), ParseI32(pos.value.1), ParseI32(vel.value.0), ParseI32(vel.value.1);
        if x.None? || y.None? || dx.None? || dy.None? then None
        else Some(Robot((x.value, y.value), (dx.value, dy.value)))
  }

  predicate FitsI32(r: Robot)
  {
    I32Min <= r.pos.0 <= I32Max && I32Min <= r.pos.1 <= I32Max &&
    I32Min <= r.vel.0 <= I32Max && I32Min <= r.vel.1 <= I32Max
  }

  /** A labelled pair as the input writes it: `p=x,y` or `v=x,y`. */
  function Coords(tag: string, p: Point): string
  {
    tag + ShowInt(p.0) + "," + ShowInt(p.1)
  }

  /** The input line of a robot. */
  function Format(r: Robot): string
  {
    Coords("p=", r.pos) + " " + Coords("v=", r.vel)
  }

  /** After its two-character tag a pair is the two numbers around a
      comma, and it holds no space. */
  lemma CoordsShape(tag: string, p: Point)
    requires |tag| == 2 && ' ' !in tag
    ensures |Coords(tag, p)| >= 2 && ' ' !in Coords(tag, p)
    ensures Coords(tag, p)[2..] == ShowInt(p.0) + [','] + ShowInt(p.1)
  {
    var x, y := ShowInt(p.0), ShowInt(p.1);
    ShowIntPlain(p.0);
    ShowIntPlain(p.1);
    var t := Coords(tag, p);
    assert t == tag + x + [','] + y;
    assert forall i :: 2 <= i < 2 + |x| ==> t[i] == x[i - 2];
    assert forall i :: 3 + |x| <= i < |t| ==> t[i] == y[i - 3 - |x|];
  }

  /** Parsing a written robot gives it back. */
  lemma ParseFormat(r: Robot)
    requires FitsI32(r)
    ensures ParseRobot(Format(r)) == Some(r)
  {
    CoordsShape("p=", r.pos);
    CoordsShape("v=", r.vel);
    SplitOnceAt(Coords("p=", r.pos), Coords("v=", r.vel), ' ');
    ShowIntPlain(r.pos.0);
    ShowIntPlain(r.vel.0);
    SplitOnceAt(ShowInt(r.pos.0), ShowInt(r.pos.1), ',');
    SplitOnceAt(ShowInt(r.vel.0), ShowInt(r.vel.1), ',');
    ParseShowInt(r.pos.0);
    ParseShowInt(r.pos.1);
    ParseShowInt(r.vel.0);
    ParseShowInt(r.vel.1);
  }

  /** `input.lines().map(parse_robot).collect()`: None when a line fails. */
  function ParseAll(lines: seq<string>): Option<seq<Robot>>
  {
    CollectAll(lines, ParseRobot)
  }

  /** The lines parse together exactly when each parses, and then the
      robots are theirs in order. */
  lemma ParseAllLines(lines: seq<string>)
    ensures ParseAll(lines).None? <==> exists i :: 0 <= i < |lines| && ParseRobot(lines[i]).None?
    ensures ParseAll(lines).Some? ==>
      |ParseAll(lines).value| == |lines| &&
      forall i :: 0 <= i < |lines| ==> ParseRobot(lines[i]) == Some(ParseAll(lines).value[i])
  {
    CollectAllLines(lines, ParseRobot);
  }

  // ---------------------------------------------------------------------------
  // Motion

  /** The wrap of `simulate_step`: one subtraction or addition of the
      dimension, by branches. */
  function Wrap(a: int, dim: int): int
  {
    if a >= dim then a - dim else if a < 0 then a + dim else a
  }

  /** One second of one robot. */
  function Move(r: Robot, width: int, height: int): Robot
  {
    Robot((Wrap(r.pos.0 + r.vel.0, width), Wrap(r.pos.1 + r.vel.1, height)), r.vel)
  }

  /** One second of every robot. */
  function Step(robots: seq<Robot>, width: int, height: int): seq<Robot>
  {
    seq(|robots|, i requires 0 <= i < |robots| => Move(robots[i], width, height))
  }

  function StepsN(robots: seq<Robot>, n: nat, width: int, height: int): seq<Robot>
  {
    if n == 0 then robots else Step(StepsN(robots, n - 1, width, height), width, height)
  }

  /** A robot on the grid whose speed is at most one grid size per second,
      which the puzzle's input keeps. */
  predicate Fits(r: Robot, width: int, height: int)
  {
    0 <= r.pos.0 < width && 0 <= r.pos.1 < height && -width <= r.vel.0 <= width && -height <= r.vel.1 <= height
  }

  predicate Valid(robots: seq<Robot>, width: int, height: int)
  {
    forall i :: 0 <= i < |robots| ==> Fits(robots[i], width, height)
  }

  /** With the position in range and the velocity at most the dimension, the
      wrap by branches is the Euclidean remainder. */
  lemma WrapIsMod(p: int, v: int, dim: int)
    requires 0 <= p < dim && -dim <= v <= dim
    ensures Wrap(p + v, dim) == (p + v) % dim
  {
    var a := p + v;
    if a >= dim {
      DivUnique(a, dim, 1, a - dim);
    } else if a < 0 {
      DivUnique(a, dim, -1, a + dim);
    } else {
      DivUnique(a, dim, 0, a);
    }
  }

  /** Adding to a remainder and taking the remainder again is taking it once. */
  lemma ModAdd(a: int, b: int, m: int)
    requires m > 0
    ensures (a % m + b) % m == (a + b) % m
  {
    var q1, q2 := a / m, (a % m + b) / m;
    var r := (a % m + b) % m;
    assert a == m * q1 + a % m;
    assert a % m + b == m * q2 + r;
    assert a + b == m * (q1 + q2) + r;
    DivUnique(a + b, m, q1 + q2, r);
  }

  /** One step moves a fitting robot to (p + v) mod the dimensions; it still
      fits and keeps its velocity. */
  lemma MoveIsMod(r: Robot, width: int, height: int)
    requires Fits(r, width, height)
    ensures Move(r, width, height) == Robot(((r.pos.0 + r.vel.0) % width, (r.pos.1 + r.vel.1) % height), r.vel)
    ensures Fits(Move(r, width, height), width, height)
  {
    WrapIsMod(r.pos.0, r.vel.0, width);
    WrapIsMod(r.pos.1, r.vel.1, height);
  }

  /** After n seconds a robot that starts at p with velocity v stands at
      (p + n·v) mod the dimensions, velocities and the number of robots
      unchanged. */
  lemma {:induction false} StepsClosedForm(robots: seq<Robot>, n: nat, width: int, height: int)
    requires Valid(robots, width, height)
    ensures |StepsN(robots, n, width, height)| == |robots|
    ensures Valid(StepsN(robots, n, width, height), width, height)
    ensures forall i :: 0 <= i < |robots| ==>
      StepsN(robots, n, width, height)[i] ==
        Robot(((robots[i].pos.0 + n * robots[i].vel.0) % width, (robots[i].pos.1 + n * robots[i].vel.1) % height), robots[i].vel)
  {
    if n == 0 {
      forall i | 0 <= i < |robots|
        ensures robots[i].pos == (robots[i].pos.0 % width, robots[i].pos.1 % height)
      {
        DivUnique(robots[i].pos.0, width, 0, robots[i].pos.0);
        DivUnique(robots[i].pos.1, height, 0, robots[i].pos.1);
      }
    } else {
      StepsClosedForm(robots, n - 1, width, height);
      var before := StepsN(robots, n - 1, width, height);
      forall i | 0 <= i < |robots|
        ensures StepsN(robots, n, width, height)[i] ==
          Robot(((robots[i].pos.0 + n * robots[i].vel.0) % width, (robots[i].pos.1 + n * robots[i].vel.1) % height), robots[i].vel)
        ensures Fits(StepsN(robots, n, width, height)[i], width, height)
      {
        var r := robots[i];
        MoveIsMod(before[i], width, height);
        ModAdd(r.pos.0 + (n - 1) * r.vel.0, r.vel.0, width);
        ModAdd(r.pos.1 + (n - 1) * r.vel.1, r.vel.1, height);
        MulAddDistrib(n - 1, 1, r.vel.0);
        MulAddDistrib(n - 1, 1, r.vel.1);
      }
    }
  }

  /** Stepping keeps every robot on the grid within its speed bound. */
  lemma StepsValid(robots: seq<Robot>, n: nat, width: int, height: int)
    requires Valid(robots, width, height)
    ensures |StepsN(robots, n, width, height)| == |robots|
    ensures Valid(StepsN(robots, n, width, height), width, height)
  {
    StepsClosedForm(robots, n, width, height);
  }

  /** `simulate_step`: every robot moves by its velocity and wraps, in place. */
  method SimulateStep(robots: array<Robot>, width: int, height: int)
    modifies robots
    ensures robots[..] == Step(old(robots[..]), width, height)
  {
    for i := 0 to robots.Length
      invariant forall k :: 0 <= k < i ==> robots[k] == Move(old(robots[k]), width, height)
      invariant forall k :: i <= k < robots.Length ==> robots[k] == old(robots[k])
    {
      var newX := robots[i].pos.0 + robots[i].vel.0;
      var newY := robots[i].pos.1 + robots[i].vel.1;
      if newX >= width {
        newX := newX - width;
      } else if newX < 0 {
        newX := newX + width;
      }
      if newY >= height {
        newY := newY - height;
      } else if newY < 0 {
        newY := newY + height;
      }
      robots[i] := Robot((newX, newY), robots[i].vel);
    }
  }

  // ---------------------------------------------------------------------------
  // Quadrants

  /** The slot of `count_robots_in_quadrants` a position counts in: 0 top
      left, 1 top right, 2 bottom left, 3 bottom right; None on the middle
      column or row. */
  function Quadrant(p: Point, width: int, height: int): Option<nat>
  {
    var midX, midY := TruncDiv(width, 2), TruncDiv(height, 2);
    if p.0 == midX || p.1 == midY then None
    else
      match (p.0 < midX, p.1 < midY)
      case (true, true) => Some(0)
      case (false, true) => Some(1)
      case (true, false) => Some(2)
      case (false, false) => Some(3)
  }

  /** The number of robots counted in slot q. */
  function QuadrantCount(robots: seq<Robot>, q: nat, width: int, height: int): nat
  {
    if |robots| == 0 then 0
    else
      var last := if Quadrant(robots[|robots| - 1].pos, width, height) == Some(q) then 1 else 0;
      QuadrantCount(robots[..|robots| - 1], q, width, height) + last
  }

  /** The number of robots on the middle column or row. */
  function MiddleCount(robots: seq<Robot>, width: int, height: int): nat
  {
    if |robots| == 0 then 0
    else
      var last := if Quadrant(robots[|robots| - 1].pos, width, height).None? then 1 else 0;
      MiddleCount(robots[..|robots| - 1], width, height) + last
  }

  /** Every robot is counted exactly once: in one of the four slots or among
      those on a middle line. */
  lemma {:induction false} QuadrantsPartition(robots: seq<Robot>, width: int, height: int)
    ensures QuadrantCount(robots, 0, width, height) + QuadrantCount(robots, 1, width, height) +
      QuadrantCount(robots, 2, width, height) + QuadrantCount(robots, 3, width, height) +
      MiddleCount(robots, width, height) == |robots|
  {
    if |robots| > 0 {
      QuadrantsPartition(robots[..|robots| - 1], width, height);
    }
  }

  /** `count_robots_in_quadrants`. */
  method CountRobotsInQuadrants(robots: seq<Robot>, width: int, height: int) returns (counts: (nat, nat, nat, nat))
    ensures counts == (QuadrantCount(robots, 0, width, height), QuadrantCount(robots, 1, width, height),
      QuadrantCount(robots, 2, width, height), QuadrantCount(robots, 3, width, height))
  {
    var midX := width / 2;
    var midY := height / 2;
    if width < 0 {
      midX := -((-width) / 2);
    }
    if height < 0 {
      midY := -((-height) / 2);
    }
    counts := (0, 0, 0, 0);
    for i := 0 to |robots|
      invariant counts == (QuadrantCount(robots[..i], 0, width, height), QuadrantCount(robots[..i], 1, width, height),
        QuadrantCount(robots[..i], 2, width, height), QuadrantCount(robots[..i], 3, width, height))
    {
      assert robots[..i + 1][..i] == robots[..i];
      var p := robots[i].pos;
      if p.0 != midX && p.1 != midY {
        match (p.0 < midX, p.1 < midY)
        case (true, true) => counts := counts.(0 := counts.0 + 1);
        case (false, true) => counts := counts.(1 := counts.1 + 1);
        case (true, false) => counts := counts.(2 := counts.2 + 1);
        case (false, false) => counts := counts.(3 := counts.3 + 1);
      }
    }
    assert robots[..|robots|] == robots;
  }

  /** The product of the four counts, cast to u32. */
  function SafetyFactor(robots: seq<Robot>, width: int, height: int): nat
  {
    (QuadrantCount(robots, 0, width, height) * QuadrantCount(robots, 1, width, height) *
      QuadrantCount(robots, 2, width, height) * QuadrantCount(robots, 3, width, height)) % 0x1_0000_0000
  }

  const Width: int := 101
  const Height: int := 103

  /** A fresh array holding the robots. */
  method ToArray(robots: seq<Robot>) returns (a: array<Robot>)
    ensures fresh(a) && a[..] == robots
  {
    a := new Robot[|robots|](i requires 0 <= i < |robots| => robots[i]);
  }

  /** `part_one`: 100 seconds on the 101×103 grid, then the safety factor;
      None where a line does not parse (the source panics). */
  method PartOne(lines: seq<string>) returns (r: Option<nat>)
    ensures r.None? <==> ParseAll(lines).None?
    ensures r.Some? ==> r.value == SafetyFactor(StepsN(ParseAll(lines).value, 100, Width, Height), Width, Height)
  {
    var parsed := ParseAll(lines);
    if parsed.None? {
      return None;
    }
    var robots := ToArray(parsed.value);
    for k := 0 to 100
      invariant robots[..] == StepsN(parsed.value, k, Width, Height)
    {
      SimulateStep(robots, Width, Height);
    }
    var counts := CountRobotsInQuadrants(robots[..], Width, Height);
    r := Some((counts.0 * counts.1 * counts.2 * counts.3) % 0x1_0000_0000);
  }

  // ---------------------------------------------------------------------------
  // Part two: a row of sixteen robots

  /** The flat index of `part_two`'s occupancy vector: row by row. */
  function Index(p: Point, width: int): int
  {
    FlatIndex(p.1, p.0, width)
  }

  /** Some robot stands at p. */
  ghost predicate Occupied(robots: seq<Robot>, p: Point)
  {
    exists i :: 0 <= i < |robots| && robots[i].pos == p
  }

  /** The number of robots whose index is k. */
  function CountAt(robots: seq<Robot>, k: int, width: int): nat
  {
    if |robots| == 0 then 0
    else
      var last := if Index(robots[|robots| - 1].pos, width) == k then 1 else 0;
      CountAt(robots[..|robots| - 1], k, width) + last
  }

  /** On the grid, a cell's count is positive exactly when a robot stands
      there. */
  lemma {:induction false} OccupiedIffCount(robots: seq<Robot>, p: Point, width: int, height: int)
    requires Valid(robots, width, height) && 0 <= p.0 < width && 0 <= p.1 < height
    ensures CountAt(robots, Index(p, width), width) > 0 <==> Occupied(robots, p)
  {
    if |robots| > 0 {
      var front, last := robots[..|robots| - 1], robots[|robots| - 1];
      OccupiedIffCount(front, p, width, height);
      if Index(last.pos, width) == Index(p, width) {
        FlatIndexInjective(last.pos.1, last.pos.0, p.1, p.0, width);
      }
      if Occupied(front, p) {
        var i :| 0 <= i < |front| && front[i].pos == p;
        assert robots[i].pos == p;
      }
    }
  }

  /** The occupancy vector of `part_two`: the number of robots on each cell. */
  method Occupancy(robots: seq<Robot>, width: int, height: int) returns (positions: array<nat>)
    requires width >= 0 && height >= 0 && Valid(robots, width, height)
    ensures fresh(positions) && positions.Length == width * height
    ensures forall k :: 0 <= k < positions.Length ==> positions[k] == CountAt(robots, k, width)
  {
    MulNonNegative(width, height);
    positions := new nat[width * height](_ => 0);
    for i := 0 to |robots|
      invariant forall k :: 0 <= k < positions.Length ==> positions[k] == CountAt(robots[..i], k, width)
    {
      assert robots[..i + 1][..i] == robots[..i];
      var r := robots[i];
      FlatIndexInGrid(r.pos.1, r.pos.0, width, height);
      var idx := r.pos.1 * width + r.pos.0;
      positions[idx] := positions[idx] + 1;
    }
    assert robots[..|robots|] == robots;
  }

  /** A robot on the i-th cell right of (x, y). */
  ghost predicate Seated(robots: seq<Robot>, x: int, y: int, i: int)
  {
    Occupied(robots, (x + i, y))
  }

  /** Sixteen robots side by side, from (x, y) rightwards. */
  ghost predicate RowRun(robots: seq<Robot>, x: int, y: int)
  {
    forall i :: 0 <= i < 16 ==> Seated(robots, x, y, i)
  }

  /** Some row holds sixteen robots side by side. */
  ghost predicate Aligned(robots: seq<Robot>, width: int, height: int)
  {
    exists y, x :: 0 <= y < height && 0 <= x <= width - 16 && RowRun(robots, x, y)
  }

  /** The innermost loop of `part_two`: the sixteen cells from (x, y). */
  method RunAt(positions: array<nat>, ghost robots: seq<Robot>, width: int, height: int, x: int, y: int)
    returns (aligned: bool)
    requires Valid(robots, width, height) && positions.Length == width * height
    requires forall k :: 0 <= k < positions.Length ==> positions[k] == CountAt(robots, k, width)
    requires 0 <= x && x + 16 <= width && 0 <= y < height
    ensures aligned <==> RowRun(robots, x, y)
  {
    aligned := true;
    ghost var miss := 0;
    for i := 0 to 16
      invariant aligned
      invariant forall j :: 0 <= j < i ==> Seated(robots, x, y, j)
    {
      FlatIndexInGrid(y, x + i, width, height);
      OccupiedIffCount(robots, (x + i, y), width, height);
      if positions[y * width + x + i] == 0 {
        aligned := false;
        miss := i;
        break;
      }
    }
    if !aligned {
      assert !Seated(robots, x, y, miss);
    }
  }

  /** The scan of `part_two` over every row and start column, with every
      start column up to width - 16 tried. */
  method FindRun(positions: array<nat>, ghost robots: seq<Robot>, width: int, height: int) returns (found: bool)
    requires Valid(robots, width, height) && positions.Length == width * height && height >= 0
    requires forall k :: 0 <= k < positions.Length ==> positions[k] == CountAt(robots, k, width)
    ensures found <==> Aligned(robots, width, height)
  {
    for y := 0 to height
      invariant forall y', x' :: 0 <= y' < y && 0 <= x' <= width - 16 ==> !RowRun(robots, x', y')
    {
      var x := 0;
      while x <= width - 16
        invariant 0 <= x && (x <= width - 15 || width < 16)
        invariant forall x' :: 0 <= x' < x ==> !RowRun(robots, x', y)
      {
        found := RunAt(positions, robots, width, height, x, y);
        if found {
          return;
        }
        x := x + 1;
      }
    }
    found := false;
  }

  /** `part_two`, searching at most fuel seconds: the first second after
      which some row holds sixteen robots side by side, or None when no
      second up to fuel does (the source searches on without end). */
  method PartTwo(lines: seq<string>, fuel: nat) returns (r: Option<nat>)
    requires ParseAll(lines).Some? && Valid(ParseAll(lines).value, Width, Height)
    ensures r.Some? ==> 1 <= r.value <= fuel && Aligned(StepsN(ParseAll(lines).value, r.value, Width, Height), Width, Height)
    ensures r.Some? ==> forall t :: 1 <= t < r.value ==> !Aligned(StepsN(ParseAll(lines).value, t, Width, Height), Width, Height)
    ensures r.None? ==> forall t :: 1 <= t <= fuel ==> !Aligned(StepsN(ParseAll(lines).value, t, Width, Height), Width, Height)
  {
    var start := ParseAll(lines).value;
    var robots := ToArray(start);
    var step := 1;
    while step <= fuel
      invariant 1 <= step <= fuel + 1 || (fuel == 0 && step == 1)
      invariant robots[..] == StepsN(start, step - 1, Width, Height)
      invariant forall t :: 1 <= t < step ==> !Aligned(StepsN(start, t, Width, Height), Width, Height)
    {
      SimulateStep(robots, Width, Height);
      StepsValid(start, step, Width, Height);
      var positions := Occupancy(robots[..], Width, Height);
      var found := FindRun(positions, robots[..], Width, Height);
      if found {
        return Some(step);
      }
      step := step + 1;
    }
    return None;
  }

  /** The scan as the source writes it, `for x in 0..width-16`: the run
      that starts at column width - 16 is never tried. */
  ghost predicate AlignedAsWritten(robots: seq<Robot>, width: int, height: int)
  {
    exists y, x :: 0 <= y < height && 0 <= x < width - 16 && RowRun(robots, x, y)
  }

  /** Sixteen robots on the last sixteen columns of the top row: a row the
      source's scan misses. */
  lemma LastRunMissed()
    ensures var robots := seq(16, i requires 0 <= i < 16 => Robot((85 + i, 0), (0, 0)));
      Aligned(robots, Width, Height) && !AlignedAsWritten(robots, Width, Height)
  {
    var robots := seq(16, i requires 0 <= i < 16 => Robot((85 + i, 0), (0, 0)));
    forall i | 0 <= i < 16
      ensures Seated(robots, 85, 0, i)
    {
      assert robots[i].pos == (85 + i, 0);
    }
    assert RowRun(robots, 85, 0);
    forall y, x | x < 85
      ensures !RowRun(robots, x, y)
    {
      assert !Seated(robots, x, y, 0);
    }
  }

  /** Whatever the source's scan finds, the full scan finds too. */
  lemma AsWrittenFindsLess(robots: seq<Robot>, width: int, height: int)
    ensures AlignedAsWritten(robots, width, height) ==> Aligned(robots, width, height)
  {
  }
}
