/** Day 8: resonant collinearity. Antennas are the non-`.` cells of a grid;
    every pair of antennas of one frequency (character) creates antinodes on
    the line through them. Part one keeps the two points twice as far from
    one antenna as from the other; part two keeps every step of the antenna
    difference along the line. Both count distinct in-bounds positions. */
module Day08 {
  import opened Common

  /** A grid position as (x, y): the column, then the row. */
  type Pos = (int, int)

  predicate InBounds(p: Pos, width: int, height: int)
  {
    0 <= p.0 < width && 0 <= p.1 < height
  }

  /** The difference pos2 - pos1. */
  function Delta(p1: Pos, p2: Pos): Pos
  {
    (p2.0 - p1.0, p2.1 - p1.1)
  }

  /** p moved n times by the step d. */
  function Shift(p: Pos, d: Pos, n: int): Pos
  {
    (p.0 + d.0 * n, p.1 + d.1 * n)
  }

  /** p comes strictly before q in row-major order. */
  predicate Before(p: Pos, q: Pos)
  {
    p.1 < q.1 || (p.1 == q.1 && p.0 < q.0)
  }

  predicate Distinct(ants: seq<Pos>)
  {
    forall i, j :: 0 <= i < j < |ants| ==> ants[i] != ants[j]
  }

  /** The cells of row y among its first x columns that hold c, left to right. */
  function RowAntennas(row: string, y: nat, c: char, x: nat): seq<Pos>
    requires x <= |row|
  {
    if x == 0 then []
    else
      var front := RowAntennas(row, y, c, x - 1);
      if row[x - 1] == c then front + [(x - 1, y)] else front
  }

  lemma {:induction false} RowAntennasAre(row: string, y: nat, c: char, x: nat)
    requires x <= |row|
    ensures forall p :: p in RowAntennas(row, y, c, x) <==> p.1 == y && 0 <= p.0 < x && row[p.0] == c
    ensures forall i, j :: 0 <= i < j < |RowAntennas(row, y, c, x)| ==>
      RowAntennas(row, y, c, x)[i].1 == y && RowAntennas(row, y, c, x)[i].0 < RowAntennas(row, y, c, x)[j].0
  {
    if x > 0 {
      RowAntennasAre(row, y, c, x - 1);
      var front := RowAntennas(row, y, c, x - 1);
      var r := RowAntennas(row, y, c, x);
      forall i, j | 0 <= i < j < |r| ensures r[i].1 == y && r[i].0 < r[j].0 {
        assert r[i] == front[i] && front[i] in front;
        if j == |front| {
          assert r[j] == (x - 1, y);
        } else {
          assert r[j] == front[j];
        }
      }
    } else {
      assert RowAntennas(row, y, c, x) == [];
    }
  }

  /** The cells of the first `rows` rows that hold c, in row-major order: the
      list `get_positions` builds for c. */
  function Antennas(grid: seq<string>, c: char, rows: nat): seq<Pos>
    requires rows <= |grid|
  {
    if rows == 0 then []
    else Antennas(grid, c, rows - 1) + RowAntennas(grid[rows - 1], rows - 1, c, |grid[rows - 1]|)
  }

  /** The list of c holds exactly the cells of c, in strictly increasing
      row-major order, so it has no repeats. */
  lemma {:induction false} AntennasAre(grid: seq<string>, c: char, rows: nat)
    requires rows <= |grid|
    ensures forall p :: p in Antennas(grid, c, rows) <==>
      0 <= p.1 < rows && 0 <= p.0 < |grid[p.1]| && grid[p.1][p.0] == c
    ensures forall i, j :: 0 <= i < j < |Antennas(grid, c, rows)| ==>
      Before(Antennas(grid, c, rows)[i], Antennas(grid, c, rows)[j])
  {
    if rows > 0 {
      var front := Antennas(grid, c, rows - 1);
      var row := RowAntennas(grid[rows - 1], rows - 1, c, |grid[rows - 1]|);
      AntennasAre(grid, c, rows - 1);
      RowAntennasAre(grid[rows - 1], rows - 1, c, |grid[rows - 1]|);
      var r := front + row;
      forall i, j | 0 <= i < j < |r| ensures Before(r[i], r[j]) {
        if j < |front| {
          assert r[i] == front[i] && r[j] == front[j];
        } else if i >= |front| {
          assert r[i] == row[i - |front|] && r[j] == row[j - |front|];
        } else {
          assert r[i] == front[i] && front[i] in front;
          assert r[j] == row[j - |front|] && row[j - |front|] in row;
        }
      }
    }
  }

  lemma AntennasDistinct(grid: seq<string>, c: char)
    ensures Distinct(Antennas(grid, c, |grid|))
  {
    AntennasAre(grid, c, |grid|);
  }

  /** The list of c after the first y rows and x cells of row y. */
  function Found(grid: seq<string>, c: char, y: nat, x: nat): seq<Pos>
    requires y < |grid| && x <= |grid[y]|
  {
    Antennas(grid, c, y) + RowAntennas(grid[y], y, c, x)
  }

  lemma FoundStep(grid: seq<string>, c: char, y: nat, x: nat)
    requires y < |grid| && x < |grid[y]|
    ensures Found(grid, c, y, x + 1) == Found(grid, c, y, x) + (if grid[y][x] == c then [(x, y)] else [])
  {
  }

  /** The cell (x, y) of `get_positions`: a non-`.` character is appended to
      its list, which is created when missing. */
  method RecordCell(grid: seq<string>, y: nat, x: nat, positions: map<char, seq<Pos>>) returns (next: map<char, seq<Pos>>)
    requires y < |grid| && x < |grid[y]|
    requires forall c :: c in positions <==> c != '.' && |Found(grid, c, y, x)| > 0
    requires forall c :: c in positions ==> positions[c] == Found(grid, c, y, x)
    ensures forall c :: c in next <==> c != '.' && |Found(grid, c, y, x + 1)| > 0
    ensures forall c :: c in next ==> next[c] == Found(grid, c, y, x + 1)
  {
    var c := grid[y][x];
    next := positions;
    if c != '.' {
      if c in next {
        next := next[c := next[c] + [(x, y)]];
      } else {
        next := next[c := [(x, y)]];
      }
    }
    forall c' ensures c' in next <==> c' != '.' && |Found(grid, c', y, x + 1)| > 0
      ensures c' in next ==> next[c'] == Found(grid, c', y, x + 1)
    {
      FoundStep(grid, c', y, x);
    }
  }

  /** The scan of row y in `get_positions`. */
  method ScanRow(grid: seq<string>, y: nat, positions: map<char, seq<Pos>>) returns (next: map<char, seq<Pos>>)
    requires y < |grid|
    requires forall c :: c in positions <==> c != '.' && |Antennas(grid, c, y)| > 0
    requires forall c :: c in positions ==> positions[c] == Antennas(grid, c, y)
    ensures forall c :: c in next <==> c != '.' && |Antennas(grid, c, y + 1)| > 0
    ensures forall c :: c in next ==> next[c] == Antennas(grid, c, y + 1)
  {
    next := positions;
    for x := 0 to |grid[y]|
      invariant forall c :: c in next <==> c != '.' && |Found(grid, c, y, x)| > 0
      invariant forall c :: c in next ==> next[c] == Found(grid, c, y, x)
    {
      next := RecordCell(grid, y, x, next);
    }
    assert forall c :: Found(grid, c, y, |grid[y]|) == Antennas(grid, c, y + 1);
  }

  /** The map holds exactly the frequencies with an antenna, each with all
      of its antennas in row-major order. */
  predicate PositionsOf(grid: seq<string>, positions: map<char, seq<Pos>>)
  {
    forall c {:trigger Antennas(grid, c, |grid|)} ::
      (c in positions <==> c != '.' && |Antennas(grid, c, |grid|)| > 0) &&
      (c in positions ==> positions[c] == Antennas(grid, c, |grid|))
  }

  /** `get_positions`: every non-`.` character of the grid, with the cells
      that hold it in row-major order. */
  method GetPositions(grid: seq<string>) returns (positions: map<char, seq<Pos>>)
    ensures PositionsOf(grid, positions)
  {
    positions := map[];
    for y := 0 to |grid|
      invariant forall c :: c in positions <==> c != '.' && |Antennas(grid, c, y)| > 0
      invariant forall c :: c in positions ==> positions[c] == Antennas(grid, c, y)
    {
      positions := ScanRow(grid, y, positions);
    }
  }

  /** The in-bounds points among a and b. */
  function Kept(a: Pos, b: Pos, width: int, height: int): set<Pos>
  {
    (if InBounds(a, width, height) then {a} else {}) + (if InBounds(b, width, height) then {b} else {})
  }

  /** Part one's points for a pair: pos1 + 2d and pos2 - 2d, where d is the
      difference pos2 - pos1, when in bounds. */
  function Doubled(p1: Pos, p2: Pos, width: int, height: int): set<Pos>
  {
    var d := Delta(p1, p2);
    Kept(Shift(p1, d, 2), Shift(p2, d, -2), width, height)
  }

  /** The points of part one are exactly the in-bounds points in line with
      both antennas and twice as far from one of them as from the other. */
  lemma DoubledAreTwiceAsFar(p1: Pos, p2: Pos, width: int, height: int, p: Pos)
    ensures p in Doubled(p1, p2, width, height) <==>
      InBounds(p, width, height) &&
      ((p.0 - p1.0 == 2 * (p.0 - p2.0) && p.1 - p1.1 == 2 * (p.1 - p2.1)) ||
       (p.0 - p2.0 == 2 * (p.0 - p1.0) && p.1 - p2.1 == 2 * (p.1 - p1.1)))
  {
  }

  /** A bound beyond which both points of a step have left the grid. */
  function Reach(p1: Pos, p2: Pos, width: int, height: int): nat
  {
    Abs(p1.0) + Abs(p1.1) + Abs(p2.0) + Abs(p2.1) + Abs(width) + Abs(height) + 1
  }

  /** A step of at least one in a coordinate moves at least n in n steps. */
  lemma LongStep(a: int, n: int)
    requires n >= 0 && a != 0
    ensures a > 0 ==> a * n >= n
    ensures a < 0 ==> a * n <= -n
  {
    if a > 0 {
      MulMonotone(n, 1, a);
    } else {
      MulMonotone(n, 1, -a);
      NegMul(a, n);
    }
  }

  /** For distinct antennas the loop of part two cannot run past Reach. */
  lemma FarOut(p1: Pos, p2: Pos, width: int, height: int, n: int)
    requires p1 != p2
    ensures n >= Reach(p1, p2, width, height) ==>
      !InBounds(Shift(p1, Delta(p1, p2), n), width, height) &&
      !InBounds(Shift(p2, Delta(p1, p2), -n), width, height)
  {
    var d := Delta(p1, p2);
    if n >= Reach(p1, p2, width, height) {
      if d.0 != 0 {
        LongStep(d.0, n);
        NegMul(d.0, n);
      } else {
        LongStep(d.1, n);
        NegMul(d.1, n);
      }
    }
  }

  /** The points of part two's loop from step n on: pos1 + n·d and
      pos2 - n·d, kept when in bounds, while n is within the cap and at least
      one of them is in bounds. */
  function Harmonics(p1: Pos, p2: Pos, width: int, height: int, cap: Option<int>, n: int): set<Pos>
    requires p1 != p2
    decreases Reach(p1, p2, width, height) - n
  {
    var d := Delta(p1, p2);
    var a, b := Shift(p1, d, n), Shift(p2, d, -n);
    if (cap.Some? && n > cap.value) || (!InBounds(a, width, height) && !InBounds(b, width, height)) then {}
    else
      FarOut(p1, p2, width, height, n);
      Kept(a, b, width, height) + Harmonics(p1, p2, width, height, cap, n + 1)
  }

  /** The antinodes of one pair: part one's special case when the distance
      is `Some(2)`, the stepping loop otherwise. Two antennas of a frequency
      are never the same cell (AntennasDistinct), so the case p1 == p2 does
      not arise; it is given no points. */
  function PairAntinodes(p1: Pos, p2: Pos, width: int, height: int, maxDistance: Option<int>): set<Pos>
  {
    if maxDistance == Some(2) then Doubled(p1, p2, width, height)
    else if p1 == p2 then {}
    else Harmonics(p1, p2, width, height, maxDistance, 1)
  }

  lemma {:induction false} HarmonicsInBounds(p1: Pos, p2: Pos, width: int, height: int, cap: Option<int>, n: int, p: Pos)
    requires p1 != p2
    ensures p in Harmonics(p1, p2, width, height, cap, n) ==> InBounds(p, width, height)
    decreases Reach(p1, p2, width, height) - n
  {
    var d := Delta(p1, p2);
    var a, b := Shift(p1, d, n), Shift(p2, d, -n);
    if !((cap.Some? && n > cap.value) || (!InBounds(a, width, height) && !InBounds(b, width, height))) {
      FarOut(p1, p2, width, height, n);
      HarmonicsInBounds(p1, p2, width, height, cap, n + 1, p);
    }
  }

  /** Every antinode the source records passes its bounds filter. */
  lemma PairAntinodesInBounds(p1: Pos, p2: Pos, width: int, height: int, maxDistance: Option<int>, p: Pos)
    ensures p in PairAntinodes(p1, p2, width, height, maxDistance) ==> InBounds(p, width, height)
  {
    if maxDistance != Some(2) && p1 != p2 {
      HarmonicsInBounds(p1, p2, width, height, maxDistance, 1, p);
    }
  }

  /** Along the line through p1 with step d, the in-bounds multiples form an
      interval: the grid is convex. */
  lemma Convex(p1: Pos, d: Pos, width: int, height: int, a: int, m: int, b: int)
    requires a <= m <= b
    requires InBounds(Shift(p1, d, a), width, height) && InBounds(Shift(p1, d, b), width, height)
    ensures InBounds(Shift(p1, d, m), width, height)
  {
    if d.0 >= 0 {
      MulMonotone(d.0, a, m);
      MulMonotone(d.0, m, b);
    } else {
      MulMonotone(-d.0, a, m);
      MulMonotone(-d.0, m, b);
      NegMul(d.0, a);
      NegMul(d.0, m);
      NegMul(d.0, b);
    }
    if d.1 >= 0 {
      MulMonotone(d.1, a, m);
      MulMonotone(d.1, m, b);
    } else {
      MulMonotone(-d.1, a, m);
      MulMonotone(-d.1, m, b);
      NegMul(d.1, a);
      NegMul(d.1, m);
      NegMul(d.1, b);
    }
  }

  /** pos2 - n·d is pos1 + (1 - n)·d. */
  lemma BackShift(p1: Pos, p2: Pos, n: int)
    ensures Shift(p2, Delta(p1, p2), -n) == Shift(p1, Delta(p1, p2), 1 - n)
  {
    var d := Delta(p1, p2);
    MulAddDistrib(1, -n, d.0);
    MulAddDistrib(1, -n, d.1);
    MulComm(1 - n, d.0);
    MulComm(1 - n, d.1);
    MulComm(-n, d.0);
    MulComm(-n, d.1);
  }

  /** p is a multiple m of d away from p1 with m >= n or m <= 1 - n: the
      steps the loop has still to take from n on. */
  ghost predicate Outside(p1: Pos, d: Pos, p: Pos, n: int)
  {
    exists m :: (m >= n || m <= 1 - n) && p == Shift(p1, d, m)
  }

  lemma {:induction false} HarmonicsFrom(p1: Pos, p2: Pos, width: int, height: int, n: int)
    requires p1 != p2 && n >= 1
    requires InBounds(p1, width, height) && InBounds(p2, width, height)
    ensures forall p :: p in Harmonics(p1, p2, width, height, None, n) <==>
      InBounds(p, width, height) && Outside(p1, Delta(p1, p2), p, n)
    decreases Reach(p1, p2, width, height) - n
  {
    var d := Delta(p1, p2);
    var a, b := Shift(p1, d, n), Shift(p2, d, -n);
    BackShift(p1, p2, n);
    assert Shift(p1, d, 0) == p1 && Shift(p1, d, 1) == p2;
    if !InBounds(a, width, height) && !InBounds(b, width, height) {
      forall p | InBounds(p, width, height) ensures !Outside(p1, d, p, n) {
        forall m | m >= n || m <= 1 - n ensures p != Shift(p1, d, m) {
          if m >= n && InBounds(Shift(p1, d, m), width, height) {
            Convex(p1, d, width, height, 1, n, m);
          }
          if m <= 1 - n && InBounds(Shift(p1, d, m), width, height) {
            Convex(p1, d, width, height, m, 1 - n, 0);
          }
        }
      }
    } else {
      FarOut(p1, p2, width, height, n);
      HarmonicsFrom(p1, p2, width, height, n + 1);
      forall p ensures Outside(p1, d, p, n) <==> p == a || p == b || Outside(p1, d, p, n + 1) {
        if Outside(p1, d, p, n) {
          var m :| (m >= n || m <= 1 - n) && p == Shift(p1, d, m);
          if m != n && m != 1 - n {
            assert m >= n + 1 || m <= 1 - (n + 1);
          }
        }
        if p == a {
          assert n >= n && a == Shift(p1, d, n);
        }
        if p == b {
          assert 1 - n <= 1 - n && b == Shift(p1, d, 1 - n);
        }
        if Outside(p1, d, p, n + 1) {
          var m :| (m >= n + 1 || m <= 1 - (n + 1)) && p == Shift(p1, d, m);
          assert m >= n || m <= 1 - n;
        }
      }
    }
  }

  /** With both antennas in bounds, the early stop of part two's loop loses
      nothing: it collects exactly the in-bounds points that are a whole
      number of differences away from pos1, on either side, the antennas
      themselves included. */
  lemma HarmonicsAreLine(p1: Pos, p2: Pos, width: int, height: int, p: Pos)
    requires p1 != p2
    requires InBounds(p1, width, height) && InBounds(p2, width, height)
    ensures p in Harmonics(p1, p2, width, height, None, 1) <==>
      InBounds(p, width, height) && exists m :: p == Shift(p1, Delta(p1, p2), m)
  {
    HarmonicsFrom(p1, p2, width, height, 1);
    var d := Delta(p1, p2);
    if exists m :: p == Shift(p1, d, m) {
      var m :| p == Shift(p1, d, m);
      assert m >= 1 || m <= 0;
    }
  }

  /** The points of part one are among those of part two. */
  lemma DoubledInHarmonics(p1: Pos, p2: Pos, width: int, height: int)
    requires p1 != p2
    requires InBounds(p1, width, height) && InBounds(p2, width, height)
    ensures Doubled(p1, p2, width, height) <= Harmonics(p1, p2, width, height, None, 1)
  {
    var d := Delta(p1, p2);
    forall p | p in Doubled(p1, p2, width, height) ensures p in Harmonics(p1, p2, width, height, None, 1) {
      HarmonicsAreLine(p1, p2, width, height, p);
      BackShift(p1, p2, 2);
      if p == Shift(p1, d, 2) {
        assert exists m :: p == Shift(p1, d, m);
      } else {
        assert p == Shift(p1, d, -1);
      }
    }
  }

  /** The union of f over the pairs (i, j) with i < j < end, for a fixed i. */
  function PartnersOf(ants: seq<Pos>, i: nat, end: nat, f: (Pos, Pos) -> set<Pos>): set<Pos>
    requires i < end <= |ants|
    decreases end
  {
    if end == i + 1 then {}
    else PartnersOf(ants, i, end - 1, f) + f(ants[i], ants[end - 1])
  }

  /** The union of f over the pairs i < j whose first index is below
      `first`: each unordered pair of the list once, as the two nested loops
      of `find_antinodes` visit them. */
  function PairsOf(ants: seq<Pos>, first: nat, f: (Pos, Pos) -> set<Pos>): set<Pos>
    requires first <= |ants|
  {
    if first == 0 then {} else PairsOf(ants, first - 1, f) + PartnersOf(ants, first - 1, |ants|, f)
  }

  lemma {:induction false} PartnersOfHas(ants: seq<Pos>, i: nat, end: nat, f: (Pos, Pos) -> set<Pos>, p: Pos)
    requires i < end <= |ants|
    ensures p in PartnersOf(ants, i, end, f) <==> exists j :: i < j < end && p in f(ants[i], ants[j])
    decreases end
  {
    if end > i + 1 {
      PartnersOfHas(ants, i, end - 1, f, p);
    }
  }

  /** A point is in the union exactly when some pair i < j with i below
      `first` gives it. */
  lemma {:induction false} PairsOfHas(ants: seq<Pos>, first: nat, f: (Pos, Pos) -> set<Pos>, p: Pos)
    requires first <= |ants|
    ensures p in PairsOf(ants, first, f) <==> exists i, j :: 0 <= i < first && i < j < |ants| && p in f(ants[i], ants[j])
  {
    if first > 0 {
      PairsOfHas(ants, first - 1, f, p);
      PartnersOfHas(ants, first - 1, |ants|, f, p);
      if p in PartnersOf(ants, first - 1, |ants|, f) {
        var j :| first - 1 < j < |ants| && p in f(ants[first - 1], ants[j]);
        assert 0 <= first - 1 < first && first - 1 < j < |ants| && p in f(ants[first - 1], ants[j]);
      }
    }
  }

  /** The antinodes of one pair, for the grid's bounds and the distance. */
  function PairRule(width: int, height: int, maxDistance: Option<int>): (Pos, Pos) -> set<Pos>
  {
    (p1: Pos, p2: Pos) => PairAntinodes(p1, p2, width, height, maxDistance)
  }

  /** The antinodes of the antennas of frequency c. */
  function FrequencyAntinodes(grid: seq<string>, c: char, maxDistance: Option<int>): set<Pos>
    requires |grid| > 0
  {
    var ants := Antennas(grid, c, |grid|);
    PairsOf(ants, |ants|, PairRule(|grid[0]|, |grid|, maxDistance))
  }

  lemma FrequencyInBounds(grid: seq<string>, c: char, maxDistance: Option<int>, p: Pos)
    requires |grid| > 0
    ensures p in FrequencyAntinodes(grid, c, maxDistance) ==> InBounds(p, |grid[0]|, |grid|)
  {
    var ants := Antennas(grid, c, |grid|);
    var rule := PairRule(|grid[0]|, |grid|, maxDistance);
    PairsOfHas(ants, |ants|, rule, p);
    if p in FrequencyAntinodes(grid, c, maxDistance) {
      var i, j :| 0 <= i < |ants| && i < j < |ants| && p in rule(ants[i], ants[j]);
      PairAntinodesInBounds(ants[i], ants[j], |grid[0]|, |grid|, maxDistance, p);
    }
  }

  /** p is an antinode of some frequency. */
  ghost predicate IsAntinode(grid: seq<string>, maxDistance: Option<int>, p: Pos)
    requires |grid| > 0
  {
    exists c :: c != '.' && p in FrequencyAntinodes(grid, c, maxDistance)
  }

  /** The antinodes, as the set of in-bounds positions: the width is that of
      the first row and the height the number of rows. */
  ghost function AntinodeSet(grid: seq<string>, maxDistance: Option<int>): set<Pos>
    requires |grid| > 0
  {
    set x: int, y: int | 0 <= x < |grid[0]| && 0 <= y < |grid| && IsAntinode(grid, maxDistance, (x, y)) :: (x, y)
  }

  /** The set holds exactly the antinodes of the grid. */
  lemma AntinodeSetIs(grid: seq<string>, maxDistance: Option<int>)
    requires |grid| > 0
    ensures forall p :: p in AntinodeSet(grid, maxDistance) <==> IsAntinode(grid, maxDistance, p)
  {
    forall p | IsAntinode(grid, maxDistance, p) ensures p in AntinodeSet(grid, maxDistance) {
      var c :| c != '.' && p in FrequencyAntinodes(grid, c, maxDistance);
      FrequencyInBounds(grid, c, maxDistance, p);
      assert (p.0, p.1) == p;
    }
  }

  /** The points the source computes at step n are pos1 + n·d and pos2 - n·d. */
  lemma StepPoints(p1: Pos, p2: Pos, n: int)
    ensures (p1.0 + (p2.0 - p1.0) * n, p1.1 + (p2.1 - p1.1) * n) == Shift(p1, Delta(p1, p2), n)
    ensures (p2.0 - (p2.0 - p1.0) * n, p2.1 - (p2.1 - p1.1) * n) == Shift(p2, Delta(p1, p2), -n)
  {
    NegMul(p2.0 - p1.0, n);
    NegMul(p2.1 - p1.1, n);
  }

  /** A step of the loop of part two that goes on keeps the in-bounds points
      among pos1 + n·d and pos2 - n·d. */
  lemma HarmonicsStep(p1: Pos, p2: Pos, width: int, height: int, cap: Option<int>, n: int, a: Pos, b: Pos)
    requires p1 != p2 && a == Shift(p1, Delta(p1, p2), n) && b == Shift(p2, Delta(p1, p2), -n)
    requires !(cap.Some? && n > cap.value) && (InBounds(a, width, height) || InBounds(b, width, height))
    ensures Harmonics(p1, p2, width, height, cap, n) == Kept(a, b, width, height) + Harmonics(p1, p2, width, height, cap, n + 1)
  {
  }

  /** A step past the cap, or with both points out of bounds, ends the loop. */
  lemma HarmonicsStop(p1: Pos, p2: Pos, width: int, height: int, cap: Option<int>, n: int)
    requires p1 != p2
    requires (cap.Some? && n > cap.value) ||
      (!InBounds(Shift(p1, Delta(p1, p2), n), width, height) && !InBounds(Shift(p2, Delta(p1, p2), -n), width, height))
    ensures Harmonics(p1, p2, width, height, cap, n) == {}
  {
  }

  /** The two points of step n: pos1 + n·d and pos2 - n·d. */
  method StepPair(p1: Pos, p2: Pos, n: int) returns (a: Pos, b: Pos)
    ensures a == Shift(p1, Delta(p1, p2), n) && b == Shift(p2, Delta(p1, p2), -n)
  {
    var dx, dy := p2.0 - p1.0, p2.1 - p1.1;
    a, b := (p1.0 + dx * n, p1.1 + dy * n), (p2.0 - dx * n, p2.1 - dy * n);
    StepPoints(p1, p2, n);
  }

  /** `antinodes.extend` with the in-bounds points among a and b. */
  method Extend(antinodes: set<Pos>, a: Pos, b: Pos, width: int, height: int) returns (result: set<Pos>)
    ensures result == antinodes + Kept(a, b, width, height)
  {
    result := antinodes;
    if InBounds(a, width, height) {
      result := result + {a};
    }
    if InBounds(b, width, height) {
      result := result + {b};
    }
  }

  /** One pair's step of `find_antinodes`: the two doubled points for
      `Some(2)`, or the loop over n = 1, 2, ... that stops at the cap or at
      the first n with neither point in bounds. */
  method AddPair(antinodes: set<Pos>, p1: Pos, p2: Pos, width: int, height: int, maxDistance: Option<int>)
    returns (result: set<Pos>)
    requires p1 != p2
    ensures result == antinodes + PairAntinodes(p1, p2, width, height, maxDistance)
  {
    if maxDistance == Some(2) {
      var a, b := StepPair(p1, p2, 2);
      result := Extend(antinodes, a, b, width, height);
      return;
    }
    result := antinodes;
    var n := 1;
    while maxDistance.None? || n <= maxDistance.value
      invariant result + Harmonics(p1, p2, width, height, maxDistance, n) ==
        antinodes + Harmonics(p1, p2, width, height, maxDistance, 1)
      decreases Reach(p1, p2, width, height) - n
    {
      var a, b := StepPair(p1, p2, n);
      var valid := (if InBounds(a, width, height) then 1 else 0) + (if InBounds(b, width, height) then 1 else 0);
      if valid == 0 {
        HarmonicsStop(p1, p2, width, height, maxDistance, n);
        break;
      }
      FarOut(p1, p2, width, height, n);
      HarmonicsStep(p1, p2, width, height, maxDistance, n, a, b);
      ghost var before, rest := result, Harmonics(p1, p2, width, height, maxDistance, n + 1);
      result := Extend(result, a, b, width, height);
      assert result + rest == before + (Kept(a, b, width, height) + rest);
      assert result + rest == antinodes + Harmonics(p1, p2, width, height, maxDistance, 1);
      n := n + 1;
      assert rest == Harmonics(p1, p2, width, height, maxDistance, n);
    }
    if maxDistance.Some? && n > maxDistance.value {
      HarmonicsStop(p1, p2, width, height, maxDistance, n);
    }
  }

  /** One more partner j of antenna i adds the antinodes of that pair. */
  lemma PartnersStep(ants: seq<Pos>, i: nat, j: nat, width: int, height: int, maxDistance: Option<int>)
    requires i < j < |ants|
    ensures PartnersOf(ants, i, j + 1, PairRule(width, height, maxDistance)) ==
      PartnersOf(ants, i, j, PairRule(width, height, maxDistance)) + PairAntinodes(ants[i], ants[j], width, height, maxDistance)
  {
  }

  /** The body of the inner loop: the pair (i, j). */
  method AddPartner(result: set<Pos>, ghost antinodes: set<Pos>, ants: seq<Pos>, i: nat, j: nat, width: int, height: int, maxDistance: Option<int>)
    returns (next: set<Pos>)
    requires Distinct(ants) && i < j < |ants|
    requires result == antinodes + PartnersOf(ants, i, j, PairRule(width, height, maxDistance))
    ensures next == antinodes + PartnersOf(ants, i, j + 1, PairRule(width, height, maxDistance))
  {
    PartnersStep(ants, i, j, width, height, maxDistance);
    ghost var earlier, added := PartnersOf(ants, i, j, PairRule(width, height, maxDistance)), PairAntinodes(ants[i], ants[j], width, height, maxDistance);
    next := AddPair(result, ants[i], ants[j], width, height, maxDistance);
    assert next == antinodes + (earlier + added);
  }

  /** The inner loop of `find_antinodes`: antenna i against every later one. */
  method AddPartners(antinodes: set<Pos>, ants: seq<Pos>, i: nat, width: int, height: int, maxDistance: Option<int>)
    returns (result: set<Pos>)
    requires Distinct(ants) && i < |ants|
    ensures result == antinodes + PartnersOf(ants, i, |ants|, PairRule(width, height, maxDistance))
  {
    ghost var rule := PairRule(width, height, maxDistance);
    assert PartnersOf(ants, i, i + 1, rule) == {};
    result := antinodes;
    for j := i + 1 to |ants|
      invariant result == antinodes + PartnersOf(ants, i, j, rule)
    {
      result := AddPartner(result, antinodes, ants, i, j, width, height, maxDistance);
    }
  }

  /** The pairs loop of `find_antinodes` over the antennas of one frequency. */
  method AddPairs(antinodes: set<Pos>, ants: seq<Pos>, width: int, height: int, maxDistance: Option<int>)
    returns (result: set<Pos>)
    requires Distinct(ants)
    ensures result == antinodes + PairsOf(ants, |ants|, PairRule(width, height, maxDistance))
  {
    ghost var rule := PairRule(width, height, maxDistance);
    result := antinodes;
    for i := 0 to |ants|
      invariant result == antinodes + PairsOf(ants, i, rule)
    {
      result := AddPartners(result, ants, i, width, height, maxDistance);
    }
  }

  /** The antinodes of one frequency, as a function of the frequency. */
  function FrequencyRule(grid: seq<string>, maxDistance: Option<int>): char -> set<Pos>
    requires |grid| > 0
  {
    c => FrequencyAntinodes(grid, c, maxDistance)
  }

  /** The union of f over the frequencies in cs. */
  ghost function UnionOver(cs: set<char>, f: char -> set<Pos>): set<Pos>
  {
    set c, p | c in cs && p in f(c) :: p
  }

  lemma UnionOverAdd(cs: set<char>, f: char -> set<Pos>, c: char)
    ensures UnionOver(cs + {c}, f) == UnionOver(cs, f) + f(c)
  {
  }

  /** Once every listed frequency is done, the set is the grid's antinodes:
      a frequency missing from the map has no antennas, hence no pairs. */
  lemma CollectedAll(grid: seq<string>, maxDistance: Option<int>, positions: map<char, seq<Pos>>)
    requires |grid| > 0 && PositionsOf(grid, positions)
    ensures UnionOver(positions.Keys, FrequencyRule(grid, maxDistance)) == AntinodeSet(grid, maxDistance)
  {
    var keys := positions.Keys;
    var rule := FrequencyRule(grid, maxDistance);
    AntinodeSetIs(grid, maxDistance);
    forall p ensures p in UnionOver(keys, rule) <==> p in AntinodeSet(grid, maxDistance) {
      if p in UnionOver(keys, rule) {
        var c :| c in keys && p in rule(c);
        assert |Antennas(grid, c, |grid|)| > 0;
        assert c != '.' && p in FrequencyAntinodes(grid, c, maxDistance);
      }
      if IsAntinode(grid, maxDistance, p) {
        var c :| c != '.' && p in FrequencyAntinodes(grid, c, maxDistance);
        assert |Antennas(grid, c, |grid|)| > 0;
        assert c in keys && p in rule(c);
      }
    }
  }

  /** The body of the loop over the map's values: the pairs of one
      frequency's antennas. */
  method AddFrequency(antinodes: set<Pos>, grid: seq<string>, positions: map<char, seq<Pos>>, c: char, maxDistance: Option<int>)
    returns (result: set<Pos>)
    requires |grid| > 0 && PositionsOf(grid, positions) && c in positions
    ensures result == antinodes + FrequencyAntinodes(grid, c, maxDistance)
  {
    AntennasDistinct(grid, c);
    result := AddPairs(antinodes, positions[c], |grid[0]|, |grid|, maxDistance);
  }

  /** `find_antinodes`: the antinodes of every frequency, gathered in a set. */
  method FindAntinodes(grid: seq<string>, maxDistance: Option<int>) returns (antinodes: set<Pos>)
    requires |grid| > 0
    ensures antinodes == AntinodeSet(grid, maxDistance)
  {
    var positions := GetPositions(grid);
    antinodes := {};
    var remaining := positions.Keys;
    ghost var rule := FrequencyRule(grid, maxDistance);
    while remaining != {}
      invariant remaining <= positions.Keys
      invariant antinodes == UnionOver(positions.Keys - remaining, rule)
      decreases |remaining|
    {
      var c :| c in remaining;
      antinodes := AddFrequency(antinodes, grid, positions, c, maxDistance);
      assert rule(c) == FrequencyAntinodes(grid, c, maxDistance);
      UnionOverAdd(positions.Keys - remaining, rule, c);
      assert positions.Keys - (remaining - {c}) == (positions.Keys - remaining) + {c};
      remaining := remaining - {c};
    }
    CollectedAll(grid, maxDistance, positions);
  }

  method PartOne(grid: seq<string>) returns (count: nat)
    requires |grid| > 0
    ensures count == |AntinodeSet(grid, Some(2))|
  {
    var antinodes := FindAntinodes(grid, Some(2));
    count := |antinodes|;
  }

  method PartTwo(grid: seq<string>) returns (count: nat)
    requires |grid| > 0
    ensures count == |AntinodeSet(grid, None)|
  {
    var antinodes := FindAntinodes(grid, None);
    count := |antinodes|;
  }

  /** Every row as long as the first: then every antenna is in bounds. */
  predicate Rectangular(grid: seq<string>)
  {
    |grid| > 0 && forall y :: 0 <= y < |grid| ==> |grid[y]| == |grid[0]|
  }

  /** Two antennas of a frequency on a rectangular grid: distinct cells, both
      in bounds. */
  lemma AntennaPair(grid: seq<string>, c: char, i: nat, j: nat)
    requires Rectangular(grid) && i < j < |Antennas(grid, c, |grid|)|
    ensures var ants := Antennas(grid, c, |grid|);
      ants[i] != ants[j] && InBounds(ants[i], |grid[0]|, |grid|) && InBounds(ants[j], |grid[0]|, |grid|)
  {
    var ants := Antennas(grid, c, |grid|);
    AntennasAre(grid, c, |grid|);
    assert ants[i] in ants && ants[j] in ants;
    assert Before(ants[i], ants[j]);
  }

  lemma AntinodeWithinPartTwo(grid: seq<string>, p: Pos)
    requires Rectangular(grid) && IsAntinode(grid, Some(2), p)
    ensures IsAntinode(grid, None, p)
  {
    var width, height := |grid[0]|, |grid|;
    var c :| c != '.' && p in FrequencyAntinodes(grid, c, Some(2));
    var ants := Antennas(grid, c, |grid|);
    var one, two := PairRule(width, height, Some(2)), PairRule(width, height, None);
    PairsOfHas(ants, |ants|, one, p);
    var i, j :| 0 <= i < |ants| && i < j < |ants| && p in one(ants[i], ants[j]);
    AntennaPair(grid, c, i, j);
    DoubledInHarmonics(ants[i], ants[j], width, height);
    assert p in two(ants[i], ants[j]);
    PairsOfHas(ants, |ants|, two, p);
    assert p in FrequencyAntinodes(grid, c, None);
  }

  /** On a rectangular grid every antinode of part one is one of part two. */
  lemma PartOneWithinPartTwo(grid: seq<string>)
    requires Rectangular(grid)
    ensures AntinodeSet(grid, Some(2)) <= AntinodeSet(grid, None)
  {
    AntinodeSetIs(grid, Some(2));
    AntinodeSetIs(grid, None);
    forall p | p in AntinodeSet(grid, Some(2)) ensures p in AntinodeSet(grid, None) {
      AntinodeWithinPartTwo(grid, p);
    }
  }
}
