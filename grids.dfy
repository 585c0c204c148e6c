// Cells of a rectangular grid, visited flags kept in one flat array, and
// reachability along a neighbour relation.

module Grids {
  import opened Common

  /** A cell, (row, column) in most days; days 16 and 20 use it as (x, y). */
  type Pos = (int, int)

  predicate InBounds(p: Pos, height: int, width: int)
  {
    0 <= p.0 < height && 0 <= p.1 < width
  }

  /** The cells of a height × width grid. */
  function Cells(height: int, width: int): set<Pos>
  {
    set i, j | 0 <= i < height && 0 <= j < width :: (i, j)
  }

  lemma InCells(p: Pos, height: int, width: int)
    requires InBounds(p, height, width)
    ensures p in Cells(height, width)
  {
    assert p == (p.0, p.1);
  }

  /** Taking in one more cell of the grid leaves one cell fewer outside. */
  lemma CellsShrink(s: set<Pos>, p: Pos, height: int, width: int)
    requires p in Cells(height, width) && p !in s
    ensures |Cells(height, width) - (s + {p})| == |Cells(height, width) - s| - 1
  {
    assert Cells(height, width) - (s + {p}) == (Cells(height, width) - s) - {p};
  }

  lemma {:induction false} SubsetCard(a: set<Pos>, b: set<Pos>)
    requires a <= b
    ensures |a| <= |b|
    decreases |a|
  {
    if a != {} {
      var x :| x in a;
      SubsetCard(a - {x}, b - {x});
    }
  }

  /** Taking in new cells of the grid leaves fewer cells outside. */
  lemma CellsFewer(s: set<Pos>, t: set<Pos>, p: Pos, height: int, width: int)
    requires s <= t && p in t && p !in s && p in Cells(height, width)
    ensures |Cells(height, width) - t| < |Cells(height, width) - s|
  {
    CellsShrink(s, p, height, width);
    SubsetCard(Cells(height, width) - t, Cells(height, width) - (s + {p}));
  }

  /** A set holding every member of a smaller one and one more is larger. */
  lemma ProperSubsetCard(a: set<Pos>, b: set<Pos>, p: Pos)
    requires a <= b && p in b && p !in a
    ensures |a| < |b|
  {
    SubsetCard(a + {p}, b);
  }

  /** The cells (row, 0) .. (row, width - 1). */
  function RowCells(row: int, width: nat): set<Pos>
  {
    set j | 0 <= j < width :: (row, j)
  }

  lemma {:induction false} RowCellsCard(row: int, width: nat)
    ensures |RowCells(row, width)| <= width
  {
    if width > 0 {
      RowCellsCard(row, width - 1);
      assert RowCells(row, width) == RowCells(row, width - 1) + {(row, width - 1)};
    }
  }

  /** A height × width grid has at most height * width cells. */
  lemma {:induction false} CellsCard(height: nat, width: nat)
    ensures |Cells(height, width)| <= height * width
  {
    if height > 0 {
      CellsCard(height - 1, width);
      RowCellsCard(height - 1, width);
      assert Cells(height, width) == Cells(height - 1, width) + RowCells(height - 1, width);
      assert height * width == (height - 1) * width + width;
    }
  }

  // ---------------------------------------------------------------------------
  // The cells held by a stack or queue

  function Elems(s: seq<Pos>): set<Pos>
  {
    set k | 0 <= k < |s| :: s[k]
  }

  lemma ElemsOne(p: Pos)
    ensures Elems([p]) == {p}
  {
    assert [p][0] == p;
  }

  /** Popping the last element. */
  lemma ElemsPop(s: seq<Pos>)
    requires |s| > 0
    ensures Elems(s) == Elems(s[..|s| - 1]) + {s[|s| - 1]}
  {
    var rest := s[..|s| - 1];
    assert forall k :: 0 <= k < |rest| ==> rest[k] == s[k];
    forall x | x in Elems(s) ensures x in Elems(rest) + {s[|s| - 1]} {
      var k :| 0 <= k < |s| && s[k] == x;
      if k < |rest| {
        assert rest[k] == x;
      }
    }
  }

  /** Popping the first element. */
  lemma ElemsFront(s: seq<Pos>)
    requires |s| > 0
    ensures Elems(s) == {s[0]} + Elems(s[1..])
  {
    var rest := s[1..];
    assert forall k :: 0 <= k < |rest| ==> rest[k] == s[k + 1];
    forall x | x in Elems(s) ensures x in {s[0]} + Elems(rest) {
      var k :| 0 <= k < |s| && s[k] == x;
      if k > 0 {
        assert rest[k - 1] == x;
      }
    }
  }

  /** Growing a prefix by one element. */
  lemma ElemsPrefix(s: seq<Pos>, i: nat)
    requires i < |s|
    ensures Elems(s[..i + 1]) == Elems(s[..i]) + {s[i]}
  {
    assert s[..i + 1] == s[..i] + [s[i]];
    ElemsAppend(s[..i], [s[i]]);
    ElemsOne(s[i]);
  }

  lemma ElemsAppend(s: seq<Pos>, extra: seq<Pos>)
    ensures Elems(s + extra) == Elems(s) + Elems(extra)
  {
    var all := s + extra;
    forall x | x in Elems(all) ensures x in Elems(s) + Elems(extra) {
      var k :| 0 <= k < |all| && all[k] == x;
      if k >= |s| {
        assert extra[k - |s|] == x;
      }
    }
    forall x | x in Elems(s) + Elems(extra) ensures x in Elems(all) {
      if x in Elems(s) {
        var k :| 0 <= k < |s| && s[k] == x;
        assert all[k] == x;
      } else {
        var k :| 0 <= k < |extra| && extra[k] == x;
        assert all[|s| + k] == x;
      }
    }
  }

  /** No cell occurs twice. */
  predicate Distinct(s: seq<Pos>)
  {
    forall i, j :: 0 <= i < j < |s| ==> s[i] != s[j]
  }

  lemma DistinctAppend(s: seq<Pos>, extra: seq<Pos>)
    requires Distinct(s) && Distinct(extra) && Elems(s) !! Elems(extra)
    ensures Distinct(s + extra)
  {
    var all := s + extra;
    forall i, j | 0 <= i < j < |all| ensures all[i] != all[j] {
      if i < |s| && |s| <= j {
        assert all[i] in Elems(s);
        assert all[j] == extra[j - |s|];
      }
    }
  }

  // ---------------------------------------------------------------------------
  // Visited flags: one per cell, at row * width + column

  /** The flag of a cell is set exactly when the cell is in seen. */
  ghost predicate MarksExactly(flags: seq<bool>, height: int, width: int, seen: set<Pos>)
  {
    0 <= height && 0 <= width && |flags| == height * width &&
    forall p :: InBounds(p, height, width) ==>
      (FlatIndexInGrid(p.0, p.1, width, height); flags[FlatIndex(p.0, p.1, width)] <==> p in seen)
  }

  /** The flag of an in-bounds cell tells whether it was seen. */
  lemma Marked(flags: seq<bool>, height: int, width: int, seen: set<Pos>, p: Pos)
    requires MarksExactly(flags, height, width, seen) && InBounds(p, height, width)
    ensures 0 <= FlatIndex(p.0, p.1, width) < |flags|
    ensures flags[FlatIndex(p.0, p.1, width)] <==> p in seen
  {
    FlatIndexInGrid(p.0, p.1, width, height);
  }

  /** No flag set marks no cell. */
  lemma NoneMarked(flags: seq<bool>, height: int, width: int)
    requires 0 <= height && 0 <= width && |flags| == height * width
    requires forall k :: 0 <= k < |flags| ==> !flags[k]
    ensures MarksExactly(flags, height, width, {})
  {
    forall p | InBounds(p, height, width)
      ensures (FlatIndexInGrid(p.0, p.1, width, height); !flags[FlatIndex(p.0, p.1, width)])
    {
      FlatIndexInGrid(p.0, p.1, width, height);
    }
  }

  /** Setting the flag of one cell marks exactly it in addition. */
  lemma MarkOne(flags: seq<bool>, height: int, width: int, seen: set<Pos>, b: Pos)
    requires MarksExactly(flags, height, width, seen) && InBounds(b, height, width)
    ensures 0 <= FlatIndex(b.0, b.1, width) < |flags|
    ensures MarksExactly(flags[FlatIndex(b.0, b.1, width) := true], height, width, seen + {b})
  {
    FlatIndexInGrid(b.0, b.1, width, height);
    var after := flags[FlatIndex(b.0, b.1, width) := true];
    forall p | InBounds(p, height, width)
      ensures (FlatIndexInGrid(p.0, p.1, width, height); after[FlatIndex(p.0, p.1, width)] <==> p in seen + {b})
    {
      FlatIndexInGrid(p.0, p.1, width, height);
      if FlatIndex(p.0, p.1, width) == FlatIndex(b.0, b.1, width) {
        FlatIndexInjective(p.0, p.1, b.0, b.1, width);
      }
    }
  }

  // ---------------------------------------------------------------------------
  // Reachability along next

  /** The cells k steps from start. */
  ghost function ReachIn(next: Pos -> set<Pos>, start: Pos, k: nat): set<Pos>
  {
    if k == 0 then {start}
    else set a, b | a in ReachIn(next, start, k - 1) && b in next(a) :: b
  }

  ghost predicate Reachable(next: Pos -> set<Pos>, start: Pos, c: Pos)
  {
    exists k: nat :: c in ReachIn(next, start, k)
  }

  /** s holds the neighbours of each of its cells. */
  ghost predicate Closed(next: Pos -> set<Pos>, s: set<Pos>)
  {
    forall a {:trigger next(a)} :: a in s ==> next(a) <= s
  }

  lemma StartReachable(next: Pos -> set<Pos>, start: Pos)
    ensures Reachable(next, start, start)
  {
    assert start in ReachIn(next, start, 0);
  }

  lemma StepReachable(next: Pos -> set<Pos>, start: Pos, a: Pos, b: Pos)
    requires Reachable(next, start, a) && b in next(a)
    ensures Reachable(next, start, b)
  {
    var k: nat :| a in ReachIn(next, start, k);
    assert b in ReachIn(next, start, k + 1);
  }

  lemma {:induction false} ClosedHoldsReachIn(next: Pos -> set<Pos>, start: Pos, s: set<Pos>, k: nat)
    requires start in s && Closed(next, s)
    ensures ReachIn(next, start, k) <= s
  {
    if k > 0 {
      ClosedHoldsReachIn(next, start, s, k - 1);
    }
  }

  /** A closed set holding start holds every cell reachable from start. */
  lemma ClosedHoldsReachable(next: Pos -> set<Pos>, start: Pos, s: set<Pos>, c: Pos)
    requires start in s && Closed(next, s) && Reachable(next, start, c)
    ensures c in s
  {
    var k: nat :| c in ReachIn(next, start, k);
    ClosedHoldsReachIn(next, start, s, k);
  }

  /** c is d steps from start and no fewer. */
  ghost predicate Shortest(next: Pos -> set<Pos>, start: Pos, c: Pos, d: nat)
  {
    c in ReachIn(next, start, d) &&
    forall k: nat :: k < d ==> c !in ReachIn(next, start, k)
  }

  /** A cell reached in k steps is at some shortest distance of at most k. */
  lemma {:induction false} ShortestExists(next: Pos -> set<Pos>, start: Pos, c: Pos, k: nat)
    requires c in ReachIn(next, start, k)
    ensures exists d: nat :: d <= k && Shortest(next, start, c, d)
  {
    if forall j: nat :: j < k ==> c !in ReachIn(next, start, j) {
      assert Shortest(next, start, c, k);
    } else {
      var j: nat :| j < k && c in ReachIn(next, start, j);
      ShortestExists(next, start, c, j);
    }
  }

  lemma ShortestUnique(next: Pos -> set<Pos>, start: Pos, c: Pos, d: nat, e: nat)
    requires Shortest(next, start, c, d) && Shortest(next, start, c, e)
    ensures d == e
  {
  }

  /** The cells fewer than n steps from start. */
  ghost function Within(next: Pos -> set<Pos>, start: Pos, n: nat): set<Pos>
  {
    if n == 0 then {} else Within(next, start, n - 1) + ReachIn(next, start, n - 1)
  }

  lemma {:induction false} WithinIff(next: Pos -> set<Pos>, start: Pos, n: nat, c: Pos)
    ensures c in Within(next, start, n) <==> exists k: nat :: k < n && c in ReachIn(next, start, k)
  {
    if n > 0 {
      WithinIff(next, start, n - 1, c);
      if c in ReachIn(next, start, n - 1) {
        assert c in Within(next, start, n);
        var k: nat := n - 1;
        assert k < n && c in ReachIn(next, start, k);
        assert exists j: nat :: j < n && c in ReachIn(next, start, j);
      } else if c in Within(next, start, n - 1) {
        var k: nat :| k < n - 1 && c in ReachIn(next, start, k);
        assert k < n;
      } else {
        forall k: nat | k < n ensures c !in ReachIn(next, start, k) {
          if k < n - 1 {
          }
        }
      }
    }
  }

  lemma {:induction false} WithinHas(next: Pos -> set<Pos>, start: Pos, n: nat, k: nat, c: Pos)
    requires k < n && c in ReachIn(next, start, k)
    ensures c in Within(next, start, n)
  {
    if k < n - 1 {
      WithinHas(next, start, n - 1, k, c);
    }
  }

  /** Every cell one step on from a cell k steps away is k + 1 steps away. */
  lemma StepIn(next: Pos -> set<Pos>, start: Pos, k: nat, a: Pos, b: Pos)
    requires a in ReachIn(next, start, k) && b in next(a)
    ensures b in ReachIn(next, start, k + 1)
  {
  }

  /** One step on from a cell nearer than n is a cell nearer than n + 1. */
  lemma WithinStep(next: Pos -> set<Pos>, start: Pos, n: nat, a: Pos, b: Pos)
    requires a in Within(next, start, n) && b in next(a)
    ensures b in Within(next, start, n + 1)
  {
    WithinIff(next, start, n, a);
    var j: nat :| j < n && a in ReachIn(next, start, j);
    StepIn(next, start, j, a, b);
    WithinHas(next, start, n + 1, j + 1, b);
  }

  /** If every cell n steps away is also nearer, no cell is n or more steps away
      without being nearer than n. */
  lemma {:induction false} Saturated(next: Pos -> set<Pos>, start: Pos, n: nat, k: nat)
    requires ReachIn(next, start, n) <= Within(next, start, n)
    ensures ReachIn(next, start, k) <= Within(next, start, n)
  {
    if k < n {
      forall c | c in ReachIn(next, start, k) ensures c in Within(next, start, n) {
        WithinIff(next, start, n, c);
        assert exists j: nat :: j < n && c in ReachIn(next, start, j);
      }
    } else if k > n {
      Saturated(next, start, n, k - 1);
      forall c | c in ReachIn(next, start, k) ensures c in Within(next, start, n) {
        var a :| a in ReachIn(next, start, k - 1) && c in next(a);
        WithinIff(next, start, n, a);
        var j: nat :| j < n && a in ReachIn(next, start, j);
        StepIn(next, start, j, a, c);
        var i: nat := j + 1;
        assert c in ReachIn(next, start, i);
        if i < n {
          WithinIff(next, start, n, c);
          assert exists j: nat :: j < n && c in ReachIn(next, start, j);
        } else {
          assert i == n;
        }
      }
    }
  }

  // ---------------------------------------------------------------------------
  // Sums over a set of cells

  /** The sum of f over s, in no particular order. */
  ghost function SetSum(s: set<Pos>, f: Pos -> int): int
  {
    if s == {} then 0 else var x :| x in s; f(x) + SetSum(s - {x}, f)
  }

  /** Any member can be taken out first. */
  lemma {:induction false} SetSumRemove(s: set<Pos>, f: Pos -> int, y: Pos)
    requires y in s
    ensures SetSum(s, f) == f(y) + SetSum(s - {y}, f)
    decreases |s|
  {
    var x :| x in s && SetSum(s, f) == f(x) + SetSum(s - {x}, f);
    if x != y {
      SetSumRemove(s - {x}, f, y);
      SetSumRemove(s - {y}, f, x);
      assert s - {x} - {y} == s - {y} - {x};
    }
  }

  lemma SetSumAdd(s: set<Pos>, f: Pos -> int, y: Pos)
    requires y !in s
    ensures SetSum(s + {y}, f) == SetSum(s, f) + f(y)
  {
    SetSumRemove(s + {y}, f, y);
    assert s + {y} - {y} == s;
  }

  /** A sum of terms each at most their counterpart is at most the other sum. */
  lemma {:induction false} SetSumMonotone(s: set<Pos>, f: Pos -> int, g: Pos -> int)
    requires forall x :: x in s ==> f(x) <= g(x)
    ensures SetSum(s, f) <= SetSum(s, g)
    decreases |s|
  {
    if s != {} {
      var x :| x in s;
      SetSumRemove(s, f, x);
      SetSumRemove(s, g, x);
      SetSumMonotone(s - {x}, f, g);
    }
  }

  // ---------------------------------------------------------------------------
  // Marks on a grid of lines. Positions here are (x, y): column first.

  /** q is a character of the track read before column x of line y. */
  predicate Earlier(track: seq<string>, q: Pos, y: int, x: int)
  {
    0 <= q.1 < |track| && 0 <= q.0 < |track[q.1]| && (q.1 < y || (q.1 == y && q.0 < x))
  }

  /** The last ch read before column x of line y, if any. */
  function LastBefore(track: seq<string>, ch: char, y: nat, x: nat): Option<Pos>
    requires y <= |track| && (y < |track| ==> x <= |track[y]|) && (y == |track| ==> x == 0)
    decreases y, x
  {
    if x > 0 then
      if track[y][x - 1] == ch then Some((x - 1, y)) else LastBefore(track, ch, y, x - 1)
    else if y > 0 then LastBefore(track, ch, y - 1, |track[y - 1]|)
    else None
  }

  /** `Point::default()` for a mark that is missing. */
  function OrOrigin(o: Option<Pos>): Pos
  {
    match o
    case Some(p) => p
    case None => (0, 0)
  }

  /** Where a scan for the mark ch leaves it: its last occurrence, or (0, 0). */
  function LastOf(track: seq<string>, ch: char): Pos
  {
    OrOrigin(LastBefore(track, ch, |track|, 0))
  }

  lemma {:induction false} LastBeforeIff(track: seq<string>, ch: char, y: nat, x: nat)
    requires y <= |track| && (y < |track| ==> x <= |track[y]|) && (y == |track| ==> x == 0)
    ensures LastBefore(track, ch, y, x).None? <==>
      forall q :: Earlier(track, q, y, x) ==> track[q.1][q.0] != ch
    ensures LastBefore(track, ch, y, x).Some? ==>
      var p := LastBefore(track, ch, y, x).value;
      Earlier(track, p, y, x) && track[p.1][p.0] == ch &&
      forall q :: Earlier(track, q, y, x) && Earlier(track, p, q.1, q.0) ==> track[q.1][q.0] != ch
    decreases y, x
  {
    if x > 0 {
      if track[y][x - 1] != ch {
        LastBeforeIff(track, ch, y, x - 1);
        forall q | Earlier(track, q, y, x) && !Earlier(track, q, y, x - 1) ensures q == (x - 1, y) {
        }
      } else {
        assert Earlier(track, (x - 1, y), y, x);
      }
    } else if y > 0 {
      LastBeforeIff(track, ch, y - 1, |track[y - 1]|);
      forall q ensures Earlier(track, q, y, x) <==> Earlier(track, q, y - 1, |track[y - 1]|) {
      }
    }
  }

  /** When ch occurs, LastOf is its last occurrence in reading order;
      otherwise it is (0, 0). */
  lemma LastOfIsLast(track: seq<string>, ch: char)
    ensures (exists q :: Earlier(track, q, |track|, 0) && track[q.1][q.0] == ch) ==>
      var p := LastOf(track, ch);
      Earlier(track, p, |track|, 0) && track[p.1][p.0] == ch &&
      forall q :: Earlier(track, q, |track|, 0) && Earlier(track, p, q.1, q.0) ==> track[q.1][q.0] != ch
    ensures (forall q :: Earlier(track, q, |track|, 0) ==> track[q.1][q.0] != ch) ==> LastOf(track, ch) == (0, 0)
  {
    LastBeforeIff(track, ch, |track|, 0);
  }

  /** A scan of every line that remembers the last 'S' and the last 'E'. */
  method FindMarks(track: seq<string>) returns (start: Pos, end: Pos)
    ensures start == LastOf(track, 'S') && end == LastOf(track, 'E')
  {
    start, end := (0, 0), (0, 0);
    for y := 0 to |track|
      invariant start == OrOrigin(LastBefore(track, 'S', y, 0))
      invariant end == OrOrigin(LastBefore(track, 'E', y, 0))
    {
      var row := track[y];
      for x := 0 to |row|
        invariant start == OrOrigin(LastBefore(track, 'S', y, x))
        invariant end == OrOrigin(LastBefore(track, 'E', y, x))
      {
        if row[x] == 'S' {
          start := (x, y);
        } else if row[x] == 'E' {
          end := (x, y);
        }
      }
    }
  }
}
