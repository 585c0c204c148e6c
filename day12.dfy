// Day 12: garden regions priced by area × perimeter, then by area × sides.

module Day12 {
  import opened Common
  import opened Grids

  // ---------------------------------------------------------------------------
  // The map

  /** The characters of all lines, row after row, and the grid shape. */
  datatype Grid = Grid(data: seq<char>, width: int, height: int)

  function Concat(lines: seq<string>): seq<char>
  {
    if |lines| == 0 then [] else Concat(lines[..|lines| - 1]) + lines[|lines| - 1]
  }

  /** Every full row fits in the data, and less than one more row is left over. */
  predicate WellFormed(g: Grid)
  {
    g.width > 0 && g.height >= 0 && g.height * g.width <= |g.data| < (g.height + 1) * g.width
  }

  /** `Grid::new`: the width is the length of the last line and the height
      the number of whole rows of that width; None where the source divides
      by a zero width (no line, or an empty last line). */
  function NewGrid(lines: seq<string>): (r: Option<Grid>)
    ensures r.Some? <==> |lines| > 0 && |lines[|lines| - 1]| > 0
    ensures r.Some? ==> WellFormed(r.value) && r.value.data == Concat(lines) && r.value.width == |lines[|lines| - 1]|
  {
    if |lines| == 0 || |lines[|lines| - 1]| == 0 then None
    else
      var data := Concat(lines);
      var width := |lines[|lines| - 1]|;
      RowsFit(|data|, width);
      Some(Grid(data, width, |data| / width))
  }

  lemma RowsFit(n: nat, width: int)
    requires width > 0
    ensures (n / width) * width <= n < (n / width + 1) * width
  {
    MulComm(n / width, width);
    MulAddDistrib(n / width, 1, width);
  }

  /** `Grid::get`. */
  function Get(g: Grid, p: Pos): char
    requires WellFormed(g) && InBounds(p, g.height, g.width)
  {
    FlatIndexInGrid(p.0, p.1, g.width, g.height);
    g.data[FlatIndex(p.0, p.1, g.width)]
  }

  // ---------------------------------------------------------------------------
  // Regions

  /** The neighbours in the order both parts look at them: up, down, left, right. */
  function Adjacent(p: Pos): (r: seq<Pos>)
    ensures |r| == 4 && forall k :: 0 <= k < 4 ==> Abs(r[k].0 - p.0) + Abs(r[k].1 - p.1) == 1
  {
    [(p.0 - 1, p.1), (p.0 + 1, p.1), (p.0, p.1 - 1), (p.0, p.1 + 1)]
  }

  /** q is on the grid and grows the same plant as p. */
  predicate Alike(g: Grid, p: Pos, q: Pos)
  {
    WellFormed(g) && InBounds(p, g.height, g.width) && InBounds(q, g.height, g.width) && Get(g, q) == Get(g, p)
  }

  /** The neighbours of p through the first k directions that grow the same plant. */
  function AlikeAmong(g: Grid, p: Pos, k: nat): set<Pos>
    requires k <= 4
  {
    if k == 0 then {}
    else AlikeAmong(g, p, k - 1) + (if Alike(g, p, Adjacent(p)[k - 1]) then {Adjacent(p)[k - 1]} else {})
  }

  /** The neighbour relation of a region. */
  function Link(g: Grid): Pos -> set<Pos>
  {
    p => AlikeAmong(g, p, 4)
  }

  /** The region of p: the cells joined to it by steps between neighbours
      growing the same plant. */
  ghost function Region(g: Grid, p: Pos): set<Pos>
  {
    set q | q in Cells(g.height, g.width) && Reachable(Link(g), p, q)
  }

  lemma {:induction false} AlikeAmongIff(g: Grid, p: Pos, k: nat, q: Pos)
    requires k <= 4
    ensures q in AlikeAmong(g, p, k) <==> Alike(g, p, q) && q in Adjacent(p)[..k]
  {
    if k > 0 {
      AlikeAmongIff(g, p, k - 1, q);
      assert Adjacent(p)[..k] == Adjacent(p)[..k - 1] + [Adjacent(p)[k - 1]];
    }
  }

  /** The links are the in-bounds neighbours growing the same plant. */
  lemma LinkIff(g: Grid, p: Pos, q: Pos)
    ensures q in Link(g)(p) <==> Alike(g, p, q) && q in Adjacent(p)
  {
    AlikeAmongIff(g, p, 4, q);
    assert Adjacent(p)[..4] == Adjacent(p);
  }

  lemma LinkSymmetric(g: Grid, p: Pos, q: Pos)
    requires q in Link(g)(p)
    ensures p in Link(g)(q)
  {
    LinkIff(g, p, q);
    LinkIff(g, q, p);
  }

  /** Every cell of a region grows the plant of its start. */
  lemma RegionPlant(g: Grid, p: Pos, q: Pos)
    requires WellFormed(g) && InBounds(p, g.height, g.width) && Reachable(Link(g), p, q)
    ensures InBounds(q, g.height, g.width) && Get(g, q) == Get(g, p)
  {
    var same := set c | c in Cells(g.height, g.width) && Get(g, c) == Get(g, p);
    InCells(p, g.height, g.width);
    forall a | a in same ensures Link(g)(a) <= same {
      forall b | b in Link(g)(a) ensures b in same {
        LinkIff(g, a, b);
        InCells(b, g.height, g.width);
      }
    }
    ClosedHoldsReachable(Link(g), p, same, q);
  }

  lemma RegionClosed(g: Grid, p: Pos)
    ensures Closed(Link(g), Region(g, p))
  {
    forall a, b | a in Region(g, p) && b in Link(g)(a) ensures b in Region(g, p) {
      StepReachable(Link(g), p, a, b);
      LinkIff(g, a, b);
      InCells(b, g.height, g.width);
    }
  }

  lemma RegionStart(g: Grid, p: Pos)
    requires InBounds(p, g.height, g.width)
    ensures p in Region(g, p)
  {
    StartReachable(Link(g), p);
    InCells(p, g.height, g.width);
  }

  /** A closed set holding p holds p's region. */
  lemma RegionWithin(g: Grid, p: Pos, s: set<Pos>)
    requires p in s && Closed(Link(g), s)
    ensures Region(g, p) <= s
  {
    forall q | q in Region(g, p) ensures q in s {
      ClosedHoldsReachable(Link(g), p, s, q);
    }
  }

  // ---------------------------------------------------------------------------
  // The fence of part one

  /** One fence unit on the side of p facing q: q is off the grid or grows
      another plant. */
  function Exposed(g: Grid, p: Pos, q: Pos): int
    requires WellFormed(g) && InBounds(p, g.height, g.width)
  {
    if !InBounds(q, g.height, g.width) || Get(g, q) != Get(g, p) then 1 else 0
  }

  /** The fence units around p. */
  function Fences(g: Grid, p: Pos): int
    requires WellFormed(g) && InBounds(p, g.height, g.width)
  {
    Exposed(g, p, Adjacent(p)[0]) + Exposed(g, p, Adjacent(p)[1]) + Exposed(g, p, Adjacent(p)[2]) + Exposed(g, p, Adjacent(p)[3])
  }

  function FenceCount(g: Grid): Pos -> int
  {
    p => if WellFormed(g) && InBounds(p, g.height, g.width) then Fences(g, p) else 0
  }

  /** The perimeter of a region. */
  ghost function Perimeter(g: Grid, region: set<Pos>): int
  {
    SetSum(region, FenceCount(g))
  }

  /** Adding a cell to a region adds its fence units to the perimeter. */
  lemma PerimeterAdd(g: Grid, region: set<Pos>, p: Pos)
    requires WellFormed(g) && InBounds(p, g.height, g.width) && p !in region
    ensures Perimeter(g, region + {p}) == Perimeter(g, region) + Fences(g, p)
  {
    SetSumAdd(region, FenceCount(g), p);
  }

  // ---------------------------------------------------------------------------
  // Part one: flood fill from a stack

  /** What the fill relies on about `target`, the region of start: it holds
      start, is closed under links, and all its cells grow start's plant. */
  ghost predicate Patch(g: Grid, start: Pos, target: set<Pos>)
  {
    WellFormed(g) && InBounds(start, g.height, g.width) && start in target && Closed(Link(g), target) &&
    forall a :: a in target ==> InBounds(a, g.height, g.width) && Get(g, a) == Get(g, start)
  }

  lemma RegionPatch(g: Grid, start: Pos)
    requires WellFormed(g) && InBounds(start, g.height, g.width)
    ensures Patch(g, start, Region(g, start))
  {
    RegionStart(g, start);
    RegionClosed(g, start);
    forall a | a in Region(g, start) ensures InBounds(a, g.height, g.width) && Get(g, a) == Get(g, start) {
      RegionPlant(g, start, a);
    }
  }

  lemma {:induction false} ReachOutside(g: Grid, start: Pos, before: set<Pos>, k: nat)
    requires Closed(Link(g), before) && start !in before
    ensures ReachIn(Link(g), start, k) !! before
  {
    if k > 0 {
      ReachOutside(g, start, before, k - 1);
      forall b | b in ReachIn(Link(g), start, k) ensures b !in before {
        var a :| a in ReachIn(Link(g), start, k - 1) && b in Link(g)(a);
        OutsideClosed(g, before, a, b);
      }
    }
  }

  /** A region meets no closed set that misses its start; in particular no
      earlier region. */
  lemma RegionOutside(g: Grid, start: Pos, before: set<Pos>)
    requires Closed(Link(g), before) && start !in before
    ensures Region(g, start) !! before
  {
    forall q | q in Region(g, start) ensures q !in before {
      var k: nat :| q in ReachIn(Link(g), start, k);
      ReachOutside(g, start, before, k);
    }
  }

  /** The state of the fill of start's region `target`: `before` holds the
      earlier regions, `region` the cells this fill has marked. */
  ghost predicate Filling(g: Grid, start: Pos, visited: seq<bool>, stack: seq<Pos>, before: set<Pos>, region: set<Pos>,
                          target: set<Pos>)
  {
    Patch(g, start, target) && before !! target &&
    MarksExactly(visited, g.height, g.width, before + region) &&
    Spread(g, start, stack, region, target)
  }

  /** The marked and stacked cells lie in target, start among them, and the
      links of the marked cells are marked or still on the stack. */
  ghost predicate Spread(g: Grid, start: Pos, stack: seq<Pos>, region: set<Pos>, target: set<Pos>)
  {
    region <= target && (forall k :: 0 <= k < |stack| ==> stack[k] in target) &&
    Covers(g, region, stack) && start in region + Elems(stack)
  }

  /** The links of the marked cells are marked or still on the stack. */
  ghost predicate Covers(g: Grid, region: set<Pos>, stack: seq<Pos>)
  {
    forall a {:trigger Link(g)(a)} :: a in region ==> Link(g)(a) <= region + Elems(stack)
  }

  /** The area and perimeter counted so far are those of the marked cells. */
  ghost predicate Measured(g: Grid, region: set<Pos>, area: int, perimeter: int)
  {
    area == |region| && perimeter == Perimeter(g, region)
  }

  /** Marking one more cell adds one to the area and its fence units to the perimeter. */
  lemma MeasureAdd(g: Grid, region: set<Pos>, area: int, perimeter: int, p: Pos)
    requires Measured(g, region, area, perimeter)
    requires WellFormed(g) && InBounds(p, g.height, g.width) && p !in region
    ensures Measured(g, region + {p}, area + 1, perimeter + Fences(g, p))
  {
    PerimeterAdd(g, region, p);
  }

  /** Marking the top cell p and pushing its unseen links keeps every link
      of a marked cell marked or on the stack. */
  lemma CoversAfterMark(g: Grid, before: set<Pos>, region: set<Pos>, stack: seq<Pos>, pushed: seq<Pos>)
    requires |stack| > 0 && Covers(g, region, stack)
    requires Link(g)(stack[|stack| - 1]) <= before + region + {stack[|stack| - 1]} + Elems(pushed)
    requires Link(g)(stack[|stack| - 1]) !! before
    ensures Covers(g, region + {stack[|stack| - 1]}, stack[..|stack| - 1] + pushed)
  {
    var p, rest := stack[|stack| - 1], stack[..|stack| - 1];
    ElemsPop(stack);
    ElemsAppend(rest, pushed);
    forall a | a in region + {p} ensures Link(g)(a) <= region + {p} + Elems(rest + pushed) {
      if a != p {
        assert Link(g)(a) <= region + Elems(stack);
      }
    }
  }

  /** One neighbour test after a cell of the region is marked: push the
      neighbour when it is on the grid, unvisited and of the same plant;
      otherwise count a fence unit when it is off the grid or another plant. */
  method Look(g: Grid, visited: array<bool>, stack: seq<Pos>, p: Pos, q: Pos, plant: char, ghost seen: set<Pos>)
    returns (next: seq<Pos>, fence: int)
    requires WellFormed(g) && InBounds(p, g.height, g.width) && plant == Get(g, p)
    requires MarksExactly(visited[..], g.height, g.width, seen)
    ensures fence == Exposed(g, p, q)
    ensures next == stack + (if Alike(g, p, q) && q !in seen then [q] else [])
  {
    next, fence := stack, 0;
    if InBounds(q, g.height, g.width) {
      Marked(visited[..], g.height, g.width, seen, q);
    }
    if InBounds(q, g.height, g.width) && !visited[q.0 * g.width + q.1] && Get(g, q) == plant {
      next := stack + [q];
    } else if !InBounds(q, g.height, g.width) || Get(g, q) != plant {
      fence := 1;
    }
  }

  /** The neighbours among the first k that a cell's tests push: on the
      grid, same plant, not yet seen. */
  function Pushes(g: Grid, p: Pos, seen: set<Pos>, k: nat): seq<Pos>
    requires k <= 4
  {
    if k == 0 then []
    else
      var q := Adjacent(p)[k - 1];
      Pushes(g, p, seen, k - 1) + (if Alike(g, p, q) && q !in seen then [q] else [])
  }

  /** The pushed cells are links of p, and with the seen cells they cover
      all of p's links. */
  lemma {:induction false} PushesCover(g: Grid, p: Pos, seen: set<Pos>, k: nat)
    requires k <= 4
    ensures forall i :: 0 <= i < |Pushes(g, p, seen, k)| ==> Pushes(g, p, seen, k)[i] in Link(g)(p)
    ensures AlikeAmong(g, p, k) <= seen + Elems(Pushes(g, p, seen, k))
  {
    if k > 0 {
      PushesCover(g, p, seen, k - 1);
      var q := Adjacent(p)[k - 1];
      var before, after := Pushes(g, p, seen, k - 1), Pushes(g, p, seen, k);
      assert forall i :: 0 <= i < |before| ==> after[i] == before[i];
      assert Elems(before) <= Elems(after);
      if Alike(g, p, q) {
        LinkIff(g, p, q);
        if q !in seen {
          assert after[|before|] == q;
        }
      }
    }
  }

  /** The four neighbour tests of a newly marked cell. */
  method LookAround(g: Grid, visited: array<bool>, stack: seq<Pos>, p: Pos, plant: char, ghost seen: set<Pos>)
    returns (next: seq<Pos>, fences: int)
    requires WellFormed(g) && InBounds(p, g.height, g.width) && plant == Get(g, p)
    requires MarksExactly(visited[..], g.height, g.width, seen)
    ensures fences == Fences(g, p)
    ensures next == stack + Pushes(g, p, seen, 4)
  {
    var adj := Adjacent(p);
    var f0, f1, f2, f3;
    next, f0 := Look(g, visited, stack, p, adj[0], plant, seen);
    assert next == stack + Pushes(g, p, seen, 1);
    next, f1 := Look(g, visited, next, p, adj[1], plant, seen);
    assert next == stack + Pushes(g, p, seen, 2);
    next, f2 := Look(g, visited, next, p, adj[2], plant, seen);
    assert next == stack + Pushes(g, p, seen, 3);
    next, f3 := Look(g, visited, next, p, adj[3], plant, seen);
    fences := f0 + f1 + f2 + f3;
  }

  /** A link of a cell outside a closed set is outside it too. */
  lemma OutsideClosed(g: Grid, before: set<Pos>, p: Pos, q: Pos)
    requires Closed(Link(g), before) && p !in before && q in Link(g)(p)
    ensures q !in before
  {
    LinkSymmetric(g, p, q);
  }

  /** Popping a cell that is already marked keeps the fill's state. */
  lemma SkipFilling(g: Grid, start: Pos, visited: seq<bool>, stack: seq<Pos>, before: set<Pos>, region: set<Pos>,
                    target: set<Pos>)
    requires |stack| > 0 && Filling(g, start, visited, stack, before, region, target)
    requires stack[|stack| - 1] in region
    ensures Filling(g, start, visited, stack[..|stack| - 1], before, region, target)
  {
    var rest := stack[..|stack| - 1];
    ElemsPop(stack);
    forall a | a in region ensures Link(g)(a) <= region + Elems(rest) {
      assert Link(g)(a) <= region + Elems(stack);
    }
    assert forall k :: 0 <= k < |rest| ==> rest[k] == stack[k];
    assert Patch(g, start, target);
    assert before !! target;
    assert MarksExactly(visited, g.height, g.width, before + region);
    assert region <= target;
    assert forall k :: 0 <= k < |rest| ==> rest[k] in target;
    assert Covers(g, region, rest);
    assert start in region + Elems(rest);
  }

  /** Marking the unmarked cell p on top of the stack and pushing its unseen
      links moves the fill to its next state. */
  lemma MarkFilling(g: Grid, start: Pos, visited: seq<bool>, stack: seq<Pos>, before: set<Pos>, region: set<Pos>,
                    target: set<Pos>)
    requires |stack| > 0 && Filling(g, start, visited, stack, before, region, target)
    requires stack[|stack| - 1] !in before + region
    ensures var p := stack[|stack| - 1];
            InBounds(p, g.height, g.width) && 0 <= FlatIndex(p.0, p.1, g.width) < |visited| &&
            Filling(g, start, visited[FlatIndex(p.0, p.1, g.width) := true],
                    stack[..|stack| - 1] + Pushes(g, p, before + region + {p}, 4),
                    before, region + {p}, target)
  {
    var p := stack[|stack| - 1];
    var rest := stack[..|stack| - 1];
    ElemsPop(stack);
    MarkOne(visited, g.height, g.width, before + region, p);
    assert before + (region + {p}) == before + region + {p};
    ghost var pushed := Pushes(g, p, before + region + {p}, 4);
    PushesCover(g, p, before + region + {p}, 4);
    assert Link(g)(p) <= target;
    ElemsAppend(rest, pushed);
    assert forall k :: 0 <= k < |rest| ==> rest[k] == stack[k];
    CoversAfterMark(g, before, region, stack, pushed);
  }

  /** One turn of the fill: pop a cell; skip it when it is already visited
      or grows another plant, otherwise mark it, count its area and fence
      units, and test its neighbours. */
  method FillStep(g: Grid, start: Pos, plant: char, visited: array<bool>, stack: seq<Pos>, ghost before: set<Pos>,
                  ghost region: set<Pos>, ghost target: set<Pos>, area: int, perimeter: int)
    returns (nextStack: seq<Pos>, ghost nextRegion: set<Pos>, nextArea: int, nextPerimeter: int)
    modifies visited
    requires |stack| > 0 && Filling(g, start, visited[..], stack, before, region, target)
    requires Measured(g, region, area, perimeter) && plant == Get(g, start)
    ensures Filling(g, start, visited[..], nextStack, before, nextRegion, target)
    ensures Measured(g, nextRegion, nextArea, nextPerimeter)
    ensures |Cells(g.height, g.width) - nextRegion| < |Cells(g.height, g.width) - region| ||
            (nextRegion == region && |nextStack| < |stack|)
  {
    var p := stack[|stack| - 1];
    assert p in target;
    Marked(visited[..], g.height, g.width, before + region, p);
    var idx := p.0 * g.width + p.1;
    assert idx == FlatIndex(p.0, p.1, g.width);
    if visited[idx] || Get(g, p) != plant {
      SkipFilling(g, start, visited[..], stack, before, region, target);
      nextStack, nextRegion, nextArea, nextPerimeter := stack[..|stack| - 1], region, area, perimeter;
    } else {
      nextStack, nextRegion, nextArea, nextPerimeter := MarkStep(g, start, plant, visited, stack, before, region, target, area, perimeter);
    }
  }

  /** The marking branch of a turn of the fill, for an unmarked cell on top
      of the stack: the cell joins the region. */
  method MarkStep(g: Grid, start: Pos, plant: char, visited: array<bool>, stack: seq<Pos>, ghost before: set<Pos>,
                  ghost region: set<Pos>, ghost target: set<Pos>, area: int, perimeter: int)
    returns (nextStack: seq<Pos>, ghost nextRegion: set<Pos>, nextArea: int, nextPerimeter: int)
    modifies visited
    requires |stack| > 0 && Filling(g, start, visited[..], stack, before, region, target)
    requires Measured(g, region, area, perimeter) && plant == Get(g, start) && stack[|stack| - 1] !in before + region
    ensures Filling(g, start, visited[..], nextStack, before, nextRegion, target)
    ensures Measured(g, nextRegion, nextArea, nextPerimeter)
    ensures |Cells(g.height, g.width) - nextRegion| < |Cells(g.height, g.width) - region|
  {
    var p := stack[|stack| - 1];
    assert p in target;
    MarkFilling(g, start, visited[..], stack, before, region, target);
    var fences;
    nextStack, fences := MarkCell(g, visited, stack[..|stack| - 1], p, plant, before + region);
    nextRegion, nextArea, nextPerimeter := region + {p}, area + 1, perimeter + fences;
    MeasureAdd(g, region, area, perimeter, p);
    InCells(p, g.height, g.width);
    CellsShrink(region, p, g.height, g.width);
  }

  /** The marking half of a turn of the fill: set the flag of p, an
      unvisited cell of the plant, and run its four neighbour tests. */
  method MarkCell(g: Grid, visited: array<bool>, rest: seq<Pos>, p: Pos, plant: char, ghost seen: set<Pos>)
    returns (nextStack: seq<Pos>, fences: int)
    modifies visited
    requires WellFormed(g) && InBounds(p, g.height, g.width) && plant == Get(g, p)
    requires MarksExactly(visited[..], g.height, g.width, seen)
    ensures 0 <= FlatIndex(p.0, p.1, g.width) < visited.Length
    ensures visited[..] == old(visited[..])[FlatIndex(p.0, p.1, g.width) := true]
    ensures nextStack == rest + Pushes(g, p, seen + {p}, 4) && fences == Fences(g, p)
  {
    ghost var flags := visited[..];
    MarkOne(flags, g.height, g.width, seen, p);
    var idx := p.0 * g.width + p.1;
    visited[idx] := true;
    assert visited[..] == flags[FlatIndex(p.0, p.1, g.width) := true];
    nextStack, fences := LookAround(g, visited, rest, p, plant, seen + {p});
  }

  /** The state before the first turn of the fill. */
  lemma FillingStart(g: Grid, start: Pos, visited: seq<bool>, before: set<Pos>, target: set<Pos>)
    requires Patch(g, start, target) && before !! target
    requires MarksExactly(visited, g.height, g.width, before)
    ensures Filling(g, start, visited, [start], before, {}, target)
  {
    ElemsOne(start);
    assert before + {} == before;
  }

  /** With the stack empty the fill has marked exactly start's region. */
  lemma FillingDone(g: Grid, start: Pos, visited: seq<bool>, before: set<Pos>, region: set<Pos>)
    requires Filling(g, start, visited, [], before, region, Region(g, start))
    ensures region == Region(g, start)
  {
    assert Elems([]) == {};
    forall a | a in region ensures Link(g)(a) <= region {
      assert Link(g)(a) <= region + Elems([]);
    }
    RegionWithin(g, start, region);
  }

  /** The flood fill of `part_one` from an unvisited cell: it marks exactly
      the cell's region, which is disjoint from the earlier regions, and
      returns its area and perimeter. */
  method FillRegion(g: Grid, visited: array<bool>, start: Pos, ghost before: set<Pos>)
    returns (area: int, perimeter: int, ghost region: set<Pos>)
    modifies visited
    requires WellFormed(g) && InBounds(start, g.height, g.width)
    requires MarksExactly(visited[..], g.height, g.width, before) && Closed(Link(g), before) && start !in before
    ensures region == Region(g, start) && region !! before
    ensures MarksExactly(visited[..], g.height, g.width, before + region)
    ensures area == |region| && perimeter == Perimeter(g, region)
  {
    var plant := Get(g, start);
    var stack := [start];
    region := {};
    area, perimeter := 0, 0;
    ghost var target := Region(g, start);
    RegionPatch(g, start);
    RegionOutside(g, start, before);
    FillingStart(g, start, visited[..], before, target);
    assert Perimeter(g, {}) == 0;
    while |stack| > 0
      invariant Filling(g, start, visited[..], stack, before, region, target) && Measured(g, region, area, perimeter)
      decreases |Cells(g.height, g.width) - region|, |stack|
    {
      stack, region, area, perimeter := FillStep(g, start, plant, visited, stack, before, region, target, area, perimeter);
    }
    FillingDone(g, start, visited[..], before, region);
  }

  // ---------------------------------------------------------------------------
  // Both parts: the regions met in row-major order

  /** The regions of the cells before (i, j) in row-major order. */
  ghost function Covered(g: Grid, i: nat, j: nat): set<Pos>
    requires WellFormed(g) && j <= g.width
    decreases i, j
  {
    if j == 0 then (if i == 0 then {} else Covered(g, i - 1, g.width))
    else Covered(g, i, j - 1) + (if InBounds((i, j - 1), g.height, g.width) then Region(g, (i, j - 1)) else {})
  }

  /** The price of the cells before (i, j): a region is priced at its first
      cell, the one where the scan finds it uncovered. */
  ghost function PriceSum(g: Grid, i: nat, j: nat, cost: set<Pos> -> int): int
    requires WellFormed(g) && j <= g.width
    decreases i, j
  {
    if j == 0 then (if i == 0 then 0 else PriceSum(g, i - 1, g.width, cost))
    else
      var p := (i, j - 1);
      PriceSum(g, i, j - 1, cost) + (if InBounds(p, g.height, g.width) && p !in Covered(g, i, j - 1) then cost(Region(g, p)) else 0)
  }

  lemma {:induction false} CoveredClosed(g: Grid, i: nat, j: nat)
    requires WellFormed(g) && j <= g.width
    ensures Closed(Link(g), Covered(g, i, j))
    decreases i, j
  {
    if j == 0 {
      if i > 0 {
        CoveredClosed(g, i - 1, g.width);
      }
    } else {
      CoveredClosed(g, i, j - 1);
      if InBounds((i, j - 1), g.height, g.width) {
        RegionClosed(g, (i, j - 1));
      }
    }
  }

  /** The regions found before (i, j) hold every cell before it, so at the
      end of the scan they cover the grid. */
  lemma {:induction false} CoveredHoldsEarlier(g: Grid, i: nat, j: nat, p: Pos)
    requires WellFormed(g) && j <= g.width
    requires InBounds(p, g.height, g.width) && (p.0 < i || (p.0 == i && p.1 < j))
    ensures p in Covered(g, i, j)
    decreases i, j
  {
    if j == 0 {
      CoveredHoldsEarlier(g, i - 1, g.width, p);
    } else if p == (i, j - 1) {
      RegionStart(g, p);
    } else {
      CoveredHoldsEarlier(g, i, j - 1, p);
    }
  }

  /** The regions of the scan cover the grid. */
  lemma RegionsCover(g: Grid)
    requires WellFormed(g)
    ensures Covered(g, g.height, 0) == Cells(g.height, g.width)
  {
    forall p | p in Cells(g.height, g.width) ensures p in Covered(g, g.height, 0) {
      CoveredHoldsEarlier(g, g.height, 0, p);
    }
    CoveredInCells(g, g.height, 0);
  }

  lemma {:induction false} CoveredInCells(g: Grid, i: nat, j: nat)
    requires WellFormed(g) && j <= g.width
    ensures Covered(g, i, j) <= Cells(g.height, g.width)
    decreases i, j
  {
    if j == 0 {
      if i > 0 {
        CoveredInCells(g, i - 1, g.width);
      }
    } else {
      CoveredInCells(g, i, j - 1);
    }
  }

  /** The price of a region in part one. */
  ghost function FencePrice(g: Grid): set<Pos> -> int
  {
    r => |r| * Perimeter(g, r)
  }

  /** One cell of the scan of `part_one`: an unvisited cell starts a fill
      whose area × perimeter is added. */
  method PriceCellOne(g: Grid, visited: array<bool>, i: nat, j: nat, total: int) returns (next: int)
    modifies visited
    requires WellFormed(g) && i < g.height && j < g.width
    requires MarksExactly(visited[..], g.height, g.width, Covered(g, i, j)) && total == PriceSum(g, i, j, FencePrice(g))
    ensures MarksExactly(visited[..], g.height, g.width, Covered(g, i, j + 1)) && next == PriceSum(g, i, j + 1, FencePrice(g))
  {
    ghost var before := Covered(g, i, j);
    CoveredClosed(g, i, j);
    Marked(visited[..], g.height, g.width, before, (i, j));
    if !visited[i * g.width + j] {
      var area, perimeter, region := FillRegion(g, visited, (i, j), before);
      next := total + area * perimeter;
    } else {
      RegionWithin(g, (i, j), before);
      assert Covered(g, i, j + 1) == before;
      next := total;
    }
  }

  /** One row of the scan of `part_one`. */
  method ScanRowOne(g: Grid, visited: array<bool>, i: nat, total: int) returns (next: int)
    modifies visited
    requires WellFormed(g) && i < g.height
    requires MarksExactly(visited[..], g.height, g.width, Covered(g, i, 0)) && total == PriceSum(g, i, 0, FencePrice(g))
    ensures MarksExactly(visited[..], g.height, g.width, Covered(g, i + 1, 0)) && next == PriceSum(g, i + 1, 0, FencePrice(g))
  {
    next := total;
    for j := 0 to g.width
      invariant MarksExactly(visited[..], g.height, g.width, Covered(g, i, j)) && next == PriceSum(g, i, j, FencePrice(g))
    {
      next := PriceCellOne(g, visited, i, j, next);
    }
  }

  /** `part_one`: the total fencing price by perimeter; None where
      `Grid::new` divides by zero. */
  method PartOne(lines: seq<string>) returns (r: Option<int>)
    ensures r.Some? <==> NewGrid(lines).Some?
    ensures r.Some? ==> r.value == PriceSum(NewGrid(lines).value, NewGrid(lines).value.height, 0, FencePrice(NewGrid(lines).value))
  {
    var parsed := NewGrid(lines);
    if parsed.None? {
      return None;
    }
    var g := parsed.value;
    MulNonNegative(g.height, g.width);
    var visited := new bool[g.height * g.width](_ => false);
    NoneMarked(visited[..], g.height, g.width);
    var total := 0;
    for i := 0 to g.height
      invariant MarksExactly(visited[..], g.height, g.width, Covered(g, i, 0)) && total == PriceSum(g, i, 0, FencePrice(g))
    {
      total := ScanRowOne(g, visited, i, total);
    }
    return Some(total);
  }

  // ---------------------------------------------------------------------------
  // Part two: collect the region as a set, then count its sides

  /** The cells of the region whose links may still be unmarked are pending;
      every other marked cell has all its links marked. */
  ghost predicate Done(g: Grid, region: set<Pos>, pending: set<Pos>)
  {
    forall a {:trigger Link(g)(a)} :: a in region && a !in pending ==> Link(g)(a) <= region
  }

  /** The state of `collect_region` from start towards its region `target`:
      the marked cells of this call are exactly `region`. */
  ghost predicate Gathering(g: Grid, start: Pos, visited: seq<bool>, before: set<Pos>, region: set<Pos>,
                            target: set<Pos>, pending: set<Pos>)
  {
    Patch(g, start, target) && before !! target &&
    MarksExactly(visited, g.height, g.width, before + region) &&
    region <= target && start in region && pending <= region && Done(g, region, pending)
  }

  /** Marking and pushing an unmarked link q of the pending cell p. */
  lemma GatherPush(g: Grid, start: Pos, visited: seq<bool>, before: set<Pos>, region: set<Pos>, target: set<Pos>,
                   pending: set<Pos>, p: Pos, k: nat, q: Pos)
    requires Gathering(g, start, visited, before, region, target, pending)
    requires p in pending && k < 4 && AlikeAmong(g, p, k) <= region
    requires q == Adjacent(p)[k] && Alike(g, p, q) && q !in before + region
    ensures 0 <= FlatIndex(q.0, q.1, g.width) < |visited|
    ensures Gathering(g, start, visited[FlatIndex(q.0, q.1, g.width) := true], before, region + {q}, target, pending + {q})
    ensures AlikeAmong(g, p, k + 1) <= region + {q}
  {
    LinkIff(g, p, q);
    MarkOne(visited, g.height, g.width, before + region, q);
    assert before + (region + {q}) == before + region + {q};
    forall a | a in region + {q} && a !in pending + {q} ensures Link(g)(a) <= region + {q} {
      assert Link(g)(a) <= region;
    }
  }

  /** Passing over the neighbour q of the pending cell p: it is off the
      grid, another plant, or already marked. */
  lemma GatherSkip(g: Grid, start: Pos, visited: seq<bool>, before: set<Pos>, region: set<Pos>, target: set<Pos>,
                   pending: set<Pos>, p: Pos, k: nat, q: Pos)
    requires Gathering(g, start, visited, before, region, target, pending)
    requires p in pending && k < 4 && AlikeAmong(g, p, k) <= region
    requires q == Adjacent(p)[k] && (!Alike(g, p, q) || q in before + region)
    ensures AlikeAmong(g, p, k + 1) <= region
  {
    if Alike(g, p, q) {
      LinkIff(g, p, q);
      assert q in target;
    }
  }

  /** A pending cell whose links are all marked is done. */
  lemma GatherFinish(g: Grid, start: Pos, visited: seq<bool>, before: set<Pos>, region: set<Pos>, target: set<Pos>,
                     pending: set<Pos>, p: Pos)
    requires Gathering(g, start, visited, before, region, target, pending + {p})
    requires AlikeAmong(g, p, 4) <= region
    ensures Gathering(g, start, visited, before, region, target, pending)
  {
    forall a | a in region && a !in pending ensures Link(g)(a) <= region {
      if a != p {
        assert a !in pending + {p};
      }
    }
  }

  /** One neighbour test of `collect_region`: an in-bounds, unvisited
      neighbour of the plant is marked, added to the region and pushed. */
  method GatherNeighbour(g: Grid, start: Pos, plant: char, visited: array<bool>, stack: seq<Pos>, p: Pos, k: nat,
                         ghost before: set<Pos>, region: set<Pos>, ghost target: set<Pos>)
    returns (nextStack: seq<Pos>, nextRegion: set<Pos>)
    modifies visited
    requires Gathering(g, start, visited[..], before, region, target, Elems(stack) + {p})
    requires p in region && plant == Get(g, start) && k < 4 && AlikeAmong(g, p, k) <= region
    ensures Gathering(g, start, visited[..], before, nextRegion, target, Elems(nextStack) + {p})
    ensures AlikeAmong(g, p, k + 1) <= nextRegion
    ensures (nextRegion == region && nextStack == stack) ||
            |Cells(g.height, g.width) - nextRegion| < |Cells(g.height, g.width) - region|
  {
    var q := Adjacent(p)[k];
    nextStack, nextRegion := stack, region;
    if 0 <= q.0 < g.height && 0 <= q.1 < g.width {
      Marked(visited[..], g.height, g.width, before + region, q);
      var idx := q.0 * g.width + q.1;
      assert idx == FlatIndex(q.0, q.1, g.width);
      assert Get(g, p) == plant;
      if !visited[idx] && Get(g, q) == plant {
        GatherPush(g, start, visited[..], before, region, target, Elems(stack) + {p}, p, k, q);
        visited[idx] := true;
        nextRegion := region + {q};
        nextStack := stack + [q];
        ElemsAppend(stack, [q]);
        ElemsOne(q);
        assert Elems(stack) + {p} + {q} == Elems(nextStack) + {p};
        InCells(q, g.height, g.width);
        CellsShrink(region, q, g.height, g.width);
        return;
      }
    }
    GatherSkip(g, start, visited[..], before, region, target, Elems(stack) + {p}, p, k, q);
  }

  /** One turn of `collect_region`: pop a cell and test its four neighbours. */
  method GatherStep(g: Grid, start: Pos, plant: char, visited: array<bool>, stack: seq<Pos>,
                    ghost before: set<Pos>, region: set<Pos>, ghost target: set<Pos>)
    returns (nextStack: seq<Pos>, nextRegion: set<Pos>)
    modifies visited
    requires |stack| > 0 && Gathering(g, start, visited[..], before, region, target, Elems(stack))
    requires plant == Get(g, start)
    ensures Gathering(g, start, visited[..], before, nextRegion, target, Elems(nextStack))
    ensures |Cells(g.height, g.width) - nextRegion| < |Cells(g.height, g.width) - region| ||
            (nextRegion == region && |nextStack| < |stack|)
  {
    var p := stack[|stack| - 1];
    nextStack, nextRegion := stack[..|stack| - 1], region;
    ElemsPop(stack);
    for k := 0 to 4
      invariant Gathering(g, start, visited[..], before, nextRegion, target, Elems(nextStack) + {p})
      invariant p in nextRegion && AlikeAmong(g, p, k) <= nextRegion
      invariant |Cells(g.height, g.width) - nextRegion| < |Cells(g.height, g.width) - region| ||
                (nextRegion == region && nextStack == stack[..|stack| - 1])
    {
      nextStack, nextRegion := GatherNeighbour(g, start, plant, visited, nextStack, p, k, before, nextRegion, target);
    }
    GatherFinish(g, start, visited[..], before, nextRegion, target, Elems(nextStack), p);
  }

  /** The state after `collect_region` marks its start. */
  lemma GatherStart(g: Grid, start: Pos, visited: seq<bool>, before: set<Pos>, target: set<Pos>)
    requires Patch(g, start, target) && before !! target
    requires MarksExactly(visited, g.height, g.width, before)
    ensures 0 <= FlatIndex(start.0, start.1, g.width) < |visited|
    ensures Gathering(g, start, visited[FlatIndex(start.0, start.1, g.width) := true], before, {start}, target, Elems([start]))
  {
    MarkOne(visited, g.height, g.width, before, start);
    ElemsOne(start);
    assert before + {start} == before + {start};
  }

  /** With nothing pending the collected cells are exactly start's region. */
  lemma GatherDone(g: Grid, start: Pos, visited: seq<bool>, before: set<Pos>, region: set<Pos>)
    requires Gathering(g, start, visited, before, region, Region(g, start), {})
    ensures region == Region(g, start)
  {
    forall a | a in region ensures Link(g)(a) <= region {
      assert a !in {};
    }
    RegionWithin(g, start, region);
  }

  /** `collect_region`: a depth-first search that marks each cell as it is
      pushed; it collects exactly the start's region, which is disjoint from
      the earlier regions, and marks it visited. */
  method CollectRegion(g: Grid, visited: array<bool>, start: Pos, ghost before: set<Pos>) returns (region: set<Pos>)
    modifies visited
    requires WellFormed(g) && InBounds(start, g.height, g.width)
    requires MarksExactly(visited[..], g.height, g.width, before) && Closed(Link(g), before) && start !in before
    ensures region == Region(g, start) && region !! before
    ensures MarksExactly(visited[..], g.height, g.width, before + region)
  {
    ghost var target := Region(g, start);
    RegionPatch(g, start);
    RegionOutside(g, start, before);
    var stack := [start];
    var plant := Get(g, start);
    region := {start};
    GatherStart(g, start, visited[..], before, target);
    visited[start.0 * g.width + start.1] := true;
    while |stack| > 0
      invariant Gathering(g, start, visited[..], before, region, target, Elems(stack))
      decreases |Cells(g.height, g.width) - region|, |stack|
    {
      stack, region := GatherStep(g, start, plant, visited, stack, before, region, target);
    }
    assert Elems(stack) == {};
    GatherDone(g, start, visited[..], before, region);
  }

  /** The sides of a region that start at p, one per edge direction, as
      `calculate_discount` counts them: p's top edge is fenced and the cell
      to its left does not continue that fence, and likewise for the
      bottom, left and right edges. */
  function Sides(region: set<Pos>, p: Pos, height: int, width: int): int
  {
    var (y, x) := p;
    (if (y == 0 || (y - 1, x) !in region) &&
        (x == 0 || (y, x - 1) !in region || (y > 0 && (y - 1, x - 1) in region)) then 1 else 0) +
    (if (y == height - 1 || (y + 1, x) !in region) &&
        (x == 0 || (y, x - 1) !in region || (y < height - 1 && (y + 1, x - 1) in region)) then 1 else 0) +
    (if (x == 0 || (y, x - 1) !in region) &&
        (y == 0 || (y - 1, x) !in region || (x > 0 && (y - 1, x - 1) in region)) then 1 else 0) +
    (if (x == width - 1 || (y, x + 1) !in region) &&
        (y == 0 || (y - 1, x) !in region || (x < width - 1 && (y - 1, x + 1) in region)) then 1 else 0)
  }

  function SideCount(region: set<Pos>, height: int, width: int): Pos -> int
  {
    p => Sides(region, p, height, width)
  }

  /** The sides of a region: the sum of the sides that start at each cell. */
  ghost function Discount(region: set<Pos>, height: int, width: int): int
  {
    SetSum(region, SideCount(region, height, width))
  }

  /** `calculate_discount`: the sum, over the cells of the region in any
      order, of the sides starting there; at most four per cell. */
  method CalculateDiscount(region: set<Pos>, height: int, width: int) returns (total: int)
    ensures total == Discount(region, height, width)
    ensures 0 <= total <= 4 * |region|
  {
    total := 0;
    var rest := region;
    while rest != {}
      invariant rest <= region
      invariant total + SetSum(rest, SideCount(region, height, width)) == Discount(region, height, width)
      invariant 0 <= total <= 4 * (|region| - |rest|)
      decreases |rest|
    {
      var p :| p in rest;
      SetSumRemove(rest, SideCount(region, height, width), p);
      total := total + Sides(region, p, height, width);
      rest := rest - {p};
    }
  }

  /** Within a closed set of cells, every side starting at p is a fence unit
      of p in part one: an edge the region leaves open faces the grid's edge
      or another plant. */
  lemma SidesAtMostFences(g: Grid, region: set<Pos>, p: Pos)
    requires WellFormed(g) && p in region && Closed(Link(g), region)
    requires forall a :: a in region ==> InBounds(a, g.height, g.width)
    ensures Sides(region, p, g.height, g.width) <= Fences(g, p)
  {
    assert Link(g)(p) <= region;
    var adj := Adjacent(p);
    forall k | 0 <= k < 4 && Alike(g, p, adj[k]) ensures adj[k] in region {
      LinkIff(g, p, adj[k]);
    }
  }

  /** A region's sides are at most its perimeter. */
  lemma DiscountAtMostPerimeter(g: Grid, start: Pos)
    requires WellFormed(g) && InBounds(start, g.height, g.width)
    ensures Discount(Region(g, start), g.height, g.width) <= Perimeter(g, Region(g, start))
  {
    var r := Region(g, start);
    RegionPatch(g, start);
    forall a | a in r ensures SideCount(r, g.height, g.width)(a) <= FenceCount(g)(a) {
      SidesAtMostFences(g, r, a);
    }
    SetSumMonotone(r, SideCount(r, g.height, g.width), FenceCount(g));
  }

  /** The price of a region in part two. */
  ghost function SidePrice(g: Grid): set<Pos> -> int
  {
    r => |r| * Discount(r, g.height, g.width)
  }

  /** Pricing every region no higher prices the whole map no higher. */
  lemma {:induction false} PriceSumMonotone(g: Grid, i: nat, j: nat, low: set<Pos> -> int, high: set<Pos> -> int)
    requires WellFormed(g) && j <= g.width
    requires forall p :: InBounds(p, g.height, g.width) ==> low(Region(g, p)) <= high(Region(g, p))
    ensures PriceSum(g, i, j, low) <= PriceSum(g, i, j, high)
    decreases i, j
  {
    if j == 0 {
      if i > 0 {
        PriceSumMonotone(g, i - 1, g.width, low, high);
      }
    } else {
      PriceSumMonotone(g, i, j - 1, low, high);
      var p := (i, j - 1);
      if InBounds(p, g.height, g.width) {
        assert low(Region(g, p)) <= high(Region(g, p));
      }
    }
  }

  /** Part two's price is never above part one's: the bulk discount only
      lowers the price of each region. */
  lemma SidePriceAtMostFencePrice(g: Grid)
    requires WellFormed(g)
    ensures PriceSum(g, g.height, 0, SidePrice(g)) <= PriceSum(g, g.height, 0, FencePrice(g))
  {
    forall p | InBounds(p, g.height, g.width) ensures SidePrice(g)(Region(g, p)) <= FencePrice(g)(Region(g, p)) {
      RegionPriceBound(g, p);
    }
    PriceSumMonotone(g, g.height, 0, SidePrice(g), FencePrice(g));
  }

  lemma RegionPriceBound(g: Grid, start: Pos)
    requires WellFormed(g) && InBounds(start, g.height, g.width)
    ensures SidePrice(g)(Region(g, start)) <= FencePrice(g)(Region(g, start))
  {
    var r := Region(g, start);
    DiscountAtMostPerimeter(g, start);
    MulMonotone(|r|, Discount(r, g.height, g.width), Perimeter(g, r));
  }

  /** One cell of the scan of `part_two`: an unvisited cell starts a
      collection whose area × sides is added. */
  method PriceCellTwo(g: Grid, visited: array<bool>, i: nat, j: nat, total: int) returns (next: int)
    modifies visited
    requires WellFormed(g) && i < g.height && j < g.width
    requires MarksExactly(visited[..], g.height, g.width, Covered(g, i, j)) && total == PriceSum(g, i, j, SidePrice(g))
    ensures MarksExactly(visited[..], g.height, g.width, Covered(g, i, j + 1)) && next == PriceSum(g, i, j + 1, SidePrice(g))
  {
    ghost var before := Covered(g, i, j);
    CoveredClosed(g, i, j);
    Marked(visited[..], g.height, g.width, before, (i, j));
    if !visited[i * g.width + j] {
      var region := CollectRegion(g, visited, (i, j), before);
      var discount := CalculateDiscount(region, g.height, g.width);
      next := total + |region| * discount;
    } else {
      RegionWithin(g, (i, j), before);
      assert Covered(g, i, j + 1) == before;
      next := total;
    }
  }

  /** One row of the scan of `part_two`. */
  method ScanRowTwo(g: Grid, visited: array<bool>, i: nat, total: int) returns (next: int)
    modifies visited
    requires WellFormed(g) && i < g.height
    requires MarksExactly(visited[..], g.height, g.width, Covered(g, i, 0)) && total == PriceSum(g, i, 0, SidePrice(g))
    ensures MarksExactly(visited[..], g.height, g.width, Covered(g, i + 1, 0)) && next == PriceSum(g, i + 1, 0, SidePrice(g))
  {
    next := total;
    for j := 0 to g.width
      invariant MarksExactly(visited[..], g.height, g.width, Covered(g, i, j)) && next == PriceSum(g, i, j, SidePrice(g))
    {
      next := PriceCellTwo(g, visited, i, j, next);
    }
  }

  /** `part_two`: the total fencing price by sides; None where `Grid::new`
      divides by zero. */
  method PartTwo(lines: seq<string>) returns (r: Option<int>)
    ensures r.Some? <==> NewGrid(lines).Some?
    ensures r.Some? ==> r.value == PriceSum(NewGrid(lines).value, NewGrid(lines).value.height, 0, SidePrice(NewGrid(lines).value))
  {
    var parsed := NewGrid(lines);
    if parsed.None? {
      return None;
    }
    var g := parsed.value;
    MulNonNegative(g.height, g.width);
    var visited := new bool[g.height * g.width](_ => false);
    NoneMarked(visited[..], g.height, g.width);
    var total := 0;
    for i := 0 to g.height
      invariant MarksExactly(visited[..], g.height, g.width, Covered(g, i, 0)) && total == PriceSum(g, i, 0, SidePrice(g))
    {
      total := ScanRowTwo(g, visited, i, total);
    }
    return Some(total);
  }
}
