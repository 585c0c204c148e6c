/** Day 15: a robot pushing boxes around a warehouse stored as a flat grid of
    bytes, `w` per row. Part one has small boxes `O`; part two doubles the
    width and has wide boxes `[]`. The robot's own cell holds '.', its
    position is kept apart from the grid. */
module Day15 {
  import opened Common

  const Wall := '#'
  const Empty := '.'
  const SmallBox := 'O'
  const BoxLeft := '['
  const BoxRight := ']'
  const RobotMark := '@'

  predicate IsBox(c: char)
  {
    c == SmallBox || c == BoxLeft || c == BoxRight
  }

  datatype Robot = Robot(x: nat, y: nat)

  // ----- Horizontal pushes -----

  /** The scan from column x in direction dx over box bytes: the first column
      holding something else. None where the source panics: the column would
      go below zero, or the flat index runs off the grid. */
  function ScanBoxes(g: seq<char>, row: nat, x: nat, dx: int): (r: Option<nat>)
    requires dx == 1 || dx == -1
    ensures r.Some? ==> row + r.value < |g| && !IsBox(g[row + r.value])
    ensures r.Some? ==> if dx > 0 then x <= r.value else r.value <= x
    decreases if dx > 0 then |g| - x else x
  {
    if row + x >= |g| then None
    else if !IsBox(g[row + x]) then Some(x)
    else if x + dx < 0 then None
    else ScanBoxes(g, row, x + dx, dx)
  }

  /** The row segment from `from` to `to` (flat indices, `to` further in
      direction dx) moved one cell away from `from`; `from` becomes empty and
      the old byte at `to` is dropped. */
  function Shifted(g: seq<char>, from: nat, to: nat, dx: int): (r: seq<char>)
    requires from < |g| && to < |g|
    ensures |r| == |g|
  {
    seq(|g|, i requires 0 <= i < |g| =>
      if i == from then Empty
      else if dx > 0 && from < i <= to then g[i - 1]
      else if dx < 0 && to <= i < from then g[i + 1]
      else g[i])
  }

  /** `move_horizontal`: push the run of boxes next to the robot one cell in
      direction dx when an empty cell ends it. */
  function HorizontalPush(g: seq<char>, w: nat, px: nat, py: nat, dx: int): (r: Option<seq<char>>)
    requires dx == 1 || dx == -1
    ensures r.Some? ==> |r.value| == |g| && px + dx >= 0
  {
    if px + dx < 0 then None
    else
      var sx: nat := px + dx;
      match ScanBoxes(g, py * w, sx, dx)
      case None => None
      case Some(x) =>
        if x != sx && g[py * w + x] == Empty then Some(Shifted(g, py * w + sx, py * w + x, dx))
        else Some(g)
  }

  method MoveHorizontal(a: array<char>, w: nat, px: nat, py: nat, dx: int) returns (ok: bool)
    requires dx == 1 || dx == -1
    modifies a
    ensures ok <==> HorizontalPush(old(a[..]), w, px, py, dx).Some?
    ensures ok ==> a[..] == HorizontalPush(old(a[..]), w, px, py, dx).value
    ensures !ok ==> a[..] == old(a[..])
  {
    if px + dx < 0 {
      return false;
    }
    var row := py * w;
    var sx: nat := px + dx;
    var scan := FindRunEnd(a, row, sx, dx);
    if scan.None? {
      return false;
    }
    var x := scan.value;
    if x != sx && a[row + x] == Empty {
      ShiftRun(a, row + sx, row + x, dx);
    }
    return true;
  }

  /** The scan loop of `move_horizontal`. */
  method FindRunEnd(a: array<char>, row: nat, sx: nat, dx: int) returns (r: Option<nat>)
    requires dx == 1 || dx == -1
    ensures r == ScanBoxes(a[..], row, sx, dx)
  {
    var x: nat := sx;
    while row + x < a.Length && IsBox(a[row + x])
      invariant ScanBoxes(a[..], row, x, dx) == ScanBoxes(a[..], row, sx, dx)
      decreases if dx > 0 then a.Length - x else x
    {
      if x + dx < 0 {
        return None;
      }
      x := x + dx;
    }
    if row + x >= a.Length {
      return None;
    }
    return Some(x);
  }

  /** The swap loop of `move_horizontal`: the empty cell at `to` travels back
      to `from`, each byte in between moving one cell in direction dx. */
  method ShiftRun(a: array<char>, from: nat, to: nat, dx: int)
    requires dx == 1 || dx == -1
    requires from < a.Length && to < a.Length && (if dx > 0 then from <= to else to <= from)
    requires a[to] == Empty
    modifies a
    ensures a[..] == Shifted(old(a[..]), from, to, dx)
  {
    ghost var g := a[..];
    var x := to;
    assert g == Shifted(g, to, to, dx);
    while x != from
      invariant if dx > 0 then from <= x <= to else to <= x <= from
      invariant a[..] == Shifted(g, x, to, dx)
      decreases if dx > 0 then x - from else from - x
    {
      ShiftedStep(g, a[..], x, to, dx);
      a[x], a[x - dx] := a[x - dx], a[x];
      x := x - dx;
    }
  }

  /** One swap of the push loop moves the empty cell one step back toward the robot. */
  lemma ShiftedStep(g: seq<char>, s: seq<char>, from: nat, to: nat, dx: int)
    requires dx == 1 || dx == -1
    requires from < |g| && to < |g| && (if dx > 0 then from <= to else to <= from)
    requires from - dx >= 0 && from - dx < |g|
    requires s == Shifted(g, from, to, dx)
    ensures s[from := s[from - dx]][from - dx := s[from]] == Shifted(g, from - dx, to, dx)
  {
  }

  lemma {:induction false} ShiftedIsRotation(g: seq<char>, from: nat, to: nat, dx: int)
    requires dx == 1 || dx == -1
    requires from < |g| && to < |g| && (if dx > 0 then from <= to else to <= from)
    requires g[to] == Empty
    ensures multiset(Shifted(g, from, to, dx)) == multiset(g)
    decreases if dx > 0 then to - from else from - to
  {
    if from == to {
      assert Shifted(g, from, to, dx) == g;
    } else {
      var prev := to - dx;
      var g' := g[to := g[prev]][prev := Empty];
      assert multiset(g') == multiset(g);
      assert Shifted(g, from, to, dx) == Shifted(g', from, prev, dx);
      ShiftedIsRotation(g', from, prev, dx);
    }
  }

  /** A horizontal push only rearranges the grid: no byte appears or vanishes. */
  lemma HorizontalPushPermutes(g: seq<char>, w: nat, px: nat, py: nat, dx: int)
    requires dx == 1 || dx == -1
    requires HorizontalPush(g, w, px, py, dx).Some?
    ensures multiset(HorizontalPush(g, w, px, py, dx).value) == multiset(g)
  {
    var sx := px + dx;
    match ScanBoxes(g, py * w, sx, dx)
    case None =>
    case Some(x) =>
      if x != sx && g[py * w + x] == Empty {
        ShiftedIsRotation(g, py * w + sx, py * w + x, dx);
      }
  }

  /** After a push that happened, the cell next to the robot is empty and the
      robot's own cell did not change. */
  lemma HorizontalPushFreesNeighbour(g: seq<char>, w: nat, px: nat, py: nat, dx: int)
    requires dx == 1 || dx == -1
    requires HorizontalPush(g, w, px, py, dx).Some? && HorizontalPush(g, w, px, py, dx).value != g
    ensures px + dx >= 0 && py * w + px + dx < |g|
    ensures HorizontalPush(g, w, px, py, dx).value[py * w + px + dx] == Empty
    ensures py * w + px < |g| ==> HorizontalPush(g, w, px, py, dx).value[py * w + px] == g[py * w + px]
  {
  }

  /** A horizontal push changes only cells strictly beyond the robot in the
      push direction, all of them part of the run it scanned. */
  lemma HorizontalPushLocal(g: seq<char>, w: nat, px: nat, py: nat, dx: int)
    requires dx == 1 || dx == -1
    requires HorizontalPush(g, w, px, py, dx).Some?
    ensures var r := HorizontalPush(g, w, px, py, dx).value;
            forall i :: 0 <= i < |g| && r[i] != g[i] ==>
              (if dx > 0 then py * w + px < i else i < py * w + px) &&
              ScanBoxes(g, py * w, px + dx, dx).Some? &&
              (if dx > 0 then i <= py * w + ScanBoxes(g, py * w, px + dx, dx).value
               else py * w + ScanBoxes(g, py * w, px + dx, dx).value <= i)
  {
  }

  // ----- Vertical pushes -----
  // Rows are named by their first flat index: row y of a grid w wide starts
  // at y * w, and the row next to it in direction dy starts w further on or
  // w further back.

  /** The row after `row` in direction dy, or None above the first row, where
      the source's `y + dy` on an unsigned row panics. */
  function NextRow(row: nat, w: nat, dy: int): (r: Option<nat>)
    requires dy == 1 || dy == -1
    ensures r.Some? ==> r.value == row + dy * w
  {
    if dy > 0 then Some(row + w) else if row < w then None else Some(row - w)
  }

  /** On row starts, NextRow is the source's `(y + dy) * width`. */
  lemma NextRowOfRow(y: nat, w: nat, dy: int)
    requires w > 0 && (dy == 1 || dy == -1)
    ensures NextRow(y * w, w, dy) == if y + dy < 0 then None else Some((y + dy) * w)
  {
    if dy < 0 && y > 0 {
      MulAtLeast(y, w);
    }
  }

  /** Termination measure of the vertical recursion: cells left in direction dy. */
  function Rows(n: nat, row: nat, dy: int): nat
  {
    if dy < 0 then row + 1 else if row <= n then n - row else 0
  }

  /** `is_movable_vertical`: the box spanning columns b0..b1 of `row` can
      move to the next row in direction dy. None where the source panics: no
      next row, an index off the grid, or b0 = 0 when `b.0 - 1` is computed. */
  function Movable(g: seq<char>, w: nat, b0: nat, b1: nat, row: nat, dy: int): (r: Option<bool>)
    requires w > 0 && (dy == 1 || dy == -1) && row < |g|
    ensures r == Some(true) ==>
      b0 > 0 && NextRow(row, w, dy).Some? && NextRow(row, w, dy).value + b0 < |g| && NextRow(row, w, dy).value + b1 < |g| &&
      g[NextRow(row, w, dy).value + b0] != Wall && g[NextRow(row, w, dy).value + b1] != Wall
    decreases Rows(|g|, row, dy), 1
  {
    match NextRow(row, w, dy)
    case None => None
    case Some(nrow) =>
      if nrow + b0 >= |g| then None
      else if g[nrow + b0] == Wall then Some(false)
      else if nrow + b1 >= |g| then None
      else if g[nrow + b1] == Wall then Some(false)
      else
        match Blocks(g, w, b0, SmallBox, b0, b0, nrow, dy)
        case None => None
        case Some(true) => Some(false)
        case Some(false) =>
          match Blocks(g, w, b1, SmallBox, b1, b1, nrow, dy)
          case None => None
          case Some(true) => Some(false)
          case Some(false) =>
            if b0 == 0 then None
            else
              match Blocks(g, w, b0, BoxLeft, b0, b0 + 1, nrow, dy)
              case None => None
              case Some(true) => Some(false)
              case Some(false) =>
                match Blocks(g, w, b0, BoxRight, b0 - 1, b0, nrow, dy)
                case None => None
                case Some(true) => Some(false)
                case Some(false) =>
                  match Blocks(g, w, b1, BoxLeft, b1, b1 + 1, nrow, dy)
                  case None => None
                  case Some(true) => Some(false)
                  case Some(false) => Some(true)
  }

  /** Column x of `nrow` holds byte c and the box c0..c1 there cannot move on. */
  function Blocks(g: seq<char>, w: nat, x: nat, c: char, c0: nat, c1: nat, nrow: nat, dy: int): Option<bool>
    requires w > 0 && (dy == 1 || dy == -1) && nrow + x < |g|
    decreases Rows(|g|, nrow, dy), 2
  {
    if g[nrow + x] != c then Some(false)
    else
      match Movable(g, w, c0, c1, nrow, dy)
      case None => None
      case Some(m) => Some(!m)
  }

  /** The k-th neighbour check of `is_movable_vertical` and `move_vertical`:
      column x of the next row, the byte c looked for there, and the columns
      c0..c1 of the box it belongs to. Checks 0 and 1 look for small boxes
      above/below b0 and b1, checks 2 to 4 for wide boxes. */
  function Check(b0: nat, b1: nat, k: nat): (r: (nat, char, nat, nat))
    requires k < 5 && (k >= 2 ==> b0 > 0)
    ensures r.0 == b0 || r.0 == b1
    ensures r.2 <= r.0 <= r.3 && r.3 <= r.2 + 1
  {
    if k == 0 then (b0, SmallBox, b0, b0)
    else if k == 1 then (b1, SmallBox, b1, b1)
    else if k == 2 then (b0, BoxLeft, b0, b0 + 1)
    else if k == 3 then (b0, BoxRight, b0 - 1, b0)
    else (b1, BoxLeft, b1, b1 + 1)
  }

  /** Rows(nrow) + 1 is the measure of the row the box comes from. */
  function Above(n: nat, nrow: nat, dy: int): nat
  {
    Rows(n, nrow, dy) + 1
  }

  /** Checks k..4 of `move_vertical`, each moving the box it finds in the
      way. The array of wide-box checks is built only after the small-box
      loop, and building it computes `b.0 - 1`: None when b0 = 0. */
  function PushAll(g: seq<char>, w: nat, b0: nat, b1: nat, nrow: nat, dy: int, k: nat): (r: Option<seq<char>>)
    requires w > 0 && (dy == 1 || dy == -1) && k <= 5
    ensures r.Some? ==> |r.value| == |g|
    decreases Above(|g|, nrow, dy), 0, 5 - k
  {
    if k == 5 then Some(g)
    else
      match PushStep(g, w, b0, b1, nrow, dy, k)
      case None => None
      case Some(g') => PushAll(g', w, b0, b1, nrow, dy, k + 1)
  }

  /** Check k alone. */
  function PushStep(g: seq<char>, w: nat, b0: nat, b1: nat, nrow: nat, dy: int, k: nat): (r: Option<seq<char>>)
    requires w > 0 && (dy == 1 || dy == -1) && k < 5
    ensures r.Some? ==> |r.value| == |g|
    decreases Above(|g|, nrow, dy), 0, 0
  {
    if k >= 2 && b0 == 0 then None
    else
      var (x, c, c0, c1) := Check(b0, b1, k);
      PushIf(g, w, x, c, c0, c1, nrow, dy)
  }

  /** `move_vertical`: move the boxes in the way first, then the box at
      columns b0..b1 of `row` to the next row, emptying its old cells. None
      where the source panics. */
  function MoveVert(g: seq<char>, w: nat, b0: nat, b1: nat, row: nat, dy: int): (r: Option<seq<char>>)
    requires w > 0 && (dy == 1 || dy == -1) && row < |g|
    ensures r.Some? ==> |r.value| == |g|
    decreases Rows(|g|, row, dy), 1
  {
    match NextRow(row, w, dy)
    case None => None
    case Some(nrow) =>
      match PushAll(g, w, b0, b1, nrow, dy, 0)
      case None => None
      case Some(g5) => Relocate(g5, row + b0, row + b1, nrow + b0, nrow + b1)
  }

  /** The last four writes of `move_vertical`: copy the two cells of the box
      to their new places, then empty the old ones. None if an index is off
      the grid. */
  function Relocate(g: seq<char>, src0: nat, src1: nat, dst0: nat, dst1: nat): (r: Option<seq<char>>)
    ensures r.Some? ==> |r.value| == |g|
  {
    if dst0 >= |g| || dst1 >= |g| || src0 >= |g| || src1 >= |g| then None
    else
      var g1 := g[dst0 := g[src0]];
      var g2 := g1[dst1 := g1[src1]];
      Some(g2[src0 := Empty][src1 := Empty])
  }

  /** If column x of `nrow` holds byte c, move the box c0..c1 there. */
  function PushIf(g: seq<char>, w: nat, x: nat, c: char, c0: nat, c1: nat, nrow: nat, dy: int): (r: Option<seq<char>>)
    requires w > 0 && (dy == 1 || dy == -1)
    ensures r.Some? ==> |r.value| == |g|
    ensures r.Some? ==> nrow + x < |g|
    decreases Rows(|g|, nrow, dy), 2
  {
    if nrow + x >= |g| then None
    else if g[nrow + x] != c then Some(g)
    else MoveVert(g, w, c0, c1, nrow, dy)
  }

  method MoveVertical(a: array<char>, w: nat, b0: nat, b1: nat, row: nat, dy: int) returns (ok: bool)
    requires w > 0 && (dy == 1 || dy == -1) && row < a.Length
    modifies a
    ensures ok <==> MoveVert(old(a[..]), w, b0, b1, row, dy).Some?
    ensures ok ==> a[..] == MoveVert(old(a[..]), w, b0, b1, row, dy).value
    decreases Rows(a.Length, row, dy), 2
  {
    if dy < 0 && row < w {
      return false;
    }
    var nrow: nat := if dy > 0 then row + w else row - w;
    ghost var g := a[..];
    ok := MovePushAll(a, w, b0, b1, nrow, dy);
    if !ok {
      return;
    }
    ghost var g5 := a[..];
    ok := MoveRelocate(a, row + b0, row + b1, nrow + b0, nrow + b1);
    ghost var r := a[..];
    MoveVertCompose(g, g5, r, ok, w, b0, b1, row, nrow, dy);
  }

  lemma MoveVertCompose(g: seq<char>, g5: seq<char>, r: seq<char>, ok: bool, w: nat, b0: nat, b1: nat, row: nat, nrow: nat, dy: int)
    requires w > 0 && (dy == 1 || dy == -1) && row < |g| && NextRow(row, w, dy) == Some(nrow)
    requires PushAll(g, w, b0, b1, nrow, dy, 0) == Some(g5)
    requires ok <==> Relocate(g5, row + b0, row + b1, nrow + b0, nrow + b1).Some?
    requires ok ==> r == Relocate(g5, row + b0, row + b1, nrow + b0, nrow + b1).value
    ensures ok <==> MoveVert(g, w, b0, b1, row, dy).Some?
    ensures ok ==> r == MoveVert(g, w, b0, b1, row, dy).value
  {
  }

  /** The two check loops of `move_vertical`. */
  method MovePushAll(a: array<char>, w: nat, b0: nat, b1: nat, nrow: nat, dy: int) returns (ok: bool)
    requires w > 0 && (dy == 1 || dy == -1)
    modifies a
    ensures ok <==> PushAll(old(a[..]), w, b0, b1, nrow, dy, 0).Some?
    ensures ok ==> a[..] == PushAll(old(a[..]), w, b0, b1, nrow, dy, 0).value
    decreases Above(a.Length, nrow, dy), 1
  {
    ghost var g := a[..];
    var k := 0;
    while k < 5
      invariant 0 <= k <= 5
      invariant PushAll(a[..], w, b0, b1, nrow, dy, k) == PushAll(g, w, b0, b1, nrow, dy, 0)
    {
      ghost var before := a[..];
      ok := MovePushStep(a, w, b0, b1, nrow, dy, k);
      if !ok {
        return;
      }
      assert PushStep(before, w, b0, b1, nrow, dy, k) == Some(a[..]);
      k := k + 1;
    }
    return true;
  }

  method MovePushStep(a: array<char>, w: nat, b0: nat, b1: nat, nrow: nat, dy: int, k: nat) returns (ok: bool)
    requires w > 0 && (dy == 1 || dy == -1) && k < 5
    modifies a
    ensures ok <==> PushStep(old(a[..]), w, b0, b1, nrow, dy, k).Some?
    ensures ok ==> a[..] == PushStep(old(a[..]), w, b0, b1, nrow, dy, k).value
    decreases Above(a.Length, nrow, dy), 0
  {
    if k >= 2 && b0 == 0 {
      return false;
    }
    var (x, c, c0, c1) := Check(b0, b1, k);
    ok := MovePushIf(a, w, x, c, c0, c1, nrow, dy);
  }

  method MoveRelocate(a: array<char>, src0: nat, src1: nat, dst0: nat, dst1: nat) returns (ok: bool)
    modifies a
    ensures ok <==> Relocate(old(a[..]), src0, src1, dst0, dst1).Some?
    ensures ok ==> a[..] == Relocate(old(a[..]), src0, src1, dst0, dst1).value
  {
    if dst0 >= a.Length || dst1 >= a.Length || src0 >= a.Length || src1 >= a.Length {
      return false;
    }
    a[dst0] := a[src0];
    a[dst1] := a[src1];
    a[src0] := Empty;
    a[src1] := Empty;
    return true;
  }

  method MovePushIf(a: array<char>, w: nat, x: nat, c: char, c0: nat, c1: nat, nrow: nat, dy: int) returns (ok: bool)
    requires w > 0 && (dy == 1 || dy == -1)
    modifies a
    ensures ok <==> PushIf(old(a[..]), w, x, c, c0, c1, nrow, dy).Some?
    ensures ok ==> a[..] == PushIf(old(a[..]), w, x, c, c0, c1, nrow, dy).value
    decreases Rows(a.Length, nrow, dy), 3
  {
    if nrow + x >= a.Length {
      return false;
    }
    if a[nrow + x] != c {
      return true;
    }
    ok := MoveVertical(a, w, c0, c1, nrow, dy);
  }

  // ----- Facts about vertical pushes -----

  /** `is_movable_vertical` answers false as soon as one of the two pushed
      columns meets a wall in the next row. */
  lemma MovableStopsAtWall(g: seq<char>, w: nat, b0: nat, b1: nat, row: nat, nrow: nat, dy: int)
    requires w > 0 && (dy == 1 || dy == -1) && row < |g| && NextRow(row, w, dy) == Some(nrow)
    requires nrow + b0 < |g| && nrow + b1 < |g|
    requires g[nrow + b0] == Wall || g[nrow + b1] == Wall
    ensures Movable(g, w, b0, b1, row, dy) == Some(false)
  {
  }

  /** A vertical move that succeeds pushed everything in its way first, then
      moved the box itself. */
  lemma MoveVertParts(g: seq<char>, w: nat, b0: nat, b1: nat, row: nat, dy: int) returns (nrow: nat, g5: seq<char>)
    requires w > 0 && (dy == 1 || dy == -1) && row < |g|
    requires MoveVert(g, w, b0, b1, row, dy).Some?
    ensures NextRow(row, w, dy) == Some(nrow) && PushAll(g, w, b0, b1, nrow, dy, 0) == Some(g5)
    ensures MoveVert(g, w, b0, b1, row, dy) == Relocate(g5, row + b0, row + b1, nrow + b0, nrow + b1)
  {
    nrow := NextRow(row, w, dy).value;
    g5 := PushAll(g, w, b0, b1, nrow, dy, 0).value;
  }

  /** After a vertical move the cells the box left hold '.'. */
  lemma MoveVertEmptiesOldCells(g: seq<char>, w: nat, b0: nat, b1: nat, row: nat, dy: int)
    requires w > 0 && (dy == 1 || dy == -1) && row < |g|
    requires MoveVert(g, w, b0, b1, row, dy).Some?
    ensures row + b0 < |g| && row + b1 < |g|
    ensures MoveVert(g, w, b0, b1, row, dy).value[row + b0] == Empty
    ensures MoveVert(g, w, b0, b1, row, dy).value[row + b1] == Empty
  {
    var nrow, g5 := MoveVertParts(g, w, b0, b1, row, dy);
  }

  /** A vertical move writes only bytes the grid already held, or '.'. */
  lemma {:induction false} MoveVertAddsNothing(g: seq<char>, w: nat, b0: nat, b1: nat, row: nat, dy: int, c: char)
    requires w > 0 && (dy == 1 || dy == -1) && row < |g|
    requires c != Empty && c !in g && MoveVert(g, w, b0, b1, row, dy).Some?
    ensures c !in MoveVert(g, w, b0, b1, row, dy).value
    decreases Rows(|g|, row, dy), 1
  {
    var nrow, g5 := MoveVertParts(g, w, b0, b1, row, dy);
    PushAllAddsNothing(g, w, b0, b1, nrow, dy, 0, c);
    RelocateAddsNothing(g5, row + b0, row + b1, nrow + b0, nrow + b1, c);
  }

  lemma RelocateAddsNothing(g: seq<char>, src0: nat, src1: nat, dst0: nat, dst1: nat, c: char)
    requires c != Empty && c !in g && Relocate(g, src0, src1, dst0, dst1).Some?
    ensures c !in Relocate(g, src0, src1, dst0, dst1).value
  {
    var r := Relocate(g, src0, src1, dst0, dst1).value;
    forall i | 0 <= i < |r|
      ensures r[i] != c
    {
      assert r[i] == Empty || r[i] in g;
    }
  }

  lemma {:induction false} PushAllAddsNothing(g: seq<char>, w: nat, b0: nat, b1: nat, nrow: nat, dy: int, k: nat, c: char)
    requires w > 0 && (dy == 1 || dy == -1) && k <= 5
    requires c != Empty && c !in g && PushAll(g, w, b0, b1, nrow, dy, k).Some?
    ensures c !in PushAll(g, w, b0, b1, nrow, dy, k).value
    decreases Above(|g|, nrow, dy), 0, 5 - k
  {
    if k < 5 {
      var g' := PushStep(g, w, b0, b1, nrow, dy, k).value;
      var (x, cx, c0, c1) := Check(b0, b1, k);
      assert PushStep(g, w, b0, b1, nrow, dy, k) == PushIf(g, w, x, cx, c0, c1, nrow, dy);
      if g[nrow + x] == cx {
        assert PushIf(g, w, x, cx, c0, c1, nrow, dy) == MoveVert(g, w, c0, c1, nrow, dy);
        MoveVertAddsNothing(g, w, c0, c1, nrow, dy, c);
      }
      PushAllAddsNothing(g', w, b0, b1, nrow, dy, k + 1, c);
    }
  }

  // ----- One instruction, and a run of them -----

  /** `is_movable_vertical` then, if it agrees, `move_vertical`. */
  function TryVertical(g: seq<char>, w: nat, b0: nat, b1: nat, row: nat, dy: int): (r: Option<seq<char>>)
    requires w > 0 && (dy == 1 || dy == -1) && row < |g|
    ensures r.Some? ==> |r.value| == |g|
  {
    match Movable(g, w, b0, b1, row, dy)
    case None => None
    case Some(false) => Some(g)
    case Some(true) => MoveVert(g, w, b0, b1, row, dy)
  }

  /** The push started by a robot in column x moving onto the row starting
      at `nrow`, which holds byte c at column x. */
  function PushVertical(g: seq<char>, w: nat, x: nat, nrow: nat, dy: int, c: char): (r: Option<seq<char>>)
    requires w > 0 && (dy == 1 || dy == -1) && nrow < |g|
    ensures r.Some? ==> |r.value| == |g|
  {
    if c == SmallBox then TryVertical(g, w, x, x, nrow, dy)
    else if c == BoxLeft then TryVertical(g, w, x, x + 1, nrow, dy)
    else if c == BoxRight then (if x == 0 then None else TryVertical(g, w, x - 1, x, nrow, dy))
    else Some(g)
  }

  /** One instruction of `run_instructions`: the new grid and robot, or None
      where the source panics (an unknown instruction byte among them). */
  function Move(g: seq<char>, w: nat, p: Robot, instr: char): (r: Option<(seq<char>, Robot)>)
    requires w > 0
    ensures r.Some? ==> |r.value.0| == |g|
  {
    if instr == '>' || instr == '<' then
      var dx := if instr == '>' then 1 else -1;
      match HorizontalPush(g, w, p.x, p.y, dx)
      case None => None
      case Some(g') =>
        var nx: nat := p.x + dx;
        if p.y * w + nx >= |g'| then None
        else if g'[p.y * w + nx] == Empty then Some((g', Robot(nx, p.y)))
        else Some((g', p))
    else if instr == '^' || instr == 'v' then
      var dy := if instr == '^' then -1 else 1;
      if p.y + dy < 0 then None
      else
        var ny: nat := p.y + dy;
        var idx := ny * w + p.x;
        if idx >= |g| then None
        else
          match PushVertical(g, w, p.x, ny * w, dy, g[idx])
          case None => None
          case Some(g') =>
            if g'[idx] == Empty then Some((g', Robot(p.x, ny))) else Some((g', p))
    else None
  }

  /** The instructions applied in order. */
  function Run(g: seq<char>, w: nat, p: Robot, instrs: seq<char>): (r: Option<(seq<char>, Robot)>)
    requires w > 0
    ensures r.Some? ==> |r.value.0| == |g|
    decreases |instrs|
  {
    if instrs == [] then Some((g, p))
    else
      match Move(g, w, p, instrs[0])
      case None => None
      case Some((g', p')) => Run(g', w, p', instrs[1..])
  }

  /** The robot moves only onto a cell that is '.' once the push is done,
      and by one step in the instruction's direction. */
  lemma MoveLandsOnEmpty(g: seq<char>, w: nat, p: Robot, instr: char)
    requires w > 0 && Move(g, w, p, instr).Some?
    ensures instr in {'<', '>', '^', 'v'}
    ensures var (g', q) := Move(g, w, p, instr).value;
            q != p ==> q.y * w + q.x < |g'| && g'[q.y * w + q.x] == Empty
    ensures var q := Move(g, w, p, instr).value.1;
            q == p || q == Robot(p.x + 1, p.y) || (p.x > 0 && q == Robot(p.x - 1, p.y)) ||
            q == Robot(p.x, p.y + 1) || (p.y > 0 && q == Robot(p.x, p.y - 1))
  {
  }

  /** A move never brings into the grid a byte other than '.' that it did
      not already hold; in particular the robot mark '@' stays out. */
  lemma MoveAddsNothing(g: seq<char>, w: nat, p: Robot, instr: char, c: char)
    requires w > 0 && c != Empty && c !in g && Move(g, w, p, instr).Some?
    ensures c !in Move(g, w, p, instr).value.0
  {
    var g' := Move(g, w, p, instr).value.0;
    if instr == '>' || instr == '<' {
      var dx := if instr == '>' then 1 else -1;
      assert g' == HorizontalPush(g, w, p.x, p.y, dx).value;
      HorizontalPushPermutes(g, w, p.x, p.y, dx);
      assert multiset(g')[c] == multiset(g)[c];
    } else {
      var dy := if instr == '^' then -1 else 1;
      var ny: nat := p.y + dy;
      var idx := ny * w + p.x;
      assert g' == PushVertical(g, w, p.x, ny * w, dy, g[idx]).value;
      PushVerticalAddsNothing(g, w, p.x, ny * w, dy, g[idx], c);
    }
  }

  lemma PushVerticalAddsNothing(g: seq<char>, w: nat, x: nat, nrow: nat, dy: int, b: char, c: char)
    requires w > 0 && (dy == 1 || dy == -1) && nrow < |g|
    requires c != Empty && c !in g && PushVertical(g, w, x, nrow, dy, b).Some?
    ensures c !in PushVertical(g, w, x, nrow, dy, b).value
  {
    if b == SmallBox && Movable(g, w, x, x, nrow, dy) == Some(true) {
      MoveVertAddsNothing(g, w, x, x, nrow, dy, c);
    } else if b == BoxLeft && Movable(g, w, x, x + 1, nrow, dy) == Some(true) {
      MoveVertAddsNothing(g, w, x, x + 1, nrow, dy, c);
    } else if b == BoxRight && x > 0 && Movable(g, w, x - 1, x, nrow, dy) == Some(true) {
      MoveVertAddsNothing(g, w, x - 1, x, nrow, dy, c);
    }
  }

  /** The robot is never written into the grid: a grid without '@' keeps
      none over a whole run. */
  lemma {:induction false} RunKeepsRobotOut(g: seq<char>, w: nat, p: Robot, instrs: seq<char>)
    requires w > 0 && RobotMark !in g && Run(g, w, p, instrs).Some?
    ensures RobotMark !in Run(g, w, p, instrs).value.0
    decreases |instrs|
  {
    if instrs != [] {
      var (g', p') := Move(g, w, p, instrs[0]).value;
      MoveAddsNothing(g, w, p, instrs[0], RobotMark);
      RunKeepsRobotOut(g', w, p', instrs[1..]);
    }
  }

  /** Every instruction of a run that completes is one of `<>^v`. */
  lemma {:induction false} RunKnowsOnlyArrows(g: seq<char>, w: nat, p: Robot, instrs: seq<char>)
    requires w > 0 && Run(g, w, p, instrs).Some?
    ensures forall i :: 0 <= i < |instrs| ==> instrs[i] in {'<', '>', '^', 'v'}
    decreases |instrs|
  {
    if instrs != [] {
      MoveLandsOnEmpty(g, w, p, instrs[0]);
      var (g', p') := Move(g, w, p, instrs[0]).value;
      RunKnowsOnlyArrows(g', w, p', instrs[1..]);
      forall i | 0 <= i < |instrs|
        ensures instrs[i] in {'<', '>', '^', 'v'}
      {
        if i > 0 {
          assert instrs[i] == instrs[1..][i - 1];
        }
      }
    }
  }

  // ----- The robot's run, in place -----

  method TryMoveVertical(a: array<char>, w: nat, b0: nat, b1: nat, row: nat, dy: int) returns (ok: bool)
    requires w > 0 && (dy == 1 || dy == -1) && row < a.Length
    modifies a
    ensures ok <==> TryVertical(old(a[..]), w, b0, b1, row, dy).Some?
    ensures ok ==> a[..] == TryVertical(old(a[..]), w, b0, b1, row, dy).value
  {
    var movable := Movable(a[..], w, b0, b1, row, dy);
    match movable
    case None => ok := false;
    case Some(false) => ok := true;
    case Some(true) => ok := MoveVertical(a, w, b0, b1, row, dy);
  }

  method PushVerticalInPlace(a: array<char>, w: nat, x: nat, nrow: nat, dy: int, c: char) returns (ok: bool)
    requires w > 0 && (dy == 1 || dy == -1) && nrow < a.Length
    modifies a
    ensures ok <==> PushVertical(old(a[..]), w, x, nrow, dy, c).Some?
    ensures ok ==> a[..] == PushVertical(old(a[..]), w, x, nrow, dy, c).value
  {
    if c == SmallBox {
      ok := TryMoveVertical(a, w, x, x, nrow, dy);
    } else if c == BoxLeft {
      ok := TryMoveVertical(a, w, x, x + 1, nrow, dy);
    } else if c == BoxRight {
      if x == 0 {
        return false;
      }
      ok := TryMoveVertical(a, w, x - 1, x, nrow, dy);
    } else {
      ok := true;
    }
  }

  /** The body of the instruction loop of `run_instructions`. */
  method Step(a: array<char>, w: nat, p: Robot, instr: char) returns (ok: bool, q: Robot)
    requires w > 0
    modifies a
    ensures ok <==> Move(old(a[..]), w, p, instr).Some?
    ensures ok ==> (a[..], q) == Move(old(a[..]), w, p, instr).value
  {
    if instr == '>' || instr == '<' {
      ok, q := StepAcross(a, w, p, instr);
    } else if instr == '^' || instr == 'v' {
      ok, q := StepUpDown(a, w, p, instr);
    } else {
      ok, q := false, p;
    }
  }

  /** Step for '<' and '>'. */
  method StepAcross(a: array<char>, w: nat, p: Robot, instr: char) returns (ok: bool, q: Robot)
    requires w > 0 && (instr == '>' || instr == '<')
    modifies a
    ensures ok <==> Move(old(a[..]), w, p, instr).Some?
    ensures ok ==> (a[..], q) == Move(old(a[..]), w, p, instr).value
  {
    q := p;
    var dx := if instr == '>' then 1 else -1;
    ok := MoveHorizontal(a, w, p.x, p.y, dx);
    if !ok {
      return;
    }
    var nx: nat := p.x + dx;
    if p.y * w + nx >= a.Length {
      return false, p;
    }
    if a[p.y * w + nx] == Empty {
      q := Robot(nx, p.y);
    }
  }

  /** Step for '^' and 'v'. */
  method StepUpDown(a: array<char>, w: nat, p: Robot, instr: char) returns (ok: bool, q: Robot)
    requires w > 0 && (instr == '^' || instr == 'v')
    modifies a
    ensures ok <==> Move(old(a[..]), w, p, instr).Some?
    ensures ok ==> (a[..], q) == Move(old(a[..]), w, p, instr).value
  {
    q := p;
    var dy := if instr == '^' then -1 else 1;
    if p.y + dy < 0 {
      return false, p;
    }
    var ny: nat := p.y + dy;
    var idx := ny * w + p.x;
    if idx >= a.Length {
      return false, p;
    }
    ok := PushVerticalInPlace(a, w, p.x, ny * w, dy, a[idx]);
    if !ok {
      return;
    }
    if a[idx] == Empty {
      q := Robot(p.x, ny);
    }
  }

  /** `run_instructions`: every instruction in turn, then the score. None
      where the source panics. */
  method RunInstructions(pos: Robot, instrs: seq<char>, a: array<char>, w: nat, h: nat) returns (total: Option<nat>)
    requires w > 0 && h * w <= a.Length
    modifies a
    ensures total.Some? <==> Run(old(a[..]), w, pos, instrs).Some?
    ensures total.Some? ==> a[..] == Run(old(a[..]), w, pos, instrs).value.0 && total.value == GpsSum(a[..], w, h * w)
  {
    ghost var g := a[..];
    var p := pos;
    var i := 0;
    while i < |instrs|
      invariant 0 <= i <= |instrs|
      invariant Run(a[..], w, p, instrs[i..]) == Run(g, w, pos, instrs)
    {
      var ok;
      ok, p := Step(a, w, p, instrs[i]);
      if !ok {
        return None;
      }
      assert instrs[i..][1..] == instrs[i + 1..];
      i := i + 1;
    }
    var sum := Score(a, w, h);
    return Some(sum);
  }

  // ----- The score -----

  /** Cell i of a grid w wide: 100 times its row plus its column if it holds
      a small box or the left half of a wide box. */
  function Gps(g: seq<char>, w: nat, i: nat): nat
    requires w > 0 && i < |g|
  {
    if g[i] == SmallBox || g[i] == BoxLeft then 100 * (i / w) + i % w else 0
  }

  /** The score of the first n cells, in flat index order. */
  function GpsSum(g: seq<char>, w: nat, n: nat): nat
    requires w > 0 && n <= |g|
  {
    if n == 0 then 0 else GpsSum(g, w, n - 1) + Gps(g, w, n - 1)
  }

  /** Flat index y * w + x is row y, column x. */
  lemma RowColumn(y: nat, w: nat, x: nat)
    requires x < w
    ensures (y * w + x) / w == y && (y * w + x) % w == x
  {
    var n := y * w + x;
    var q, r := n / w, n % w;
    assert n == q * w + r;
    if q > y {
      MulAtLeast(q - y, w);
    } else if q < y {
      MulAtLeast(y - q, w);
    }
  }

  lemma MulAtLeast(k: int, w: int)
    requires k >= 1 && w > 0
    ensures k * w >= w
  {
  }

  lemma InsideRows(y: nat, h: nat, w: nat, x: nat)
    requires y < h && x < w
    ensures y * w + x < h * w
  {
    assert y * w + x < y * w + w == (y + 1) * w <= h * w;
  }

  /** The score loop of `run_instructions`, row by row and column by column. */
  method Score(a: array<char>, w: nat, h: nat) returns (total: nat)
    requires w > 0 && h * w <= a.Length
    ensures total == GpsSum(a[..], w, h * w)
  {
    ghost var g := a[..];
    total := 0;
    for y := 0 to h
      invariant y * w <= h * w
      invariant total == GpsSum(g, w, y * w)
    {
      var rowOffset := y * w;
      RowsFit(y, h, w);
      for x := 0 to w
        invariant rowOffset + x <= h * w
        invariant total == GpsSum(g, w, rowOffset + x)
      {
        InsideRows(y, h, w, x);
        GpsStep(g, w, y, x);
        if a[rowOffset + x] == SmallBox || a[rowOffset + x] == BoxLeft {
          total := total + 100 * y + x;
        }
      }
    }
  }

  lemma RowsFit(y: nat, h: nat, w: nat)
    requires y < h
    ensures y * w + w == (y + 1) * w <= h * w
  {
  }

  lemma GpsStep(g: seq<char>, w: nat, y: nat, x: nat)
    requires x < w && y * w + x < |g|
    ensures GpsSum(g, w, y * w + x + 1) ==
            GpsSum(g, w, y * w + x) + if g[y * w + x] == SmallBox || g[y * w + x] == BoxLeft then 100 * y + x else 0
  {
    RowColumn(y, w, x);
  }

  /** Only box cells score: a grid without `O` or `[` scores zero. */
  lemma {:induction false} GpsSumWithoutBoxes(g: seq<char>, w: nat, n: nat)
    requires w > 0 && n <= |g|
    requires forall i :: 0 <= i < n ==> g[i] != SmallBox && g[i] != BoxLeft
    ensures GpsSum(g, w, n) == 0
  {
    if n > 0 {
      GpsSumWithoutBoxes(g, w, n - 1);
    }
  }

  /** Placing a box on an empty cell (y, x) raises the score by 100 * y + x. */
  lemma GpsSumPlaceBox(g: seq<char>, w: nat, n: nat, y: nat, x: nat)
    requires w > 0 && n <= |g| && x < w && y * w + x < n
    requires g[y * w + x] == Empty
    ensures GpsSum(g[y * w + x := SmallBox], w, n) == GpsSum(g, w, n) + 100 * y + x
  {
    GpsSumPlaceAt(g, w, n, y * w + x);
    RowColumn(y, w, x);
  }

  /** GpsSumPlaceBox by flat index. */
  lemma {:induction false} GpsSumPlaceAt(g: seq<char>, w: nat, n: nat, i: nat)
    requires w > 0 && n <= |g| && i < n && g[i] == Empty
    ensures GpsSum(g[i := SmallBox], w, n) == GpsSum(g, w, n) + 100 * (i / w) + i % w
  {
    var g' := g[i := SmallBox];
    if n - 1 == i {
      GpsSumUnchanged(g, g', w, n - 1);
    } else {
      GpsSumPlaceAt(g, w, n - 1, i);
    }
  }

  lemma {:induction false} GpsSumUnchanged(g: seq<char>, g': seq<char>, w: nat, n: nat)
    requires w > 0 && n <= |g| && n <= |g'| && g[..n] == g'[..n]
    ensures GpsSum(g, w, n) == GpsSum(g', w, n)
  {
    if n > 0 {
      assert g[n - 1] == g[..n][n - 1];
      assert g[..n - 1] == g[..n][..n - 1];
      assert g'[..n - 1] == g'[..n][..n - 1];
      GpsSumUnchanged(g, g', w, n - 1);
    }
  }

  // ----- Reading the warehouse (part one) -----

  /** The grid's lines joined, as `flat_map` over `lines()` yields them. */
  function Flatten(rows: seq<seq<char>>): (r: seq<char>)
    ensures rows != [] ==> |rows[0]| <= |r|
  {
    if rows == [] then [] else rows[0] + Flatten(rows[1..])
  }

  /** `position`: the first index holding c. */
  function FirstIndex(s: seq<char>, c: char): (r: Option<nat>)
    ensures r.None? <==> c !in s
    ensures r.Some? ==> r.value < |s| && s[r.value] == c && c !in s[..r.value]
  {
    if s == [] then None
    else if s[0] == c then Some(0)
    else
      match FirstIndex(s[1..], c)
      case None => None
      case Some(i) =>
        assert s[..i + 1] == [s[0]] + s[1..][..i];
        Some(i + 1)
  }

  /** The instruction bytes with the line breaks filtered out. */
  function Instructions(text: seq<char>): (r: seq<char>)
    ensures '\n' !in r
    ensures forall c :: c != '\n' ==> multiset(r)[c] == multiset(text)[c]
  {
    if text == [] then []
    else
      var rest := Instructions(text[1..]);
      assert text == [text[0]] + text[1..];
      if text[0] == '\n' then rest else [text[0]] + rest
  }

  /** `process_grid`: the grid with the robot's cell emptied, the
      instructions, the width (the first line's length), the height (cells
      over width) and the robot at the first '@'. None where the source
      panics: no line, an empty first line, or no robot. */
  function ProcessGrid(rows: seq<seq<char>>, text: seq<char>): (r: Option<(seq<char>, seq<char>, nat, nat, Robot)>)
    ensures r.Some? ==> var (g, instrs, w, h, p) := r.value;
              w > 0 && h * w <= |g| == |Flatten(rows)| && p.x < w &&
              p.y * w + p.x < |g| && g == Flatten(rows)[p.y * w + p.x := Empty] &&
              Flatten(rows)[p.y * w + p.x] == RobotMark && RobotMark !in Flatten(rows)[..p.y * w + p.x]
  {
    if rows == [] || |rows[0]| == 0 then None
    else
      var w := |rows[0]|;
      var bytes := Flatten(rows);
      match FirstIndex(bytes, RobotMark)
      case None => None
      case Some(i) =>
        FlatIndex(i, w);
        FloorRows(|bytes|, w);
        Some((bytes[i := Empty], Instructions(text), w, |bytes| / w, Robot(i % w, i / w)))
  }

  lemma FlatIndex(i: nat, w: nat)
    requires w > 0
    ensures (i / w) * w + i % w == i && 0 <= i % w < w && 0 <= i / w
  {
  }

  lemma FloorRows(n: nat, w: nat)
    requires w > 0
    ensures (n / w) * w <= n
  {
    FlatIndex(n, w);
  }

  /** What `part_one` returns: the score after the run, cut to 32 bits by
      `as u32`. */
  function PartOneResult(rows: seq<seq<char>>, text: seq<char>): Option<nat>
  {
    match ProcessGrid(rows, text)
    case None => None
    case Some((g, instrs, w, h, p)) =>
      match Run(g, w, p, instrs)
      case None => None
      case Some((g', _)) => Some(GpsSum(g', w, h * w) % 0x1_0000_0000)
  }

  method PartOne(rows: seq<seq<char>>, text: seq<char>) returns (r: Option<nat>)
    ensures r == PartOneResult(rows, text)
  {
    var parsed := ProcessGrid(rows, text);
    if parsed.None? {
      return None;
    }
    var (g, instrs, w, h, p) := parsed.value;
    var a := new char[|g|](i requires 0 <= i < |g| => g[i]);
    assert a[..] == g;
    var total := RunInstructions(p, instrs, a, w, h);
    if total.None? {
      return None;
    }
    return Some(total.value % 0x1_0000_0000);
  }

  lemma ClearOnlyMark(s: seq<char>, i: nat)
    requires i < |s| && s[i] == RobotMark && multiset(s)[RobotMark] == 1
    ensures RobotMark !in s[i := Empty]
  {
    var t := s[i := Empty];
    assert s == s[..i] + [RobotMark] + s[i + 1..];
    assert t == s[..i] + [Empty] + s[i + 1..];
    assert multiset(t)[RobotMark] == 0;
  }

  /** With a single robot mark in the input, the grid holds no '@' at any
      point of the run. */
  lemma PartOneRobotOut(rows: seq<seq<char>>, text: seq<char>)
    requires multiset(Flatten(rows))[RobotMark] == 1
    requires ProcessGrid(rows, text).Some?
    ensures var r := ProcessGrid(rows, text).value;
            RobotMark !in r.0 && (Run(r.0, r.2, r.4, r.1).Some? ==> RobotMark !in Run(r.0, r.2, r.4, r.1).value.0)
  {
    var r := ProcessGrid(rows, text).value;
    StartWithoutMark(rows, text);
    if Run(r.0, r.2, r.4, r.1).Some? {
      RunKeepsRobotOut(r.0, r.2, r.4, r.1);
    }
  }

  /** Lifting the only robot mark leaves none on the grid. */
  lemma StartWithoutMark(rows: seq<seq<char>>, text: seq<char>)
    requires multiset(Flatten(rows))[RobotMark] == 1
    requires ProcessGrid(rows, text).Some?
    ensures RobotMark !in ProcessGrid(rows, text).value.0
  {
    var bytes := Flatten(rows);
    var i := FirstIndex(bytes, RobotMark).value;
    assert ProcessGrid(rows, text).value.0 == bytes[i := Empty];
    ClearOnlyMark(bytes, i);
  }


  // ----- The wider warehouse (part two) -----

  /** The two bytes a cell becomes when the warehouse is doubled in width,
      or None for a byte the source rejects. */
  function WideCell(c: char): Option<seq<char>>
  {
    if c == Wall || c == Empty then Some([c, c])
    else if c == SmallBox then Some([BoxLeft, BoxRight])
    else if c == RobotMark then Some([RobotMark, Empty])
    else None
  }

  /** All cells doubled, in order; None if one of them is rejected. */
  function WidenBytes(bytes: seq<char>): (r: Option<seq<char>>)
    ensures r.Some? ==> |r.value| == 2 * |bytes|
  {
    if bytes == [] then Some([])
    else
      match WidenBytes(bytes[..|bytes| - 1])
      case None => None
      case Some(front) =>
        match WideCell(bytes[|bytes| - 1])
        case None => None
        case Some(pair) => Some(front + pair)
  }

  /** The last index holding c. */
  function LastIndex(s: seq<char>, c: char): (r: Option<nat>)
    ensures r.None? <==> c !in s
    ensures r.Some? ==> r.value < |s| && s[r.value] == c && c !in s[r.value + 1..]
  {
    if s == [] then None
    else if s[|s| - 1] == c then Some(|s| - 1)
    else
      match LastIndex(s[..|s| - 1], c)
      case None => None
      case Some(i) =>
        assert s[i + 1..] == s[..|s| - 1][i + 1..] + [s[|s| - 1]];
        Some(i)
  }

  /** The wide warehouse of `part_two`: width doubled, one row per line,
      unused cells '.', the robot at the last '@' (its left half emptied).
      None where the source panics. */
  function WideGrid(rows: seq<seq<char>>): Option<(seq<char>, nat, nat, Robot)>
  {
    WideOf(Flatten(rows), FirstNonEmptyWidth(rows), |rows|)
  }

  /** The width `part_two` reads: the length of the first non-empty line,
      0 when every line is empty. */
  function FirstNonEmptyWidth(rows: seq<seq<char>>): (r: nat)
    ensures r == 0 <==> forall k :: 0 <= k < |rows| ==> rows[k] == []
    ensures r > 0 ==> exists k :: 0 <= k < |rows| && r == |rows[k]| && forall j :: 0 <= j < k ==> rows[j] == []
  {
    if rows == [] then 0
    else
      var front := rows[..|rows| - 1];
      var w := FirstNonEmptyWidth(front);
      if w == 0 then
        assert forall k :: 0 <= k < |front| ==> rows[k] == [];
        |rows[|rows| - 1]|
      else
        var k :| 0 <= k < |front| && w == |front[k]| && forall j :: 0 <= j < k ==> front[j] == [];
        assert rows[k] == front[k] && forall j :: 0 <= j < k ==> rows[j] == front[j];
        w
  }

  /** An empty first line does not make the width 0. */
  lemma WidthSkipsEmptyLine()
    ensures FirstNonEmptyWidth(["", "#@."]) == 3
  {
    assert ["", "#@."][..1] == [""];
    assert [""][..0] == [];
  }

  /** Grid lines "" and "#@.": the warehouse is 6 wide and 2 high, the robot
      at wide cell 2 of the first row. */
  lemma WideGridEmptyFirstLine()
    ensures WideGrid(["", "#@."]).Some?
    ensures var (g, w, h, p) := WideGrid(["", "#@."]).value;
      w == 6 && h == 2 && |g| == 12 && p == Robot(2, 0)
  {
    WidthSkipsEmptyLine();
    var bytes := Flatten(["", "#@."]);
    assert bytes == "#@." by {
      assert ["", "#@."][1..] == ["#@."];
      assert ["#@."][1..] == [];
    }
    assert "#@."[..2] == "#@" && "#@"[..1] == "#" && "#"[..0] == [];
    assert WidenBytes("#") == Some("##") by {
      assert "#"[..0] == [] && WideCell('#') == Some("##") && [] + "##" == "##";
    }
    assert WidenBytes("#@") == Some("##@.") by { assert "##" + "@." == "##@."; }
    assert WidenBytes(bytes) == Some("##@...") by { assert "##@." + ".." == "##@..."; }
    assert LastIndex(bytes, RobotMark) == Some(1);
  }

  /** The cells `bytes` of a warehouse `width` wide and h high, doubled.
      None where the source panics: a byte other than `#.O@`, more cells
      than width times h, or no robot. */
  function WideOf(bytes: seq<char>, width: nat, h: nat): (r: Option<(seq<char>, nat, nat, Robot)>)
    ensures r.Some? ==> var (g, w, h', p) := r.value;
              w == 2 * width > 0 && h' == h && |g| == w * h && p.x < w &&
              p.y * w + p.x < |g| && g[p.y * w + p.x] == Empty
  {
    var w := 2 * width;
    match WidenBytes(bytes)
    case None => None
    case Some(wide) =>
      if |bytes| > width * h then None
      else
        match LastIndex(bytes, RobotMark)
        case None => None
        case Some(i) =>
          WideSize(width, h, |bytes|);
          FlatIndex(2 * i, w);
          var g := wide + Repeat(Empty, w * h - |wide|);
          Some((g[2 * i := Empty], w, h, Robot((2 * i) % w, (2 * i) / w)))
  }

  lemma WideSize(width: nat, h: nat, n: nat)
    requires 0 < n <= width * h
    ensures width > 0 && (2 * width) * h == 2 * (width * h) >= 2 * n
  {
  }

  lemma PositiveWidth(w: nat, h: nat, n: nat)
    requires n < w * h
    ensures w > 0
  {
  }

  lemma DoubleWidth(width: nat, h: nat)
    ensures (2 * width) * h == 2 * (width * h)
  {
  }

  function Repeat(c: char, n: nat): (r: seq<char>)
    ensures |r| == n && forall i :: 0 <= i < n ==> r[i] == c
  {
    if n == 0 then [] else Repeat(c, n - 1) + [c]
  }

  /** `part_two`'s construction of the wide warehouse. */
  method Widen(rows: seq<seq<char>>) returns (r: Option<(seq<char>, nat, nat, Robot)>)
    ensures r == WideGrid(rows)
  {
    var width, h := Dimensions(rows);
    var bytes := Flatten(rows);
    var w := 2 * width;
    var wider := new char[w * h](_ => Empty);
    var ok, robot := WidenInto(bytes, wider, w, h);
    DoubleWidth(width, h);
    if !ok || robot.None? {
      return None;
    }
    var p := robot.value;
    ghost var k := LastIndex(bytes, RobotMark).value;
    FlatIndex(2 * k, w);
    wider[p.y * w + p.x] := Empty;
    return Some((wider[..], w, h, p));
  }

  /** The line loop of `part_two`: the first non-empty line's length and
      the number of lines. */
  method Dimensions(rows: seq<seq<char>>) returns (width: nat, h: nat)
    ensures width == FirstNonEmptyWidth(rows) && h == |rows|
  {
    width, h := 0, 0;
    for i := 0 to |rows|
      invariant width == FirstNonEmptyWidth(rows[..i]) && h == i
    {
      assert rows[..i + 1][..i] == rows[..i];
      if width == 0 {
        width := |rows[i]|;
      }
      h := h + 1;
    }
    assert rows[..|rows|] == rows;
  }

  /** The widening loop of `part_two`, on a buffer prefilled with '.'. */
  method WidenInto(bytes: seq<char>, wider: array<char>, w: nat, h: nat) returns (ok: bool, robot: Option<Robot>)
    requires wider.Length == w * h
    requires forall j :: 0 <= j < wider.Length ==> wider[j] == Empty
    modifies wider
    ensures ok <==> WidenBytes(bytes).Some? && 2 * |bytes| <= wider.Length
    ensures ok ==> wider[..] == WidenBytes(bytes).value + Repeat(Empty, wider.Length - 2 * |bytes|)
    ensures ok ==> robot == WideRobot(bytes, w)
  {
    robot := None;
    for i := 0 to |bytes|
      invariant WidenBytes(bytes[..i]).Some?
      invariant 2 * i <= wider.Length
      invariant wider[..2 * i] == WidenBytes(bytes[..i]).value
      invariant forall j :: 2 * i <= j < wider.Length ==> wider[j] == Empty
      invariant robot == WideRobot(bytes[..i], w)
    {
      var c := bytes[i];
      var pair := WideCell(c);
      if pair.None? || 2 * i + 1 >= wider.Length {
        WidenFails(bytes, i, wider.Length);
        return false, None;
      }
      assert bytes[..i + 1][..i] == bytes[..i];
      ghost var before := wider[..2 * i];
      wider[2 * i], wider[2 * i + 1] := pair.value[0], pair.value[1];
      assert wider[..2 * i + 2] == before + pair.value;
      if c == RobotMark {
        PositiveWidth(w, h, 2 * i + 1);
        FlatIndex(2 * i, w);
        robot := Some(Robot((2 * i) % w, (2 * i) / w));
      }
      WideRobotStep(bytes, i, w);
    }
    assert bytes[..|bytes|] == bytes;
    assert wider[..] == WidenBytes(bytes).value + Repeat(Empty, wider.Length - 2 * |bytes|);
    return true, robot;
  }

  /** The robot as the loop records it: at the last '@' seen so far, in
      wide coordinates. */
  function WideRobot(seen: seq<char>, w: nat): Option<Robot>
  {
    match LastIndex(seen, RobotMark)
    case None => None
    case Some(k) => if w == 0 then None else Some(Robot((2 * k) % w, (2 * k) / w))
  }

  lemma WideRobotStep(bytes: seq<char>, i: nat, w: nat)
    requires i < |bytes| && w > 0
    ensures WideRobot(bytes[..i + 1], w) ==
            if bytes[i] == RobotMark then Some(Robot((2 * i) % w, (2 * i) / w)) else WideRobot(bytes[..i], w)
  {
    assert bytes[..i + 1][..i] == bytes[..i];
  }

  /** A prefix of a widenable sequence is widenable. */
  lemma {:induction false} WidenPrefix(bytes: seq<char>, n: nat)
    requires n <= |bytes| && WidenBytes(bytes).Some?
    ensures WidenBytes(bytes[..n]).Some?
    decreases |bytes|
  {
    if n < |bytes| {
      WidenPrefix(bytes[..|bytes| - 1], n);
      assert bytes[..|bytes| - 1][..n] == bytes[..n];
    } else {
      assert bytes[..n] == bytes;
    }
  }

  lemma WidenFails(bytes: seq<char>, i: nat, n: nat)
    requires i < |bytes| && WidenBytes(bytes[..i]).Some?
    requires WideCell(bytes[i]).None? || 2 * i + 1 >= n
    ensures WidenBytes(bytes).None? || 2 * |bytes| > n
  {
    if WideCell(bytes[i]).None? {
      assert bytes[..i + 1][..i] == bytes[..i];
      if WidenBytes(bytes).Some? {
        WidenPrefix(bytes, i + 1);
      }
    }
  }

  /** Cell j of the input becomes cells 2j and 2j + 1 of the wide grid. */
  lemma {:induction false} WidenPointwise(bytes: seq<char>)
    requires WidenBytes(bytes).Some?
    ensures forall j :: 0 <= j < |bytes| ==>
              WideCell(bytes[j]).Some? && WidenBytes(bytes).value[2 * j..2 * j + 2] == WideCell(bytes[j]).value
    decreases |bytes|
  {
    if bytes != [] {
      var n := |bytes| - 1;
      var front := WidenBytes(bytes[..n]).value;
      var wide := WidenBytes(bytes).value;
      WidenPointwise(bytes[..n]);
      forall j | 0 <= j < |bytes|
        ensures WideCell(bytes[j]).Some? && wide[2 * j..2 * j + 2] == WideCell(bytes[j]).value
      {
        if j < n {
          assert bytes[j] == bytes[..n][j];
          assert wide[2 * j..2 * j + 2] == front[2 * j..2 * j + 2];
        }
      }
    }
  }

  /** Widening turns every small box into exactly one wide box: the counts of
      `[` and of `]` both equal the input's count of `O`. */
  lemma {:induction false} WidenCountsBoxes(bytes: seq<char>)
    requires WidenBytes(bytes).Some?
    ensures multiset(WidenBytes(bytes).value)[BoxLeft] == multiset(bytes)[SmallBox]
    ensures multiset(WidenBytes(bytes).value)[BoxRight] == multiset(bytes)[SmallBox]
    decreases |bytes|
  {
    if bytes != [] {
      var n := |bytes| - 1;
      assert bytes == bytes[..n] + [bytes[n]];
      WidenCountsBoxes(bytes[..n]);
    }
  }

  /** What `part_two` returns. */
  function PartTwoResult(rows: seq<seq<char>>, text: seq<char>): Option<nat>
  {
    match WideGrid(rows)
    case None => None
    case Some((g, w, h, p)) =>
      match Run(g, w, p, Instructions(text))
      case None => None
      case Some((g', _)) => Some(GpsSum(g', w, h * w) % 0x1_0000_0000)
  }

  method PartTwo(rows: seq<seq<char>>, text: seq<char>) returns (r: Option<nat>)
    ensures r == PartTwoResult(rows, text)
  {
    var wide := Widen(rows);
    if wide.None? {
      return None;
    }
    var (g, w, h, p) := wide.value;
    var a := new char[|g|](i requires 0 <= i < |g| => g[i]);
    assert a[..] == g;
    var total := RunInstructions(p, Instructions(text), a, w, h);
    if total.None? {
      return None;
    }
    return Some(total.value % 0x1_0000_0000);
  }
}
