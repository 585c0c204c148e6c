// Day 18: bytes fall onto a 71×71 memory grid at listed (x, y) coordinates.
// Part one is the length of a shortest path from the top-left corner to the
// bottom-right one once the first 1024 bytes have fallen, found by a
// breadth-first search; part two is the first byte after whose fall no path
// is left, each fall followed by a reachability search.

module Day18 {
  import opened Common
  import opened Text
  import opened Grids

  /** `GRID_SIZE`: cells are (x, y) with both coordinates in 0..70. */
  const Size: int := 71

  /** The cell every path must reach. */
  const Corner: Pos := (70, 70)

  /** Bytes counted by part one. */
  const Fallen: nat := 1024

  /** `DIRS`, in the order the searches look at them. */
  const Dirs: seq<Pos> := [(0, 1), (1, 0), (0, -1), (-1, 0)]

  function Shift(p: Pos, d: Pos): Pos
  {
    (p.0 + d.0, p.1 + d.1)
  }

  /** A cell a path may enter: inside the grid and not covered by a byte. */
  predicate Open(blocked: set<Pos>, q: Pos)
  {
    InBounds(q, Size, Size) && q !in blocked
  }

  /** The open cells among the first k neighbours of p. */
  function OpenAmong(blocked: set<Pos>, p: Pos, k: nat): set<Pos>
    requires k <= |Dirs|
  {
    if k == 0 then {}
    else
      var q := Shift(p, Dirs[k - 1]);
      OpenAmong(blocked, p, k - 1) + (if Open(blocked, q) then {q} else {})
  }

  lemma {:induction false} OpenAmongIff(blocked: set<Pos>, p: Pos, k: nat, q: Pos)
    requires k <= |Dirs|
    ensures q in OpenAmong(blocked, p, k) <==>
      Open(blocked, q) && exists i :: 0 <= i < k && q == Shift(p, Dirs[i])
  {
    if k > 0 {
      OpenAmongIff(blocked, p, k - 1, q);
    }
  }

  /** One step of a path: to an open neighbour. */
  function Next(blocked: set<Pos>): Pos -> set<Pos>
  {
    p => OpenAmong(blocked, p, |Dirs|)
  }

  /** The bottom-right corner can be reached from the top-left one. */
  ghost predicate Connected(blocked: set<Pos>)
  {
    Reachable(Next(blocked), (0, 0), Corner)
  }

  // ---------------------------------------------------------------------------
  // Parsing

  /** A line `x,y`: the text before the first comma and the text after it up
      to any further comma, each read as an i32; None where the source's
      `unwrap` panics. */
  function ParseCoord(line: string): (r: Option<Pos>)
    ensures r.Some? ==> ',' in line
    ensures r.Some? ==> I32Min <= r.value.0 <= I32Max && I32Min <= r.value.1 <= I32Max
  {
    match SplitOnce(line, ',')
    case None => None
    case Some((xs, rest)) =>
      var ys := match SplitOnce(rest, ',') case None => rest case Some((ys, _)) => ys;
      match (ParseI32(xs), ParseI32(ys))
      case (Some(x), Some(y)) => Some((x, y))
      case _ => None
  }

  /** Reading back a written coordinate gives it. */
  lemma ParseShowCoord(p: Pos)
    requires I32Min <= p.0 <= I32Max && I32Min <= p.1 <= I32Max
    ensures ParseCoord(ShowInt(p.0) + "," + ShowInt(p.1)) == Some(p)
  {
    ShowIntPlain(p.0);
    ShowIntPlain(p.1);
    ParseShowInt(p.0);
    ParseShowInt(p.1);
    SplitOnceAt(ShowInt(p.0), ShowInt(p.1), ',');
  }

  /** Text after a second comma is ignored. */
  lemma ParseShowCoordMore(p: Pos, tail: string)
    requires I32Min <= p.0 <= I32Max && I32Min <= p.1 <= I32Max
    ensures ParseCoord(ShowInt(p.0) + "," + ShowInt(p.1) + "," + tail) == Some(p)
  {
    var rest := ShowInt(p.1) + "," + tail;
    assert ShowInt(p.0) + "," + ShowInt(p.1) + "," + tail == ShowInt(p.0) + [','] + rest;
    ShowIntPlain(p.0);
    ShowIntPlain(p.1);
    SplitOnceAt(ShowInt(p.0), rest, ',');
    SplitOnceAt(ShowInt(p.1), tail, ',');
    ParseShowInt(p.0);
    ParseShowInt(p.1);
  }

  /** `input.lines().map(...).collect()` over the coordinates. */
  function ParseAll(lines: seq<string>): Option<seq<Pos>>
  {
    CollectAll(lines, ParseCoord)
  }

  /** The lines parse together exactly when each does, and then the
      coordinates are theirs in order. */
  lemma ParseAllLines(lines: seq<string>)
    ensures ParseAll(lines).None? <==> exists i :: 0 <= i < |lines| && ParseCoord(lines[i]).None?
    ensures ParseAll(lines).Some? ==>
      |ParseAll(lines).value| == |lines| &&
      forall i :: 0 <= i < |lines| ==> ParseCoord(lines[i]) == Some(ParseAll(lines).value[i])
  {
    CollectAllLines(lines, ParseCoord);
  }

  /** `lines().take(1024)`. */
  function FirstFallen(lines: seq<string>): seq<string>
  {
    if |lines| <= Fallen then lines else lines[..Fallen]
  }

  // ---------------------------------------------------------------------------
  // The visited vector of `can_reach_target`

  /** The slot of (x, y): `y * GRID_SIZE + x`. */
  function Slot(p: Pos): int
  {
    FlatIndex(p.1, p.0, Size)
  }

  /** The flag of each cell of the grid is set exactly when it is in seen. */
  ghost predicate Flags(flags: seq<bool>, seen: set<Pos>)
  {
    |flags| == Size * Size &&
    forall p :: InBounds(p, Size, Size) ==> (flags[Slot(p)] <==> p in seen)
  }

  lemma FlagsNone(flags: seq<bool>)
    requires |flags| == Size * Size && forall k :: 0 <= k < |flags| ==> !flags[k]
    ensures Flags(flags, {})
  {
  }

  /** Setting the flag of a cell marks exactly it in addition. */
  lemma FlagsMark(flags: seq<bool>, seen: set<Pos>, q: Pos)
    requires Flags(flags, seen) && InBounds(q, Size, Size)
    ensures 0 <= Slot(q) < |flags|
    ensures Flags(flags[Slot(q) := true], seen + {q})
  {
    var after := flags[Slot(q) := true];
    forall p | InBounds(p, Size, Size) ensures after[Slot(p)] <==> p in seen + {q} {
      if Slot(p) == Slot(q) {
        FlatIndexInjective(p.1, p.0, q.1, q.0, Size);
      }
    }
  }

  // ---------------------------------------------------------------------------
  // What both searches keep

  /** The search from start toward target has seen the cells it has
      queued or finished, all of them in the grid and reachable from start;
      every neighbour of a finished cell has been seen; the target is not
      finished (it is returned on being dequeued). */
  ghost predicate Searching(blocked: set<Pos>, start: Pos, target: Pos, seen: set<Pos>, done: set<Pos>, queued: set<Pos>)
  {
    start in seen && seen == done + queued && seen <= Cells(Size, Size) &&
    (forall c :: c in seen ==> Reachable(Next(blocked), start, c)) &&
    (forall a :: a in done ==> OpenAmong(blocked, a, |Dirs|) <= seen) &&
    target !in done
  }

  lemma SearchStart(blocked: set<Pos>, start: Pos, target: Pos)
    requires InBounds(start, Size, Size)
    ensures Searching(blocked, start, target, {start}, {}, {start})
  {
    StartReachable(Next(blocked), start);
    InCells(start, Size, Size);
  }

  /** Finishing the front cell a, whose unseen open neighbours were queued. */
  lemma SearchStep(blocked: set<Pos>, start: Pos, target: Pos, seen: set<Pos>, done: set<Pos>,
                   queued: set<Pos>, a: Pos, pushed: set<Pos>)
    requires Searching(blocked, start, target, seen, done, queued + {a}) && a != target
    requires pushed <= OpenAmong(blocked, a, |Dirs|) && OpenAmong(blocked, a, |Dirs|) <= seen + pushed
    ensures Searching(blocked, start, target, seen + pushed, done + {a}, queued + pushed)
  {
    forall c | c in pushed ensures Reachable(Next(blocked), start, c) && c in Cells(Size, Size) {
      assert c in Next(blocked)(a);
      StepReachable(Next(blocked), start, a, c);
      OpenAmongIff(blocked, a, |Dirs|, c);
      InCells(c, Size, Size);
    }
  }

  /** A search that has run out of cells has finished every reachable one,
      so the target is not reachable. */
  lemma SearchExhausted(blocked: set<Pos>, start: Pos, target: Pos, seen: set<Pos>, done: set<Pos>)
    requires Searching(blocked, start, target, seen, done, {})
    ensures !Reachable(Next(blocked), start, target)
  {
    assert Closed(Next(blocked), done) by {
      forall a | a in done ensures Next(blocked)(a) <= done {
      }
    }
    if Reachable(Next(blocked), start, target) {
      ClosedHoldsReachable(Next(blocked), start, done, target);
    }
  }

  /** Seeing new cells of the grid leaves fewer unseen; this bounds both
      searches. */
  lemma SeenGrows(seen: set<Pos>, more: set<Pos>)
    requires seen + more <= Cells(Size, Size) && more !! seen
    ensures more == {} || |Cells(Size, Size) - (seen + more)| < |Cells(Size, Size) - seen|
  {
    if more != {} {
      var p :| p in more;
      CellsFewer(seen, seen + more, p, Size, Size);
    }
  }

  // ---------------------------------------------------------------------------
  // `can_reach_target`

  /** One direction of `can_reach_target`'s loop: q is flagged and queued
      when it is in the grid, not flagged yet and not blocked. */
  method Look(blocked: set<Pos>, visited: array<bool>, q: Pos, ghost seen: set<Pos>) returns (push: bool)
    requires Flags(visited[..], seen)
    modifies visited
    ensures push <==> Open(blocked, q) && q !in seen
    ensures Flags(visited[..], if push then seen + {q} else seen)
  {
    push := false;
    if 0 <= q.0 < Size && 0 <= q.1 < Size {
      var idx := q.1 * Size + q.0;
      assert idx == Slot(q);
      if !visited[idx] && q !in blocked {
        FlagsMark(visited[..], seen, q);
        visited[idx] := true;
        push := true;
      }
    }
  }

  /** After the first k directions around a: pushed holds, once each, the
      open neighbours among them that were not seen before. */
  ghost predicate Gathered(blocked: set<Pos>, a: Pos, k: nat, seen: set<Pos>, pushed: seq<Pos>)
    requires k <= |Dirs|
  {
    Distinct(pushed) && Elems(pushed) !! seen &&
    Elems(pushed) <= OpenAmong(blocked, a, k) <= seen + Elems(pushed)
  }

  lemma GatherStep(blocked: set<Pos>, a: Pos, k: nat, seen: set<Pos>, pushed: seq<Pos>, push: bool)
    requires k < |Dirs| && Gathered(blocked, a, k, seen, pushed)
    requires push <==> Open(blocked, Shift(a, Dirs[k])) && Shift(a, Dirs[k]) !in seen + Elems(pushed)
    ensures Gathered(blocked, a, k + 1, seen, if push then pushed + [Shift(a, Dirs[k])] else pushed)
  {
    var q := Shift(a, Dirs[k]);
    var before, after := OpenAmong(blocked, a, k), OpenAmong(blocked, a, k + 1);
    assert after == before + if Open(blocked, q) then {q} else {};
    if push {
      var more := pushed + [q];
      ElemsAppend(pushed, [q]);
      ElemsOne(q);
      DistinctAppend(pushed, [q]);
      assert Elems(more) == Elems(pushed) + {q};
      assert Elems(more) !! seen;
      assert Elems(more) <= after;
      assert after <= seen + Elems(more);
    } else {
      assert after <= seen + Elems(pushed);
    }
  }

  /** The `for &(dx, dy) in &DIRS` loop of `can_reach_target`: flags and
      queues each open neighbour of a not seen yet. */
  method Enqueue(blocked: set<Pos>, visited: array<bool>, a: Pos, ghost seen: set<Pos>) returns (pushed: seq<Pos>)
    requires Flags(visited[..], seen) && seen <= Cells(Size, Size)
    modifies visited
    ensures Flags(visited[..], seen + Elems(pushed))
    ensures Distinct(pushed) && Elems(pushed) !! seen
    ensures Elems(pushed) <= OpenAmong(blocked, a, |Dirs|) <= seen + Elems(pushed)
  {
    pushed := [];
    for k := 0 to |Dirs|
      invariant Flags(visited[..], seen + Elems(pushed))
      invariant Gathered(blocked, a, k, seen, pushed)
    {
      var q := Shift(a, Dirs[k]);
      var push := Look(blocked, visited, q, seen + Elems(pushed));
      GatherStep(blocked, a, k, seen, pushed, push);
      if push {
        ElemsAppend(pushed, [q]);
        ElemsOne(q);
        pushed := pushed + [q];
      }
    }
  }

  /** The state of `can_reach_target`: the flags mark the cells queued so
      far, each queued once, and the search keeps what Searching says. */
  ghost predicate Reaching(blocked: set<Pos>, start: Pos, target: Pos, flags: seq<bool>,
                           enqueued: seq<Pos>, done: set<Pos>, queue: seq<Pos>)
  {
    Flags(flags, Elems(enqueued)) && Distinct(enqueued) &&
    Searching(blocked, start, target, Elems(enqueued), done, Elems(queue))
  }

  /** The state once start is flagged and queued. */
  lemma ReachingStart(blocked: set<Pos>, start: Pos, target: Pos, flags: seq<bool>)
    requires InBounds(start, Size, Size) && |flags| == Size * Size
    requires forall k :: 0 <= k < |flags| ==> !flags[k]
    ensures 0 <= Slot(start) < |flags|
    ensures Reaching(blocked, start, target, flags[Slot(start) := true], [start], {}, [start])
  {
    FlagsNone(flags);
    FlagsMark(flags, {}, start);
    ElemsOne(start);
    SearchStart(blocked, start, target);
  }

  /** One dequeue of `can_reach_target` that is not the target: the front
      cell is finished and its unseen open neighbours queued. */
  lemma ArrayStep(blocked: set<Pos>, start: Pos, target: Pos, flags: seq<bool>, enqueued: seq<Pos>,
                  done: set<Pos>, queue: seq<Pos>, pushed: seq<Pos>)
    requires Searching(blocked, start, target, Elems(enqueued), done, Elems(queue)) && Distinct(enqueued)
    requires |queue| > 0 && queue[0] != target
    requires Flags(flags, Elems(enqueued) + Elems(pushed))
    requires Distinct(pushed) && Elems(pushed) !! Elems(enqueued)
    requires Elems(pushed) <= OpenAmong(blocked, queue[0], |Dirs|) <= Elems(enqueued) + Elems(pushed)
    ensures Reaching(blocked, start, target, flags, enqueued + pushed, done + {queue[0]}, queue[1..] + pushed)
    ensures pushed != [] ==> |Cells(Size, Size) - Elems(enqueued + pushed)| < |Cells(Size, Size) - Elems(enqueued)|
    ensures pushed == [] ==> enqueued + pushed == enqueued
  {
    var seen := Elems(enqueued);
    ElemsFront(queue);
    assert Elems(queue) == Elems(queue[1..]) + {queue[0]};
    SearchStep(blocked, start, target, seen, done, Elems(queue[1..]), queue[0], Elems(pushed));
    ElemsAppend(queue[1..], pushed);
    ElemsAppend(enqueued, pushed);
    DistinctAppend(enqueued, pushed);
    if pushed == [] {
      assert enqueued + pushed == enqueued;
    } else {
      SeenGrows(seen, Elems(pushed));
      assert pushed[0] in Elems(pushed);
    }
  }

  /** `can_reach_target`: true exactly when target can be reached from start
      through open cells; `enqueued` lists every cell the search queued, each
      once and all inside the grid. */
  method CanReachTarget(blocked: set<Pos>, start: Pos, target: Pos) returns (r: bool, ghost enqueued: seq<Pos>)
    requires InBounds(start, Size, Size)
    ensures r <==> Reachable(Next(blocked), start, target)
    ensures Distinct(enqueued) && Elems(enqueued) <= Cells(Size, Size)
  {
    var visited := new bool[Size * Size](_ => false);
    ReachingStart(blocked, start, target, visited[..]);
    visited[start.1 * Size + start.0] := true;
    var queue := [start];
    enqueued := [start];
    ghost var done: set<Pos> := {};
    while |queue| > 0
      invariant Reaching(blocked, start, target, visited[..], enqueued, done, queue)
      decreases |Cells(Size, Size) - Elems(enqueued)|, |queue|
    {
      var a := queue[0];
      if a == target {
        assert a in Elems(queue);
        return true, enqueued;
      }
      var pushed := Enqueue(blocked, visited, a, Elems(enqueued));
      ArrayStep(blocked, start, target, visited[..], enqueued, done, queue, pushed);
      queue := queue[1..] + pushed;
      enqueued := enqueued + pushed;
      done := done + {a};
    }
    assert Elems(queue) == {};
    SearchExhausted(blocked, start, target, Elems(enqueued), done);
    return false, enqueued;
  }

  // ---------------------------------------------------------------------------
  // Part one: breadth-first search with step counts

  /** The cells in a queue of (cell, steps) entries. */
  function QueueCells(queue: seq<(Pos, nat)>): set<Pos>
  {
    set k | 0 <= k < |queue| :: queue[k].0
  }

  lemma QueueCellsFront(queue: seq<(Pos, nat)>)
    requires |queue| > 0
    ensures QueueCells(queue) == QueueCells(queue[1..]) + {queue[0].0}
  {
    var rest := queue[1..];
    forall c | c in QueueCells(queue) ensures c in QueueCells(rest) + {queue[0].0} {
      var k :| 0 <= k < |queue| && queue[k].0 == c;
      if k > 0 {
        assert rest[k - 1].0 == c;
      }
    }
  }

  lemma QueueCellsAppend(queue: seq<(Pos, nat)>, extra: seq<(Pos, nat)>)
    ensures QueueCells(queue + extra) == QueueCells(queue) + QueueCells(extra)
  {
    var all := queue + extra;
    forall c | c in QueueCells(all) ensures c in QueueCells(queue) + QueueCells(extra) {
      var k :| 0 <= k < |all| && all[k].0 == c;
      if k >= |queue| {
        assert extra[k - |queue|].0 == c;
      }
    }
    forall c | c in QueueCells(queue) + QueueCells(extra) ensures c in QueueCells(all) {
      if c in QueueCells(queue) {
        var k :| 0 <= k < |queue| && queue[k].0 == c;
        assert all[k].0 == c;
      } else {
        var k :| 0 <= k < |extra| && extra[k].0 == c;
        assert all[|queue| + k].0 == c;
      }
    }
  }

  /** Steps never decrease along the queue and span at most one. */
  predicate Ordered(queue: seq<(Pos, nat)>)
  {
    (forall i, j :: 0 <= i <= j < |queue| ==> queue[i].1 <= queue[j].1) &&
    (|queue| > 0 ==> queue[|queue| - 1].1 <= queue[0].1 + 1)
  }

  /** The queue of the breadth-first search: each entry's steps are its
      cell's distance from (0, 0), in order. */
  ghost predicate Layered(blocked: set<Pos>, queue: seq<(Pos, nat)>)
  {
    (forall k :: 0 <= k < |queue| ==> Shortest(Next(blocked), (0, 0), queue[k].0, queue[k].1)) &&
    Ordered(queue)
  }

  /** No queued cell is fewer steps from (0, 0) than the front entry's. */
  lemma QueuedFar(blocked: set<Pos>, queue: seq<(Pos, nat)>, j: nat)
    requires Layered(blocked, queue) && |queue| > 0 && j < queue[0].1
    ensures forall i :: 0 <= i < |queue| ==> queue[i].0 !in ReachIn(Next(blocked), (0, 0), j)
  {
    forall i | 0 <= i < |queue| ensures queue[i].0 !in ReachIn(Next(blocked), (0, 0), j) {
      assert queue[0].1 <= queue[i].1;
    }
  }

  /** Every cell within the front entry's steps of (0, 0) has been seen. */
  lemma {:induction false} SeenWithin(blocked: set<Pos>, seen: set<Pos>, done: set<Pos>, queue: seq<(Pos, nat)>, k: nat)
    requires (0, 0) in seen && seen == done + QueueCells(queue)
    requires forall a :: a in done ==> OpenAmong(blocked, a, |Dirs|) <= seen
    requires Layered(blocked, queue) && |queue| > 0 && k <= queue[0].1
    ensures ReachIn(Next(blocked), (0, 0), k) <= seen
  {
    if k > 0 {
      SeenWithin(blocked, seen, done, queue, k - 1);
      QueuedFar(blocked, queue, k - 1);
      var before := ReachIn(Next(blocked), (0, 0), k - 1);
      forall c | c in ReachIn(Next(blocked), (0, 0), k) ensures c in seen {
        var b :| b in before && c in Next(blocked)(b);
        assert b in done;
      }
    }
  }

  /** The `for &(dx, dy) in &DIRS` loop of `part_one`: queues each open
      neighbour of a not visited yet with one step more than a. */
  method VisitAround(blocked: set<Pos>, visited: set<Pos>, a: Pos, steps: nat)
    returns (pushed: seq<(Pos, nat)>, after: set<Pos>)
    requires visited <= Cells(Size, Size)
    ensures after == visited + QueueCells(pushed)
    ensures forall k :: 0 <= k < |pushed| ==> pushed[k].1 == steps + 1
    ensures QueueCells(pushed) !! visited
    ensures QueueCells(pushed) <= OpenAmong(blocked, a, |Dirs|) <= after
  {
    pushed := [];
    after := visited;
    for k := 0 to |Dirs|
      invariant after == visited + QueueCells(pushed)
      invariant forall i :: 0 <= i < |pushed| ==> pushed[i].1 == steps + 1
      invariant QueueCells(pushed) !! visited
      invariant QueueCells(pushed) <= OpenAmong(blocked, a, k) <= after
    {
      var q := Shift(a, Dirs[k]);
      assert OpenAmong(blocked, a, k + 1) == OpenAmong(blocked, a, k) + if Open(blocked, q) then {q} else {};
      if 0 <= q.0 && q.0 <= 70 && 0 <= q.1 && q.1 <= 70 && q !in blocked && q !in after {
        QueueCellsAppend(pushed, [(q, steps + 1)]);
        assert QueueCells([(q, steps + 1)]) == {q} by {
          assert [(q, steps + 1)][0].0 == q;
        }
        pushed := pushed + [(q, steps + 1)];
        after := after + {q};
      }
    }
  }

  /** Finishing the front entry (a, d): its unseen open neighbours are
      exactly d + 1 steps away. */
  lemma PushedDistance(blocked: set<Pos>, seen: set<Pos>, done: set<Pos>, queue: seq<(Pos, nat)>,
                       pushed: seq<(Pos, nat)>)
    requires Searching(blocked, (0, 0), Corner, seen, done, QueueCells(queue)) && Layered(blocked, queue)
    requires |queue| > 0
    requires QueueCells(pushed) !! seen && QueueCells(pushed) <= OpenAmong(blocked, queue[0].0, |Dirs|)
    ensures forall i :: 0 <= i < |pushed| ==> Shortest(Next(blocked), (0, 0), pushed[i].0, queue[0].1 + 1)
  {
    var a, d := queue[0].0, queue[0].1;
    forall k: nat | k <= d ensures ReachIn(Next(blocked), (0, 0), k) <= seen {
      SeenWithin(blocked, seen, done, queue, k);
    }
    forall i | 0 <= i < |pushed| ensures Shortest(Next(blocked), (0, 0), pushed[i].0, d + 1) {
      var q := pushed[i].0;
      assert q in QueueCells(pushed);
      assert q in Next(blocked)(a);
      assert q in ReachIn(Next(blocked), (0, 0), d + 1);
    }
  }

  /** Entries with one step more than the front, appended after it is
      removed, keep the queue ordered. */
  lemma OrderedStep(queue: seq<(Pos, nat)>, pushed: seq<(Pos, nat)>)
    requires Ordered(queue) && |queue| > 0
    requires forall k :: 0 <= k < |pushed| ==> pushed[k].1 == queue[0].1 + 1
    ensures Ordered(queue[1..] + pushed)
  {
    var d := queue[0].1;
    var all := queue[1..] + pushed;
    forall i, j | 0 <= i <= j < |all| ensures all[i].1 <= all[j].1 {
      if j >= |queue| - 1 {
        assert all[j] == pushed[j - (|queue| - 1)];
        if i < |queue| - 1 {
          assert all[i] == queue[i + 1];
        }
      } else {
        assert all[i] == queue[i + 1] && all[j] == queue[j + 1];
      }
    }
    if |all| > 0 {
      if |queue| > 1 {
        assert all[0] == queue[1];
        if |pushed| > 0 {
          assert all[|all| - 1] == pushed[|pushed| - 1];
        } else {
          assert all[|all| - 1] == queue[|queue| - 1];
        }
      } else {
        assert all == pushed;
      }
    }
  }

  lemma BfsSearchStep(blocked: set<Pos>, seen: set<Pos>, done: set<Pos>, queue: seq<(Pos, nat)>,
                      pushed: seq<(Pos, nat)>)
    requires Searching(blocked, (0, 0), Corner, seen, done, QueueCells(queue)) && |queue| > 0 && queue[0].0 != Corner
    requires QueueCells(pushed) <= OpenAmong(blocked, queue[0].0, |Dirs|) <= seen + QueueCells(pushed)
    ensures Searching(blocked, (0, 0), Corner, seen + QueueCells(pushed), done + {queue[0].0}, QueueCells(queue[1..] + pushed))
  {
    QueueCellsFront(queue);
    QueueCellsAppend(queue[1..], pushed);
    assert QueueCells(queue) == QueueCells(queue[1..]) + {queue[0].0};
    SearchStep(blocked, (0, 0), Corner, seen, done, QueueCells(queue[1..]), queue[0].0, QueueCells(pushed));
  }

  /** The state of `part_one`'s search: visited holds the finished cells
      and the queued ones, whose steps are their distances, in order. */
  ghost predicate Bfs(blocked: set<Pos>, visited: set<Pos>, done: set<Pos>, queue: seq<(Pos, nat)>)
  {
    Searching(blocked, (0, 0), Corner, visited, done, QueueCells(queue)) && Layered(blocked, queue)
  }

  /** The queue after the front entry is replaced by pushed still holds
      each cell's distance. */
  lemma DistanceStep(blocked: set<Pos>, queue: seq<(Pos, nat)>, pushed: seq<(Pos, nat)>)
    requires |queue| > 0
    requires forall k :: 0 <= k < |queue| ==> Shortest(Next(blocked), (0, 0), queue[k].0, queue[k].1)
    requires forall k :: 0 <= k < |pushed| ==> Shortest(Next(blocked), (0, 0), pushed[k].0, pushed[k].1)
    ensures forall k :: 0 <= k < |queue[1..] + pushed| ==>
      Shortest(Next(blocked), (0, 0), (queue[1..] + pushed)[k].0, (queue[1..] + pushed)[k].1)
  {
    var all := queue[1..] + pushed;
    forall k | 0 <= k < |all| ensures Shortest(Next(blocked), (0, 0), all[k].0, all[k].1) {
      if k < |queue| - 1 {
        assert all[k] == queue[k + 1];
      } else {
        assert all[k] == pushed[k - (|queue| - 1)];
      }
    }
  }

  lemma LayeredStep(blocked: set<Pos>, seen: set<Pos>, done: set<Pos>, queue: seq<(Pos, nat)>,
                    pushed: seq<(Pos, nat)>)
    requires Bfs(blocked, seen, done, queue) && |queue| > 0
    requires forall k :: 0 <= k < |pushed| ==> pushed[k].1 == queue[0].1 + 1
    requires QueueCells(pushed) !! seen && QueueCells(pushed) <= OpenAmong(blocked, queue[0].0, |Dirs|)
    ensures Layered(blocked, queue[1..] + pushed)
  {
    PushedDistance(blocked, seen, done, queue, pushed);
    DistanceStep(blocked, queue, pushed);
    OrderedStep(queue, pushed);
  }

  /** The state once (0, 0) is queued with no steps. */
  lemma BfsStart(blocked: set<Pos>)
    ensures Bfs(blocked, {(0, 0)}, {}, [((0, 0), 0)])
  {
    var queue: seq<(Pos, nat)> := [((0, 0), 0)];
    assert QueueCells(queue) == {(0, 0)} by {
      assert queue[0].0 == (0, 0);
    }
    SearchStart(blocked, (0, 0), Corner);
  }

  /** One dequeue of `part_one` that is not the corner. */
  lemma BfsStep(blocked: set<Pos>, seen: set<Pos>, done: set<Pos>, queue: seq<(Pos, nat)>,
                pushed: seq<(Pos, nat)>, after: set<Pos>)
    requires Bfs(blocked, seen, done, queue) && |queue| > 0 && queue[0].0 != Corner
    requires forall k :: 0 <= k < |pushed| ==> pushed[k].1 == queue[0].1 + 1
    requires after == seen + QueueCells(pushed) && QueueCells(pushed) !! seen
    requires QueueCells(pushed) <= OpenAmong(blocked, queue[0].0, |Dirs|) <= after
    ensures Bfs(blocked, after, done + {queue[0].0}, queue[1..] + pushed)
    ensures pushed != [] ==> |Cells(Size, Size) - after| < |Cells(Size, Size) - seen|
    ensures pushed == [] ==> after == seen
  {
    LayeredStep(blocked, seen, done, queue, pushed);
    BfsSearchStep(blocked, seen, done, queue, pushed);
    if pushed != [] {
      SeenGrows(seen, QueueCells(pushed));
      assert pushed[0].0 in QueueCells(pushed);
    } else {
      assert QueueCells(pushed) == {};
    }
  }

  /** The search of `part_one` over the given bytes: the step count at the
      first dequeue of the corner, which is its distance from (0, 0), or
      None exactly when the corner cannot be reached. */
  method ShortestPath(blocked: set<Pos>) returns (r: Option<nat>)
    ensures r.Some? <==> Connected(blocked)
    ensures r.Some? ==> Shortest(Next(blocked), (0, 0), Corner, r.value)
  {
    var queue: seq<(Pos, nat)> := [((0, 0), 0)];
    var visited: set<Pos> := {(0, 0)};
    ghost var done: set<Pos> := {};
    BfsStart(blocked);
    while |queue| > 0
      invariant Bfs(blocked, visited, done, queue)
      decreases |Cells(Size, Size) - visited|, |queue|
    {
      var entry := queue[0];
      var a, steps := entry.0, entry.1;
      if a.0 == 70 && a.1 == 70 {
        assert Shortest(Next(blocked), (0, 0), a, steps);
        return Some(steps);
      }
      var pushed, after := VisitAround(blocked, visited, a, steps);
      assert a != Corner;
      BfsStep(blocked, visited, done, queue, pushed, after);
      queue := queue[1..] + pushed;
      visited := after;
      done := done + {a};
    }
    SearchExhausted(blocked, (0, 0), Corner, visited, done);
    return None;
  }

  /** `part_one`: the shortest path once the first 1024 bytes have fallen.
      The source panics on a line that does not parse. */
  method PartOne(lines: seq<string>) returns (r: Option<nat>)
    requires ParseAll(FirstFallen(lines)).Some?
    ensures var blocked := Elems(ParseAll(FirstFallen(lines)).value);
      (r.Some? <==> Connected(blocked)) && (r.Some? ==> Shortest(Next(blocked), (0, 0), Corner, r.value))
  {
    var coords := ParseAll(FirstFallen(lines)).value;
    r := ShortestPath(Elems(coords));
  }

  // ---------------------------------------------------------------------------
  // Part two

  /** The corners are still connected after the first n bytes have fallen. */
  ghost predicate ConnectedAfter(coords: seq<Pos>, n: nat)
    requires n <= |coords|
  {
    Connected(Elems(coords[..n]))
  }

  /** The answer of `part_two` for coords: (0, 0) when the corners are apart
      before anything falls, otherwise the first coordinate whose fall leaves
      them apart, or None when none does. */
  ghost predicate FirstCut(coords: seq<Pos>, r: Option<Pos>)
  {
    if !Connected({}) then r == Some((0, 0))
    else match r
      case None => forall n :: 0 < n <= |coords| ==> ConnectedAfter(coords, n)
      case Some(c) =>
        exists i :: 0 <= i < |coords| && c == coords[i] && !ConnectedAfter(coords, i + 1) &&
          forall n :: 0 < n <= i ==> ConnectedAfter(coords, n)
  }

  /** The `for &coord in &coordinates` loop of `part_two`: the first
      coordinate, at index `at`, whose fall leaves the corners apart, or None
      when they stay connected throughout. */
  method FallUntilCut(coords: seq<Pos>) returns (r: Option<Pos>, ghost at: nat)
    ensures r.None? ==> forall n :: 0 < n <= |coords| ==> ConnectedAfter(coords, n)
    ensures r.Some? ==> at < |coords| && r.value == coords[at] && !ConnectedAfter(coords, at + 1)
    ensures r.Some? ==> forall n :: 0 < n <= at ==> ConnectedAfter(coords, n)
  {
    var blocked: set<Pos> := {};
    assert Elems(coords[..0]) == {};
    for i := 0 to |coords|
      invariant blocked == Elems(coords[..i])
      invariant forall n :: 0 < n <= i ==> ConnectedAfter(coords, n)
    {
      ElemsPrefix(coords, i);
      blocked := blocked + {coords[i]};
      var ok;
      ghost var enqueued;
      ok, enqueued := CanReachTarget(blocked, (0, 0), Corner);
      if !ok {
        return Some(coords[i]), i;
      }
    }
    return None, 0;
  }

  /** `part_two`. The source panics on a line that does not parse. */
  method PartTwo(lines: seq<string>) returns (r: Option<Pos>)
    requires ParseAll(lines).Some?
    ensures FirstCut(ParseAll(lines).value, r)
  {
    var coords := ParseAll(lines).value;
    var ok;
    ghost var enqueued;
    ok, enqueued := CanReachTarget({}, (0, 0), Corner);
    if !ok {
      return Some((0, 0));
    }
    ghost var at;
    r, at := FallUntilCut(coords);
  }

  // ---------------------------------------------------------------------------
  // Why stopping at the first cut is right

  /** More bytes never add a path. */
  lemma {:induction false} ReachInFewerBlocks(less: set<Pos>, more: set<Pos>, start: Pos, k: nat)
    requires less <= more
    ensures ReachIn(Next(more), start, k) <= ReachIn(Next(less), start, k)
  {
    if k > 0 {
      ReachInFewerBlocks(less, more, start, k - 1);
      forall c | c in ReachIn(Next(more), start, k) ensures c in ReachIn(Next(less), start, k) {
        var b :| b in ReachIn(Next(more), start, k - 1) && c in Next(more)(b);
        OpenAmongIff(more, b, |Dirs|, c);
        OpenAmongIff(less, b, |Dirs|, c);
        assert c in Next(less)(b);
      }
    }
  }

  lemma ConnectedFewerBlocks(less: set<Pos>, more: set<Pos>)
    requires less <= more
    ensures Connected(more) ==> Connected(less)
  {
    if Connected(more) {
      var k: nat :| Corner in ReachIn(Next(more), (0, 0), k);
      ReachInFewerBlocks(less, more, (0, 0), k);
    }
  }

  /** Once a fall leaves the corners apart, every later fall does too. */
  lemma CutStays(coords: seq<Pos>, m: nat, n: nat)
    requires m <= n <= |coords| && !ConnectedAfter(coords, m)
    ensures !ConnectedAfter(coords, n)
  {
    assert coords[..n] == coords[..m] + coords[m..n];
    ElemsAppend(coords[..m], coords[m..n]);
    ConnectedFewerBlocks(Elems(coords[..m]), Elems(coords[..n]));
  }

  /** An open neighbour of a cell k - 1 steps away is at most k away. */
  lemma ReachNext(blocked: set<Pos>, start: Pos, k: nat, b: Pos, i: nat)
    requires k > 0 && b in ReachIn(Next(blocked), start, k - 1)
    requires i < |Dirs| && Open(blocked, Shift(b, Dirs[i]))
    ensures Shift(b, Dirs[i]) in ReachIn(Next(blocked), start, k)
  {
    OpenAmongIff(blocked, b, |Dirs|, Shift(b, Dirs[i]));
    assert Shift(b, Dirs[i]) in Next(blocked)(b);
  }

  /** With nothing fallen, (x, y) is x + y steps from (0, 0). */
  lemma {:induction false} StraightPath(blocked: set<Pos>, x: nat, y: nat)
    requires blocked == {} && x < Size && y < Size
    ensures (x, y) in ReachIn(Next(blocked), (0, 0), x + y)
    decreases x + y
  {
    if x > 0 {
      StraightPath(blocked, x - 1, y);
      assert Shift((x - 1, y), Dirs[1]) == (x, y);
      ReachNext(blocked, (0, 0), x + y, (x - 1, y), 1);
    } else if y > 0 {
      StraightPath(blocked, 0, y - 1);
      assert Shift((0, y - 1), Dirs[0]) == (0, y);
      ReachNext(blocked, (0, 0), y, (0, y - 1), 0);
    }
  }

  /** The corners are connected before anything falls, so part two's
      `"0,0"` answer is never given. */
  lemma NothingFallenConnected()
    ensures Connected({})
  {
    StraightPath({}, 70, 70);
  }
}
