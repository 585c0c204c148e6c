// Day 16: a reindeer maze. The reindeer starts on 'S' facing east and may
// step forward onto a cell that is not a wall, or turn by a quarter. Part one
// finds the lowest score with which it reaches 'E' (1 per step, 1000 per
// turn) by a Dijkstra search over (x, y, direction); part two keeps every
// path of that score and counts the tiles on them.

module Day16 {
  import opened Common
  import opened Grids

  /** The maze, one string per line; positions are (x, y). */
  type Maze = seq<string>

  /** An index into `DIRS`. */
  type Dir = d: nat | d < 4

  /** `DIRS`: east, south, west and north as (dx, dy). */
  const Dirs: seq<(int, int)> := [(1, 0), (0, 1), (-1, 0), (0, -1)]

  /** `grid[0].len()`. */
  function Width(maze: Maze): nat
  {
    if |maze| == 0 then 0 else |maze[0]|
  }

  /** Every line has the first line's length. */
  predicate Rectangular(maze: Maze)
  {
    forall y :: 0 <= y < |maze| ==> |maze[y]| == Width(maze)
  }

  /** Inside the maze and not a wall: the test of lines 84-88. */
  predicate Open(maze: Maze, x: int, y: int)
  {
    0 <= y < |maze| && 0 <= x < Width(maze) && x < |maze[y]| && maze[y][x] != '#'
  }

  /** A left turn: east to north, north to west, and so on. */
  function Left(d: Dir): Dir
  {
    if d == 0 then 3 else d - 1
  }

  /** A right turn: east to south, south to west, and so on. */
  function Right(d: Dir): Dir
  {
    if d == 3 then 0 else d + 1
  }

  /** The turns are the source's `(di + 3) % 4` and `(di + 1) % 4`
      (lines 100 and 110), and each undoes the other. */
  lemma Turns(d: Dir)
    ensures Left(d) == (d + 3) % 4 && Right(d) == (d + 1) % 4
    ensures Right(Left(d)) == d && Left(Right(d)) == d
  {
  }

  /** `state_key`: where the reindeer stands and which way it faces. */
  datatype Key = Key(x: int, y: int, di: Dir)

  /** A heap element: a key reached with a score. */
  datatype Entry = Entry(score: nat, key: Key)

  /** The column change of a step in direction d. */
  function Dx(d: Dir): int
  {
    if d == 0 then 1 else if d == 2 then -1 else 0
  }

  /** The line change of a step in direction d. */
  function Dy(d: Dir): int
  {
    if d == 1 then 1 else if d == 3 then -1 else 0
  }

  lemma DirsSteps(d: Dir)
    ensures Dirs[d] == (Dx(d), Dy(d))
  {
  }

  /** The cell in front of k, with the same facing. */
  function Ahead(k: Key): Key
  {
    Key(k.x + Dx(k.di), k.y + Dy(k.di), k.di)
  }

  /** The cell behind k, with the same facing. */
  function Behind(k: Key): Key
  {
    Key(k.x - Dx(k.di), k.y - Dy(k.di), k.di)
  }

  // ---------------------------------------------------------------------------
  // Part one: walks and their scores

  /** A part-one move from k to q at cost w: a step forward onto an open
      cell for 1, or a turn in place for 1000. */
  predicate Move(maze: Maze, k: Key, q: Key, w: nat)
  {
    (q == Ahead(k) && Open(maze, q.x, q.y) && w == 1) ||
    (q == Key(k.x, k.y, Left(k.di)) && w == 1000) ||
    (q == Key(k.x, k.y, Right(k.di)) && w == 1000)
  }

  /** Some walk of part-one moves leads from s to k with total score c. */
  ghost predicate Walk(maze: Maze, s: Key, k: Key, c: nat)
    decreases c
  {
    (c == 0 && k == s) ||
    exists p: Key, w: nat :: 1 <= w <= c && Move(maze, p, k, w) && Walk(maze, s, p, c - w)
  }

  /** A walk extended by one move is a walk. */
  lemma WalkMove(maze: Maze, s: Key, k: Key, c: nat, q: Key, w: nat)
    requires Walk(maze, s, k, c) && Move(maze, k, q, w)
    ensures Walk(maze, s, q, c + w)
  {
    assert (c + w) - w == c;
    assert 1 <= w <= c + w && Move(maze, k, q, w) && Walk(maze, s, k, (c + w) - w);
  }

  /** The entries that expanding e pushes (lines 81-117). */
  function Expand(maze: Maze, e: Entry): multiset<Entry>
  {
    var k := e.key;
    var ahead := Ahead(k);
    (if Open(maze, ahead.x, ahead.y) then multiset{Entry(e.score + 1, ahead)} else multiset{}) +
    multiset{Entry(e.score + 1000, Key(k.x, k.y, Left(k.di))), Entry(e.score + 1000, Key(k.x, k.y, Right(k.di)))}
  }

  /** Expand pushes exactly the moves out of e's key. */
  lemma ExpandMoves(maze: Maze, e: Entry, f: Entry)
    ensures f in Expand(maze, e) <==> f.score >= e.score && Move(maze, e.key, f.key, f.score - e.score)
  {
  }

  /** The lowest score of an entry in heap, which a pop returns. */
  predicate Least(heap: multiset<Entry>, e: Entry)
  {
    e in heap && forall f :: f in heap ==> e.score <= f.score
  }

  lemma {:induction false} LeastExists(heap: multiset<Entry>)
    requires |heap| > 0
    ensures exists e :: Least(heap, e)
    decreases |heap|
  {
    var x :| x in heap;
    var rest := heap - multiset{x};
    assert forall f :: f in heap ==> f == x || f in rest;
    if |rest| == 0 {
      assert Least(heap, x);
    } else {
      LeastExists(rest);
      var m :| Least(rest, m);
      if m.score <= x.score {
        assert Least(heap, m);
      } else {
        assert Least(heap, x);
      }
    }
  }

  /** Every entry in heap is the end of a walk with its score. */
  ghost predicate Sound(maze: Maze, s: Key, heap: multiset<Entry>)
  {
    forall e :: e in heap ==> Walk(maze, s, e.key, e.score)
  }

  /** Every visited key has in best the least score of a walk to it. */
  ghost predicate Settled(maze: Maze, s: Key, best: map<Key, nat>)
  {
    (forall k :: k in best ==> Walk(maze, s, k, best[k])) &&
    (forall k, c :: k in best && Walk(maze, s, k, c) ==> best[k] <= c)
  }

  /** Every move out of a visited key to a key not yet visited waits in
      heap, and so does the start until it is visited. */
  ghost predicate Waiting(maze: Maze, s: Key, heap: multiset<Entry>, best: map<Key, nat>)
  {
    (forall k, q, w :: k in best && Move(maze, k, q, w) && q !in best ==> Entry(best[k] + w, q) in heap) &&
    (s !in best ==> Entry(0, s) in heap)
  }

  /** The state of the search of lines 53-118 between pops; no visited
      key stands on the end, where the search would have stopped. */
  ghost predicate Search(maze: Maze, s: Key, end: Pos, heap: multiset<Entry>, best: map<Key, nat>)
  {
    Sound(maze, s, heap) && Settled(maze, s, best) && Waiting(maze, s, heap, best) &&
    forall k :: k in best ==> (k.x, k.y) != end
  }

  /** Every walk to a key not yet visited passes an entry of heap whose
      score is no larger than the walk's. */
  lemma {:induction false} Frontier(maze: Maze, s: Key, heap: multiset<Entry>,
                                    best: map<Key, nat>, k: Key, c: nat)
    requires Settled(maze, s, best) && Waiting(maze, s, heap, best)
    requires k !in best && Walk(maze, s, k, c)
    ensures exists e :: e in heap && e.score <= c
    decreases c
  {
    if c == 0 && k == s {
      assert Entry(0, s) in heap;
    } else {
      var p: Key, w: nat :| 1 <= w <= c && Move(maze, p, k, w) && Walk(maze, s, p, c - w);
      if p in best {
        assert Entry(best[p] + w, k) in heap;
      } else {
        Frontier(maze, s, heap, best, p, c - w);
      }
    }
  }

  /** The moves pushed when e is expanded end walks with their scores. */
  lemma SoundStep(maze: Maze, s: Key, heap: multiset<Entry>, e: Entry)
    requires Sound(maze, s, heap) && e in heap
    ensures Sound(maze, s, heap - multiset{e} + Expand(maze, e))
  {
    forall f | f in Expand(maze, e)
      ensures Walk(maze, s, f.key, f.score)
    {
      ExpandMoves(maze, e, f);
      WalkMove(maze, s, e.key, e.score, f.key, f.score - e.score);
    }
  }

  /** The least entry of a key not yet visited has its key's least score. */
  lemma SettledStep(maze: Maze, s: Key, heap: multiset<Entry>, best: map<Key, nat>, e: Entry)
    requires Sound(maze, s, heap) && Settled(maze, s, best) && Waiting(maze, s, heap, best)
    requires Least(heap, e) && e.key !in best
    ensures Settled(maze, s, best[e.key := e.score])
  {
    var best' := best[e.key := e.score];
    forall k | k in best'
      ensures Walk(maze, s, k, best'[k])
    {
      if k == e.key {
        assert e in heap;
      }
    }
    forall k, c | k in best' && Walk(maze, s, k, c)
      ensures best'[k] <= c
    {
      if k == e.key {
        Frontier(maze, s, heap, best, e.key, c);
        var f :| f in heap && f.score <= c;
        assert e.score <= f.score;
      } else {
        assert best'[k] == best[k];
      }
    }
  }

  /** The moves out of e's key wait once e is expanded. */
  lemma WaitingNew(maze: Maze, heap: multiset<Entry>, e: Entry)
    ensures forall q, w :: Move(maze, e.key, q, w) ==> Entry(e.score + w, q) in heap - multiset{e} + Expand(maze, e)
  {
    forall q, w | Move(maze, e.key, q, w)
      ensures Entry(e.score + w, q) in heap - multiset{e} + Expand(maze, e)
    {
      ExpandMoves(maze, e, Entry(e.score + w, q));
    }
  }

  /** Removing e keeps every waiting move to a key other than e's. */
  lemma WaitingOld(maze: Maze, s: Key, heap: multiset<Entry>, best: map<Key, nat>, e: Entry, heap': multiset<Entry>)
    requires Waiting(maze, s, heap, best) && heap - multiset{e} <= heap'
    ensures forall k, q, w :: k in best && Move(maze, k, q, w) && q !in best && q != e.key ==>
      Entry(best[k] + w, q) in heap'
  {
    forall k, q, w | k in best && Move(maze, k, q, w) && q !in best && q != e.key
      ensures Entry(best[k] + w, q) in heap'
    {
      assert Entry(best[k] + w, q) in heap - multiset{e};
    }
  }

  /** Moves out of e's key and out of the other visited keys that wait in
      heap' make Waiting hold once e's key is visited. */
  lemma WaitingJoin(maze: Maze, s: Key, best: map<Key, nat>, e: Entry, heap': multiset<Entry>)
    requires forall q, w :: Move(maze, e.key, q, w) ==> Entry(e.score + w, q) in heap'
    requires forall k, q, w :: k in best && Move(maze, k, q, w) && q !in best && q != e.key ==>
      Entry(best[k] + w, q) in heap'
    requires s !in best && s != e.key ==> Entry(0, s) in heap'
    ensures Waiting(maze, s, heap', best[e.key := e.score])
  {
    var best' := best[e.key := e.score];
    forall k, q, w | k in best' && Move(maze, k, q, w) && q !in best'
      ensures Entry(best'[k] + w, q) in heap'
    {
      if k != e.key {
        assert best'[k] == best[k] && q !in best && q != e.key;
      }
    }
  }

  /** After expanding e, the moves out of visited keys still wait. */
  lemma WaitingStep(maze: Maze, s: Key, heap: multiset<Entry>, best: map<Key, nat>, e: Entry)
    requires Waiting(maze, s, heap, best) && e in heap && e.key !in best
    ensures Waiting(maze, s, heap - multiset{e} + Expand(maze, e), best[e.key := e.score])
  {
    var heap' := heap - multiset{e} + Expand(maze, e);
    WaitingNew(maze, heap, e);
    WaitingOld(maze, s, heap, best, e, heap');
    if s !in best && s != e.key {
      assert Entry(0, s) in heap - multiset{e};
    }
    WaitingJoin(maze, s, best, e, heap');
  }

  /** Popping the least entry e of a key not yet visited, away from the
      end, settles e's key at e's score and pushes its moves. */
  lemma SettleStep(maze: Maze, s: Key, end: Pos, heap: multiset<Entry>, best: map<Key, nat>, e: Entry)
    requires Search(maze, s, end, heap, best) && Least(heap, e)
    requires e.key !in best && (e.key.x, e.key.y) != end
    ensures Search(maze, s, end, heap - multiset{e} + Expand(maze, e), best[e.key := e.score])
  {
    SoundStep(maze, s, heap, e);
    SettledStep(maze, s, heap, best, e);
    WaitingStep(maze, s, heap, best, e);
  }

  /** Popping an entry of a key already visited changes nothing else. */
  lemma SkipStep(maze: Maze, s: Key, end: Pos, heap: multiset<Entry>, best: map<Key, nat>, e: Entry)
    requires Search(maze, s, end, heap, best) && e in heap && e.key in best
    ensures Search(maze, s, end, heap - multiset{e}, best)
  {
    forall k, q, w | k in best && Move(maze, k, q, w) && q !in best
      ensures Entry(best[k] + w, q) in heap - multiset{e}
    {
      assert Entry(best[k] + w, q) in heap && q != e.key;
    }
  }

  /** The least entry popped on the end carries the lowest score of a walk
      to the end. */
  lemma EndStep(maze: Maze, s: Key, end: Pos, heap: multiset<Entry>, best: map<Key, nat>, e: Entry)
    requires Search(maze, s, end, heap, best) && Least(heap, e) && (e.key.x, e.key.y) == end
    ensures Lowest(maze, s, end, e.score)
  {
    assert Key(end.0, end.1, e.key.di) == e.key;
    forall d: Dir, c | Walk(maze, s, Key(end.0, end.1, d), c)
      ensures e.score <= c
    {
      Frontier(maze, s, heap, best, Key(end.0, end.1, d), c);
    }
  }

  /** With the heap empty, no walk reaches the end. */
  lemma EmptyStep(maze: Maze, s: Key, end: Pos, best: map<Key, nat>)
    requires Search(maze, s, end, multiset{}, best)
    ensures Unreachable(maze, s, end)
  {
    forall d: Dir, c | Walk(maze, s, Key(end.0, end.1, d), c)
      ensures false
    {
      Frontier(maze, s, multiset{}, best, Key(end.0, end.1, d), c);
    }
  }

  /** c is the lowest score of a walk from s to the end, in any facing. */
  ghost predicate Lowest(maze: Maze, s: Key, end: Pos, c: nat)
  {
    (exists d: Dir :: Walk(maze, s, Key(end.0, end.1, d), c)) &&
    forall d: Dir, c' :: Walk(maze, s, Key(end.0, end.1, d), c') ==> c <= c'
  }

  /** No walk from s reaches the end. */
  ghost predicate Unreachable(maze: Maze, s: Key, end: Pos)
  {
    forall d: Dir, c :: !Walk(maze, s, Key(end.0, end.1, d), c)
  }

  /** The keys the search can meet: every facing on every cell of the maze
      and on the start. */
  function Universe(maze: Maze, s: Key): set<Key>
  {
    (set x, y, d: Dir | 0 <= x < Width(maze) && 0 <= y < |maze| && 0 <= d < 4 :: Key(x, y, d)) +
    (set d: Dir | 0 <= d < 4 :: Key(s.x, s.y, d))
  }

  lemma ExpandInUniverse(maze: Maze, s: Key, e: Entry)
    requires e.key in Universe(maze, s)
    ensures forall f :: f in Expand(maze, e) ==> f.key in Universe(maze, s)
  {
    var k := e.key;
    var l, r := Key(k.x, k.y, Left(k.di)), Key(k.x, k.y, Right(k.di));
    if k.x == s.x && k.y == s.y {
      assert l.x == s.x && l.y == s.y && r.x == s.x && r.y == s.y;
    }
  }

  /** The keys of heap all lie in keys. */
  ghost predicate Within(heap: multiset<Entry>, keys: set<Key>)
  {
    forall e :: e in heap ==> e.key in keys
  }

  /** Expanding a key of the universe not yet visited keeps the heap in the
      universe and leaves one key fewer to visit. */
  lemma WithinStep(maze: Maze, s: Key, keys: set<Key>, heap: multiset<Entry>, visited: set<Key>, e: Entry)
    requires keys == Universe(maze, s) && Within(heap, keys) && visited <= keys
    requires e in heap && e.key !in visited
    ensures Within(heap - multiset{e} + Expand(maze, e), keys)
    ensures visited + {e.key} <= keys && |keys - (visited + {e.key})| < |keys - visited|
  {
    ExpandInUniverse(maze, s, e);
    assert keys - visited == (keys - (visited + {e.key})) + {e.key};
  }

  /** Lines 76-117 for a key not yet visited: mark it visited and push its
      moves. */
  method Visit(maze: Maze, s: Key, end: Pos, heap: multiset<Entry>, visited: set<Key>, e: Entry,
               ghost best: map<Key, nat>, ghost keys: set<Key>)
    returns (heap': multiset<Entry>, visited': set<Key>, ghost best': map<Key, nat>)
    requires keys == Universe(maze, s) && Within(heap, keys)
    requires Search(maze, s, end, heap, best) && visited == best.Keys && visited <= keys
    requires Least(heap, e) && e.key !in visited && (e.key.x, e.key.y) != end
    ensures Search(maze, s, end, heap', best') && visited' == best'.Keys && visited' <= keys
    ensures Within(heap', keys) && |keys - visited'| < |keys - visited|
  {
    SettleStep(maze, s, end, heap, best, e);
    WithinStep(maze, s, keys, heap, visited, e);
    heap' := heap - multiset{e} + Expand(maze, e);
    visited' := visited + {e.key};
    best' := best[e.key := e.score];
  }

  /** The loop of lines 64-118 from s: the heap is a multiset, a pop takes
      an entry of least score, and `visited` holds the expanded keys. */
  method Cheapest(maze: Maze, s: Key, end: Pos) returns (r: Option<nat>)
    ensures r.Some? ==> Lowest(maze, s, end, r.value)
    ensures r.None? ==> Unreachable(maze, s, end)
  {
    var heap := multiset{Entry(0, s)};
    var visited: set<Key> := {};
    ghost var best: map<Key, nat> := map[];
    ghost var keys := Universe(maze, s);
    assert Walk(maze, s, s, 0);
    assert s in keys;
    while |heap| > 0
      invariant visited == best.Keys && visited <= keys
      invariant Search(maze, s, end, heap, best) && Within(heap, keys)
      decreases |keys - visited|, |heap|
    {
      LeastExists(heap);
      var e :| Least(heap, e);
      if (e.key.x, e.key.y) == end {
        EndStep(maze, s, end, heap, best, e);
        return Some(e.score);
      }
      if e.key in visited {
        SkipStep(maze, s, end, heap, best, e);
        heap := heap - multiset{e};
      } else {
        heap, visited, best := Visit(maze, s, end, heap, visited, e, best, keys);
      }
    }
    EmptyStep(maze, s, end, best);
    return None;
  }

  /** Where the search starts: on 'S', facing east (lines 56-62). */
  function StartKey(maze: Maze): Key
  {
    var p := LastOf(maze, 'S');
    Key(p.0, p.1, 0)
  }

  /** `part_one`: the lowest score of a walk from 'S' to 'E', or None when
      no walk reaches 'E'. */
  method PartOne(maze: Maze) returns (r: Option<nat>)
    requires |maze| > 0 && Rectangular(maze)
    ensures r.Some? ==> Lowest(maze, StartKey(maze), LastOf(maze, 'E'), r.value)
    ensures r.None? ==> Unreachable(maze, StartKey(maze), LastOf(maze, 'E'))
  {
    var start, end := FindMarks(maze);
    r := Cheapest(maze, Key(start.0, start.1, 0), end);
  }

  // ---------------------------------------------------------------------------
  // Part two: every path of the lowest score

  /** The cell one step from a in direction d. */
  function Shift(a: Pos, d: Dir): Pos
  {
    (a.0 + Dx(d), a.1 + Dy(d))
  }

  /** The direction of the step from a to b, when b is next to a. */
  function DirFrom(a: Pos, b: Pos): Dir
  {
    if b == (a.0 + 1, a.1) then 0
    else if b == (a.0, a.1 + 1) then 1
    else if b == (a.0 - 1, a.1) then 2
    else 3
  }

  lemma DirFromShift(a: Pos, d: Dir)
    ensures DirFrom(a, Shift(a, d)) == d
  {
  }

  /** The reverse of d. */
  function Opposite(d: Dir): Dir
  {
    if d < 2 then d + 2 else d - 2
  }

  /** The reverse is the source's `(prev_di + 2) % 4` (line 179), and a
      direction other than d and its reverse is a quarter turn from d. */
  lemma OppositeTurns(d: Dir, e: Dir)
    ensures Opposite(d) == (d + 2) % 4
    ensures e != d && e != Opposite(d) ==> e == Left(d) || e == Right(d)
  {
  }

  /** Which way a path faces at its last cell: east until its first step. */
  function Heading(path: seq<Pos>): Dir
  {
    if |path| < 2 then 0 else DirFrom(path[|path| - 2], path[|path| - 1])
  }

  /** A part-two step from a to b while facing h: onto the next cell in some
      direction, not straight back, and not onto a wall or out of the maze. */
  predicate Step(maze: Maze, h: Dir, a: Pos, b: Pos)
  {
    var d := DirFrom(a, b);
    b == Shift(a, d) && d != Opposite(h) && Open(maze, b.0, b.1)
  }

  /** path is a route from start made of part-two steps. */
  predicate Route(maze: Maze, start: Pos, path: seq<Pos>)
    decreases |path|
  {
    |path| > 0 &&
    if |path| == 1 then path[0] == start
    else
      var prefix := path[..|path| - 1];
      Route(maze, start, prefix) && Step(maze, Heading(prefix), path[|path| - 2], path[|path| - 1])
  }

  /** The part-two score of a path: 1 for a step straight on, 1001 for a
      step after a turn (lines 183-187). */
  function Score(path: seq<Pos>): nat
    decreases |path|
  {
    if |path| < 2 then 0
    else
      var prefix := path[..|path| - 1];
      Score(prefix) + if DirFrom(path[|path| - 2], path[|path| - 1]) == Heading(prefix) then 1 else 1001
  }

  /** Every cell of a route is its start or an open cell. */
  lemma {:induction false} RouteOpen(maze: Maze, start: Pos, path: seq<Pos>)
    requires Route(maze, start, path)
    ensures forall k :: 0 <= k < |path| ==> path[k] == start || Open(maze, path[k].0, path[k].1)
    decreases |path|
  {
    if |path| > 1 {
      var prefix := path[..|path| - 1];
      RouteOpen(maze, start, prefix);
      forall k | 0 <= k < |path|
        ensures path[k] == start || Open(maze, path[k].0, path[k].1)
      {
        if k < |path| - 1 {
          assert path[k] == prefix[k];
        }
      }
    }
  }

  /** A route of part two is a walk of part one with the same score: a step
      straight on is a move forward, a step after a turn is a turn and a
      move forward. */
  lemma {:induction false} RouteWalk(maze: Maze, start: Pos, path: seq<Pos>)
    requires Route(maze, start, path)
    ensures Walk(maze, Key(start.0, start.1, 0), Key(path[|path| - 1].0, path[|path| - 1].1, Heading(path)), Score(path))
    decreases |path|
  {
    var s := Key(start.0, start.1, 0);
    if |path| == 1 {
      assert Walk(maze, s, s, 0);
    } else {
      var prefix := path[..|path| - 1];
      var a, b := path[|path| - 2], path[|path| - 1];
      var h := Heading(prefix);
      assert prefix[|prefix| - 1] == a;
      RouteWalk(maze, start, prefix);
      var d := DirFrom(a, b);
      var k := Key(a.0, a.1, h);
      if d == h {
        assert Move(maze, k, Key(b.0, b.1, d), 1);
        WalkMove(maze, s, k, Score(prefix), Key(b.0, b.1, d), 1);
      } else {
        OppositeTurns(h, d);
        var t := Key(a.0, a.1, d);
        assert Move(maze, k, t, 1000);
        WalkMove(maze, s, k, Score(prefix), t, 1000);
        assert Move(maze, t, Key(b.0, b.1, d), 1);
        WalkMove(maze, s, t, Score(prefix) + 1000, Key(b.0, b.1, d), 1);
      }
    }
  }

  /** So no route to the end scores below the lowest score of part one. */
  lemma RouteAtLeast(maze: Maze, start: Pos, end: Pos, path: seq<Pos>, c: nat)
    requires Lowest(maze, Key(start.0, start.1, 0), end, c)
    requires Route(maze, start, path) && path[|path| - 1] == end
    ensures c <= Score(path)
  {
    RouteWalk(maze, start, path);
  }

  /** A part-two heap element: a key, its score and the path that led to it. */
  datatype Tracked = Tracked(score: nat, key: Key, path: seq<Pos>)

  /** The path of t is a route from start to t's cell, facing t's way, with
      t's score. */
  predicate Tracks(maze: Maze, start: Pos, t: Tracked)
  {
    Route(maze, start, t.path) && t.path[|t.path| - 1] == (t.key.x, t.key.y) &&
    Heading(t.path) == t.key.di && Score(t.path) == t.score
  }

  /** A step from a tracked element gives a tracked element. */
  lemma TracksStep(maze: Maze, start: Pos, t: Tracked, di: Dir)
    requires Tracks(maze, start, t) && di != Opposite(t.key.di)
    requires Open(maze, t.key.x + Dx(di), t.key.y + Dy(di))
    ensures Tracks(maze, start, Tracked(if di == t.key.di then t.score + 1 else t.score + 1001,
                                        Key(t.key.x + Dx(di), t.key.y + Dy(di), di),
                                        t.path + [(t.key.x + Dx(di), t.key.y + Dy(di))]))
  {
    var a := (t.key.x, t.key.y);
    var path := t.path + [Shift(a, di)];
    assert path[..|path| - 1] == t.path;
    DirFromShift(a, di);
  }

  /** An element of least score in heap. */
  predicate Front(heap: multiset<Tracked>, t: Tracked)
  {
    t in heap && forall f :: f in heap ==> t.score <= f.score
  }

  lemma {:induction false} FrontExists(heap: multiset<Tracked>)
    requires |heap| > 0
    ensures exists t :: Front(heap, t)
    decreases |heap|
  {
    var x :| x in heap;
    var rest := heap - multiset{x};
    assert forall f :: f in heap ==> f == x || f in rest;
    if |rest| == 0 {
      assert Front(heap, x);
    } else {
      FrontExists(rest);
      var m :| Front(rest, m);
      if m.score <= x.score {
        assert Front(heap, m);
      } else {
        assert Front(heap, x);
      }
    }
  }

  /** The paths kept are routes from start to end, all of score min. */
  ghost predicate Kept(maze: Maze, start: Pos, end: Pos, paths: seq<seq<Pos>>, min: int)
  {
    forall i :: 0 <= i < |paths| ==>
      Route(maze, start, paths[i]) && paths[i][|paths[i]| - 1] == end && Score(paths[i]) == min
  }

  /** The paths kept score no less than part one's lowest score. */
  lemma KeptAtLeast(maze: Maze, start: Pos, end: Pos, paths: seq<seq<Pos>>, min: int, c: nat)
    requires Kept(maze, start, end, paths, min) && paths != []
    requires Lowest(maze, Key(start.0, start.1, 0), end, c)
    ensures c <= min
  {
    RouteAtLeast(maze, start, end, paths[0], c);
  }

  /** A route begins at its start. */
  lemma {:induction false} RouteStarts(maze: Maze, start: Pos, path: seq<Pos>)
    requires Route(maze, start, path)
    ensures path[0] == start
    decreases |path|
  {
    if |path| > 1 {
      RouteStarts(maze, start, path[..|path| - 1]);
    }
  }

  /** Once a path is kept, both the start and the end are among its tiles. */
  lemma KeptTiles(maze: Maze, start: Pos, end: Pos, paths: seq<seq<Pos>>, min: int)
    requires Kept(maze, start, end, paths, min) && paths != []
    ensures start in Tiles(paths) && end in Tiles(paths)
  {
    RouteStarts(maze, start, paths[0]);
    assert paths[0][0] in Tiles(paths);
    assert paths[0][|paths[0]| - 1] in Tiles(paths);
  }

  /** Lines 177-202: push the steps from t that are not straight back, stay
      in the maze, avoid walls and score at most 1000 above the last push
      onto the same key, recording each pushed score in seen. */
  method Branch(maze: Maze, start: Pos, seen: array<int>, heap: multiset<Tracked>, t: Tracked)
    returns (heap': multiset<Tracked>)
    requires |maze| > 0 && Rectangular(maze) && seen.Length == |maze[0]| * |maze| * 4
    requires Tracks(maze, start, t)
    ensures heap <= heap'
    ensures forall f :: f in heap' - heap ==> Tracks(maze, start, f) && t.score < f.score
    modifies seen
  {
    var width, height := |maze[0]|, |maze|;
    heap' := heap;
    for di := 0 to 4
      invariant heap <= heap'
      invariant forall f :: f in heap' - heap ==> Tracks(maze, start, f) && t.score < f.score
    {
      if Opposite(t.key.di) == di {
        continue;
      }
      var nscore := if di == t.key.di then t.score + 1 else t.score + 1001;
      var (dx, dy) := Dirs[di];
      DirsSteps(di);
      var nx, ny := t.key.x + dx, t.key.y + dy;
      if 0 <= nx < width && 0 <= ny < height {
        FlatIndexInGrid(ny, nx, width, height);
        var gi := FlatIndex(ny, nx, width);
        var si := gi * 4 + di;
        if maze[ny][nx] != '#' && nscore <= seen[si] + 1000 {
          seen[si] := nscore;
          TracksStep(maze, start, t, di);
          var u := Tracked(nscore, Key(nx, ny, di), t.path + [(nx, ny)]);
          assert heap' + multiset{u} - heap == (heap' - heap) + multiset{u};
          heap' := heap' + multiset{u};
        }
      }
    }
  }

  /** Every element of heap is tracked and scores at least floor. */
  ghost predicate Pending(maze: Maze, start: Pos, heap: multiset<Tracked>, floor: int)
  {
    forall f :: f in heap ==> Tracks(maze, start, f) && floor <= f.score
  }

  /** Popping an element of least score leaves the rest above it. */
  lemma PendingPop(maze: Maze, start: Pos, heap: multiset<Tracked>, floor: int, t: Tracked)
    requires Pending(maze, start, heap, floor) && Front(heap, t)
    ensures Tracks(maze, start, t) && floor <= t.score
    ensures Pending(maze, start, heap - multiset{t}, t.score)
  {
  }

  /** Pushing the steps from t keeps the heap above t's score. */
  lemma PendingPush(maze: Maze, start: Pos, heap: multiset<Tracked>, t: Tracked, heap': multiset<Tracked>)
    requires Pending(maze, start, heap, t.score) && heap <= heap'
    requires forall f :: f in heap' - heap ==> Tracks(maze, start, f) && t.score < f.score
    ensures Pending(maze, start, heap', t.score)
  {
    forall f | f in heap'
      ensures Tracks(maze, start, f) && t.score <= f.score
    {
      if f !in heap {
        assert f in heap' - heap;
      }
    }
  }

  /** A path kept with the score of the paths kept before it. */
  lemma KeptAdd(maze: Maze, start: Pos, end: Pos, paths: seq<seq<Pos>>, min: int, t: Tracked)
    requires Kept(maze, start, end, paths, min) && Tracks(maze, start, t) && (t.key.x, t.key.y) == end
    requires paths != [] ==> t.score == min
    ensures Kept(maze, start, end, paths + [t.path], t.score)
  {
  }

  /** Lines 144-204 from start, for at most fuel pops: every pop takes an
      element of least score; a pop on the end with a score above the first
      one stops the search, and one with that score keeps its path. */
  method KeptPaths(maze: Maze, start: Pos, end: Pos, fuel: nat) returns (paths: seq<seq<Pos>>, min: int)
    requires |maze| > 0 && Rectangular(maze)
    ensures Kept(maze, start, end, paths, min)
    ensures paths == [] ==> min == UsizeMax
  {
    var width, height := |maze[0]|, |maze|;
    var seen := new int[width * height * 4](_ => UsizeMax - 1000);
    paths, min := [], UsizeMax;
    var heap := multiset{Tracked(0, Key(start.0, start.1, 0), [start])};
    ghost var floor: int := 0;
    var left := fuel;
    while left > 0 && |heap| > 0
      invariant Pending(maze, start, heap, floor)
      invariant Kept(maze, start, end, paths, min)
      invariant paths == [] ==> min == UsizeMax
      invariant paths != [] ==> min <= floor
      decreases left
    {
      left := left - 1;
      FrontExists(heap);
      var t :| Front(heap, t);
      PendingPop(maze, start, heap, floor, t);
      heap := heap - multiset{t};
      floor := t.score;
      if (t.key.x, t.key.y) == end {
        if t.score > min {
          break;
        }
        KeptAdd(maze, start, end, paths, min, t);
        paths, min := paths + [t.path], t.score;
        continue;
      }
      var heap' := Branch(maze, start, seen, heap, t);
      PendingPush(maze, start, heap, t, heap');
      heap := heap';
    }
  }

  /** Every cell on some path of paths. */
  function Tiles(paths: seq<seq<Pos>>): set<Pos>
  {
    set i, k | 0 <= i < |paths| && 0 <= k < |paths[i]| :: paths[i][k]
  }

  /** Lines 206-213: the set of the cells of the kept paths, and its size. */
  method CountTiles(paths: seq<seq<Pos>>) returns (n: nat)
    ensures n == |Tiles(paths)|
  {
    var visited: set<Pos> := {};
    for i := 0 to |paths|
      invariant visited == Tiles(paths[..i])
    {
      for k := 0 to |paths[i]|
        invariant visited == Tiles(paths[..i]) + set j | 0 <= j < k :: paths[i][j]
      {
        visited := visited + {paths[i][k]};
      }
      assert paths[..i + 1][..i] == paths[..i];
      assert visited == Tiles(paths[..i + 1]);
    }
    assert paths[..|paths|] == paths;
    n := |visited|;
  }

  /** `part_two`: the number of cells on the paths the search keeps, all of
      them routes from 'S' to 'E' of one score, with at most fuel pops. */
  method PartTwo(maze: Maze, fuel: nat) returns (r: nat)
    requires |maze| > 0 && Rectangular(maze)
    ensures exists paths, min :: Kept(maze, LastOf(maze, 'S'), LastOf(maze, 'E'), paths, min) && r == |Tiles(paths)|
  {
    var start, end := FindMarks(maze);
    var paths, min := KeptPaths(maze, start, end, fuel);
    r := CountTiles(paths);
  }
}
