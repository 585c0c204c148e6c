// Day 21: a chain of robots types a door code. The first robot stands at a
// numeric keypad and every later one at a directional keypad that steers the
// robot before it. The cost of a key sequence at one keypad is the number of
// presses it takes at the last keypad, found by trying every shortest
// movement between two keys and remembering the cost of each step.

module Day21 {
  import opened Common
  import opened Text

  /** `Vec2<usize>`: a column x and a row y on a keypad. */
  datatype Vec2 = Vec2(x: nat, y: nat)

  /** A keypad: rows of three keys, ' ' for the gap. */
  type Keypad = seq<string>

  const Numeric: Keypad := ["789", "456", "123", " 0A"]

  const Direction: Keypad := [" ^A", "<v>"]

  /** The two keypads a robot can stand at. */
  datatype Pad = NumericPad | DirectionPad

  /** The keys of a keypad. */
  function Keys(pad: Pad): (kp: Keypad)
    ensures Rows3(kp) && |kp| <= 4 && Find(kp, 'A').Some?
  {
    if pad == NumericPad then Numeric else Direction
  }

  /** p is a key position of kp. */
  predicate InPad(kp: Keypad, p: Vec2)
  {
    p.y < |kp| && p.x < |kp[p.y]|
  }

  /** The keypads of a chain: every one after the first is directional
      (lines 151-155 and 167-171). */
  predicate Stacked(kps: seq<Pad>)
  {
    forall i :: 1 <= i < |kps| ==> kps[i] == DirectionPad
  }

  // ---------------------------------------------------------------------------
  // The memo key

  /** `hash`: the five fields packed at bits 0, 8, 16, 24 and 32. The
      source ORs the shifted fields; with each coordinate below 256 that is
      their sum. */
  function Hash(pos: Vec2, next: Vec2, n: nat): nat
  {
    pos.x + 0x100 * (pos.y + 0x100 * (next.x + 0x100 * (next.y + 0x100 * n)))
  }

  /** The packing is the sum of the shifted fields. */
  lemma HashShifts(pos: Vec2, next: Vec2, n: nat)
    ensures Hash(pos, next, n) ==
      pos.x + pos.y * 0x100 + next.x * 0x1_0000 + next.y * 0x100_0000 + n * 0x1_0000_0000
  {
  }

  lemma SplitByte(a: int, b: int, c: int, d: int)
    requires 0 <= a < 0x100 && 0 <= c < 0x100 && a + 0x100 * b == c + 0x100 * d
    ensures a == c && b == d
  {
    DivUnique(a + 0x100 * b, 0x100, b, a);
    DivUnique(c + 0x100 * d, 0x100, d, c);
  }

  /** With coordinates below 256, different steps have different keys. */
  lemma HashInjective(pos: Vec2, next: Vec2, n: nat, pos': Vec2, next': Vec2, n': nat)
    requires pos.x < 0x100 && pos.y < 0x100 && next.x < 0x100 && next.y < 0x100
    requires pos'.x < 0x100 && pos'.y < 0x100 && next'.x < 0x100 && next'.y < 0x100
    requires Hash(pos, next, n) == Hash(pos', next', n')
    ensures pos == pos' && next == next' && n == n'
  {
    SplitByte(pos.x, pos.y + 0x100 * (next.x + 0x100 * (next.y + 0x100 * n)),
              pos'.x, pos'.y + 0x100 * (next'.x + 0x100 * (next'.y + 0x100 * n')));
    SplitByte(pos.y, next.x + 0x100 * (next.y + 0x100 * n), pos'.y, next'.x + 0x100 * (next'.y + 0x100 * n'));
    SplitByte(next.x, next.y + 0x100 * n, next'.x, next'.y + 0x100 * n');
    SplitByte(next.y, n, next'.y, n');
  }

  // ---------------------------------------------------------------------------
  // Finding keys and moving between them

  /** The first index of c in row, as `position` finds it. */
  function IndexOf(row: string, c: char): (r: Option<nat>)
    ensures r.Some? ==> r.value < |row| && row[r.value] == c && forall j :: 0 <= j < r.value ==> row[j] != c
    ensures r.None? <==> c !in row
  {
    if |row| == 0 then None
    else if row[0] == c then Some(0)
    else
      match IndexOf(row[1..], c)
      case None => None
      case Some(j) => Some(j + 1)
  }

  /** The key c on kp, from row y on: the first row holding it, and its
      first column there. */
  function FindFrom(kp: Keypad, c: char, y: nat): (r: Option<Vec2>)
    ensures r.Some? ==> InPad(kp, r.value) && kp[r.value.y][r.value.x] == c
    ensures r.None? <==> forall i :: y <= i < |kp| ==> c !in kp[i]
    decreases |kp| - y
  {
    if y >= |kp| then None
    else
      match IndexOf(kp[y], c)
      case Some(x) => Some(Vec2(x, y))
      case None => FindFrom(kp, c, y + 1)
  }

  /** The `find_map` of lines 120-134: None where the source's `unwrap`
      panics. */
  function Find(kp: Keypad, c: char): Option<Vec2>
  {
    FindFrom(kp, c, 0)
  }

  /** Every key of s is on kp. */
  predicate OnPad(kp: Keypad, s: string)
  {
    forall i :: 0 <= i < |s| ==> Find(kp, s[i]).Some?
  }

  /** The keys a route is made of. */
  predicate Moves(s: string)
  {
    forall i :: 0 <= i < |s| ==> s[i] in "<>^v"
  }

  /** A route followed by `A` can be typed on the directional keypad. */
  lemma MovesOnDirection(s: string)
    requires Moves(s)
    ensures OnPad(Direction, s + "A")
  {
    assert Find(Direction, '<').Some? && Find(Direction, '>').Some? && Find(Direction, '^').Some?;
    assert Find(Direction, 'v').Some? && Find(Direction, 'A').Some?;
    forall i | 0 <= i < |s + "A"|
      ensures Find(Direction, (s + "A")[i]).Some?
    {
      if i < |s| {
        assert (s + "A")[i] == s[i];
      }
    }
  }

  /** Every row of kp has three keys, as `[[char; 3]]` says. */
  predicate Rows3(kp: Keypad)
  {
    forall i :: 0 <= i < |kp| ==> |kp[i]| == 3
  }

  /** The manhattan distance of lines 54-55. */
  function Dist(p: Vec2, q: Vec2): nat
  {
    Abs(p.x - q.x) + Abs(p.y - q.y)
  }

  /** Where a move leaves p. */
  function Step(p: Vec2, m: char): Vec2
  {
    match m
    case '>' => Vec2(p.x + 1, p.y)
    case '<' => Vec2(if p.x > 0 then p.x - 1 else 0, p.y)
    case 'v' => Vec2(p.x, p.y + 1)
    case _ => Vec2(p.x, if p.y > 0 then p.y - 1 else 0)
  }

  /** Where the moves of s lead from p. */
  function Follow(p: Vec2, s: string): Vec2
    decreases |s|
  {
    if |s| == 0 then p else Follow(Step(p, s[0]), s[1..])
  }

  /** Each key s passes over before its end is on kp and not the gap. */
  predicate Clear(kp: Keypad, p: Vec2, s: string)
    decreases |s|
  {
    |s| == 0 || (InPad(kp, p) && kp[p.y][p.x] != ' ' && Clear(kp, Step(p, s[0]), s[1..]))
  }

  /** Every route is made of moves. */
  predicate AllMoves(routes: seq<string>)
  {
    forall i :: 0 <= i < |routes| ==> Moves(routes[i])
  }

  lemma AllMovesConcat(a: seq<string>, b: seq<string>)
    requires AllMoves(a) && AllMoves(b)
    ensures AllMoves(a + b)
  {
    forall i | 0 <= i < |a + b|
      ensures Moves((a + b)[i])
    {
      if i < |a| {
        assert (a + b)[i] == a[i];
      } else {
        assert (a + b)[i] == b[i - |a|];
      }
    }
  }

  /** c put before each of the routes. */
  function Prefixed(c: char, routes: seq<string>): (r: seq<string>)
    ensures |r| == |routes| && forall i :: 0 <= i < |r| ==> r[i] == [c] + routes[i]
    ensures c in "<>^v" && AllMoves(routes) ==> AllMoves(r)
  {
    var r := seq(|routes|, i requires 0 <= i < |routes| => [c] + routes[i]);
    assert c in "<>^v" && AllMoves(routes) ==> AllMoves(r) by {
      if c in "<>^v" && AllMoves(routes) {
        forall i | 0 <= i < |r|
          ensures Moves(r[i])
        {
          assert Moves(routes[i]);
          assert forall j :: 1 <= j < |r[i]| ==> r[i][j] == routes[i][j - 1];
        }
      }
    }
    r
  }

  /** The routes the search of lines 60-104 completes from p to next: a move
      along x that approaches next, and a move along y that does, in every
      order, giving up on a route that stands on the gap before next. */
  function Routes(kp: Keypad, p: Vec2, next: Vec2): (rs: seq<string>)
    requires Rows3(kp) && InPad(kp, p) && InPad(kp, next)
    ensures AllMoves(rs)
    decreases Dist(p, next), 1
  {
    if p == next then [""]
    else if kp[p.y][p.x] == ' ' then []
    else
      var xs, ys := Across(kp, p, next), Down(kp, p, next);
      AllMovesConcat(xs, ys);
      xs + ys
  }

  /** The routes from p that start with a move along x towards next. */
  function Across(kp: Keypad, p: Vec2, next: Vec2): (rs: seq<string>)
    requires Rows3(kp) && InPad(kp, p) && InPad(kp, next)
    ensures AllMoves(rs)
    decreases Dist(p, next), 0
  {
    if p.x < next.x then Prefixed('>', Routes(kp, Vec2(p.x + 1, p.y), next))
    else if p.x > next.x then Prefixed('<', Routes(kp, Vec2(p.x - 1, p.y), next))
    else []
  }

  /** The routes from p that start with a move along y towards next. */
  function Down(kp: Keypad, p: Vec2, next: Vec2): (rs: seq<string>)
    requires Rows3(kp) && InPad(kp, p) && InPad(kp, next)
    ensures AllMoves(rs)
    decreases Dist(p, next), 0
  {
    if p.y < next.y then Prefixed('v', Routes(kp, Vec2(p.x, p.y + 1), next))
    else if p.y > next.y then Prefixed('^', Routes(kp, Vec2(p.x, p.y - 1), next))
    else []
  }

  /** r leads from p to next in as many moves as they are apart, passing
      over keys only. */
  predicate Walks(kp: Keypad, p: Vec2, next: Vec2, r: string)
  {
    |r| == Dist(p, next) && Follow(p, r) == next && Clear(kp, p, r)
  }

  lemma WalksPrefixed(kp: Keypad, p: Vec2, next: Vec2, c: char, routes: seq<string>)
    requires InPad(kp, p) && kp[p.y][p.x] != ' ' && Dist(Step(p, c), next) + 1 == Dist(p, next)
    requires forall r :: r in routes ==> Walks(kp, Step(p, c), next, r)
    ensures forall r :: r in Prefixed(c, routes) ==> Walks(kp, p, next, r)
  {
    forall r | r in Prefixed(c, routes)
      ensures Walks(kp, p, next, r)
    {
      var i :| 0 <= i < |routes| && r == [c] + routes[i];
      assert routes[i] in routes;
      assert r[0] == c && r[1..] == routes[i];
    }
  }

  /** Every route of the search is a shortest walk from p to next that
      does not pass over the gap. */
  lemma {:induction false} RoutesWalk(kp: Keypad, p: Vec2, next: Vec2)
    requires Rows3(kp) && InPad(kp, p) && InPad(kp, next)
    ensures forall r :: r in Routes(kp, p, next) ==> Walks(kp, p, next, r)
    decreases Dist(p, next), 1
  {
    if p == next {
      assert Routes(kp, p, next) == [""];
    } else if kp[p.y][p.x] != ' ' {
      AcrossWalk(kp, p, next);
      DownWalk(kp, p, next);
    }
  }

  lemma {:induction false} AcrossWalk(kp: Keypad, p: Vec2, next: Vec2)
    requires Rows3(kp) && InPad(kp, p) && InPad(kp, next) && kp[p.y][p.x] != ' '
    ensures forall r :: r in Across(kp, p, next) ==> Walks(kp, p, next, r)
    decreases Dist(p, next), 0
  {
    if p.x < next.x {
      RoutesWalk(kp, Vec2(p.x + 1, p.y), next);
      WalksPrefixed(kp, p, next, '>', Routes(kp, Vec2(p.x + 1, p.y), next));
    } else if p.x > next.x {
      RoutesWalk(kp, Vec2(p.x - 1, p.y), next);
      WalksPrefixed(kp, p, next, '<', Routes(kp, Vec2(p.x - 1, p.y), next));
    }
  }

  lemma {:induction false} DownWalk(kp: Keypad, p: Vec2, next: Vec2)
    requires Rows3(kp) && InPad(kp, p) && InPad(kp, next) && kp[p.y][p.x] != ' '
    ensures forall r :: r in Down(kp, p, next) ==> Walks(kp, p, next, r)
    decreases Dist(p, next), 0
  {
    if p.y < next.y {
      RoutesWalk(kp, Vec2(p.x, p.y + 1), next);
      WalksPrefixed(kp, p, next, 'v', Routes(kp, Vec2(p.x, p.y + 1), next));
    } else if p.y > next.y {
      RoutesWalk(kp, Vec2(p.x, p.y - 1), next);
      WalksPrefixed(kp, p, next, '^', Routes(kp, Vec2(p.x, p.y - 1), next));
    }
  }

  // ---------------------------------------------------------------------------
  // What a key sequence costs

  /** `cost_recursive` without the memo: with no keypad left a sequence
      costs its length; otherwise the steps between its keys, from `A`. */
  function PressCost(kps: seq<Pad>, presses: string): nat
    requires Stacked(kps) && (|kps| > 0 ==> OnPad(Keys(kps[0]), presses))
    decreases |kps|, 3, 0
  {
    if |kps| == 0 then |presses|
    else PressesFrom(kps, Find(Keys(kps[0]), 'A').value, presses)
  }

  /** The steps of presses from the key at p. */
  function PressesFrom(kps: seq<Pad>, p: Vec2, presses: string): nat
    requires Stacked(kps) && |kps| > 0 && InPad(Keys(kps[0]), p) && OnPad(Keys(kps[0]), presses)
    decreases |kps|, 2, |presses|
  {
    if |presses| == 0 then 0
    else
      var q := Find(Keys(kps[0]), presses[0]).value;
      StepCost(kps, p, q) + PressesFrom(kps, q, presses[1..])
  }

  /** `cost_step` without the memo and without the pruning of lines 53-58:
      the cheapest route from pos to next, followed by `A`, at the next
      keypad; `usize::MAX` when there is none. */
  function StepCost(kps: seq<Pad>, pos: Vec2, next: Vec2): nat
    requires Stacked(kps) && |kps| > 0 && InPad(Keys(kps[0]), pos) && InPad(Keys(kps[0]), next)
    decreases |kps|, 1, 0
  {
    Cheapest(kps, Routes(Keys(kps[0]), pos, next))
  }

  /** `cost.min(..)` over routes, from `usize::MAX`. */
  function Cheapest(kps: seq<Pad>, routes: seq<string>): nat
    requires Stacked(kps) && |kps| > 0 && AllMoves(routes)
    decreases |kps|, 0, |routes|
  {
    if |routes| == 0 then UsizeMax
    else
      Min(RouteCost(kps, routes[0]), Cheapest(kps, routes[1..]))
  }

  function Min(a: int, b: int): int
  {
    if a <= b then a else b
  }

  /** The cost of routes[i] followed by `A`. */
  function RouteCost(kps: seq<Pad>, r: string): nat
    requires Stacked(kps) && |kps| > 0 && Moves(r)
    decreases |kps|, 0, 0
  {
    MovesOnDirection(r);
    PressCost(kps[1..], r + "A")
  }

  /** The cheapest is at most `usize::MAX`. */
  lemma {:induction false} CheapestBounded(kps: seq<Pad>, routes: seq<string>)
    requires Stacked(kps) && |kps| > 0 && AllMoves(routes)
    ensures Cheapest(kps, routes) <= UsizeMax
    decreases |routes|
  {
    if |routes| > 0 {
      CheapestBounded(kps, routes[1..]);
    }
  }

  /** The cheapest is at most the cost of each of the routes. */
  lemma {:induction false} CheapestAtMost(kps: seq<Pad>, routes: seq<string>, r: string)
    requires Stacked(kps) && |kps| > 0 && AllMoves(routes) && r in routes
    ensures Moves(r) && Cheapest(kps, routes) <= RouteCost(kps, r)
    decreases |routes|
  {
    if routes[0] != r {
      assert r in routes[1..];
      CheapestAtMost(kps, routes[1..], r);
    }
  }

  /** Routes that include all of b cost at most what b does. */
  lemma {:induction false} CheapestLe(kps: seq<Pad>, a: seq<string>, b: seq<string>)
    requires Stacked(kps) && |kps| > 0 && AllMoves(a) && AllMoves(b)
    requires forall j :: 0 <= j < |b| ==> b[j] in a
    ensures Cheapest(kps, a) <= Cheapest(kps, b)
    decreases |b|
  {
    if |b| == 0 {
      CheapestBounded(kps, a);
    } else {
      CheapestAtMost(kps, a, b[0]);
      assert forall j :: 0 <= j < |b[1..]| ==> b[1..][j] == b[j + 1];
      CheapestLe(kps, a, b[1..]);
    }
  }

  lemma SameMembers(a: seq<string>, b: seq<string>)
    requires Members(a) == Members(b)
    ensures forall j :: 0 <= j < |b| ==> b[j] in a
    ensures forall i :: 0 <= i < |a| ==> a[i] in b
  {
    var sa, sb := Members(a), Members(b);
    forall j | 0 <= j < |b|
      ensures b[j] in a
    {
      assert b[j] in b;
      assert b[j] in sb;
      assert b[j] in sa;
    }
    forall i | 0 <= i < |a|
      ensures a[i] in b
    {
      assert a[i] in a;
      assert a[i] in sa;
      assert a[i] in sb;
    }
  }

  /** The cheapest of two lists of the same routes is the same. */
  lemma CheapestSame(kps: seq<Pad>, a: seq<string>, b: seq<string>)
    requires Stacked(kps) && |kps| > 0 && AllMoves(a) && AllMoves(b)
    requires Members(a) == Members(b)
    ensures Cheapest(kps, a) == Cheapest(kps, b)
  {
    SameMembers(a, b);
    CheapestLe(kps, a, b);
    CheapestLe(kps, b, a);
  }

  /** One more route: the smaller of the cheapest so far and its cost. */
  lemma {:induction false} CheapestAppend(kps: seq<Pad>, routes: seq<string>, r: string)
    requires Stacked(kps) && |kps| > 0 && Moves(r) && AllMoves(routes)
    ensures AllMoves(routes + [r])
    ensures Cheapest(kps, routes + [r]) == Min(Cheapest(kps, routes), RouteCost(kps, r))
    decreases |routes|
  {
    AllMovesConcat(routes, [r]);
    if |routes| == 0 {
      assert (routes + [r])[1..] == [];
    } else {
      assert (routes + [r])[1..] == routes[1..] + [r];
      CheapestAppend(kps, routes[1..], r);
    }
  }

  // ---------------------------------------------------------------------------
  // The memoised search

  /** The keypads from the k-th last of all on. */
  function Tail(all: seq<Pad>, k: nat): seq<Pad>
    requires k <= |all|
  {
    all[|all| - k..]
  }

  lemma TailStacked(all: seq<Pad>, k: nat)
    requires Stacked(all) && k <= |all|
    ensures Stacked(Tail(all, k))
  {
    var t := Tail(all, k);
    assert forall i :: 0 <= i < |t| ==> t[i] == all[|all| - k + i];
  }

  /** Every key of memo that is the hash of a step from pos to next with k
      keypads left holds that step's cost. */
  ghost predicate Memo(all: seq<Pad>, memo: map<int, nat>)
    requires Stacked(all)
  {
    forall pos: Vec2, next: Vec2, k: nat {:trigger Hash(pos, next, k)} ::
      1 <= k <= |all| && Stacked(Tail(all, k)) && InPad(Keys(all[|all| - k]), pos) && InPad(Keys(all[|all| - k]), next) &&
      Hash(pos, next, k) in memo ==>
        memo[Hash(pos, next, k)] == StepCost(Tail(all, k), pos, next)
  }

  /** Key positions fit in a byte each. */
  lemma KeySmall(pad: Pad, p: Vec2)
    requires InPad(Keys(pad), p)
    ensures p.x < 0x100 && p.y < 0x100
  {
  }

  /** Recording the cost of one step keeps the memo true. */
  lemma MemoInsert(all: seq<Pad>, memo: map<int, nat>, pos: Vec2, next: Vec2, k: nat)
    requires Stacked(all) && Memo(all, memo) && 1 <= k <= |all| && Stacked(Tail(all, k))
    requires InPad(Keys(all[|all| - k]), pos) && InPad(Keys(all[|all| - k]), next)
    ensures Memo(all, memo[Hash(pos, next, k) := StepCost(Tail(all, k), pos, next)])
  {
    var memo' := memo[Hash(pos, next, k) := StepCost(Tail(all, k), pos, next)];
    forall p: Vec2, q: Vec2, j: nat |
      1 <= j <= |all| && Stacked(Tail(all, j)) && InPad(Keys(all[|all| - j]), p) && InPad(Keys(all[|all| - j]), q) &&
      Hash(p, q, j) in memo'
      ensures memo'[Hash(p, q, j)] == StepCost(Tail(all, j), p, q)
    {
      if Hash(p, q, j) == Hash(pos, next, k) {
        KeySmall(all[|all| - j], p);
        KeySmall(all[|all| - j], q);
        KeySmall(all[|all| - k], pos);
        KeySmall(all[|all| - k], next);
        HashInjective(p, q, j, pos, next, k);
      } else {
        assert memo'[Hash(p, q, j)] == memo[Hash(p, q, j)];
      }
    }
  }

  /** s put before each of the routes, as a set. */
  function PrefixAll(s: string, routes: seq<string>): set<string>
  {
    set r | r in routes :: s + r
  }

  lemma PrefixAllConcat(s: string, a: seq<string>, b: seq<string>)
    ensures PrefixAll(s, a + b) == PrefixAll(s, a) + PrefixAll(s, b)
  {
  }

  lemma PrefixAllPrefixed(s: string, c: char, routes: seq<string>)
    ensures PrefixAll(s, Prefixed(c, routes)) == PrefixAll(s + [c], routes)
  {
    forall t | t in PrefixAll(s, Prefixed(c, routes))
      ensures t in PrefixAll(s + [c], routes)
    {
      var i :| 0 <= i < |routes| && t == s + Prefixed(c, routes)[i];
      assert t == (s + [c]) + routes[i];
    }
    forall t | t in PrefixAll(s + [c], routes)
      ensures t in PrefixAll(s, Prefixed(c, routes))
    {
      var i :| 0 <= i < |routes| && t == (s + [c]) + routes[i];
      assert t == s + Prefixed(c, routes)[i];
    }
  }

  /** The routes still to come from a queue entry: its presses followed by
      each route from its key. */
  function Completions(kp: Keypad, e: (Vec2, string), next: Vec2): set<string>
    requires Rows3(kp) && InPad(kp, e.0) && InPad(kp, next)
  {
    PrefixAll(e.1, Routes(kp, e.0, next))
  }

  /** Every entry of the queue stands on kp and has pressed only moves. */
  predicate Queued(kp: Keypad, q: seq<(Vec2, string)>)
  {
    forall i :: 0 <= i < |q| ==> InPad(kp, q[i].0) && Moves(q[i].1)
  }

  /** The routes still to come from the whole queue. */
  function Pending(kp: Keypad, q: seq<(Vec2, string)>, next: Vec2): set<string>
    requires Rows3(kp) && Queued(kp, q) && InPad(kp, next)
    decreases |q|
  {
    if |q| == 0 then {} else Completions(kp, q[0], next) + Pending(kp, q[1..], next)
  }

  lemma {:induction false} PendingConcat(kp: Keypad, a: seq<(Vec2, string)>, b: seq<(Vec2, string)>, next: Vec2)
    requires Rows3(kp) && Queued(kp, a) && Queued(kp, b) && InPad(kp, next)
    ensures Queued(kp, a + b) && Pending(kp, a + b, next) == Pending(kp, a, next) + Pending(kp, b, next)
    decreases |a|
  {
    if |a| > 0 {
      assert (a + b)[1..] == a[1..] + b;
      PendingConcat(kp, a[1..], b, next);
    } else {
      assert a + b == b;
    }
  }

  /** The entries the search queues from e when e has not reached next: one
      move along x towards next, then one along y. */
  function Successors(kp: Keypad, e: (Vec2, string), next: Vec2): (r: seq<(Vec2, string)>)
    requires Rows3(kp) && InPad(kp, e.0) && InPad(kp, next) && Moves(e.1)
    ensures Queued(kp, r) && |r| <= 2
    ensures forall i :: 0 <= i < |r| ==> Dist(r[i].0, next) + 1 == Dist(e.0, next)
  {
    AcrossEntry(kp, e, next) + DownEntry(kp, e, next)
  }

  /** The entry one move along x towards next, if x differs. */
  function AcrossEntry(kp: Keypad, e: (Vec2, string), next: Vec2): (r: seq<(Vec2, string)>)
    requires Rows3(kp) && InPad(kp, e.0) && InPad(kp, next) && Moves(e.1)
    ensures Queued(kp, r) && |r| <= 1
    ensures forall i :: 0 <= i < |r| ==> Dist(r[i].0, next) + 1 == Dist(e.0, next)
  {
    var (p, s) := e;
    if p.x < next.x then [(Vec2(p.x + 1, p.y), s + ">")]
    else if p.x > next.x then [(Vec2(p.x - 1, p.y), s + "<")]
    else []
  }

  /** The entry one move along y towards next, if y differs. */
  function DownEntry(kp: Keypad, e: (Vec2, string), next: Vec2): (r: seq<(Vec2, string)>)
    requires Rows3(kp) && InPad(kp, e.0) && InPad(kp, next) && Moves(e.1)
    ensures Queued(kp, r) && |r| <= 1
    ensures forall i :: 0 <= i < |r| ==> Dist(r[i].0, next) + 1 == Dist(e.0, next)
  {
    var (p, s) := e;
    if p.y < next.y then [(Vec2(p.x, p.y + 1), s + "v")]
    else if p.y > next.y then [(Vec2(p.x, p.y - 1), s + "^")]
    else []
  }

  lemma PendingOne(kp: Keypad, f: (Vec2, string), next: Vec2)
    requires Rows3(kp) && InPad(kp, f.0) && Moves(f.1) && InPad(kp, next)
    ensures Queued(kp, [f]) && Pending(kp, [f], next) == Completions(kp, f, next)
  {
    assert [f][1..] == [];
  }

  lemma AcrossCompletions(kp: Keypad, e: (Vec2, string), next: Vec2)
    requires Rows3(kp) && InPad(kp, e.0) && InPad(kp, next) && Moves(e.1)
    ensures PrefixAll(e.1, Across(kp, e.0, next)) == Pending(kp, AcrossEntry(kp, e, next), next)
  {
    var (p, s) := e;
    if p.x < next.x {
      PrefixAllPrefixed(s, '>', Routes(kp, Vec2(p.x + 1, p.y), next));
      PendingOne(kp, (Vec2(p.x + 1, p.y), s + ">"), next);
    } else if p.x > next.x {
      PrefixAllPrefixed(s, '<', Routes(kp, Vec2(p.x - 1, p.y), next));
      PendingOne(kp, (Vec2(p.x - 1, p.y), s + "<"), next);
    }
  }

  lemma DownCompletions(kp: Keypad, e: (Vec2, string), next: Vec2)
    requires Rows3(kp) && InPad(kp, e.0) && InPad(kp, next) && Moves(e.1)
    ensures PrefixAll(e.1, Down(kp, e.0, next)) == Pending(kp, DownEntry(kp, e, next), next)
  {
    var (p, s) := e;
    if p.y < next.y {
      PrefixAllPrefixed(s, 'v', Routes(kp, Vec2(p.x, p.y + 1), next));
      PendingOne(kp, (Vec2(p.x, p.y + 1), s + "v"), next);
    } else if p.y > next.y {
      PrefixAllPrefixed(s, '^', Routes(kp, Vec2(p.x, p.y - 1), next));
      PendingOne(kp, (Vec2(p.x, p.y - 1), s + "^"), next);
    }
  }

  /** The routes from an entry that has not reached next and does not stand
      on the gap are the routes from the entries it queues. */
  lemma CompletionsSplit(kp: Keypad, e: (Vec2, string), next: Vec2)
    requires Rows3(kp) && InPad(kp, e.0) && InPad(kp, next) && Moves(e.1)
    requires e.0 != next && kp[e.0.y][e.0.x] != ' '
    ensures Completions(kp, e, next) == Pending(kp, Successors(kp, e, next), next)
  {
    PrefixAllConcat(e.1, Across(kp, e.0, next), Down(kp, e.0, next));
    PendingConcat(kp, AcrossEntry(kp, e, next), DownEntry(kp, e, next), next);
    AcrossCompletions(kp, e, next);
    DownCompletions(kp, e, next);
  }

  /** The weight of a queue: 3^d for an entry d steps from next. */
  function Weight(q: seq<(Vec2, string)>, next: Vec2): nat
    decreases |q|
  {
    if |q| == 0 then 0 else Pow(3, Dist(q[0].0, next)) + Weight(q[1..], next)
  }

  lemma {:induction false} WeightConcat(a: seq<(Vec2, string)>, b: seq<(Vec2, string)>, next: Vec2)
    ensures Weight(a + b, next) == Weight(a, next) + Weight(b, next)
    decreases |a|
  {
    if |a| > 0 {
      assert (a + b)[1..] == a[1..] + b;
      WeightConcat(a[1..], b, next);
    } else {
      assert a + b == b;
    }
  }

  /** Replacing an entry by the entries it queues makes the queue lighter. */
  lemma SuccessorsLighter(kp: Keypad, e: (Vec2, string), next: Vec2)
    requires Rows3(kp) && InPad(kp, e.0) && InPad(kp, next) && Moves(e.1) && e.0 != next
    ensures Weight(Successors(kp, e, next), next) < Pow(3, Dist(e.0, next))
  {
    var a, b := AcrossEntry(kp, e, next), DownEntry(kp, e, next);
    var d := Dist(e.0, next);
    assert Pow(3, d) == 3 * Pow(3, d - 1);
    WeightConcat(a, b, next);
    if |a| == 1 {
      assert a[1..] == [];
    }
    if |b| == 1 {
      assert b[1..] == [];
    }
  }

  /** The members of a list of routes. */
  function Members(routes: seq<string>): set<string>
  {
    set r | r in routes
  }

  /** The search takes the front entry off the queue when it has reached
      next: its presses are one route more. */
  lemma Reached(kp: Keypad, q: seq<(Vec2, string)>, next: Vec2, done: seq<string>)
    requires Rows3(kp) && Queued(kp, q) && InPad(kp, next) && |q| > 0 && q[0].0 == next
    ensures Members(done) + Pending(kp, q, next) == Members(done + [q[0].1]) + Pending(kp, q[1..], next)
  {
    var (p, presses) := q[0];
    assert Routes(kp, p, next) == [""];
    assert presses + "" == presses;
    assert Completions(kp, q[0], next) == {presses};
    assert Members(done + [presses]) == Members(done) + {presses};
  }

  /** The search replaces the front entry by the entries it queues: the
      routes to come stay the same and the queue gets lighter. */
  lemma Expanded(kp: Keypad, q: seq<(Vec2, string)>, next: Vec2)
    requires Rows3(kp) && Queued(kp, q) && InPad(kp, next) && |q| > 0
    requires q[0].0 != next && kp[q[0].0.y][q[0].0.x] != ' '
    ensures var q' := q[1..] + AcrossEntry(kp, q[0], next) + DownEntry(kp, q[0], next);
      Queued(kp, q') && Pending(kp, q', next) == Pending(kp, q, next) && Weight(q', next) < Weight(q, next)
  {
    var e := q[0];
    var s := Successors(kp, e, next);
    assert q[1..] + AcrossEntry(kp, e, next) + DownEntry(kp, e, next) == q[1..] + s;
    CompletionsSplit(kp, e, next);
    SuccessorsLighter(kp, e, next);
    PendingConcat(kp, q[1..], s, next);
    WeightConcat(q[1..], s, next);
  }

  /** Lines 71-103: queue the move along x towards next, then the move
      along y. */
  method Enqueue(kp: Keypad, q: seq<(Vec2, string)>, e: (Vec2, string), next: Vec2)
    returns (q': seq<(Vec2, string)>)
    requires Rows3(kp) && InPad(kp, e.0) && InPad(kp, next) && Moves(e.1)
    ensures q' == q + AcrossEntry(kp, e, next) + DownEntry(kp, e, next)
  {
    var (p, presses) := e;
    q' := q;
    if p.x < next.x {
      q' := q' + [(Vec2(p.x + 1, p.y), presses + ">")];
    } else if p.x > next.x {
      q' := q' + [(Vec2(p.x - 1, p.y), presses + "<")];
    }
    assert q' == q + AcrossEntry(kp, e, next);
    ghost var mid := q';
    if p.y < next.y {
      q' := q' + [(Vec2(p.x, p.y + 1), presses + "v")];
    } else if p.y > next.y {
      q' := q' + [(Vec2(p.x, p.y - 1), presses + "^")];
    }
    assert q' == mid + DownEntry(kp, e, next);
  }

  /** `cost_step` with the memo, and without the pruning of lines 53-58
      (see the findings): a remembered step costs what it did; otherwise
      `Search` finds the cost and it is remembered. */
  method CostStep(memo: map<int, nat>, pos: Vec2, next: Vec2, kps: seq<Pad>, ghost all: seq<Pad>)
    returns (cost: nat, memo': map<int, nat>)
    requires Stacked(all) && 0 < |kps| <= |all| && kps == Tail(all, |kps|) && Memo(all, memo)
    requires Stacked(kps) && InPad(Keys(kps[0]), pos) && InPad(Keys(kps[0]), next)
    ensures cost == StepCost(kps, pos, next) && Memo(all, memo')
    decreases |kps|, 2
  {
    var hashVal := Hash(pos, next, |kps|);
    assert all[|all| - |kps|] == kps[0];
    if hashVal in memo {
      return memo[hashVal], memo;
    }
    cost, memo' := Search(memo, pos, next, kps, all);
    MemoInsert(all, memo', pos, next, |kps|);
    memo' := memo'[hashVal := cost];
  }

  /** The queue search of lines 48-104: every route from pos to next is
      tried, the cost of each followed by `A` is found at the next keypad,
      and the cheapest is kept. */
  method Search(memo: map<int, nat>, pos: Vec2, next: Vec2, kps: seq<Pad>, ghost all: seq<Pad>)
    returns (cost: nat, memo': map<int, nat>)
    requires Stacked(all) && 0 < |kps| <= |all| && kps == Tail(all, |kps|) && Memo(all, memo)
    requires Stacked(kps) && InPad(Keys(kps[0]), pos) && InPad(Keys(kps[0]), next)
    ensures cost == StepCost(kps, pos, next) && Memo(all, memo')
    decreases |kps|, 1
  {
    var keypad := Keys(kps[0]);
    cost, memo' := UsizeMax, memo;
    var q: seq<(Vec2, string)> := [(pos, "")];
    ghost var done: seq<string> := [];
    PendingOne(keypad, (pos, ""), next);
    assert PrefixAll("", Routes(keypad, pos, next)) == Members(Routes(keypad, pos, next)) by {
      assert forall r: string :: "" + r == r;
    }
    TailStacked(all, |kps| - 1);
    assert kps[1..] == Tail(all, |kps| - 1);
    while |q| > 0
      invariant Memo(all, memo') && Queued(keypad, q)
      invariant AllMoves(done)
      invariant cost == Cheapest(kps, done)
      invariant Members(Routes(keypad, pos, next)) == Members(done) + Pending(keypad, q, next)
      decreases Weight(q, next)
    {
      var (p, presses) := q[0];
      ghost var before := q;
      q := q[1..];
      if p == next {
        var c;
        MovesOnDirection(presses);
        c, memo' := CostRecursive(presses + "A", kps[1..], memo', all);
        CheapestAppend(kps, done, presses);
        cost := Min(cost, c);
        Reached(keypad, before, next, done);
        done := done + [presses];
        continue;
      }
      if keypad[p.y][p.x] == ' ' {
        assert Completions(keypad, before[0], next) == {};
        continue;
      }
      q := Enqueue(keypad, q, (p, presses), next);
      Expanded(keypad, before, next);
    }
    CheapestSame(kps, done, Routes(keypad, pos, next));
  }

  /** `cost_recursive` with the memo: with no keypad left the length of
      presses; otherwise the steps between its keys from `A`, each costed
      by `CostStep`. */
  method CostRecursive(presses: string, kps: seq<Pad>, memo: map<int, nat>, ghost all: seq<Pad>)
    returns (cost: nat, memo': map<int, nat>)
    requires Stacked(all) && |kps| <= |all| && kps == Tail(all, |kps|) && Memo(all, memo)
    requires Stacked(kps) && (|kps| > 0 ==> OnPad(Keys(kps[0]), presses))
    ensures cost == PressCost(kps, presses) && Memo(all, memo')
    decreases |kps|, 3
  {
    if |kps| == 0 {
      return |presses|, memo;
    }
    var keypad := Keys(kps[0]);
    var pos := Find(keypad, 'A').value;
    cost, memo' := 0, memo;
    for i := 0 to |presses|
      invariant Memo(all, memo') && InPad(keypad, pos)
      invariant cost + PressesFrom(kps, pos, presses[i..]) == PressCost(kps, presses)
    {
      assert presses[i..][0] == presses[i] && presses[i..][1..] == presses[i + 1..];
      var nextPos := Find(keypad, presses[i]).value;
      var c;
      c, memo' := CostStep(memo', pos, nextPos, kps, all);
      cost := cost + c;
      pos := nextPos;
    }
  }

  // ---------------------------------------------------------------------------
  // What a step costs with one keypad left

  /** Routes that each cost v, at most `usize::MAX`, have v as their
      cheapest. */
  lemma {:induction false} CheapestUniform(kps: seq<Pad>, routes: seq<string>, v: nat)
    requires Stacked(kps) && |kps| > 0 && AllMoves(routes) && |routes| > 0 && v <= UsizeMax
    requires forall i :: 0 <= i < |routes| ==> RouteCost(kps, routes[i]) == v
    ensures Cheapest(kps, routes) == v
    decreases |routes|
  {
    if |routes| == 1 {
      assert routes[1..] == [];
    } else {
      assert forall i :: 0 <= i < |routes[1..]| ==> routes[1..][i] == routes[i + 1];
      CheapestUniform(kps, routes[1..], v);
    }
  }

  /** With only the keypad the person types on after kp, a step costs the
      distance between the keys plus the press of `A`, or `usize::MAX` when
      every route passes over the gap. */
  lemma LastStep(pad: Pad, p: Vec2, q: Vec2)
    requires InPad(Keys(pad), p) && InPad(Keys(pad), q)
    ensures var routes := Routes(Keys(pad), p, q);
      StepCost([pad], p, q) == if |routes| > 0 then Dist(p, q) + 1 else UsizeMax
  {
    var routes := Routes(Keys(pad), p, q);
    RoutesWalk(Keys(pad), p, q);
    if |routes| > 0 {
      forall i | 0 <= i < |routes|
        ensures RouteCost([pad], routes[i]) == Dist(p, q) + 1
      {
        assert routes[i] in routes;
        assert [pad][1..] == [];
      }
      assert Dist(p, q) + 1 <= UsizeMax;
      CheapestUniform([pad], routes, Dist(p, q) + 1);
    }
  }

  // ---------------------------------------------------------------------------
  // Codes and their complexity

  /** The numeric keypad and then n directional ones. */
  function Pads(n: nat): (kps: seq<Pad>)
    ensures |kps| == n + 1 && kps[0] == NumericPad && Stacked(kps)
  {
    if n == 0 then [NumericPad] else Pads(n - 1) + [DirectionPad]
  }

  /** The chain of lines 151-155 and 167-171, built by pushing n
      directional keypads after the numeric one. */
  method Chain(n: nat) returns (kps: seq<Pad>)
    ensures kps == Pads(n)
  {
    kps := [NumericPad];
    for i := 0 to n
      invariant kps == Pads(i)
    {
      kps := kps + [DirectionPad];
    }
  }

  /** The complexity of a code (lines 141-148): what typing it through the
      chain costs, times the number before its last key. None where the
      source panics: an empty code, a key off the first keypad, or no
      number before the last key. */
  function Complexity(kps: seq<Pad>, code: string): Option<nat>
    requires Stacked(kps) && |kps| > 0
  {
    if |code| == 0 || !OnPad(Keys(kps[0]), code) then None
    else
      match ParseUsize(code[..|code| - 1])
      case None => None
      case Some(n) =>
        MulNonNegative(PressCost(kps, code), n);
        Some(PressCost(kps, code) * n)
  }

  /** The complexity of each code. */
  function Complexities(kps: seq<Pad>, codes: seq<string>): (cs: seq<Option<nat>>)
    requires Stacked(kps) && |kps| > 0
    ensures |cs| == |codes|
  {
    if |codes| == 0 then [] else [Complexity(kps, codes[0])] + Complexities(kps, codes[1..])
  }

  /** The i-th complexity is that of the i-th code. */
  lemma {:induction false} ComplexitiesAt(kps: seq<Pad>, codes: seq<string>, i: nat)
    requires Stacked(kps) && |kps| > 0 && i < |codes|
    ensures Complexities(kps, codes)[i] == Complexity(kps, codes[i])
    decreases i
  {
    if i > 0 {
      ComplexitiesAt(kps, codes[1..], i - 1);
    }
  }

  /** The sum of values, None when one of them is missing. */
  function SumSome(cs: seq<Option<nat>>): Option<nat>
  {
    if |cs| == 0 then Some(0) else AddSome(cs[0], SumSome(cs[1..]))
  }

  lemma AddSomeValue(t: nat, c: Option<nat>)
    requires c.Some?
    ensures AddSome(Some(t), c) == Some(t + c.value)
  {
  }

  /** The sum of two values, None when one of them is missing. */
  function AddSome(a: Option<nat>, b: Option<nat>): Option<nat>
  {
    if a.Some? && b.Some? then Some(a.value + b.value) else None
  }

  /** The sum is missing exactly when one of the values is, and otherwise
      it is their sum taken from the front. */
  lemma {:induction false} SumSomeNone(cs: seq<Option<nat>>)
    ensures SumSome(cs).None? <==> exists i :: 0 <= i < |cs| && cs[i].None?
    decreases |cs|
  {
    if |cs| > 0 {
      SumSomeNone(cs[1..]);
      if exists i :: 0 <= i < |cs[1..]| && cs[1..][i].None? {
        var i :| 0 <= i < |cs[1..]| && cs[1..][i].None?;
        assert cs[i + 1].None?;
      }
      if exists i :: 0 <= i < |cs| && cs[i].None? {
        var i :| 0 <= i < |cs| && cs[i].None?;
        if i > 0 {
          assert cs[1..][i - 1].None?;
        }
      }
    }
  }

  /** The sum of the first i + 1 values adds the i-th to the sum of the
      first i. */
  lemma SumSomeStep(cs: seq<Option<nat>>, i: nat)
    requires i < |cs|
    ensures SumSome(cs[..i + 1]) == AddSome(SumSome(cs[..i]), cs[i])
  {
    SumSomeAppend(cs[..i], cs[i]);
    assert cs[..i + 1] == cs[..i] + [cs[i]];
  }

  /** Summing one value more adds it to the sum. */
  lemma {:induction false} SumSomeAppend(cs: seq<Option<nat>>, c: Option<nat>)
    ensures SumSome(cs + [c]) == AddSome(SumSome(cs), c)
    decreases |cs|
  {
    if |cs| == 0 {
      assert (cs + [c])[1..] == [];
    } else {
      assert (cs + [c])[0] == cs[0];
      assert (cs + [c])[1..] == cs[1..] + [c];
      SumSomeAppend(cs[1..], c);
    }
  }

  /** `complexity`: the cost of the code from `CostRecursive` times its
      number. */
  method CodeComplexity(code: string, kps: seq<Pad>, memo: map<int, nat>)
    returns (r: Option<nat>, memo': map<int, nat>)
    requires Stacked(kps) && |kps| > 0 && Memo(kps, memo)
    ensures r == Complexity(kps, code) && Memo(kps, memo')
  {
    if |code| == 0 || !OnPad(Keys(kps[0]), code) {
      return None, memo;
    }
    var cost;
    assert kps == Tail(kps, |kps|);
    cost, memo' := CostRecursive(code, kps, memo, kps);
    var n := ParseUsize(code[..|code| - 1]);
    if n.None? {
      return None, memo';
    }
    MulNonNegative(cost, n.value);
    r := Some(cost * n.value);
  }

  /** The complexity of the i-th line. */
  method LineComplexity(lines: seq<string>, i: nat, kps: seq<Pad>, memo: map<int, nat>)
    returns (c: Option<nat>, memo': map<int, nat>)
    requires Stacked(kps) && |kps| > 0 && Memo(kps, memo) && i < |lines|
    ensures c == Complexities(kps, lines)[i] && Memo(kps, memo')
  {
    c, memo' := CodeComplexity(lines[i], kps, memo);
    ComplexitiesAt(kps, lines, i);
  }

  /** Lines 157-163 and 174-180: the sum of the complexities of the codes,
      one per line, with one memo for all. */
  method Solve(lines: seq<string>, n: nat) returns (r: Option<nat>)
    ensures r == SumSome(Complexities(Pads(n), lines))
  {
    var kps := Chain(n);
    ghost var cs := Complexities(kps, lines);
    var memo: map<int, nat> := map[];
    var total: nat := 0;
    for i := 0 to |lines|
      invariant Memo(kps, memo)
      invariant SumSome(cs[..i]) == Some(total)
    {
      ghost var before := total;
      var c;
      c, memo := LineComplexity(lines, i, kps, memo);
      SumSomeStep(cs, i);
      if c.None? {
        SumSomeNone(cs);
        return None;
      }
      total := total + c.value;
      AddSomeValue(before, c);
      assert SumSome(cs[..i + 1]) == Some(total);
    }
    assert cs[..|lines|] == cs;
    r := Some(total);
  }

  /** Part one: two directional keypads between the numeric one and the
      person. */
  method PartOne(lines: seq<string>) returns (r: Option<nat>)
    ensures Pads(2) == [NumericPad, DirectionPad, DirectionPad]
    ensures r == SumSome(Complexities(Pads(2), lines))
  {
    r := Solve(lines, 2);
  }

  /** Part two: twenty-five directional keypads. */
  method PartTwo(lines: seq<string>) returns (r: Option<nat>)
    ensures r == SumSome(Complexities(Pads(25), lines))
  {
    r := Solve(lines, 25);
  }

  // ---------------------------------------------------------------------------
  // The pruning of lines 53-58, as written

  /** `cost_step` as written: after a memo miss it gives up with
      `usize::MAX`, and remembers nothing, when the keys are further apart
      than the sequence being typed is long. */
  function PrunedStep(memo: map<int, nat>, kps: seq<Pad>, pos: Vec2, next: Vec2, code: string): nat
    requires Stacked(kps) && |kps| > 0 && InPad(Keys(kps[0]), pos) && InPad(Keys(kps[0]), next)
  {
    var h := Hash(pos, next, |kps|);
    if h in memo then memo[h]
    else if Dist(pos, next) > |code| then UsizeMax
    else StepCost(kps, pos, next)
  }

  /** From `v` to `<` there is one route. */
  lemma RoutesDownToLeft()
    ensures Routes(Direction, Vec2(1, 1), Vec2(0, 1)) == ["<"]
  {
    var kp := Direction;
    assert Routes(kp, Vec2(0, 1), Vec2(0, 1)) == [""];
    assert ['<'] + "" == "<";
    assert Prefixed('<', [""]) == ["<"];
    assert Across(kp, Vec2(1, 1), Vec2(0, 1)) == ["<"];
    assert Down(kp, Vec2(1, 1), Vec2(0, 1)) == [];
  }

  /** From `^` to `<` there is one route: the one along the top row would
      pass over the gap. */
  lemma RoutesUpToLeft()
    ensures Routes(Direction, Vec2(1, 0), Vec2(0, 1)) == ["v<"]
  {
    var kp := Direction;
    RoutesDownToLeft();
    assert Routes(kp, Vec2(0, 0), Vec2(0, 1)) == [];
    assert ['v'] + "<" == "v<";
    assert Prefixed('v', ["<"]) == ["v<"];
    assert Across(kp, Vec2(1, 0), Vec2(0, 1)) == [];
    assert Down(kp, Vec2(1, 0), Vec2(0, 1)) == ["v<"];
  }

  /** From `>` to `<` there is one route. */
  lemma RoutesRightToLeft()
    ensures Routes(Direction, Vec2(2, 1), Vec2(0, 1)) == ["<<"]
  {
    var kp := Direction;
    RoutesDownToLeft();
    assert ['<'] + "<" == "<<";
    assert Prefixed('<', ["<"]) == ["<<"];
    assert Across(kp, Vec2(2, 1), Vec2(0, 1)) == ["<<"];
    assert Down(kp, Vec2(2, 1), Vec2(0, 1)) == [];
  }

  /** The two routes from `A` to `<` on the directional keypad. */
  lemma RoutesAToLeft()
    ensures Routes(Direction, Vec2(2, 0), Vec2(0, 1)) == ["<v<", "v<<"]
  {
    var kp := Direction;
    RoutesUpToLeft();
    RoutesRightToLeft();
    assert ['<'] + "v<" == "<v<" && ['v'] + "<<" == "v<<";
    assert Prefixed('<', ["v<"]) == ["<v<"];
    assert Prefixed('v', ["<<"]) == ["v<<"];
    assert Across(kp, Vec2(2, 0), Vec2(0, 1)) == ["<v<"];
    assert Down(kp, Vec2(2, 0), Vec2(0, 1)) == ["v<<"];
  }

  /** Typing "<A" on the directional keypad with nothing remembered: the
      step from `A` to `<` is three keys away but the sequence has two, so
      the pruning gives `usize::MAX`, where the cheapest route costs 4. */
  lemma PruneGivesUp()
    ensures Stacked([DirectionPad])
    ensures PrunedStep(map[], [DirectionPad], Vec2(2, 0), Vec2(0, 1), "<A") == UsizeMax
    ensures StepCost([DirectionPad], Vec2(2, 0), Vec2(0, 1)) == 4
  {
    RoutesAToLeft();
    LastStep(DirectionPad, Vec2(2, 0), Vec2(0, 1));
  }
}
