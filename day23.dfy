/** Day 23: LAN party. The network map lists one `a-b` link per line between
    two computers. Part one counts the triangles of mutually linked computers
    that include one whose name starts with `t`; part two finds a largest set
    of mutually linked computers and names them in sorted order. */
module Day23 {
  import opened Text

  type Node = string
  /** `HashMap<&str, HashSet<&str>>`: each computer's neighbours. */
  type Graph = map<Node, set<Node>>

  // ---------------------------------------------------------------
  // Building the graph
  // ---------------------------------------------------------------

  /** The neighbours recorded for x, or none when x is not a key. */
  function Around(g: Graph, x: Node): set<Node>
  {
    if x in g then g[x] else {}
  }

  /** `graph.entry(a).or_default().insert(b)`. */
  function Link(g: Graph, a: Node, b: Node): Graph
  {
    g[a := Around(g, a) + {b}]
  }

  /** The graph after inserting every link of `edges`, in order, in both
      directions. */
  function Network(edges: seq<(Node, Node)>): Graph
  {
    if |edges| == 0 then map[]
    else
      var e := edges[|edges| - 1];
      Link(Link(Network(edges[..|edges| - 1]), e.0, e.1), e.1, e.0)
  }

  /** x is an end of some link. */
  predicate Named(edges: seq<(Node, Node)>, x: Node)
  {
    exists i :: 0 <= i < |edges| && (edges[i].0 == x || edges[i].1 == x)
  }

  /** Some link joins a and b, written either way round. */
  predicate Linked(edges: seq<(Node, Node)>, a: Node, b: Node)
  {
    exists i :: 0 <= i < |edges| && (edges[i] == (a, b) || edges[i] == (b, a))
  }

  /** Every neighbour is itself a key, so `graph[n]` never panics for one. */
  predicate Closed(g: Graph)
  {
    forall a, b :: a in g && b in g[a] ==> b in g
  }

  /** Adjacency is symmetric. */
  predicate Symmetric(g: Graph)
  {
    forall a, b :: a in g && b in g[a] ==> b in g && a in g[b]
  }

  /** No computer is linked to itself. */
  predicate Loopless(g: Graph)
  {
    forall a :: a in g ==> a !in g[a]
  }

  /** The keys are exactly the computers named in a link. */
  lemma {:induction false} NetworkKeys(edges: seq<(Node, Node)>, a: Node)
    ensures a in Network(edges) <==> Named(edges, a)
  {
    if |edges| > 0 {
      var front, e := edges[..|edges| - 1], edges[|edges| - 1];
      NetworkKeys(front, a);
      if Named(edges, a) && !(e.0 == a || e.1 == a) {
        var i :| 0 <= i < |edges| && (edges[i].0 == a || edges[i].1 == a);
        assert i < |front| && front[i] == edges[i];
      }
      if Named(front, a) {
        var i :| 0 <= i < |front| && (front[i].0 == a || front[i].1 == a);
        assert edges[i] == front[i];
      }
    }
  }

  /** b is a neighbour of a exactly when a link joins them. */
  lemma {:induction false} NetworkNeighbours(edges: seq<(Node, Node)>, a: Node, b: Node)
    ensures (a in Network(edges) && b in Network(edges)[a]) <==> Linked(edges, a, b)
  {
    if |edges| > 0 {
      var front, e := edges[..|edges| - 1], edges[|edges| - 1];
      NetworkNeighbours(front, a, b);
      if Linked(edges, a, b) && !(e == (a, b) || e == (b, a)) {
        var i :| 0 <= i < |edges| && (edges[i] == (a, b) || edges[i] == (b, a));
        assert i < |front| && front[i] == edges[i];
      }
      if Linked(front, a, b) {
        var i :| 0 <= i < |front| && (front[i] == (a, b) || front[i] == (b, a));
        assert edges[i] == front[i];
      }
    }
  }

  /** Links between two different computers never make a self-link. */
  lemma NetworkLoopless(edges: seq<(Node, Node)>)
    requires forall i :: 0 <= i < |edges| ==> edges[i].0 != edges[i].1
    ensures Loopless(Network(edges))
  {
    forall a | a in Network(edges)
      ensures a !in Network(edges)[a]
    {
      NetworkNeighbours(edges, a, a);
    }
  }

  /** Each link is inserted both ways, so the graph is symmetric and closed. */
  lemma NetworkSymmetric(edges: seq<(Node, Node)>)
    ensures Symmetric(Network(edges)) && Closed(Network(edges))
  {
    var g := Network(edges);
    forall a, b | a in g && b in g[a]
      ensures b in g && a in g[b]
    {
      NetworkNeighbours(edges, a, b);
      NetworkNeighbours(edges, b, a);
      NetworkKeys(edges, b);
      var i :| 0 <= i < |edges| && (edges[i] == (a, b) || edges[i] == (b, a));
      assert edges[i].0 == b || edges[i].1 == b;
    }
  }

  /** The loop of lines 9-13: every link inserted in both directions. */
  method BuildGraph(edges: seq<(Node, Node)>) returns (g: Graph)
    ensures g == Network(edges)
    ensures Symmetric(g) && Closed(g)
  {
    g := map[];
    for i := 0 to |edges|
      invariant g == Network(edges[..i])
    {
      assert edges[..i + 1][..i] == edges[..i];
      var (a, b) := edges[i];
      g := Link(g, a, b);
      g := Link(g, b, a);
    }
    assert edges[..|edges|] == edges;
    NetworkSymmetric(edges);
  }

  // ---------------------------------------------------------------
  // Part one: ordered triangles
  // ---------------------------------------------------------------

  /** `starts_with('t')`. */
  predicate Chief(x: Node)
  {
    |x| > 0 && x[0] == 't'
  }

  /** The test of lines 24-26 on a path a -> b -> c: c differs from a, links
      back to it, and one of the three names starts with `t`. */
  predicate Triangle(g: Graph, a: Node, b: Node, c: Node)
  {
    b in Around(g, a) && c in Around(g, b) && c != a && a in Around(g, c) &&
    (Chief(a) || Chief(b) || Chief(c))
  }

  /** Every ordered triple the loops of lines 18-32 count. */
  ghost function Ordered(g: Graph): set<(Node, Node, Node)>
  {
    set a, b, c | a in g && b in Around(g, a) && c in Around(g, b) && Triangle(g, a, b, c) :: (a, b, c)
  }

  /** The counted triples whose first computer is in firsts. */
  ghost function FromFirst(g: Graph, firsts: set<Node>): set<(Node, Node, Node)>
  {
    set t | t in Ordered(g) && t.0 in firsts
  }

  /** The counted triples starting at a whose second computer is in bs. */
  ghost function FromPair(g: Graph, a: Node, bs: set<Node>): set<(Node, Node, Node)>
  {
    set t | t in Ordered(g) && t.0 == a && t.1 in bs
  }

  /** The counted triples starting a, b whose third computer is in cs. */
  ghost function FromTriple(g: Graph, a: Node, b: Node, cs: set<Node>): set<(Node, Node, Node)>
  {
    set t | t in Ordered(g) && t.0 == a && t.1 == b && t.2 in cs
  }

  lemma ThirdStep(g: Graph, a: Node, b: Node, cs: set<Node>, c: Node)
    requires a in g && b in g[a] && c !in cs
    ensures |FromTriple(g, a, b, cs + {c})| ==
      |FromTriple(g, a, b, cs)| + (if Triangle(g, a, b, c) then 1 else 0)
  {
    var before, after := FromTriple(g, a, b, cs), FromTriple(g, a, b, cs + {c});
    if Triangle(g, a, b, c) {
      assert (a, b, c) in Ordered(g);
      assert after == before + {(a, b, c)};
    } else {
      assert after == before;
    }
  }

  lemma SecondStep(g: Graph, a: Node, bs: set<Node>, b: Node)
    requires b !in bs
    ensures |FromPair(g, a, bs + {b})| == |FromPair(g, a, bs)| + |FromTriple(g, a, b, Around(g, b))|
  {
    var before, here := FromPair(g, a, bs), FromTriple(g, a, b, Around(g, b));
    assert FromPair(g, a, bs + {b}) == before + here;
    assert before * here == {};
  }

  lemma FirstStep(g: Graph, firsts: set<Node>, a: Node)
    requires a !in firsts
    ensures |FromFirst(g, firsts + {a})| == |FromFirst(g, firsts)| + |FromPair(g, a, Around(g, a))|
  {
    var before, here := FromFirst(g, firsts), FromPair(g, a, Around(g, a));
    assert FromFirst(g, firsts + {a}) == before + here;
    assert before * here == {};
  }

  /** The innermost loop of lines 22-30. */
  method CountThird(g: Graph, a: Node, b: Node) returns (n: nat)
    requires Closed(g) && a in g && b in g[a]
    ensures n == |FromTriple(g, a, b, Around(g, b))|
  {
    var rest := g[b];
    n := 0;
    while rest != {}
      invariant rest <= g[b]
      invariant n == |FromTriple(g, a, b, g[b] - rest)|
      decreases |rest|
    {
      var c :| c in rest;
      ThirdStep(g, a, b, g[b] - rest, c);
      assert g[b] - rest + {c} == g[b] - (rest - {c});
      if c != a && a in g[c] {
        if Chief(a) || Chief(b) || Chief(c) {
          n := n + 1;
        }
      }
      rest := rest - {c};
    }
    assert g[b] - rest == Around(g, b);
  }

  /** The middle loop of lines 20-31. */
  method CountSecond(g: Graph, a: Node) returns (n: nat)
    requires Closed(g) && a in g
    ensures n == |FromPair(g, a, Around(g, a))|
  {
    var rest := g[a];
    n := 0;
    while rest != {}
      invariant rest <= g[a]
      invariant n == |FromPair(g, a, g[a] - rest)|
      decreases |rest|
    {
      var b :| b in rest;
      SecondStep(g, a, g[a] - rest, b);
      assert g[a] - rest + {b} == g[a] - (rest - {b});
      var k := CountThird(g, a, b);
      n := n + k;
      rest := rest - {b};
    }
    assert g[a] - rest == Around(g, a);
  }

  /** The loops of lines 18-32: the number of ordered triangles. */
  method CountTriangles(g: Graph) returns (n: nat)
    requires Closed(g)
    ensures n == |Ordered(g)|
  {
    var rest := g.Keys;
    n := 0;
    while rest != {}
      invariant rest <= g.Keys
      invariant n == |FromFirst(g, g.Keys - rest)|
      decreases |rest|
    {
      var a :| a in rest;
      FirstStep(g, g.Keys - rest, a);
      assert g.Keys - rest + {a} == g.Keys - (rest - {a});
      var k := CountSecond(g, a);
      n := n + k;
      rest := rest - {a};
    }
    assert g.Keys - rest == g.Keys;
    assert FromFirst(g, g.Keys) == Ordered(g);
  }

  /** The three computers of a triple, as a set. */
  function Corners(t: (Node, Node, Node)): set<Node>
  {
    {t.0, t.1, t.2}
  }

  /** The triangles as unordered sets of three computers. */
  ghost function Triangles(g: Graph): set<set<Node>>
  {
    set t | t in Ordered(g) :: Corners(t)
  }

  /** The six orders of a, b and c. */
  function Orders(a: Node, b: Node, c: Node): set<(Node, Node, Node)>
  {
    {(a, b, c), (a, c, b), (b, a, c), (b, c, a), (c, a, b), (c, b, a)}
  }

  /** On a symmetric graph without self-links, a counted triple has three
      different computers and every reordering of it is counted too. */
  lemma OrdersCounted(g: Graph, a: Node, b: Node, c: Node)
    requires Symmetric(g) && Loopless(g) && (a, b, c) in Ordered(g)
    ensures a != b && b != c && c != a
    ensures Orders(a, b, c) <= Ordered(g)
  {
    assert a in g && b in g[a] && c in g[b] && a in g[c];
    assert b in g && c in g && a in g[b] && b in g[c] && c in g[a];
    assert Triangle(g, a, c, b) && Triangle(g, b, a, c) && Triangle(g, b, c, a);
    assert Triangle(g, c, a, b) && Triangle(g, c, b, a);
  }

  /** Six orders of three different computers are six different triples. */
  lemma OrdersCard(a: Node, b: Node, c: Node)
    requires a != b && b != c && c != a
    ensures |Orders(a, b, c)| == 6
  {
    var s1 := {(a, b, c)};
    var s2 := s1 + {(a, c, b)};
    var s3 := s2 + {(b, a, c)};
    var s4 := s3 + {(b, c, a)};
    var s5 := s4 + {(c, a, b)};
    assert |s5 + {(c, b, a)}| == 6;
    assert s5 + {(c, b, a)} == Orders(a, b, c);
  }

  /** A triple of three different computers with the corners a, b, c is
      one of their orders. */
  lemma Reordered(t: (Node, Node, Node), a: Node, b: Node, c: Node)
    requires t.0 != t.1 && t.1 != t.2 && t.2 != t.0
    requires Corners(t) == {a, b, c}
    ensures t in Orders(a, b, c)
  {
    assert t.0 in Corners(t) && t.1 in Corners(t) && t.2 in Corners(t);
    assert a in Corners(t) && b in Corners(t) && c in Corners(t);
  }

  /** Every order of a, b, c has the corners a, b, c. */
  lemma OrdersCorners(t: (Node, Node, Node), a: Node, b: Node, c: Node)
    requires t in Orders(a, b, c)
    ensures Corners(t) == {a, b, c}
  {
    if t == (a, c, b) {
      assert {a, c, b} == {a, b, c};
    } else if t == (b, a, c) {
      assert {b, a, c} == {a, b, c};
    } else if t == (b, c, a) {
      assert {b, c, a} == {a, b, c};
    } else if t == (c, a, b) {
      assert {c, a, b} == {a, b, c};
    } else if t == (c, b, a) {
      assert {c, b, a} == {a, b, c};
    }
  }

  /** The counted triples with corners s. */
  ghost function Fiber(g: Graph, s: set<Node>): set<(Node, Node, Node)>
  {
    set t | t in Ordered(g) && Corners(t) == s
  }

  /** Every triangle is counted exactly six times. */
  lemma FiberSix(g: Graph, s: set<Node>)
    requires Symmetric(g) && Loopless(g) && s in Triangles(g)
    ensures |Fiber(g, s)| == 6
  {
    var u :| u in Ordered(g) && Corners(u) == s;
    var (a, b, c) := u;
    OrdersCounted(g, a, b, c);
    OrdersCard(a, b, c);
    forall t | t in Fiber(g, s)
      ensures t in Orders(a, b, c)
    {
      OrdersCounted(g, t.0, t.1, t.2);
      Reordered(t, a, b, c);
    }
    forall t | t in Orders(a, b, c)
      ensures t in Fiber(g, s)
    {
      OrdersCorners(t, a, b, c);
    }
    assert Fiber(g, s) == Orders(a, b, c);
  }

  /** Counted triples whose corners form one of the triangles in ts. */
  ghost function Over(g: Graph, ts: set<set<Node>>): set<(Node, Node, Node)>
  {
    set t | t in Ordered(g) && Corners(t) in ts
  }

  lemma OverSplit(g: Graph, ts: set<set<Node>>, s: set<Node>)
    requires s in ts
    ensures Over(g, ts) == Over(g, ts - {s}) + Fiber(g, s)
    ensures Over(g, ts - {s}) * Fiber(g, s) == {}
  {
  }

  lemma {:induction false} SixEach(g: Graph, ts: set<set<Node>>)
    requires Symmetric(g) && Loopless(g) && ts <= Triangles(g)
    ensures |Over(g, ts)| == 6 * |ts|
    decreases ts
  {
    if ts != {} {
      var s :| s in ts;
      SixEach(g, ts - {s});
      FiberSix(g, s);
      OverSplit(g, ts, s);
    }
  }

  /** Each triangle is counted once per order of its corners, so the
      division by 6 of line 35 is exact and gives the number of triangles. */
  lemma CountedSixTimes(g: Graph)
    requires Symmetric(g) && Loopless(g)
    ensures |Ordered(g)| == 6 * |Triangles(g)|
  {
    SixEach(g, Triangles(g));
    assert Over(g, Triangles(g)) == Ordered(g);
  }

  /** `part_one`: ordered triangles divided by 6. */
  method PartOne(edges: seq<(Node, Node)>) returns (r: nat)
    ensures r == |Ordered(Network(edges))| / 6
    ensures (forall i :: 0 <= i < |edges| ==> edges[i].0 != edges[i].1) ==>
      r == |Triangles(Network(edges))|
  {
    var g := BuildGraph(edges);
    var n := CountTriangles(g);
    r := n / 6;
    if forall i :: 0 <= i < |edges| ==> edges[i].0 != edges[i].1 {
      NetworkLoopless(edges);
      CountedSixTimes(g);
    }
  }

  // ---------------------------------------------------------------
  // Part two: a largest clique
  // ---------------------------------------------------------------

  /** Every two different members of s are neighbours. */
  predicate Clique(g: Graph, s: set<Node>)
  {
    forall x, y :: x in s && y in s && x != y ==> y in Around(g, x)
  }

  /** Every clique that contains current and otherwise holds only
      candidates, at least one of them outside rest, is no larger than
      found. */
  ghost predicate Explored(g: Graph, current: set<Node>, candidates: set<Node>, rest: set<Node>, found: set<Node>)
  {
    forall c :: Clique(g, c) && current <= c <= current + candidates && !(c - current <= rest) ==>
      |c| <= |found|
  }

  /** The candidates kept for the recursive call of lines 86-90: those
      left in rest that are neighbours of node. */
  function Next(g: Graph, rest: set<Node>, node: Node): set<Node>
  {
    set x | x in rest && x in Around(g, node)
  }

  /** The test of line 84: node is a neighbour of every member of current. */
  predicate AdjacentToAll(g: Graph, current: set<Node>, node: Node)
    requires current <= g.Keys
  {
    forall n :: n in current ==> node in g[n]
  }

  /** On a symmetric graph a clique grows by a computer adjacent to every
      member. */
  lemma Joined(g: Graph, current: set<Node>, node: Node)
    requires Symmetric(g) && current <= g.Keys && Clique(g, current)
    requires AdjacentToAll(g, current, node)
    ensures Clique(g, current + {node})
  {
  }

  /** A clique covered only once node leaves rest contains node, every
      member of current is adjacent to node, and its other members are
      the candidates kept for the recursive call. */
  lemma CoveredNow(g: Graph, current: set<Node>, candidates: set<Node>, rest: set<Node>,
                   node: Node, c: set<Node>)
    requires Symmetric(g) && current <= g.Keys && current !! candidates
    requires node in rest && rest <= candidates
    requires Clique(g, c) && current <= c <= current + candidates
    requires c - current <= rest && !(c - current <= rest - {node})
    ensures node in c && AdjacentToAll(g, current, node)
    ensures current + {node} <= c <= current + {node} + Next(g, rest - {node}, node)
  {
  }

  /** Taking node out of rest keeps Explored: a clique covered only now
      contains node, so it passed the test of line 84 and the recursive
      call explored it. */
  lemma ExploredStep(g: Graph, current: set<Node>, candidates: set<Node>, rest: set<Node>,
                     node: Node, joined: bool, before: set<Node>, found: set<Node>)
    requires Symmetric(g) && current <= g.Keys && current !! candidates
    requires node in rest && rest <= candidates
    requires Explored(g, current, candidates, rest, before) && |before| <= |found|
    requires joined == AdjacentToAll(g, current, node)
    requires joined ==> (|current + {node}| <= |found| &&
      Explored(g, current + {node}, Next(g, rest - {node}, node), {}, found))
    ensures Explored(g, current, candidates, rest - {node}, found)
  {
    forall c | Clique(g, c) && current <= c <= current + candidates && !(c - current <= rest - {node})
      ensures |c| <= |found|
    {
      if c - current <= rest {
        CoveredNow(g, current, candidates, rest, node, c);
        var grown, next := current + {node}, Next(g, rest - {node}, node);
        if c != grown {
          assert Clique(g, c) && grown <= c <= grown + next && !(c - grown <= {});
        }
      } else {
        assert Clique(g, c) && current <= c <= current + candidates && !(c - current <= rest);
      }
    }
  }

  /** `find_max_clique` (lines 69-96). current is the clique being grown,
      candidates the computers that may join it and best the largest clique
      found so far. Returns current as the call leaves it and the new best.
      When current and candidates do not overlap, current comes back
      unchanged and the new best is at least as large as every clique
      between current and current + candidates. */
  method FindMaxClique(g: Graph, current: set<Node>, candidates: set<Node>, best: set<Node>)
    returns (after: set<Node>, found: set<Node>)
    requires Symmetric(g) && current <= g.Keys && candidates <= g.Keys
    requires Clique(g, current) && Clique(g, best)
    decreases candidates
    ensures Clique(g, found) && after <= current
    ensures found == best || (|found| > |best| && found <= current + candidates)
    ensures current !! candidates ==> after == current
    ensures current !! candidates ==> |current| <= |found| && Explored(g, current, candidates, {}, found)
  {
    found := best;
    if |current| > |found| {
      found := current;
    }
    after := current;
    var rest := candidates;
    while rest != {}
      invariant rest <= candidates && after <= current
      invariant current !! candidates ==> after == current
      invariant Clique(g, found)
      invariant found == best || (|found| > |best| && found <= current + candidates)
      invariant current !! candidates ==> |current| <= |found| && Explored(g, current, candidates, rest, found)
      decreases rest
    {
      var node :| node in rest;
      ghost var before, old_found := rest, found;
      rest := rest - {node};
      var joined := AdjacentToAll(g, after, node);
      if joined {
        Joined(g, after, node);
        var grown, better := FindMaxClique(g, after + {node}, Next(g, rest, node), found);
        after := grown - {node};
        found := better;
      }
      if current !! candidates {
        ExploredStep(g, current, candidates, before, node, joined, old_found, found);
      }
    }
  }

  /** A search started from {start} with its neighbours as candidates
      covers every clique containing start. */
  lemma StartCovers(g: Graph, start: Node, c: set<Node>, found: set<Node>)
    requires Symmetric(g) && start in g && start !in g[start]
    requires Explored(g, {start}, g[start], {}, found) && 1 <= |found|
    requires Clique(g, c) && start in c
    ensures |c| <= |found|
  {
    assert c <= {start} + g[start];
    if c != {start} {
      assert !(c - {start} <= {});
    }
  }

  /** The loop of lines 51-62: grow a clique from every computer in turn.
      The result is a clique, and on a graph without self-links no clique
      is larger. */
  method LargestClique(g: Graph) returns (best: set<Node>)
    requires Symmetric(g)
    ensures Clique(g, best) && best <= g.Keys
    ensures Loopless(g) ==> forall c :: c <= g.Keys && Clique(g, c) ==> |c| <= |best|
  {
    best := {};
    var rest := g.Keys;
    while rest != {}
      invariant rest <= g.Keys && Clique(g, best) && best <= g.Keys
      invariant Loopless(g) ==> forall c :: c <= g.Keys && Clique(g, c) && !(c <= rest) ==> |c| <= |best|
      decreases rest
    {
      var start :| start in rest;
      rest := rest - {start};
      var _, found := FindMaxClique(g, {start}, g[start], best);
      best := found;
      if Loopless(g) {
        forall c | c <= g.Keys && Clique(g, c) && !(c <= rest)
          ensures |c| <= |best|
        {
          if start in c {
            StartCovers(g, start, c, found);
          } else {
            assert !(c <= rest + {start});
          }
        }
      }
    }
  }

  /** r lists, in order and joined by commas, the members of a clique of
      nodes of g that no clique of g outnumbers when g has no self-links. */
  ghost predicate Password(g: Graph, r: string)
  {
    exists names: seq<Node> ::
      r == JoinWith(names, ',') && Ascending(names) &&
      (set x | x in names) <= g.Keys && Clique(g, set x | x in names) && |set x | x in names| == |names| &&
      (Loopless(g) ==> forall c :: c <= g.Keys && Clique(g, c) ==> |c| <= |names|)
  }

  /** `part_two`. */
  method PartTwo(edges: seq<(Node, Node)>) returns (r: string)
    ensures Password(Network(edges), r)
  {
    var g := BuildGraph(edges);
    var best := LargestClique(g);
    var names := SortNames(best);
    r := JoinWith(names, ',');
    assert (set x | x in names) == best;
  }
}
