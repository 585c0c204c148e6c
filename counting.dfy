/** Counting the cells of a rectangle that pass a test, and the set of those
    cells, for loops that scan the neighbourhood of a cell. */
module Counting {
  import opened Grids

  /** How many cells (x, y) with x in lo .. lo + n - 1 pass hit. */
  ghost function CountRow(hit: Pos -> bool, lo: int, y: int, n: nat): nat
  {
    if n == 0 then 0
    else if hit((lo + n - 1, y)) then CountRow(hit, lo, y, n - 1) + 1
    else CountRow(hit, lo, y, n - 1)
  }

  /** The same count over the rows bottom .. bottom + m - 1. */
  ghost function CountBox(hit: Pos -> bool, lo: int, bottom: int, width: nat, m: nat): nat
  {
    if m == 0 then 0 else CountBox(hit, lo, bottom, width, m - 1) + CountRow(hit, lo, bottom + m - 1, width)
  }

  /** The cells (x, y) with x in lo .. lo + n - 1 that pass hit. */
  ghost function RowHits(hit: Pos -> bool, lo: int, y: int, n: nat): set<Pos>
  {
    if n == 0 then {}
    else if hit((lo + n - 1, y)) then RowHits(hit, lo, y, n - 1) + {(lo + n - 1, y)}
    else RowHits(hit, lo, y, n - 1)
  }

  /** The same over the rows bottom .. bottom + m - 1. */
  ghost function BoxHits(hit: Pos -> bool, lo: int, bottom: int, width: nat, m: nat): set<Pos>
  {
    if m == 0 then {} else BoxHits(hit, lo, bottom, width, m - 1) + RowHits(hit, lo, bottom + m - 1, width)
  }

  lemma {:induction false} RowHitsIff(hit: Pos -> bool, lo: int, y: int, n: nat, q: Pos)
    ensures q in RowHits(hit, lo, y, n) <==> q.1 == y && lo <= q.0 < lo + n && hit(q)
  {
    if n > 0 {
      RowHitsIff(hit, lo, y, n - 1, q);
    }
  }

  lemma {:induction false} BoxHitsIff(hit: Pos -> bool, lo: int, bottom: int, width: nat, m: nat, q: Pos)
    ensures q in BoxHits(hit, lo, bottom, width, m) <==>
      bottom <= q.1 < bottom + m && lo <= q.0 < lo + width && hit(q)
  {
    if m > 0 {
      BoxHitsIff(hit, lo, bottom, width, m - 1, q);
      RowHitsIff(hit, lo, bottom + m - 1, width, q);
    }
  }

  lemma {:induction false} CountRowStep(hit: Pos -> bool, lo: int, y: int, k: nat)
    ensures CountRow(hit, lo, y, k + 1) == CountRow(hit, lo, y, k) + (if hit((lo + k, y)) then 1 else 0)
  {
  }

  lemma {:induction false} CountBoxStep(hit: Pos -> bool, lo: int, bottom: int, width: nat, i: nat, n: nat, k: nat)
    requires n == CountBox(hit, lo, bottom, width, i) && k == CountRow(hit, lo, bottom + i, width)
    ensures n + k == CountBox(hit, lo, bottom, width, i + 1)
  {
  }

  lemma RowHitsFresh(hit: Pos -> bool, lo: int, y: int, n: nat)
    requires n > 0
    ensures (lo + n - 1, y) !in RowHits(hit, lo, y, n - 1)
  {
    RowHitsIff(hit, lo, y, n - 1, (lo + n - 1, y));
  }

  /** CountRow counts the cells of RowHits. */
  lemma {:induction false} CountRowCard(hit: Pos -> bool, lo: int, y: int, n: nat)
    ensures CountRow(hit, lo, y, n) == |RowHits(hit, lo, y, n)|
  {
    if n > 0 {
      CountRowCard(hit, lo, y, n - 1);
      var c := (lo + n - 1, y);
      var before := RowHits(hit, lo, y, n - 1);
      if hit(c) {
        RowHitsFresh(hit, lo, y, n);
        assert |before + {c}| == |before| + 1;
      }
    }
  }

  /** The next row shares no cell with the rows below it. */
  lemma BoxRowApart(hit: Pos -> bool, lo: int, bottom: int, width: nat, m: nat)
    requires m > 0
    ensures BoxHits(hit, lo, bottom, width, m - 1) * RowHits(hit, lo, bottom + m - 1, width) == {}
  {
    var below := BoxHits(hit, lo, bottom, width, m - 1);
    var top := RowHits(hit, lo, bottom + m - 1, width);
    forall q | q in below ensures q !in top {
      BoxHitsIff(hit, lo, bottom, width, m - 1, q);
      RowHitsIff(hit, lo, bottom + m - 1, width, q);
    }
  }

  lemma DisjointCard(a: set<Pos>, b: set<Pos>)
    requires a * b == {}
    ensures |a + b| == |a| + |b|
  {
  }

  /** CountBox counts the cells of BoxHits. */
  lemma {:induction false} CountBoxCard(hit: Pos -> bool, lo: int, bottom: int, width: nat, m: nat)
    ensures CountBox(hit, lo, bottom, width, m) == |BoxHits(hit, lo, bottom, width, m)|
  {
    if m > 0 {
      CountBoxCard(hit, lo, bottom, width, m - 1);
      CountRowCard(hit, lo, bottom + m - 1, width);
      BoxRowApart(hit, lo, bottom, width, m);
      DisjointCard(BoxHits(hit, lo, bottom, width, m - 1), RowHits(hit, lo, bottom + m - 1, width));
    }
  }

  /** A set holding exactly the cells of the box that pass hit has CountBox
      members. */
  lemma CountBoxIs(hit: Pos -> bool, lo: int, bottom: int, width: nat, m: nat, cells: set<Pos>)
    requires forall q :: q in cells <==> bottom <= q.1 < bottom + m && lo <= q.0 < lo + width && hit(q)
    ensures CountBox(hit, lo, bottom, width, m) == |cells|
  {
    CountBoxCard(hit, lo, bottom, width, m);
    forall q ensures q in cells <==> q in BoxHits(hit, lo, bottom, width, m) {
      BoxHitsIff(hit, lo, bottom, width, m, q);
    }
    assert cells == BoxHits(hit, lo, bottom, width, m);
  }

  lemma {:induction false} CountRowNone(hit: Pos -> bool, lo: int, y: int, n: nat)
    requires forall x :: lo <= x < lo + n ==> !hit((x, y))
    ensures CountRow(hit, lo, y, n) == 0
  {
    if n > 0 {
      CountRowNone(hit, lo, y, n - 1);
    }
  }

  /** A test no cell of the box passes counts nothing. */
  lemma {:induction false} CountBoxNone(hit: Pos -> bool, lo: int, bottom: int, width: nat, m: nat)
    requires forall q :: !hit(q)
    ensures CountBox(hit, lo, bottom, width, m) == 0
  {
    if m > 0 {
      CountBoxNone(hit, lo, bottom, width, m - 1);
      CountRowNone(hit, lo, bottom + m - 1, width);
    }
  }
}
