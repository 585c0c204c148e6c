/** Day 25: code chronicle. Schematics of locks and keys are grids of `#` and
    `.`; a lock and a key fit when no cell is filled in both. */
module Day25 {

  /** A schematic: its rows, as the lines of its section of the input. */
  type Schematic = seq<string>

  /** The first character of a non-empty section is `#` exactly for a lock. A
      section whose first line is empty starts with a line break, so it is a
      key. */
  predicate IsLock(section: Schematic)
    requires |section| > 0
  {
    |section[0]| > 0 && section[0][0] == '#'
  }

  /** The same number of rows, and row by row the same length. */
  predicate SameShape(lock: Schematic, key: Schematic)
  {
    |lock| == |key| && forall y :: 0 <= y < |lock| ==> |lock[y]| == |key[y]|
  }

  /** A cell filled in both schematics. */
  predicate Clash(lock: Schematic, key: Schematic, y: int, x: int)
    requires SameShape(lock, key)
  {
    0 <= y < |lock| && 0 <= x < |lock[y]| && lock[y][x] == '#' && key[y][x] == '#'
  }

  /** Some cell of row y holds `#` in both rows at or after x. */
  function RowClashes(row: string, other: string, x: nat): (r: bool)
    requires |row| == |other| && x <= |row|
    ensures r <==> exists i :: x <= i < |row| && row[i] == '#' && other[i] == '#'
    decreases |row| - x
  {
    if x == |row| then false
    else (row[x] == '#' && other[x] == '#') || RowClashes(row, other, x + 1)
  }

  /** Some row from y on differs in length or has a clash. */
  function RowsReject(lock: Schematic, key: Schematic, y: nat): (r: bool)
    requires |lock| == |key| && y <= |lock|
    ensures r <==> exists i :: y <= i < |lock| &&
                      (|lock[i]| != |key[i]| || exists x :: 0 <= x < |lock[i]| && lock[i][x] == '#' && key[i][x] == '#')
    decreases |lock| - y
  {
    if y == |lock| then false
    else if |lock[y]| != |key[y]| then true
    else RowClashes(lock[y], key[y], 0) || RowsReject(lock, key, y + 1)
  }

  /** `is_compatible`: the row counts agree and no row differs in length or
      has a cell filled in both. */
  function IsCompatible(lock: Schematic, key: Schematic): (r: bool)
    ensures r <==> SameShape(lock, key) && forall y, x :: !Clash(lock, key, y, x)
  {
    if |lock| != |key| then false
    else
      var rejected := RowsReject(lock, key, 0);
      assert !rejected <==> SameShape(lock, key) && forall y, x :: !Clash(lock, key, y, x) by {
        if !rejected {
          assert SameShape(lock, key);
          forall y, x ensures !Clash(lock, key, y, x) {
            if 0 <= y < |lock| && 0 <= x < |lock[y]| {
              assert !(lock[y][x] == '#' && key[y][x] == '#');
            }
          }
        } else {
          var i :| 0 <= i < |lock| &&
            (|lock[i]| != |key[i]| || exists x :: 0 <= x < |lock[i]| && lock[i][x] == '#' && key[i][x] == '#');
          if SameShape(lock, key) {
            var x :| 0 <= x < |lock[i]| && lock[i][x] == '#' && key[i][x] == '#';
            assert Clash(lock, key, i, x);
          }
        }
      }
      !rejected
  }

  /** Whether two schematics fit does not depend on which is the lock. */
  lemma CompatibleSymmetric(a: Schematic, b: Schematic)
    ensures IsCompatible(a, b) == IsCompatible(b, a)
  {
    if IsCompatible(a, b) {
      forall y, x ensures !Clash(b, a, y, x) {
        assert !Clash(a, b, y, x);
      }
    }
    if IsCompatible(b, a) {
      forall y, x ensures !Clash(a, b, y, x) {
        assert !Clash(b, a, y, x);
      }
    }
  }

  /** The non-empty sections that satisfy the lock test, or fail it, in input
      order. */
  function Select(sections: seq<Schematic>, locks: bool): (r: seq<Schematic>)
    ensures |r| <= |sections|
    ensures forall s :: s in r ==> |s| > 0 && IsLock(s) == locks && s in sections
  {
    if |sections| == 0 then []
    else
      var front := Select(sections[..|sections| - 1], locks);
      var s := sections[|sections| - 1];
      if |s| > 0 && IsLock(s) == locks then front + [s] else front
  }

  /** The non-empty sections, in input order. */
  function NonEmpty(sections: seq<Schematic>): seq<Schematic>
  {
    if |sections| == 0 then []
    else
      var front := NonEmpty(sections[..|sections| - 1]);
      var s := sections[|sections| - 1];
      if |s| > 0 then front + [s] else front
  }

  /** Every non-empty section becomes a lock or a key, and the empty ones are
      skipped. */
  lemma {:induction false} SelectPartitions(sections: seq<Schematic>)
    ensures multiset(Select(sections, true)) + multiset(Select(sections, false)) == multiset(NonEmpty(sections))
    decreases |sections|
  {
    if |sections| > 0 {
      SelectPartitions(sections[..|sections| - 1]);
    }
  }

  /** The loop of part one that sorts the sections into locks and keys. */
  method Classify(sections: seq<Schematic>) returns (locks: seq<Schematic>, keys: seq<Schematic>)
    ensures locks == Select(sections, true) && keys == Select(sections, false)
  {
    locks, keys := [], [];
    for i := 0 to |sections|
      invariant locks == Select(sections[..i], true) && keys == Select(sections[..i], false)
    {
      var section := sections[i];
      assert sections[..i + 1][..i] == sections[..i];
      if |section| == 0 {
        continue;
      }
      if IsLock(section) {
        locks := locks + [section];
      } else {
        keys := keys + [section];
      }
    }
    assert sections[..|sections|] == sections;
  }

  /** How many of the keys fit the lock. */
  function Fitting(lock: Schematic, keys: seq<Schematic>): (r: nat)
    ensures r <= |keys|
  {
    if |keys| == 0 then 0
    else Fitting(lock, keys[..|keys| - 1]) + (if IsCompatible(lock, keys[|keys| - 1]) then 1 else 0)
  }

  /** The number of fitting (lock, key) pairs. */
  function Pairs(locks: seq<Schematic>, keys: seq<Schematic>): (r: nat)
    ensures r <= |locks| * |keys|
  {
    if |locks| == 0 then 0
    else
      var n := |locks| - 1;
      assert n * |keys| + |keys| == |locks| * |keys|;
      Pairs(locks[..n], keys) + Fitting(locks[n], keys)
  }

  lemma {:induction false} PairsAppendKey(locks: seq<Schematic>, keys: seq<Schematic>, k: Schematic)
    ensures Pairs(locks, keys + [k]) == Pairs(locks, keys) + Fitting(k, locks)
    decreases |locks|
  {
    if |locks| > 0 {
      var n := |locks| - 1;
      PairsAppendKey(locks[..n], keys, k);
      var ks := keys + [k];
      assert ks[..|ks| - 1] == keys;
      CompatibleSymmetric(locks[n], k);
    }
  }

  /** Counting the pairs from the keys' side gives the same total: every pair
      is counted once, whichever side the sum runs over. */
  lemma {:induction false} PairsSwap(locks: seq<Schematic>, keys: seq<Schematic>)
    ensures Pairs(locks, keys) == Pairs(keys, locks)
    decreases |keys|
  {
    if |keys| > 0 {
      var n := |keys| - 1;
      PairsSwap(locks, keys[..n]);
      assert keys == keys[..n] + [keys[n]];
      PairsAppendKey(locks, keys[..n], keys[n]);
    }
  }

  /** Part one: sort the sections, then count the fitting pairs. */
  method PartOne(sections: seq<Schematic>) returns (count: nat)
    ensures count == Pairs(Select(sections, true), Select(sections, false))
  {
    var locks, keys := Classify(sections);
    count := Pairs(locks, keys);
  }
}
